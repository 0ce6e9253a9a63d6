/// BlackHoleConsumptionCounter (Assets/BlackHoleConsumptionCounter.cs): a
/// label showing how many bodies the black hole has consumed, rewritten
/// only when the count changes. The simulation's body array is a parameter
/// of Update.
module ConsumptionCounter {
  import opened Bodies

  /// The black hole's slot in the major-body array.
  const BlackHoleIndex: nat := 11

  /// The (int) cast of a float: truncation toward zero.
  function TruncateToInt(r: real): (n: int)
    ensures r >= 0.0 ==> 0.0 <= n as real <= r < n as real + 1.0
    ensures r < 0.0 ==> n as real - 1.0 < r <= n as real <= 0.0
  {
    if r >= 0.0 then r.Floor else -((-r).Floor)
  }

  /// The character of a decimal digit.
  function DigitChar(d: nat): char
    requires d < 10
  {
    ('0' as int + d) as char
  }

  /// A digit's character is one of '0' to '9' and reads back as the digit.
  lemma DigitCharValue(d: nat)
    requires d < 10
    ensures '0' <= DigitChar(d) <= '9' && DigitChar(d) as int - '0' as int == d
  {
  }

  /// The decimal digits of n, most significant first, without leading zeros.
  function Digits(n: nat): (s: string)
    ensures |s| >= 1
  {
    if n < 10 then [DigitChar(n)] else Digits(n / 10) + [DigitChar(n % 10)]
  }

  /// int.ToString(): a minus sign for negatives, then the digits.
  function Decimal(n: int): string {
    if n < 0 then "-" + Digits(-n) else Digits(n)
  }

  /// The value of a string of decimal digits.
  function DigitsValue(s: string): nat {
    if |s| == 0 then 0
    else
      var c := s[|s| - 1];
      var d := if '0' <= c <= '9' then (c as int - '0' as int) as nat else 0;
      DigitsValue(s[..|s| - 1]) * 10 + d
  }

  /// Reading a decimal string back, sign included.
  function DecimalValue(s: string): int {
    if |s| > 0 && s[0] == '-' then -(DigitsValue(s[1..]) as int) else DigitsValue(s)
  }

  /// Digits writes only the characters 0 to 9, with no leading zero, and
  /// reading them back gives n.
  lemma {:induction false} DigitsRoundTrip(n: nat)
    ensures DigitsValue(Digits(n)) == n
    ensures forall k :: 0 <= k < |Digits(n)| ==> '0' <= Digits(n)[k] <= '9'
    ensures Digits(n)[0] != '0' || n == 0
  {
    DigitCharValue(n % 10);
    var s := Digits(n);
    if n < 10 {
      assert s == [DigitChar(n)];
      assert s[..0] == [];
    } else {
      var pre := Digits(n / 10);
      DigitsRoundTrip(n / 10);
      assert s == pre + [DigitChar(n % 10)];
      assert s[..|s| - 1] == pre;
      assert DigitsValue(s) == DigitsValue(pre) * 10 + n % 10;
    }
  }

  /// The label text round-trips: Decimal never loses the number, so two
  /// different counts never show the same text.
  lemma DecimalRoundTrip(n: int)
    ensures DecimalValue(Decimal(n)) == n
  {
    if n < 0 {
      DigitsRoundTrip(-n);
      assert ("-" + Digits(-n))[1..] == Digits(-n);
    } else {
      DigitsRoundTrip(n);
    }
  }

  /// The counter's text: "Consumed: " and the count in decimal.
  function Label(count: int): string {
    "Consumed: " + Decimal(count)
  }

  /// Label texts for different counts differ.
  lemma LabelInjective(m: int, n: int)
    requires Label(m) == Label(n)
    ensures m == n
  {
    assert Decimal(m) == Label(m)[10..];
    assert Decimal(n) == Label(n)[10..];
    DecimalRoundTrip(m);
    DecimalRoundTrip(n);
  }

  /// The last count shown and the label, which may be missing (None).
  datatype CounterState = CounterState(lastCount: int, counterText: Option<string>)

  /// One Update: without a black-hole body nothing happens; otherwise a
  /// changed count is stored and, with a label attached, shown.
  function CounterStep(s: CounterState, bodies: Option<seq<Body<real>>>): CounterState {
    if bodies.None? || |bodies.value| <= BlackHoleIndex then s
    else
      var consumedCount := TruncateToInt(bodies.value[BlackHoleIndex].collided);
      if consumedCount == s.lastCount then s
      else CounterState(consumedCount, if s.counterText.Some? then Some(Label(consumedCount)) else None)
  }

  /// After an Update with a black-hole body the stored count is the
  /// truncated counter and a changed count is shown on an attached label;
  /// a label that was showing the stored count still shows it afterwards,
  /// whether or not the count changed; the state only changes when the
  /// count did; and a second Update on the same bodies changes nothing.
  lemma CounterStepEffect(s: CounterState, bodies: Option<seq<Body<real>>>)
    ensures var r := CounterStep(s, bodies);
      && (bodies.None? || |bodies.value| <= BlackHoleIndex ==> r == s)
      && (bodies.Some? && |bodies.value| > BlackHoleIndex ==>
            && r.lastCount == TruncateToInt(bodies.value[BlackHoleIndex].collided)
            && (r != s <==> r.lastCount != s.lastCount)
            && (r.counterText.Some? <==> s.counterText.Some?)
            && (r.lastCount != s.lastCount && r.counterText.Some? ==> r.counterText.value == Label(r.lastCount)))
      && (s.counterText == Some(Label(s.lastCount)) ==> r.counterText == Some(Label(r.lastCount)))
      && CounterStep(r, bodies) == r
  {
  }

  class BlackHoleConsumptionCounter {
    var lastCount: int
    /// The label's text, or None when no label is attached.
    var counterText: Option<string>

    function State(): CounterState
      reads this
    {
      CounterState(lastCount, counterText)
    }

    /// The count starts at 0.
    constructor (counterText: Option<string>)
      ensures lastCount == 0 && this.counterText == counterText
    {
      lastCount := 0;
      this.counterText := counterText;
    }

    /// Update: the fields take CounterStep.
    method Update(bodies: Option<seq<Body<real>>>)
      modifies this
      ensures State() == CounterStep(old(State()), bodies)
    {
      if bodies.None? || |bodies.value| <= BlackHoleIndex {
        return;
      }
      var consumedCount := TruncateToInt(bodies.value[BlackHoleIndex].collided);
      if consumedCount != lastCount {
        lastCount := consumedCount;
        if counterText.Some? {
          counterText := Some(Label(consumedCount));
        }
      }
    }
  }
}
