/// BinaryDataReader.LoadData (Assets/BinaryDataReader.cs:15-57) over the
/// bytes of a catalog file: a little-endian int32 count, then `count`
/// records of seven IEEE 754 binary32 values (position, velocity, mass);
/// records with a NaN or infinite position or velocity component are dropped.
/// Values are kept as their 32-bit patterns, so nothing is lost to rounding.
module BinaryDataReader {
  import opened UnityMath
  import opened Bodies

  type byte = x: int | 0 <= x < 0x100

  /// The bit pattern of a binary32 value (or of an int32).
  type Bits32 = x: int | 0 <= x < 0x1_0000_0000

  /// Four bytes read least significant first (BinaryReader and
  /// BitConverter on a little-endian machine).
  function U32(b: seq<byte>): Bits32
    requires |b| == 4
  {
    var b0, b1, b2, b3: int := b[0], b[1], b[2], b[3];
    b0 + 0x100 * b1 + 0x1_0000 * b2 + 0x100_0000 * b3
  }

  /// The four bytes of a 32-bit pattern, least significant first.
  function LE(x: Bits32): (r: seq<byte>)
    ensures |r| == 4
  {
    [x % 0x100, (x / 0x100) % 0x100, (x / 0x1_0000) % 0x100, x / 0x100_0000]
  }

  /// Reading back the bytes of a pattern gives the pattern.
  lemma U32OfLE(x: Bits32)
    ensures U32(LE(x)) == x
  {
    var q1, q2, q3 := x / 0x100, x / 0x1_0000, x / 0x100_0000;
    var c0, c1, c2: int := x % 0x100, q1 % 0x100, q2 % 0x100;
    assert x == c0 + 0x100 * q1;
    assert q1 == c1 + 0x100 * (q1 / 0x100);
    DivMod16(x, q1 / 0x100, c0 + 0x100 * c1);
    assert q2 == c2 + 0x100 * (q2 / 0x100);
    DivMod24(x, q2 / 0x100, c0 + 0x100 * c1 + 0x1_0000 * c2);
  }

  /// Writing out the pattern of four bytes gives the bytes.
  lemma LEOfU32(b: seq<byte>)
    requires |b| == 4
    ensures LE(U32(b)) == b
  {
    var x := U32(b);
    var b0, b1, b2, b3: int := b[0], b[1], b[2], b[3];
    DivMod8(x, b1 + 0x100 * b2 + 0x1_0000 * b3, b0);
    DivMod8(b1 + 0x100 * b2 + 0x1_0000 * b3, b2 + 0x100 * b3, b1);
    DivMod16(x, b2 + 0x100 * b3, b0 + 0x100 * b1);
    DivMod8(b2 + 0x100 * b3, b3, b2);
    DivMod24(x, b3, b0 + 0x100 * b1 + 0x1_0000 * b2);
  }

  /// Quotient and remainder by 2^8, 2^16 and 2^24 are unique.
  lemma DivMod8(x: int, q: int, r: int)
    requires 0 <= r < 0x100 && x == r + 0x100 * q
    ensures x / 0x100 == q && x % 0x100 == r
  {
  }

  lemma DivMod16(x: int, q: int, r: int)
    requires 0 <= r < 0x1_0000 && x == r + 0x1_0000 * q
    ensures x / 0x1_0000 == q
  {
  }

  lemma DivMod24(x: int, q: int, r: int)
    requires 0 <= r < 0x100_0000 && x == r + 0x100_0000 * q
    ensures x / 0x100_0000 == q
  {
  }

  /// Two's complement reading of a 32-bit pattern (ReadInt32).
  function Int32(u: Bits32): (r: int)
    ensures -0x8000_0000 <= r < 0x8000_0000
    ensures r >= 0 ==> r == u
    ensures r < 0 ==> r == u - 0x1_0000_0000
  {
    if u < 0x8000_0000 then u else u - 0x1_0000_0000
  }

  /// float.IsNaN and float.IsInfinity on the bits. The infinities are
  /// 0x7F80_0000 and 0xFF80_0000; the NaNs are the patterns above either one
  /// that keep the same sign bit.
  predicate IsNaN(u: Bits32) {
    (0x7F80_0000 < u < 0x8000_0000) || 0xFF80_0000 < u
  }

  predicate IsInfinity(u: Bits32) {
    u == 0x7F80_0000 || u == 0xFF80_0000
  }

  /// Biased exponent (bits 23-30) and fraction (bits 0-22) of a binary32.
  function Exponent(u: Bits32): int { (u / 0x80_0000) % 0x100 }

  function Fraction(u: Bits32): int { u % 0x80_0000 }

  /// The two tests are the ones IEEE 754-2019 (section 3.4) gives: all-ones
  /// exponent with a non-zero fraction is NaN, with a zero fraction infinity.
  lemma SpecialValues(u: Bits32)
    ensures IsNaN(u) <==> Exponent(u) == 0xFF && Fraction(u) != 0
    ensures IsInfinity(u) <==> Exponent(u) == 0xFF && Fraction(u) == 0
  {
    var e, f := u / 0x80_0000, u % 0x80_0000;
    assert u == f + 0x80_0000 * e;
    if e < 0x100 {
      assert Exponent(u) == e;
    } else {
      assert Exponent(u) == e - 0x100;
    }
  }

  /// IsValidVector: no component is NaN or Infinity.
  predicate IsValidVector(v: Vec3<Bits32>) {
    !(IsNaN(v.x) || IsNaN(v.y) || IsNaN(v.z) || IsInfinity(v.x) || IsInfinity(v.y) || IsInfinity(v.z))
  }

  /// A vector is valid exactly when no component has the all-ones exponent.
  lemma ValidIffFinite(v: Vec3<Bits32>)
    ensures IsValidVector(v) <==> Exponent(v.x) != 0xFF && Exponent(v.y) != 0xFF && Exponent(v.z) != 0xFF
  {
    SpecialValues(v.x);
    SpecialValues(v.y);
    SpecialValues(v.z);
  }

  /// The record filter: position and velocity are checked, mass is not.
  predicate Keep(b: Body<Bits32>) {
    IsValidVector(b.position) && IsValidVector(b.velocity)
  }

  /// The bodies that pass the filter, in their original order.
  function Filter(bs: seq<Body<Bits32>>): (r: seq<Body<Bits32>>)
    ensures |r| <= |bs|
  {
    if |bs| == 0 then [] else Filter(bs[..|bs| - 1]) + (if Keep(bs[|bs| - 1]) then [bs[|bs| - 1]] else [])
  }

  /// Everything the filter lets through came from its input and is valid.
  lemma {:induction false} FilterValid(bs: seq<Body<Bits32>>)
    ensures forall b :: b in Filter(bs) ==> b in bs && Keep(b)
  {
    if |bs| > 0 {
      var init := bs[..|bs| - 1];
      FilterValid(init);
      assert forall b :: b in init ==> b in bs;
    }
  }

  /// Filtering one more body appends it exactly when it passes.
  lemma FilterSnoc(bs: seq<Body<Bits32>>, b: Body<Bits32>)
    ensures Filter(bs + [b]) == Filter(bs) + (if Keep(b) then [b] else [])
  {
    assert (bs + [b])[..|bs|] == bs;
  }

  /// A record is 28 bytes: seven values of four bytes each.
  function DecodeRecord(r: seq<byte>): Body<Bits32>
    requires |r| == 28
  {
    Body(Vec3(U32(r[0..4]), U32(r[4..8]), U32(r[8..12])),
         Vec3(U32(r[12..16]), U32(r[16..20]), U32(r[20..24])),
         U32(r[24..28]), 0, 0)
  }

  /// Record `k` of a file, after the 4-byte count. isComet and collided keep
  /// the default 0.
  function RecordAt(data: seq<byte>, k: nat): (r: Body<Bits32>)
    requires 4 + 28 * k + 28 <= |data|
    ensures r.isComet == 0 && r.collided == 0
  {
    DecodeRecord(data[4 + 28 * k .. 4 + 28 * k + 28])
  }

  /// The first n records of a file, valid or not.
  function Parse(data: seq<byte>, n: nat): (r: seq<Body<Bits32>>)
    requires 4 + 28 * n <= |data|
    ensures |r| == n
  {
    seq(n, k requires 0 <= k < n => RecordAt(data, k))
  }

  /// Reading one more record extends the parsed prefix by that record.
  lemma ParseSnoc(data: seq<byte>, n: nat)
    requires 4 + 28 * n + 28 <= |data|
    ensures Parse(data, n + 1) == Parse(data, n) + [RecordAt(data, n)]
  {
    assert Parse(data, n + 1)[..n] == Parse(data, n);
  }

  /// The count in the first four bytes.
  function Count(data: seq<byte>): int
    requires |data| >= 4
  {
    Int32(U32(data[0..4]))
  }

  /// LoadData as a function of the file's bytes: None when ReadInt32 or a
  /// field read runs out of input (the call throws and returns nothing),
  /// otherwise the valid records among the first `count`. A count of zero or
  /// less reads no record.
  function Decode(data: seq<byte>): (r: Option<seq<Body<Bits32>>>)
    ensures r.None? <==> |data| < 4 || (Count(data) > 0 && |data| < 4 + 28 * Count(data))
    ensures r.Some? ==> |r.value| <= (if Count(data) > 0 then Count(data) else 0)
    ensures r.Some? && Count(data) <= 0 ==> r.value == []
    ensures r.Some? ==> forall b :: b in r.value ==> Keep(b) && b.isComet == 0 && b.collided == 0
  {
    if |data| < 4 then None
    else if Count(data) <= 0 then Some([])
    else if |data| < 4 + 28 * Count(data) then None
    else
      var parsed := Parse(data, Count(data));
      FilterValid(parsed);
      Some(Filter(parsed))
  }

  /// One record: BitConverter.ToSingle of the next four bytes, seven
  /// times, with the stream at byte 4 + 28k.
  method ReadRecord(data: seq<byte>, pos: int, k: nat) returns (body: Body<Bits32>)
    requires pos == 4 + 28 * k && pos + 28 <= |data|
    ensures body == RecordAt(data, k)
  {
    body := DecodeRecord(data[pos .. pos + 28]);
  }

  /// LoadData: reads the count, then one record at a time, appending the
  /// valid ones to a list.
  method LoadData(data: seq<byte>) returns (r: Option<seq<Body<Bits32>>>)
    ensures r == Decode(data)
  {
    if |data| < 4 {
      return None;
    }
    var count := Int32(U32(data[0..4]));
    var bodies: seq<Body<Bits32>> := [];
    var pos := 4;
    var i := 0;
    while i < count
      invariant 0 <= i <= (if count > 0 then count else 0)
      invariant pos == 4 + 28 * i <= |data|
      invariant bodies == Filter(Parse(data, i))
    {
      // A short ReadBytes(4) makes BitConverter.ToSingle throw.
      if pos + 28 > |data| {
        assert |data| < 4 + 28 * count;
        assert Decode(data) == None;
        return None;
      }
      var body := ReadRecord(data, pos, i);
      ParseSnoc(data, i);
      FilterSnoc(Parse(data, i), body);
      if Keep(body) {
        bodies := bodies + [body];
      }
      pos := pos + 28;
      i := i + 1;
    }
    assert count == Count(data);
    if count <= 0 {
      assert bodies == [];
    } else {
      assert i == Count(data);
    }
    return Some(bodies);
  }

  // ---------------------------------------------------------------------
  // Encoding, and the round trip

  /// The 28 bytes of a record: the seven patterns, little-endian.
  function RecordBytes(b: Body<Bits32>): (r: seq<byte>)
    ensures |r| == 28
  {
    LE(b.position.x) + LE(b.position.y) + LE(b.position.z)
      + LE(b.velocity.x) + LE(b.velocity.y) + LE(b.velocity.z) + LE(b.mass)
  }

  /// The records of `bs`, one after the other.
  function Payload(bs: seq<Body<Bits32>>): (r: seq<byte>)
    ensures |r| == 28 * |bs|
  {
    if |bs| == 0 then [] else Payload(bs[..|bs| - 1]) + RecordBytes(bs[|bs| - 1])
  }

  /// A file holding `bs`: the count, then every record.
  function Encode(bs: seq<Body<Bits32>>): (r: seq<byte>)
    requires |bs| < 0x8000_0000
    ensures |r| == 4 + 28 * |bs|
  {
    LE(|bs|) + Payload(bs)
  }

  /// What the reader makes of a body: its flags are not in the file.
  function Stripped(b: Body<Bits32>): Body<Bits32> {
    b.(isComet := 0, collided := 0)
  }

  /// Every body stripped of its flags.
  function Strip(bs: seq<Body<Bits32>>): (r: seq<Body<Bits32>>)
    ensures |r| == |bs|
    ensures forall k :: 0 <= k < |bs| ==> r[k] == Stripped(bs[k])
  {
    seq(|bs|, k requires 0 <= k < |bs| => Stripped(bs[k]))
  }

  lemma DecodeRecordBytes(b: Body<Bits32>)
    ensures DecodeRecord(RecordBytes(b)) == Stripped(b)
  {
    var r := RecordBytes(b);
    assert r[0..4] == LE(b.position.x);
    assert r[4..8] == LE(b.position.y);
    assert r[8..12] == LE(b.position.z);
    assert r[12..16] == LE(b.velocity.x);
    assert r[16..20] == LE(b.velocity.y);
    assert r[20..24] == LE(b.velocity.z);
    assert r[24..28] == LE(b.mass);
    U32OfLE(b.position.x);
    U32OfLE(b.position.y);
    U32OfLE(b.position.z);
    U32OfLE(b.velocity.x);
    U32OfLE(b.velocity.y);
    U32OfLE(b.velocity.z);
    U32OfLE(b.mass);
  }

  /// Record k of the payload sits at bytes 28k .. 28k+27.
  lemma {:induction false} PayloadAt(bs: seq<Body<Bits32>>, k: nat)
    requires k < |bs|
    ensures Payload(bs)[28 * k .. 28 * k + 28] == RecordBytes(bs[k])
    decreases |bs|
  {
    var init := bs[..|bs| - 1];
    assert Payload(bs) == Payload(init) + RecordBytes(bs[|bs| - 1]);
    if k < |bs| - 1 {
      PayloadAt(init, k);
      assert init[k] == bs[k];
    }
  }

  /// Record k of an encoding is body k without its flags.
  lemma RecordOfEncoding(bs: seq<Body<Bits32>>, k: nat)
    requires |bs| < 0x8000_0000 && k < |bs|
    ensures RecordAt(Encode(bs), k) == Stripped(bs[k])
  {
    var e := Encode(bs);
    assert e[4 + 28 * k .. 4 + 28 * k + 28] == Payload(bs)[28 * k .. 28 * k + 28];
    PayloadAt(bs, k);
    DecodeRecordBytes(bs[k]);
  }

  /// The bodies the reader keeps from a file holding `bs`.
  function Kept(bs: seq<Body<Bits32>>): seq<Body<Bits32>> {
    Filter(Strip(bs))
  }

  /// Encoding bodies in the file layout and decoding returns the ones with
  /// finite position and velocity, in order, with flags cleared.
  lemma RoundTrip(bs: seq<Body<Bits32>>)
    requires |bs| < 0x8000_0000
    ensures Decode(Encode(bs)) == Some(Kept(bs))
  {
    var e := Encode(bs);
    assert e[0..4] == LE(|bs|);
    U32OfLE(|bs|);
    assert Count(e) == |bs|;
    forall k | 0 <= k < |bs|
      ensures Parse(e, |bs|)[k] == Strip(bs)[k]
    {
      RecordOfEncoding(bs, k);
    }
    assert Parse(e, |bs|) == Strip(bs);
  }

  /// Bodies that pass the filter come through it unchanged.
  lemma {:induction false} FilterKeepsValid(bs: seq<Body<Bits32>>)
    requires forall b :: b in bs ==> Keep(b)
    ensures Filter(bs) == bs
  {
    if |bs| > 0 {
      var init := bs[..|bs| - 1];
      assert forall b :: b in init ==> b in bs;
      FilterKeepsValid(init);
      assert init + [bs[|bs| - 1]] == bs;
    }
  }

  /// Bodies that the reader would keep and whose flags are already 0 come
  /// back unchanged.
  lemma KeptValid(bs: seq<Body<Bits32>>)
    requires forall b :: b in bs ==> Keep(b) && b.isComet == 0 && b.collided == 0
    ensures Kept(bs) == bs
  {
    assert Strip(bs) == bs;
    FilterKeepsValid(bs);
  }

  /// Bytes after the last record are never read.
  lemma TrailingBytesIgnored(data: seq<byte>, extra: seq<byte>)
    requires Decode(data).Some?
    ensures Decode(data + extra) == Decode(data)
  {
    assert (data + extra)[0..4] == data[0..4];
    if Count(data) > 0 {
      var n := Count(data);
      forall k | 0 <= k < n
        ensures Parse(data + extra, n)[k] == Parse(data, n)[k]
      {
        assert (data + extra)[4 + 28 * k .. 4 + 28 * k + 28] == data[4 + 28 * k .. 4 + 28 * k + 28];
      }
      assert Parse(data + extra, n) == Parse(data, n);
    }
  }
}
