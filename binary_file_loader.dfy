/// BinaryFileLoader (Assets/BinaryFileLoader.cs): the table of major bodies
/// the simulation starts from, and the catalog that Initialize assembles from
/// the three decoded files.
module BinaryFileLoader {
  import opened UnityMath
  import opened Bodies
  import opened BinaryDataReader

  // ---------------------------------------------------------------------
  // GetSolarSystemBodies

  function Planet(x: real, vz: real, mass: real): Body<real> {
    Body(Vec3(x, 0.0, 0.0), Vec3(0.0, 0.0, vz), mass, 0.0, 0.0)
  }

  /// The Sun at the origin, the eight planets and Pluto on the x axis moving
  /// along z, and Ceres, in that order. Positions in AU, speeds in m/s,
  /// masses in kg; isComet and collided keep the default 0.
  function SolarSystemBodies(): (r: seq<Body<real>>)
    ensures |r| == 11
  {
    [ Body(Zero, Zero, 1.989e30, 0.0, 0.0),                   // Sun
      Planet(0.3871, 47360.0, 3.3011e23),                     // Mercury
      Planet(0.7233, 35020.0, 4.8675e24),                     // Venus
      Planet(1.0000, 29780.0, 5.972e24),                      // Earth
      Planet(1.5237, 24077.0, 6.4171e23),                     // Mars
      Planet(5.2028, 13070.0, 1.8982e27),                     // Jupiter
      Planet(9.5388, 9690.0, 5.6834e26),                      // Saturn
      Planet(19.1914, 6810.0, 8.6810e25),                     // Uranus
      Planet(30.0611, 5430.0, 1.0241e26),                     // Neptune
      Planet(39.4821, 4740.0, 1.303e22),                      // Pluto
      Body(Vec3(1.01, -0.27, -2.72), Vec3(15932.28, -2774.08, 5157.77), 9.383516e18, 0.0, 0.0) ] // Ceres
  }

  /// The table holds eleven bodies: the Sun first, at rest at the origin,
  /// and Ceres last; no entry is a comet or has collided, every mass is
  /// positive, and there is no entry for a black hole.
  lemma SolarSystemTable()
    ensures var t := SolarSystemBodies();
      |t| == 11 && t[0].position == Zero && t[0].velocity == Zero && t[0].mass == 1.989e30
      && t[10].position == Vec3(1.01, -0.27, -2.72) && t[10].mass == 9.383516e18
      && forall k :: 0 <= k < |t| ==> t[k].mass > 0.0 && t[k].isComet == 0.0 && t[k].collided == 0.0
  {
  }

  /// GetSolarSystemBodies: a fresh array holding the table.
  method GetSolarSystemBodies() returns (a: array<Body<real>>)
    ensures fresh(a) && a[..] == SolarSystemBodies()
  {
    var t := SolarSystemBodies();
    a := new Body<real>[|t|](k requires 0 <= k < |t| => t[k]);
  }

  // ---------------------------------------------------------------------
  // Initialize: flag, drop, concatenate, stamp

  /// 1.0f and -1.0f as binary32 bit patterns.
  const One: Bits32 := 0x3F80_0000
  const MinusOne: Bits32 := 0xBF80_0000

  /// The comets with isComet set to 1.0f.
  function Flagged(cs: seq<Body<Bits32>>): (r: seq<Body<Bits32>>)
    ensures |r| == |cs|
    ensures forall k :: 0 <= k < |cs| ==> r[k] == cs[k].(isComet := One)
  {
    seq(|cs|, k requires 0 <= k < |cs| => cs[k].(isComet := One))
  }

  /// Every body with collided set to -1.0f.
  function Stamped(bs: seq<Body<Bits32>>): (r: seq<Body<Bits32>>)
    ensures |r| == |bs|
    ensures forall k :: 0 <= k < |bs| ==> r[k] == bs[k].(collided := MinusOne)
  {
    seq(|bs|, k requires 0 <= k < |bs| => bs[k].(collided := MinusOne))
  }

  /// The minor-body array Initialize hands to the simulation: the flagged
  /// comets, the numbered asteroids without the first, the unnumbered
  /// asteroids, all stamped. None when there is no numbered asteroid: the
  /// array of length -1 cannot be allocated.
  function Catalog(comets: seq<Body<Bits32>>, numbered: seq<Body<Bits32>>, unnumbered: seq<Body<Bits32>>)
    : (r: Option<seq<Body<Bits32>>>)
    ensures r.None? <==> |numbered| == 0
  {
    if |numbered| == 0 then None
    else Some(Stamped(Flagged(comets) + numbered[1..] + unnumbered))
  }

  /// The catalog's layout: its length, then each block in order. Comets are
  /// flagged, asteroids keep the reader's isComet, every body is stamped
  /// collided = -1, and nothing else about a body changes.
  lemma CatalogLayout(comets: seq<Body<Bits32>>, numbered: seq<Body<Bits32>>, unnumbered: seq<Body<Bits32>>)
    requires |numbered| > 0
    ensures var r := Catalog(comets, numbered, unnumbered).value;
      var c, n := |comets|, |numbered| - 1;
      |r| == |comets| + (|numbered| - 1) + |unnumbered|
      && (forall k :: 0 <= k < c ==> r[k] == comets[k].(isComet := One, collided := MinusOne))
      && (forall k :: 1 <= k < |numbered| ==> r[c + k - 1] == numbered[k].(collided := MinusOne))
      && (forall k :: 0 <= k < |unnumbered| ==> r[c + n + k] == unnumbered[k].(collided := MinusOne))
  {
    CometBlock(comets, numbered, unnumbered);
    NumberedBlock(comets, numbered, unnumbered);
    UnnumberedBlock(comets, numbered, unnumbered);
  }

  lemma CometBlock(comets: seq<Body<Bits32>>, numbered: seq<Body<Bits32>>, unnumbered: seq<Body<Bits32>>)
    requires |numbered| > 0
    ensures var r := Catalog(comets, numbered, unnumbered).value;
      |r| == |comets| + (|numbered| - 1) + |unnumbered|
      && forall k :: 0 <= k < |comets| ==> r[k] == comets[k].(isComet := One, collided := MinusOne)
  {
    var sf, sn, su := StampedBlocks(comets, numbered, unnumbered);
    forall k | 0 <= k < |comets|
      ensures (sf + sn + su)[k] == comets[k].(isComet := One, collided := MinusOne)
    {
      ConcatAt(sf, sn, su, k);
    }
  }

  lemma NumberedBlock(comets: seq<Body<Bits32>>, numbered: seq<Body<Bits32>>, unnumbered: seq<Body<Bits32>>)
    requires |numbered| > 0
    ensures var r := Catalog(comets, numbered, unnumbered).value;
      |r| == |comets| + (|numbered| - 1) + |unnumbered|
      && forall k :: 1 <= k < |numbered| ==> r[|comets| + k - 1] == numbered[k].(collided := MinusOne)
  {
    var sf, sn, su := StampedBlocks(comets, numbered, unnumbered);
    forall k | 1 <= k < |numbered|
      ensures (sf + sn + su)[|comets| + k - 1] == numbered[k].(collided := MinusOne)
    {
      var j := k - 1;
      ConcatAt(sf, sn, su, |comets| + j);
      assert sn[j] == numbered[1..][j].(collided := MinusOne);
      assert numbered[1..][j] == numbered[k];
    }
  }

  lemma UnnumberedBlock(comets: seq<Body<Bits32>>, numbered: seq<Body<Bits32>>, unnumbered: seq<Body<Bits32>>)
    requires |numbered| > 0
    ensures var r := Catalog(comets, numbered, unnumbered).value;
      |r| == |comets| + (|numbered| - 1) + |unnumbered|
      && forall k :: 0 <= k < |unnumbered| ==> r[|comets| + (|numbered| - 1) + k] == unnumbered[k].(collided := MinusOne)
  {
    var sf, sn, su := StampedBlocks(comets, numbered, unnumbered);
    forall k | 0 <= k < |unnumbered|
      ensures (sf + sn + su)[|comets| + (|numbered| - 1) + k] == unnumbered[k].(collided := MinusOne)
    {
      ConcatAt(sf, sn, su, |comets| + (|numbered| - 1) + k);
    }
  }

  /// The catalog is the three blocks, each stamped on its own.
  lemma StampedBlocks(comets: seq<Body<Bits32>>, numbered: seq<Body<Bits32>>, unnumbered: seq<Body<Bits32>>)
    returns (sf: seq<Body<Bits32>>, sn: seq<Body<Bits32>>, su: seq<Body<Bits32>>)
    requires |numbered| > 0
    ensures sf == Stamped(Flagged(comets)) && sn == Stamped(numbered[1..]) && su == Stamped(unnumbered)
    ensures Catalog(comets, numbered, unnumbered).value == sf + sn + su
  {
    sf, sn, su := Stamped(Flagged(comets)), Stamped(numbered[1..]), Stamped(unnumbered);
    StampedAppend(Flagged(comets), numbered[1..]);
    StampedAppend(Flagged(comets) + numbered[1..], unnumbered);
  }

  lemma StampedAppend(a: seq<Body<Bits32>>, b: seq<Body<Bits32>>)
    ensures Stamped(a + b) == Stamped(a) + Stamped(b)
  {
    var l, r := Stamped(a + b), Stamped(a) + Stamped(b);
    forall k | 0 <= k < |l| ensures l[k] == r[k] {
      if k < |a| {
        assert (a + b)[k] == a[k];
      } else {
        assert (a + b)[k] == b[k - |a|];
      }
    }
  }

  /// Indexing into three concatenated blocks.
  lemma ConcatAt<T>(a: seq<T>, b: seq<T>, c: seq<T>, k: int)
    requires 0 <= k < |a| + |b| + |c|
    ensures (a + b + c)[k] == if k < |a| then a[k] else if k < |a| + |b| then b[k - |a|] else c[k - |a| - |b|]
  {
  }

  /// Every catalog body has collided = -1.0f, and exactly the comets have
  /// isComet = 1.0f when no asteroid already carried that pattern.
  lemma CatalogFlags(comets: seq<Body<Bits32>>, numbered: seq<Body<Bits32>>, unnumbered: seq<Body<Bits32>>)
    requires |numbered| > 0
    requires forall b :: b in numbered[1..] + unnumbered ==> b.isComet == 0
    ensures var r := Catalog(comets, numbered, unnumbered).value;
      (forall k :: 0 <= k < |r| ==> r[k].collided == MinusOne)
      && (forall k :: 0 <= k < |r| ==> (r[k].isComet == One <==> k < |comets|))
  {
    var all := Flagged(comets) + numbered[1..] + unnumbered;
    forall k | |comets| <= k < |all|
      ensures all[k].isComet == 0
    {
      assert all[k] in numbered[1..] + unnumbered by {
        assert all[k] == (numbered[1..] + unnumbered)[k - |comets|];
      }
    }
  }

  /// What Initialize produces for the simulation controller: the minor
  /// bodies and the major-body table.
  datatype Loaded = Loaded(bodies: array<Body<Bits32>>, majorBodies: array<Body<real>>)

  /// Initialize after the three LoadData calls: flags the comets in place,
  /// drops the first numbered asteroid, concatenates the three blocks into a
  /// new array and stamps every body's collided field. The comet array is
  /// flagged even when the allocation then fails.
  method Initialize(comets: array<Body<Bits32>>, numbered: array<Body<Bits32>>, unnumbered: array<Body<Bits32>>)
    returns (r: Option<Loaded>)
    requires comets != numbered && comets != unnumbered
    modifies comets
    ensures comets[..] == Flagged(old(comets[..]))
    ensures r.None? <==> numbered.Length == 0
    ensures r.Some? ==>
      fresh(r.value.bodies) && fresh(r.value.majorBodies)
      && r.value.bodies[..] == Catalog(old(comets[..]), numbered[..], unnumbered[..]).value
      && r.value.majorBodies[..] == SolarSystemBodies()
  {
    FlagComets(comets);
    var planets := GetSolarSystemBodies();

    // new Body[numbered_asteroids.Length - 1] throws on an empty array.
    if numbered.Length == 0 {
      return None;
    }
    var newNumbered := new Body<Bits32>[numbered.Length - 1];
    ArrayCopy(numbered, 1, newNumbered, 0, newNumbered.Length);
    assert newNumbered[..] == numbered[1..];

    var bodies := Concatenate(comets, newNumbered, unnumbered);
    StampCollided(bodies);
    return Some(Loaded(bodies, planets));
  }

  /// The new array of length c + n + u and the three CopyTo calls filling
  /// it block after block.
  method Concatenate(first: array<Body<Bits32>>, second: array<Body<Bits32>>, third: array<Body<Bits32>>)
    returns (bodies: array<Body<Bits32>>)
    ensures fresh(bodies)
    ensures bodies[..] == first[..] + second[..] + third[..]
  {
    var c, n := first.Length, second.Length;
    bodies := new Body<Bits32>[c + n + third.Length];
    ArrayCopy(first, 0, bodies, 0, c);
    ArrayCopy(second, 0, bodies, c, n);
    ArrayCopy(third, 0, bodies, c + n, third.Length);
    ghost var all := first[..] + second[..] + third[..];
    forall k | 0 <= k < bodies.Length
      ensures bodies[k] == all[k]
    {
      if k < c {
        assert all[k] == first[k];
      } else if k < c + n {
        assert all[k] == second[k - c];
      } else {
        assert all[k] == third[k - c - n];
      }
    }
    assert bodies[..] == all;
  }

  /// The loop setting comets[i].isComet = 1.0f.
  method FlagComets(comets: array<Body<Bits32>>)
    modifies comets
    ensures comets[..] == Flagged(old(comets[..]))
  {
    ghost var cs := comets[..];
    var i := 0;
    while i < comets.Length
      invariant 0 <= i <= comets.Length
      invariant forall k :: 0 <= k < comets.Length ==>
        comets[k] == if k < i then cs[k].(isComet := One) else cs[k]
    {
      comets[i] := comets[i].(isComet := One);
      i := i + 1;
    }
    assert comets[..] == Flagged(cs);
  }

  /// The loop setting bodies[i].collided = -1.0f.
  method StampCollided(bodies: array<Body<Bits32>>)
    modifies bodies
    ensures bodies[..] == Stamped(old(bodies[..]))
  {
    ghost var all := bodies[..];
    var i := 0;
    while i < bodies.Length
      invariant 0 <= i <= bodies.Length
      invariant forall k :: 0 <= k < bodies.Length ==>
        bodies[k] == if k < i then all[k].(collided := MinusOne) else all[k]
    {
      bodies[i] := bodies[i].(collided := MinusOne);
      i := i + 1;
    }
    assert bodies[..] == Stamped(all);
  }

  /// Array.Copy(src, srcIndex, dst, dstIndex, length), and CopyTo with
  /// srcIndex 0 and the whole source: the range is overwritten, the rest of
  /// the destination is kept.
  method ArrayCopy(src: array<Body<Bits32>>, srcIndex: nat, dst: array<Body<Bits32>>, dstIndex: nat, length: nat)
    requires src != dst
    requires srcIndex + length <= src.Length && dstIndex + length <= dst.Length
    modifies dst
    ensures forall k :: 0 <= k < dst.Length ==>
      dst[k] == if dstIndex <= k < dstIndex + length then src[srcIndex + (k - dstIndex)] else old(dst[k])
  {
    var i := 0;
    while i < length
      invariant 0 <= i <= length
      invariant forall k :: 0 <= k < dst.Length ==>
        dst[k] == if dstIndex <= k < dstIndex + i then src[srcIndex + (k - dstIndex)] else old(dst[k])
    {
      dst[dstIndex + i] := src[srcIndex + i];
      i := i + 1;
    }
  }
}
