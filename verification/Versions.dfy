/** The OpenFlow versions a server supports: a bitmap, and the largest of them. */
module Versions {

  const ONE: bv32 := 1

  /** The bitmap of one version. */
  function Bit(v: bv32): bv32
    requires v < 32
  {
    ONE << v
  }

  predicate Meets(a: bv32, b: bv32) {
    a & b != 0
  }

  function Or(a: bv32, b: bv32): bv32 {
    a | b
  }

  /** The bitmap has version v. */
  predicate Has(bitmap: bv32, v: bv32)
    requires v < 32
  {
    Meets(bitmap, Bit(v))
  }

  lemma BitSelf(v: bv32)
    requires v < 32
    ensures Meets(Bit(v), Bit(v))
  {
  }

  lemma BitsApart(v: bv32, w: bv32)
    requires v < 32 && w < 32 && v != w
    ensures !Meets(Bit(v), Bit(w))
  {
  }

  lemma OrDistributes(a: bv32, b: bv32, c: bv32)
    ensures Or(a, b) & c == Or(a & c, b & c)
  {
  }

  lemma OrZero(x: bv32, y: bv32)
    ensures Or(x, y) == 0 <==> x == 0 && y == 0
  {
  }

  lemma OrApart(a: bv32, b: bv32, c: bv32)
    ensures Meets(Or(a, b), c) <==> Meets(a, c) || Meets(b, c)
  {
    OrDistributes(a, b, c);
    OrZero(a & c, b & c);
    hide Or;
  }

  lemma AddBit(bitmap: bv32, v: bv32, w: bv32)
    requires v < 32 && w < 32
    ensures Has(Or(bitmap, Bit(v)), w) <==> Has(bitmap, w) || w == v
  {
    hide Bit, Meets, Or;
    OrApart(bitmap, Bit(v), Bit(w));
    if v == w { BitSelf(v); } else { BitsApart(v, w); }
  }

  lemma NoBits(v: bv32)
    requires v < 32
    ensures !Has(0, v)
  {
  }

  /** The bitmap without its k lowest versions. */
  function Shifted(bitmap: bv32, k: bv32): bv32
    requires k <= 32
  {
    bitmap >> k
  }

  /** When one bit is left after shifting out m, that bit is the largest version. */
  lemma OneBitLeft(bitmap: bv32, m: bv32, v: bv32)
    requires m < 32 && Shifted(bitmap, m) == 1 && v < 32
    ensures Has(bitmap, m) && (Has(bitmap, v) ==> v <= m)
  {
  }

  lemma ShiftOnce(bitmap: bv32, k: bv32)
    requires k < 32
    ensures Shifted(bitmap, k) >> 1 == Shifted(bitmap, k + 1)
  {
  }

  lemma LastShift(x: bv32)
    requires x != 0 && x >> 1 == 0
    ensures x == 1
  {
  }

  lemma ShiftedEnds(bitmap: bv32)
    ensures Shifted(bitmap, 0) == bitmap && Shifted(bitmap, 32) == 0
  {
  }

  lemma BothBits(a: bv32, b: bv32, v: bv32)
    requires v < 32
    ensures Has(a & b, v) ==> Has(a, v) && Has(b, v)
  {
  }

  lemma BothBitsBack(a: bv32, b: bv32, v: bv32)
    requires v < 32 && Has(a, v) && Has(b, v)
    ensures Meets(a, b)
  {
  }

  /** A bitmap that is not 0 has a version. */
  lemma {:induction false} SomeBit(bitmap: bv32, k: bv32) returns (v: bv32)
    requires k <= 32 && Shifted(bitmap, k) != 0
    ensures v < 32 && Has(bitmap, v)
    decreases 32 - k
  {
    ShiftedEnds(bitmap);
    hide Shifted, Has, Meets, Bit;
    if Shifted(bitmap, k) == 1 {
      OneBitLeft(bitmap, k, k);
      v := k;
    } else {
      ShiftOnce(bitmap, k);
      v := SomeBit(bitmap, k + 1);
    }
  }

  /** Two bitmaps meet exactly when they have a version in common. */
  lemma MeetsIff(a: bv32, b: bv32)
    ensures Meets(a, b) <==> exists v: bv32 | v < 32 :: Has(a, v) && Has(b, v)
  {
    if Meets(a, b) {
      ShiftedEnds(a & b);
      var v := SomeBit(a & b, 0);
      BothBits(a, b, v);
    }
    hide Meets, Bit;
    forall v: bv32 | v < 32 && Has(a, v) && Has(b, v) ensures Meets(a, b) {
      BothBitsBack(a, b, v);
    }
  }

  /** The bitmaps of single versions, as numbers. */
  lemma BitValues()
    ensures Bit(0) == 1 && Bit(1) == 2 && Bit(4) == 16 && Bit(31) == 0x8000_0000
  {
  }

  class OFServerSettings {
    var supportedVersions: bv32
    var maxSupportedVersion: bv32
    var versionSetByHand: bool
    // the versions declared so far, or the default
    ghost var declared: set<bv32>

    /** The bitmap is exactly the set of versions declared, and the maximum is its largest element. */
    ghost predicate Valid()
      reads this
    {
      && declared != {}
      && (!versionSetByHand ==> declared == {1})
      && (forall v | v in declared :: v < 32)
      && (forall v: bv32 | v < 32 :: Has(supportedVersions, v) <==> v in declared)
      && maxSupportedVersion in declared
      && (forall v | v in declared :: v <= maxSupportedVersion)
    }

    constructor ()
      ensures Valid() && !versionSetByHand && declared == {1}
    {
      supportedVersions, maxSupportedVersion, versionSetByHand, declared := 0, 0, false, {};
      new;
      forall v: bv32 | v < 32 ensures !Has(supportedVersions, v) { NoBits(v); }
      AddVersion(1);
    }

    /** Declare a version; the first declaration by hand replaces the default. */
    method SupportedVersion(version: bv32)
      requires Valid() && version <= 30
      modifies this
      ensures Valid() && versionSetByHand
      ensures declared == (if old(versionSetByHand) then old(declared) else {}) + {version}
    {
      hide Has;
      if !versionSetByHand {
        versionSetByHand := true;
        supportedVersions := 0;
        declared := {};
        forall v: bv32 | v < 32 ensures !Has(supportedVersions, v) { NoBits(v); }
      }
      AddVersion(version);
    }

    method AddVersion(version: bv32)
      requires version <= 30
      requires forall v | v in declared :: v < 32
      requires forall v: bv32 | v < 32 :: Has(supportedVersions, v) <==> v in declared
      modifies this`supportedVersions, this`maxSupportedVersion, this`declared
      ensures declared == old(declared) + {version}
      ensures forall v: bv32 | v < 32 :: Has(supportedVersions, v) <==> v in declared
      ensures maxSupportedVersion in declared && forall v | v in declared :: v <= maxSupportedVersion
    {
      hide Has, Bit, Shifted, Or;
      forall v: bv32 | v < 32 ensures Has(Or(supportedVersions, Bit(version)), v) <==> v in declared + {version} {
        AddBit(supportedVersions, version, v);
      }
      supportedVersions := Or(supportedVersions, Bit(version));
      declared := declared + {version};
      assert Has(supportedVersions, version);
      if supportedVersions == 0 { NoBits(version); }
      maxSupportedVersion := CountShifts(supportedVersions);
      maxSupportedVersion := maxSupportedVersion - 1;
      forall v: bv32 | v < 32 ensures Has(supportedVersions, v) ==> v <= maxSupportedVersion {
        OneBitLeft(supportedVersions, maxSupportedVersion, v);
      }
      OneBitLeft(supportedVersions, maxSupportedVersion, version);
    }
  }

  /** How often a bitmap can be shifted right until nothing is left. */
  method CountShifts(bitmap: bv32) returns (n: bv32)
    requires bitmap != 0
    ensures 0 < n <= 32 && Shifted(bitmap, n - 1) == 1
  {
    hide Shifted;
    n := 0;
    var x := bitmap;
    ShiftedEnds(bitmap);
    while x > 0
      invariant n <= 32 && x == Shifted(bitmap, n)
      invariant 0 < n ==> Shifted(bitmap, n - 1) != 0
      decreases 32 - n
    {
      assert n != 32;
      ShiftOnce(bitmap, n);
      x := x >> 1;
      n := n + 1;
    }
    ShiftOnce(bitmap, n - 1);
    LastShift(Shifted(bitmap, n - 1));
  }
}
