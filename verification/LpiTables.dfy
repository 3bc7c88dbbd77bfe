/** The sizes of the LPI tables in platform/pal_uefi/src_gic_its/bsa_gic_its.c and bsa_gic_redistributor.c, and the LPIs
    that val_gic_is_valid_lpi in val/src/acs_gic_support.c lets through. */
module LpiTables {
  import opened Bits

  const ARM_LPI_MINID := 8192
  const ARM_LPI_MIN_IDBITS := 14
  const ARM_LPI_MAX_IDBITS := 31
  const PAGE := 4096

  /** The ID bits an ITS is given: the smaller of what the distributor and the ITS implement. */
  function IdBits(gicdTyper: nat, gitsTyper: nat): nat {
    var gicd, gits := gicdTyper / 0x8_0000 % 0x20, gitsTyper / 0x100 % 0x20;
    if gicd < gits then gicd else gits
  }

  lemma IdBitsEnough(gicdTyper: nat, gitsTyper: nat)
    ensures IdBits(gicdTyper, gitsTyper) >= ARM_LPI_MIN_IDBITS <==>
      gicdTyper / 0x8_0000 % 0x20 >= 14 && gitsTyper / 0x100 % 0x20 >= 14
  {
  }

  /** GICR_PROPBASER after the ID bits of every ITS were ORed into it. */
  function Combined(propbaser: nat, bits: seq<nat>): nat {
    if bits == [] then propbaser else BitOr(Combined(propbaser, bits[..|bits| - 1]), bits[|bits| - 1])
  }

  /** Its IDbits field. */
  function Field(propbaser: nat): (f: nat)
    ensures f < 0x20
  {
    propbaser % 0x20
  }

  function ConfigTableSize(f: nat): int {
    Pow2(f + 1) - ARM_LPI_MINID
  }

  function PendingTableSize(f: nat): nat {
    Pow2(f + 1) / 8
  }

  /** Pages that are allocated for a table: one more than it needs. */
  function Pages(size: int): int {
    (size + PAGE - 1) / PAGE + 1
  }

  /** The configuration table has a byte for each LPI of as many ID bits as the field and one more, and for nothing
      else; the pending table has a bit for each interrupt of these. */
  lemma TablesFitIff(f: nat, id: nat)
    requires f < 0x20
    ensures 0 <= id - 8192 < ConfigTableSize(f) <==> 8192 <= id < Pow2(f + 1)
    ensures f >= 2 ==> (id / 8 < PendingTableSize(f) <==> id < Pow2(f + 1))
  {
    hide Pow2;
    if f >= 2 {
      Pow2Add(3, f - 2);
      Pow2Values();
    }
  }

  /** Pages of 4096 bytes are allocated for a table: as many as it needs, and one. */
  lemma PagesFit(size: int)
    requires size > 0
    ensures 4096 * (Pages(size) - 2) < size <= 4096 * (Pages(size) - 1)
  {
  }

  class Setup {
    var propbaser: nat
    /** GicIts[].IDBits. */
    const idBits: array<nat>

    constructor (propbaser: nat, idBits: array<nat>)
      ensures this.propbaser == propbaser && this.idBits == idBits
    {
      this.propbaser, this.idBits := propbaser, idBits;
    }

    /** SetInitialConfiguration. */
    method SetInitialConfiguration(i: nat, gicdTyper: nat, gitsTyper: nat) returns (ok: bool)
      requires i < idBits.Length
      modifies this, idBits
      ensures ok <==> gicdTyper / 0x8_0000 % 0x20 >= 14 && gitsTyper / 0x100 % 0x20 >= 14
      ensures ok ==> idBits[i] <= gicdTyper / 0x8_0000 % 0x20 && idBits[i] <= gitsTyper / 0x100 % 0x20
      ensures ok ==> idBits[i] in {gicdTyper / 0x8_0000 % 0x20, gitsTyper / 0x100 % 0x20}
      ensures ok <==> IdBits(gicdTyper, gitsTyper) >= ARM_LPI_MIN_IDBITS
      ensures propbaser == if ok then BitOr(old(propbaser), IdBits(gicdTyper, gitsTyper)) else old(propbaser)
      ensures idBits[..] == if ok then old(idBits[..])[i := IdBits(gicdTyper, gitsTyper)] else old(idBits[..])
    {
      hide BitOr;
      var bits := IdBits(gicdTyper, gitsTyper);
      if bits < ARM_LPI_MIN_IDBITS {
        return false;
      }
      idBits[i] := bits;
      propbaser := BitOr(propbaser, bits);
      return true;
    }

    /** The loop of ArmGicItsConfiguration. */
    method Configure(gicdTyper: nat, gitsTypers: seq<nat>) returns (ok: bool)
      requires |gitsTypers| == idBits.Length
      modifies this, idBits
      ensures ok <==> forall i :: 0 <= i < idBits.Length ==>
        gicdTyper / 0x8_0000 % 0x20 >= 14 && gitsTypers[i] / 0x100 % 0x20 >= 14
      ensures ok ==> forall i :: 0 <= i < idBits.Length ==> idBits[i] == IdBits(gicdTyper, gitsTypers[i])
      ensures ok ==> propbaser == Combined(old(propbaser), idBits[..])
    {
      hide BitOr, IdBits;
      forall i | 0 <= i < idBits.Length
        ensures IdBits(gicdTyper, gitsTypers[i]) >= ARM_LPI_MIN_IDBITS <==>
          gicdTyper / 0x8_0000 % 0x20 >= 14 && gitsTypers[i] / 0x100 % 0x20 >= 14
      {
        IdBitsEnough(gicdTyper, gitsTypers[i]);
      }
      var i := 0;
      while i < idBits.Length
        invariant i <= idBits.Length
        invariant forall j :: 0 <= j < i ==> idBits[j] == IdBits(gicdTyper, gitsTypers[j]) >= ARM_LPI_MIN_IDBITS
        invariant propbaser == Combined(old(propbaser), idBits[..i])
      {
        ghost var before := idBits[..i];
        ok := SetInitialConfiguration(i, gicdTyper, gitsTypers[i]);
        if !ok {
          return;
        }
        assert idBits[..i + 1][..i] == before;
        i := i + 1;
      }
      assert idBits[..i] == idBits[..];
      return true;
    }

    /** ArmGicItsGetMaxLpiID; `undefined` is what the machine makes of a shift out of the 31 value bits of an int. */
    method MaxLpiId(setupDone: bool, undefined: nat) returns (id: nat)
      ensures idBits.Length == 0 || !setupDone ==> id == 0
      ensures idBits.Length > 0 && setupDone ==> exists m: nat :: IsLeast(idBits[..], m) && id == MaxId(m, undefined)
    {
      hide Pow2, MaxId;
      if idBits.Length == 0 || !setupDone {
        return 0;
      }
      var least: nat, i := ARM_LPI_MAX_IDBITS, 0;
      while i < idBits.Length
        invariant i <= idBits.Length && IsLeast(idBits[..i], least)
      {
        assert idBits[..i + 1] == idBits[..i] + [idBits[i]];
        least := if least < idBits[i] then least else idBits[i];
        i := i + 1;
      }
      assert idBits[..i] == idBits[..];
      return MaxId(least, undefined);
    }
  }

  /** `(1 << (m + 1)) - 1` as an unsigned 32-bit value. */
  function MaxId(m: nat, undefined: nat): nat {
    (IntShift(m + 1, undefined) + 0xFFFF_FFFF) % 0x1_0000_0000
  }

  /** `1 << n`. */
  function IntShift(n: nat, undefined: nat): nat {
    if n < 31 then Pow2(n) else undefined
  }

  /** On every machine it is the largest ID of the ID bits exactly when they are fewer than 30. */
  lemma MaxIdIff(m: nat)
    ensures (forall undefined :: MaxId(m, undefined) == Pow2(m + 1) - 1) <==> m < 30
  {
    Pow2Positive(m + 1);
    Pow2Values();
    if m < 30 {
      Pow2Monotone(m + 1, 30);
    } else {
      Pow2Monotone(31, m + 1);
      assert MaxId(m, 1) == 0;
    }
  }

  /** The smallest of the ID bits and 31. */
  ghost predicate IsLeast(bits: seq<nat>, m: nat) {
    (forall i :: 0 <= i < |bits| ==> m <= bits[i]) && m <= 31 && (m < 31 ==> m in bits)
  }

  lemma Pow2Positive(n: nat)
    ensures Pow2(n) >= 1
  {
  }

  lemma {:induction false} OrAtLeast(a: nat, b: nat)
    ensures BitOr(a, b) >= a && BitOr(a, b) >= b
    decreases a + b
  {
    if a > 0 || b > 0 { OrAtLeast(a / 2, b / 2); }
  }

  /** Oring in less than 32 works on the field alone. */
  lemma OrField(p: nat, bits: nat)
    requires bits < 0x20
    ensures Field(BitOr(p, bits)) == BitOr(Field(p), bits)
  {
    hide BitOr;
    assert Pow2(5) == 0x20;
    OrParts(5, 0x20, p / 0x20, 0, p % 0x20, bits);
    assert p == p / 0x20 * 0x20 + p % 0x20;
    OrZero(p / 0x20);
  }

  /** The field is no less than the ID bits of any ITS. */
  lemma {:induction false} FieldDominates(p: nat, bits: seq<nat>, i: nat)
    requires i < |bits| && forall j :: 0 <= j < |bits| ==> bits[j] < 0x20
    ensures bits[i] <= Field(Combined(p, bits))
    decreases |bits|
  {
    hide BitOr, Field;
    var n := |bits| - 1;
    OrField(Combined(p, bits[..n]), bits[n]);
    OrAtLeast(Field(Combined(p, bits[..n])), bits[n]);
    if i < n { FieldDominates(p, bits[..n], i); }
  }

  /** Every LPI from ARM_LPI_MINID up to the maximum has its byte in the configuration table and its bit in the pending
      table, as both are sized by the field. */
  lemma ValidLpiInTables(p: nat, bits: seq<nat>, m: nat, intId: nat)
    requires bits != [] && forall j :: 0 <= j < |bits| ==> bits[j] < 0x20
    requires IsLeast(bits, m) && 8192 <= intId <= Pow2(m + 1) - 1
    ensures var f := Field(Combined(p, bits));
      && 0 <= intId - 8192 < ConfigTableSize(f) < 4096 * Pages(ConfigTableSize(f))
      && intId / 8 < PendingTableSize(f) < 4096 * Pages(PendingTableSize(f))
  {
    hide Combined, Field;
    var f := Field(Combined(p, bits));
    FieldDominates(p, bits, 0);
    Pow2Monotone(m + 1, f + 1);
    Pow2Values();
    if f + 1 < 14 { Pow2Monotone(f + 1, 13); }
    EighthsBelow(intId, f);
  }

  lemma EighthsBelow(x: nat, f: nat)
    requires x < Pow2(f + 1)
    ensures f >= 2 ==> x / 8 < Pow2(f + 1) / 8
  {
    hide Pow2;
    if f >= 2 {
      Pow2Add(3, f - 2);
      Pow2Values();
    }
  }

  /** The shift that sizes the tables is of a 32-bit signed value. */
  lemma ShiftFitsIff(f: nat)
    ensures Pow2(f + 1) <= 0x7FFF_FFFF <==> f < 30
  {
    Pow2Values();
    if f < 30 { Pow2Monotone(f + 1, 30); } else { Pow2Monotone(31, f + 1); }
  }

  /** ORing is not taking the maximum: ITSs with 15 and 16 ID bits make a field of 31, for which the shift does not fit.
      */
  lemma OrIsNotMaximum()
    ensures Field(Combined(0, [15, 16])) == 31 && Pow2(Field(Combined(0, [15, 16])) + 1) > 0x7FFF_FFFF
  {
    hide BitOr;
    assert [15, 16][..1] == [15] && [15][..0] == [];
    OrZero(15);
    assert Pow2(4) == 16;
    OrDisjoint(4, 16, 1, 15);
    ShiftFitsIff(31);
  }
}
