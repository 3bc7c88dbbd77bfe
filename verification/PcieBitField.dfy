/** val_pcie_bitfield_check in val/src/acs_pcie.c: whether a field of a configuration register has its configured value
    and can be written exactly as its attribute says.  A 32-bit word is the set of the numbers of its one bits. */
module PcieBitField {

  type Word = set<nat>

  const BITS := 32
  const BITS_IN_BYTE := 8

  datatype Attribute = HwInit | ReadOnly | StickyRo | RsvdpRo | RsvdzRo | ReadWrite | StickyRw

  /** A wrong value, or a value that does not take writes as the attribute says. */
  datatype Outcome = Pass | BadValue | BadAttribute

  /** Where the field is: bits `start` to `last` of the register at a byte offset that is `alignment` past a word. */
  datatype Entry = Entry(alignment: nat, start: nat, last: nat, cfgValue: Word, attr: Attribute)

  /** REG_SHIFT. */
  function Shift(e: Entry): nat {
    e.alignment * BITS_IN_BYTE + e.start
  }

  predicate InMask(e: Entry, i: nat) {
    i + e.start <= e.last
  }

  /** REG_MASK. */
  function Mask(e: Entry): Word {
    set i: nat | i < BITS && InMask(e, i)
  }

  predicate InField(e: Entry, i: nat) {
    Shift(e) <= i && InMask(e, i - Shift(e))
  }

  /** REG_MASK << REG_SHIFT: the bits of the word that make up the field. */
  function Field(e: Entry): Word {
    set i: nat | i < BITS && InField(e, i)
  }

  /** The field moved down to bit 0. */
  function FieldOf(v: Word, e: Entry): Word {
    set i: nat | i < BITS && i + Shift(e) in v && i in Mask(e)
  }

  /** The field is bits `8 * alignment + start` to `8 * alignment + last` of the word; moved down, its lowest bit is bit
      0. */
  lemma FieldBits(e: Entry, v: Word, i: nat)
    requires e.start <= e.last
    ensures i in Field(e) <==> i < 32 && 8 * e.alignment + e.start <= i <= 8 * e.alignment + e.last
    ensures i in FieldOf(v, e) <==> i < 32 && i <= e.last - e.start && 8 * e.alignment + e.start + i in v
  {
  }

  function Xor(a: Word, b: Word): Word {
    (a - b) + (b - a)
  }

  /** What is in a register with these writable bits after a write. */
  function Stored(before: Word, writable: Word, v: Word): Word {
    (before - writable) + v * writable
  }

  class Register {
    var value: Word
    const writable: Word

    constructor (value: Word, writable: Word)
      ensures this.value == value && this.writable == writable
    {
      this.value, this.writable := value, writable;
    }

    method Write(v: Word)
      modifies this
      ensures value == Stored(old(value), writable, v)
    {
      value := Stored(value, writable, v);
    }

    /** With the configured value, a read-only field passes exactly when none of its bits is writable and a writable one
        exactly when all are; a writable register is left as it was found. */
    method Check(e: Entry) returns (r: Outcome)
      requires e.start <= e.last
      modifies this
      ensures r == BadValue <==> FieldOf(old(value), e) != e.cfgValue
      ensures r != BadValue ==> (r == Pass <==> Conforms(e, writable, old(value)))
      ensures value == After(e.attr, r, Field(e), writable, old(value))
    {
      hide Field, FieldOf;
      ghost var v := value;
      WriteBack(v, writable);
      Write(value);
      var regValue := value;
      if FieldOf(regValue, e) != e.cfgValue {
        return BadValue;
      }
      var overwrite: Word;
      match e.attr {
        case HwInit | ReadOnly | StickyRo =>
          ToggleField(v, Field(e), writable);
          Write(Xor(regValue, Field(e)));
          overwrite := value;
        case RsvdpRo =>
          Write(regValue);
          overwrite, regValue := FieldOf(value, e), {};
        case RsvdzRo =>
          ClearField(v, Field(e), writable);
          Write(regValue - Field(e));
          overwrite := value;
        case ReadWrite | StickyRw =>
          ToggleField(v, Field(e), writable);
          overwrite := Xor(regValue, Field(e));
          Write(overwrite);
          var written := value;
          Restore(v, written, Field(e), writable);
          Write(regValue);
          regValue := written;
      }
      r := if overwrite != regValue then BadAttribute else Pass;
    }
  }

  /** The register takes writes to the field as the attribute says. */
  predicate Conforms(e: Entry, writable: Word, v: Word) {
    match e.attr
    case HwInit | ReadOnly | StickyRo => Field(e) !! writable
    case RsvdpRo => e.cfgValue == {}
    case RsvdzRo => v * Field(e) !! writable
    case ReadWrite | StickyRw => Field(e) <= writable
  }

  /** What the check leaves in the register: a field that should be read-only is not restored when it could be written.
      */
  function After(attr: Attribute, r: Outcome, field: Word, writable: Word, v: Word): Word {
    if r == BadValue then v
    else
      match attr
      case HwInit | ReadOnly | StickyRo => Xor(v, field * writable)
      case RsvdzRo => v - field * writable
      case RsvdpRo | ReadWrite | StickyRw => v
  }

  lemma WriteBack(v: Word, writable: Word)
    ensures Stored(v, writable, v) == v
  {
  }

  /** Writing a word with the field toggled. */
  lemma ToggleField(v: Word, field: Word, writable: Word)
    ensures var w := Stored(v, writable, Xor(v, field));
      w == Xor(v, field * writable) && (w == v <==> field !! writable) && (w == Xor(v, field) <==> field <= writable)
  {
  }

  /** Writing a word with the field cleared. */
  lemma ClearField(v: Word, field: Word, writable: Word)
    ensures var w := Stored(v, writable, v - field);
      w == v - field * writable && (w == v <==> v * field !! writable)
  {
  }

  lemma Restore(v: Word, written: Word, field: Word, writable: Word)
    requires written == Stored(v, writable, Xor(v, field))
    ensures Stored(written, writable, v) == v
  {
  }
}
