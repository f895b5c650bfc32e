/**
 Registers and their number formats, wb-homa-modbus/modbus_client.h and the
 conversions of wb-homa-modbus/modbus_client.cpp.
 */
module ModbusRegisters {

  /** A 16-bit register as it travels over the bus. */
  type Word = w: int | 0 <= w < 0x1_0000

  datatype Format = U16 | S16 | U8 | S8

  /** The four tables of the data model of section 4.3 of the MODBUS Application Protocol Specification V1.1b3. */
  datatype Table = Coil | DiscreteInput | HoldingRegister | InputRegister

  /** What identifies a register: two registers with the same key are the same register. */
  datatype Key = Key(slave: int, table: Table, address: int)

  datatype Register = Register(key: Key, format: Format, poll: bool)

  /** ConvertMasterValue. Both the masks and the narrowing to 16 bits reduce modulo a power of two. */
  function ToSlave(format: Format, v: int): Word {
    match format
    case U16 | S16 => v % 0x1_0000
    case U8 | S8 => v % 0x100
  }

  /** ConvertSlaveValue. */
  function FromSlave(format: Format, w: Word): int {
    match format
    case U16 => w
    case S16 => if w < 0x8000 then w else w - 0x1_0000
    case U8 => w % 0x100
    case S8 => if w % 0x100 < 0x80 then w % 0x100 else w % 0x100 - 0x100
  }

  function Modulus(format: Format): int {
    if format.U16? || format.S16? then 0x1_0000 else 0x100
  }

  predicate InRange(format: Format, v: int) {
    match format
    case U16 => 0 <= v < 0x1_0000
    case S16 => -0x8000 <= v < 0x8000
    case U8 => 0 <= v < 0x100
    case S8 => -0x80 <= v < 0x80
  }

  predicate Congruent(a: int, b: int, m: int)
    requires m > 0
  {
    a % m == b % m
  }

  /** The value a set settles at once the slave has been written and read back. */
  function Settled(format: Format, v: int): int {
    FromSlave(format, ToSlave(format, v))
  }

  /** What goes to the slave is the residue of the value, in as many bits as the format has. */
  lemma {:induction false} ToSlaveIsResidue(format: Format, v: int)
    ensures ToSlave(format, v) < Modulus(format) && Congruent(ToSlave(format, v), v, Modulus(format))
  {
  }

  /** What is read is the value in the format's range that is congruent to the word. */
  lemma {:induction false} FromSlaveIsRepresentative(format: Format, w: Word)
    ensures InRange(format, FromSlave(format, w)) && Congruent(FromSlave(format, w), w, Modulus(format))
  {
  }

  /** Two congruent values in the format's range are equal. */
  lemma {:induction false} RepresentativeIsUnique(format: Format, a: int, b: int)
    requires InRange(format, a) && InRange(format, b) && Congruent(a, b, Modulus(format))
    ensures a == b
  {
    var m := Modulus(format);
    assert a == m * (a / m) + a % m && b == m * (b / m) + b % m;
  }

  /** A set settles at the one representable value congruent to it, so at itself exactly when it is in range. */
  lemma {:induction false} SettledIsRepresentative(format: Format, v: int)
    ensures InRange(format, Settled(format, v))
    ensures Congruent(Settled(format, v), v, Modulus(format))
    ensures forall w | InRange(format, w) && Congruent(w, v, Modulus(format)) :: w == Settled(format, v)
    ensures Settled(format, v) == v <==> InRange(format, v)
  {
    forall w | InRange(format, w) && Congruent(w, v, Modulus(format)) ensures w == Settled(format, v) {
      RepresentativeIsUnique(format, w, Settled(format, v));
    }
  }
}
