/**
 * The part of Python's `struct` module the decoder relies on: a format
 * string of the codes 'B' (unsigned 8-bit) and 'H' (unsigned 16-bit) in
 * native mode (no prefix), so that every field is aligned to its own size
 * and no padding follows the last field. Byte order is fixed to
 * little-endian.
 */
module StructLayout {
  import opened Wrappers
  import opened Bytes

  datatype FieldCode = UInt8 | UInt16

  datatype StructError =
    | BadFormatChar(c: char)                        // a code this model does not know
    | BufferSizeMismatch(expected: nat, actual: nat) // "unpack requires a buffer of N bytes"

  /** The field a format character stands for. */
  function CodeOf(c: char): (r: Option<FieldCode>)
    ensures r.Some? <==> c == 'B' || c == 'H'
    ensures r == Some(UInt8) <==> c == 'B'
  {
    if c == 'B' then Some(UInt8) else if c == 'H' then Some(UInt16) else None
  }

  /** Compiles a format string into its fields, failing on the first unknown character. */
  function ParseFormat(fmt: string): (r: Result<seq<FieldCode>, StructError>)
    ensures r.Success? <==> forall i :: 0 <= i < |fmt| ==> CodeOf(fmt[i]).Some?
    ensures r.Success? ==> |r.value| == |fmt|
    ensures r.Success? ==> forall i :: 0 <= i < |fmt| ==> CodeOf(fmt[i]) == Some(r.value[i])
  {
    if fmt == [] then Success([])
    else match CodeOf(fmt[0])
      case None => Failure(BadFormatChar(fmt[0]))
      case Some(f) =>
        match ParseFormat(fmt[1..])
        case Failure(e) => Failure(e)
        case Success(rest) => Success([f] + rest)
  }

  function Size(f: FieldCode): nat {
    match f
    case UInt8 => 1
    case UInt16 => 2
  }

  /** The first offset at or after `off` at which a field of kind `f` is naturally aligned. */
  function AlignUp(off: nat, f: FieldCode): (r: nat)
    ensures f == UInt16 ==> r % 2 == 0
    ensures off <= r < off + Size(f)
  {
    match f
    case UInt8 => off
    case UInt16 => if off % 2 == 0 then off else off + 1
  }

  /** Where the fields end when the first of them is placed at or after `off`. */
  function EndFrom(fields: seq<FieldCode>, off: nat): (r: nat)
    ensures off <= r
  {
    if fields == [] then off
    else EndFrom(fields[1..], AlignUp(off, fields[0]) + Size(fields[0]))
  }

  /**
   * The offset of field `i` when the first field is placed at or after
   * `off`: aligned to its size and ending before the fields end.
   */
  function OffsetOf(fields: seq<FieldCode>, off: nat, i: nat): (r: nat)
    requires i < |fields|
    ensures off <= r
    ensures fields[i] == UInt16 ==> r % 2 == 0
    ensures r + Size(fields[i]) <= EndFrom(fields, off)
    decreases i
  {
    var at := AlignUp(off, fields[0]);
    if i == 0 then at else OffsetOf(fields[1..], at + Size(fields[0]), i - 1)
  }

  /** The fields end exactly where the last of them ends: no padding follows it. */
  lemma {:induction false} EndIsLastFieldEnd(fields: seq<FieldCode>, off: nat)
    requires fields != []
    ensures EndFrom(fields, off) == OffsetOf(fields, off, |fields| - 1) + Size(fields[|fields| - 1])
  {
    if |fields| > 1 {
      EndIsLastFieldEnd(fields[1..], AlignUp(off, fields[0]) + Size(fields[0]));
      assert fields[1..][|fields| - 2] == fields[|fields| - 1];
    }
  }

  /** Fields are placed in order and never overlap. */
  lemma {:induction false} FieldsDoNotOverlap(fields: seq<FieldCode>, off: nat, i: nat, j: nat)
    requires i < j < |fields|
    ensures OffsetOf(fields, off, i) + Size(fields[i]) <= OffsetOf(fields, off, j)
  {
    var next := AlignUp(off, fields[0]) + Size(fields[0]);
    assert OffsetOf(fields, off, j) == OffsetOf(fields[1..], next, j - 1);
    if i > 0 {
      assert OffsetOf(fields, off, i) == OffsetOf(fields[1..], next, i - 1);
      assert fields[1..][i - 1] == fields[i];
      FieldsDoNotOverlap(fields[1..], next, i - 1, j - 1);
    }
  }

  /** `struct.calcsize`: the number of bytes the fields occupy from offset 0. */
  function CalcSize(fmt: string): (r: Result<nat, StructError>)
    ensures r.Success? <==> ParseFormat(fmt).Success?
    ensures ParseFormat(fmt).Failure? ==> r == Failure(ParseFormat(fmt).error)
    ensures r.Success? && fmt == [] ==> r.value == 0
    ensures r.Success? && fmt != [] ==>
      var fields := ParseFormat(fmt).value;
      r.value == OffsetOf(fields, 0, |fields| - 1) + Size(fields[|fields| - 1])
  {
    match ParseFormat(fmt)
    case Failure(e) => Failure(e)
    case Success(fields) =>
      if fields == [] then Success(0)
      else EndIsLastFieldEnd(fields, 0); Success(EndFrom(fields, 0))
  }

  /** The unsigned value of one field stored little-endian at `off`. */
  function ReadField(f: FieldCode, data: seq<byte>, off: nat): (r: nat)
    requires off + Size(f) <= |data|
    ensures f == UInt8 ==> r == data[off]
    ensures f == UInt16 ==> r % 256 == data[off] && r / 256 == data[off + 1]
  {
    match f
    case UInt8 => data[off]
    case UInt16 => Le16(data[off], data[off + 1])
  }

  /** The values of all fields placed from `off` on. */
  function DecodeFrom(fields: seq<FieldCode>, data: seq<byte>, off: nat): (r: seq<nat>)
    requires EndFrom(fields, off) <= |data|
    ensures |r| == |fields|
    ensures forall i :: 0 <= i < |fields| ==> r[i] == ReadField(fields[i], data, OffsetOf(fields, off, i))
  {
    if fields == [] then []
    else
      var at := AlignUp(off, fields[0]);
      [ReadField(fields[0], data, at)] + DecodeFrom(fields[1..], data, at + Size(fields[0]))
  }

  /**
   * `struct.unpack(fmt, data)`: the format is compiled first, then the
   * buffer must be exactly as long as the format; each value is the field
   * read at its aligned offset.
   */
  function Unpack(fmt: string, data: seq<byte>): (r: Result<seq<nat>, StructError>)
    ensures r.Success? <==> CalcSize(fmt) == Success(|data|)
    ensures ParseFormat(fmt).Failure? ==> r == Failure(ParseFormat(fmt).error)
    ensures r.Success? ==>
      var fields := ParseFormat(fmt).value;
      |r.value| == |fields| &&
      forall i :: 0 <= i < |fields| ==> r.value[i] == ReadField(fields[i], data, OffsetOf(fields, 0, i))
  {
    match ParseFormat(fmt)
    case Failure(e) => Failure(e)
    case Success(fields) =>
      var size := EndFrom(fields, 0);
      if |data| != size then Failure(BufferSizeMismatch(size, |data|))
      else Success(DecodeFrom(fields, data, 0))
  }
}
