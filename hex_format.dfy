/**
 * The diagnostic rendering of a payload: every byte written as two
 * upper-case hexadecimal digits ("%02X"), the pairs joined by single spaces,
 * and a parser that reads such a rendering back.
 */
module HexFormat {
  import opened Wrappers
  import opened Bytes

  const Digits: string := "0123456789ABCDEF"

  predicate IsHexDigit(c: char) {
    '0' <= c <= '9' || 'A' <= c <= 'F'
  }

  /** The upper-case digit for a value below sixteen. */
  function Digit(n: nat): (c: char)
    requires n < 16
    ensures IsHexDigit(c)
  {
    Digits[n]
  }

  /** The value of a digit written by `Digit`, or nothing for any other character. */
  function DigitValue(c: char): (r: Option<nat>)
    ensures r.Some? <==> IsHexDigit(c)
    ensures r.Some? ==> r.value < 16 && Digit(r.value) == c
  {
    if '0' <= c <= '9' then Some(c as int - '0' as int)
    else if 'A' <= c <= 'F' then Some(c as int - 'A' as int + 10)
    else None
  }

  /** `"%02X" % b`: exactly two digits, the high nibble first. */
  function FormatByte(b: byte): (s: string)
    ensures |s| == 2
    ensures DigitValue(s[0]) == Some(b / 16) && DigitValue(s[1]) == Some(b % 16)
  {
    [Digit(b / 16), Digit(b % 16)]
  }

  /** `" ".join("%02X" % b for b in data)`. */
  function FormatData(data: seq<byte>): (s: string)
    ensures data == [] <==> s == []
  {
    if data == [] then ""
    else if |data| == 1 then FormatByte(data[0])
    else FormatByte(data[0]) + " " + FormatData(data[1..])
  }

  /** Reads a rendering back: digit pairs separated by single spaces, nothing else. */
  function ParseData(s: string): (r: Option<seq<byte>>)
  {
    if s == [] then Some([])
    else if |s| < 2 then None
    else match (DigitValue(s[0]), DigitValue(s[1]))
      case (Some(hi), Some(lo)) =>
        var b: byte := hi * 16 + lo;
        if |s| == 2 then Some([b])
        else if |s| > 3 && s[2] == ' ' then
          match ParseData(s[3..])
          case Some(rest) => Some([b] + rest)
          case None => None
        else None
      case _ => None
  }

  /** n bytes render as n pairs of digits with n - 1 spaces between them. */
  lemma {:induction false} FormatDataLength(data: seq<byte>)
    ensures |FormatData(data)| == if data == [] then 0 else 3 * |data| - 1
  {
    if |data| > 1 {
      FormatDataLength(data[1..]);
    }
  }

  /** Byte i is rendered at positions 3i and 3i + 1, and a space follows it unless it is the last. */
  lemma {:induction false} FormatDataAt(data: seq<byte>, i: nat)
    requires i < |data|
    ensures |FormatData(data)| == 3 * |data| - 1
    ensures FormatData(data)[3 * i] == FormatByte(data[i])[0]
    ensures FormatData(data)[3 * i + 1] == FormatByte(data[i])[1]
    ensures i < |data| - 1 ==> FormatData(data)[3 * i + 2] == ' '
  {
    FormatDataLength(data);
    if |data| > 1 && i > 0 {
      FormatDataAt(data[1..], i - 1);
    }
  }

  /** Every character of a rendering is an upper-case hex digit or a space. */
  lemma FormatDataAlphabet(data: seq<byte>)
    ensures forall j :: 0 <= j < |FormatData(data)| ==> IsHexDigit(FormatData(data)[j]) || FormatData(data)[j] == ' '
  {
    FormatDataLength(data);
    var s := FormatData(data);
    forall j | 0 <= j < |s| ensures IsHexDigit(s[j]) || s[j] == ' ' {
      var i := j / 3;
      FormatDataAt(data, i);
    }
  }

  /** A single byte's digits parse back to that byte. */
  lemma ParseOneByte(b: byte)
    ensures ParseData(FormatByte(b)) == Some([b])
  {
    var s := FormatByte(b);
    assert (b / 16) * 16 + b % 16 == b;
    assert DigitValue(s[0]) == Some(b / 16) && DigitValue(s[1]) == Some(b % 16);
  }

  /** A byte's digits and a space in front of a non-empty rest parse to that byte in front of the rest. */
  lemma ParseByteThenRest(b: byte, t: string)
    requires t != []
    ensures ParseData(FormatByte(b) + " " + t) ==
      match ParseData(t)
      case Some(rest) => Some([b] + rest)
      case None => None
  {
    var s := FormatByte(b) + " " + t;
    assert (b / 16) * 16 + b % 16 == b;
    assert s[0] == FormatByte(b)[0] && s[1] == FormatByte(b)[1] && s[2] == ' ';
    assert s[3..] == t;
  }

  /** Reading a rendering back recovers the bytes. */
  lemma {:induction false} ParseFormatData(data: seq<byte>)
    ensures ParseData(FormatData(data)) == Some(data)
  {
    if |data| == 1 {
      ParseOneByte(data[0]);
      assert data == [data[0]];
    } else if |data| > 1 {
      var tail := data[1..];
      ParseFormatData(tail);
      ParseByteThenRest(data[0], FormatData(tail));
      assert data == [data[0]] + tail;
    }
  }

  /** Whatever the parser accepts is exactly the rendering of what it returns. */
  lemma {:induction false} FormatParseData(s: string)
    requires ParseData(s).Some?
    ensures FormatData(ParseData(s).value) == s
  {
    if s != [] {
      var hi := DigitValue(s[0]).value;
      var lo := DigitValue(s[1]).value;
      var b: byte := hi * 16 + lo;
      assert b / 16 == hi && b % 16 == lo;
      assert FormatByte(b) == s[..2];
      if |s| > 2 {
        var rest := ParseData(s[3..]).value;
        assert ParseData(s) == Some([b] + rest);
        FormatParseData(s[3..]);
        assert rest != [];
        BytePairThenRest(b, rest);
        assert s == s[..2] + " " + s[3..];
      }
    }
  }

  /** A byte in front of a non-empty rest renders as its digits, a space, then the rest. */
  lemma BytePairThenRest(b: byte, rest: seq<byte>)
    requires rest != []
    ensures FormatData([b] + rest) == FormatByte(b) + " " + FormatData(rest)
  {
    assert ([b] + rest)[1..] == rest;
  }
}
