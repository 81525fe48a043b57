/** Java strings and `String.getBytes(StandardCharsets.UTF_16LE)`. A Java string
    is a sequence of UTF-16 code units (a character above U+FFFF is a surrogate
    pair), and the UTF-16LE charset writes each unit as two bytes, low byte
    first, with no byte-order mark. A Dafny `string` holds Unicode scalar
    values; `CodeUnits` and `DecodeUnits` are inverse bijections between
    Dafny strings and the well-formed Java strings. */
module Utf16 {
  import opened Bytes
  import opened Wrappers

  /** A Java `char`. */
  type CodeUnit = u: int | 0 <= u < 0x1_0000

  /** A Java `String`, as its code units; any unit may occur, lone surrogates too. */
  type JavaString = seq<CodeUnit>

  predicate IsHighSurrogate(u: int) { 0xD800 <= u <= 0xDBFF }

  predicate IsLowSurrogate(u: int) { 0xDC00 <= u <= 0xDFFF }

  /** Code-unit sequences in which every surrogate is part of a high-low pair. */
  predicate WellFormed(u: seq<CodeUnit>)
    decreases |u|
  {
    if u == [] then true
    else if IsHighSurrogate(u[0]) then |u| >= 2 && IsLowSurrogate(u[1]) && WellFormed(u[2..])
    else !IsLowSurrogate(u[0]) && WellFormed(u[1..])
  }

  /** The code units of one character: itself below U+10000, a surrogate pair above. */
  function CharUnits(c: char): (u: seq<CodeUnit>)
    ensures c as int < 0x1_0000 ==> u == [c as int] && !IsHighSurrogate(u[0]) && !IsLowSurrogate(u[0])
    ensures c as int >= 0x1_0000 ==> |u| == 2 && IsHighSurrogate(u[0]) && IsLowSurrogate(u[1])
  {
    var v := c as int;
    if v < 0x1_0000 then [v]
    else [0xD800 + (v - 0x1_0000) / 0x400, 0xDC00 + (v - 0x1_0000) % 0x400]
  }

  /** The code units of a string, as a Java `String` holds them. */
  function CodeUnits(s: string): (u: seq<CodeUnit>)
    ensures WellFormed(u)
    ensures |s| <= |u| <= 2 * |s|
  {
    if s == [] then []
    else
      var head, tail := CharUnits(s[0]), CodeUnits(s[1..]);
      assert (head + tail)[|head|..] == tail;
      head + tail
  }

  /** Reads well-formed code units back into characters; `None` for a lone surrogate. */
  function DecodeUnits(u: seq<CodeUnit>): (s: Option<string>)
    ensures s.Some? <==> WellFormed(u)
    decreases |u|
  {
    if u == [] then Some([])
    else if IsHighSurrogate(u[0]) then
      if |u| >= 2 && IsLowSurrogate(u[1]) then
        var c := (0x1_0000 + (u[0] as int - 0xD800) * 0x400 + (u[1] as int - 0xDC00)) as char;
        match DecodeUnits(u[2..])
        case None => None
        case Some(rest) => Some([c] + rest)
      else None
    else if IsLowSurrogate(u[0]) then None
    else
      match DecodeUnits(u[1..])
      case None => None
      case Some(rest) => Some([u[0] as char] + rest)
  }

  /** The UTF-16LE charset: two bytes per code unit, low byte first. */
  function Utf16LE(units: seq<CodeUnit>): (bs: seq<byte>)
    ensures |bs| == 2 * |units|
    ensures forall i | 0 <= i < |units| ::
              bs[2 * i] == units[i] % 0x100 && bs[2 * i + 1] == units[i] / 0x100
  {
    if units == [] then []
    else [units[0] % 0x100, units[0] / 0x100] + Utf16LE(units[1..])
  }

  /** Reads little-endian byte pairs back into code units. */
  function FromUtf16LE(bs: seq<byte>): (units: seq<CodeUnit>)
    requires |bs| % 2 == 0
    ensures 2 * |units| == |bs|
  {
    if bs == [] then []
    else [bs[0] as int + 0x100 * bs[1] as int] + FromUtf16LE(bs[2..])
  }

  /** `password.getBytes(UTF_16LE)` */
  function GetBytes(s: string): (bs: seq<byte>)
    ensures var u := CodeUnits(s);
      && |bs| == 2 * |u|
      && forall i | 0 <= i < |u| :: bs[2 * i] == u[i] % 0x100 && bs[2 * i + 1] == u[i] / 0x100
  {
    Utf16LE(CodeUnits(s))
  }

  /** Decoding the code units of a string gives back the string. */
  lemma {:induction false} DecodeCodeUnits(s: string)
    ensures DecodeUnits(CodeUnits(s)) == Some(s)
  {
    if s != [] {
      var head, tail := CharUnits(s[0]), CodeUnits(s[1..]);
      var u := head + tail;
      DecodeCodeUnits(s[1..]);
      assert u[|head|..] == tail;
      var v := s[0] as int;
      if v >= 0x1_0000 {
        assert 0x1_0000 + (u[0] as int - 0xD800) * 0x400 + (u[1] as int - 0xDC00) == v;
      }
      assert [s[0]] + s[1..] == s;
    }
  }

  /** Every well-formed Java string is the code units of the string it decodes to. */
  lemma {:induction false} CodeUnitsDecode(u: seq<CodeUnit>)
    requires WellFormed(u)
    ensures CodeUnits(DecodeUnits(u).value) == u
    decreases |u|
  {
    if u != [] {
      var s := DecodeUnits(u).value;
      if IsHighSurrogate(u[0]) {
        CodeUnitsDecode(u[2..]);
        assert s[1..] == DecodeUnits(u[2..]).value;
        assert CharUnits(s[0]) == u[..2];
        assert u == u[..2] + u[2..];
      } else {
        CodeUnitsDecode(u[1..]);
        assert s[1..] == DecodeUnits(u[1..]).value;
        assert CharUnits(s[0]) == [u[0]];
        assert u == [u[0]] + u[1..];
      }
    }
  }

  /** Reading the UTF-16LE bytes back gives the code units. */
  lemma {:induction false} Utf16LERoundTrip(units: seq<CodeUnit>)
    ensures FromUtf16LE(Utf16LE(units)) == units
    decreases |units|
  {
    if units != [] {
      var u := units[0];
      var bs := Utf16LE(units);
      assert bs == [u % 0x100, u / 0x100] + Utf16LE(units[1..]);
      assert bs[0] == u % 0x100 && bs[1] == u / 0x100 && bs[2..] == Utf16LE(units[1..]);
      FromUtf16LEStep(bs);
      Utf16LERoundTrip(units[1..]);
      assert u % 0x100 + 0x100 * (u / 0x100) == u;
      assert units == [u] + units[1..];
    }
  }

  /** One step of reading byte pairs back. */
  lemma FromUtf16LEStep(bs: seq<byte>)
    requires |bs| >= 2 && |bs| % 2 == 0
    ensures FromUtf16LE(bs) == [bs[0] as int + 0x100 * bs[1] as int] + FromUtf16LE(bs[2..])
  {
  }

  /** Two strings with the same UTF-16LE bytes are the same string. */
  lemma GetBytesInjective(s: string, t: string)
    requires GetBytes(s) == GetBytes(t)
    ensures s == t
  {
    Utf16LERoundTrip(CodeUnits(s));
    Utf16LERoundTrip(CodeUnits(t));
    DecodeCodeUnits(s);
    DecodeCodeUnits(t);
  }

  /** Below U+10000 a character is its own single code unit. */
  lemma {:induction false} CodeUnitsBasic(s: string)
    requires forall i | 0 <= i < |s| :: s[i] as int < 0x1_0000
    ensures |CodeUnits(s)| == |s|
    ensures forall i | 0 <= i < |s| :: CodeUnits(s)[i] == s[i] as int
  {
    if s != [] {
      CodeUnitsBasic(s[1..]);
      assert CodeUnits(s) == [s[0] as int] + CodeUnits(s[1..]);
    }
  }

  /** A string of characters below U+10000 takes exactly two bytes per character,
      the low byte of the character first. */
  lemma GetBytesBasic(s: string)
    requires forall i | 0 <= i < |s| :: s[i] as int < 0x1_0000
    ensures |GetBytes(s)| == 2 * |s|
    ensures forall i | 0 <= i < |s| ::
              GetBytes(s)[2 * i] == s[i] as int % 0x100 && GetBytes(s)[2 * i + 1] == s[i] as int / 0x100
  {
    CodeUnitsBasic(s);
  }
}
