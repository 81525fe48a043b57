/** The hexBinary codec of `javax.xml.bind.DatatypeConverter`, over Java strings
    (sequences of UTF-16 code units, so lengths and positions count code units):
    `printHexBinary` writes two upper-case digits per byte, high nibble first;
    `parseHexBinary` accepts digits of either case, and rejects an odd-length
    string before it looks at any code unit. */
module Hex {
  import opened Bytes
  import opened Wrappers
  import opened Utf16

  /** Why `parseHexBinary` throws its IllegalArgumentException. */
  datatype HexError = OddLength | IllegalCharacter


  predicate IsHexChar(c: CodeUnit) {
    '0' as int <= c <= '9' as int || 'A' as int <= c <= 'F' as int || 'a' as int <= c <= 'f' as int
  }

  predicate IsUpperHexChar(c: CodeUnit) {
    '0' as int <= c <= '9' as int || 'A' as int <= c <= 'F' as int
  }

  /** The strings `parseHexBinary` accepts. */
  predicate IsHexBinary(s: JavaString) {
    |s| % 2 == 0 && forall i | 0 <= i < |s| :: IsHexChar(s[i])
  }

  /** The value of one hex digit of either case, or -1 for any other code unit
      (a surrogate included). */
  function HexToBin(c: CodeUnit): (v: int)
    ensures -1 <= v < 16
    ensures v == -1 <==> !IsHexChar(c)
  {
    if '0' as int <= c <= '9' as int then c - '0' as int
    else if 'A' as int <= c <= 'F' as int then c - 'A' as int + 10
    else if 'a' as int <= c <= 'f' as int then c - 'a' as int + 10
    else -1
  }

  /** The digit `printHexBinary` writes for a nibble: an entry of "0123456789ABCDEF". */
  function HexDigit(n: int): (c: CodeUnit)
    requires 0 <= n < 16
    ensures IsUpperHexChar(c) && HexToBin(c) == n
  {
    if n < 10 then '0' as int + n else 'A' as int + (n - 10)
  }

  /** Upper-cases the letters a-f and leaves every other code unit alone. */
  function ToUpperHexChar(c: CodeUnit): (u: CodeUnit)
    ensures IsHexChar(c) <==> IsHexChar(u)
    ensures IsHexChar(c) ==> IsUpperHexChar(u) && HexToBin(u) == HexToBin(c)
    ensures 'a' as int <= c <= 'f' as int ==> 'A' as int <= u <= 'F' as int
    ensures !('a' as int <= c <= 'f' as int) ==> u == c
  {
    if 'a' as int <= c <= 'f' as int then c - 'a' as int + 'A' as int else c
  }

  /** `s` with its hex letters upper-cased: the form `printHexBinary` writes. */
  function ToUpperHex(s: JavaString): (u: JavaString)
    ensures |u| == |s|
    ensures forall i | 0 <= i < |s| :: u[i] == ToUpperHexChar(s[i])
  {
    seq(|s|, i requires 0 <= i < |s| => ToUpperHexChar(s[i]))
  }

  /** `printHexBinary`: each byte becomes its high and then its low nibble digit. */
  function PrintHexBinary(data: seq<byte>): (s: JavaString)
    ensures |s| == 2 * |data|
    ensures forall i | 0 <= i < |s| :: IsUpperHexChar(s[i])
  {
    if data == [] then []
    else [HexDigit(data[0] / 16), HexDigit(data[0] % 16)] + PrintHexBinary(data[1..])
  }

  /** `parseHexBinary`: odd length fails first; otherwise the pairs are decoded
      left to right and the first pair holding a non-digit fails. */
  function ParseHexBinary(s: JavaString): (r: Result<seq<byte>, HexError>)
    ensures r.Success? <==> IsHexBinary(s)
    ensures r == Failure(OddLength) <==> |s| % 2 == 1
    ensures r.Failure? && |s| % 2 == 0 ==> r.error == IllegalCharacter
    ensures r.Success? ==> 2 * |r.value| == |s|
    ensures r.Success? ==> forall k | 0 <= k < |r.value| ::
              r.value[k] == 16 * HexToBin(s[2 * k]) + HexToBin(s[2 * k + 1])
  {
    if |s| % 2 != 0 then Failure(OddLength) else ParsePairs(s)
  }

  /** The loop of `parseHexBinary` over an even-length string. */
  function ParsePairs(s: JavaString): (r: Result<seq<byte>, HexError>)
    requires |s| % 2 == 0
    ensures r.Success? <==> forall i | 0 <= i < |s| :: IsHexChar(s[i])
    ensures r.Failure? ==> r.error == IllegalCharacter
    ensures r.Success? ==> 2 * |r.value| == |s|
    ensures r.Success? ==> forall k | 0 <= k < |r.value| ::
              r.value[k] == 16 * HexToBin(s[2 * k]) + HexToBin(s[2 * k + 1])
    decreases |s|
  {
    if s == [] then Success([])
    else
      var h, l := HexToBin(s[0]), HexToBin(s[1]);
      if h == -1 || l == -1 then Failure(IllegalCharacter)
      else
        match ParsePairs(s[2..])
        case Failure(e) => Failure(e)
        case Success(rest) =>
          assert forall i | 2 <= i < |s| :: s[i] == s[2..][i - 2];
          Success([16 * h + l] + rest)
  }

  /** Parsing undoes printing. */
  lemma {:induction false} ParsePrint(data: seq<byte>)
    ensures ParseHexBinary(PrintHexBinary(data)) == Success(data)
  {
    var s := PrintHexBinary(data);
    var r := ParseHexBinary(s);
    assert IsHexBinary(s) by {
      forall i | 0 <= i < |s| ensures IsHexChar(s[i]) { }
    }
    assert |r.value| == |data|;
    forall k | 0 <= k < |data|
      ensures r.value[k] == data[k]
    {
      PrintHexBinaryAt(data, k);
      assert r.value[k] == 16 * (data[k] / 16) + data[k] % 16;
    }
    assert r.value == data;
  }

  /** The two digits of byte `k` stand at positions 2k and 2k+1 of the printed string. */
  lemma {:induction false} PrintHexBinaryAt(data: seq<byte>, k: int)
    requires 0 <= k < |data|
    ensures PrintHexBinary(data)[2 * k] == HexDigit(data[k] / 16)
    ensures PrintHexBinary(data)[2 * k + 1] == HexDigit(data[k] % 16)
  {
    if k > 0 {
      PrintHexBinaryAt(data[1..], k - 1);
    }
  }

  /** Printing what was parsed gives back the string with its letters upper-cased:
      the only information parsing loses is the letter case. */
  lemma PrintParse(s: JavaString)
    requires IsHexBinary(s)
    ensures PrintHexBinary(ParseHexBinary(s).value) == ToUpperHex(s)
  {
    PrintParsePairs(s);
  }

  lemma {:induction false} PrintParsePairs(s: JavaString)
    requires IsHexBinary(s)
    ensures PrintHexBinary(ParsePairs(s).value) == ToUpperHex(s)
    decreases |s|
  {
    if s != [] {
      var tail := s[2..];
      var b := ParsePairsCons(s);
      PrintParsePairs(tail);
      PrintParsePair(b, s[0], s[1]);
      PrintHexBinaryCons(b, ParsePairs(tail).value);
      ToUpperHexCons(s);
    }
  }

  /** One step of the pair loop: the first byte, then the rest of the string. */
  lemma ParsePairsCons(s: JavaString) returns (b: byte)
    requires IsHexBinary(s) && s != []
    ensures IsHexBinary(s[2..])
    ensures b == 16 * HexToBin(s[0]) + HexToBin(s[1])
    ensures ParsePairs(s) == Success([b] + ParsePairs(s[2..]).value)
  {
    var tail := s[2..];
    forall i | 0 <= i < |tail| ensures IsHexChar(tail[i]) { assert tail[i] == s[i + 2]; }
    b := 16 * HexToBin(s[0]) + HexToBin(s[1]);
  }

  lemma PrintHexBinaryCons(b: byte, rest: seq<byte>)
    ensures PrintHexBinary([b] + rest) == [HexDigit(b / 16), HexDigit(b % 16)] + PrintHexBinary(rest)
  {
    assert ([b] + rest)[1..] == rest;
  }

  lemma ToUpperHexCons(s: JavaString)
    requires |s| >= 2
    ensures ToUpperHex(s) == [ToUpperHexChar(s[0]), ToUpperHexChar(s[1])] + ToUpperHex(s[2..])
  {
    var u, v := ToUpperHex(s), [ToUpperHexChar(s[0]), ToUpperHexChar(s[1])] + ToUpperHex(s[2..]);
    forall i | 0 <= i < |s| ensures u[i] == v[i] {
      if i >= 2 { assert s[2..][i - 2] == s[i]; }
    }
    assert u == v;
  }

  /** The byte parsed from two digits prints as those digits upper-cased. */
  lemma PrintParsePair(b: byte, hi: CodeUnit, lo: CodeUnit)
    requires IsHexChar(hi) && IsHexChar(lo)
    requires b == 16 * HexToBin(hi) + HexToBin(lo)
    ensures HexDigit(b / 16) == ToUpperHexChar(hi) && HexDigit(b % 16) == ToUpperHexChar(lo)
  {
    var h, l := HexToBin(hi), HexToBin(lo);
    assert b / 16 == h && b % 16 == l;
    UpperDigit(hi);
    UpperDigit(lo);
  }

  /** The printed digit of a hex digit's value is that digit upper-cased. */
  lemma UpperDigit(c: CodeUnit)
    requires IsHexChar(c)
    ensures HexDigit(HexToBin(c)) == ToUpperHexChar(c)
  {
  }

  /** Parsing does not see letter case. */
  lemma ParseIgnoresCase(s: JavaString)
    ensures ParseHexBinary(ToUpperHex(s)) == ParseHexBinary(s)
  {
    var u := ToUpperHex(s);
    var a, b := ParseHexBinary(u), ParseHexBinary(s);
    assert IsHexBinary(u) <==> IsHexBinary(s) by {
      forall i | 0 <= i < |s| ensures IsHexChar(u[i]) <==> IsHexChar(s[i]) { }
    }
    if a.Success? {
      assert |a.value| == |b.value|;
      forall k | 0 <= k < |a.value| ensures a.value[k] == b.value[k] {
        assert u[2 * k] == ToUpperHexChar(s[2 * k]) && u[2 * k + 1] == ToUpperHexChar(s[2 * k + 1]);
      }
      assert a.value == b.value;
    }
  }

  /** An even-length prefix splits a hex string into two hex strings. */
  lemma IsHexBinaryAppend(a: JavaString, b: JavaString)
    requires |a| % 2 == 0
    ensures IsHexBinary(a + b) <==> IsHexBinary(a) && IsHexBinary(b)
  {
    var s := a + b;
    if IsHexBinary(s) {
      forall i | 0 <= i < |a| ensures IsHexChar(a[i]) { assert a[i] == s[i]; }
      forall i | 0 <= i < |b| ensures IsHexChar(b[i]) { assert b[i] == s[|a| + i]; }
    }
  }

  /** Upper-casing works slice by slice. */
  lemma ToUpperHexSlice(s: JavaString, i: int, j: int)
    requires 0 <= i <= j <= |s|
    ensures ToUpperHex(s[i..j]) == ToUpperHex(s)[i..j]
  {
    var a, b := ToUpperHex(s[i..j]), ToUpperHex(s)[i..j];
    forall k | 0 <= k < j - i ensures a[k] == b[k] {
      assert s[i..j][k] == s[i + k];
    }
    assert a == b;
  }
}
