/**
 * ByteConverter: hexadecimal text to bytes and back.  TraceContext keeps a
 * private copy of both methods with the same bodies; this module stands for
 * both copies.
 */
module ByteConverter {
  import opened Wrappers
  import opened DotNet

  /** The pattern's character class [0-9a-fA-F]. */
  predicate IsHexDigit(c: char) {
    '0' <= c <= '9' || 'a' <= c <= 'f' || 'A' <= c <= 'F'
  }

  /** What BitConverter and the X2 format write: [0-9A-F]. */
  predicate IsUpperHexDigit(c: char) {
    '0' <= c <= '9' || 'A' <= c <= 'F'
  }

  predicate AllHex(s: string) {
    forall i :: 0 <= i < |s| ==> IsHexDigit(s[i])
  }

  /** The value of one hex digit, either case. */
  function HexValue(c: char): (d: nat)
    requires IsHexDigit(c)
    ensures d < 16
  {
    if '0' <= c <= '9' then c as int - '0' as int
    else if 'a' <= c <= 'f' then c as int - 'a' as int + 10
    else c as int - 'A' as int + 10
  }

  /** The upper-case digit for a value below 16. */
  function HexChar(d: nat): (c: char)
    requires d < 16
    ensures IsUpperHexDigit(c) && IsHexDigit(c) && HexValue(c) == d
  {
    if d < 10 then ('0' as int + d) as char else ('A' as int + d - 10) as char
  }

  lemma HexCharOfValue(c: char)
    requires IsHexDigit(c)
    ensures HexChar(HexValue(c)) == ToUpperAscii(c)
  {
  }

  /** The format string X2 applied to a byte: two upper-case hex digits. */
  function X2(b: byte): (s: string)
    ensures |s| == 2 && IsUpperHexDigit(s[0]) && IsUpperHexDigit(s[1])
  {
    [HexChar(b / 16), HexChar(b % 16)]
  }

  /**
   * Convert.ToByte(s, 16) on a two-character string [a, b]: a leading '-' is
   * refused as a negative number, a leading '+' is skipped, and what is left
   * must consist of hex digits only.
   */
  function ParseHexByte(a: char, b: char): (r: Result<byte, Exception>)
    ensures IsHexDigit(a) && IsHexDigit(b) ==> r == Success(16 * HexValue(a) + HexValue(b))
    ensures r.Failure? <==> !(IsHexDigit(b) && (IsHexDigit(a) || a == '+'))
    ensures r.Failure? ==> r.error == if a == '-' then ArgumentException else FormatException
  {
    if a == '-' then Failure(ArgumentException)
    else if a == '+' then (if IsHexDigit(b) then Success(HexValue(b)) else Failure(FormatException))
    else if IsHexDigit(a) && IsHexDigit(b) then Success(16 * HexValue(a) + HexValue(b))
    else Failure(FormatException)
  }

  /**
   * What StringToByteArray computes: the characters taken two at a time from
   * the left; the first pair that cannot be read decides the exception, and a
   * lone last character makes Substring run past the end.
   */
  function DecodeHex(s: string): (r: Result<seq<byte>, Exception>)
    ensures r.Success? ==> |s| % 2 == 0 && |r.value| == |s| / 2
    decreases |s|
  {
    if |s| == 0 then Success([])
    else if |s| == 1 then Failure(ArgumentOutOfRangeException)
    else
      match ParseHexByte(s[0], s[1])
      case Failure(e) => Failure(e)
      case Success(b) => Prepend([b], DecodeHex(s[2..]))
  }

  /** bytes in front of a successful result; a failure passes through. */
  function Prepend(bytes: seq<byte>, r: Result<seq<byte>, Exception>): Result<seq<byte>, Exception> {
    match r
    case Success(rest) => Success(bytes + rest)
    case Failure(e) => Failure(e)
  }

  /**
   * StringToByteArray: allocates |s| / 2 bytes and fills them pair by pair.
   */
  method StringToByteArray(hexString: string) returns (r: Result<seq<byte>, Exception>)
    ensures r == DecodeHex(hexString)
  {
    var numberChars := |hexString|;
    var bytes := new byte[numberChars / 2];
    var i := 0;
    ghost var j := 0;
    assert hexString[0..] == hexString;
    assert bytes[..0] == [];
    PrependNothing(DecodeHex(hexString));
    while i < numberChars
      invariant 0 <= i <= numberChars && i == 2 * j && j <= bytes.Length
      invariant DecodeHex(hexString) == Prepend(bytes[..j], DecodeHex(hexString[i..]))
      decreases numberChars - i
    {
      if i + 2 > numberChars {
        return Failure(ArgumentOutOfRangeException);
      }
      var b := ParseHexByte(hexString[i], hexString[i + 1]);
      if b.Failure? {
        return Failure(b.error);
      }
      ghost var done := bytes[..j];
      DecodeHexStep(hexString, i, done);
      assert i / 2 == j;
      bytes[i / 2] := b.value;
      assert bytes[..j + 1] == done + [b.value];
      i, j := i + 2, j + 1;
    }
    assert hexString[i..] == [];
    assert bytes[..j] == bytes[..];
    assert bytes[..] + [] == bytes[..];
    return Success(bytes[..]);
  }

  lemma PrependNothing(r: Result<seq<byte>, Exception>)
    ensures Prepend([], r) == r
  {
    if r.Success? {
      assert [] + r.value == r.value;
    }
  }

  /** The loop's step at index i: the readable pair there moves from the text to the bytes. */
  lemma DecodeHexStep(s: string, i: nat, done: seq<byte>)
    requires i + 2 <= |s| && ParseHexByte(s[i], s[i + 1]).Success?
    ensures Prepend(done, DecodeHex(s[i..])) == Prepend(done + [ParseHexByte(s[i], s[i + 1]).value], DecodeHex(s[i + 2..]))
  {
    assert s[i..][2..] == s[i + 2..];
    PrependTwice(done, [ParseHexByte(s[i], s[i + 1]).value], DecodeHex(s[i + 2..]));
  }

  lemma PrependTwice(p: seq<byte>, q: seq<byte>, r: Result<seq<byte>, Exception>)
    ensures Prepend(p, Prepend(q, r)) == Prepend(p + q, r)
  {
    if r.Success? {
      assert p + (q + r.value) == (p + q) + r.value;
    }
  }

  /** BitConverter.ToString: each byte as X2, separated by '-'. */
  function BitConverterToString(ba: seq<byte>): string {
    if |ba| == 0 then ""
    else if |ba| == 1 then X2(ba[0])
    else X2(ba[0]) + "-" + BitConverterToString(ba[1..])
  }

  /** string.Replace("-", ""): every '-' removed. */
  function RemoveDashes(s: string): string {
    if |s| == 0 then ""
    else (if s[0] == '-' then "" else [s[0]]) + RemoveDashes(s[1..])
  }

  /** The X2 renderings of the bytes, one after another. */
  function Concat(ba: seq<byte>): string {
    if |ba| == 0 then "" else X2(ba[0]) + Concat(ba[1..])
  }

  lemma {:induction false} RemoveDashesAppend(a: string, b: string)
    ensures RemoveDashes(a + b) == RemoveDashes(a) + RemoveDashes(b)
  {
    if |a| > 0 {
      RemoveDashesAppend(a[1..], b);
      assert (a + b)[0] == a[0];
      assert (a + b)[1..] == a[1..] + b;
      var h := if a[0] == '-' then "" else [a[0]];
      assert RemoveDashes(a + b) == h + RemoveDashes(a[1..] + b);
      assert RemoveDashes(a) == h + RemoveDashes(a[1..]);
    } else {
      assert a + b == b;
    }
  }

  lemma {:induction false} BitConverterWithoutDashes(ba: seq<byte>)
    ensures RemoveDashes(BitConverterToString(ba)) == Concat(ba)
  {
    if |ba| > 0 {
      var x := X2(ba[0]);
      assert RemoveDashes(x) == x by {
        assert x[1..] == [x[1]] && [x[1]][1..] == [];
        assert RemoveDashes([x[1]]) == [x[1]] + RemoveDashes([]);
        assert RemoveDashes(x) == [x[0]] + RemoveDashes(x[1..]);
      }
      if |ba| == 1 {
        assert Concat(ba[1..]) == "";
      } else {
        BitConverterWithoutDashes(ba[1..]);
        RemoveDashesAppend(x + "-", BitConverterToString(ba[1..]));
        RemoveDashesAppend(x, "-");
      }
    }
  }

  lemma {:induction false} ConcatLayout(ba: seq<byte>)
    ensures |Concat(ba)| == 2 * |ba|
    ensures forall k :: 0 <= k < |ba| ==>
      Concat(ba)[2 * k] == HexChar(ba[k] / 16) && Concat(ba)[2 * k + 1] == HexChar(ba[k] % 16)
  {
    if |ba| > 0 {
      ConcatLayout(ba[1..]);
      forall k | 1 <= k < |ba|
        ensures Concat(ba)[2 * k] == HexChar(ba[k] / 16) && Concat(ba)[2 * k + 1] == HexChar(ba[k] % 16)
      {
        assert ba[1..][k - 1] == ba[k];
      }
    }
  }

  /**
   * ByteArrayToString: two upper-case hex digits per byte, high nibble first,
   * nothing in between; the empty array gives "".
   */
  function ByteArrayToString(ba: seq<byte>): (s: string)
    ensures |s| == 2 * |ba|
    ensures forall i :: 0 <= i < |s| ==> IsUpperHexDigit(s[i])
    ensures forall k :: 0 <= k < |ba| ==> s[2 * k] == HexChar(ba[k] / 16) && s[2 * k + 1] == HexChar(ba[k] % 16)
  {
    BitConverterWithoutDashes(ba);
    ConcatLayout(ba);
    var s := RemoveDashes(BitConverterToString(ba));
    assert forall i :: 0 <= i < |s| ==> IsUpperHexDigit(s[i]) by {
      forall i | 0 <= i < |s| ensures IsUpperHexDigit(s[i]) {
        var k := i / 2;
        assert s[2 * k] == HexChar(ba[k] / 16) && s[2 * k + 1] == HexChar(ba[k] % 16);
        assert i == 2 * k || i == 2 * k + 1;
      }
    }
    s
  }

  lemma {:induction false} DecodeConcat(ba: seq<byte>)
    ensures DecodeHex(Concat(ba)) == Success(ba)
  {
    if |ba| > 0 {
      DecodeConcat(ba[1..]);
      var x := X2(ba[0]);
      assert (x + Concat(ba[1..]))[2..] == Concat(ba[1..]);
      assert [ba[0]] + ba[1..] == ba;
    }
  }

  /** Reading back what ByteArrayToString wrote gives the same bytes. */
  lemma DecodeEncode(ba: seq<byte>)
    ensures DecodeHex(ByteArrayToString(ba)) == Success(ba)
  {
    BitConverterWithoutDashes(ba);
    DecodeConcat(ba);
  }

  /** s with every ASCII letter upper-cased. */
  function UpperCase(s: string): (r: string)
    ensures |r| == |s| && forall i :: 0 <= i < |s| ==> r[i] == ToUpperAscii(s[i])
  {
    if |s| == 0 then "" else [ToUpperAscii(s[0])] + UpperCase(s[1..])
  }

  lemma PairX2(a: char, b: char)
    requires IsHexDigit(a) && IsHexDigit(b)
    ensures X2(16 * HexValue(a) + HexValue(b)) == [ToUpperAscii(a), ToUpperAscii(b)]
  {
    var v := 16 * HexValue(a) + HexValue(b);
    assert v / 16 == HexValue(a) && v % 16 == HexValue(b);
    HexCharOfValue(a);
    HexCharOfValue(b);
  }

  lemma {:induction false} EncodeDecodeConcat(s: string)
    requires AllHex(s) && |s| % 2 == 0
    ensures DecodeHex(s).Success? && Concat(DecodeHex(s).value) == UpperCase(s)
  {
    if |s| > 0 {
      var t := s[2..];
      assert AllHex(t);
      EncodeDecodeConcat(t);
      var b := 16 * HexValue(s[0]) + HexValue(s[1]);
      var rest := DecodeHex(t).value;
      assert DecodeHex(s) == Success([b] + rest);
      ConcatCons(b, rest);
      PairX2(s[0], s[1]);
      UpperCasePair(s);
    }
  }

  lemma ConcatCons(b: byte, rest: seq<byte>)
    ensures Concat([b] + rest) == X2(b) + Concat(rest)
  {
    assert ([b] + rest)[1..] == rest;
  }

  lemma UpperCasePair(s: string)
    requires |s| >= 2
    ensures UpperCase(s) == [ToUpperAscii(s[0]), ToUpperAscii(s[1])] + UpperCase(s[2..])
  {
    assert s[1..][1..] == s[2..];
  }

  /** Hex text of even length read in and written out again comes back upper-cased. */
  lemma EncodeDecode(s: string)
    requires AllHex(s) && |s| % 2 == 0
    ensures DecodeHex(s).Success?
    ensures ByteArrayToString(DecodeHex(s).value) == UpperCase(s)
  {
    EncodeDecodeConcat(s);
    BitConverterWithoutDashes(DecodeHex(s).value);
  }

  /** Hex text of even length is read as one byte per pair, high digit first, either case. */
  lemma {:induction false} DecodeHexPairs(s: string)
    requires AllHex(s) && |s| % 2 == 0
    ensures DecodeHex(s).Success?
    ensures forall k :: 0 <= k < |s| / 2 ==> DecodeHex(s).value[k] == 16 * HexValue(s[2 * k]) + HexValue(s[2 * k + 1])
  {
    if |s| > 0 {
      DecodeHexPairs(s[2..]);
      var d := DecodeHex(s).value;
      forall k | 1 <= k < |s| / 2
        ensures d[k] == 16 * HexValue(s[2 * k]) + HexValue(s[2 * k + 1])
      {
        assert d[k] == DecodeHex(s[2..]).value[k - 1];
        assert s[2..][2 * (k - 1)] == s[2 * k];
        assert s[2..][2 * (k - 1) + 1] == s[2 * k + 1];
      }
    }
  }

  /** An odd number of characters always fails; with every pair readable, on the Substring of the last one. */
  lemma {:induction false} DecodeHexOdd(s: string)
    requires |s| % 2 == 1
    ensures DecodeHex(s).Failure?
    ensures AllHex(s) ==> DecodeHex(s) == Failure(ArgumentOutOfRangeException)
  {
    if |s| > 1 {
      DecodeHexOdd(s[2..]);
      assert AllHex(s) ==> AllHex(s[2..]);
    }
  }

  /** Convert.ToByte(hexString.Substring(2 * k, 2), 16): the k-th complete pair. */
  function PairAt(s: string, k: nat): Result<byte, Exception>
    requires k < |s| / 2
  {
    ParseHexByte(s[2 * k], s[2 * k + 1])
  }

  /**
   * The decode succeeds iff the length is even and every pair can be read.
   * When it fails, the first pair that cannot be read decides the
   * exception; when every complete pair can be read, the length is odd and
   * the exception is the Substring's ArgumentOutOfRangeException.
   */
  lemma {:induction false} DecodeHexFirstFailure(s: string)
    ensures DecodeHex(s).Success? <==> |s| % 2 == 0 && forall k :: 0 <= k < |s| / 2 ==> PairAt(s, k).Success?
    ensures DecodeHex(s).Failure? && (forall k :: 0 <= k < |s| / 2 ==> PairAt(s, k).Success?) ==>
              DecodeHex(s).error == ArgumentOutOfRangeException
    ensures DecodeHex(s).Failure? && !(forall k :: 0 <= k < |s| / 2 ==> PairAt(s, k).Success?) ==>
              exists k :: 0 <= k < |s| / 2 && PairAt(s, k).Failure? && DecodeHex(s).error == PairAt(s, k).error
                          && forall j :: 0 <= j < k ==> PairAt(s, j).Success?
  {
    if |s| >= 2 {
      var t := s[2..];
      DecodeHexFirstFailure(t);
      forall k | 0 <= k < |t| / 2
        ensures PairAt(t, k) == PairAt(s, k + 1)
      {
        assert t[2 * k] == s[2 * k + 2] && t[2 * k + 1] == s[2 * k + 3];
      }
      if PairAt(s, 0).Success? {
        assert forall k :: 0 <= k < |s| / 2 ==> (PairAt(s, k).Success? <==> (k == 0 || PairAt(t, k - 1).Success?));
        if DecodeHex(t).Failure? && !(forall k :: 0 <= k < |t| / 2 ==> PairAt(t, k).Success?) {
          var k :| 0 <= k < |t| / 2 && PairAt(t, k).Failure? && DecodeHex(t).error == PairAt(t, k).error
                   && forall j :: 0 <= j < k ==> PairAt(t, j).Success?;
          assert forall j :: 0 <= j < k + 1 ==> PairAt(s, j).Success? by {
            forall j | 0 <= j < k + 1 ensures PairAt(s, j).Success? {
              if j > 0 { assert PairAt(t, j - 1).Success?; }
            }
          }
          assert PairAt(s, k + 1).Failure? && DecodeHex(s).error == PairAt(s, k + 1).error;
        }
      } else {
        assert !(forall k :: 0 <= k < |s| / 2 ==> PairAt(s, k).Success?);
        assert DecodeHex(s).error == PairAt(s, 0).error;
      }
    }
  }
}
