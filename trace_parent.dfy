/**
 * The traceparent header: the anchored pattern TraceContext matches it
 * against, the decimal reading of its version and flags tokens, and the
 * header TraceContext writes.
 */
module TraceParent {
  import opened Wrappers
  import opened DotNet
  import opened ByteConverter

  /** The four capture groups of the pattern. */
  datatype Groups = Groups(version: string, traceId: string, parentId: string, flags: string)

  /** Group widths 2, 32, 16 and 2, every character in [0-9a-fA-F]. */
  predicate WellFormed(g: Groups) {
    |g.version| == 2 && |g.traceId| == 32 && |g.parentId| == 16 && |g.flags| == 2
    && AllHex(g.version) && AllHex(g.traceId) && AllHex(g.parentId) && AllHex(g.flags)
  }

  /** The groups joined by dashes: the 55 characters the pattern spans. */
  function Layout(g: Groups): string {
    g.version + "-" + g.traceId + "-" + g.parentId + "-" + g.flags
  }

  /**
   * ^([0-9a-fA-F]{2})-([0-9a-fA-F]{32})-([0-9a-fA-F]{16})-([0-9a-fA-F]{2})$
   * with .NET's `$`, which also matches just before a final '\n'.
   * Some(groups) stands for Groups.Count == 5, None for a failed match.
   */
  function Match(s: string): (m: Option<Groups>)
    ensures m.Some? ==> WellFormed(m.value)
  {
    if (|s| == 55 || (|s| == 56 && s[55] == '\n')) && s[2] == '-' && s[35] == '-' && s[52] == '-' then
      var g := Groups(s[..2], s[3..35], s[36..52], s[53..55]);
      if WellFormed(g) then Some(g) else None
    else None
  }

  lemma LayoutAt(g: Groups)
    requires WellFormed(g)
    ensures var s := Layout(g);
      |s| == 55 && s[2] == '-' && s[35] == '-' && s[52] == '-'
      && s[..2] == g.version && s[3..35] == g.traceId && s[36..52] == g.parentId && s[53..55] == g.flags
  {
  }

  /**
   * The pattern matches exactly the layouts of well-formed groups, with or
   * without one trailing line feed, and captures those groups.
   */
  lemma MatchIff(s: string, g: Groups)
    ensures Match(s) == Some(g) <==> WellFormed(g) && (s == Layout(g) || s == Layout(g) + "\n")
  {
    if WellFormed(g) && (s == Layout(g) || s == Layout(g) + "\n") {
      LayoutAt(g);
      assert s[..2] == Layout(g)[..2] && s[3..35] == Layout(g)[3..35];
      assert s[36..52] == Layout(g)[36..52] && s[53..55] == Layout(g)[53..55];
    }
    if Match(s) == Some(g) {
      var l := Layout(g);
      LayoutAt(g);
      assert s[..55] == l by {
        forall i | 0 <= i < 55 ensures s[i] == l[i] {
          if i < 2 { assert s[..2][i] == s[i]; }
          else if 3 <= i < 35 { assert s[3..35][i - 3] == s[i] && l[3..35][i - 3] == l[i]; }
          else if 36 <= i < 52 { assert s[36..52][i - 36] == s[i] && l[36..52][i - 36] == l[i]; }
          else if 53 <= i { assert s[53..55][i - 53] == s[i] && l[53..55][i - 53] == l[i]; }
        }
      }
      if |s| == 56 {
        assert s == s[..55] + [s[55]];
      } else {
        assert s == s[..55];
      }
    }
  }

  predicate IsDigit(c: char) {
    '0' <= c <= '9'
  }

  /**
   * Convert.ToByte(token), which reads decimal, applied to a two-character
   * group of the pattern: two decimal digits give their value (at most 99,
   * so the byte never overflows); a hex letter is a FormatException.
   */
  function ParseDecimalByte(token: string): (r: Result<byte, Exception>)
    requires |token| == 2 && AllHex(token)
    ensures r.Success? <==> IsDigit(token[0]) && IsDigit(token[1])
    ensures r.Failure? ==> r.error == FormatException
  {
    if IsDigit(token[0]) && IsDigit(token[1]) then
      Success(10 * (token[0] as int - '0' as int) + (token[1] as int - '0' as int))
    else Failure(FormatException)
  }

  /**
   * Reading back the X2 rendering of a byte with the decimal reader: it
   * fails when a digit is a letter, reads 10 * high + low when both digits
   * are decimal, and so gives the byte back exactly when it is below 10.
   */
  lemma {:induction false} DecimalRereadOfX2(b: byte)
    ensures ParseDecimalByte(X2(b)) == (if b / 16 < 10 && b % 16 < 10 then Success(10 * (b / 16) + b % 16) else Failure(FormatException))
    ensures ParseDecimalByte(X2(b)) == Success(b) <==> b < 10
  {
    var x := X2(b);
    assert IsDigit(x[0]) <==> b / 16 < 10;
    assert IsDigit(x[1]) <==> b % 16 < 10;
    if b / 16 < 10 && b % 16 < 10 {
      assert x[0] as int - '0' as int == b / 16;
      assert x[1] as int - '0' as int == b % 16;
    }
  }

  /** How a version or flags token is read: in decimal, as the code reads it, or in base 16, as it is written. */
  datatype TokenBase = Decimal | Hexadecimal

  /** One two-character token of a matched traceparent, read in the given base. */
  function ReadToken(token: string, base: TokenBase): (r: Result<byte, Exception>)
    requires |token| == 2 && AllHex(token)
    ensures base.Hexadecimal? ==> r == Success(16 * HexValue(token[0]) + HexValue(token[1]))
    ensures r.Failure? ==> base.Decimal? && r.error == FormatException
  {
    match base
    case Decimal => ParseDecimalByte(token)
    case Hexadecimal => ParseHexByte(token[0], token[1])
  }

  /** Reading a token in base 16 instead gives every byte back from its X2 rendering. */
  lemma HexRereadOfX2(b: byte)
    ensures ReadToken(X2(b), Hexadecimal) == Success(b)
  {
  }

  /** The outgoing traceparent: X2(version)-HEX(traceId)-HEX(spanId)-X2(flags). */
  function Format(version: byte, traceId: seq<byte>, spanId: seq<byte>, flags: byte): string {
    X2(version) + "-" + ByteArrayToString(traceId) + "-" + ByteArrayToString(spanId) + "-" + X2(flags)
  }

  /**
   * With a 16-byte trace id and an 8-byte span id the header is 55
   * characters, dashes at 2, 35 and 52, upper-case hex elsewhere, and the
   * pattern matches it with the four renderings as its groups.
   */
  lemma FormatLayout(version: byte, traceId: seq<byte>, spanId: seq<byte>, flags: byte)
    requires |traceId| == 16 && |spanId| == 8
    ensures var s := Format(version, traceId, spanId, flags);
      && |s| == 55 && s[2] == '-' && s[35] == '-' && s[52] == '-'
      && (forall i :: 0 <= i < 55 && i != 2 && i != 35 && i != 52 ==> IsUpperHexDigit(s[i]))
      && Match(s) == Some(Groups(X2(version), ByteArrayToString(traceId), ByteArrayToString(spanId), X2(flags)))
  {
    var g := Groups(X2(version), ByteArrayToString(traceId), ByteArrayToString(spanId), X2(flags));
    assert WellFormed(g);
    var s := Format(version, traceId, spanId, flags);
    assert s == Layout(g);
    LayoutAt(g);
    MatchIff(s, g);
    forall i | 0 <= i < 55 && i != 2 && i != 35 && i != 52 ensures IsUpperHexDigit(s[i]) {
      if i < 2 { assert s[..2][i] == s[i]; }
      else if i < 35 { assert s[3..35][i - 3] == s[i]; }
      else if i < 52 { assert s[36..52][i - 36] == s[i]; }
      else { assert s[53..55][i - 53] == s[i]; }
    }
  }
}
