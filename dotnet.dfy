/**
 * The parts of the .NET base library that the codec calls, reduced to what
 * the codec relies on: bytes, the exceptions it can raise, and the string
 * operations IsNullOrWhiteSpace, Trim, Split, Join and the OrdinalIgnoreCase
 * comparison.
 */
module DotNet {
  import opened Wrappers

  /** System.Byte. */
  type byte = b: int | 0 <= b < 256

  /** The exceptions the codec can raise, as failure values. */
  datatype Exception =
    | ArgumentNullException        // a null dictionary key
    | ArgumentException            // a key already in the dictionary; a sign '-' in a base-16 number
    | ArgumentOutOfRangeException  // Substring reaching past the end of the string
    | FormatException              // Convert.ToByte on text that is not a number

  /** char.IsWhiteSpace: the controls U+0009..U+000D and U+0085 and the Unicode separators (Zs, Zl, Zp). */
  predicate IsWhiteSpace(c: char) {
    var n := c as int;
    (0x09 <= n <= 0x0D) || n == 0x20 || n == 0x85 || n == 0xA0 || n == 0x1680
    || (0x2000 <= n <= 0x200A) || n == 0x2028 || n == 0x2029 || n == 0x202F
    || n == 0x205F || n == 0x3000
  }

  /** string.IsNullOrWhiteSpace. */
  predicate IsNullOrWhiteSpace(s: Option<string>) {
    s.None? || forall i :: 0 <= i < |s.value| ==> IsWhiteSpace(s.value[i])
  }

  /** Neither end of s is white space. */
  predicate Trimmed(s: string) {
    |s| == 0 || (!IsWhiteSpace(s[0]) && !IsWhiteSpace(s[|s| - 1]))
  }

  /** Drops the white space at the front of s. */
  function TrimStart(s: string): (r: string)
    ensures |r| <= |s| && r == s[|s| - |r|..]
    ensures |r| > 0 ==> !IsWhiteSpace(r[0])
    ensures forall i :: 0 <= i < |s| - |r| ==> IsWhiteSpace(s[i])
  {
    if |s| > 0 && IsWhiteSpace(s[0]) then TrimStart(s[1..]) else s
  }

  /** Drops the white space at the back of s. */
  function TrimEnd(s: string): (r: string)
    ensures |r| <= |s| && r == s[..|r|]
    ensures |r| > 0 ==> !IsWhiteSpace(r[|r| - 1])
    ensures forall i :: |r| <= i < |s| ==> IsWhiteSpace(s[i])
  {
    if |s| > 0 && IsWhiteSpace(s[|s| - 1]) then TrimEnd(s[..|s| - 1]) else s
  }

  /** string.Trim(): the white space at both ends removed. */
  function Trim(s: string): (r: string)
    ensures Trimmed(r)
    ensures Trimmed(s) ==> r == s
  {
    var t := TrimStart(s);
    var r := TrimEnd(t);
    assert |r| > 0 ==> r[0] == t[0];
    r
  }

  /** string.Split(sep): the pieces between the separators, empty pieces included. */
  function Split(s: string, sep: char): (parts: seq<string>)
    ensures |parts| >= 1
    ensures forall i, j :: 0 <= i < |parts| && 0 <= j < |parts[i]| ==> parts[i][j] != sep
  {
    if |s| == 0 then [""]
    else
      var rest := Split(s[1..], sep);
      if s[0] == sep then [""] + rest
      else [[s[0]] + rest[0]] + rest[1..]
  }

  /** string.Join(sep, parts). */
  function Join(parts: seq<string>, sep: char): string {
    if |parts| == 0 then ""
    else if |parts| == 1 then parts[0]
    else parts[0] + [sep] + Join(parts[1..], sep)
  }

  /** Joining the pieces of a split gives back the text. */
  lemma {:induction false} JoinSplit(s: string, sep: char)
    ensures Join(Split(s, sep), sep) == s
  {
    if |s| > 0 {
      var rest := Split(s[1..], sep);
      JoinSplit(s[1..], sep);
      if s[0] == sep {
        assert ([""] + rest)[1..] == rest;
      } else if |rest| > 1 {
        assert ([[s[0]] + rest[0]] + rest[1..])[1..] == rest[1..];
        assert s == [s[0]] + s[1..];
      } else {
        assert s == [s[0]] + s[1..];
      }
    }
  }

  /** No character of s is sep. */
  predicate Free(s: string, sep: char) {
    forall j :: 0 <= j < |s| ==> s[j] != sep
  }

  lemma {:induction false} SplitFree(s: string, sep: char)
    requires Free(s, sep)
    ensures Split(s, sep) == [s]
  {
    if |s| > 0 {
      SplitFree(s[1..], sep);
      assert s == [s[0]] + s[1..];
    }
  }

  lemma {:induction false} SplitAfterFree(a: string, t: string, sep: char)
    requires Free(a, sep)
    ensures Split(a + [sep] + t, sep) == [a] + Split(t, sep)
  {
    if |a| == 0 {
      assert (a + [sep] + t)[1..] == t;
    } else {
      SplitAfterFree(a[1..], t, sep);
      assert (a + [sep] + t)[1..] == a[1..] + [sep] + t;
      assert [a[0]] + a[1..] == a;
    }
  }

  /** Splitting a join of separator-free pieces gives back the pieces. */
  lemma {:induction false} SplitJoin(parts: seq<string>, sep: char)
    requires |parts| >= 1
    requires forall i :: 0 <= i < |parts| ==> Free(parts[i], sep)
    ensures Split(Join(parts, sep), sep) == parts
  {
    if |parts| == 1 {
      SplitFree(parts[0], sep);
    } else {
      SplitJoin(parts[1..], sep);
      SplitAfterFree(parts[0], Join(parts[1..], sep), sep);
      assert [parts[0]] + parts[1..] == parts;
    }
  }

  /** How many times c occurs in s. */
  function Count(s: string, c: char): nat {
    if |s| == 0 then 0 else (if s[0] == c then 1 else 0) + Count(s[1..], c)
  }

  /** Split yields one more piece than there are separators. */
  lemma {:induction false} SplitCount(s: string, sep: char)
    ensures |Split(s, sep)| == Count(s, sep) + 1
  {
    if |s| > 0 {
      SplitCount(s[1..], sep);
    }
  }

  /** A string without c counts none of it. */
  lemma {:induction false} FreeCount(s: string, c: char)
    requires Free(s, c)
    ensures Count(s, c) == 0
  {
    if |s| > 0 {
      FreeCount(s[1..], c);
    }
  }

  /** Two occurrences of c at distinct positions count at least two. */
  lemma {:induction false} TwoCount(s: string, c: char, i: nat, j: nat)
    requires i < j < |s| && s[i] == c && s[j] == c
    ensures Count(s, c) >= 2
  {
    if i == 0 {
      OneCount(s[1..], c, j - 1);
    } else {
      TwoCount(s[1..], c, i - 1, j - 1);
    }
  }

  /** One occurrence of c counts at least one. */
  lemma {:induction false} OneCount(s: string, c: char, i: nat)
    requires i < |s| && s[i] == c
    ensures Count(s, c) >= 1
  {
    if i > 0 {
      OneCount(s[1..], c, i - 1);
    }
  }

  /** The index of the first c in s, or |s| when there is none. */
  function IndexOf(s: string, c: char): (i: nat)
    ensures i <= |s| && Free(s[..i], c)
    ensures i < |s| ==> s[i] == c
  {
    if |s| == 0 then 0
    else if s[0] == c then 0
    else
      var j := IndexOf(s[1..], c);
      assert s[..j + 1] == [s[0]] + s[1..][..j];
      j + 1
  }

  /** With exactly one c, it stands at IndexOf and nothing after it is c. */
  lemma {:induction false} CountOne(s: string, c: char)
    requires Count(s, c) == 1
    ensures IndexOf(s, c) < |s| && Free(s[IndexOf(s, c) + 1..], c)
  {
    if s[0] == c {
      if !Free(s[1..], c) {
        var j :| 0 <= j < |s[1..]| && s[1..][j] == c;
        OneCount(s[1..], c, j);
        assert false;
      }
    } else {
      CountOne(s[1..], c);
      assert s[IndexOf(s, c) + 1..] == s[1..][IndexOf(s[1..], c) + 1..];
    }
  }

  /** ASCII upper-casing; every other character is left alone. */
  function ToUpperAscii(c: char): char {
    if 'a' <= c <= 'z' then (c as int - 32) as char else c
  }

  /** string.Equals(a, b, StringComparison.OrdinalIgnoreCase), b possibly null; case folding is ASCII only. */
  predicate EqualsOrdinalIgnoreCase(a: string, b: Option<string>) {
    b.Some? && |a| == |b.value|
    && forall i :: 0 <= i < |a| ==> ToUpperAscii(a[i]) == ToUpperAscii(b.value[i])
  }
}
