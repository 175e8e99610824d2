/**
 * The parts of java.lang.String and java.util.regex that the parser relies on:
 * the character classes it matches against and `String.trim`.
 * Characters are Unicode scalar values; see README for the UTF-16 caveats.
 */
module JavaText {

  /** `String.trim` removes every leading and trailing char whose code is at most U+0020. */
  predicate IsBlank(c: char) {
    c <= ' '
  }

  /** The regex class `\s` (without UNICODE_CHARACTER_CLASS): [ \t\n\x0B\f\r]. */
  predicate IsWhitespace(c: char) {
    c == ' ' || c == '\t' || c == '\n' || c == '\U{B}' || c == '\U{C}' || c == '\r'
  }

  /** The characters the regex `.` refuses when neither DOTALL nor UNIX_LINES is set. */
  predicate IsLineTerminator(c: char) {
    c == '\n' || c == '\r' || c == '\U{85}' || c == '\U{2028}' || c == '\U{2029}'
  }

  /** The regex class `\d`: ASCII decimal digits. */
  predicate IsDigit(c: char) {
    '0' <= c <= '9'
  }

  predicate AllBlank(s: string) {
    forall i :: 0 <= i < |s| ==> IsBlank(s[i])
  }

  /** No char of `s` is a line terminator, i.e. `.*` matches all of `s`. */
  predicate SingleLine(s: string) {
    forall i :: 0 <= i < |s| ==> !IsLineTerminator(s[i])
  }

  predicate AllDigits(s: string) {
    forall i :: 0 <= i < |s| ==> IsDigit(s[i])
  }

  /** `s` is matched by `\d+`. */
  predicate IsDigits(s: string) {
    |s| > 0 && AllDigits(s)
  }

  /** A string that `trim` leaves alone at both ends. */
  predicate IsTrimmed(s: string) {
    s == [] || (!IsBlank(s[0]) && !IsBlank(s[|s| - 1]))
  }

  lemma WhitespaceIsBlank(c: char)
    ensures IsWhitespace(c) ==> IsBlank(c)
  {
  }

  /** Drops the leading blanks; the result is a suffix of `s`. */
  function TrimStart(s: string): (r: string)
    ensures |r| <= |s| && r == s[|s| - |r|..]
    ensures AllBlank(s[..|s| - |r|])
    ensures r == [] || !IsBlank(r[0])
  {
    if s != [] && IsBlank(s[0]) then TrimStart(s[1..]) else s
  }

  /** Drops the trailing blanks; the result is a prefix of `s`. */
  function TrimEnd(s: string): (r: string)
    ensures |r| <= |s| && r == s[..|r|]
    ensures AllBlank(s[|r|..])
    ensures r == [] || !IsBlank(r[|r| - 1])
  {
    if s != [] && IsBlank(s[|s| - 1]) then TrimEnd(s[..|s| - 1]) else s
  }

  /** `String.trim`. */
  function Trim(s: string): (r: string)
    ensures IsTrimmed(r)
    ensures |r| <= |s|
    ensures r == [] <==> AllBlank(s)
  {
    var r := TrimEnd(TrimStart(s));
    assert r == [] ==> AllBlank(s) by {
      if r == [] {
        var t := TrimStart(s);
        assert s == s[..|s| - |t|] + t;
        assert AllBlank(t[|r|..]);
      }
    }
    r
  }

  lemma {:induction false} TrimStartSkips(a: string, y: string)
    requires AllBlank(a)
    requires y == [] || !IsBlank(y[0])
    ensures TrimStart(a + y) == y
  {
    if a != [] {
      assert (a + y)[1..] == a[1..] + y;
      TrimStartSkips(a[1..], y);
    }
  }

  lemma {:induction false} TrimEndSkips(y: string, b: string)
    requires AllBlank(b)
    requires y == [] || !IsBlank(y[|y| - 1])
    ensures TrimEnd(y + b) == y
  {
    if b != [] {
      assert (y + b)[..|y + b| - 1] == y + b[..|b| - 1];
      TrimEndSkips(y, b[..|b| - 1]);
    }
  }

  /**
   * `trim` is characterised by its result: whatever surrounds a trimmed
   * string with blanks on both sides, trimming gives back that string.
   */
  lemma TrimOfPadded(a: string, x: string, b: string)
    requires AllBlank(a) && AllBlank(b) && IsTrimmed(x)
    ensures Trim(a + x + b) == x
  {
    if x == [] {
      assert a + x + b == (a + b) + [];
      TrimStartSkips(a + b, []);
    } else {
      assert a + x + b == a + (x + b);
      TrimStartSkips(a, x + b);
      TrimEndSkips(x, b);
    }
  }

  /** The result of `trim` sits between a blank prefix and a blank suffix of the input. */
  lemma TrimParts(s: string) returns (k: nat)
    ensures k + |Trim(s)| <= |s|
    ensures s == s[..k] + Trim(s) + s[k + |Trim(s)|..]
    ensures AllBlank(s[..k]) && AllBlank(s[k + |Trim(s)|..])
  {
    var t := TrimStart(s);
    k := |s| - |t|;
    var r := TrimEnd(t);
    assert r == Trim(s);
    JoinParts(s, k, t, r);
  }

  /** A middle part `r` at offset `k` splits `s` into three. */
  lemma JoinParts(s: string, k: nat, t: string, r: string)
    requires k <= |s| && t == s[k..] && |r| <= |t| && r == t[..|r|]
    ensures s == s[..k] + r + s[k + |r|..]
    ensures s[k + |r|..] == t[|r|..]
  {
    assert s == s[..k] + s[k..];
    assert t == r + t[|r|..];
  }

  lemma TrimIdempotent(s: string)
    ensures Trim(Trim(s)) == Trim(s)
  {
    TrimOfPadded([], Trim(s), []);
    assert [] + Trim(s) + [] == Trim(s);
  }

  lemma AllBlankConcat(u: string, v: string)
    requires AllBlank(u) && AllBlank(v)
    ensures AllBlank(u + v)
  {
  }

  lemma Regroup(a: string, p: string, t: string, q: string, b: string)
    ensures a + (p + t + q) + b == (a + p) + t + (q + b)
  {
  }

  /** Surrounding blanks do not change the trimmed string. */
  lemma TrimIgnoresPadding(a: string, x: string, b: string)
    requires AllBlank(a) && AllBlank(b)
    ensures Trim(a + x + b) == Trim(x)
  {
    var k := TrimParts(x);
    var t := Trim(x);
    var p, q := x[..k], x[k + |t|..];
    assert x == p + t + q;
    AllBlankConcat(a, p);
    AllBlankConcat(q, b);
    Regroup(a, p, t, q, b);
    TrimOfPadded(a + p, t, q + b);
  }

  /** Trimming the tail first does not change the result of `trim`. */
  lemma TrimAfterTrimEnd(s: string)
    ensures Trim(TrimEnd(s)) == Trim(s)
  {
    var e := TrimEnd(s);
    assert s == e + s[|e|..];
    assert [] + e + s[|e|..] == s;
    TrimIgnoresPadding([], e, s[|e|..]);
  }

  /**
   * A string that starts and ends with non-blank chars keeps its place in
   * front of a tail: trimming only shortens the tail.
   */
  lemma TrimWordThenRest(w: string, a: string)
    requires w != [] && IsTrimmed(w)
    ensures Trim(w + a) == w + TrimEnd(a)
  {
    var e := TrimEnd(a);
    assert a == e + a[|e|..];
    assert w + a == [] + (w + e) + a[|e|..];
    assert IsTrimmed(w + e);
    TrimOfPadded([], w + e, a[|e|..]);
  }
}
