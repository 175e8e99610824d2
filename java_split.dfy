/**
 * The splitting operations of java.lang.String that the parser uses:
 * `replaceFirst` and `split` with a literal pattern (the pattern " t/" has no
 * regex metacharacters), and `split("\\s+")` on a string that starts with a
 * non-whitespace char.
 */
module JavaSplit {
  import opened JavaText

  predicate NoWhitespace(s: string) {
    forall i :: 0 <= i < |s| ==> !IsWhitespace(s[i])
  }

  predicate NoSlash(s: string) {
    forall i :: 0 <= i < |s| ==> s[i] != '/'
  }

  /** `s.replaceFirst(pat, "")` for a pattern without metacharacters: drops the leftmost occurrence. */
  function ReplaceFirst(s: string, pat: string): (r: string)
    requires |pat| > 0
    ensures |s| >= |pat| && s[..|pat|] == pat ==> r == s[|pat|..]
    decreases |s|
  {
    if |s| < |pat| then s
    else if s[..|pat|] == pat then s[|pat|..]
    else [s[0]] + ReplaceFirst(s[1..], pat)
  }

  /**
   * The pieces between the leftmost non-overlapping occurrences of `sep`,
   * scanning left to right; `cur` is the piece under construction.
   */
  function Pieces(s: string, sep: string, cur: string): (r: seq<string>)
    requires |sep| > 0
    ensures |r| >= 1
    decreases |s|
  {
    if |s| < |sep| then [cur + s]
    else if s[..|sep|] == sep then [cur] + Pieces(s[|sep|..], sep, [])
    else Pieces(s[1..], sep, cur + [s[0]])
  }

  function DropTrailingEmpty(ps: seq<string>): (r: seq<string>)
    ensures |r| <= |ps| && r == ps[..|r|]
    ensures r == [] || r[|r| - 1] != []
  {
    if ps != [] && ps[|ps| - 1] == [] then DropTrailingEmpty(ps[..|ps| - 1]) else ps
  }

  /**
   * `s.split(sep)` with limit 0: when `sep` does not occur the whole string is
   * the only piece; otherwise trailing empty pieces are removed.
   */
  function SplitLiteral(s: string, sep: string): (r: seq<string>)
    requires |sep| > 0
    ensures |r| <= |Pieces(s, sep, [])|
    ensures r == [] || |r| == 1 || r[|r| - 1] != []
  {
    var ps := Pieces(s, sep, []);
    if |ps| == 1 then ps else DropTrailingEmpty(ps)
  }

  /**
   * No occurrence of a separator ending in '/' can start inside a slash-free
   * piece, provided the next chars are not '/' either.
   */
  lemma {:induction false} PiecesSkip(v: string, rest: string, sep: string, cur: string)
    requires |sep| > 0 && sep[|sep| - 1] == '/'
    requires NoSlash(v)
    requires forall j :: 0 <= j < |sep| - 1 && j < |rest| ==> rest[j] != '/'
    ensures Pieces(v + rest, sep, cur) == Pieces(rest, sep, cur + v)
    decreases |v|
  {
    var s := v + rest;
    if v == [] {
      assert s == rest && cur + v == cur;
    } else if |s| < |sep| {
      assert cur + v + rest == cur + s;
    } else {
      var k := |sep| - 1;
      if k < |v| {
        assert s[k] == v[k];
      } else {
        assert s[k] == rest[k - |v|];
      }
      assert s[..|sep|][k] != sep[k];
      assert s[1..] == v[1..] + rest;
      PiecesSkip(v[1..], rest, sep, cur + [s[0]]);
      assert cur + [s[0]] + v[1..] == cur + v;
    }
  }

  /** The leading run of non-whitespace chars: what `\S+` takes greedily. */
  function Run(s: string): (w: string)
    ensures |w| <= |s| && w == s[..|w|]
    ensures NoWhitespace(w)
    ensures |w| == |s| || IsWhitespace(s[|w|])
  {
    if s == [] || IsWhitespace(s[0]) then [] else [s[0]] + Run(s[1..])
  }

  /**
   * The maximal runs of non-whitespace chars, in order. On a string that
   * starts with a non-whitespace char this is `split("\\s+")`.
   */
  function Words(s: string): (ws: seq<string>)
    ensures forall i :: 0 <= i < |ws| ==> ws[i] != [] && NoWhitespace(ws[i])
    decreases |s|
  {
    if s == [] then []
    else if IsWhitespace(s[0]) then Words(s[1..])
    else
      var w := Run(s);
      [w] + Words(s[|w|..])
  }

  /** `s` with every whitespace char removed. */
  function Squeeze(s: string): string {
    if s == [] then []
    else if IsWhitespace(s[0]) then Squeeze(s[1..])
    else [s[0]] + Squeeze(s[1..])
  }

  function Concat(ws: seq<string>): string {
    if ws == [] then [] else ws[0] + Concat(ws[1..])
  }

  /** Words separated by one space each. */
  function JoinSpaced(ws: seq<string>): string
    requires ws != []
  {
    if |ws| == 1 then ws[0] else ws[0] + " " + JoinSpaced(ws[1..])
  }

  lemma {:induction false} SqueezeAppend(a: string, b: string)
    ensures Squeeze(a + b) == Squeeze(a) + Squeeze(b)
  {
    if a == [] {
      assert a + b == b;
    } else {
      assert (a + b)[0] == a[0];
      assert (a + b)[1..] == a[1..] + b;
      SqueezeAppend(a[1..], b);
    }
  }

  lemma {:induction false} SqueezeNoWhitespace(w: string)
    requires NoWhitespace(w)
    ensures Squeeze(w) == w
  {
    if w != [] {
      SqueezeNoWhitespace(w[1..]);
    }
  }

  /** Splitting at whitespace keeps every other char, in order: nothing is lost or invented. */
  lemma {:induction false} WordsKeepContent(s: string)
    ensures Concat(Words(s)) == Squeeze(s)
    decreases |s|
  {
    if s == [] {
    } else if IsWhitespace(s[0]) {
      WordsKeepContent(s[1..]);
    } else {
      var w := Run(s);
      assert s == w + s[|w|..];
      WordsKeepContent(s[|w|..]);
      SqueezeAppend(w, s[|w|..]);
      SqueezeNoWhitespace(w);
    }
  }

  /** There is a word exactly when some char is not whitespace. */
  lemma WordsEmpty(s: string)
    ensures Words(s) == [] <==> forall i :: 0 <= i < |s| ==> IsWhitespace(s[i])
  {
    WordsKeepContent(s);
    SqueezeEmpty(s);
  }

  lemma {:induction false} SqueezeEmpty(s: string)
    ensures Squeeze(s) == [] <==> forall i :: 0 <= i < |s| ==> IsWhitespace(s[i])
  {
    if s != [] {
      SqueezeEmpty(s[1..]);
      if IsWhitespace(s[0]) {
        assert forall i :: 1 <= i < |s| ==> s[i] == s[1..][i - 1];
      }
    }
  }

  lemma {:induction false} RunOfWordThenSpace(w: string, rest: string)
    requires NoWhitespace(w)
    requires rest == [] || IsWhitespace(rest[0])
    ensures Run(w + rest) == w
  {
    if w != [] {
      assert (w + rest)[1..] == w[1..] + rest;
      RunOfWordThenSpace(w[1..], rest);
    }
  }

  /** Splitting at whitespace undoes joining whitespace-free words with spaces. */
  lemma {:induction false} WordsOfJoinSpaced(ws: seq<string>)
    requires ws != []
    requires forall i :: 0 <= i < |ws| ==> ws[i] != [] && NoWhitespace(ws[i])
    ensures Words(JoinSpaced(ws)) == ws
  {
    var w := ws[0];
    if |ws| == 1 {
      RunOfWordThenSpace(w, []);
      assert w + [] == w;
    } else {
      var tail := JoinSpaced(ws[1..]);
      var s := w + " " + tail;
      assert s == w + (" " + tail);
      RunOfWordThenSpace(w, " " + tail);
      assert s[|w|..] == " " + tail;
      assert (" " + tail)[1..] == tail;
      WordsOfJoinSpaced(ws[1..]);
    }
  }
}
