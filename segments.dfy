/**
 * Every argument grammar of the parser reserves '/' for its prefix tokens:
 * fields are `[^/]+` and each prefix ends in '/'. So an argument string is
 * read by cutting it at its slashes; this module holds that cut and the
 * "chain" shape `lead head1/value1 head2/value2 ...` that all grammars share.
 */
module Segments {
  import opened Wrappers
  import opened JavaSplit

  /** A field matched by `[^/]+`. */
  predicate IsField(v: string) {
    |v| > 0 && NoSlash(v)
  }

  predicate AllFields(vs: seq<string>) {
    forall i :: 0 <= i < |vs| ==> IsField(vs[i])
  }

  /** The pieces of `s` between its slashes, empty ones included. */
  function SplitSlash(s: string): (segs: seq<string>)
    ensures |segs| >= 1
    ensures forall i :: 0 <= i < |segs| ==> NoSlash(segs[i])
    decreases |s|
  {
    if s == [] then [[]]
    else
      var rest := SplitSlash(s[1..]);
      if s[0] == '/' then [[]] + rest else [[s[0]] + rest[0]] + rest[1..]
  }

  function JoinSlash(segs: seq<string>): string
    requires |segs| >= 1
  {
    if |segs| == 1 then segs[0] else segs[0] + "/" + JoinSlash(segs[1..])
  }

  lemma Regroup3(a: string, b: string, c: string, d: string)
    ensures (a + b) + c + d == a + (b + c + d)
  {
  }

  lemma JoinSlashConsFirst(x: string, segs: seq<string>)
    requires |segs| >= 1
    ensures JoinSlash([x + segs[0]] + segs[1..]) == x + JoinSlash(segs)
  {
    var t := [x + segs[0]] + segs[1..];
    assert |t| == |segs| && t[0] == x + segs[0];
    if |segs| > 1 {
      var j := JoinSlash(segs[1..]);
      assert t[1..] == segs[1..];
      calc {
        JoinSlash(t);
        t[0] + "/" + JoinSlash(t[1..]);
        (x + segs[0]) + "/" + j;
        { Regroup3(x, segs[0], "/", j); }
        x + (segs[0] + "/" + j);
        x + JoinSlash(segs);
      }
    }
  }

  /** Joining the pieces with '/' gives back the string. */
  lemma {:induction false} JoinSplitSlash(s: string)
    ensures JoinSlash(SplitSlash(s)) == s
    decreases |s|
  {
    if s != [] {
      var rest := SplitSlash(s[1..]);
      JoinSplitSlash(s[1..]);
      if s[0] == '/' {
        assert ([[]] + rest)[1..] == rest;
      } else {
        JoinSlashConsFirst([s[0]], rest);
      }
    }
  }

  lemma {:induction false} SplitSlashPrefix(a: string, t: string)
    requires NoSlash(a)
    ensures SplitSlash(a + t) == [a + SplitSlash(t)[0]] + SplitSlash(t)[1..]
    decreases |a|
  {
    if a != [] {
      assert (a + t)[0] == a[0];
      assert (a + t)[1..] == a[1..] + t;
      SplitSlashPrefix(a[1..], t);
      assert [a[0]] + (a[1..] + SplitSlash(t)[0]) == a + SplitSlash(t)[0];
    } else {
      var r := SplitSlash(t);
      assert a + t == t;
      assert a + r[0] == r[0];
      assert r == [r[0]] + r[1..];
    }
  }

  /** Cutting at the slashes undoes joining slash-free pieces with '/'. */
  lemma {:induction false} SplitJoinSlash(segs: seq<string>)
    requires |segs| >= 1
    requires forall i :: 0 <= i < |segs| ==> NoSlash(segs[i])
    ensures SplitSlash(JoinSlash(segs)) == segs
  {
    if |segs| == 1 {
      SplitSlashPrefix(segs[0], []);
      assert segs[0] + [] == segs[0];
    } else {
      var j := JoinSlash(segs[1..]);
      SplitJoinSlash(segs[1..]);
      assert "/" + j == ['/'] + j;
      assert ("/" + j)[1..] == j;
      assert SplitSlash("/" + j) == [[]] + segs[1..];
      assert segs[0] + "/" + j == segs[0] + ("/" + j);
      SplitSlashPrefix(segs[0], "/" + j);
      assert segs[0] + [] == segs[0];
      assert ([[]] + segs[1..])[1..] == segs[1..];
    }
  }

  /** `head/value`: a prefix token (whose own slash is implicit) followed by its field. */
  datatype Link = Link(head: string, value: string)

  /** The text `head1/value1 head2/value2 ...` of a list of links. */
  function LinksText(links: seq<Link>): string {
    if links == [] then [] else links[0].head + "/" + links[0].value + LinksText(links[1..])
  }

  function Heads(links: seq<Link>): (hs: seq<string>)
    ensures |hs| == |links|
    ensures forall i :: 0 <= i < |links| ==> hs[i] == links[i].head
  {
    if links == [] then [] else [links[0].head] + Heads(links[1..])
  }

  function Values(links: seq<Link>): (vs: seq<string>)
    ensures |vs| == |links|
    ensures forall i :: 0 <= i < |links| ==> vs[i] == links[i].value
  {
    if links == [] then [] else [links[0].value] + Values(links[1..])
  }

  /** Pairs each head with the value that follows it. */
  function Zip(heads: seq<string>, values: seq<string>): (links: seq<Link>)
    requires |heads| == |values|
    ensures |links| == |heads|
    ensures forall i :: 0 <= i < |heads| ==> links[i] == Link(heads[i], values[i])
  {
    if heads == [] then [] else [Link(heads[0], values[0])] + Zip(heads[1..], values[1..])
  }

  lemma {:induction false} ZipParts(heads: seq<string>, values: seq<string>)
    requires |heads| == |values|
    ensures Heads(Zip(heads, values)) == heads
    ensures Values(Zip(heads, values)) == values
  {
    if heads != [] {
      ZipParts(heads[1..], values[1..]);
    }
  }

  lemma {:induction false} ZipOfParts(links: seq<Link>)
    ensures Zip(Heads(links), Values(links)) == links
  {
    if links != [] {
      ZipOfParts(links[1..]);
    }
  }

  lemma {:induction false} ZipAppend(h1: seq<string>, v1: seq<string>, h2: seq<string>, v2: seq<string>)
    requires |h1| == |v1| && |h2| == |v2|
    ensures Zip(h1 + h2, v1 + v2) == Zip(h1, v1) + Zip(h2, v2)
  {
    if h1 == [] {
      assert h1 + h2 == h2 && v1 + v2 == v2;
    } else {
      assert (h1 + h2)[1..] == h1[1..] + h2;
      assert (v1 + v2)[1..] == v1[1..] + v2;
      ZipAppend(h1[1..], v1[1..], h2, v2);
    }
  }

  lemma {:induction false} LinksTextAppend(a: seq<Link>, b: seq<Link>)
    ensures LinksText(a + b) == LinksText(a) + LinksText(b)
  {
    if a == [] {
      assert a + b == b;
    } else {
      assert (a + b)[0] == a[0];
      assert (a + b)[1..] == a[1..] + b;
      LinksTextAppend(a[1..], b);
    }
  }

  /** The slash-free pieces of `lead` followed by `links`: each piece but the last ends with a head. */
  function ChainSegments(lead: string, links: seq<Link>): (segs: seq<string>)
    ensures |segs| == |links| + 1
    decreases |links|
  {
    if links == [] then [lead]
    else [lead + links[0].head] + ChainSegments(links[0].value, links[1..])
  }

  predicate SlashFreeLinks(links: seq<Link>) {
    forall i :: 0 <= i < |links| ==> NoSlash(links[i].head) && NoSlash(links[i].value)
  }

  lemma {:induction false} ChainIsJoin(lead: string, links: seq<Link>)
    ensures lead + LinksText(links) == JoinSlash(ChainSegments(lead, links))
    decreases |links|
  {
    if links == [] {
      assert lead + [] == lead;
    } else {
      var l := links[0];
      ChainIsJoin(l.value, links[1..]);
      assert lead + LinksText(links)
          == (lead + l.head) + "/" + (l.value + LinksText(links[1..]));
      assert ChainSegments(lead, links)[1..] == ChainSegments(l.value, links[1..]);
    }
  }

  lemma {:induction false} ChainSegmentsNoSlash(lead: string, links: seq<Link>)
    requires NoSlash(lead) && SlashFreeLinks(links)
    ensures forall i :: 0 <= i < |links| + 1 ==> NoSlash(ChainSegments(lead, links)[i])
    decreases |links|
  {
    if links != [] {
      ChainSegmentsNoSlash(links[0].value, links[1..]);
      var segs := ChainSegments(lead, links);
      forall i | 0 <= i < |segs| ensures NoSlash(segs[i]) {
        if i > 0 { assert segs[i] == ChainSegments(links[0].value, links[1..])[i - 1]; }
      }
    }
  }

  /** The pieces of a slash-free chain are exactly its chain segments. */
  lemma SplitChain(lead: string, links: seq<Link>)
    requires NoSlash(lead) && SlashFreeLinks(links)
    ensures SplitSlash(lead + LinksText(links)) == ChainSegments(lead, links)
  {
    ChainIsJoin(lead, links);
    ChainSegmentsNoSlash(lead, links);
    SplitJoinSlash(ChainSegments(lead, links));
  }

  /** The converse of ChainSegmentsNoSlash: slash-free pieces have slash-free values. */
  lemma {:induction false} ChainPartsNoSlash(lead: string, links: seq<Link>)
    requires forall i :: 0 <= i < |links| + 1 ==> NoSlash(ChainSegments(lead, links)[i])
    ensures NoSlash(lead)
    ensures forall i :: 0 <= i < |links| ==> NoSlash(links[i].value)
    decreases |links|
  {
    var segs := ChainSegments(lead, links);
    if links != [] {
      var rest := ChainSegments(links[0].value, links[1..]);
      assert segs[0] == lead + links[0].head;
      assert forall i :: 0 <= i < |lead| ==> lead[i] == segs[0][i];
      forall i | 0 <= i < |links| + 0 ensures NoSlash(rest[i]) {
        assert rest[i] == segs[i + 1];
      }
      ChainPartsNoSlash(links[0].value, links[1..]);
      forall i | 0 <= i < |links| ensures NoSlash(links[i].value) {
        if i > 0 { assert links[i] == links[1..][i - 1]; }
      }
    } else {
      assert segs[0] == lead;
    }
  }

  predicate NonEmptyValues(links: seq<Link>) {
    forall i :: 0 <= i < |links| ==> links[i].value != []
  }

  /**
   * Reads the pieces back into a lead and links, given the head that each
   * piece but the last must end with; every value must be non-empty.
   */
  function Unchain(segs: seq<string>, heads: seq<string>): (r: Option<(string, seq<Link>)>)
    requires |segs| == |heads| + 1
    ensures r.Some? ==> |r.value.1| == |heads|
    decreases |heads|
  {
    var seg := segs[0];
    if heads == [] then (if seg != [] then Some((seg, [])) else None)
    else
      var h := heads[0];
      if |seg| > |h| && seg[|seg| - |h|..] == h then
        match Unchain(segs[1..], heads[1..])
        case None => None
        case Some((v, links)) => Some((seg[..|seg| - |h|], [Link(h, v)] + links))
      else None
  }

  lemma {:induction false} UnchainSound(segs: seq<string>, heads: seq<string>)
    requires |segs| == |heads| + 1
    requires Unchain(segs, heads).Some?
    ensures var (lead, links) := Unchain(segs, heads).value;
      && lead != [] && NonEmptyValues(links)
      && Heads(links) == heads
      && ChainSegments(lead, links) == segs
    decreases |heads|
  {
    if heads != [] {
      UnchainSound(segs[1..], heads[1..]);
      var seg, h := segs[0], heads[0];
      assert seg == seg[..|seg| - |h|] + h;
      var (v, links) := Unchain(segs[1..], heads[1..]).value;
      var all := [Link(h, v)] + links;
      assert all[1..] == links;
      assert segs == [segs[0]] + segs[1..];
    }
  }

  lemma {:induction false} UnchainComplete(lead: string, links: seq<Link>)
    requires lead != [] && NonEmptyValues(links)
    ensures Unchain(ChainSegments(lead, links), Heads(links)) == Some((lead, links))
    decreases |links|
  {
    if links != [] {
      var l := links[0];
      var segs := ChainSegments(lead, links);
      assert segs[1..] == ChainSegments(l.value, links[1..]);
      assert Heads(links)[1..] == Heads(links[1..]);
      UnchainComplete(l.value, links[1..]);
      var seg := lead + l.head;
      assert seg[|seg| - |l.head|..] == l.head;
      assert seg[..|seg| - |l.head|] == lead;
      assert [Link(l.head, l.value)] + links[1..] == links;
    }
  }
}
