/**
 * The prefix-delimited argument grammars of the parser (Parser.java:27-72).
 * Each grammar is stated as a rendering: the strings it matches are exactly
 * the renderings of some choice of groups. A decoder recovers the groups by
 * cutting the string at its slashes, and is proved sound and complete, so the
 * groups of a match are unique.
 */
module Grammars {
  import opened Wrappers
  import opened JavaText
  import opened JavaSplit
  import opened Segments

  /** `n` copies of the head of the tag prefix ` t/`. */
  function TagHeads(n: nat): (hs: seq<string>)
    ensures |hs| == n
    ensures forall i :: 0 <= i < n ==> hs[i] == " t"
  {
    if n == 0 then [] else [" t"] + TagHeads(n - 1)
  }

  /** The text ` t/v1 t/v2 ...` matched by the group `(?: t/[^/]+)*`. */
  function TagGroup(tags: seq<string>): string {
    if tags == [] then [] else " t/" + tags[0] + TagGroup(tags[1..])
  }

  /** `f0 p1/f1 p2/f2 ... pn/fn`: the required groups of a grammar whose prefixes are `p1/ ... pn/`. */
  function Layout(prefixes: seq<string>, fields: seq<string>): string
    requires |fields| == |prefixes| + 1
  {
    if prefixes == [] then fields[0]
    else fields[0] + prefixes[0] + "/" + Layout(prefixes[1..], fields[1..])
  }

  /**
   * The grammar `(f0)p1/(f1)...pn/(fn)((?: t/[^/]+)*)`, every field `[^/]+`,
   * matches all of `s` with these fields and these tag values.
   */
  predicate Fits(s: string, prefixes: seq<string>, fields: seq<string>, tags: seq<string>) {
    |fields| == |prefixes| + 1 && AllFields(fields) && AllFields(tags)
    && s == Layout(prefixes, fields) + TagGroup(tags)
  }

  /** Prefix tokens, without their final '/', hold no slash of their own. */
  predicate ValidPrefixes(prefixes: seq<string>) {
    forall i :: 0 <= i < |prefixes| ==> NoSlash(prefixes[i])
  }

  lemma {:induction false} LayoutAsChain(prefixes: seq<string>, fields: seq<string>)
    requires |fields| == |prefixes| + 1
    ensures Layout(prefixes, fields) == fields[0] + LinksText(Zip(prefixes, fields[1..]))
  {
    if prefixes != [] {
      var rest := fields[1..];
      LayoutAsChain(prefixes[1..], rest);
      var links := Zip(prefixes, rest);
      assert links[0] == Link(prefixes[0], rest[0]);
      assert rest[1..] == fields[2..];
      assert links[1..] == Zip(prefixes[1..], rest[1..]);
      var tail := LinksText(links[1..]);
      calc {
        Layout(prefixes, fields);
        fields[0] + prefixes[0] + "/" + (rest[0] + tail);
        fields[0] + (prefixes[0] + "/" + rest[0] + tail);
        fields[0] + LinksText(links);
      }
    }
  }

  lemma {:induction false} TagGroupAsChain(tags: seq<string>)
    ensures TagGroup(tags) == LinksText(Zip(TagHeads(|tags|), tags))
  {
    if tags != [] {
      TagGroupAsChain(tags[1..]);
      var links := Zip(TagHeads(|tags|), tags);
      assert links[1..] == Zip(TagHeads(|tags| - 1), tags[1..]);
      assert " t" + "/" == " t/";
    }
  }

  /** A match of a required grammar is a chain whose heads are the prefixes followed by tag heads. */
  lemma FitsAsChain(prefixes: seq<string>, fields: seq<string>, tags: seq<string>)
    requires |fields| == |prefixes| + 1
    ensures Layout(prefixes, fields) + TagGroup(tags)
         == fields[0] + LinksText(Zip(prefixes + TagHeads(|tags|), fields[1..] + tags))
  {
    var a := Zip(prefixes, fields[1..]);
    var b := Zip(TagHeads(|tags|), tags);
    LayoutAsChain(prefixes, fields);
    TagGroupAsChain(tags);
    ZipAppend(prefixes, fields[1..], TagHeads(|tags|), tags);
    LinksTextAppend(a, b);
    Substitute(Layout(prefixes, fields), TagGroup(tags), fields[0], LinksText(a), LinksText(b), LinksText(a + b));
  }

  lemma Substitute(x: string, y: string, f: string, ta: string, tb: string, tab: string)
    requires x == f + ta && y == tb && tab == ta + tb
    ensures x + y == f + tab
  {
  }

  /** The groups of a required grammar: `fields[0]` is the lead field, then one per prefix. */
  datatype Groups = Groups(fields: seq<string>, tags: seq<string>)

  /**
   * Cuts `s` at its slashes; the first `|prefixes|` cuts must follow the
   * prefixes in order and every further cut must follow ` t`.
   */
  function DecodeRequired(s: string, prefixes: seq<string>): (r: Option<Groups>)
    ensures r.Some? ==> |r.value.fields| == |prefixes| + 1
  {
    var segs := SplitSlash(s);
    var n := |segs| - 1;
    if n < |prefixes| then None
    else
      match Unchain(segs, prefixes + TagHeads(n - |prefixes|))
      case None => None
      case Some((lead, links)) =>
        var vs := Values(links);
        Some(Groups([lead] + vs[..|prefixes|], vs[|prefixes|..]))
  }

  /** Whatever the decoder returns is a match of the grammar. */
  lemma DecodeRequiredSound(s: string, prefixes: seq<string>)
    requires DecodeRequired(s, prefixes).Some?
    ensures var g := DecodeRequired(s, prefixes).value;
      Fits(s, prefixes, g.fields, g.tags)
  {
    var segs := SplitSlash(s);
    var heads := prefixes + TagHeads(|segs| - 1 - |prefixes|);
    UnchainSound(segs, heads);
    var (lead, links) := Unchain(segs, heads).value;
    var g := DecodeRequired(s, prefixes).value;
    assert g.fields == [lead] + Values(links)[..|prefixes|] && g.tags == Values(links)[|prefixes|..];
    ChainPartsNoSlash(lead, links);
    assert FieldValues(links);
    DecodedGroups(lead, links, prefixes, g.fields, g.tags);
    JoinSplitSlash(s);
    ChainIsJoin(lead, links);
    FitsAsChain(prefixes, g.fields, g.tags);
  }

  /** The groups read off a decoded chain: its lead, then its values split after the prefixes. */
  lemma DecodedGroups(lead: string, links: seq<Link>, prefixes: seq<string>, fields: seq<string>, tags: seq<string>)
    requires |prefixes| <= |links| && Heads(links) == prefixes + TagHeads(|links| - |prefixes|)
    requires fields == [lead] + Values(links)[..|prefixes|] && tags == Values(links)[|prefixes|..]
    requires IsField(lead) && FieldValues(links)
    ensures |fields| == |prefixes| + 1 && fields[0] == lead
    ensures links == Zip(prefixes + TagHeads(|tags|), fields[1..] + tags)
    ensures AllFields(fields) && AllFields(tags)
  {
    var vs := Values(links);
    assert vs == fields[1..] + tags;
    assert Heads(links) == prefixes + TagHeads(|tags|);
    ZipOfParts(links);
    DecodedFields(lead, links, |prefixes|, fields, tags);
  }

  lemma DecodedFields(lead: string, links: seq<Link>, n: nat, fields: seq<string>, tags: seq<string>)
    requires n <= |links| && fields == [lead] + Values(links)[..n] && tags == Values(links)[n..]
    requires IsField(lead) && FieldValues(links)
    ensures AllFields(fields) && AllFields(tags)
  {
    forall i | 0 <= i < |fields| ensures IsField(fields[i]) {
      if i > 0 { assert fields[i] == links[i - 1].value; }
    }
    forall i | 0 <= i < |tags| ensures IsField(tags[i]) {
      assert tags[i] == links[n + i].value;
    }
  }

  /** Every match of the grammar is found by the decoder, with the same groups. */
  lemma DecodeRequiredComplete(s: string, prefixes: seq<string>, fields: seq<string>, tags: seq<string>)
    requires ValidPrefixes(prefixes)
    requires Fits(s, prefixes, fields, tags)
    ensures DecodeRequired(s, prefixes) == Some(Groups(fields, tags))
  {
    var heads := prefixes + TagHeads(|tags|);
    var values := fields[1..] + tags;
    var links := Zip(heads, values);
    FitsAsChain(prefixes, fields, tags);
    GroupLinksValid(prefixes, fields, tags);
    assert IsField(fields[0]);
    SplitChain(fields[0], links);
    ZipParts(heads, values);
    UnchainComplete(fields[0], links);
    assert values[..|prefixes|] == fields[1..];
    assert values[|prefixes|..] == tags;
    assert [fields[0]] + fields[1..] == fields;
  }

  /** The links of valid groups have slash-free heads and field values. */
  lemma GroupLinksValid(prefixes: seq<string>, fields: seq<string>, tags: seq<string>)
    requires ValidPrefixes(prefixes) && |fields| == |prefixes| + 1
    requires AllFields(fields) && AllFields(tags)
    ensures SlashFreeLinks(Zip(prefixes + TagHeads(|tags|), fields[1..] + tags))
    ensures NonEmptyValues(Zip(prefixes + TagHeads(|tags|), fields[1..] + tags))
  {
    var links := Zip(prefixes + TagHeads(|tags|), fields[1..] + tags);
    forall i | 0 <= i < |links| ensures NoSlash(links[i].head) && IsField(links[i].value) {
      GroupLinkValid(prefixes, fields, tags, i);
    }
  }

  lemma GroupLinkValid(prefixes: seq<string>, fields: seq<string>, tags: seq<string>, i: nat)
    requires ValidPrefixes(prefixes) && |fields| == |prefixes| + 1
    requires AllFields(fields) && AllFields(tags)
    requires i < |prefixes| + |tags|
    ensures var l := Zip(prefixes + TagHeads(|tags|), fields[1..] + tags)[i];
      NoSlash(l.head) && IsField(l.value)
  {
    var heads, values := prefixes + TagHeads(|tags|), fields[1..] + tags;
    if i < |prefixes| {
      assert heads[i] == prefixes[i] && values[i] == fields[i + 1];
    } else {
      assert heads[i] == " t" && values[i] == tags[i - |prefixes|];
    }
  }

  /** The groups of a match are unique. */
  lemma DecodeRequiredUnique(s: string, prefixes: seq<string>,
                             fields1: seq<string>, tags1: seq<string>,
                             fields2: seq<string>, tags2: seq<string>)
    requires ValidPrefixes(prefixes)
    requires Fits(s, prefixes, fields1, tags1) && Fits(s, prefixes, fields2, tags2)
    ensures fields1 == fields2 && tags1 == tags2
  {
    DecodeRequiredComplete(s, prefixes, fields1, tags1);
    DecodeRequiredComplete(s, prefixes, fields2, tags2);
  }

  /** The grammar matches `s` exactly when the decoder succeeds. */
  lemma DecodeRequiredMatches(s: string, prefixes: seq<string>)
    requires ValidPrefixes(prefixes)
    ensures DecodeRequired(s, prefixes).Some? <==> exists fields, tags :: Fits(s, prefixes, fields, tags)
    ensures forall fields, tags :: Fits(s, prefixes, fields, tags) ==> DecodeRequired(s, prefixes) == Some(Groups(fields, tags))
  {
    if DecodeRequired(s, prefixes).Some? {
      DecodeRequiredSound(s, prefixes);
    }
    forall fields, tags | Fits(s, prefixes, fields, tags)
      ensures DecodeRequired(s, prefixes) == Some(Groups(fields, tags))
    {
      DecodeRequiredComplete(s, prefixes, fields, tags);
    }
  }

  // ---------------------------------------------------------------------
  // TEAM_EDIT_DATA_ARGS_FORMAT: `(\d+)( n/[^/]+)?( c/[^/]+)?( s/[^/]+)?(?: t/[^/]+)*`

  /** The groups of the edit grammar; an absent optional group is `None`, Java's null. */
  datatype EditGroups = EditGroups(index: string, name: Option<string>, country: Option<string>,
                                   sponsor: Option<string>, tags: seq<string>)

  function OptionalText(prefix: string, v: Option<string>): string {
    if v.Some? then prefix + v.value else []
  }

  /** The string the edit grammar matches with these groups. */
  function EditText(e: EditGroups): string {
    e.index + OptionalText(" n/", e.name) + OptionalText(" c/", e.country)
    + OptionalText(" s/", e.sponsor) + TagGroup(e.tags)
  }

  predicate OptionalField(v: Option<string>) {
    v.Some? ==> IsField(v.value)
  }

  /** The edit grammar matches all of `s` with the groups `e`. */
  predicate EditFits(s: string, e: EditGroups) {
    IsDigits(e.index) && OptionalField(e.name) && OptionalField(e.country)
    && OptionalField(e.sponsor) && AllFields(e.tags) && s == EditText(e)
  }

  function OptionalLinks(head: string, v: Option<string>): seq<Link> {
    if v.Some? then [Link(head, v.value)] else []
  }

  /** The chain of an edit match: its present groups, in grammar order. */
  function EditLinks(e: EditGroups): seq<Link> {
    OptionalLinks(" n", e.name) + (OptionalLinks(" c", e.country) + (OptionalLinks(" s", e.sponsor)
    + Zip(TagHeads(|e.tags|), e.tags)))
  }

  lemma OptionalTextAsChain(prefix: string, head: string, v: Option<string>)
    requires prefix == head + "/"
    ensures OptionalText(prefix, v) == LinksText(OptionalLinks(head, v))
  {
    if v.Some? {
      assert LinksText([Link(head, v.value)]) == head + "/" + v.value + [];
    }
  }

  lemma EditTextAsChain(e: EditGroups)
    ensures EditText(e) == e.index + LinksText(EditLinks(e))
  {
    var a, b, c := OptionalLinks(" n", e.name), OptionalLinks(" c", e.country), OptionalLinks(" s", e.sponsor);
    var d := Zip(TagHeads(|e.tags|), e.tags);
    OptionalTextAsChain(" n/", " n", e.name);
    OptionalTextAsChain(" c/", " c", e.country);
    OptionalTextAsChain(" s/", " s", e.sponsor);
    TagGroupAsChain(e.tags);
    LinksTextAppend(c, d);
    LinksTextAppend(b, c + d);
    LinksTextAppend(a, b + (c + d));
    SubstituteParts(EditText(e), e.index, LinksText(a), LinksText(b), LinksText(c), LinksText(d),
                    LinksText(EditLinks(e)));
  }

  lemma SubstituteParts(x: string, lead: string, ta: string, tb: string, tc: string, td: string, t: string)
    requires x == lead + ta + tb + tc + td && t == ta + (tb + (tc + td))
    ensures x == lead + t
  {
  }

  /** The first link of an edit chain belongs to its earliest present group. */
  lemma EditLinksFirst(e: EditGroups)
    ensures e.name.Some? ==>
      EditLinks(e) == [Link(" n", e.name.value)] + EditLinks(e.(name := None))
    ensures e.name.None? && e.country.Some? ==>
      EditLinks(e) == [Link(" c", e.country.value)] + EditLinks(e.(country := None))
    ensures e.name.None? && e.country.None? && e.sponsor.Some? ==>
      EditLinks(e) == [Link(" s", e.sponsor.value)] + EditLinks(e.(sponsor := None))
    ensures e.name.None? && e.country.None? && e.sponsor.None? && e.tags != [] ==>
      EditLinks(e) == [Link(" t", e.tags[0])] + EditLinks(e.(tags := e.tags[1..]))
    ensures e.name.None? && e.country.None? && e.sponsor.None? && e.tags == [] ==>
      EditLinks(e) == []
  {
    if e.name.Some? {
      FirstLinkName(e);
    } else if e.country.Some? {
      FirstLinkCountry(e);
    } else if e.sponsor.Some? {
      FirstLinkSponsor(e);
    } else if e.tags != [] {
      FirstLinkTag(e);
    }
  }

  lemma FirstLinkName(e: EditGroups)
    requires e.name.Some?
    ensures EditLinks(e) == [Link(" n", e.name.value)] + EditLinks(e.(name := None))
  {
  }

  lemma FirstLinkCountry(e: EditGroups)
    requires e.name.None? && e.country.Some?
    ensures EditLinks(e) == [Link(" c", e.country.value)] + EditLinks(e.(country := None))
  {
  }

  lemma FirstLinkSponsor(e: EditGroups)
    requires e.name.None? && e.country.None? && e.sponsor.Some?
    ensures EditLinks(e) == [Link(" s", e.sponsor.value)] + EditLinks(e.(sponsor := None))
  {
  }

  lemma FirstLinkTag(e: EditGroups)
    requires e.name.None? && e.country.None? && e.sponsor.None? && e.tags != []
    ensures EditLinks(e) == [Link(" t", e.tags[0])] + EditLinks(e.(tags := e.tags[1..]))
  {
    var d := Zip(TagHeads(|e.tags|), e.tags);
    assert d[1..] == Zip(TagHeads(|e.tags| - 1), e.tags[1..]);
    assert d == [d[0]] + d[1..];
  }

  /** `e` holds no group that ranks before `stage` in the grammar. */
  predicate StartsAt(e: EditGroups, stage: nat) {
    (stage > 0 ==> e.name.None?) && (stage > 1 ==> e.country.None?)
    && (stage > 2 ==> e.sponsor.None?) && (stage > 3 ==> e.tags == [])
  }

  /** The place of a prefix head in the edit grammar: ` n/`, ` c/`, ` s/`, then the repeatable ` t/`. */
  function Rank(head: string): (r: nat)
    ensures r <= 4
  {
    if head == " n" then 0 else if head == " c" then 1 else if head == " s" then 2
    else if head == " t" then 3 else 4
  }

  /**
   * Reads a chain into edit groups, requiring its heads in grammar order;
   * `stage` is the rank of the earliest group still allowed.
   */
  function Place(index: string, links: seq<Link>, stage: nat): Option<EditGroups>
    decreases |links|
  {
    if links == [] then Some(EditGroups(index, None, None, None, []))
    else
      var r := Rank(links[0].head);
      if r > 3 || r < stage then None
      else
        match Place(index, links[1..], if r == 3 then 3 else r + 1)
        case None => None
        case Some(e) => Some(Put(e, r, links[0].value))
  }

  /** Records `v` in the group of rank `r`, the tags growing at the front. */
  function Put(e: EditGroups, r: nat, v: string): EditGroups
    requires r <= 3
  {
    if r == 0 then e.(name := Some(v))
    else if r == 1 then e.(country := Some(v))
    else if r == 2 then e.(sponsor := Some(v))
    else e.(tags := [v] + e.tags)
  }

  /** Putting a value before the groups that follow its rank adds its link at the front of the chain. */
  lemma PutLink(e: EditGroups, head: string, v: string)
    requires Rank(head) <= 3 && StartsAt(e, if Rank(head) == 3 then 3 else Rank(head) + 1)
    ensures var e' := Put(e, Rank(head), v);
      e'.index == e.index && EditLinks(e') == [Link(head, v)] + EditLinks(e) && StartsAt(e', Rank(head))
  {
    var r := Rank(head);
    var e' := Put(e, r, v);
    if r == 0 {
      assert e'.(name := None) == e;
    } else if r == 1 {
      assert e'.(country := None) == e;
    } else if r == 2 {
      assert e'.(sponsor := None) == e;
    } else {
      assert e'.tags[1..] == e.tags;
      assert e'.(tags := e'.tags[1..]) == e;
    }
    EditLinksFirst(e');
  }

  lemma {:induction false} PlaceSound(index: string, links: seq<Link>, stage: nat)
    requires Place(index, links, stage).Some?
    ensures var e := Place(index, links, stage).value;
      e.index == index && EditLinks(e) == links && StartsAt(e, stage)
    decreases |links|
  {
    if links != [] {
      var r := Rank(links[0].head);
      var next := if r == 3 then 3 else r + 1;
      PlaceSound(index, links[1..], next);
      PutLink(Place(index, links[1..], next).value, links[0].head, links[0].value);
      assert links == [links[0]] + links[1..];
    }
  }

  lemma {:induction false} PlaceComplete(e: EditGroups, stage: nat)
    requires StartsAt(e, stage)
    ensures Place(e.index, EditLinks(e), stage) == Some(e)
    decreases |EditLinks(e)|
  {
    var links := EditLinks(e);
    if e.name.Some? {
      var e0 := e.(name := None);
      FirstLinkName(e);
      PlaceComplete(e0, 1);
      assert links[1..] == EditLinks(e0);
      assert Rank(" n") == 0 && Put(e0, 0, e.name.value) == e;
    } else if e.country.Some? {
      var e0 := e.(country := None);
      FirstLinkCountry(e);
      PlaceComplete(e0, 2);
      assert links[1..] == EditLinks(e0);
      assert Rank(" c") == 1 && Put(e0, 1, e.country.value) == e;
    } else if e.sponsor.Some? {
      var e0 := e.(sponsor := None);
      FirstLinkSponsor(e);
      PlaceComplete(e0, 3);
      assert links[1..] == EditLinks(e0);
      assert Rank(" s") == 2 && Put(e0, 2, e.sponsor.value) == e;
    } else if e.tags != [] {
      var e0 := e.(tags := e.tags[1..]);
      FirstLinkTag(e);
      PlaceComplete(e0, 3);
      assert links[1..] == EditLinks(e0);
      assert [e.tags[0]] + e0.tags == e.tags;
      assert Rank(" t") == 3 && Put(e0, 3, e.tags[0]) == e;
    } else {
      EditLinksFirst(e);
    }
  }

  predicate FieldValues(links: seq<Link>) {
    forall i :: 0 <= i < |links| ==> IsField(links[i].value)
  }

  /** Every head of an edit chain is two chars long and slash-free. */
  predicate ShortHeads(links: seq<Link>) {
    forall i :: 0 <= i < |links| ==> |links[i].head| == 2 && NoSlash(links[i].head)
  }

  lemma ShapeAppend(x: seq<Link>, y: seq<Link>)
    ensures ShortHeads(x + y) <==> ShortHeads(x) && ShortHeads(y)
    ensures FieldValues(x + y) <==> FieldValues(x) && FieldValues(y)
  {
    var xy := x + y;
    assert forall i :: 0 <= i < |x| ==> xy[i] == x[i];
    assert forall i :: 0 <= i < |y| ==> xy[|x| + i] == y[i];
    if FieldValues(x) && FieldValues(y) {
      forall i | 0 <= i < |xy| ensures IsField(xy[i].value) {
        if i >= |x| { assert xy[i] == y[i - |x|]; }
      }
    }
    if ShortHeads(x) && ShortHeads(y) {
      forall i | 0 <= i < |xy| ensures |xy[i].head| == 2 && NoSlash(xy[i].head) {
        if i >= |x| { assert xy[i] == y[i - |x|]; }
      }
    }
  }

  lemma OptionalShape(head: string, v: Option<string>)
    requires |head| == 2 && NoSlash(head)
    ensures ShortHeads(OptionalLinks(head, v))
    ensures FieldValues(OptionalLinks(head, v)) <==> OptionalField(v)
  {
    if v.Some? {
      assert OptionalLinks(head, v)[0] == Link(head, v.value);
    }
  }

  /** The heads of an edit chain are short; its values are fields exactly when the groups are. */
  lemma EditLinksShape(e: EditGroups)
    ensures ShortHeads(EditLinks(e))
    ensures FieldValues(EditLinks(e)) <==>
      OptionalField(e.name) && OptionalField(e.country) && OptionalField(e.sponsor) && AllFields(e.tags)
  {
    var a, b, c := OptionalLinks(" n", e.name), OptionalLinks(" c", e.country), OptionalLinks(" s", e.sponsor);
    var d := Zip(TagHeads(|e.tags|), e.tags);
    assert ShortHeads(d) && (FieldValues(d) <==> AllFields(e.tags)) by {
      assert forall i :: 0 <= i < |d| ==> d[i] == Link(" t", e.tags[i]);
    }
    OptionalShape(" n", e.name);
    OptionalShape(" c", e.country);
    OptionalShape(" s", e.sponsor);
    ShapeAppend(c, d);
    ShapeAppend(b, c + d);
    ShapeAppend(a, b + (c + d));
  }

  /** The last two chars of a piece: the head of the edit prefix whose '/' follows it. */
  function LastTwo(seg: string): string {
    if |seg| >= 2 then seg[|seg| - 2..] else seg
  }

  function PieceHeads(segs: seq<string>): (heads: seq<string>)
    requires |segs| >= 1
    ensures |heads| == |segs| - 1
  {
    if |segs| == 1 then [] else [LastTwo(segs[0])] + PieceHeads(segs[1..])
  }

  lemma {:induction false} PieceHeadsOfChain(lead: string, links: seq<Link>)
    requires ShortHeads(links)
    ensures PieceHeads(ChainSegments(lead, links)) == Heads(links)
    decreases |links|
  {
    if links != [] {
      var segs := ChainSegments(lead, links);
      var seg := lead + links[0].head;
      assert seg[|seg| - 2..] == links[0].head;
      assert segs[1..] == ChainSegments(links[0].value, links[1..]);
      PieceHeadsOfChain(links[0].value, links[1..]);
    }
  }

  /**
   * Decodes the edit grammar: every cut must follow a two-char edit head,
   * the lead must be digits, and the heads must come in grammar order.
   */
  function DecodeEdit(s: string): Option<EditGroups> {
    var segs := SplitSlash(s);
    match Unchain(segs, PieceHeads(segs))
    case None => None
    case Some((lead, links)) => if IsDigits(lead) then Place(lead, links, 0) else None
  }

  lemma DecodeEditSound(s: string)
    requires DecodeEdit(s).Some?
    ensures EditFits(s, DecodeEdit(s).value)
  {
    var segs := SplitSlash(s);
    UnchainSound(segs, PieceHeads(segs));
    var (lead, links) := Unchain(segs, PieceHeads(segs)).value;
    PlaceSound(lead, links, 0);
    var e := DecodeEdit(s).value;
    JoinSplitSlash(s);
    ChainIsJoin(lead, links);
    EditTextAsChain(e);
    ChainPartsNoSlash(lead, links);
    assert FieldValues(links);
    EditLinksShape(e);
  }

  lemma DecodeEditComplete(s: string, e: EditGroups)
    requires EditFits(s, e)
    ensures DecodeEdit(s) == Some(e)
  {
    var links := EditLinks(e);
    EditTextAsChain(e);
    EditLinksShape(e);
    assert NoSlash(e.index) by {
      assert forall i :: 0 <= i < |e.index| ==> IsDigit(e.index[i]);
    }
    SplitChain(e.index, links);
    PieceHeadsOfChain(e.index, links);
    UnchainComplete(e.index, links);
    PlaceComplete(e, 0);
  }

  /** The edit grammar matches `s` exactly when the decoder succeeds, and its groups are unique. */
  lemma DecodeEditMatches(s: string)
    ensures DecodeEdit(s).Some? <==> exists e :: EditFits(s, e)
    ensures forall e :: EditFits(s, e) ==> DecodeEdit(s) == Some(e)
  {
    if DecodeEdit(s).Some? {
      DecodeEditSound(s);
    }
    forall e | EditFits(s, e) ensures DecodeEdit(s) == Some(e) {
      DecodeEditComplete(s, e);
    }
  }
}
