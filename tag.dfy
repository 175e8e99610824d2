/**
 * A tag attached to players, teams and matches (data/tag/Tag.java): an
 * immutable value built by a validating constructor that trims the name first.
 */
module Tags {
  import opened Wrappers
  import opened JavaText
  import JavaInteger

  const MESSAGE_TAG_CONSTRAINTS: string := "Tags can be anything"

  /** The Java object holds one final field; `Tag(..)` itself does no checking, `NewTag` does. */
  datatype Tag = Tag(tagName: string)

  /** `isValidTagName`: the whole string matches `.+`, so it is non-empty and has no line terminator. */
  predicate IsValidTagName(test: string) {
    |test| > 0 && SingleLine(test)
  }

  /** What every constructed tag guarantees about its name. */
  predicate Valid(t: Tag) {
    IsValidTagName(t.tagName) && IsTrimmed(t.tagName)
  }

  /**
   * `new Tag(name)`: trims, then validates the trimmed name. It fails with
   * MESSAGE_TAG_CONSTRAINTS exactly when the trimmed name is empty or spans
   * more than one line.
   */
  function NewTag(name: string): (r: Result<Tag, string>)
    ensures r.Success? <==> Trim(name) != [] && SingleLine(Trim(name))
    ensures r.Success? ==> r.value.tagName == Trim(name) && Valid(r.value)
    ensures r.Failure? ==> r.error == MESSAGE_TAG_CONSTRAINTS
  {
    var trimmed := Trim(name);
    if !IsValidTagName(trimmed) then Failure(MESSAGE_TAG_CONSTRAINTS) else Success(Tag(trimmed))
  }

  /** Rebuilding a tag from its own name gives back the same tag. */
  lemma NewTagIdempotent(t: Tag)
    requires Valid(t)
    ensures NewTag(t.tagName) == Success(t)
  {
    TrimOfPadded([], t.tagName, []);
    assert [] + t.tagName + [] == t.tagName;
  }

  /** Constructing twice is the same as constructing once. */
  lemma NewTagOfTagName(name: string)
    requires NewTag(name).Success?
    ensures NewTag(NewTag(name).value.tagName) == NewTag(name)
  {
    NewTagIdempotent(NewTag(name).value);
  }

  /** Names that differ only in surrounding blanks give the same outcome, hence equal tags. */
  lemma NewTagIgnoresPadding(a: string, name: string, b: string)
    requires AllBlank(a) && AllBlank(b)
    ensures NewTag(a + name + b) == NewTag(name)
  {
    TrimIgnoresPadding(a, name, b);
  }

  /** `isValidTagName` does not trim, so a lone space passes it, while `new Tag(" ")` fails. */
  lemma BlankNameValidButRejected()
    ensures IsValidTagName(" ")
    ensures NewTag(" ") == Failure(MESSAGE_TAG_CONSTRAINTS)
  {
    assert AllBlank(" ");
  }

  /**
   * `equals(Object other)`: `None` stands for null and for any object that is
   * not a Tag; otherwise the names are compared.
   */
  predicate Equals(t: Tag, other: Option<Tag>)
    ensures Equals(t, other) ==> other == Some(t)
  {
    other.Some? && t.tagName == other.value.tagName
  }

  /** Equality of tags is equality of names, and it is an equivalence. */
  lemma EqualsIsNameEquality(a: Tag, b: Tag, c: Tag)
    ensures Equals(a, Some(b)) <==> a.tagName == b.tagName
    ensures Equals(a, Some(b)) <==> a == b
    ensures Equals(a, Some(a))
    ensures Equals(a, Some(b)) ==> Equals(b, Some(a))
    ensures Equals(a, Some(b)) && Equals(b, Some(c)) ==> Equals(a, Some(c))
    ensures !Equals(a, None)
  {
  }

  /** The UTF-16 code units of a char, as Java stores strings. */
  function Utf16Units(c: char): (units: seq<int>)
    ensures 1 <= |units| <= 2
    ensures forall i :: 0 <= i < |units| ==> 0 <= units[i] < 0x1_0000
  {
    var v := c as int;
    if v < 0x1_0000 then [v]
    else [0xD800 + (v - 0x1_0000) / 0x400, 0xDC00 + (v - 0x1_0000) % 0x400]
  }

  /** Reduction modulo 2^32 into the signed 32-bit range, as Java's `int` arithmetic does. */
  function Wrap32(x: int): (r: int)
    ensures JavaInteger.InIntRange(r)
    ensures (r - x) % 0x1_0000_0000 == 0
  {
    var m := x % 0x1_0000_0000;
    if m > JavaInteger.MaxInt then m - 0x1_0000_0000 else m
  }

  /** `h = 31 * h + unit` over the code units, wrapping at every step. */
  function HashUnits(h: int, units: seq<int>): int
    decreases |units|
  {
    if units == [] then h else HashUnits(Wrap32(31 * h + units[0]), units[1..])
  }

  function Units(s: string): seq<int> {
    if s == [] then [] else Utf16Units(s[0]) + Units(s[1..])
  }

  /** `String.hashCode`. */
  function StringHashCode(s: string): (h: int)
    ensures JavaInteger.InIntRange(h)
  {
    var h := HashUnits(0, Units(s));
    HashUnitsInRange(0, Units(s));
    h
  }

  lemma {:induction false} HashUnitsInRange(h: int, units: seq<int>)
    requires JavaInteger.InIntRange(h)
    ensures JavaInteger.InIntRange(HashUnits(h, units))
    decreases |units|
  {
    if units != [] {
      HashUnitsInRange(Wrap32(31 * h + units[0]), units[1..]);
    }
  }

  /** `hashCode()`: the hash of the name. */
  function HashCode(t: Tag): (h: int)
    ensures JavaInteger.InIntRange(h)
  {
    StringHashCode(t.tagName)
  }

  /** Equal tags have equal hash codes, as the contract of `hashCode` demands. */
  lemma EqualTagsEqualHash(a: Tag, b: Tag)
    requires Equals(a, Some(b))
    ensures HashCode(a) == HashCode(b)
  {
  }

  /** `toString()`: the name in square brackets. */
  function ToString(t: Tag): (r: string)
    ensures |r| == |t.tagName| + 2
    ensures r[0] == '[' && r[|r| - 1] == ']' && r[1..|r| - 1] == t.tagName
  {
    "[" + t.tagName + "]"
  }
}
