/**
 * `GeminiClient._parse_response`: turns the model's free-form answer into a tweet text of at
 * most 280 characters and at most five tags.
 */
module ResponseParser {
  import opened Wrappers
  import opened Text
  import opened Tweets

  /** The line that introduces the tag list in the answer. */
  const Marker: string := "\nTags:"
  /** The characters cut from both ends of the raw answer: quote, space, newline. */
  const EdgeJunk: set<char> := {'"', ' ', '\n'}
  const MaxTextLength: nat := 280
  const KeptTextLength: nat := 277
  const Ellipsis: string := "..."
  const MaxTags: nat := 5

  /** A tag as the parser returns it: non-empty, with no whitespace at either end. */
  predicate IsCleanTag(t: string) {
    t != [] && HasTrimmedEnds(t, Whitespace)
  }

  /** `[t.strip() for t in parts if t.strip()]`. */
  function CleanTags(parts: seq<string>): (tags: seq<string>)
    ensures |tags| <= |parts|
    ensures forall t :: t in tags ==> IsCleanTag(t)
  {
    if parts == [] then []
    else
      var t := Strip(parts[0], Whitespace);
      if t != [] then [t] + CleanTags(parts[1..]) else CleanTags(parts[1..])
  }

  /** The answer split at the tag marker: the text before it, and the cleaned tags after it. */
  datatype Sections = Sections(content: string, tags: seq<string>)

  /** `cleaned.split("\nTags:", 1)` when the marker is present, else the whole text and no tags. */
  function SplitSections(cleaned: string): (r: Sections)
    ensures |r.content| <= |cleaned|
    ensures forall t :: t in r.tags ==> IsCleanTag(t)
  {
    match IndexOf(cleaned, Marker)
    case Some(i) => Sections(cleaned[..i], CleanTags(Split(cleaned[i + |Marker|..], ',')))
    case None => Sections(cleaned, [])
  }

  /** The body: everything before the marker, with surrounding whitespace removed. */
  function Body(responseText: string): string {
    Strip(SplitSections(Strip(responseText, EdgeJunk)).content, Whitespace)
  }

  /** The tag candidates: every non-blank comma-separated item after the marker, stripped. */
  function TagCandidates(responseText: string): seq<string> {
    SplitSections(Strip(responseText, EdgeJunk)).tags
  }

  /** `content[:277] + "..."` when the content is longer than 280 characters. */
  function CapText(content: string): (r: string)
    ensures |r| <= MaxTextLength
    ensures |content| <= MaxTextLength ==> r == content
    ensures |content| > MaxTextLength ==> |r| == MaxTextLength && r[..KeptTextLength] == content[..KeptTextLength]
  {
    if |content| > MaxTextLength then content[..KeptTextLength] + Ellipsis else content
  }

  /** `tags[:5]`. */
  function CapTags(tags: seq<string>): (r: seq<string>)
    ensures |r| <= MaxTags && |r| <= |tags| && r == tags[..|r|]
    ensures |tags| <= MaxTags ==> r == tags
    ensures |tags| > MaxTags ==> |r| == MaxTags
  {
    if |tags| <= MaxTags then tags else tags[..MaxTags]
  }

  /** `_parse_response`: never fails; the result respects the length and tag-count limits. */
  function ParseResponse(responseText: string): (r: Tweet)
    ensures |r.text| <= MaxTextLength
    ensures |r.tags| <= MaxTags
    ensures forall t :: t in r.tags ==> IsCleanTag(t)
  {
    Tweet(CapText(Body(responseText)), CapTags(TagCandidates(responseText)))
  }

  // ---------------------------------------------------------------- tag list

  /** The tag candidates are exactly the stripped, non-blank items, whatever their order. */
  lemma {:induction false} CleanTagsMembers(parts: seq<string>, t: string)
    ensures t in CleanTags(parts) <==> t != [] && exists p :: p in parts && Strip(p, Whitespace) == t
  {
    if parts != [] {
      CleanTagsMembers(parts[1..], t);
      if t != [] && Strip(parts[0], Whitespace) != t {
        forall p | p in parts && Strip(p, Whitespace) == t
          ensures p in parts[1..]
        {
          assert p != parts[0];
        }
      }
    }
  }

  /** Cleaning keeps the items in their order: it distributes over concatenation. */
  lemma {:induction false} CleanTagsAppend(a: seq<string>, b: seq<string>)
    ensures CleanTags(a + b) == CleanTags(a) + CleanTags(b)
  {
    if a != [] {
      assert (a + b)[1..] == a[1..] + b;
      CleanTagsAppend(a[1..], b);
    } else {
      assert a + b == b;
    }
  }

  /** The returned tags are the first `min(5, n)` candidates, in order, duplicates kept. */
  lemma TagsArePrefixOfCandidates(responseText: string)
    ensures var r, c := ParseResponse(responseText).tags, TagCandidates(responseText);
      |r| == (if |c| < MaxTags then |c| else MaxTags) && r == c[..|r|]
  {
  }

  // ---------------------------------------------------------------- text

  /** The text is the body, unless the body exceeds 280 characters: then its first 277 and "...". */
  lemma TextIsCappedBody(responseText: string)
    ensures var r, b := ParseResponse(responseText).text, Body(responseText);
      if |b| > MaxTextLength then |r| == MaxTextLength && r == b[..KeptTextLength] + "..." else r == b
  {
  }

  /** Where the marker first occurs, the answer is split there. */
  lemma SplitAtFirstMarker(cleaned: string, i: nat)
    requires OccursAt(cleaned, Marker, i)
    requires forall k: nat :: k < i ==> !OccursAt(cleaned, Marker, k)
    ensures SplitSections(cleaned) == Sections(cleaned[..i], CleanTags(Split(cleaned[i + |Marker|..], ',')))
  {
    var j := IndexOf(cleaned, Marker);
    assert j.Some?;
    assert !(j.value < i) && !(i < j.value);
  }

  /** Without a marker there are no tags and the whole cleaned answer is the body. */
  lemma NoMarkerNoTags(responseText: string)
    requires forall k: nat :: !OccursAt(Strip(responseText, EdgeJunk), Marker, k)
    ensures ParseResponse(responseText).tags == []
    ensures Body(responseText) == Strip(Strip(responseText, EdgeJunk), Whitespace)
  {
    assert IndexOf(Strip(responseText, EdgeJunk), Marker).None?;
  }

  /** A string without the marker keeps none when "..." is appended: no marker character is a dot. */
  lemma NoMarkerAfterEllipsis(s: string)
    requires forall k: nat :: !OccursAt(s, Marker, k)
    ensures forall k: nat :: !OccursAt(s + Ellipsis, Marker, k)
  {
    var t := s + Ellipsis;
    forall k: nat | k + |Marker| <= |t|
      ensures !OccursAt(t, Marker, k)
    {
      if k + |Marker| <= |s| {
        assert t[k..k + |Marker|] == s[k..k + |Marker|];
        assert !OccursAt(s, Marker, k);
      } else {
        assert t[k + 5] == Ellipsis[k + 5 - |s|] == '.';
        assert t[k..k + |Marker|][5] != Marker[5];
      }
    }
  }

  /** Stripping cuts a slice out, so it cannot create the marker. */
  lemma StripKeepsNoMarker(s: string, drop: set<char>)
    requires forall k: nat :: !OccursAt(s, Marker, k)
    ensures forall k: nat :: !OccursAt(Strip(s, drop), Marker, k)
  {
    var r := Strip(s, drop);
    StripIsStrip(s, drop);
    var j: nat :| StripsAt(s, drop, j, r);
    assert r == s[j..j + |r|];
    NoOccurrenceInSlice(s, Marker, j, j + |r|);
  }

  /** The text before the first marker does not contain the marker. */
  lemma ContentHasNoMarker(cleaned: string)
    ensures forall k: nat :: !OccursAt(SplitSections(cleaned).content, Marker, k)
  {
    match IndexOf(cleaned, Marker)
    case None =>
    case Some(i) =>
      var content := cleaned[..i];
      assert SplitSections(cleaned).content == content;
      forall k: nat | k + |Marker| <= |content|
        ensures !OccursAt(content, Marker, k)
      {
        assert content[k..k + |Marker|] == cleaned[k..k + |Marker|];
        assert !OccursAt(cleaned, Marker, k);
      }
  }

  /** The body never contains the marker: the split is at its first occurrence. */
  lemma BodyHasNoMarker(responseText: string)
    ensures forall k: nat :: !OccursAt(Body(responseText), Marker, k)
  {
    var cleaned := Strip(responseText, EdgeJunk);
    ContentHasNoMarker(cleaned);
    StripKeepsNoMarker(SplitSections(cleaned).content, Whitespace);
  }

  /** Capping the length cannot introduce the marker. */
  lemma CapKeepsNoMarker(b: string)
    requires forall k: nat :: !OccursAt(b, Marker, k)
    ensures forall k: nat :: !OccursAt(CapText(b), Marker, k)
  {
    if |b| > MaxTextLength {
      NoOccurrenceInSlice(b, Marker, 0, KeptTextLength);
      assert b[0..KeptTextLength] == b[..KeptTextLength];
      NoMarkerAfterEllipsis(b[..KeptTextLength]);
    }
  }

  /** The returned text never contains the tag marker, truncated or not. */
  lemma TextHasNoMarker(responseText: string)
    ensures forall k: nat :: !OccursAt(ParseResponse(responseText).text, Marker, k)
  {
    BodyHasNoMarker(responseText);
    CapKeepsNoMarker(Body(responseText));
  }
}
