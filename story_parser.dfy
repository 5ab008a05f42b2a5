/** The part of `parse_markdown_file` that is not regular-expression
    matching: the story id taken from the file name, the default for each
    field whose match is absent, and the stripped text of each section. */
module StoryParser {
  import opened Wrappers
  import opened Text
  import opened Sections

  /** What the regular expressions found in one story file. Each scalar
      field is the captured group of its pattern, or None when the pattern
      does not match. */
  datatype FieldMatches = FieldMatches(
    title: Option<string>,
    status: Option<string>,
    category: Option<string>,
    effort: Option<string>,
    sprint: Option<string>)

  /** The parsed record (the script's `sections` dictionary): every key is
      always set, sections included. */
  datatype StoryRecord = StoryRecord(
    storyId: string,
    title: string,
    status: string,
    category: string,
    effort: string,
    sprint: string,
    sections: map<SectionKey, string>)

  const UnknownTitle := "Unknown Title"
  const NotStarted := "❌ Not Started"
  const Unknown := "Unknown"

  // ---------------------------------------------------------------------
  // The story id
  // ---------------------------------------------------------------------

  /** `r` holds at most one '-'. */
  predicate AtMostOneDash(r: string) {
    forall i, j :: 0 <= i < j < |r| ==> !(r[i] == '-' && r[j] == '-')
  }

  /** `r` is the id of a file whose stem is `stem`: the part of the stem
      before its second '-', or the whole stem when it has fewer than two. */
  predicate IsStoryIdOf(stem: string, r: string) {
    && r <= stem
    && AtMostOneDash(r)
    && (r == stem || (stem[|r|] == '-' && '-' in r))
  }

  /** `stem.split("-")[0:2]`. */
  function FirstTwoPieces(stem: string): seq<string> {
    var parts := Split(stem, '-');
    if |parts| <= 2 then parts else parts[..2]
  }

  /** `"-".join(stem.split("-")[0:2])`. */
  function StoryId(stem: string): string {
    Join(FirstTwoPieces(stem), "-")
  }

  /** The split-and-rejoin gives the stem up to its second '-'. */
  lemma StoryIdSpec(stem: string)
    ensures IsStoryIdOf(stem, StoryId(stem))
  {
    var parts := Split(stem, '-');
    var kept := FirstTwoPieces(stem);
    var r := StoryId(stem);
    SplitJoin(stem, '-');
    assert r == parts[0] || r == parts[0] + "-" + parts[1] by {
      if |kept| == 2 {
        assert Join(kept[1..], "-") == parts[1];
      }
    }
    if |parts| > 2 {
      assert parts == kept + parts[2..];
      JoinAppend(kept, parts[2..], "-");
    }
    assert AtMostOneDash(r) by {
      assert '-' !in parts[0];
      if |parts| >= 2 {
        assert '-' !in parts[1];
        if r == parts[0] + "-" + parts[1] {
          forall i, j | 0 <= i < j < |r| ensures !(r[i] == '-' && r[j] == '-') {
            if i < |parts[0]| {
              assert r[i] == parts[0][i];
            } else if j > |parts[0]| {
              assert r[j] == parts[1][j - |parts[0]| - 1];
            }
          }
        }
      }
    }
    assert r != stem ==> r == parts[0] + "-" + parts[1] && r[|parts[0]|] == '-';
  }

  /** The id is determined by the stem: only one string fits. */
  lemma StoryIdUnique(stem: string, r1: string, r2: string)
    requires IsStoryIdOf(stem, r1) && IsStoryIdOf(stem, r2)
    ensures r1 == r2
  {
    if |r1| == |r2| {
      assert r1 == stem[..|r1|] == r2;
    }
  }

  /** The file "US-001-core-setup.md" has the id "US-001". */
  lemma StoryIdExample()
    ensures StoryId("US-001-core-setup") == "US-001"
  {
    var stem := "US-001-core-setup";
    var r := "US-001";
    assert r <= stem;
    assert r[2] == '-' && '-' in r;
    assert AtMostOneDash(r) by {
      forall i, j | 0 <= i < j < |r| ensures !(r[i] == '-' && r[j] == '-') {
        assert forall k :: 0 <= k < |r| && k != 2 ==> r[k] != '-';
      }
    }
    assert stem[6] == '-';
    StoryIdSpec(stem);
    StoryIdUnique(stem, StoryId(stem), r);
  }

  // ---------------------------------------------------------------------
  // Fields and sections
  // ---------------------------------------------------------------------

  /** A section's text: the stripped capture, or "" when its heading is not
      found. */
  function SectionText(captures: map<SectionKey, string>, k: SectionKey): (t: string)
    ensures k !in captures ==> t == ""
    ensures k in captures ==> exists i, j :: CutsOnlySpace(captures[k], i, j) && t == captures[k][i..j]
    ensures t == [] || (!IsSpace(t[0]) && !IsSpace(t[|t| - 1]))
  {
    if k in captures then Strip(captures[k]) else ""
  }

  /** The sections dictionary after the first `n` patterns of the loop. */
  function SectionsUpTo(captures: map<SectionKey, string>, n: nat): map<SectionKey, string>
    requires n <= |SectionOrder|
  {
    map k | k in SectionOrder[..n] :: SectionText(captures, k)
  }

  lemma SectionsStep(captures: map<SectionKey, string>, n: nat)
    requires n < |SectionOrder|
    ensures SectionsUpTo(captures, n + 1)
         == SectionsUpTo(captures, n)[SectionOrder[n] := SectionText(captures, SectionOrder[n])]
  {
    assert SectionOrder[..n + 1] == SectionOrder[..n] + [SectionOrder[n]];
  }

  /** The record the script builds from one file. */
  function ParseStory(stem: string, fields: FieldMatches, captures: map<SectionKey, string>): (r: StoryRecord)
    ensures IsStoryIdOf(stem, r.storyId)
    ensures fields.title.None? ==> r.title == UnknownTitle
    ensures fields.title.Some? ==> r.title == fields.title.value
    ensures fields.status.None? ==> r.status == NotStarted
    ensures fields.status.Some? ==> r.status == fields.status.value
    ensures fields.category.None? ==> r.category == Unknown
    ensures fields.category.Some? ==> r.category == fields.category.value
    ensures fields.effort.None? ==> r.effort == Unknown
    ensures fields.effort.Some? ==> r.effort == fields.effort.value
    ensures fields.sprint.None? ==> r.sprint == Unknown
    ensures fields.sprint.Some? ==> r.sprint == fields.sprint.value
    ensures forall k :: k in r.sections
    ensures forall k :: k !in captures ==> r.sections[k] == ""
    ensures forall k :: k in captures ==> r.sections[k] == Strip(captures[k])
  {
    SectionOrderIsPermutation();
    StoryIdSpec(stem);
    StoryRecord(
      StoryId(stem),
      fields.title.GetOr(UnknownTitle),
      fields.status.GetOr(NotStarted),
      fields.category.GetOr(Unknown),
      fields.effort.GetOr(Unknown),
      fields.sprint.GetOr(Unknown),
      map k | k in SectionOrder :: SectionText(captures, k))
  }

  /** `parse_markdown_file`, given what its regular expressions matched:
      the scalar fields with their defaults, then the sections filled in one
      at a time in a loop over the section patterns. */
  method ParseMarkdownFile(stem: string, fields: FieldMatches, captures: map<SectionKey, string>)
    returns (story: StoryRecord)
    ensures story == ParseStory(stem, fields, captures)
  {
    var pieces := Split(stem, '-');
    var storyId := Join(if |pieces| <= 2 then pieces else pieces[..2], "-");
    var title := if fields.title.Some? then fields.title.value else "Unknown Title";
    var sections: map<SectionKey, string> := map[];
    for i := 0 to |SectionOrder|
      invariant sections == SectionsUpTo(captures, i)
    {
      var k := SectionOrder[i];
      SectionsStep(captures, i);
      if k in captures {
        sections := sections[k := Strip(captures[k])];
      } else {
        sections := sections[k := ""];
      }
    }
    assert SectionOrder[..|SectionOrder|] == SectionOrder;
    assert sections == ParseStory(stem, fields, captures).sections;
    assert storyId == StoryId(stem);
    story := StoryRecord(
      storyId,
      title,
      if fields.status.Some? then fields.status.value else "❌ Not Started",
      if fields.category.Some? then fields.category.value else "Unknown",
      if fields.effort.Some? then fields.effort.value else "Unknown",
      if fields.sprint.Some? then fields.sprint.value else "Unknown",
      sections);
  }
}
