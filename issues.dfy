/** What the driver loop computes for one story file before printing it:
    the parsed record, the labels from the metadata table, the issue title
    and the issue body. */
module Issues {
  import opened Wrappers
  import opened Text
  import opened Sections
  import opened StoryParser
  import opened IssueBody
  import opened Labels

  datatype Issue = Issue(title: string, body: string, labels: seq<string>)

  /** `f"[USER STORY]: {story_id} - {title}"`. */
  function IssueTitle(storyId: string, title: string): string {
    "[USER STORY]: " + storyId + " - " + title
  }

  /** The issue for one file, as a function of what was matched in it and
      of the metadata table. */
  function IssueFor(stem: string, fields: FieldMatches, captures: map<SectionKey, string>,
                    table: map<string, Metadata>): Issue
  {
    var story := ParseStory(stem, fields, captures);
    Issue(IssueTitle(story.storyId, story.title),
          Body(story.sections),
          LabelsFor(story.storyId, MetadataFor(table, story.storyId)))
  }

  /** One iteration of the driver loop, without its printing. */
  method PrepareIssue(stem: string, fields: FieldMatches, captures: map<SectionKey, string>,
                      table: map<string, Metadata>) returns (issue: Issue)
    ensures issue == IssueFor(stem, fields, captures, table)
  {
    var story := ParseMarkdownFile(stem, fields, captures);
    var metadata := MetadataFor(table, story.storyId);
    var labels := GetLabels(story.storyId, metadata);
    var body := GenerateIssueBody(story.sections);
    issue := Issue(IssueTitle(story.storyId, story.title), body, labels);
  }

  /** Labels come from the file name and the metadata table alone: the
      sprint and category written in the file itself never affect them. */
  lemma LabelsIgnoreFileContents(stem: string, table: map<string, Metadata>,
                                 fields1: FieldMatches, captures1: map<SectionKey, string>,
                                 fields2: FieldMatches, captures2: map<SectionKey, string>)
    ensures IssueFor(stem, fields1, captures1, table).labels == IssueFor(stem, fields2, captures2, table).labels
  {
  }

  /** A section whose heading is missing from the file, or whose text is
      only whitespace, gets no block in the issue body; every other section
      gets its block, with its stripped text. */
  lemma SectionBlockIffText(stem: string, fields: FieldMatches, captures: map<SectionKey, string>, k: SectionKey)
    ensures var sections := ParseStory(stem, fields, captures).sections;
      && (k in Kept(sections, SectionOrder) <==> k in captures && Strip(captures[k]) != "")
      && (k in captures && Strip(captures[k]) != "" ==>
            Block(k, Strip(captures[k])) in Blocks(sections))
  {
    var sections := ParseStory(stem, fields, captures).sections;
    ParsedSection(stem, fields, captures, k);
    BlockIffPresent(sections, k);
  }

  lemma ParsedSection(stem: string, fields: FieldMatches, captures: map<SectionKey, string>, k: SectionKey)
    ensures var sections := ParseStory(stem, fields, captures).sections;
      k in sections && sections[k] == SectionText(captures, k)
  {
    SectionOrderIsPermutation();
  }

  /** A file with none of the nine headings gives an empty issue body. */
  lemma NoSectionsEmptyBody(stem: string, fields: FieldMatches, table: map<string, Metadata>)
    ensures IssueFor(stem, fields, map[], table).body == ""
  {
    var sections := ParseStory(stem, fields, map[]).sections;
    BodyEmptyIffNoSections(sections);
  }
}
