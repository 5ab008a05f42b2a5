/** The nine free-text sections of a user story, in the fixed order in
    which the script both looks for them and writes them into an issue. */
module Sections {

  datatype SectionKey =
    | Description
    | AcceptanceCriteria
    | TechnicalRequirements
    | TestingRequirements
    | PerformanceRequirements
    | Dependencies
    | DefinitionOfDone
    | Notes
    | RelatedDocs

  /** The canonical order. */
  const SectionOrder: seq<SectionKey> := [
    Description, AcceptanceCriteria, TechnicalRequirements, TestingRequirements,
    PerformanceRequirements, Dependencies, DefinitionOfDone, Notes, RelatedDocs
  ]

  /** The level-2 heading that introduces a section in a story file and in
      an issue body. */
  function Heading(k: SectionKey): string {
    match k
    case Description => "Description"
    case AcceptanceCriteria => "Acceptance Criteria"
    case TechnicalRequirements => "Technical Requirements"
    case TestingRequirements => "Testing Requirements"
    case PerformanceRequirements => "Performance Requirements"
    case Dependencies => "Dependencies"
    case DefinitionOfDone => "Definition of Done"
    case Notes => "Notes"
    case RelatedDocs => "Related Documentation"
  }

  /** No two sections share a heading, so a heading names its section. */
  lemma HeadingInjective(k1: SectionKey, k2: SectionKey)
    requires Heading(k1) == Heading(k2)
    ensures k1 == k2
  {
    assert |Heading(k1)| == |Heading(k2)|;
  }

  /** Where a section stands in the canonical order. */
  function Position(k: SectionKey): (p: nat)
    ensures p < |SectionOrder| && SectionOrder[p] == k
  {
    match k
    case Description => 0
    case AcceptanceCriteria => 1
    case TechnicalRequirements => 2
    case TestingRequirements => 3
    case PerformanceRequirements => 4
    case Dependencies => 5
    case DefinitionOfDone => 6
    case Notes => 7
    case RelatedDocs => 8
  }

  /** The canonical order lists every section exactly once. */
  lemma SectionOrderIsPermutation()
    ensures |SectionOrder| == 9
    ensures forall k :: k in SectionOrder
    ensures forall i :: 0 <= i < |SectionOrder| ==> Position(SectionOrder[i]) == i
  {
    forall k ensures k in SectionOrder {
      assert SectionOrder[Position(k)] == k;
    }
    forall i | 0 <= i < |SectionOrder|
      ensures Position(SectionOrder[i]) == i
    {
      assert SectionOrder[Position(SectionOrder[i])] == SectionOrder[i];
    }
  }
}
