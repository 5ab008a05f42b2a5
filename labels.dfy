/** Label derivation for one user story (`get_labels`): a base label, one
    status label, optional story-point and sprint labels, at most one
    category label and exactly one priority label, in that order. */
module Labels {
  import opened Wrappers
  import opened Text

  /** Stories whose implementation is finished (`COMPLETED_STORIES`). */
  const CompletedStories: set<string> := {"US-001", "US-002", "US-003", "US-004", "US-019"}

  /** One entry of the static metadata table. Each key of the Python
      dictionary may be missing, so each field is optional; the table holds
      ints for `sp` and `sprint` and a string for `category`. */
  datatype Metadata = Metadata(sp: Option<int>, sprint: Option<int>, category: Option<string>)

  /** The empty dictionary `{}` used for a story with no table entry. */
  const NoMetadata := Metadata(None, None, None)

  /** `STORY_METADATA.get(story_id, {})`. */
  function MetadataFor(table: map<string, Metadata>, storyId: string): (md: Metadata)
    ensures storyId in table ==> md == table[storyId]
    ensures storyId !in table ==> md.sp.None? && md.sprint.None? && md.category.None?
  {
    if storyId in table then table[storyId] else NoMetadata
  }

  /** Python truthiness of `metadata.get(key)` for an int entry: the key is
      there and its value is not 0. */
  predicate Truthy(v: Option<int>) {
    v.Some? && v.value != 0
  }

  // ---------------------------------------------------------------------
  // Label kinds: every label the script emits falls in exactly one
  // family, recognisable from its text.
  // ---------------------------------------------------------------------

  datatype LabelKind = Base | Status | StoryPoints | Sprint | Category | Priority | Other

  /** Position of a family in the emitted list. */
  function Rank(k: LabelKind): nat {
    match k
    case Base => 0
    case Status => 1
    case StoryPoints => 2
    case Sprint => 3
    case Category => 4
    case Priority => 5
    case Other => 6
  }

  const StatusLabels: set<string> := {"status:complete", "status:not-started"}
  const CategoryLabels: set<string> := {"core-package", "extension-package", "testing", "documentation"}
  const PriorityLabels: set<string> := {"priority:p0", "priority:p1", "priority:p2", "priority:p3"}

  /** The family a label belongs to, read off its text. */
  function KindOf(l: string): LabelKind {
    if l == "user-story" then Base
    else if l in StatusLabels then Status
    else if l in CategoryLabels then Category
    else if l in PriorityLabels then Priority
    else if "sprint-" <= l then Sprint
    else if "sp-" <= l then StoryPoints
    else Other
  }

  /** No fixed label has 'p' as its second character, so none of them can
      be a story-point or sprint label. */
  lemma FixedLabelsSecondChar(l: string)
    requires l == "user-story" || l in StatusLabels || l in CategoryLabels || l in PriorityLabels
    ensures |l| > 1 && l[1] != 'p'
  {
  }

  /** Every family strictly after the one before it: no family twice and
      the families in their fixed order. */
  predicate KindsIncreasing(labels: seq<string>) {
    forall i, j :: 0 <= i < j < |labels| ==> Rank(KindOf(labels[i])) < Rank(KindOf(labels[j]))
  }

  // ---------------------------------------------------------------------
  // The individual rules
  // ---------------------------------------------------------------------

  /** Exactly one status label, by membership in the completed set. */
  function StatusLabel(storyId: string): (r: string)
    ensures KindOf(r) == Status
    ensures r == "status:complete" <==> storyId in CompletedStories
  {
    if storyId in CompletedStories then "status:complete" else "status:not-started"
  }

  /** `f"sp-{sp}"`. */
  function StoryPointsLabel(sp: int): (r: string)
    ensures KindOf(r) == StoryPoints
  {
    var r := "sp-" + IntToString(sp);
    assert r[..3] == "sp-";
    assert !("sprint-" <= r) by { assert r[2] != "sprint-"[2]; }
    assert !(r == "user-story" || r in StatusLabels || r in CategoryLabels || r in PriorityLabels) by {
      if r == "user-story" || r in StatusLabels || r in CategoryLabels || r in PriorityLabels {
        FixedLabelsSecondChar(r);
      }
    }
    r
  }

  /** `f"sprint-{sprint}"`. */
  function SprintLabel(sprint: int): (r: string)
    ensures KindOf(r) == Sprint
  {
    var r := "sprint-" + IntToString(sprint);
    assert r[..7] == "sprint-";
    assert !(r == "user-story" || r in StatusLabels || r in CategoryLabels || r in PriorityLabels) by {
      if r == "user-story" || r in StatusLabels || r in CategoryLabels || r in PriorityLabels {
        FixedLabelsSecondChar(r);
      }
    }
    r
  }

  /** The category routing as the script writes it: an `if`/`elif` chain
      of substring tests, the first one that holds deciding. */
  function CategoryLabel(category: string): (r: Option<string>)
    ensures r.Some? ==> KindOf(r.value) == Category
  {
    if Contains(category, "Core Package") then Some("core-package")
    else if Contains(category, "Extension Package") then Some("extension-package")
    else if Contains(category, "Testing") || Contains(category, "Samples") then Some("testing")
    else if Contains(category, "Documentation") then Some("documentation")
    else None
  }

  /** The priority ladder as the script writes it: a falsy sprint (absent
      or 0) falls through every test to the lowest tier. */
  function PriorityLabel(sprint: Option<int>): (r: string)
    ensures KindOf(r) == Priority
  {
    if Truthy(sprint) && sprint.value <= 2 then "priority:p0"
    else if Truthy(sprint) && sprint.value <= 4 then "priority:p1"
    else if Truthy(sprint) && sprint.value <= 8 then "priority:p2"
    else "priority:p3"
  }

  /** The whole list, built in the order the script appends to it. */
  function LabelsFor(storyId: string, md: Metadata): seq<string> {
    var withStatus := ["user-story", StatusLabel(storyId)];
    var withSp := if Truthy(md.sp) then withStatus + [StoryPointsLabel(md.sp.value)] else withStatus;
    var withSprint := if Truthy(md.sprint) then withSp + [SprintLabel(md.sprint.value)] else withSp;
    var category := CategoryLabel(md.category.GetOr(""));
    var withCategory := if category.Some? then withSprint + [category.value] else withSprint;
    withCategory + [PriorityLabel(md.sprint)]
  }

  /** `get_labels(story_id, metadata)`, appending to a local list as the
      script does. */
  method GetLabels(storyId: string, md: Metadata) returns (labels: seq<string>)
    ensures labels == LabelsFor(storyId, md)
  {
    labels := ["user-story"];
    if storyId in CompletedStories {
      labels := labels + ["status:complete"];
    } else {
      labels := labels + ["status:not-started"];
    }
    assert labels == ["user-story", StatusLabel(storyId)];
    ghost var withStatus := labels;

    var sp := md.sp;
    if sp.Some? && sp.value != 0 {
      labels := labels + ["sp-" + IntToString(sp.value)];
    }
    ghost var withSp := labels;
    assert withSp == if Truthy(md.sp) then withStatus + [StoryPointsLabel(md.sp.value)] else withStatus;

    var sprint := md.sprint;
    if sprint.Some? && sprint.value != 0 {
      labels := labels + ["sprint-" + IntToString(sprint.value)];
    }
    ghost var withSprint := labels;
    assert withSprint == if Truthy(md.sprint) then withSp + [SprintLabel(md.sprint.value)] else withSp;

    var category := md.category.GetOr("");
    if Contains(category, "Core Package") {
      labels := labels + ["core-package"];
    } else if Contains(category, "Extension Package") {
      labels := labels + ["extension-package"];
    } else if Contains(category, "Testing") || Contains(category, "Samples") {
      labels := labels + ["testing"];
    } else if Contains(category, "Documentation") {
      labels := labels + ["documentation"];
    }
    ghost var routed := CategoryLabel(category);
    assert labels == if routed.Some? then withSprint + [routed.value] else withSprint;
    ghost var withCategory := labels;

    if sprint.Some? && sprint.value != 0 && sprint.value <= 2 {
      labels := labels + ["priority:p0"];
    } else if sprint.Some? && sprint.value != 0 && sprint.value <= 4 {
      labels := labels + ["priority:p1"];
    } else if sprint.Some? && sprint.value != 0 && sprint.value <= 8 {
      labels := labels + ["priority:p2"];
    } else {
      labels := labels + ["priority:p3"];
    }
    assert labels == withCategory + [PriorityLabel(md.sprint)];
  }

  // ---------------------------------------------------------------------
  // Properties of the list
  // ---------------------------------------------------------------------

  /** Appending a label of a later family keeps the families increasing. */
  lemma AppendKeepsKindsIncreasing(labels: seq<string>, l: string)
    requires KindsIncreasing(labels)
    requires labels != [] ==> Rank(KindOf(labels[|labels| - 1])) < Rank(KindOf(l))
    ensures KindsIncreasing(labels + [l])
  {
    var s := labels + [l];
    forall i, j | 0 <= i < j < |s|
      ensures Rank(KindOf(s[i])) < Rank(KindOf(s[j]))
    {
      if j == |labels| && i < |labels| - 1 {
        assert Rank(KindOf(labels[i])) < Rank(KindOf(labels[|labels| - 1]));
      }
    }
  }

  /** One conditional append of the script: when `cond` holds, a label of
      family `kind`, later than every family already in the list, goes on
      the end; the labels already there stay in place. */
  lemma AppendIf(labels: seq<string>, cond: bool, l: string, kind: LabelKind) returns (r: seq<string>)
    requires labels != [] && KindsIncreasing(labels)
    requires Rank(KindOf(labels[|labels| - 1])) < Rank(kind)
    requires cond ==> KindOf(l) == kind
    ensures r == if cond then labels + [l] else labels
    ensures |labels| <= |r| <= |labels| + 1
    ensures r[..|labels|] == labels
    ensures KindsIncreasing(r)
    ensures Rank(KindOf(r[|r| - 1])) <= Rank(kind)
  {
    r := if cond then labels + [l] else labels;
    if cond {
      AppendKeepsKindsIncreasing(labels, l);
      assert r[..|labels|] == labels;
    }
  }

  /** The list the script assembles, for labels of the right families:
      its shape does not depend on the text of any of them. */
  lemma AssembledShape(status: string, spOn: bool, sp: string, sprintOn: bool, sprint: string,
                       catOn: bool, cat: string, priority: string) returns (labels: seq<string>)
    requires KindOf(status) == Status && KindOf(priority) == Priority
    requires spOn ==> KindOf(sp) == StoryPoints
    requires sprintOn ==> KindOf(sprint) == Sprint
    requires catOn ==> KindOf(cat) == Category
    ensures var withStatus := ["user-story", status];
      var withSp := if spOn then withStatus + [sp] else withStatus;
      var withSprint := if sprintOn then withSp + [sprint] else withSp;
      var withCategory := if catOn then withSprint + [cat] else withSprint;
      labels == withCategory + [priority]
    ensures 3 <= |labels| <= 6
    ensures labels[0] == "user-story" && labels[1] == status
    ensures KindsIncreasing(labels)
  {
    var withStatus := ["user-story", status];
    assert KindsIncreasing(withStatus);
    var withSp := AppendIf(withStatus, spOn, sp, StoryPoints);
    var withSprint := AppendIf(withSp, sprintOn, sprint, Sprint);
    var withCategory := AppendIf(withSprint, catOn, cat, Category);
    labels := AppendIf(withCategory, true, priority, Priority);
    assert withSp[0] == "user-story" && withSp[1] == status by {
      assert withSp[..2] == withStatus;
    }
    assert withSprint[0] == "user-story" && withSprint[1] == status by {
      assert withSprint[..|withSp|][0] == withSprint[0] && withSprint[..|withSp|][1] == withSprint[1];
    }
    assert withCategory[0] == "user-story" && withCategory[1] == status by {
      assert withCategory[..|withSprint|][0] == withCategory[0] && withCategory[..|withSprint|][1] == withCategory[1];
    }
    assert labels[..|withCategory|][0] == labels[0] && labels[..|withCategory|][1] == labels[1];
  }

  /** The shape of the list: the base label first, one status label, the
      families in their fixed order, the priority label last, 3 to 6 labels. */
  lemma LabelsShape(storyId: string, md: Metadata)
    ensures var labels := LabelsFor(storyId, md);
      && 3 <= |labels| <= 6
      && labels[0] == "user-story"
      && labels[1] == StatusLabel(storyId)
      && labels[|labels| - 1] == PriorityLabel(md.sprint)
      && KindsIncreasing(labels)
  {
    var category := CategoryLabel(md.category.GetOr(""));
    var labels := AssembledShape(StatusLabel(storyId), Truthy(md.sp), StoryPointsLabel(md.sp.GetOr(0)),
      Truthy(md.sprint), SprintLabel(md.sprint.GetOr(0)),
      category.Some?, category.GetOr(""), PriorityLabel(md.sprint));
    assert labels == LabelsFor(storyId, md);
  }

  /** `get_labels` never emits the same label twice. */
  lemma LabelsDistinct(storyId: string, md: Metadata)
    ensures var labels := LabelsFor(storyId, md);
      forall i, j :: 0 <= i < j < |labels| ==> labels[i] != labels[j]
  {
    LabelsShape(storyId, md);
  }

  /** The second label is the only status label; it is "status:complete"
      exactly for a completed story and "status:not-started" otherwise. */
  lemma StatusRule(storyId: string, md: Metadata)
    ensures var labels := LabelsFor(storyId, md);
      && (labels[1] == "status:complete" <==> storyId in CompletedStories)
      && (labels[1] == "status:not-started" <==> storyId !in CompletedStories)
      && forall i :: 0 <= i < |labels| ==> (KindOf(labels[i]) == Status <==> i == 1)
  {
    LabelsShape(storyId, md);
  }

  /** "sp-<n>" is emitted exactly when the `sp` entry is present and equal to
      a non-zero `n`; it follows the status label. */
  lemma StoryPointsRule(storyId: string, md: Metadata, n: int)
    ensures var labels := LabelsFor(storyId, md);
      && (StoryPointsLabel(n) in labels <==> md.sp == Some(n) && n != 0)
      && (StoryPointsLabel(n) in labels ==> labels[2] == StoryPointsLabel(n))
  {
    LabelsShape(storyId, md);
    var labels := LabelsFor(storyId, md);
    if StoryPointsLabel(n) in labels {
      var i :| 0 <= i < |labels| && labels[i] == StoryPointsLabel(n);
      if !Truthy(md.sp) {
        assert false by { NoStoryPointsLabel(storyId, md, i); }
      }
      assert labels[2] == StoryPointsLabel(md.sp.value);
      assert StoryPointsLabel(n)[3..] == IntToString(n);
      assert StoryPointsLabel(md.sp.value)[3..] == IntToString(md.sp.value);
      IntToStringInjective(n, md.sp.value);
    }
  }

  lemma NoStoryPointsLabel(storyId: string, md: Metadata, i: int)
    requires !Truthy(md.sp)
    requires 0 <= i < |LabelsFor(storyId, md)|
    ensures KindOf(LabelsFor(storyId, md)[i]) != StoryPoints
  {
  }

  /** "sprint-<n>" is emitted exactly when the `sprint` entry is present and
      equal to a non-zero `n`; it comes after the status label and after the
      story-point label when there is one. */
  lemma SprintRule(storyId: string, md: Metadata, n: int)
    ensures var labels := LabelsFor(storyId, md);
      && (SprintLabel(n) in labels <==> md.sprint == Some(n) && n != 0)
      && (SprintLabel(n) in labels ==> labels[if Truthy(md.sp) then 3 else 2] == SprintLabel(n))
  {
    LabelsShape(storyId, md);
    var labels := LabelsFor(storyId, md);
    if SprintLabel(n) in labels {
      var i :| 0 <= i < |labels| && labels[i] == SprintLabel(n);
      if !Truthy(md.sprint) {
        assert false by { NoSprintLabel(storyId, md, i); }
      }
      var k := if Truthy(md.sp) then 3 else 2;
      assert labels[k] == SprintLabel(md.sprint.value);
      assert SprintLabel(n)[7..] == IntToString(n);
      assert SprintLabel(md.sprint.value)[7..] == IntToString(md.sprint.value);
      IntToStringInjective(n, md.sprint.value);
    }
  }

  lemma NoSprintLabel(storyId: string, md: Metadata, i: int)
    requires !Truthy(md.sprint)
    requires 0 <= i < |LabelsFor(storyId, md)|
    ensures KindOf(LabelsFor(storyId, md)[i]) != Sprint
  {
  }

  /** At most one category label, second to last when present, and it is
      the label the routing picks; an absent category behaves as "". */
  lemma CategoryRule(storyId: string, md: Metadata)
    ensures var labels := LabelsFor(storyId, md);
      var routed := CategoryLabel(md.category.GetOr(""));
      && ((exists i :: 0 <= i < |labels| && KindOf(labels[i]) == Category) <==> routed.Some?)
      && forall i :: 0 <= i < |labels| && KindOf(labels[i]) == Category ==>
           i == |labels| - 2 && labels[i] == routed.value
  {
    LabelsShape(storyId, md);
    var labels := LabelsFor(storyId, md);
    var routed := CategoryLabel(md.category.GetOr(""));
    if routed.Some? {
      assert labels[|labels| - 2] == routed.value;
      assert KindOf(labels[|labels| - 2]) == Category;
    } else {
      forall i | 0 <= i < |labels|
        ensures KindOf(labels[i]) != Category
      {
        NoCategoryLabel(storyId, md, i);
      }
    }
  }

  lemma NoCategoryLabel(storyId: string, md: Metadata, i: int)
    requires CategoryLabel(md.category.GetOr("")).None?
    requires 0 <= i < |LabelsFor(storyId, md)|
    ensures KindOf(LabelsFor(storyId, md)[i]) != Category
  {
  }

  /** Exactly one priority label, and it is the last label. */
  lemma PriorityRule(storyId: string, md: Metadata)
    ensures var labels := LabelsFor(storyId, md);
      && labels[|labels| - 1] == PriorityLabel(md.sprint)
      && forall i :: 0 <= i < |labels| ==> (KindOf(labels[i]) == Priority <==> i == |labels| - 1)
  {
    LabelsShape(storyId, md);
  }

  /** A story with no entry in the metadata table gets only the base, status
      and lowest-priority labels. */
  lemma MissingMetadataLabels(table: map<string, Metadata>, storyId: string)
    requires storyId !in table
    ensures LabelsFor(storyId, MetadataFor(table, storyId)) == ["user-story", StatusLabel(storyId), "priority:p3"]
  {
    assert !Contains("", "Core Package") && !Contains("", "Extension Package");
    assert !Contains("", "Testing") && !Contains("", "Samples") && !Contains("", "Documentation");
  }

  // ---------------------------------------------------------------------
  // Category routing as a first-match table
  // ---------------------------------------------------------------------

  /** A route: the substrings that select it and the label it gives. */
  datatype Route = Route(keywords: seq<string>, target: string)

  /** The routing table in precedence order. */
  const CategoryRoutes: seq<Route> := [
    Route(["Core Package"], "core-package"),
    Route(["Extension Package"], "extension-package"),
    Route(["Testing", "Samples"], "testing"),
    Route(["Documentation"], "documentation")
  ]

  predicate Selects(route: Route, category: string) {
    exists k :: 0 <= k < |route.keywords| && Contains(category, route.keywords[k])
  }

  /** First-match routing over any table: the label of the first route
      that selects the category, or nothing when none does. */
  function FirstMatch(routes: seq<Route>, category: string): (r: Option<string>)
    ensures r.None? <==> forall i :: 0 <= i < |routes| ==> !Selects(routes[i], category)
    ensures r.Some? ==> exists i :: 0 <= i < |routes| && Selects(routes[i], category)
                          && r.value == routes[i].target
                          && forall j :: 0 <= j < i ==> !Selects(routes[j], category)
  {
    if routes == [] then None
    else if Selects(routes[0], category) then Some(routes[0].target)
    else
      var r := FirstMatch(routes[1..], category);
      assert forall i :: 1 <= i < |routes| ==> routes[i] == routes[1..][i - 1];
      if r.Some? then
        var i :| 0 <= i < |routes| - 1 && Selects(routes[1..][i], category)
                 && r.value == routes[1..][i].target
                 && forall j :: 0 <= j < i ==> !Selects(routes[1..][j], category);
        assert forall j :: 0 <= j < i + 1 ==> !Selects(routes[j], category) by {
          forall j | 0 <= j < i + 1 ensures !Selects(routes[j], category) {
            if j > 0 { assert routes[j] == routes[1..][j - 1]; }
          }
        }
        r
      else
        r
  }

  /** The `if`/`elif` chain is first-match routing over the table: earlier
      routes take precedence over later ones. */
  lemma CategoryLabelIsFirstMatch(category: string)
    ensures CategoryLabel(category) == FirstMatch(CategoryRoutes, category)
  {
    var r0, r1, r2, r3 := CategoryRoutes[0], CategoryRoutes[1], CategoryRoutes[2], CategoryRoutes[3];
    assert Selects(r0, category) <==> Contains(category, "Core Package") by {
      assert r0.keywords[0] == "Core Package";
    }
    assert Selects(r1, category) <==> Contains(category, "Extension Package") by {
      assert r1.keywords[0] == "Extension Package";
    }
    assert Selects(r2, category) <==> Contains(category, "Testing") || Contains(category, "Samples") by {
      assert r2.keywords[0] == "Testing" && r2.keywords[1] == "Samples";
    }
    assert Selects(r3, category) <==> Contains(category, "Documentation") by {
      assert r3.keywords[0] == "Documentation";
    }
    assert CategoryRoutes[1..][0] == r1 && CategoryRoutes[1..][1..][0] == r2;
    assert CategoryRoutes[1..][1..][1..][0] == r3 && CategoryRoutes[1..][1..][1..][1..] == [];
  }

  /** A substring's first character occurs in the string. */
  lemma ContainsFirstChar(s: string, sub: string)
    requires sub != [] && Contains(s, sub)
    ensures sub[0] in s
  {
    var i :| OccursAt(s, sub, i);
    assert s[i] == sub[0];
  }

  /** "Testing" beats "Documentation": a category naming both is routed to
      the testing label. */
  lemma TestingBeatsDocumentation()
    ensures CategoryLabel("Testing & Documentation") == Some("testing")
  {
    var c := "Testing & Documentation";
    assert OccursAt(c, "Testing", 0);
    assert 'C' !in c && 'E' !in c by {
      forall i | 0 <= i < |c| ensures c[i] != 'C' && c[i] != 'E' { }
    }
    if Contains(c, "Core Package") {
      ContainsFirstChar(c, "Core Package");
      assert false;
    }
    if Contains(c, "Extension Package") {
      ContainsFirstChar(c, "Extension Package");
      assert false;
    }
  }

  // ---------------------------------------------------------------------
  // The priority ladder as a count of thresholds
  // ---------------------------------------------------------------------

  /** The sprint numbers at which the priority drops one tier. */
  const PriorityThresholds: seq<int> := [2, 4, 8]

  /** How many thresholds lie below `v`. */
  function ThresholdsBelow(thresholds: seq<int>, v: int): (n: nat)
    ensures n <= |thresholds|
  {
    if thresholds == [] then 0
    else (if thresholds[0] < v then 1 else 0) + ThresholdsBelow(thresholds[1..], v)
  }

  /** A larger value lies above at least as many thresholds. */
  lemma {:induction false} ThresholdsBelowMonotone(thresholds: seq<int>, a: int, b: int)
    requires a <= b
    ensures ThresholdsBelow(thresholds, a) <= ThresholdsBelow(thresholds, b)
  {
    if thresholds != [] {
      ThresholdsBelowMonotone(thresholds[1..], a, b);
    }
  }

  /** "priority:p<tier>". */
  function PriorityName(tier: nat): string
    requires tier < 10
  {
    "priority:p" + [DigitChar(tier)]
  }

  /** The ladder is the threshold count: a truthy sprint gets the tier
      numbered by how many of 2, 4, 8 it exceeds; a falsy one gets p3. */
  lemma PriorityIsThresholdCount(sprint: Option<int>)
    ensures Truthy(sprint) ==> PriorityLabel(sprint) == PriorityName(ThresholdsBelow(PriorityThresholds, sprint.value))
    ensures !Truthy(sprint) ==> PriorityLabel(sprint) == PriorityName(3)
  {
    assert DigitChar(0) == '0' && DigitChar(1) == '1' && DigitChar(2) == '2' && DigitChar(3) == '3';
    assert PriorityName(0) == "priority:p0" && PriorityName(1) == "priority:p1";
    assert PriorityName(2) == "priority:p2" && PriorityName(3) == "priority:p3";
    if Truthy(sprint) {
      var v := sprint.value;
      assert PriorityThresholds[1..] == [4, 8] && PriorityThresholds[1..][1..] == [8];
      assert PriorityThresholds[1..][1..][1..] == [];
      assert ThresholdsBelow([8], v) == if 8 < v then 1 else 0;
      assert ThresholdsBelow([4, 8], v) == (if 4 < v then 1 else 0) + ThresholdsBelow([8], v);
      assert ThresholdsBelow(PriorityThresholds, v) == (if 2 < v then 1 else 0) + ThresholdsBelow([4, 8], v);
    }
  }

  /** A later non-zero sprint never gets a higher priority. */
  lemma PriorityMonotone(a: int, b: int)
    requires a != 0 && b != 0 && a <= b
    ensures PriorityLabel(Some(a)) == PriorityName(ThresholdsBelow(PriorityThresholds, a))
    ensures PriorityLabel(Some(b)) == PriorityName(ThresholdsBelow(PriorityThresholds, b))
    ensures ThresholdsBelow(PriorityThresholds, a) <= ThresholdsBelow(PriorityThresholds, b)
  {
    PriorityIsThresholdCount(Some(a));
    PriorityIsThresholdCount(Some(b));
    ThresholdsBelowMonotone(PriorityThresholds, a, b);
  }

  /** The bands: a non-zero sprint up to 2 (negative ones included) is p0,
      3 to 4 is p1, 5 to 8 is p2; above 8, 0 or absent is p3. */
  lemma PriorityBands(sprint: Option<int>)
    ensures PriorityLabel(sprint) == "priority:p0" <==> Truthy(sprint) && sprint.value <= 2
    ensures PriorityLabel(sprint) == "priority:p1" <==> Truthy(sprint) && 3 <= sprint.value <= 4
    ensures PriorityLabel(sprint) == "priority:p2" <==> Truthy(sprint) && 5 <= sprint.value <= 8
    ensures PriorityLabel(sprint) == "priority:p3" <==> !Truthy(sprint) || sprint.value > 8
  {
    var p0, p1, p2, p3 := "priority:p0", "priority:p1", "priority:p2", "priority:p3";
    assert p0[10] == '0' && p1[10] == '1' && p2[10] == '2' && p3[10] == '3';
  }

  // ---------------------------------------------------------------------
  // A table entry as a concrete case
  // ---------------------------------------------------------------------

  /** US-004 (sprint 2, 8 story points, "Core Package") is in the
      completed set, so its labels are these six. */
  lemma CompletedCorePackageExample()
    ensures LabelsFor("US-004", Metadata(Some(8), Some(2), Some("Core Package")))
         == ["user-story", "status:complete", "sp-8", "sprint-2", "core-package", "priority:p0"]
  {
    assert OccursAt("Core Package", "Core Package", 0);
    assert DigitChar(8) == '8' && DigitChar(2) == '2';
    assert IntToString(8) == "8" && IntToString(2) == "2";
    assert StoryPointsLabel(8) == "sp-8";
    assert SprintLabel(2) == "sprint-2";
    assert CategoryLabel("Core Package") == Some("core-package");
    assert PriorityLabel(Some(2)) == "priority:p0";
    assert StatusLabel("US-004") == "status:complete";
  }
}
