/** Issue-body assembly (`generate_issue_body`): one block
    "## <Heading>\n\n<content>" per non-empty section, in the canonical
    order, the blocks joined by a blank line. */
module IssueBody {
  import opened Text
  import opened Sections

  /** `sections.get(key)` is truthy: the key is there and its text is not
      empty. */
  predicate Present(sections: map<SectionKey, string>, k: SectionKey) {
    k in sections && sections[k] != ""
  }

  /** `f"## {heading}\n\n{content}"`; never empty. */
  function Block(k: SectionKey, content: string): (b: string)
    ensures "## " <= b && b != ""
  {
    "## " + Heading(k) + "\n\n" + content
  }

  const Separator := "\n\n"

  /** The keys of `keys`, in their order, whose sections are present. */
  function Kept(sections: map<SectionKey, string>, keys: seq<SectionKey>): (r: seq<SectionKey>)
    ensures |r| <= |keys|
    ensures forall k :: k in r ==> k in keys && Present(sections, k)
  {
    if keys == [] then []
    else
      var init := keys[..|keys| - 1];
      var last := keys[|keys| - 1];
      assert keys == init + [last];
      Kept(sections, init) + (if Present(sections, last) then [last] else [])
  }

  /** Every present section among `keys` is kept. */
  lemma {:induction false} KeptComplete(sections: map<SectionKey, string>, keys: seq<SectionKey>, k: SectionKey)
    requires k in keys && Present(sections, k)
    ensures k in Kept(sections, keys)
  {
    var init := keys[..|keys| - 1];
    assert keys == init + [keys[|keys| - 1]];
    if k != keys[|keys| - 1] {
      KeptComplete(sections, init, k);
    }
  }

  /** The blocks of the sections `ks`, one each, in order. */
  function BlocksOf(sections: map<SectionKey, string>, ks: seq<SectionKey>): (r: seq<string>)
    requires forall k :: k in ks ==> k in sections
    ensures |r| == |ks|
    ensures forall i :: 0 <= i < |ks| ==> r[i] == Block(ks[i], sections[ks[i]])
  {
    seq(|ks|, i requires 0 <= i < |ks| => Block(ks[i], sections[ks[i]]))
  }

  /** The blocks the issue body is made of. */
  function Blocks(sections: map<SectionKey, string>): seq<string> {
    BlocksOf(sections, Kept(sections, SectionOrder))
  }

  /** The issue body as the script defines it. */
  function Body(sections: map<SectionKey, string>): string {
    Join(Blocks(sections), Separator)
  }

  /** `generate_issue_body(sections)`: appends the block of each present
      section to a local list, in the canonical order, then joins them. */
  method GenerateIssueBody(sections: map<SectionKey, string>) returns (body: string)
    ensures body == Body(sections)
  {
    var bodyParts: seq<string> := [];
    for i := 0 to |SectionOrder|
      invariant bodyParts == BlocksOf(sections, Kept(sections, SectionOrder[..i]))
    {
      var k := SectionOrder[i];
      BlocksStep(sections, SectionOrder, i);
      if k in sections && sections[k] != "" {
        bodyParts := bodyParts + ["## " + Heading(k) + "\n\n" + sections[k]];
      }
    }
    assert SectionOrder[..|SectionOrder|] == SectionOrder;
    body := Join(bodyParts, "\n\n");
  }

  /** One more key considered: its block is appended when it is present. */
  lemma BlocksStep(sections: map<SectionKey, string>, keys: seq<SectionKey>, i: nat)
    requires i < |keys|
    ensures forall k :: k in Kept(sections, keys[..i]) ==> k in sections
    ensures BlocksOf(sections, Kept(sections, keys[..i + 1]))
         == BlocksOf(sections, Kept(sections, keys[..i]))
            + (if Present(sections, keys[i]) then [Block(keys[i], sections[keys[i]])] else [])
  {
    var k := keys[i];
    assert keys[..i + 1][..i] == keys[..i];
    var prev := Kept(sections, keys[..i]);
    if Present(sections, k) {
      assert Kept(sections, keys[..i + 1]) == prev + [k];
    } else {
      assert Kept(sections, keys[..i + 1]) == prev;
    }
  }

  // ---------------------------------------------------------------------
  // Which blocks, in which order
  // ---------------------------------------------------------------------

  /** Each section listed before every section that follows it in the
      canonical order. */
  predicate InCanonicalOrder(ks: seq<SectionKey>) {
    forall i, j :: 0 <= i < j < |ks| ==> Position(ks[i]) < Position(ks[j])
  }

  /** A key placed after keys that all come before it keeps a list in
      canonical order. */
  lemma AppendInOrder(prefix: seq<SectionKey>, last: SectionKey)
    requires InCanonicalOrder(prefix)
    requires forall k :: k in prefix ==> Position(k) < Position(last)
    ensures InCanonicalOrder(prefix + [last])
  {
    var r := prefix + [last];
    forall i, j | 0 <= i < j < |r| ensures Position(r[i]) < Position(r[j]) {
      assert r[i] == prefix[i] && prefix[i] in prefix;
      if j < |prefix| {
        assert r[j] == prefix[j];
      }
    }
  }

  /** Filtering keeps the order: keys listed in canonical order stay in
      canonical order. */
  lemma {:induction false} KeptOrdered(sections: map<SectionKey, string>, keys: seq<SectionKey>)
    requires InCanonicalOrder(keys)
    ensures InCanonicalOrder(Kept(sections, keys))
  {
    if keys != [] {
      var init := keys[..|keys| - 1];
      var last := keys[|keys| - 1];
      assert InCanonicalOrder(init) by {
        forall i, j | 0 <= i < j < |init| ensures Position(init[i]) < Position(init[j]) {
          assert init[i] == keys[i] && init[j] == keys[j];
        }
      }
      KeptOrdered(sections, init);
      var prefix := Kept(sections, init);
      assert Kept(sections, keys) == prefix + (if Present(sections, last) then [last] else []);
      if Present(sections, last) {
        forall k | k in prefix ensures Position(k) < Position(last) {
          var i :| 0 <= i < |init| && init[i] == k;
          assert init[i] == keys[i];
        }
        AppendInOrder(prefix, last);
      } else {
        assert prefix + [] == prefix;
      }
    }
  }

  /** The body's blocks are exactly the blocks of the present sections,
      each with its own content, in canonical order; there are at most nine. */
  lemma BlocksFollowSections(sections: map<SectionKey, string>)
    ensures var kept := Kept(sections, SectionOrder);
      && |Blocks(sections)| == |kept| <= 9
      && (forall k :: k in kept <==> Present(sections, k))
      && (forall i :: 0 <= i < |kept| ==> Present(sections, kept[i]) && Blocks(sections)[i] == Block(kept[i], sections[kept[i]]))
      && InCanonicalOrder(kept)
  {
    SectionOrderIsPermutation();
    KeptOrdered(sections, SectionOrder);
    forall k | Present(sections, k) ensures k in Kept(sections, SectionOrder) {
      KeptComplete(sections, SectionOrder, k);
    }
  }

  /** A section has a block in the body exactly when it is present, and
      the block carries that section's own text. */
  lemma BlockIffPresent(sections: map<SectionKey, string>, k: SectionKey)
    ensures k in Kept(sections, SectionOrder) <==> Present(sections, k)
    ensures Present(sections, k) ==> Block(k, sections[k]) in Blocks(sections)
  {
    BlocksFollowSections(sections);
    if Present(sections, k) {
      var kept := Kept(sections, SectionOrder);
      var i :| 0 <= i < |kept| && kept[i] == k;
      assert Blocks(sections)[i] == Block(k, sections[k]);
    }
  }

  /** The body is empty exactly when every section is empty or missing. */
  lemma BodyEmptyIffNoSections(sections: map<SectionKey, string>)
    ensures Body(sections) == "" <==> forall k :: !Present(sections, k)
  {
    BlocksFollowSections(sections);
    var blocks := Blocks(sections);
    var kept := Kept(sections, SectionOrder);
    if blocks != [] {
      assert blocks[0] != "";
      assert Present(sections, kept[0]);
    }
  }

  /** With all nine sections present the body holds all nine blocks, in
      canonical order. */
  lemma AllSectionsPresent(sections: map<SectionKey, string>)
    requires forall k :: Present(sections, k)
    ensures |Blocks(sections)| == 9
    ensures forall i :: 0 <= i < 9 ==> Present(sections, SectionOrder[i]) && Blocks(sections)[i] == Block(SectionOrder[i], sections[SectionOrder[i]])
  {
    SectionOrderIsPermutation();
    AllKept(sections, SectionOrder);
  }

  lemma {:induction false} AllKept(sections: map<SectionKey, string>, keys: seq<SectionKey>)
    requires forall k :: Present(sections, k)
    ensures Kept(sections, keys) == keys
  {
    if keys != [] {
      AllKept(sections, keys[..|keys| - 1]);
      assert keys == keys[..|keys| - 1] + [keys[|keys| - 1]];
    }
  }

  // ---------------------------------------------------------------------
  // Clearing one section
  // ---------------------------------------------------------------------

  /** Clearing a section that is absent, or not among `keys`, leaves the
      kept list as it was. */
  lemma {:induction false} KeptAfterClearingAbsent(sections: map<SectionKey, string>, keys: seq<SectionKey>, k: SectionKey)
    requires k !in keys || !Present(sections, k)
    ensures Kept(sections[k := ""], keys) == Kept(sections, keys)
  {
    if keys != [] {
      var init := keys[..|keys| - 1];
      assert k in init ==> k in keys;
      KeptAfterClearingAbsent(sections, init, k);
    }
  }

  /** Filtering distributes over concatenation. */
  lemma {:induction false} KeptAppend(sections: map<SectionKey, string>, a: seq<SectionKey>, b: seq<SectionKey>)
    ensures Kept(sections, a + b) == Kept(sections, a) + Kept(sections, b)
  {
    if b == [] {
      assert a + b == a;
    } else {
      var init, last := b[..|b| - 1], b[|b| - 1];
      var tail := if Present(sections, last) then [last] else [];
      assert (a + b)[..|a + b| - 1] == a + init && (a + b)[|a + b| - 1] == last;
      assert Kept(sections, a + b) == Kept(sections, a + init) + tail;
      assert Kept(sections, b) == Kept(sections, init) + tail;
      KeptAppend(sections, a, init);
      assert Kept(sections, a) + Kept(sections, init) + tail == Kept(sections, a) + (Kept(sections, init) + tail);
    }
  }

  /** Clearing a present section `k`, listed once in `keys`, takes `k` out
      of the kept list and leaves the keys before and after it in place. */
  lemma KeptAfterClearingPresent(sections: map<SectionKey, string>, keys: seq<SectionKey>, p: nat)
    requires p < |keys| && Present(sections, keys[p])
    requires keys[p] !in keys[..p] && keys[p] !in keys[p + 1..]
    ensures var k := keys[p];
      var front := Kept(sections, keys[..p]);
      var back := Kept(sections, keys[p + 1..]);
      && Kept(sections, keys) == front + [k] + back
      && Kept(sections[k := ""], keys) == front + back
      && k !in front && k !in back
  {
    var k := keys[p];
    var cleared := sections[k := ""];
    var front, back := keys[..p], keys[p + 1..];
    assert keys == front + [k] + back;
    KeptAppend(sections, front + [k], back);
    KeptAppend(sections, front, [k]);
    KeptAppend(cleared, front + [k], back);
    KeptAppend(cleared, front, [k]);
    KeptAfterClearingAbsent(sections, front, k);
    KeptAfterClearingAbsent(sections, back, k);
    assert Kept(sections, [k]) == [k];
    assert Kept(cleared, [k]) == [];
    var keptFront, keptBack := Kept(sections, front), Kept(sections, back);
    calc {
      Kept(cleared, keys);
      Kept(cleared, front + [k]) + Kept(cleared, back);
      Kept(cleared, front) + Kept(cleared, [k]) + keptBack;
      { assert Kept(cleared, front) == keptFront; }
      keptFront + [] + keptBack;
      { assert keptFront + [] == keptFront; }
      keptFront + keptBack;
    }
  }

  /** Each section occurs in the canonical order at its position only. */
  lemma SectionOrderSplit(k: SectionKey)
    ensures k !in SectionOrder[..Position(k)] && k !in SectionOrder[Position(k) + 1..]
  {
    SectionOrderIsPermutation();
    var p := Position(k);
    var front, back := SectionOrder[..p], SectionOrder[p + 1..];
    forall j | 0 <= j < |front| ensures front[j] != k { assert Position(SectionOrder[j]) == j; }
    forall j | 0 <= j < |back| ensures back[j] != k {
      assert Position(SectionOrder[p + 1 + j]) == p + 1 + j;
    }
  }

  /** The blocks of a concatenation are the concatenated blocks. */
  lemma BlocksOfConcat(sections: map<SectionKey, string>, a: seq<SectionKey>, b: seq<SectionKey>)
    requires forall x :: x in a + b ==> x in sections
    ensures BlocksOf(sections, a + b) == BlocksOf(sections, a) + BlocksOf(sections, b)
  {
    assert forall x :: x in a ==> x in a + b;
    assert forall x :: x in b ==> x in a + b;
  }

  /** Two maps that agree on every key of `ks` give `ks` the same blocks. */
  lemma BlocksOfAgree(s1: map<SectionKey, string>, s2: map<SectionKey, string>, ks: seq<SectionKey>)
    requires forall x :: x in ks ==> x in s1 && x in s2 && s1[x] == s2[x]
    ensures BlocksOf(s1, ks) == BlocksOf(s2, ks)
  {
  }

  /** Removing key `k` from a list of present keys removes exactly its
      block, even when section `k` is cleared in the map at the same time. */
  lemma BlocksAfterRemoval(sections: map<SectionKey, string>, k: SectionKey, front: seq<SectionKey>, back: seq<SectionKey>)
    requires Present(sections, k) && k !in front && k !in back
    requires forall x :: x in front + back ==> x in sections
    ensures var after := BlocksOf(sections[k := ""], front + back);
      BlocksOf(sections, front + [k] + back) == after[..|front|] + [Block(k, sections[k])] + after[|front|..]
  {
    var cleared := sections[k := ""];
    assert forall x :: x in front ==> x in front + back;
    assert forall x :: x in back ==> x in front + back;
    var blk := Block(k, sections[k]);
    var bf, bb := BlocksOf(sections, front), BlocksOf(sections, back);
    BlocksOfConcat(sections, front, [k]);
    assert BlocksOf(sections, [k]) == [blk];
    var bfk := BlocksOf(sections, front + [k]);
    assert bfk == bf + [blk];
    BlocksOfConcat(sections, front + [k], back);
    assert front + [k] + back == (front + [k]) + back;
    assert BlocksOf(sections, front + [k] + back) == bf + [blk] + bb;
    BlocksOfConcat(cleared, front, back);
    BlocksOfAgree(sections, cleared, front);
    BlocksOfAgree(sections, cleared, back);
    var after := BlocksOf(cleared, front + back);
    assert after == bf + bb && |bf| == |front|;
    assert after[..|front|] == bf && after[|front|..] == bb;
  }

  /** Clearing a present section removes exactly its block from the body's
      blocks and leaves every other block as it was; clearing an absent one
      changes nothing. */
  lemma ClearingRemovesOneBlock(sections: map<SectionKey, string>, k: SectionKey)
    ensures var before := Blocks(sections);
      var after := Blocks(sections[k := ""]);
      if Present(sections, k) then
        exists i :: 0 <= i <= |after| && before == after[..i] + [Block(k, sections[k])] + after[i..]
      else
        before == after
  {
    var cleared := sections[k := ""];
    if !Present(sections, k) {
      KeptAfterClearingAbsent(sections, SectionOrder, k);
      assert Blocks(sections) == Blocks(cleared);
    } else {
      SectionOrderSplit(k);
      KeptAfterClearingPresent(sections, SectionOrder, Position(k));
      var front := Kept(sections, SectionOrder[..Position(k)]);
      var back := Kept(sections, SectionOrder[Position(k) + 1..]);
      BlocksAfterRemoval(sections, k, front, back);
      var i := |front|;
      assert Blocks(sections) == Blocks(cleared)[..i] + [Block(k, sections[k])] + Blocks(cleared)[i..];
    }
  }

  /** Clearing a present section shortens the body by its block and by one
      blank-line separator, unless it was the only block. */
  lemma ClearingShortensBody(sections: map<SectionKey, string>, k: SectionKey)
    requires Present(sections, k)
    ensures var rest := Body(sections[k := ""]);
      |Body(sections)| == |rest| + |Block(k, sections[k])| + (if rest == "" then 0 else |Separator|)
  {
    ClearingRemovesOneBlock(sections, k);
    var after := Blocks(sections[k := ""]);
    var b := Block(k, sections[k]);
    var i :| 0 <= i <= |after| && Blocks(sections) == after[..i] + [b] + after[i..];
    assert after == after[..i] + after[i..];
    JoinInsert(after[..i], b, after[i..], Separator);
    BlocksFollowSections(sections[k := ""]);
    if after != [] {
      assert after[0] != "";
    }
  }
}
