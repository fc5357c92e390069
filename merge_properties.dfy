/**
 * What `_merge_features_into_nav` promises: existing entries stay where they are,
 * every source entry is present afterwards, only new entries are appended, no
 * duplicate is introduced, and merging the same tree again changes nothing.
 */
module MergeProperties {
  import opened Wrappers
  import opened NavTree
  import opened NavShape

  /** No existing destination entry is removed, renamed or reordered. */
  lemma {:induction false} MergedKeepsExisting(dest: seq<Node>, src: seq<Node>)
    ensures Embeds(dest, Merged(dest, src))
    decreases src
  {
    if src == [] {
      EmbedsReflexive(dest);
    } else {
      var prev := Merged(dest, src[..|src| - 1]);
      MergedKeepsExisting(dest, src[..|src| - 1]);
      var r := Merged(dest, src);
      match src[|src| - 1]
      case Leaf(p) =>
        EmbedsReflexive(prev);
        EmbedsAppend(prev, [Leaf(p)]);
        EmbedsTransitive(dest, prev, r);
      case Group(n, kids) =>
        var (level, j) := EnsureGroup(prev, Normalise(n));
        EmbedsReflexive(prev);
        EmbedsAppend(prev, [Group(Normalise(n), [])]);
        MergedKeepsExisting(level[j].children, kids);
        EmbedsUpdate(level, j, Merged(level[j].children, kids));
        EmbedsTransitive(prev, level, r);
        EmbedsTransitive(dest, prev, r);
    }
  }

  /**
   * `level` already holds everything of `src` the merge would add: each page, and for
   * each group the first group with the normalised name, holding its children in turn.
   */
  predicate Covers(level: seq<Node>, src: seq<Node>)
    decreases src
  {
    forall i :: 0 <= i < |src| ==>
      match src[i]
      case Leaf(p) => Leaf(p) in level
      case Group(n, kids) =>
        FindGroup(level, Normalise(n)).Some? &&
        Covers(level[FindGroup(level, Normalise(n)).value].children, kids)
  }

  lemma {:induction false} CoversEmbeds(a: seq<Node>, b: seq<Node>, src: seq<Node>)
    requires Covers(a, src) && Embeds(a, b)
    ensures Covers(b, src)
    decreases src
  {
    forall i | 0 <= i < |src|
      ensures match src[i]
        case Leaf(p) => Leaf(p) in b
        case Group(n, kids) =>
          FindGroup(b, Normalise(n)).Some? &&
          Covers(b[FindGroup(b, Normalise(n)).value].children, kids)
    {
      match src[i]
      case Leaf(p) =>
        LeafEmbeds(a, b, p);
      case Group(n, kids) =>
        FindGroupEmbeds(a, b, Normalise(n));
        var j := FindGroup(a, Normalise(n)).value;
        CoversEmbeds(a[j].children, b[j].children, kids);
    }
  }

  lemma CoversSnoc(level: seq<Node>, init: seq<Node>, e: Node)
    requires Covers(level, init) && Covers(level, [e])
    ensures Covers(level, init + [e])
  {
    var src := init + [e];
    assert forall i :: 0 <= i < |init| ==> src[i] == init[i];
    assert src[|init|] == [e][0];
  }

  /** The group step of the merge: the level embeds its predecessor and the group now holds the merged children. */
  lemma {:induction false} GroupStep(prev: seq<Node>, n: string, kids: seq<Node>)
    ensures
      var (level, j) := EnsureGroup(prev, Normalise(n));
      var r := level[j := Group(Normalise(n), Merged(level[j].children, kids))];
      Embeds(prev, r) && FindGroup(r, Normalise(n)) == Some(j) &&
      r[j].children == Merged(level[j].children, kids)
  {
    var (level, j) := EnsureGroup(prev, Normalise(n));
    var merged := Merged(level[j].children, kids);
    var r := level[j := Group(Normalise(n), merged)];
    EmbedsReflexive(prev);
    EmbedsAppend(prev, [Group(Normalise(n), [])]);
    MergedKeepsExisting(level[j].children, kids);
    EmbedsUpdate(level, j, merged);
    EmbedsTransitive(prev, level, r);
    FindGroupEmbeds(level, r, Normalise(n));
  }

  lemma LeafStepCovers(prev: seq<Node>, init: seq<Node>, p: string)
    requires Covers(prev, init)
    ensures Covers(AddLeaf(prev, p), init + [Leaf(p)])
  {
    var r := AddLeaf(prev, p);
    EmbedsReflexive(prev);
    EmbedsAppend(prev, [Leaf(p)]);
    CoversEmbeds(prev, r, init);
    assert Leaf(p) in r;
    assert Covers(r, [Leaf(p)]);
    CoversSnoc(r, init, Leaf(p));
  }

  lemma GroupStepCovers(prev: seq<Node>, init: seq<Node>, n: string, kids: seq<Node>, merged: seq<Node>)
    requires Covers(prev, init)
    requires var (level, j) := EnsureGroup(prev, Normalise(n));
      merged == Merged(level[j].children, kids) && Covers(merged, kids)
    ensures var (level, j) := EnsureGroup(prev, Normalise(n));
      Covers(level[j := Group(Normalise(n), merged)], init + [Group(n, kids)])
  {
    var (level, j) := EnsureGroup(prev, Normalise(n));
    var r := level[j := Group(Normalise(n), merged)];
    GroupStep(prev, n, kids);
    CoversEmbeds(prev, r, init);
    assert Covers(r[j].children, kids);
    assert Covers(r, [Group(n, kids)]);
    CoversSnoc(r, init, Group(n, kids));
  }

  /** After merging, every source page is on its level and every source group has its normalised counterpart, recursively. */
  lemma {:induction false} MergedCoversSource(dest: seq<Node>, src: seq<Node>)
    ensures Covers(Merged(dest, src), src)
    decreases src
  {
    if src != [] {
      var init := src[..|src| - 1];
      assert init + [src[|src| - 1]] == src;
      MergedCoversSource(dest, init);
      var prev := Merged(dest, init);
      match src[|src| - 1]
      case Leaf(p) =>
        LeafStepCovers(prev, init, p);
      case Group(n, kids) =>
        var (level, j) := EnsureGroup(prev, Normalise(n));
        MergedCoversSource(level[j].children, kids);
        GroupStepCovers(prev, init, n, kids, Merged(level[j].children, kids));
    }
  }

  /** Merging what a level already covers leaves it unchanged. */
  lemma {:induction false} MergeCoveredIsIdentity(level: seq<Node>, src: seq<Node>)
    requires Covers(level, src)
    ensures Merged(level, src) == level
    decreases src
  {
    if src != [] {
      var init := src[..|src| - 1];
      assert forall i :: 0 <= i < |init| ==> init[i] == src[i];
      assert Covers(level, init);
      MergeCoveredIsIdentity(level, init);
      assert src[|src| - 1] == src[|src| - 1];
      match src[|src| - 1]
      case Leaf(p) =>
      case Group(n, kids) =>
        var j := FindGroup(level, Normalise(n)).value;
        MergeCoveredIsIdentity(level[j].children, kids);
        assert level[j] == Group(Normalise(n), level[j].children);
    }
  }

  /** Merging the same feature tree a second time leaves the nav unchanged. */
  lemma MergedIdempotent(dest: seq<Node>, src: seq<Node>)
    ensures Merged(Merged(dest, src), src) == Merged(dest, src)
  {
    MergedCoversSource(dest, src);
    MergeCoveredIsIdentity(Merged(dest, src), src);
  }

  /** The normalised names of the groups in `src`. */
  function SourceGroupNames(src: seq<Node>): set<string>
  {
    set e | e in src && e.Group? :: Normalise(e.name)
  }

  /** An entry the merge may append after the existing ones: a page of `src` not on the level, or a group whose name is new to it. */
  predicate NewEntry(dest: seq<Node>, src: seq<Node>, e: Node)
  {
    match e
    case Leaf(p) => Leaf(p) !in dest && Leaf(p) in src
    case Group(n, _) => FindGroup(dest, n).None? && n in SourceGroupNames(src)
  }

  /** Everything after the existing entries is new: no page or group is appended a second time. */
  lemma {:induction false} MergedAppendsOnlyNew(dest: seq<Node>, src: seq<Node>)
    ensures |dest| <= |Merged(dest, src)|
    ensures forall i :: |dest| <= i < |Merged(dest, src)| ==> NewEntry(dest, src, Merged(dest, src)[i])
    decreases src
  {
    MergedKeepsExisting(dest, src);
    if src != [] {
      var init := src[..|src| - 1];
      var prev := Merged(dest, init);
      var r := Merged(dest, src);
      var e := src[|src| - 1];
      MergedAppendsOnlyNew(dest, init);
      MergedKeepsExisting(dest, init);
      assert forall i :: 0 <= i < |init| ==> init[i] == src[i];
      assert SourceGroupNames(init) <= SourceGroupNames(src);
      forall i | |dest| <= i < |prev|
        ensures NewEntry(dest, src, prev[i])
      {
        assert NewEntry(dest, init, prev[i]);
      }
      match e
      case Leaf(p) =>
        if Leaf(p) !in prev {
          if Leaf(p) in dest {
            LeafEmbeds(dest, prev, p);
          }
          assert r[|prev|] == Leaf(p);
        }
      case Group(n, kids) =>
        var name := Normalise(n);
        var (level, j) := EnsureGroup(prev, name);
        assert name in SourceGroupNames(src);
        if FindGroup(prev, name).None? {
          if FindGroup(dest, name).Some? {
            FindGroupEmbeds(dest, prev, name);
          }
        }
        forall i | |dest| <= i < |r|
          ensures NewEntry(dest, src, r[i])
        {
          if i != j {
            assert r[i] == level[i];
          } else {
            assert r[i].Group? && r[i].name == name;
            assert NewEntry(dest, src, level[i]);
          }
        }
    }
  }

  /** No two equal pages and no two groups of the same name on any level. */
  predicate NoDuplicates(level: seq<Node>)
    decreases level
  {
    (forall i, j :: 0 <= i < j < |level| && level[i].Leaf? ==> level[i] != level[j]) &&
    (forall i, j :: 0 <= i < j < |level| && level[i].Group? && level[j].Group? ==> level[i].name != level[j].name) &&
    (forall i :: 0 <= i < |level| && level[i].Group? ==> NoDuplicates(level[i].children))
  }

  lemma NoDuplicatesAppendLeaf(level: seq<Node>, p: string)
    requires NoDuplicates(level) && Leaf(p) !in level
    ensures NoDuplicates(level + [Leaf(p)])
  {
    var r := level + [Leaf(p)];
    assert forall i :: 0 <= i < |level| ==> r[i] == level[i];
  }

  lemma NoDuplicatesAppendGroup(level: seq<Node>, name: string)
    requires NoDuplicates(level) && FindGroup(level, name).None?
    ensures NoDuplicates(level + [Group(name, [])])
  {
    var r := level + [Group(name, [])];
    assert forall i :: 0 <= i < |level| ==> r[i] == level[i];
    assert NoDuplicates(r[|level|].children);
  }

  lemma NoDuplicatesUpdate(level: seq<Node>, j: nat, c: seq<Node>)
    requires NoDuplicates(level) && j < |level| && level[j].Group? && NoDuplicates(c)
    ensures NoDuplicates(level[j := Group(level[j].name, c)])
  {
    var r := level[j := Group(level[j].name, c)];
    assert forall i :: 0 <= i < |level| && i != j ==> r[i] == level[i];
  }

  /** The merge introduces no duplicate, whatever the source holds. */
  lemma {:induction false} MergedNoDuplicates(dest: seq<Node>, src: seq<Node>)
    requires NoDuplicates(dest)
    ensures NoDuplicates(Merged(dest, src))
    decreases src
  {
    if src != [] {
      var prev := Merged(dest, src[..|src| - 1]);
      MergedNoDuplicates(dest, src[..|src| - 1]);
      match src[|src| - 1]
      case Leaf(p) =>
        if Leaf(p) !in prev {
          NoDuplicatesAppendLeaf(prev, p);
        }
      case Group(n, kids) =>
        var name := Normalise(n);
        var (level, j) := EnsureGroup(prev, name);
        if FindGroup(prev, name).None? {
          NoDuplicatesAppendGroup(prev, name);
        }
        MergedNoDuplicates(level[j].children, kids);
        NoDuplicatesUpdate(level, j, Merged(level[j].children, kids));
    }
  }

  // ---------------------------------------------------------------------------
  // Pages of a covering tree

  /** The pages below any entry of a level are pages of the level. */
  lemma {:induction false} EntryLeavesIn(level: seq<Node>, i: nat, p: string)
    requires i < |level| && p in EntryLeaves(level[i])
    ensures p in AllLeaves(level)
  {
    if i < |level| - 1 {
      EntryLeavesIn(level[..|level| - 1], i, p);
    }
  }

  /** Every page of `src` is a page of a level that covers it. */
  lemma {:induction false} CoversLeaves(level: seq<Node>, src: seq<Node>, p: string)
    requires Covers(level, src) && p in AllLeaves(src)
    ensures p in AllLeaves(level)
    decreases src
  {
    var init, last := src[..|src| - 1], src[|src| - 1];
    if p in AllLeaves(init) {
      assert Covers(level, init) by {
        assert forall i :: 0 <= i < |init| ==> init[i] == src[i];
      }
      CoversLeaves(level, init, p);
    } else {
      assert Covers(level, [last]) by {
        assert [last][0] == src[|src| - 1];
      }
      match last
      case Leaf(q) =>
        var k :| 0 <= k < |level| && level[k] == Leaf(q);
        EntryLeavesIn(level, k, p);
      case Group(n, kids) =>
        var j := FindGroup(level, Normalise(n)).value;
        CoversLeaves(level[j].children, kids, p);
        EntryLeavesIn(level, j, p);
    }
  }
}
