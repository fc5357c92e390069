/**
 * What `_get_feature_paths_in_nav` and `_rename_features_in_nav` promise: the first
 * collects exactly the `.feature` pages of the nav, depth first; the second changes each
 * of those pages, and nothing else, to the matching `.md` page, so that afterwards the
 * nav holds no `.feature` page at all.
 */
module RenameProperties {
  import opened Strings
  import opened Paths
  import opened NavTree

  /** The pages among `ps` that end in `.feature`, in order. */
  function Features(ps: seq<string>): (r: seq<string>)
    ensures forall p :: p in r <==> p in ps && IsFeature(p)
  {
    if ps == [] then []
    else Features(ps[..|ps| - 1]) + if IsFeature(ps[|ps| - 1]) then [ps[|ps| - 1]] else []
  }

  /** Each of `ps` renamed the way the nav's pages are. */
  function RenamedPaths(ps: seq<string>): (r: seq<string>)
    ensures |r| == |ps| && forall i :: 0 <= i < |ps| ==> r[i] == RenamedPath(ps[i])
  {
    seq(|ps|, i requires 0 <= i < |ps| => RenamedPath(ps[i]))
  }

  lemma FeaturesAppend(a: seq<string>, b: seq<string>)
    ensures Features(a + b) == Features(a) + Features(b)
    decreases |b|
  {
    if b != [] {
      assert (a + b)[..|a + b| - 1] == a + b[..|b| - 1];
      FeaturesAppend(a, b[..|b| - 1]);
    } else {
      assert a + b == a;
    }
  }

  /** The collected paths are the `.feature` pages among all pages, in nav order. */
  lemma {:induction false} FeaturePathsAreFeaturePages(t: seq<Node>)
    ensures FeaturePaths(t) == Features(AllLeaves(t))
    decreases t
  {
    if t != [] {
      FeaturePathsAreFeaturePages(t[..|t| - 1]);
      EntryFeaturePathsAreFeaturePages(t[|t| - 1]);
      FeaturesAppend(AllLeaves(t[..|t| - 1]), EntryLeaves(t[|t| - 1]));
    }
  }

  lemma {:induction false} EntryFeaturePathsAreFeaturePages(e: Node)
    ensures EntryFeaturePaths(e) == Features(EntryLeaves(e))
    decreases e
  {
    match e
    case Leaf(p) =>
      assert [p][..0] == [];
    case Group(_, c) =>
      FeaturePathsAreFeaturePages(c);
  }

  /** Renaming keeps the shape of every level: same length, and entry by entry a renamed page or the same group renamed below. */
  lemma {:induction false} RenamedShape(t: seq<Node>)
    ensures |Renamed(t)| == |t|
    ensures forall i :: 0 <= i < |t| ==> Renamed(t)[i] == RenamedEntry(t[i])
  {
    if t != [] {
      RenamedShape(t[..|t| - 1]);
    }
  }

  /** Renaming keeps group names and positions, so every group is found where it was. */
  lemma RenamedFindGroup(t: seq<Node>, name: string)
    ensures FindGroup(Renamed(t), name) == FindGroup(t, name)
  {
    RenamedShape(t);
    assert forall i :: 0 <= i < |t| ==> (IsGroupNamed(Renamed(t)[i], name) <==> IsGroupNamed(t[i], name));
  }

  /** The pages after renaming are the pages before, each renamed, in the same order. */
  lemma {:induction false} RenamedPages(t: seq<Node>)
    ensures AllLeaves(Renamed(t)) == RenamedPaths(AllLeaves(t))
    decreases t
  {
    if t != [] {
      var init, last := t[..|t| - 1], t[|t| - 1];
      var r := Renamed(t);
      RenamedShape(t);
      assert r[..|r| - 1] == Renamed(init);
      RenamedPages(init);
      RenamedEntryPages(last);
    }
  }

  lemma {:induction false} RenamedEntryPages(e: Node)
    ensures EntryLeaves(RenamedEntry(e)) == RenamedPaths(EntryLeaves(e))
    decreases e
  {
    match e
    case Leaf(p) =>
    case Group(n, c) => RenamedPages(c);
  }

  /** No `.feature` page is left after renaming. */
  lemma {:induction false} RenamedHasNoFeatures(t: seq<Node>)
    ensures FeaturePaths(Renamed(t)) == []
    decreases t
  {
    if t != [] {
      var r := Renamed(t);
      RenamedShape(t);
      assert r[..|r| - 1] == Renamed(t[..|t| - 1]);
      RenamedHasNoFeatures(t[..|t| - 1]);
      RenamedEntryHasNoFeatures(t[|t| - 1]);
    }
  }

  lemma {:induction false} RenamedEntryHasNoFeatures(e: Node)
    ensures EntryFeaturePaths(RenamedEntry(e)) == []
    decreases e
  {
    match e
    case Leaf(p) =>
    case Group(n, c) => RenamedHasNoFeatures(c);
  }

  /** A nav without `.feature` pages is left as it is. */
  lemma {:induction false} RenamedWithoutFeatures(t: seq<Node>)
    requires FeaturePaths(t) == []
    ensures Renamed(t) == t
    decreases t
  {
    if t != [] {
      var init, last := t[..|t| - 1], t[|t| - 1];
      assert FeaturePaths(init) == [] && EntryFeaturePaths(last) == [];
      RenamedWithoutFeatures(init);
      RenamedEntryWithoutFeatures(last);
      assert t == init + [last];
    }
  }

  lemma {:induction false} RenamedEntryWithoutFeatures(e: Node)
    requires EntryFeaturePaths(e) == []
    ensures RenamedEntry(e) == e
    decreases e
  {
    match e
    case Leaf(p) =>
    case Group(n, c) => RenamedWithoutFeatures(c);
  }

  /** Renaming twice is renaming once. */
  lemma RenamedIdempotent(t: seq<Node>)
    ensures Renamed(Renamed(t)) == Renamed(t)
  {
    RenamedHasNoFeatures(t);
    RenamedWithoutFeatures(Renamed(t));
  }

  /** The nav has no `.feature` page exactly when none of its entries has one. */
  lemma {:induction false} NoFeaturesEntrywise(t: seq<Node>)
    ensures FeaturePaths(t) == [] <==> forall i :: 0 <= i < |t| ==> EntryFeaturePaths(t[i]) == []
  {
    if t != [] {
      var init := t[..|t| - 1];
      NoFeaturesEntrywise(init);
      assert forall i :: 0 <= i < |init| ==> init[i] == t[i];
    }
  }
}
