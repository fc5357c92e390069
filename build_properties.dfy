/**
 * What `_build_feature_tree` promises: each path is a page exactly once, on the level
 * reached through the groups of its directories below the features root, in input
 * order; each level has at most one group per directory name, created the first time
 * a path needs it and appended at the end of its level.
 */
module BuildProperties {
  import opened Wrappers
  import opened NavTree
  import opened Paths

  /** The level reached from the top by following the first group with each name in `groups`. */
  function Level(t: seq<Node>, groups: seq<string>): Option<seq<Node>>
    decreases groups
  {
    if groups == [] then Some(t)
    else match FindGroup(t, groups[0])
      case None => None
      case Some(j) => Level(t[j].children, groups[1..])
  }

  /** The pages directly on a level, in order. */
  function Pages(level: seq<Node>): seq<string>
  {
    if level == [] then []
    else Pages(level[..|level| - 1]) + if level[|level| - 1].Leaf? then [level[|level| - 1].path] else []
  }

  /** The names of the groups directly on a level, in order. */
  function GroupNames(level: seq<Node>): seq<string>
  {
    if level == [] then []
    else GroupNames(level[..|level| - 1]) + if level[|level| - 1].Group? then [level[|level| - 1].name] else []
  }

  function LevelPages(t: seq<Node>, groups: seq<string>): seq<string>
  {
    match Level(t, groups)
    case None => []
    case Some(level) => Pages(level)
  }

  function LevelGroupNames(t: seq<Node>, groups: seq<string>): seq<string>
  {
    match Level(t, groups)
    case None => []
    case Some(level) => GroupNames(level)
  }

  /** The paths, in input order, whose directories below the root are exactly `groups`. */
  function PathsUnder(paths: seq<string>, groups: seq<string>): seq<string>
  {
    if paths == [] then []
    else
      var p := paths[|paths| - 1];
      PathsUnder(paths[..|paths| - 1], groups) + if GroupParts(p) == groups then [p] else []
  }

  /**
   * The directory names needed directly below `groups`, each once, in the order the
   * paths first need them.
   */
  function FirstNeeded(paths: seq<string>, groups: seq<string>): seq<string>
  {
    if paths == [] then []
    else
      var prev := FirstNeeded(paths[..|paths| - 1], groups);
      var g := GroupParts(paths[|paths| - 1]);
      if groups < g && g[|groups|] !in prev then prev + [g[|groups|]] else prev
  }

  // ---------------------------------------------------------------------------
  // Helper facts about a level whose group is replaced or which grows at the end

  lemma {:induction false} NamedGroupInGroupNames(level: seq<Node>, name: string)
    ensures name in GroupNames(level) <==> FindGroup(level, name).Some?
  {
    if level != [] {
      NamedGroupInGroupNames(level[..|level| - 1], name);
    }
  }

  lemma FindGroupReplaced(level: seq<Node>, j: nat, c: seq<Node>, name: string)
    requires j < |level| && level[j].Group?
    ensures FindGroup(level[j := Group(level[j].name, c)], name) == FindGroup(level, name)
  {
    var r := level[j := Group(level[j].name, c)];
    assert forall i :: 0 <= i < |level| ==> (IsGroupNamed(r[i], name) <==> IsGroupNamed(level[i], name));
  }

  lemma {:induction false} PagesReplaced(level: seq<Node>, j: nat, c: seq<Node>)
    requires j < |level| && level[j].Group?
    ensures Pages(level[j := Group(level[j].name, c)]) == Pages(level)
    ensures GroupNames(level[j := Group(level[j].name, c)]) == GroupNames(level)
  {
    var r := level[j := Group(level[j].name, c)];
    var n := |level|;
    if j < n - 1 {
      assert r[..n - 1] == level[..n - 1][j := Group(level[j].name, c)];
      PagesReplaced(level[..n - 1], j, c);
    } else {
      assert r[..n - 1] == level[..n - 1];
    }
  }

  lemma {:induction false} LevelOfEmpty(groups: seq<string>)
    ensures LevelPages([], groups) == [] && LevelGroupNames([], groups) == []
  {
  }

  /** Appending a page to the top level adds it to the top level's pages and changes nothing below. */
  lemma LevelAppendLeaf(t: seq<Node>, leaf: string, g: seq<string>)
    ensures LevelPages(t + [Leaf(leaf)], g) == LevelPages(t, g) + if g == [] then [leaf] else []
    ensures LevelGroupNames(t + [Leaf(leaf)], g) == LevelGroupNames(t, g)
  {
    var t' := t + [Leaf(leaf)];
    assert t'[..|t'| - 1] == t;
    if g != [] {
      assert FindGroup(t', g[0]) == FindGroup(t, g[0]);
      match FindGroup(t, g[0])
      case None =>
      case Some(k) => assert t'[k] == t[k];
    }
  }

  /** Making sure of a group keeps the top level's pages and adds its name when it is new. */
  lemma EnsureGroupTop(t: seq<Node>, name: string)
    ensures Pages(EnsureGroup(t, name).0) == Pages(t)
    ensures GroupNames(EnsureGroup(t, name).0) == GroupNames(t) + if name in GroupNames(t) then [] else [name]
  {
    NamedGroupInGroupNames(t, name);
    var level := EnsureGroup(t, name).0;
    if FindGroup(t, name).None? {
      assert level[..|level| - 1] == t;
    }
  }

  /** Below the group made sure of, the levels are those of the group that was there, or none. */
  lemma EnsureGroupSame(t: seq<Node>, name: string, g: seq<string>)
    requires g != [] && g[0] == name
    ensures LevelPages(t, g) == LevelPages(EnsureGroup(t, name).0[EnsureGroup(t, name).1].children, g[1..])
    ensures LevelGroupNames(t, g) == LevelGroupNames(EnsureGroup(t, name).0[EnsureGroup(t, name).1].children, g[1..])
  {
    if FindGroup(t, name).None? {
      LevelOfEmpty(g[1..]);
    }
  }

  /** The levels under another name are untouched by making sure of a group. */
  lemma EnsureGroupOther(t: seq<Node>, name: string, g: seq<string>)
    requires g != [] && g[0] != name
    ensures Level(EnsureGroup(t, name).0, g) == Level(t, g)
  {
    var level := EnsureGroup(t, name).0;
    if FindGroup(t, name).None? {
      assert level[..|level| - 1] == t;
      assert FindGroup(level, g[0]) == FindGroup(t, g[0]);
      match FindGroup(t, g[0])
      case None =>
      case Some(k) => assert level[k] == t[k];
    }
  }

  /** Below a replaced group, the levels are those of its new children. */
  lemma LevelReplacedSame(level: seq<Node>, j: nat, c: seq<Node>, g: seq<string>)
    requires j < |level| && level[j].Group? && g != [] && FindGroup(level, g[0]) == Some(j)
    ensures Level(level[j := Group(level[j].name, c)], g) == Level(c, g[1..])
  {
    FindGroupReplaced(level, j, c, g[0]);
  }

  /** The levels under any other name are untouched by replacing a group's children. */
  lemma LevelReplacedOther(level: seq<Node>, j: nat, c: seq<Node>, g: seq<string>)
    requires j < |level| && level[j].Group? && g != [] && g[0] != level[j].name
    ensures Level(level[j := Group(level[j].name, c)], g) == Level(level, g)
  {
    var r := level[j := Group(level[j].name, c)];
    FindGroupReplaced(level, j, c, g[0]);
    match FindGroup(level, g[0])
    case None =>
    case Some(k) => assert r[k] == level[k];
  }

  // ---------------------------------------------------------------------------
  // Pages

  /** Inserting a page adds it to the end of the pages on its own level, and changes no other level's pages. */
  lemma {:induction false} InsertLevelPages(t: seq<Node>, gs: seq<string>, leaf: string, g: seq<string>)
    ensures LevelPages(Insert(t, gs, leaf), g) == LevelPages(t, g) + if g == gs then [leaf] else []
    decreases gs
  {
    if gs == [] {
      LevelAppendLeaf(t, leaf, g);
    } else {
      var (level, j) := EnsureGroup(t, gs[0]);
      var c := level[j].children;
      var c' := Insert(c, gs[1..], leaf);
      assert Insert(t, gs, leaf) == level[j := Group(level[j].name, c')];
      if g == [] {
        PagesReplaced(level, j, c');
        EnsureGroupTop(t, gs[0]);
      } else if g[0] == gs[0] {
        LevelReplacedSame(level, j, c', g);
        InsertLevelPages(c, gs[1..], leaf, g[1..]);
        EnsureGroupSame(t, gs[0], g);
        assert (g == gs) == (g[1..] == gs[1..]);
      } else {
        LevelReplacedOther(level, j, c', g);
        EnsureGroupOther(t, gs[0], g);
      }
    }
  }

  /** Every level of the built tree holds exactly the paths of its directory, in input order. */
  lemma {:induction false} BuildLevelPages(paths: seq<string>, g: seq<string>)
    ensures LevelPages(Build(paths), g) == PathsUnder(paths, g)
  {
    if paths != [] {
      var p := paths[|paths| - 1];
      BuildLevelPages(paths[..|paths| - 1], g);
      InsertLevelPages(Build(paths[..|paths| - 1]), GroupParts(p), p, g);
    } else {
      LevelOfEmpty(g);
    }
  }

  /** In particular each path is a page of the level of its own directories. */
  lemma BuildPlacesEveryPath(paths: seq<string>, i: nat)
    requires i < |paths|
    ensures paths[i] in LevelPages(Build(paths), GroupParts(paths[i]))
  {
    BuildLevelPages(paths, GroupParts(paths[i]));
    PathsUnderHas(paths, i);
  }

  lemma {:induction false} PathsUnderHas(paths: seq<string>, i: nat)
    requires i < |paths|
    ensures paths[i] in PathsUnder(paths, GroupParts(paths[i]))
  {
    if i < |paths| - 1 {
      PathsUnderHas(paths[..|paths| - 1], i);
    }
  }

  // ---------------------------------------------------------------------------
  // Groups

  /** Inserting a page appends a group to a level only when the page needs it there and the level lacks it. */
  lemma {:induction false} InsertLevelGroupNames(t: seq<Node>, gs: seq<string>, leaf: string, g: seq<string>)
    ensures LevelGroupNames(Insert(t, gs, leaf), g) ==
      LevelGroupNames(t, g) + if g < gs && gs[|g|] !in LevelGroupNames(t, g) then [gs[|g|]] else []
    decreases gs
  {
    if gs == [] {
      LevelAppendLeaf(t, leaf, g);
    } else {
      var (level, j) := EnsureGroup(t, gs[0]);
      var c := level[j].children;
      var c' := Insert(c, gs[1..], leaf);
      assert Insert(t, gs, leaf) == level[j := Group(level[j].name, c')];
      if g == [] {
        InsertTopGroupNames(t, gs, leaf);
      } else if g[0] == gs[0] {
        LevelReplacedSame(level, j, c', g);
        InsertLevelGroupNames(c, gs[1..], leaf, g[1..]);
        EnsureGroupSame(t, gs[0], g);
        PrefixStep(g, gs);
      } else {
        assert !(g < gs);
        LevelReplacedOther(level, j, c', g);
        EnsureGroupOther(t, gs[0], g);
      }
    }
  }

  lemma InsertTopGroupNames(t: seq<Node>, gs: seq<string>, leaf: string)
    requires gs != []
    ensures LevelGroupNames(Insert(t, gs, leaf), []) ==
      LevelGroupNames(t, []) + if gs[0] !in LevelGroupNames(t, []) then [gs[0]] else []
  {
    var (level, j) := EnsureGroup(t, gs[0]);
    var c' := Insert(level[j].children, gs[1..], leaf);
    assert Insert(t, gs, leaf) == level[j := Group(level[j].name, c')];
    PagesReplaced(level, j, c');
    EnsureGroupTop(t, gs[0]);
  }

  lemma PrefixStep(g: seq<string>, gs: seq<string>)
    requires g != [] && gs != [] && g[0] == gs[0]
    ensures (g < gs) == (g[1..] < gs[1..])
    ensures g < gs ==> gs[|g|] == gs[1..][|g[1..]|]
  {
  }

  /**
   * The groups on each level of the built tree are the directories needed below it,
   * each once, in the order of first need: a group is created when a path first needs
   * it and is appended at the end of its level.
   */
  lemma {:induction false} BuildLevelGroupNames(paths: seq<string>, g: seq<string>)
    ensures LevelGroupNames(Build(paths), g) == FirstNeeded(paths, g)
  {
    if paths != [] {
      var p := paths[|paths| - 1];
      BuildLevelGroupNames(paths[..|paths| - 1], g);
      InsertLevelGroupNames(Build(paths[..|paths| - 1]), GroupParts(p), p, g);
    } else {
      LevelOfEmpty(g);
    }
  }

  /** No level has two groups of the same name. */
  predicate UniqueGroups(level: seq<Node>)
    decreases level
  {
    (forall i, j :: 0 <= i < j < |level| && level[i].Group? && level[j].Group? ==> level[i].name != level[j].name) &&
    (forall i :: 0 <= i < |level| && level[i].Group? ==> UniqueGroups(level[i].children))
  }

  lemma {:induction false} InsertUniqueGroups(t: seq<Node>, gs: seq<string>, leaf: string)
    requires UniqueGroups(t)
    ensures UniqueGroups(Insert(t, gs, leaf))
    decreases gs
  {
    if gs == [] {
      var t' := Insert(t, gs, leaf);
      assert forall i :: 0 <= i < |t| ==> t'[i] == t[i];
    } else {
      var (level, j) := EnsureGroup(t, gs[0]);
      EnsureGroupUnique(t, gs[0]);
      InsertUniqueGroups(level[j].children, gs[1..], leaf);
      UniqueGroupsReplaced(level, j, Insert(level[j].children, gs[1..], leaf));
    }
  }

  lemma EnsureGroupUnique(t: seq<Node>, name: string)
    requires UniqueGroups(t)
    ensures UniqueGroups(EnsureGroup(t, name).0)
  {
    var level := EnsureGroup(t, name).0;
    if FindGroup(t, name).None? {
      assert forall i :: 0 <= i < |t| ==> level[i] == t[i];
      assert UniqueGroups(level[|t|].children);
    }
  }

  /** Replacing one group's children by a level without repeated groups keeps the whole tree so. */
  lemma UniqueGroupsReplaced(level: seq<Node>, j: nat, c: seq<Node>)
    requires UniqueGroups(level) && j < |level| && level[j].Group? && UniqueGroups(c)
    ensures UniqueGroups(level[j := Group(level[j].name, c)])
  {
    var r := level[j := Group(level[j].name, c)];
    assert forall i :: 0 <= i < |level| && i != j ==> r[i] == level[i];
  }

  /** Each level of the built tree has at most one group per directory name. */
  lemma {:induction false} BuildUniqueGroups(paths: seq<string>)
    ensures UniqueGroups(Build(paths))
  {
    if paths != [] {
      BuildUniqueGroups(paths[..|paths| - 1]);
      var p := paths[|paths| - 1];
      InsertUniqueGroups(Build(paths[..|paths| - 1]), GroupParts(p), p);
    }
  }

  // ---------------------------------------------------------------------------
  // No page lost, none made up

  /** Replacing the children of one group by `c` changes the pages below the level by what `c` adds. */
  lemma {:induction false} AllLeavesReplaced(level: seq<Node>, j: nat, c: seq<Node>, d: multiset<string>)
    requires j < |level| && level[j].Group?
    requires multiset(AllLeaves(c)) == multiset(AllLeaves(level[j].children)) + d
    ensures multiset(AllLeaves(level[j := Group(level[j].name, c)])) == multiset(AllLeaves(level)) + d
  {
    var before, after := level[..j], level[j + 1..];
    var x := Group(level[j].name, c);
    assert level == before + [level[j]] + after;
    assert level[j := x] == before + [x] + after;
    AllLeavesAround(before, level[j], after);
    AllLeavesAround(before, x, after);
    var a, b := AllLeaves(before), AllLeaves(after);
    var l, l' := AllLeaves(level[j].children), AllLeaves(c);
    assert EntryLeaves(level[j]) == l && EntryLeaves(x) == l';
    calc {
      multiset(a + l' + b);
      multiset(a) + multiset(l') + multiset(b);
      multiset(a) + multiset(l) + d + multiset(b);
      multiset(a + l + b) + d;
    }
  }

  /** The pages of a level around one entry are the pages before it, its own, and those after it. */
  lemma AllLeavesAround(before: seq<Node>, e: Node, after: seq<Node>)
    ensures AllLeaves(before + [e] + after) == AllLeaves(before) + EntryLeaves(e) + AllLeaves(after)
  {
    AllLeavesAppend(before + [e], after);
    assert (before + [e])[..|before|] == before;
  }

  lemma {:induction false} AllLeavesAppend(a: seq<Node>, b: seq<Node>)
    ensures AllLeaves(a + b) == AllLeaves(a) + AllLeaves(b)
    decreases |b|
  {
    if b == [] {
      assert a + b == a;
    } else {
      assert (a + b)[..|a + b| - 1] == a + b[..|b| - 1];
      AllLeavesAppend(a, b[..|b| - 1]);
    }
  }

  lemma {:induction false} InsertAllLeaves(t: seq<Node>, gs: seq<string>, leaf: string)
    ensures multiset(AllLeaves(Insert(t, gs, leaf))) == multiset(AllLeaves(t)) + multiset{leaf}
    decreases gs
  {
    if gs == [] {
      AppendLeafLeaves(t, leaf);
    } else {
      var (level, j) := EnsureGroup(t, gs[0]);
      var c' := Insert(level[j].children, gs[1..], leaf);
      InsertAllLeaves(level[j].children, gs[1..], leaf);
      AllLeavesReplaced(level, j, c', multiset{leaf});
      EnsureGroupLeaves(t, gs[0]);
    }
  }

  lemma AppendLeafLeaves(t: seq<Node>, leaf: string)
    ensures AllLeaves(t + [Leaf(leaf)]) == AllLeaves(t) + [leaf]
  {
    assert (t + [Leaf(leaf)])[..|t|] == t;
  }

  /** Finding or adding a group keeps the pages, and the group found has the name asked for. */
  lemma EnsureGroupLeaves(t: seq<Node>, name: string)
    ensures AllLeaves(EnsureGroup(t, name).0) == AllLeaves(t)
  {
    var (level, j) := EnsureGroup(t, name);
    if FindGroup(t, name).None? {
      assert level[..|level| - 1] == t;
      assert AllLeaves(level) == AllLeaves(t) + AllLeaves([]);
    }
  }

  /** The pages of the built tree are exactly the input paths, each as often as it is given. */
  lemma {:induction false} BuildKeepsEveryPath(paths: seq<string>)
    ensures multiset(AllLeaves(Build(paths))) == multiset(paths)
  {
    if paths != [] {
      var init, last := paths[..|paths| - 1], paths[|paths| - 1];
      var t := Build(init);
      assert paths == init + [last];
      calc {
        multiset(AllLeaves(Build(paths)));
        multiset(AllLeaves(Insert(t, GroupParts(last), last)));
        { InsertAllLeaves(t, GroupParts(last), last); }
        multiset(AllLeaves(t)) + multiset{last};
        { BuildKeepsEveryPath(init); }
        multiset(init) + multiset{last};
        multiset(paths);
      }
    }
  }
}
