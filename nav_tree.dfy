/**
 * The MkDocs navigation tree the plugin reconciles with the features on disk.
 *
 * A level of the tree is a list whose entries are either a page (a path string) or a
 * single-key mapping `{name: subtree}`; here they are `Leaf(path)` and
 * `Group(name, children)`. The functions below are the meaning of the plugin's
 * in-place list edits: building a tree from the feature paths, merging it into the
 * nav, collecting and renaming `.feature` leaves, and finding or adding a heading.
 */
module NavTree {
  import opened Wrappers
  import opened Strings
  import opened Paths

  datatype Node = Leaf(path: string) | Group(name: string, children: seq<Node>)

  predicate IsGroupNamed(n: Node, name: string)
  {
    n.Group? && n.name == name
  }

  /**
   * The index of the first group of `level` called `name`, as the generator
   * `next((x[name] for x in level if isinstance(x, dict) and name in x), None)` finds it.
   */
  function FindGroup(level: seq<Node>, name: string): (r: Option<nat>)
    ensures r.Some? ==> r.value < |level| && IsGroupNamed(level[r.value], name)
    ensures r.Some? ==> forall j :: 0 <= j < r.value ==> !IsGroupNamed(level[j], name)
    ensures r.None? <==> forall j :: 0 <= j < |level| ==> !IsGroupNamed(level[j], name)
  {
    if level == [] then None
    else match FindGroup(level[..|level| - 1], name)
      case Some(j) => Some(j)
      case None => if IsGroupNamed(level[|level| - 1], name) then Some(|level| - 1) else None
  }

  /**
   * The level with a group called `name`, and that group's index: the first such group
   * when there is one, otherwise a new empty group appended at the end. This is what
   * `_ensure_features_entry` does with the heading, and what the merge does with each
   * source group, and what building the tree does with each directory.
   */
  function EnsureGroup(level: seq<Node>, name: string): (r: (seq<Node>, nat))
    ensures r.1 < |r.0| && IsGroupNamed(r.0[r.1], name) && FindGroup(r.0, name) == Some(r.1)
    ensures FindGroup(level, name).Some? ==> r == (level, FindGroup(level, name).value)
    ensures FindGroup(level, name).None? ==> r == (level + [Group(name, [])], |level|)
  {
    match FindGroup(level, name)
    case Some(j) => (level, j)
    case None =>
      var level' := level + [Group(name, [])];
      assert forall j :: 0 <= j < |level| ==> level'[j] == level[j];
      (level', |level|)
  }

  // ---------------------------------------------------------------------------
  // Group names shown in the nav: `name.replace('_', ' ').capitalize()`

  function Upper(c: char): char
  {
    if 'a' <= c <= 'z' then (c as int - 32) as char else c
  }

  function Lower(c: char): char
  {
    if 'A' <= c <= 'Z' then (c as int + 32) as char else c
  }

  /** `str.capitalize()` on ASCII text: the first character upper case, all the others lower case. */
  function Capitalize(s: string): (r: string)
    ensures |r| == |s|
    ensures s != [] ==> r[0] == Upper(s[0])
    ensures forall i :: 0 < i < |s| ==> r[i] == Lower(s[i])
  {
    if s == [] then [] else [Upper(s[0])] + seq(|s| - 1, i requires 0 <= i < |s| - 1 => Lower(s[i + 1]))
  }

  /** `s.replace('_', ' ')` */
  function UnderscoresToSpaces(s: string): (r: string)
    ensures |r| == |s|
    ensures forall i :: 0 <= i < |s| ==> r[i] == if s[i] == '_' then ' ' else s[i]
  {
    seq(|s|, i requires 0 <= i < |s| => if s[i] == '_' then ' ' else s[i])
  }

  function Normalise(name: string): string
  {
    Capitalize(UnderscoresToSpaces(name))
  }

  /** Normalising a group name that is already normalised changes nothing. */
  lemma NormaliseIdempotent(name: string)
    ensures Normalise(Normalise(name)) == Normalise(name)
    ensures '_' !in Normalise(name)
  {
    var n := Normalise(name);
    assert forall i :: 0 <= i < |n| ==> n[i] != '_';
    assert UnderscoresToSpaces(n) == n;
  }

  // ---------------------------------------------------------------------------
  // `_merge_features_into_nav`

  /** A page entry is appended only when an identical one is not already on the level. */
  function AddLeaf(level: seq<Node>, p: string): seq<Node>
  {
    if Leaf(p) in level then level else level + [Leaf(p)]
  }

  /**
   * `merge(dest, src)`: the entries of `src` merged, in order, into `dest`. A page is
   * appended when it is not already there; a group's name is normalised, the first
   * group of `dest` with that name (or a new empty one appended at the end) receives
   * the group's children by the same merge.
   */
  function Merged(dest: seq<Node>, src: seq<Node>): seq<Node>
    decreases src
  {
    if src == [] then dest
    else
      var prev := Merged(dest, src[..|src| - 1]);
      match src[|src| - 1]
      case Leaf(p) => AddLeaf(prev, p)
      case Group(n, kids) =>
        var (level, j) := EnsureGroup(prev, Normalise(n));
        level[j := Group(Normalise(n), Merged(level[j].children, kids))]
  }

  // ---------------------------------------------------------------------------
  // `_build_feature_tree`

  /** The level with `leaf` appended under the groups named `groups`, each created at the end of its level when missing. */
  function Insert(level: seq<Node>, groups: seq<string>, leaf: string): seq<Node>
    decreases groups
  {
    if groups == [] then level + [Leaf(leaf)]
    else
      var (level', j) := EnsureGroup(level, groups[0]);
      level'[j := Group(groups[0], Insert(level'[j].children, groups[1..], leaf))]
  }

  /** The tree of the given feature paths, each nested under the groups of its directories below the features root. */
  function Build(paths: seq<string>): seq<Node>
  {
    if paths == [] then []
    else
      var p := paths[|paths| - 1];
      Insert(Build(paths[..|paths| - 1]), GroupParts(p), p)
  }

  // ---------------------------------------------------------------------------
  // `_get_feature_paths_in_nav` and `_rename_features_in_nav`

  /** Every leaf of the tree, depth first, in nav order. */
  function AllLeaves(level: seq<Node>): seq<string>
    decreases level
  {
    if level == [] then [] else AllLeaves(level[..|level| - 1]) + EntryLeaves(level[|level| - 1])
  }

  function EntryLeaves(e: Node): seq<string>
    decreases e
  {
    match e
    case Leaf(p) => [p]
    case Group(_, c) => AllLeaves(c)
  }

  /** The leaves ending in `.feature`, depth first, in nav order. */
  function FeaturePaths(level: seq<Node>): seq<string>
    decreases level
  {
    if level == [] then [] else FeaturePaths(level[..|level| - 1]) + EntryFeaturePaths(level[|level| - 1])
  }

  function EntryFeaturePaths(e: Node): seq<string>
    decreases e
  {
    match e
    case Leaf(p) => if IsFeature(p) then [p] else []
    case Group(_, c) => FeaturePaths(c)
  }

  /** `str(Path(p).with_suffix('.md'))` for a `.feature` leaf; other leaves are kept. */
  function RenamedPath(p: string): string
  {
    if IsFeature(p) then FeatureToMd(p) else p
  }

  /** Every `.feature` leaf renamed to `.md`, in place. */
  function Renamed(level: seq<Node>): seq<Node>
    decreases level
  {
    if level == [] then [] else Renamed(level[..|level| - 1]) + [RenamedEntry(level[|level| - 1])]
  }

  function RenamedEntry(e: Node): Node
    decreases e
  {
    match e
    case Leaf(p) => Leaf(RenamedPath(p))
    case Group(n, c) => Group(n, Renamed(c))
  }
}
