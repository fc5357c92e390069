/**
 * The MkDocs plugin itself: on each build it makes sure the configured heading is in
 * the nav, either fills it with every feature on disk or takes the features already
 * listed under it, renames their pages to `.md`, warns about features missing from the
 * nav or listed outside the heading, adds a virtual `.md` file for each feature, and
 * later serves each such page from the formatter's rendered markdown.
 */
module Plugin {
  import opened Wrappers
  import opened Strings
  import opened Paths
  import opened NavTree
  import opened MergeProperties
  import opened RenameProperties
  import opened BuildProperties

  /** The options of `BehavePluginConfig` the nav logic reads. */
  datatype PluginConfig = PluginConfig(navHeading: string, populate: bool, warnMissing: bool)

  /** The two strings of the MkDocs `File` built for a feature: its source path and its destination URL. */
  datatype VirtualFile = VirtualFile(path: string, destUri: string)

  /** What one `on_files` call leaves behind: the new nav, the active feature paths, the warnings logged and the files added. */
  datatype FilesOutcome = FilesOutcome(nav: seq<Node>, active: seq<string>, warnings: seq<string>, added: seq<VirtualFile>)

  const DefaultConfig := PluginConfig("Features", true, true)

  const OutsideWarning: string :=
    "Feature files " + "are present in the 'nav' configuration " + "outside the configured heading."

  function MissingWarning(p: string): string
  {
    "Feature file '" + p + "' is present on disk, but is not included in the 'nav' configuration."
  }

  predicate AllFeatures(ps: seq<string>)
  {
    forall p :: p in ps ==> IsFeature(p)
  }

  /** Sorted the way `sorted()` orders `Path` objects, without repeats. */
  predicate StrictlySorted(ps: seq<string>)
  {
    forall i, j :: 0 <= i < j < |ps| ==> PathLess(ps[i], ps[j])
  }

  /** The paths on disk that the nav does not list, in disk order. */
  function Missing(disk: seq<string>, active: seq<string>): (r: seq<string>)
    ensures forall p :: p in r <==> p in disk && p !in active
  {
    if disk == [] then []
    else
      var p := disk[|disk| - 1];
      Missing(disk[..|disk| - 1], active) + if p in active then [] else [p]
  }

  function MissingWarnings(ps: seq<string>): (r: seq<string>)
    ensures |r| == |ps| && forall i :: 0 <= i < |ps| ==> r[i] == MissingWarning(ps[i])
  {
    seq(|ps|, i requires 0 <= i < |ps| => MissingWarning(ps[i]))
  }

  lemma MissingWarningsAppend(ps: seq<string>, p: string)
    ensures MissingWarnings(ps + [p]) == MissingWarnings(ps) + [MissingWarning(p)]
  {
  }

  /** The file for a feature: `path` with the suffix `.md`, and a directory-style `dest_uri`. */
  function FeatureFile(p: string): VirtualFile
    requires IsFeature(p)
  {
    VirtualFile(FeatureToMd(p), DestUri(p))
  }

  function FeatureFiles(ps: seq<string>): (r: seq<VirtualFile>)
    requires AllFeatures(ps)
    ensures |r| == |ps| && forall i :: 0 <= i < |ps| ==> r[i] == FeatureFile(ps[i])
  {
    seq(|ps|, i requires 0 <= i < |ps| => FeatureFile(ps[i]))
  }

  /** `_handled_feature_files`: the `.md` images of the active feature paths. */
  function Handled(active: seq<string>): (r: set<string>)
    requires AllFeatures(active)
    ensures forall q :: q in r ==> EndsWith(q, MarkdownSuffix) && MdToFeature(q) in active
    ensures forall p :: p in active ==> FeatureToMd(p) in r
  {
    assert forall p | p in active :: MdToFeature(FeatureToMd(p)) == p by {
      forall p | p in active {
        FeatureToMdToFeature(p);
      }
    }
    set p | p in active :: FeatureToMd(p)
  }

  lemma FeaturePathsAreFeatures(t: seq<Node>)
    ensures AllFeatures(FeaturePaths(t))
  {
    FeaturePathsAreFeaturePages(t);
  }

  /**
   * The heading's part of `on_files`: with `populate` the features on disk are active
   * and are built into a tree merged under the heading; otherwise the features listed
   * under the heading are active and, with `warn_missing`, every other feature on disk
   * is warned about. The result is the active paths, the heading's new entries (not yet
   * renamed) and the warnings.
   */
  function Selected(cfg: PluginConfig, entry: seq<Node>, disk: seq<string>): (r: (seq<string>, seq<Node>, seq<string>))
    requires AllFeatures(disk)
    ensures AllFeatures(r.0)
  {
    FeaturePathsAreFeatures(entry);
    if cfg.populate then (disk, Merged(entry, Build(disk)), [])
    else
      var active := FeaturePaths(entry);
      (active, entry, if cfg.warnMissing then MissingWarnings(Missing(disk, active)) else [])
  }

  /**
   * What `on_files` does to the nav, the warnings and the files: the heading is made
   * sure of and its part done; then the heading's pages are renamed, and a warning is
   * added when `.feature` pages remain anywhere in the nav.
   */
  function FilesPass(cfg: PluginConfig, nav: seq<Node>, disk: seq<string>): (r: FilesOutcome)
    requires AllFeatures(disk)
    ensures AllFeatures(r.active)
  {
    var (nav1, h) := EnsureGroup(nav, cfg.navHeading);
    var (active, entry, missing) := Selected(cfg, nav1[h].children, disk);
    var nav2 := nav1[h := Group(cfg.navHeading, Renamed(entry))];
    var outside := if FeaturePaths(nav2) != [] then [OutsideWarning] else [];
    FilesOutcome(nav2, active, missing + outside, FeatureFiles(active))
  }

  /**
   * `on_page_read_source`: nothing for a page that is not a handled feature; otherwise
   * the rendered markdown stored under its `.feature` path, or a key error naming that
   * path when the formatter stored nothing there.
   */
  function PageSource(handled: set<string>, rendered: map<string, string>, srcUri: string): Result<Option<string>, string>
    requires forall q :: q in handled ==> EndsWith(q, MarkdownSuffix)
  {
    if srcUri in handled then
      var key := MdToFeature(srcUri);
      if key in rendered then Ok(Some(rendered[key])) else Err(key)
    else Ok(None)
  }

  class BehavePlugin {
    const config: PluginConfig
    var handled: set<string>

    ghost predicate Valid()
      reads this
    {
      forall q :: q in handled ==> EndsWith(q, MarkdownSuffix)
    }

    constructor (config: PluginConfig)
      ensures this.config == config && handled == {} && Valid()
    {
      this.config := config;
      handled := {};
    }

    /** The generator `next((x[name] for x in level if isinstance(x, dict) and name in x), None)`, as an index. */
    static method FindEntry(level: seq<Node>, name: string) returns (r: Option<nat>)
      ensures r == FindGroup(level, name)
    {
      var i := 0;
      while i < |level|
        invariant i <= |level|
        invariant forall k :: 0 <= k < i ==> !IsGroupNamed(level[k], name)
      {
        if level[i].Group? && level[i].name == name {
          return Some(i);
        }
        i := i + 1;
      }
      return None;
    }

    /** `_ensure_features_entry`: the first group called `heading`, or a new empty one appended at the end. */
    static method EnsureFeaturesEntry(nav: seq<Node>, heading: string) returns (nav': seq<Node>, index: nat)
      ensures (nav', index) == EnsureGroup(nav, heading)
    {
      var found := FindEntry(nav, heading);
      match found
      case Some(j) =>
        nav', index := nav, j;
      case None =>
        nav', index := nav + [Group(heading, [])], |nav|;
    }

    /**
     * `_build_feature_tree`. The inner walk down `working_tree` appends to sub-lists that
     * the outer lists share; here it is the recursion of `AddUnder`, each level written back.
     */
    static method BuildFeatureTree(paths: seq<string>) returns (tree: seq<Node>)
      ensures tree == Build(paths)
    {
      tree := [];
      for i := 0 to |paths|
        invariant tree == Build(paths[..i])
      {
        assert paths[..i + 1][..i] == paths[..i];
        tree := AddUnder(tree, GroupParts(paths[i]), paths[i]);
      }
      assert paths[..|paths|] == paths;
    }

    static method AddUnder(level: seq<Node>, groups: seq<string>, leaf: string) returns (r: seq<Node>)
      ensures r == Insert(level, groups, leaf)
      decreases groups
    {
      if groups == [] {
        r := level + [Leaf(leaf)];
      } else {
        var level', j := EnsureFeaturesEntry(level, groups[0]);
        var sub := AddUnder(level'[j].children, groups[1..], leaf);
        r := level'[j := Group(groups[0], sub)];
      }
    }

    /** `_merge_features_into_nav` and its inner `merge`. */
    static method MergeFeaturesIntoNav(nav: seq<Node>, features: seq<Node>) returns (r: seq<Node>)
      ensures r == Merged(nav, features)
      decreases features
    {
      r := nav;
      for i := 0 to |features|
        invariant r == Merged(nav, features[..i])
      {
        assert features[..i + 1][..i] == features[..i];
        match features[i]
        case Leaf(p) =>
          if Leaf(p) !in r {
            r := r + [Leaf(p)];
          }
        case Group(n, kids) =>
          var name := Normalise(n);
          var level, j := EnsureFeaturesEntry(r, name);
          var sub := MergeFeaturesIntoNav(level[j].children, kids);
          r := level[j := Group(name, sub)];
      }
      assert features[..|features|] == features;
    }

    /** `_get_feature_paths_in_nav`. */
    static method GetFeaturePathsInNav(nav: seq<Node>) returns (paths: seq<string>)
      ensures paths == FeaturePaths(nav)
    {
      paths := CollectFeatures(nav, []);
    }

    /** The inner `find`, appending to the shared `paths` list. */
    static method CollectFeatures(level: seq<Node>, acc: seq<string>) returns (acc': seq<string>)
      ensures acc' == acc + FeaturePaths(level)
      decreases level
    {
      acc' := acc;
      for i := 0 to |level|
        invariant acc' == acc + FeaturePaths(level[..i])
      {
        assert level[..i + 1][..i] == level[..i];
        match level[i]
        case Leaf(p) =>
          if EndsWith(p, FeatureSuffix) {
            acc' := acc' + [p];
          }
        case Group(_, c) =>
          acc' := CollectFeatures(c, acc');
      }
      assert level[..|level|] == level;
    }

    /** `_rename_features_in_nav`: each `.feature` page replaced, in its place, by its `.md` page. */
    static method RenameFeaturesInNav(nav: seq<Node>) returns (r: seq<Node>)
      ensures r == Renamed(nav)
      decreases nav
    {
      r := nav;
      for i := 0 to |nav|
        invariant |r| == |nav|
        invariant r[..i] == Renamed(nav[..i])
        invariant r[i..] == nav[i..]
      {
        assert r[i] == nav[i];
        assert nav[..i + 1][..i] == nav[..i];
        match nav[i]
        case Leaf(p) =>
          if EndsWith(p, FeatureSuffix) {
            r := r[i := Leaf(FeatureToMd(p))];
          }
        case Group(n, c) =>
          var c' := RenameFeaturesInNav(c);
          r := r[i := Group(n, c')];
      }
      assert nav[..|nav|] == nav;
    }

    /** The heading's part of `on_files`. */
    method SelectFeatures(entry: seq<Node>, disk: seq<string>)
      returns (active: seq<string>, entry': seq<Node>, warnings: seq<string>)
      requires AllFeatures(disk)
      ensures (active, entry', warnings) == Selected(config, entry, disk)
    {
      warnings := [];
      if config.populate {
        active := disk;
        var tree := BuildFeatureTree(active);
        entry' := MergeFeaturesIntoNav(entry, tree);
      } else {
        active := GetFeaturePathsInNav(entry);
        entry' := entry;
        if config.warnMissing {
          warnings := WarnMissing(disk, active);
        }
      }
    }

    /** The `warn_missing` loop: one warning per feature on disk that is not active, in disk order. */
    static method WarnMissing(disk: seq<string>, active: seq<string>) returns (warnings: seq<string>)
      ensures warnings == MissingWarnings(Missing(disk, active))
    {
      warnings := [];
      for i := 0 to |disk|
        invariant warnings == MissingWarnings(Missing(disk[..i], active))
      {
        assert disk[..i + 1][..i] == disk[..i];
        if disk[i] !in active {
          MissingWarningsAppend(Missing(disk[..i], active), disk[i]);
          warnings := warnings + [MissingWarning(disk[i])];
        }
      }
      assert disk[..|disk|] == disk;
    }

    /** The `files.append` loop: one virtual file per active feature, in order. */
    static method AddFeatureFiles(files: seq<VirtualFile>, active: seq<string>) returns (files': seq<VirtualFile>)
      requires AllFeatures(active)
      ensures files' == files + FeatureFiles(active)
    {
      files' := files;
      for i := 0 to |active|
        invariant files' == files + FeatureFiles(active[..i])
      {
        files' := files' + [FeatureFile(active[i])];
      }
      assert active[..|active|] == active;
    }

    /**
     * `on_files`, after behave has run. `disk` is the sorted list of feature paths under
     * the features directory; `files` the files MkDocs already has.
     */
    method OnFiles(nav: seq<Node>, disk: seq<string>, files: seq<VirtualFile>)
      returns (nav': seq<Node>, warnings: seq<string>, files': seq<VirtualFile>)
      requires AllFeatures(disk)
      modifies this
      ensures Valid()
      ensures nav' == FilesPass(config, nav, disk).nav
      ensures warnings == FilesPass(config, nav, disk).warnings
      ensures files' == files + FilesPass(config, nav, disk).added
      ensures handled == Handled(FilesPass(config, nav, disk).active)
    {
      var nav1, h := EnsureFeaturesEntry(nav, config.navHeading);
      var active, entry, missing := SelectFeatures(nav1[h].children, disk);
      entry := RenameFeaturesInNav(entry);
      nav' := nav1[h := Group(config.navHeading, entry)];
      var outside := GetFeaturePathsInNav(nav');
      warnings := missing + if outside != [] then [OutsideWarning] else [];
      files' := AddFeatureFiles(files, active);
      handled := Handled(active);
    }

    /** `on_page_read_source`, given the formatter's `rendered_features`. */
    method OnPageReadSource(srcUri: string, rendered: map<string, string>) returns (r: Result<Option<string>, string>)
      requires Valid()
      ensures r == PageSource(handled, rendered, srcUri)
    {
      if srcUri in handled {
        var key := MdToFeature(srcUri);
        if key in rendered {
          r := Ok(Some(rendered[key]));
        } else {
          r := Err(key);
        }
      } else {
        r := Ok(None);
      }
    }
  }
}
