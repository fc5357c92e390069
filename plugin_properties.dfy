/**
 * What one `on_files` pass promises about the nav, the warnings and the files, and how
 * `on_page_read_source` then serves the pages it added.
 */
module PluginProperties {
  import opened Wrappers
  import opened Strings
  import opened Paths
  import opened NavTree
  import opened NavShape
  import opened MergeProperties
  import opened RenameProperties
  import opened BuildProperties
  import opened Plugin

  /** The entries under the heading before the pass: those of its first group, or none. */
  function HeadingEntry(nav: seq<Node>, heading: string): (r: seq<Node>)
    ensures FindGroup(nav, heading).None? ==> r == []
    ensures FindGroup(nav, heading).Some? ==> r == nav[FindGroup(nav, heading).value].children
  {
    var (nav1, h) := EnsureGroup(nav, heading);
    nav1[h].children
  }

  // ---------------------------------------------------------------------------
  // `_ensure_features_entry`

  /** Making sure of the heading a second time adds nothing and finds the same group. */
  lemma EnsureFeaturesEntryTwice(nav: seq<Node>, heading: string)
    ensures EnsureGroup(EnsureGroup(nav, heading).0, heading) == EnsureGroup(nav, heading)
  {
  }

  // ---------------------------------------------------------------------------
  // Path order

  lemma {:induction false} StrLessIrreflexive(a: string)
    ensures !StrLess(a, a)
    decreases |a|
  {
    if a != [] {
      StrLessIrreflexive(a[1..]);
    }
  }

  lemma {:induction false} PartsLessIrreflexive(a: seq<string>)
    ensures !PartsLess(a, a)
    decreases |a|
  {
    if a != [] {
      StrLessIrreflexive(a[0]);
      PartsLessIrreflexive(a[1..]);
    }
  }

  /** Strictly sorted paths have no repeats. */
  lemma StrictlySortedDistinct(ps: seq<string>, i: nat, j: nat)
    requires StrictlySorted(ps) && i < j < |ps|
    ensures ps[i] != ps[j]
  {
    PartsLessIrreflexive(Parts(ps[i]));
  }

  // ---------------------------------------------------------------------------
  // Missing features

  /** From sorted disk paths, the missing ones come out sorted too. */
  lemma {:induction false} MissingSorted(disk: seq<string>, active: seq<string>)
    requires StrictlySorted(disk)
    ensures StrictlySorted(Missing(disk, active))
  {
    if disk != [] {
      var init, p := disk[..|disk| - 1], disk[|disk| - 1];
      assert StrictlySorted(init) by {
        assert forall i :: 0 <= i < |init| ==> init[i] == disk[i];
      }
      MissingSorted(init, active);
      var m := Missing(init, active);
      forall x | x in m
        ensures PathLess(x, p)
      {
        var k :| 0 <= k < |init| && init[k] == x;
      }
    }
  }

  lemma MissingWarningInjective(p: string, q: string)
    requires MissingWarning(p) == MissingWarning(q)
    ensures p == q
  {
    var w, w' := MissingWarning(p), MissingWarning(q);
    assert |p| == |q|;
    assert p == w[14..14 + |p|] && q == w'[14..14 + |q|];
  }

  lemma MissingWarningIsNotOutsideWarning(p: string)
    ensures MissingWarning(p) != OutsideWarning
  {
    assert MissingWarning(p)[12] == ' ';
    assert OutsideWarning[12] == 's';
  }

  /** A missing-feature warning names exactly one path, and none is the outside-the-heading warning. */
  lemma InMissingWarnings(ps: seq<string>, p: string)
    ensures MissingWarning(p) in MissingWarnings(ps) <==> p in ps
    ensures OutsideWarning !in MissingWarnings(ps)
  {
    var w := MissingWarnings(ps);
    if MissingWarning(p) in w {
      var k :| 0 <= k < |w| && w[k] == MissingWarning(p);
      MissingWarningInjective(p, ps[k]);
    }
    if p in ps {
      var k :| 0 <= k < |ps| && ps[k] == p;
      assert w[k] == MissingWarning(p);
    }
    if OutsideWarning in w {
      var k :| 0 <= k < |w| && w[k] == OutsideWarning;
      MissingWarningIsNotOutsideWarning(ps[k]);
    }
  }

  /** The warnings of a pass: the missing features (when asked for), then the outside-the-heading warning when due. */
  lemma PassWarnings(cfg: PluginConfig, nav: seq<Node>, disk: seq<string>)
    requires AllFeatures(disk)
    ensures var o := FilesPass(cfg, nav, disk);
      var listed := FeaturePaths(HeadingEntry(nav, cfg.navHeading));
      o.warnings ==
        (if !cfg.populate && cfg.warnMissing then MissingWarnings(Missing(disk, listed)) else []) +
        (if FeaturePaths(o.nav) != [] then [OutsideWarning] else [])
  {
  }

  /** In missing-feature warnings followed by at most the outside warning, a path is warned about exactly when it is missing. */
  lemma WarningsOfMissing(w: seq<string>, m: seq<string>, outside: bool)
    requires w == MissingWarnings(m) + if outside then [OutsideWarning] else []
    ensures forall p :: MissingWarning(p) in w <==> p in m
    ensures w[..|m|] == MissingWarnings(m)
    ensures OutsideWarning in w <==> outside
  {
    forall p
      ensures MissingWarning(p) in w <==> p in m
    {
      MissingWarningIsNotOutsideWarning(p);
      InMissingWarnings(m, p);
    }
    InMissingWarnings(m, "");
  }

  /**
   * With `populate` off and `warn_missing` on, the paths warned about are exactly the
   * features on disk that the heading does not list, in sorted order; otherwise no
   * feature is warned about as missing.
   */
  lemma WarnsExactlyMissing(cfg: PluginConfig, nav: seq<Node>, disk: seq<string>)
    requires AllFeatures(disk) && StrictlySorted(disk)
    ensures var o := FilesPass(cfg, nav, disk);
      var listed := FeaturePaths(HeadingEntry(nav, cfg.navHeading));
      forall p :: MissingWarning(p) in o.warnings <==> !cfg.populate && cfg.warnMissing && p in disk && p !in listed
    ensures !cfg.populate && cfg.warnMissing ==>
      var m := Missing(disk, FeaturePaths(HeadingEntry(nav, cfg.navHeading)));
      StrictlySorted(m) && FilesPass(cfg, nav, disk).warnings[..|m|] == MissingWarnings(m)
  {
    var o := FilesPass(cfg, nav, disk);
    var m := Missing(disk, FeaturePaths(HeadingEntry(nav, cfg.navHeading)));
    var mm := if !cfg.populate && cfg.warnMissing then m else [];
    PassWarnings(cfg, nav, disk);
    assert MissingWarnings([]) == [];
    WarningsOfMissing(o.warnings, mm, FeaturePaths(o.nav) != []);
    MissingSorted(disk, FeaturePaths(HeadingEntry(nav, cfg.navHeading)));
  }

  // ---------------------------------------------------------------------------
  // The heading after the pass

  /**
   * After the pass the heading is the group found (or appended) by making sure of it,
   * its pages hold no `.feature` page, and every other entry of the nav is as it was.
   */
  lemma HeadingRenamed(cfg: PluginConfig, nav: seq<Node>, disk: seq<string>)
    requires AllFeatures(disk)
    ensures var o := FilesPass(cfg, nav, disk);
      var h := EnsureGroup(nav, cfg.navHeading).1;
      |o.nav| == |EnsureGroup(nav, cfg.navHeading).0| &&
      FindGroup(o.nav, cfg.navHeading) == Some(h) &&
      FeaturePaths(o.nav[h].children) == [] &&
      forall i :: 0 <= i < |nav| && i != h ==> o.nav[i] == nav[i]
  {
    var (nav1, h) := EnsureGroup(nav, cfg.navHeading);
    var o := FilesPass(cfg, nav, disk);
    var entry := Selected(cfg, nav1[h].children, disk).1;
    assert o.nav == nav1[h := Group(cfg.navHeading, Renamed(entry))];
    FindGroupReplaced(nav1, h, Renamed(entry), cfg.navHeading);
    RenamedHasNoFeatures(entry);
  }

  /** With no `.feature` page under the heading, the nav has one exactly when some other entry has one. */
  lemma {:induction false} FeaturesOutsideHeading(nav: seq<Node>, heading: string, c: seq<Node>)
    requires FeaturePaths(c) == []
    ensures var (nav1, h) := EnsureGroup(nav, heading);
      FeaturePaths(nav1[h := Group(heading, c)]) != [] <==>
      exists i :: 0 <= i < |nav| && i != h && EntryFeaturePaths(nav[i]) != []
  {
    var (nav1, h) := EnsureGroup(nav, heading);
    var nav2 := nav1[h := Group(heading, c)];
    NoFeaturesEntrywise(nav2);
    assert forall i :: 0 <= i < |nav1| && i != h ==> nav2[i] == nav1[i];
    assert forall i :: 0 <= i < |nav| ==> nav1[i] == nav[i];
    assert EntryFeaturePaths(nav2[h]) == [];
  }

  /**
   * The warning about features outside the heading is given exactly when some entry of
   * the nav other than the heading's group holds a `.feature` page.
   */
  lemma OutsideWarningIff(cfg: PluginConfig, nav: seq<Node>, disk: seq<string>)
    requires AllFeatures(disk)
    ensures var h := EnsureGroup(nav, cfg.navHeading).1;
      OutsideWarning in FilesPass(cfg, nav, disk).warnings <==>
      exists i :: 0 <= i < |nav| && i != h && EntryFeaturePaths(nav[i]) != []
  {
    var (nav1, h) := EnsureGroup(nav, cfg.navHeading);
    var o := FilesPass(cfg, nav, disk);
    var entry := Selected(cfg, nav1[h].children, disk).1;
    assert o.nav == nav1[h := Group(cfg.navHeading, Renamed(entry))];
    var m := Missing(disk, FeaturePaths(HeadingEntry(nav, cfg.navHeading)));
    var mm := if !cfg.populate && cfg.warnMissing then m else [];
    PassWarnings(cfg, nav, disk);
    assert MissingWarnings([]) == [];
    WarningsOfMissing(o.warnings, mm, FeaturePaths(o.nav) != []);
    RenamedHasNoFeatures(entry);
    FeaturesOutsideHeading(nav, cfg.navHeading, Renamed(entry));
  }

  /** With `populate`, every feature on disk ends up as its `.md` page under the heading. */
  lemma PopulateListsEveryFeature(cfg: PluginConfig, nav: seq<Node>, disk: seq<string>, p: string)
    requires AllFeatures(disk) && cfg.populate && p in disk
    ensures FeatureToMd(p) in AllLeaves(FilesPass(cfg, nav, disk).nav[EnsureGroup(nav, cfg.navHeading).1].children)
  {
    var (nav1, h) := EnsureGroup(nav, cfg.navHeading);
    var tree := Build(disk);
    var merged := Merged(nav1[h].children, tree);
    assert FilesPass(cfg, nav, disk).nav[h].children == Renamed(merged);
    BuildKeepsEveryPath(disk);
    assert p in multiset(AllLeaves(tree));
    MergedCoversSource(nav1[h].children, tree);
    CoversLeaves(merged, tree, p);
    RenamedPages(merged);
    var k :| 0 <= k < |AllLeaves(merged)| && AllLeaves(merged)[k] == p;
    assert AllLeaves(Renamed(merged))[k] == FeatureToMd(p);
  }

  /** With `populate`, the entries the heading already had stay where they were, renamed. */
  lemma PopulateKeepsHeadingEntries(cfg: PluginConfig, nav: seq<Node>, disk: seq<string>)
    requires AllFeatures(disk) && cfg.populate
    ensures Embeds(Renamed(HeadingEntry(nav, cfg.navHeading)),
                   FilesPass(cfg, nav, disk).nav[EnsureGroup(nav, cfg.navHeading).1].children)
  {
    var (nav1, h) := EnsureGroup(nav, cfg.navHeading);
    var entry := nav1[h].children;
    var merged := Merged(entry, Build(disk));
    assert FilesPass(cfg, nav, disk).nav[h].children == Renamed(merged);
    MergedKeepsExisting(entry, Build(disk));
    RenamedEmbeds(entry, merged);
  }

  /** Renaming both sides keeps one tree embedded in the other. */
  lemma {:induction false} RenamedEmbeds(a: seq<Node>, b: seq<Node>)
    requires Embeds(a, b)
    ensures Embeds(Renamed(a), Renamed(b))
    decreases a
  {
    RenamedShape(a);
    RenamedShape(b);
    forall i | 0 <= i < |a| && a[i].Group?
      ensures Embeds(Renamed(a[i].children), Renamed(b[i].children))
    {
      RenamedEmbeds(a[i].children, b[i].children);
    }
  }

  // ---------------------------------------------------------------------------
  // Files and pages

  /** Distinct active features give distinct file paths and distinct destination URLs. */
  lemma FeatureFilesDistinct(active: seq<string>, i: nat, j: nat)
    requires AllFeatures(active) && i < j < |active| && active[i] != active[j]
    ensures FeatureFiles(active)[i].path != FeatureFiles(active)[j].path
    ensures FeatureFiles(active)[i].destUri != FeatureFiles(active)[j].destUri
  {
    assert active[i] in active && active[j] in active;
    if FeatureToMd(active[i]) == FeatureToMd(active[j]) {
      FeatureToMdInjective(active[i], active[j]);
    }
    if DestUri(active[i]) == DestUri(active[j]) {
      DestUriInjective(active[i], active[j]);
    }
  }

  /** With `populate`, the files added for the sorted disk paths never collide. */
  lemma PopulateFilesDistinct(cfg: PluginConfig, nav: seq<Node>, disk: seq<string>, i: nat, j: nat)
    requires AllFeatures(disk) && StrictlySorted(disk) && cfg.populate
    requires i < j < |FilesPass(cfg, nav, disk).added|
    ensures FilesPass(cfg, nav, disk).added[i].path != FilesPass(cfg, nav, disk).added[j].path
    ensures FilesPass(cfg, nav, disk).added[i].destUri != FilesPass(cfg, nav, disk).added[j].destUri
  {
    StrictlySortedDistinct(disk, i, j);
    FeatureFilesDistinct(disk, i, j);
  }

  /**
   * Each file the pass adds is a handled page, and reading its source gives the markdown
   * rendered for its feature, or a key error naming the feature when none was rendered.
   */
  lemma AddedFileServed(cfg: PluginConfig, nav: seq<Node>, disk: seq<string>, rendered: map<string, string>, i: nat)
    requires AllFeatures(disk)
    requires i < |FilesPass(cfg, nav, disk).added|
    ensures var o := FilesPass(cfg, nav, disk);
      var p := o.active[i];
      o.added[i].path in Handled(o.active) &&
      PageSource(Handled(o.active), rendered, o.added[i].path) == if p in rendered then Ok(Some(rendered[p])) else Err(p)
  {
    var o := FilesPass(cfg, nav, disk);
    var p := o.active[i];
    assert p in o.active;
    FeatureToMdToFeature(p);
  }

  /**
   * A page is left to MkDocs' own reading (`None`) exactly when its source is not the
   * `.md` image of an active feature; a handled page is looked up under its `.feature` path.
   */
  lemma PageSourceOfHandled(active: seq<string>, rendered: map<string, string>, srcUri: string)
    requires AllFeatures(active)
    ensures PageSource(Handled(active), rendered, srcUri) == Ok(None) <==>
      forall p :: p in active ==> FeatureToMd(p) != srcUri
    ensures forall p :: p in active && FeatureToMd(p) == srcUri ==>
      PageSource(Handled(active), rendered, srcUri) == if p in rendered then Ok(Some(rendered[p])) else Err(p)
  {
    forall p | p in active && FeatureToMd(p) == srcUri {
      FeatureToMdToFeature(p);
    }
  }
}
