/**
 * Relative POSIX paths as the plugin derives them with `pathlib`: the parts of a path,
 * the `.feature` to `.md` suffix swap and back, the group parts used to build the
 * navigation tree, the directory-style destination URL of a generated page, and the
 * order `sorted` puts paths in.
 *
 * Paths are taken to be normalised relative paths: no empty part, no `.` part and no
 * trailing `/`, so that `str(Path(p))` is `p`.
 */
module Paths {
  import opened Strings

  const FeatureSuffix: string := ".feature"
  const MarkdownSuffix: string := ".md"
  const IndexPage: string := "/index.html"

  /** A path naming a feature file (the `*.feature` of the disk listing, the `.endswith('.feature')` of a nav leaf). */
  predicate IsFeature(p: string)
  {
    EndsWith(p, FeatureSuffix)
  }

  /** `Path(p).parts` */
  function Parts(p: string): (parts: seq<string>)
    ensures |parts| >= 1
  {
    Split(p, '/')
  }

  /** `Path(p).parent.parts` */
  function ParentParts(p: string): seq<string>
  {
    Parts(p)[..|Parts(p)| - 1]
  }

  /** `Path(p).name` */
  function Name(p: string): string
  {
    Parts(p)[|Parts(p)| - 1]
  }

  /**
   * `feature_path.parent.parts[1:]`: the directories below the features root, which
   * name the groups a feature is nested under.
   */
  function GroupParts(p: string): (groups: seq<string>)
    ensures |Parts(p)| <= 2 ==> groups == []
    ensures |Parts(p)| > 2 ==> groups == Parts(p)[1..|Parts(p)| - 1]
  {
    ParentParts(p)[if |ParentParts(p)| == 0 then 0 else 1..]
  }

  /** `str(Path(p).with_suffix('.md'))` for a path ending in `.feature`. */
  function FeatureToMd(p: string): (q: string)
    requires IsFeature(p)
    ensures EndsWith(q, MarkdownSuffix) && !IsFeature(q)
    ensures q[..|q| - |MarkdownSuffix|] == p[..|p| - |FeatureSuffix|]
  {
    var q := p[..|p| - |FeatureSuffix|] + MarkdownSuffix;
    assert q[|q| - 1] == 'd';
    q
  }

  /** `str(Path(q).with_suffix('.feature'))` for a path ending in `.md`. */
  function MdToFeature(q: string): (p: string)
    requires EndsWith(q, MarkdownSuffix)
    ensures IsFeature(p) && !EndsWith(p, MarkdownSuffix)
    ensures p[..|p| - |FeatureSuffix|] == q[..|q| - |MarkdownSuffix|]
  {
    var p := q[..|q| - |MarkdownSuffix|] + FeatureSuffix;
    assert p[|p| - 1] == 'e';
    p
  }

  /** The suffix swap is undone by the swap back: a feature is found again from its page. */
  lemma FeatureToMdToFeature(p: string)
    requires IsFeature(p)
    ensures MdToFeature(FeatureToMd(p)) == p
  {
    var q := FeatureToMd(p);
    assert q[..|q| - |MarkdownSuffix|] == p[..|p| - |FeatureSuffix|];
    assert p == p[..|p| - |FeatureSuffix|] + FeatureSuffix;
  }

  lemma MdToFeatureToMd(q: string)
    requires EndsWith(q, MarkdownSuffix)
    ensures FeatureToMd(MdToFeature(q)) == q
  {
    var p := MdToFeature(q);
    assert q == q[..|q| - |MarkdownSuffix|] + MarkdownSuffix;
  }

  /** Two features never share a page. */
  lemma FeatureToMdInjective(p: string, p': string)
    requires IsFeature(p) && IsFeature(p')
    requires FeatureToMd(p) == FeatureToMd(p')
    ensures p == p'
  {
    FeatureToMdToFeature(p);
    FeatureToMdToFeature(p');
  }

  lemma {:induction false} JoinSplit(s: string, sep: char)
    ensures Join([sep], Split(s, sep)) == s
  {
    if s != [] {
      JoinSplit(s[1..], sep);
      var rest := Split(s[1..], sep);
      if s[0] == sep {
        assert ([""] + rest)[1..] == rest;
      } else if |rest| > 1 {
        assert ([[s[0]] + rest[0]] + rest[1..])[1..] == rest[1..];
      }
    }
  }

  lemma {:induction false} JoinLast(sep: string, items: seq<string>)
    requires |items| >= 2
    ensures Join(sep, items) == Join(sep, items[..|items| - 1]) + sep + items[|items| - 1]
  {
    if |items| > 2 {
      JoinLast(sep, items[1..]);
      assert items[1..][..|items| - 2] == items[..|items| - 1][1..];
    }
  }

  /** A path is its parent's parts and its name, joined by `/`. */
  lemma PathIsParentAndName(p: string)
    ensures |ParentParts(p)| == 0 ==> p == Name(p)
    ensures |ParentParts(p)| > 0 ==> p == Join("/", ParentParts(p)) + "/" + Name(p)
  {
    var parts := Parts(p);
    JoinSplit(p, '/');
    assert Join("/", parts) == p;
    if |parts| >= 2 {
      JoinLast("/", parts);
    }
  }

  /** A path ends with its name, and the name holds no `/`. */
  lemma PathEndsWithName(p: string)
    ensures EndsWith(p, Name(p)) && '/' !in Name(p)
  {
    PathIsParentAndName(p);
  }

  lemma NoSlashInSuffix(p: string, k: int)
    requires IsFeature(p)
    requires |p| - |FeatureSuffix| <= k < |p|
    ensures p[k] != '/'
  {
    assert p[k] == p[|p| - |FeatureSuffix|..][k - (|p| - |FeatureSuffix|)];
  }

  /** The name of a feature path ends in `.feature` itself, since the suffix holds no `/`. */
  lemma NameIsFeature(p: string)
    requires IsFeature(p)
    ensures |Name(p)| <= |p| && EndsWith(Name(p), FeatureSuffix)
    ensures p[..|p| - |FeatureSuffix|] == p[..|p| - |Name(p)|] + Name(p)[..|Name(p)| - |FeatureSuffix|]
  {
    PathEndsWithName(p);
    PathIsParentAndName(p);
    var n := Name(p);
    if |n| < |FeatureSuffix| {
      NoSlashInSuffix(p, |p| - |n| - 1);
      assert false;
    }
    assert p[|p| - |n|..] == n;
  }

  /** `Path(p).stem` of a feature path: its name without `.feature`. */
  function Stem(p: string): string
    requires IsFeature(p)
  {
    NameIsFeature(p);
    Name(p)[..|Name(p)| - |FeatureSuffix|]
  }

  /** `f'{feature_path.parent / feature_path.stem}/index.html'`: the page's directory-style URL. */
  function DestUri(p: string): string
    requires IsFeature(p)
  {
    Join("/", ParentParts(p) + [Stem(p)]) + IndexPage
  }

  /** The URL keeps the feature's directory and stem: it is the path without `.feature`, then `/index.html`. */
  lemma DestUriKeepsDirectoryAndStem(p: string)
    requires IsFeature(p)
    ensures DestUri(p) == p[..|p| - |FeatureSuffix|] + IndexPage
  {
    NameIsFeature(p);
    PathIsParentAndName(p);
    var dirs := ParentParts(p);
    if |dirs| > 0 {
      JoinLast("/", dirs + [Stem(p)]);
      assert (dirs + [Stem(p)])[..|dirs|] == dirs;
    }
  }

  /** Two features never share a destination URL. */
  lemma DestUriInjective(p: string, p': string)
    requires IsFeature(p) && IsFeature(p')
    requires DestUri(p) == DestUri(p')
    ensures p == p'
  {
    DestUriKeepsDirectoryAndStem(p);
    DestUriKeepsDirectoryAndStem(p');
    var s, s' := p[..|p| - |FeatureSuffix|], p'[..|p'| - |FeatureSuffix|];
    assert s == (s + IndexPage)[..|s|];
    assert s' == (s' + IndexPage)[..|s'|];
    assert p == s + FeatureSuffix && p' == s' + FeatureSuffix;
  }

  /** `Path(a) < Path(b)`: parts compared as lists of strings. */
  predicate PathLess(a: string, b: string)
  {
    PartsLess(Parts(a), Parts(b))
  }
}
