/**
 * How one navigation tree sits inside another: `Embeds(a, b)` holds when `b` keeps
 * every entry of `a` at the same index, pages unchanged and groups under the same
 * name with children that embed in turn, and may have further entries after them.
 * This is "no existing entry is removed, renamed or reordered".
 */
module NavShape {
  import opened Wrappers
  import opened NavTree

  predicate Embeds(a: seq<Node>, b: seq<Node>)
    decreases a
  {
    |a| <= |b| &&
    forall i :: 0 <= i < |a| ==>
      match a[i]
      case Leaf(p) => b[i] == Leaf(p)
      case Group(n, c) => b[i].Group? && b[i].name == n && Embeds(c, b[i].children)
  }

  lemma {:induction false} EmbedsReflexive(a: seq<Node>)
    ensures Embeds(a, a)
    decreases a
  {
    forall i | 0 <= i < |a| && a[i].Group?
      ensures Embeds(a[i].children, a[i].children)
    {
      EmbedsReflexive(a[i].children);
    }
  }

  lemma {:induction false} EmbedsTransitive(a: seq<Node>, b: seq<Node>, c: seq<Node>)
    requires Embeds(a, b) && Embeds(b, c)
    ensures Embeds(a, c)
    decreases a
  {
    forall i | 0 <= i < |a| && a[i].Group?
      ensures Embeds(a[i].children, c[i].children)
    {
      EmbedsTransitive(a[i].children, b[i].children, c[i].children);
    }
  }

  lemma EmbedsAppend(a: seq<Node>, x: seq<Node>)
    ensures Embeds(a, a + x)
  {
    EmbedsReflexive(a);
    assert forall i :: 0 <= i < |a| ==> (a + x)[i] == a[i];
  }

  lemma EmbedsUpdate(a: seq<Node>, j: nat, c: seq<Node>)
    requires j < |a| && a[j].Group? && Embeds(a[j].children, c)
    ensures Embeds(a, a[j := Group(a[j].name, c)])
  {
    EmbedsReflexive(a);
  }

  /** A group found in `a` is the first group of that name in any tree `a` embeds in. */
  lemma FindGroupEmbeds(a: seq<Node>, b: seq<Node>, name: string)
    requires Embeds(a, b)
    requires FindGroup(a, name).Some?
    ensures FindGroup(b, name) == FindGroup(a, name)
  {
    var j := FindGroup(a, name).value;
    assert IsGroupNamed(b[j], name);
    var k := FindGroup(b, name).value;
    if k < j {
      assert !IsGroupNamed(a[k], name);
      assert IsGroupNamed(b[k], name);
      match a[k]
      case Leaf(p) =>
      case Group(n, c) =>
    }
  }

  lemma LeafEmbeds(a: seq<Node>, b: seq<Node>, p: string)
    requires Embeds(a, b) && Leaf(p) in a
    ensures Leaf(p) in b
  {
    var i :| 0 <= i < |a| && a[i] == Leaf(p);
    assert b[i] == Leaf(p);
  }
}
