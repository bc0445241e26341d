/** The tree shape of the `nodes` table: a node's parent is the node whose id
    is its `parentId`.  Descendants are defined by upward paths, so a node
    whose parent row was deleted still has that (missing) id as an
    ancestor, exactly as a `parent_id` lookup would find it. */
module Ancestry {
  import opened Records

  /** `p` walks upward: every step but the last is a stored node whose
      parent is the next step.  The last step need not be stored. */
  ghost predicate IsUpPath(nodes: map<int, Node>, p: seq<int>) {
    |p| >= 2 &&
    forall i :: 0 <= i < |p| - 1 ==> p[i] in nodes && nodes[p[i]].parentId == Some(p[i + 1])
  }

  /** `x` is a strict (transitive) descendant of `a`. */
  ghost predicate IsDescendant(nodes: map<int, Node>, x: int, a: int) {
    exists p :: IsUpPath(nodes, p) && p[0] == x && p[|p| - 1] == a
  }

  /** The ids of all strict descendants of `a`. */
  ghost function Descendants(nodes: map<int, Node>, a: int): (d: set<int>)
    ensures d <= nodes.Keys
  {
    set x | x in nodes && IsDescendant(nodes, x, a)
  }

  /** No node below `a` lies on a cycle, so a descent from `a` through the
      children ends.  If `a` itself lies on a cycle it is among its own
      descendants, so that is excluded too. */
  ghost predicate AcyclicBelow(nodes: map<int, Node>, a: int) {
    forall x :: x in Descendants(nodes, a) ==> !IsDescendant(nodes, x, x)
  }

  predicate IsChildOf(nodes: map<int, Node>, c: int, a: int) {
    c in nodes && nodes[c].parentId == Some(a)
  }

  lemma ChildIsDescendant(nodes: map<int, Node>, c: int, a: int)
    requires IsChildOf(nodes, c, a)
    ensures IsDescendant(nodes, c, a)
  {
    assert IsUpPath(nodes, [c, a]);
  }

  /** A descendant of a child is a descendant of the parent. */
  lemma {:induction false} DescendantOfChild(nodes: map<int, Node>, x: int, c: int, a: int)
    requires IsChildOf(nodes, c, a) && IsDescendant(nodes, x, c)
    ensures IsDescendant(nodes, x, a)
  {
    var p :| IsUpPath(nodes, p) && p[0] == x && p[|p| - 1] == c;
    var q := p + [a];
    assert IsUpPath(nodes, q) && q[0] == x && q[|q| - 1] == a;
  }

  /** A strict descendant of `a` is a child of `a` or a descendant of one. */
  lemma {:induction false} DescendantSplit(nodes: map<int, Node>, x: int, a: int) returns (c: int)
    requires IsDescendant(nodes, x, a)
    ensures IsChildOf(nodes, c, a)
    ensures x == c || IsDescendant(nodes, x, c)
  {
    var p :| IsUpPath(nodes, p) && p[0] == x && p[|p| - 1] == a;
    c := p[|p| - 2];
    if |p| > 2 {
      var q := p[..|p| - 1];
      assert IsUpPath(nodes, q) && q[0] == x && q[|q| - 1] == c;
    }
  }

  /** Descendants are closed under taking descendants. */
  lemma {:induction false} DescendantTransitive(nodes: map<int, Node>, x: int, y: int, z: int)
    requires IsDescendant(nodes, x, y) && IsDescendant(nodes, y, z)
    ensures IsDescendant(nodes, x, z)
  {
    var p :| IsUpPath(nodes, p) && p[0] == x && p[|p| - 1] == y;
    var q :| IsUpPath(nodes, q) && q[0] == y && q[|q| - 1] == z;
    var r := p + q[1..];
    forall i | 0 <= i < |r| - 1
      ensures r[i] in nodes && nodes[r[i]].parentId == Some(r[i + 1])
    {
      if i < |p| - 1 {
        assert r[i] == p[i] && r[i + 1] == p[i + 1];
      } else {
        assert r[i] == q[i - |p| + 1] && r[i + 1] == q[i - |p| + 2];
      }
    }
    assert IsUpPath(nodes, r) && r[0] == x && r[|r| - 1] == z;
  }

  lemma SubsetCard(a: set<int>, b: set<int>)
    requires a <= b
    ensures |a| <= |b|
  {
    var rest := b - a;
    assert b == a + rest;
    assert a * rest == {};
  }

  /** Below an acyclic node a child has strictly fewer descendants than
      its parent, and is acyclic below itself: the measure that makes the
      recursive descent terminate. */
  lemma ChildHasFewerDescendants(nodes: map<int, Node>, c: int, a: int)
    requires AcyclicBelow(nodes, a) && IsChildOf(nodes, c, a)
    ensures Descendants(nodes, c) <= Descendants(nodes, a)
    ensures |Descendants(nodes, c)| < |Descendants(nodes, a)|
    ensures AcyclicBelow(nodes, c)
  {
    var dc, da := Descendants(nodes, c), Descendants(nodes, a);
    forall x | x in dc ensures x in da - {c} {
      DescendantOfChild(nodes, x, c, a);
    }
    ChildIsDescendant(nodes, c, a);
    SubsetCard(dc, da - {c});
  }

  /** The descendants of `a` are its children together with their
      descendants. */
  lemma DescendantsUnfold(nodes: map<int, Node>, a: int, x: int)
    ensures x in Descendants(nodes, a) <==>
      IsChildOf(nodes, x, a) || exists c :: IsChildOf(nodes, c, a) && x in Descendants(nodes, c)
  {
    if x in Descendants(nodes, a) {
      var c := DescendantSplit(nodes, x, a);
      if x != c {
        assert x in Descendants(nodes, c);
      }
    }
    if IsChildOf(nodes, x, a) {
      ChildIsDescendant(nodes, x, a);
    }
    if c :| IsChildOf(nodes, c, a) && x in Descendants(nodes, c) {
      DescendantOfChild(nodes, x, c, a);
    }
  }

  /** The union of the descendant sets of a list of child ids. */
  ghost function UnionOfDescendants(nodes: map<int, Node>, cs: seq<int>): (u: set<int>)
    ensures forall x :: x in u <==> exists j :: 0 <= j < |cs| && x in Descendants(nodes, cs[j])
  {
    if cs == [] then {}
    else
      var u := UnionOfDescendants(nodes, cs[..|cs| - 1]) + Descendants(nodes, cs[|cs| - 1]);
      assert forall j :: 0 <= j < |cs| - 1 ==> cs[..|cs| - 1][j] == cs[j];
      u
  }

  lemma UnionStep(nodes: map<int, Node>, cs: seq<int>, i: int)
    requires 0 <= i < |cs|
    ensures UnionOfDescendants(nodes, cs[..i + 1]) ==
      UnionOfDescendants(nodes, cs[..i]) + Descendants(nodes, cs[i])
  {
    assert cs[..i + 1][..i] == cs[..i];
  }

  /** The ids of a list, as a set. */
  function IdSet(ids: seq<int>): (s: set<int>)
    ensures forall k :: k in s <==> k in ids
  {
    set k | k in ids
  }

  lemma IdSetStep(ids: seq<int>, j: int)
    requires 0 <= j < |ids|
    ensures IdSet(ids[..j + 1]) == IdSet(ids[..j]) + {ids[j]}
  {
    assert ids[..j + 1] == ids[..j] + [ids[j]];
  }

  /** The ids a subtree query resolves to: every input id and every strict
      descendant of one. */
  ghost function SubtreeIds(nodes: map<int, Node>, ids: seq<int>): (s: set<int>)
    ensures forall x :: x in s <==> x in ids || exists j :: 0 <= j < |ids| && x in Descendants(nodes, ids[j])
  {
    IdSet(ids) + UnionOfDescendants(nodes, ids)
  }

  /** One more root adds itself and its descendants. */
  lemma SubtreeStep(nodes: map<int, Node>, ids: seq<int>, j: int)
    requires 0 <= j < |ids|
    ensures SubtreeIds(nodes, ids[..j + 1]) == SubtreeIds(nodes, ids[..j]) + {ids[j]} + Descendants(nodes, ids[j])
  {
    IdSetStep(ids, j);
    UnionStep(nodes, ids, j);
  }

  /** Removing rows never creates an ancestry that was not there before. */
  lemma {:induction false} DescendantInSubmap(small: map<int, Node>, big: map<int, Node>, x: int, a: int)
    requires small.Keys <= big.Keys
    requires forall k :: k in small ==> big[k] == small[k]
    requires IsDescendant(small, x, a)
    ensures IsDescendant(big, x, a)
  {
    var p :| IsUpPath(small, p) && p[0] == x && p[|p| - 1] == a;
    forall i | 0 <= i < |p| - 1
      ensures p[i] in big && big[p[i]].parentId == Some(p[i + 1])
    {
      var k := p[i];
      assert k in small && small[k].parentId == Some(p[i + 1]);
      assert big[k] == small[k];
    }
    assert IsUpPath(big, p);
  }
}
