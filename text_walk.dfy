/** getTextNodesBetween of addon/edit-content.js: the non-blank text nodes a
    depth-first walk meets after the start node and before the end node. */
module EditContent {

  /** A DOM node: an element (or any other node with child nodes) or a text
      node (`nodeType == 3`).  `key` stands for the node's identity. */
  datatype Dom = Element(key: int, children: seq<Dom>) | Text(key: int, value: string)

  /** A character the JavaScript class `\s` matches. */
  predicate IsJsSpace(c: char) {
    c in {' ', '\t', '\n', '\U{B}', '\U{C}', '\r', '\U{A0}', '\U{1680}', '\U{2028}', '\U{2029}',
          '\U{202F}', '\U{205F}', '\U{3000}', '\U{FEFF}'} ||
    ('\U{2000}' <= c <= '\U{200A}')
  }

  /** The text is empty or made only of `\s` characters. */
  predicate Blank(s: string) {
    forall i :: 0 <= i < |s| ==> IsJsSpace(s[i])
  }

  /** The three variables the walk's closure updates. */
  datatype WalkState = WalkState(pastStartNode: bool, reachedEndNode: bool, textNodes: seq<Dom>)

  const Initial: WalkState := WalkState(false, false, [])

  /** What `getTextNodes(node)` does to the walk state. */
  ghost function Step(n: Dom, s: WalkState, start: int, end: int): WalkState
    decreases n
  {
    if n.key == start then s.(pastStartNode := true)
    else if n.key == end then s.(reachedEndNode := true)
    else match n
      case Text(_, v) =>
        if s.pastStartNode && !s.reachedEndNode && !Blank(v) then s.(textNodes := s.textNodes + [n]) else s
      case Element(_, cs) => StepAll(cs, s, start, end)
  }

  /** The loop over the child nodes, which stops once the end is reached. */
  ghost function StepAll(cs: seq<Dom>, s: WalkState, start: int, end: int): WalkState
    decreases cs
  {
    if cs == [] || s.reachedEndNode then s
    else StepAll(cs[1..], Step(cs[0], s, start, end), start, end)
  }

  /** The result of `getTextNodesBetween(root, start, end)`. */
  ghost function TextNodesBetween(root: Dom, start: int, end: int): seq<Dom> {
    if start != end then Step(root, Initial, start, end).textNodes else []
  }

  /** The closure of getTextNodesBetween as an object over its three
      variables. */
  class TextNodeWalk {
    const startNode: int
    const endNode: int
    var pastStartNode: bool
    var reachedEndNode: bool
    var textNodes: seq<Dom>

    function State(): WalkState
      reads this
    {
      WalkState(pastStartNode, reachedEndNode, textNodes)
    }

    constructor (startNode: int, endNode: int)
      ensures this.startNode == startNode && this.endNode == endNode
      ensures State() == Initial
    {
      this.startNode := startNode;
      this.endNode := endNode;
      pastStartNode := false;
      reachedEndNode := false;
      textNodes := [];
    }

    /** getTextNodes: mark the start, mark the end, collect a text node, or
        visit the children in order while the end is not reached. */
    method GetTextNodes(node: Dom)
      modifies this
      ensures State() == Step(node, old(State()), startNode, endNode)
      decreases node
    {
      if node.key == startNode {
        pastStartNode := true;
      } else if node.key == endNode {
        reachedEndNode := true;
      } else if node.Text? {
        if pastStartNode && !reachedEndNode && !Blank(node.value) {
          textNodes := textNodes + [node];
        }
      } else {
        var cs := node.children;
        var i := 0;
        while !reachedEndNode && i < |cs|
          invariant 0 <= i <= |cs|
          invariant StepAll(cs[i..], State(), startNode, endNode) == StepAll(cs, old(State()), startNode, endNode)
          decreases |cs| - i
        {
          assert cs[i..][1..] == cs[i + 1..];
          GetTextNodes(cs[i]);
          i := i + 1;
        }
      }
    }
  }

  /** getTextNodesBetween: nothing when the start is the end, otherwise
      the nodes the walk from the root collects. */
  method GetTextNodesBetween(root: Dom, startNode: int, endNode: int) returns (textNodes: seq<Dom>)
    ensures textNodes == TextNodesBetween(root, startNode, endNode)
    ensures forall x :: x in textNodes ==> x.Text? && !Blank(x.value) && x.key != startNode && x.key != endNode
  {
    textNodes := [];
    if startNode != endNode {
      var walk := new TextNodeWalk(startNode, endNode);
      walk.GetTextNodes(root);
      textNodes := walk.textNodes;
    }
    forall x | x in textNodes
      ensures x.Text? && !Blank(x.value) && x.key != startNode && x.key != endNode
    {
      TextNodesBetweenAreText(root, startNode, endNode, x);
    }
  }

  /** The nodes the walk visits, in the order it visits them: the pre-order
      of the tree, not descending below the start or the end node. */
  function Visited(n: Dom, start: int, end: int): (xs: seq<Dom>)
    ensures |xs| > 0 && xs[0] == n
    decreases n
  {
    if n.key == start || n.key == end then [n]
    else match n
      case Text(_, _) => [n]
      case Element(_, cs) => [n] + VisitedAll(cs, start, end)
  }

  function VisitedAll(cs: seq<Dom>, start: int, end: int): seq<Dom>
    decreases cs
  {
    if cs == [] then [] else Visited(cs[0], start, end) + VisitedAll(cs[1..], start, end)
  }

  /** One visited node, without its children. */
  function ScanOne(x: Dom, s: WalkState, start: int, end: int): WalkState {
    if x.key == start then s.(pastStartNode := true)
    else if x.key == end then s.(reachedEndNode := true)
    else if x.Text? && s.pastStartNode && !s.reachedEndNode && !Blank(x.value) then
      s.(textNodes := s.textNodes + [x])
    else s
  }

  /** The flat scan of a visiting order, stopping at the end node. */
  function Scan(xs: seq<Dom>, s: WalkState, start: int, end: int): WalkState
    decreases xs
  {
    if xs == [] || s.reachedEndNode then s
    else Scan(xs[1..], ScanOne(xs[0], s, start, end), start, end)
  }

  lemma {:induction false} ScanAppend(a: seq<Dom>, b: seq<Dom>, s: WalkState, start: int, end: int)
    ensures Scan(a + b, s, start, end) == Scan(b, Scan(a, s, start, end), start, end)
    decreases a
  {
    if a == [] {
      assert a + b == b;
    } else if s.reachedEndNode {
      assert Scan(b, s, start, end) == s by {
        if b != [] {
        }
      }
    } else {
      assert (a + b)[1..] == a[1..] + b;
      ScanAppend(a[1..], b, ScanOne(a[0], s, start, end), start, end);
    }
  }

  lemma ScanReached(xs: seq<Dom>, s: WalkState, start: int, end: int)
    requires s.reachedEndNode
    ensures Scan(xs, s, start, end) == s
  {
  }

  /** The recursive walk is the flat scan of its visiting order. */
  lemma {:induction false} StepIsScan(n: Dom, s: WalkState, start: int, end: int)
    requires !s.reachedEndNode
    ensures Step(n, s, start, end) == Scan(Visited(n, start, end), s, start, end)
    decreases n
  {
    if n.key == start || n.key == end || n.Text? {
      assert [n][1..] == [];
    } else {
      StepAllIsScan(n.children, s, start, end);
      ScanAppend([n], VisitedAll(n.children, start, end), s, start, end);
    }
  }

  lemma {:induction false} StepAllIsScan(cs: seq<Dom>, s: WalkState, start: int, end: int)
    ensures StepAll(cs, s, start, end) == Scan(VisitedAll(cs, start, end), s, start, end)
    decreases cs
  {
    if cs == [] {
    } else if s.reachedEndNode {
      ScanReached(VisitedAll(cs, start, end), s, start, end);
    } else {
      StepIsScan(cs[0], s, start, end);
      StepAllIsScan(cs[1..], Step(cs[0], s, start, end), start, end);
      ScanAppend(Visited(cs[0], start, end), VisitedAll(cs[1..], start, end), s, start, end);
    }
  }

  /** Position `i` of the visiting order is collected by a scan entered with
      `past` as the pastStartNode flag: a non-blank text node, neither the
      start nor the end, with the start (or `past`) before it and no end
      node before it. */
  ghost predicate PickedAt(xs: seq<Dom>, i: int, past: bool, start: int, end: int) {
    && 0 <= i < |xs|
    && xs[i].Text? && !Blank(xs[i].value)
    && xs[i].key != start && xs[i].key != end
    && (past || exists j :: 0 <= j < i && xs[j].key == start)
    && (forall j :: 0 <= j < i ==> xs[j].key != end)
  }

  lemma PickedShift(xs: seq<Dom>, i: int, s: WalkState, start: int, end: int)
    requires start != end && xs != [] && !s.reachedEndNode && 1 <= i
    requires !ScanOne(xs[0], s, start, end).reachedEndNode
    ensures PickedAt(xs, i, s.pastStartNode, start, end) <==>
      PickedAt(xs[1..], i - 1, ScanOne(xs[0], s, start, end).pastStartNode, start, end)
  {
    var past1 := ScanOne(xs[0], s, start, end).pastStartNode;
    if PickedAt(xs, i, s.pastStartNode, start, end) && !past1 {
      var j :| 0 <= j < i && xs[j].key == start;
      assert xs[1..][j - 1] == xs[j];
    }
    if PickedAt(xs[1..], i - 1, past1, start, end) {
      if !s.pastStartNode && !past1 {
        var j :| 0 <= j < i - 1 && xs[1..][j].key == start;
        assert xs[j + 1].key == start;
      }
      forall j | 0 <= j < i ensures xs[j].key != end {
        if j > 0 {
          assert xs[j] == xs[1..][j - 1];
        }
      }
    }
  }

  /** A scan collects exactly the positions PickedAt names, after what it
      had collected before, unless it starts past the end. */
  lemma {:induction false} ScanMembers(xs: seq<Dom>, s: WalkState, start: int, end: int, x: Dom)
    requires start != end
    ensures x in Scan(xs, s, start, end).textNodes <==>
      x in s.textNodes ||
      (!s.reachedEndNode && exists i :: PickedAt(xs, i, s.pastStartNode, start, end) && xs[i] == x)
    decreases xs
  {
    if xs == [] || s.reachedEndNode {
    } else {
      var s1 := ScanOne(xs[0], s, start, end);
      ScanMembers(xs[1..], s1, start, end, x);
      if s1.reachedEndNode {
        ScanReached(xs[1..], s1, start, end);
        assert xs[0].key == end;
        forall i | 0 < i < |xs| ensures !PickedAt(xs, i, s.pastStartNode, start, end) {
          assert xs[0].key == end;
        }
      } else {
        forall i | 1 <= i < |xs|
          ensures PickedAt(xs, i, s.pastStartNode, start, end) <==> PickedAt(xs[1..], i - 1, s1.pastStartNode, start, end)
        {
          PickedShift(xs, i, s, start, end);
        }
        if exists i :: PickedAt(xs, i, s.pastStartNode, start, end) && xs[i] == x {
          var i :| PickedAt(xs, i, s.pastStartNode, start, end) && xs[i] == x;
          if i > 0 {
            assert PickedAt(xs[1..], i - 1, s1.pastStartNode, start, end) && xs[1..][i - 1] == x;
          }
        }
        if exists i :: PickedAt(xs[1..], i, s1.pastStartNode, start, end) && xs[1..][i] == x {
          var i :| PickedAt(xs[1..], i, s1.pastStartNode, start, end) && xs[1..][i] == x;
          assert PickedAt(xs, i + 1, s.pastStartNode, start, end) && xs[i + 1] == x;
        }
      }
    }
  }

  /** `a` is `b` with some elements left out, order kept. */
  predicate IsSubsequence(a: seq<Dom>, b: seq<Dom>)
    decreases |b|
  {
    if a == [] then true
    else if b == [] then false
    else (a[0] == b[0] && IsSubsequence(a[1..], b[1..])) || IsSubsequence(a, b[1..])
  }

  lemma {:induction false} EmptySubsequence(b: seq<Dom>)
    ensures IsSubsequence([], b)
  {
  }

  /** A scan appends, in visiting order, some of the nodes it scans. */
  lemma {:induction false} ScanInOrder(xs: seq<Dom>, s: WalkState, start: int, end: int)
    ensures s.textNodes <= Scan(xs, s, start, end).textNodes
    ensures IsSubsequence(Scan(xs, s, start, end).textNodes[|s.textNodes|..], xs)
    decreases xs
  {
    var r := Scan(xs, s, start, end).textNodes;
    if xs == [] || s.reachedEndNode {
      assert r[|s.textNodes|..] == [];
    } else {
      var s1 := ScanOne(xs[0], s, start, end);
      ScanInOrder(xs[1..], s1, start, end);
      var d := r[|s1.textNodes|..];
      if |s1.textNodes| == |s.textNodes| + 1 {
        assert s1.textNodes == s.textNodes + [xs[0]];
        assert r[|s.textNodes|..] == [xs[0]] + d;
        assert ([xs[0]] + d)[1..] == d;
      } else {
        assert s1.textNodes == s.textNodes;
      }
    }
  }

  /** Every returned node is a non-blank text node other than the start
      and the end; it is visited after the start node and before any end
      node; and every such node is returned. */
  lemma TextNodesBetweenMembers(root: Dom, start: int, end: int, x: Dom)
    requires start != end
    ensures x in TextNodesBetween(root, start, end) <==>
      exists i :: PickedAt(Visited(root, start, end), i, false, start, end) && Visited(root, start, end)[i] == x
  {
    StepIsScan(root, Initial, start, end);
    ScanMembers(Visited(root, start, end), Initial, start, end, x);
  }

  /** The returned nodes are in document order. */
  lemma TextNodesBetweenInOrder(root: Dom, start: int, end: int)
    ensures IsSubsequence(TextNodesBetween(root, start, end), Visited(root, start, end))
  {
    if start != end {
      StepIsScan(root, Initial, start, end);
      ScanInOrder(Visited(root, start, end), Initial, start, end);
      assert TextNodesBetween(root, start, end)[0..] == TextNodesBetween(root, start, end);
    } else {
      EmptySubsequence(Visited(root, start, end));
    }
  }

  /** Nothing is returned when the start is the end, or when every visit of
      the start comes after an end node (or the start is never visited). */
  lemma TextNodesBetweenEmpty(root: Dom, start: int, end: int)
    requires start == end ||
      forall j :: 0 <= j < |Visited(root, start, end)| && Visited(root, start, end)[j].key == start ==>
        exists k :: 0 <= k < j && Visited(root, start, end)[k].key == end
    ensures TextNodesBetween(root, start, end) == []
  {
    if start != end {
      var xs := Visited(root, start, end);
      var r := TextNodesBetween(root, start, end);
      if r != [] {
        TextNodesBetweenMembers(root, start, end, r[0]);
        assert false;
      }
    }
  }

  /** Every returned node is a non-blank text node and neither endpoint. */
  lemma TextNodesBetweenAreText(root: Dom, start: int, end: int, x: Dom)
    requires x in TextNodesBetween(root, start, end)
    ensures x.Text? && !Blank(x.value) && x.key != start && x.key != end
  {
    TextNodesBetweenMembers(root, start, end, x);
  }
}
