/** The `Storage` class of addon/db.js over its three tables.  Each
    asynchronous method is one sequential step; the clock (`new Date()`)
    and the uuid generator (`UUID.numeric()`) are parameters, and so are
    the regular-expression test and `toLocaleUpperCase`. */
module Db {
  import opened Records
  import opened Ancestry
  import opened Rows
  import opened Updates
  import opened Queries

  /** The row `db.on('populate')` writes into a new database: the default
      shelf, with the reserved uuid "1". */
  function DefaultShelf(now: int): (n: Node)
    ensures n.nodeType == Shelf && n.parentId.None? && n.pos == 1 && n.uuid == "1"
  {
    Node(1, "1", None, Shelf, DefaultShelfName, NoUri, None, 1, None, now, None, None, None, None)
  }

  /** `queryShelf` returns all shelves without a name, the first match with one. */
  datatype ShelfLookup = AllShelves(shelves: seq<Node>) | FirstShelf(shelf: Option<Node>)

  /** One round of _selectAllChildrenOf: add the id of every child row to the set. */
  method AddIds(children: set<int>, rows: seq<Node>) returns (r: set<int>)
    ensures r == children + IdSet(IdsOf(rows))
  {
    ghost var ids := IdsOf(rows);
    r := children;
    for j := 0 to |rows|
      invariant r == children + IdSet(ids[..j])
    {
      r := r + {rows[j].id};
      IdSetStep(ids, j);
    }
    assert ids[..|rows|] == ids;
  }

  /** The ids of the rows `where("parent_id").equals(a)` returns are
      exactly the children of `a`. */
  lemma ChildIdsExact(nodes: map<int, Node>, a: int, children: seq<Node>, childIds: seq<int>)
    requires forall k :: k in nodes ==> nodes[k].id == k
    requires forall n :: n in children <==> n.id in nodes && nodes[n.id] == n && n.parentId == Some(a)
    requires childIds == IdsOf(children)
    ensures forall c :: c in childIds <==> IsChildOf(nodes, c, a)
    ensures IdSet(childIds) <= Descendants(nodes, a)
  {
    forall c ensures c in childIds <==> IsChildOf(nodes, c, a) {
      if IsChildOf(nodes, c, a) {
        assert nodes[c] in children;
        var i :| 0 <= i < |children| && children[i] == nodes[c];
        assert childIds[i] == c;
      }
    }
    forall c | c in IdSet(childIds) ensures c in Descendants(nodes, a) {
      ChildIsDescendant(nodes, c, a);
    }
  }

  /** What the first `i` rounds of `_selectAllChildrenOf`'s loop over the
      child ids `cs` have added: all of `cs` (each round adds them all) and
      the descendants of the first `i` children. */
  ghost function Reached(nodes: map<int, Node>, cs: seq<int>, i: nat): set<int>
    requires i <= |cs|
  {
    (if i > 0 then IdSet(cs) else {}) + UnionOfDescendants(nodes, cs[..i])
  }

  lemma ReachedNone(nodes: map<int, Node>, cs: seq<int>)
    ensures Reached(nodes, cs, 0) == {}
  {
    assert cs[..0] == [];
  }

  lemma ReachedStep(nodes: map<int, Node>, cs: seq<int>, i: nat,
                    base: set<int>, before: set<int>, added: set<int>, after: set<int>)
    requires i < |cs|
    requires before == base + Reached(nodes, cs, i)
    requires added == before + IdSet(cs)
    requires after == added + Descendants(nodes, cs[i])
    ensures after == base + Reached(nodes, cs, i + 1)
  {
    UnionStep(nodes, cs, i);
  }

  lemma ReachedAll(nodes: map<int, Node>, a: int, cs: seq<int>, base: set<int>, r: set<int>)
    requires forall c :: c in cs <==> IsChildOf(nodes, c, a)
    requires r == base + Reached(nodes, cs, |cs|)
    ensures r == base + Descendants(nodes, a)
  {
    assert cs[..|cs|] == cs;
    forall x ensures x in Descendants(nodes, a) <==> x in Reached(nodes, cs, |cs|) {
      DescendantsUnfold(nodes, a, x);
      if c :| IsChildOf(nodes, c, a) && x in Descendants(nodes, c) {
        var j :| 0 <= j < |cs| && cs[j] == c;
      }
    }
  }

  /** The argument of deleteNodes and queryFullSubtree: one id, or an
      array of ids. */
  datatype IdsArg = OneId(id: int) | IdList(ids: seq<int>)

  /** The normalisation queryFullSubtree performs, and deleteNodes is
      evidently meant to: a single id becomes a one-element list, a list
      stays as it is. */
  function AsIdList(arg: IdsArg): (ids: seq<int>)
    ensures arg.OneId? ==> ids == [arg.id]
    ensures arg.IdList? ==> ids == arg.ids
  {
    match arg
    case OneId(id) => [id]
    case IdList(ids) => ids
  }

  /** deleteNodes's normalisation as written: its guard negates the
      function `Array.isArray` itself, not a call of it; a function is
      truthy, so the guard never holds and a single id stays unwrapped. */
  function DeleteArgAsWritten(arg: IdsArg): (r: IdsArg)
    ensures r.OneId? <==> arg.OneId?
  {
    var isArrayIsAFunction := true;
    if !isArrayIsAFunction then IdList(AsIdList(arg)) else arg
  }

  /** A single id handed to deleteNodes reaches the table operations as a
      bare number, where the intended normalisation gives a list. */
  lemma SingleIdNotWrapped()
    ensures DeleteArgAsWritten(OneId(7)) == OneId(7)
    ensures AsIdList(OneId(7)) == [7]
  {
  }

  /** The key order after `bulkDelete`: the surviving keys, in order. */
  function WithoutIds(ids: seq<int>, gone: set<int>): (r: seq<int>)
    ensures forall k :: k in r <==> k in ids && k !in gone
    ensures IncreasingInts(ids) ==> IncreasingInts(r)
  {
    if ids == [] then []
    else
      var tail := WithoutIds(ids[1..], gone);
      if ids[0] in gone then tail
      else
        assert forall j :: 0 <= j < |tail| ==> tail[j] in ids[1..];
        [ids[0]] + tail
  }

  function FirstWithUuid(rows: seq<Node>, u: string): (r: Option<Node>)
    ensures r.Some? ==> r.value in rows && r.value.uuid == u
    ensures r.None? ==> forall n :: n in rows ==> n.uuid != u
  {
    if rows == [] then None
    else if rows[0].uuid == u then Some(rows[0])
    else FirstWithUuid(rows[1..], u)
  }

  /** What the three tables and their key generators always satisfy: `nodes`
      is keyed by `id` below the generator, uuids are unique (the `&uuid`
      index), and every blob and index entry belongs to a stored node, at
      most one per node (the `&node_id` indexes). */
  ghost predicate TableValid(nodes: map<int, Node>, nodeIds: seq<int>, nextNodeId: int,
                             blobs: map<int, Blob>, nextBlobId: int, index: map<int, IndexEntry>)
  {
    && TableShape(nodes, nodeIds)
    && 0 < nextNodeId && 0 < nextBlobId
    && (forall k :: k in nodes ==> k < nextNodeId)
    && UuidsUnique(nodes)
    && (forall k :: k in blobs ==> blobs[k].nodeId == k && k in nodes && 0 < blobs[k].id < nextBlobId)
    && (forall a, b :: a in blobs && b in blobs && a != b ==> blobs[a].id != blobs[b].id)
    && (forall k :: k in index ==> index[k].nodeId == k && k in nodes)
  }

  /** Two versions of the node table with the same keys, each record
      still carrying its own key. */
  ghost predicate SameKeys(before: map<int, Node>, after: map<int, Node>) {
    && after.Keys == before.Keys
    && forall k :: k in before ==> after[k].id == before[k].id
  }

  lemma KeysKeepValid(before: map<int, Node>, after: map<int, Node>, nodeIds: seq<int>, nextNodeId: int,
                      blobs: map<int, Blob>, nextBlobId: int, index: map<int, IndexEntry>)
    requires TableValid(before, nodeIds, nextNodeId, blobs, nextBlobId, index)
    requires SameKeys(before, after) && UuidsUnique(after)
    ensures TableValid(after, nodeIds, nextNodeId, blobs, nextBlobId, index)
  {
  }

  lemma ApplyPatchKeepsKeys(before: map<int, Node>, m: map<int, Node>, p: Patch)
    requires p.id.Some? && SameKeys(before, m)
    ensures SameKeys(before, ApplyPatch(m, p))
  {
  }

  /** Storing a record under a new key keeps the table and its key list in
      step. */
  lemma InsertKeepsShape(nodes: map<int, Node>, ids: seq<int>, n: Node)
    requires TableShape(nodes, ids) && n.id !in nodes
    ensures n.id !in ids
    ensures TableShape(nodes[n.id := n], InsertKey(ids, n.id))
  {
    var r := InsertKey(ids, n.id);
    forall i | 0 <= i < |r| ensures r[i] in nodes[n.id := n] {
      assert r[i] in r;
    }
  }

  /** The key order after `add` stores a new key. */
  function InsertKey(ids: seq<int>, k: int): (r: seq<int>)
    requires IncreasingInts(ids) && k !in ids
    ensures forall x :: x in r <==> x in ids || x == k
    ensures IncreasingInts(r)
  {
    if ids == [] then [k]
    else if k < ids[0] then [k] + ids
    else
      var tail := InsertKey(ids[1..], k);
      assert forall j :: 0 <= j < |tail| ==> ids[0] < tail[j] by {
        forall j | 0 <= j < |tail| ensures ids[0] < tail[j] {
          assert tail[j] in tail;
        }
      }
      [ids[0]] + tail
  }

  /** Filtering the key list and the table by the same set keeps them in step. */
  lemma WithoutKeepsShape(nodes: map<int, Node>, ids: seq<int>, gone: set<int>)
    requires TableShape(nodes, ids)
    ensures TableShape(nodes - gone, WithoutIds(ids, gone))
  {
    var r := WithoutIds(ids, gone);
    forall i | 0 <= i < |r| ensures r[i] in nodes - gone {
      assert r[i] in r;
    }
  }

  class Storage {
    /** The `nodes` table by primary key, and its keys in ascending order. */
    var nodes: map<int, Node>
    var nodeIds: seq<int>
    /** The `++id` key generator of `nodes`. */
    var nextNodeId: int
    /** The `blobs` table, reached through its unique `node_id` index. */
    var blobs: map<int, Blob>
    var nextBlobId: int
    /** The `index` table, reached through its unique `node_id` index. */
    var index: map<int, IndexEntry>

    ghost predicate Valid()
      reads this
    {
      TableValid(nodes, nodeIds, nextNodeId, blobs, nextBlobId, index)
    }

    /** A new database after its `populate` event. */
    constructor (now: int)
      ensures Valid()
      ensures nodes == map[1 := DefaultShelf(now)] && nodeIds == [1]
      ensures blobs == map[] && index == map[]
    {
      nodes := map[1 := DefaultShelf(now)];
      nodeIds := [1];
      nextNodeId := 2;
      blobs := map[];
      nextBlobId := 1;
      index := map[];
    }

    /** The node table read in primary-key order. */
    function Rows(): (r: seq<Node>)
      reads this
      requires TableShape(nodes, nodeIds)
      ensures IncreasingIds(r)
      ensures forall n :: n in r <==> n.id in nodes && nodes[n.id] == n
    {
      RowsOfShape(nodes, nodeIds);
      RowsOf(nodes, nodeIds)
    }

    /** Some stored record carries the uuid: the `&uuid` index rejects it. */
    predicate UuidTaken(u: string)
      reads this
    {
      exists k :: k in nodes && nodes[k].uuid == u
    }

    /** addNode: with `resetOrder` the datum's pos and todo_pos become 1;
        it gets the given fresh uuid and the current time as date_added.
        `add` then stores it under its own `id` when it carries one
        (`hasId`; otherwise `datum.id` is not read) and under the next
        generated key when it does not; a stored key at or above the
        generator moves the generator past it.  The primary key and the
        `&uuid` index reject an id or a uuid already in use.  `written` is
        the caller's datum after the call, changed even when `add` rejects
        it. */
    method AddNode(datum: Node, hasId: bool, resetOrder: bool, uuid: string, now: int)
      returns (written: Node, r: Result<Node>)
      requires Valid()
      modifies this
      ensures Valid()
      ensures blobs == old(blobs) && index == old(index) && nextBlobId == old(nextBlobId)
      ensures written.uuid == uuid && written.dateAdded == now
      ensures resetOrder ==> written.pos == 1 && written.todoPos == Some(1)
      ensures !resetOrder ==> written.pos == datum.pos && written.todoPos == datum.todoPos
      ensures written.(id := datum.id, uuid := datum.uuid, dateAdded := datum.dateAdded,
                       pos := datum.pos, todoPos := datum.todoPos) == datum
      ensures old(UuidTaken(uuid)) || (hasId && datum.id in old(nodes)) ==>
        && r == Err(ConstraintError) && written.id == datum.id
        && nodes == old(nodes) && nodeIds == old(nodeIds) && nextNodeId == old(nextNodeId)
      ensures !old(UuidTaken(uuid)) && !(hasId && datum.id in old(nodes)) ==>
        && r == Ok(written)
        && written.id == (if hasId then datum.id else old(nextNodeId))
        && written.id !in old(nodes)
        && nodes == old(nodes)[written.id := written]
        && nodeIds == InsertKey(old(nodeIds), written.id)
        && nextNodeId == (if written.id < old(nextNodeId) then old(nextNodeId) else written.id + 1)
    {
      written := datum;
      if resetOrder {
        written := written.(pos := 1, todoPos := Some(1));
      }
      written := written.(uuid := uuid);
      written := written.(dateAdded := now);
      if UuidTaken(uuid) || (hasId && datum.id in nodes) {
        return written, Err(ConstraintError);
      }
      var key := if hasId then datum.id else nextNodeId;
      written := written.(id := key);
      Store(written);
      r := Ok(written);
    }

    /** The write of `add`: the record under its own key, the key list in
        order, and the key generator moved past a key at or above it. */
    method Store(n: Node)
      requires Valid() && n.id !in nodes && !UuidTaken(n.uuid)
      modifies this
      ensures Valid()
      ensures nodes == old(nodes)[n.id := n] && nodeIds == InsertKey(old(nodeIds), n.id)
      ensures nextNodeId == (if n.id < old(nextNodeId) then old(nextNodeId) else n.id + 1)
      ensures blobs == old(blobs) && index == old(index) && nextBlobId == old(nextBlobId)
    {
      InsertKeepsShape(nodes, nodeIds, n);
      nodes := nodes[n.id := n];
      nodeIds := InsertKey(nodeIds, n.id);
      if nextNodeId <= n.id {
        nextNodeId := n.id + 1;
      }
    }

    /** getNode: the record with that key, if any. */
    function GetNode(id: int): (r: Option<Node>)
      reads this
      requires Valid()
      ensures r.Some? <==> id in nodes
      ensures r.Some? ==> r.value.id == id && r.value == nodes[id]
    {
      if id in nodes then Some(nodes[id]) else None
    }

    /** getNodes: the records whose key is listed, each once, in key order. */
    function GetNodes(ids: seq<int>): (r: seq<Node>)
      reads this
      requires Valid()
      ensures forall n :: n in r <==> n.id in ids && n.id in nodes && nodes[n.id] == n
      ensures IncreasingIds(r)
    {
      WithIdIn(Rows(), IdSet(ids))
    }

    /** getChildNodes: the records whose parent_id is `id`, in key order. */
    function GetChildNodes(id: int): (r: seq<Node>)
      reads this
      requires TableShape(nodes, nodeIds)
      ensures forall n :: n in r <==> n.id in nodes && nodes[n.id] == n && n.parentId == Some(id)
      ensures IncreasingIds(r)
    {
      ChildrenOf(Rows(), id)
    }

    /** updateNode: with a truthy id, stamp date_modified and merge into the
        record with that key (none: nothing changes); without one, do
        nothing.  A merged uuid that another record carries is rejected by
        the `&uuid` index and the table stays as it was.  `written` is the
        caller's object after the call, which is also what a successful
        call returns. */
    method UpdateNode(p: Patch, now: int) returns (written: Patch, r: Result<Patch>)
      requires Valid()
      modifies this
      ensures Valid()
      ensures nodeIds == old(nodeIds) && nextNodeId == old(nextNodeId)
      ensures blobs == old(blobs) && index == old(index) && nextBlobId == old(nextBlobId)
      ensures !HasTruthyId(p) ==> written == p && r == Ok(p) && nodes == old(nodes)
      ensures HasTruthyId(p) ==> written == Stamp(p, now)
      ensures HasTruthyId(p) && Clashes(old(nodes), written) ==> r == Err(ConstraintError) && nodes == old(nodes)
      ensures HasTruthyId(p) && !Clashes(old(nodes), written) ==>
        r == Ok(written) && nodes == ApplyPatch(old(nodes), written)
    {
      written := p;
      r := Ok(p);
      if HasTruthyId(p) {
        written := Stamp(p, now);
        r := Ok(written);
        if Clashes(nodes, written) {
          r := Err(ConstraintError);
          return;
        }
        var id := written.id.value;
        if id in nodes {
          ghost var before := nodes;
          ApplyPatchKeepsUnique(nodes, written);
          ApplyPatchKeepsKeys(nodes, nodes, written);
          nodes := nodes[id := Merge(nodes[id], written)];
          KeysKeepValid(before, nodes, nodeIds, nextNodeId, blobs, nextBlobId, index);
        }
      }
    }

    /** updateNodes: inside one transaction, stamp and merge each entry in
        input order.  An entry without an id is not a valid IndexedDB key
        and an entry whose merged uuid another record carries is rejected
        by the `&uuid` index: either aborts the transaction, and none of the
        batch stays.  A committed batch returns the stamped entries. */
    method UpdateNodes(ps: seq<Patch>, now: int) returns (r: Result<seq<Patch>>)
      requires Valid()
      modifies this
      ensures Valid()
      ensures nodeIds == old(nodeIds) && nextNodeId == old(nextNodeId)
      ensures blobs == old(blobs) && index == old(index) && nextBlobId == old(nextBlobId)
      ensures ApplyChecked(old(nodes), StampAll(ps, now)).Ok? ==>
        r == Ok(StampAll(ps, now)) && nodes == ApplyChecked(old(nodes), StampAll(ps, now)).value
      ensures ApplyChecked(old(nodes), StampAll(ps, now)).Err? ==>
        r == Err(ApplyChecked(old(nodes), StampAll(ps, now)).error) && nodes == old(nodes)
    {
      var before := nodes;
      ghost var all := StampAll(ps, now);
      var stamped: seq<Patch> := [];
      var i := 0;
      while i < |ps|
        invariant 0 <= i <= |ps|
        invariant stamped == all[..i]
        invariant ApplyChecked(before, stamped) == Ok(nodes)
        invariant SameKeys(before, nodes) && UuidsUnique(nodes)
        invariant nodeIds == old(nodeIds) && nextNodeId == old(nextNodeId)
        invariant blobs == old(blobs) && index == old(index) && nextBlobId == old(nextBlobId)
      {
        var n := Stamp(ps[i], now);
        var next := stamped + [n];
        assert next[..|next| - 1] == stamped;
        assert next == all[..i + 1];
        if n.id.None? {
          ApplyCheckedPrefixErr(before, all, i + 1);
          nodes := before;
          return Err(DataError);
        }
        if Clashes(nodes, n) {
          ApplyCheckedPrefixErr(before, all, i + 1);
          nodes := before;
          return Err(ConstraintError);
        }
        ApplyPatchKeepsUnique(nodes, n);
        ApplyPatchKeepsKeys(before, nodes, n);
        nodes := ApplyPatch(nodes, n);
        stamped := next;
        i := i + 1;
      }
      assert all[..i] == all;
      KeysKeepValid(before, nodes, nodeIds, nextNodeId, blobs, nextBlobId, index);
      r := Ok(stamped);
    }

    /** _selectAllChildrenOf(node, children): adds to `children` every strict
        descendant of `node`, reading the children of one node at a time.
        The source has no visited-set guard, so no node below `a` may lie on
        a cycle. */
    method SelectAllChildrenOf(a: int, children: set<int>) returns (r: set<int>)
      requires TableShape(nodes, nodeIds) && AcyclicBelow(nodes, a)
      ensures r == children + Descendants(nodes, a)
      ensures a in r ==> a in children
      decreases |Descendants(nodes, a)|, 1
    {
      var groupChildren := GetChildNodes(a);
      ghost var childIds := IdsOf(groupChildren);
      ChildIdsExact(nodes, a, groupChildren, childIds);
      ReachedNone(nodes, childIds);
      r := children;
      if |groupChildren| > 0 {
        var i := 0;
        while i < |groupChildren|
          invariant 0 <= i <= |groupChildren|
          invariant r == children + Reached(nodes, childIds, i)
        {
          r := VisitChild(a, groupChildren, i, children, r);
          i := i + 1;
        }
      }
      ReachedAll(nodes, a, childIds, children, r);
    }

    /** One round of _selectAllChildrenOf's loop: add the ids of all the
        children, then descend into the `i`-th one. */
    method VisitChild(a: int, groupChildren: seq<Node>, i: nat, children: set<int>, before: set<int>)
      returns (after: set<int>)
      requires TableShape(nodes, nodeIds) && AcyclicBelow(nodes, a)
      requires i < |groupChildren|
      requires forall n :: n in groupChildren <==> n.id in nodes && nodes[n.id] == n && n.parentId == Some(a)
      requires before == children + Reached(nodes, IdsOf(groupChildren), i)
      ensures after == children + Reached(nodes, IdsOf(groupChildren), i + 1)
      decreases |Descendants(nodes, a)|, 0
    {
      var node := groupChildren[i];
      ghost var childIds := IdsOf(groupChildren);
      assert childIds[i] == node.id;
      assert node in groupChildren;
      var added := AddIds(before, groupChildren);
      ChildHasFewerDescendants(nodes, node.id, a);
      after := SelectAllChildrenOf(node.id, added);
      ReachedStep(nodes, childIds, i, children, before, added, after);
    }

    /** queryFullSubtree: after reading a single id as a one-element list,
        the stored records whose id is one of the ids or a strict descendant
        of one, each once, in key order; an id with no record contributes
        only its (orphaned) descendants. */
    method QueryFullSubtree(arg: IdsArg) returns (r: seq<Node>)
      requires TableShape(nodes, nodeIds)
      requires forall x :: x in AsIdList(arg) ==> AcyclicBelow(nodes, x)
      ensures forall n :: n in r <==>
        n.id in nodes && nodes[n.id] == n &&
        (n.id in AsIdList(arg) || exists j :: 0 <= j < |AsIdList(arg)| && IsDescendant(nodes, n.id, AsIdList(arg)[j]))
      ensures IncreasingIds(r)
      ensures r == WithIdIn(Rows(), SubtreeIds(nodes, AsIdList(arg)))
    {
      var ids := AsIdList(arg);
      var children: set<int> := {};
      for j := 0 to |ids|
        invariant children == SubtreeIds(nodes, ids[..j])
      {
        SubtreeStep(nodes, ids, j);
        children := children + {ids[j]};
        children := SelectAllChildrenOf(ids[j], children);
      }
      assert ids[..|ids|] == ids;
      r := WithIdIn(Rows(), children);
    }

    /** queryNodes(group, options): exactly the specification `QueryResult`. */
    method QueryNodes(group: Option<int>, q: QueryOptions, matches: (string, string) -> bool)
      returns (r: seq<Node>)
      requires TableShape(nodes, nodeIds)
      requires HasScope(q, group) ==> AcyclicBelow(nodes, group.value)
      ensures r == QueryResult(nodes, nodeIds, group, q, matches)
    {
      var subtree: set<int> := {};
      if HasScope(q, group) {
        subtree := SelectAllChildrenOf(group.value, subtree);
        assert subtree == Descendants(nodes, group.value);
      }
      var rows := Rows();
      assert rows == RowsOf(nodes, nodeIds);
      var kept := Matching(rows, q, group, subtree, matches);
      var limited := LimitRows(kept, q.limit);
      if q.order == Some("custom") {
        r := SortByPos(limited);
      } else {
        r := limited;
      }
    }

    /** deleteNodes on an array of ids: remove the blobs of the listed
        nodes, then their index entries, then the nodes themselves.
        Nothing else is removed; in particular descendants of a deleted
        node stay. */
    method DeleteNodes(ids: seq<int>)
      requires Valid()
      modifies this
      ensures Valid()
      ensures blobs == old(blobs) - IdSet(ids)
      ensures index == old(index) - IdSet(ids)
      ensures nodes == old(nodes) - IdSet(ids)
      ensures nodeIds == WithoutIds(old(nodeIds), IdSet(ids))
      ensures nextNodeId == old(nextNodeId) && nextBlobId == old(nextBlobId)
    {
      var gone := IdSet(ids);
      blobs := blobs - gone;
      index := index - gone;
      WithoutKeepsShape(nodes, nodeIds, gone);
      nodes := nodes - gone;
      nodeIds := WithoutIds(nodeIds, gone);
    }

    /** queryShelf: without a (truthy) name, every shelf; with one, the
        first shelf whose upper-cased name equals the upper-cased argument. */
    function QueryShelf(name: Option<string>, upper: string -> string): (r: ShelfLookup)
      reads this
      requires Valid()
      ensures r.AllShelves? <==> name.None? || name.value == ""
      ensures r.AllShelves? ==> IncreasingIds(r.shelves)
      ensures r.AllShelves? ==>
        forall n :: n in r.shelves <==> n.id in nodes && nodes[n.id] == n && n.nodeType == Shelf
      ensures r.FirstShelf? && r.shelf.Some? ==>
        && r.shelf.value.id in nodes && nodes[r.shelf.value.id] == r.shelf.value
        && r.shelf.value.nodeType == Shelf && upper(name.value) == upper(r.shelf.value.name)
      ensures r.FirstShelf? && r.shelf.Some? ==>
        forall k :: k in nodes && nodes[k].nodeType == Shelf && upper(name.value) == upper(nodes[k].name) ==>
          r.shelf.value.id <= k
      ensures r.FirstShelf? && r.shelf.None? ==>
        forall k :: k in nodes && nodes[k].nodeType == Shelf ==> upper(name.value) != upper(nodes[k].name)
    {
      var shelves := ShelvesOf(Rows());
      if name.Some? && name.value != "" then
        var s := FirstNamed(shelves, name.value, upper);
        assert forall k :: k in nodes ==> nodes[k] in Rows();
        FirstShelf(s)
      else AllShelves(shelves)
    }

    /** queryGroup: the first direct child of `parentId` whose upper-cased
        name equals the upper-cased `name`. */
    function QueryGroup(parentId: int, name: string, upper: string -> string): (r: Option<Node>)
      reads this
      requires Valid()
      ensures r.Some? ==>
        r.value.id in nodes && nodes[r.value.id] == r.value && r.value.parentId == Some(parentId) &&
        upper(name) == upper(r.value.name) &&
        forall k :: k in nodes && nodes[k].parentId == Some(parentId) && upper(name) == upper(nodes[k].name) ==> r.value.id <= k
      ensures r.None? ==>
        forall k :: k in nodes && nodes[k].parentId == Some(parentId) ==> upper(name) != upper(nodes[k].name)
    {
      var rows := Rows();
      var kids := ChildrenOf(rows, parentId);
      assert forall k :: k in nodes ==> nodes[k] in rows;
      FirstNamed(kids, name, upper)
    }

    /** storeBlob: only for an existing node; the unique node_id index
        rejects a second blob for the same node.  Returns the new blob's key,
        or nothing when the node does not exist. */
    method StoreBlob(nodeId: int, data: seq<char>) returns (r: Result<Option<int>>)
      requires Valid()
      modifies this
      ensures Valid()
      ensures nodes == old(nodes) && nodeIds == old(nodeIds) && nextNodeId == old(nextNodeId) && index == old(index)
      ensures nodeId !in old(nodes) ==> r == Ok(None) && blobs == old(blobs) && nextBlobId == old(nextBlobId)
      ensures nodeId in old(nodes) && nodeId in old(blobs) ==>
        r == Err(ConstraintError) && blobs == old(blobs) && nextBlobId == old(nextBlobId)
      ensures nodeId in old(nodes) && nodeId !in old(blobs) ==>
        && r == Ok(Some(old(nextBlobId)))
        && blobs == old(blobs)[nodeId := Blob(old(nextBlobId), nodeId, data)]
        && nextBlobId == old(nextBlobId) + 1
    {
      var node := GetNode(nodeId);
      if node.None? {
        return Ok(None);
      }
      if node.value.id in blobs {
        return Err(ConstraintError);
      }
      var b := Blob(nextBlobId, node.value.id, data);
      blobs := blobs[b.nodeId := b];
      nextBlobId := nextBlobId + 1;
      r := Ok(Some(b.id));
    }

    /** fetchBlob: the blob whose node_id equals the key.  With `isUuid` the
        key is first replaced by the id of the node carrying that uuid; when
        no node does, the uuid itself is looked up as a node_id, which no
        blob has. */
    function FetchBlob(key: Key, isUuid: bool): (r: Option<Blob>)
      reads this
      requires Valid()
      ensures r.Some? ==> r.value.nodeId in nodes && r.value.nodeId in blobs && blobs[r.value.nodeId] == r.value
      ensures key.NumKey? ==> r == (if key.n in blobs then Some(blobs[key.n]) else None)
      ensures key.StrKey? && !isUuid ==> r.None?
      ensures key.StrKey? && isUuid ==>
        (r.Some? <==> exists k :: k in blobs && nodes[k].uuid == key.s)
      ensures key.StrKey? && isUuid && r.Some? ==> nodes[r.value.nodeId].uuid == key.s
    {
      var k :=
        if isUuid && key.StrKey? then
          match FirstWithUuid(Rows(), key.s)
          case Some(n) => NumKey(n.id)
          case None => key
        else key;
      if k.NumKey? && k.n in blobs then Some(blobs[k.n]) else None
    }
  }

  /** Deleting what queryFullSubtree resolved leaves no descendant of the
      deleted roots behind. */
  lemma DeleteSubtreeLeavesNoDescendant(nodes: map<int, Node>, ids: seq<int>, x: int, a: int)
    requires a in ids
    requires x in nodes - SubtreeIds(nodes, ids)
    ensures x !in ids
    ensures !IsDescendant(nodes - SubtreeIds(nodes, ids), x, a)
  {
    var rest := nodes - SubtreeIds(nodes, ids);
    if IsDescendant(rest, x, a) {
      DescendantInSubmap(rest, nodes, x, a);
      assert false;
    }
  }

  /** Deleting a node without its subtree orphans its children: they stay,
      still naming the deleted id as parent, so a later subtree query on
      that id still reaches them. */
  lemma DeleteOrphansChildren(nodes: map<int, Node>, ids: seq<int>, c: int, a: int)
    requires a in ids && c !in ids && IsChildOf(nodes, c, a)
    ensures c in nodes - IdSet(ids) && a !in nodes - IdSet(ids)
    ensures IsDescendant(nodes - IdSet(ids), c, a)
  {
    ChildIsDescendant(nodes - IdSet(ids), c, a);
  }
}
