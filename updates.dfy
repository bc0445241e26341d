/** Applying update objects to the node table, one after another, as
    `updateNode` and `updateNodes` do. */
module Updates {
  import opened Records

  /** The id `updateNode` acts on: `node.id` must be truthy, so 0 counts as
      absent. */
  predicate HasTruthyId(p: Patch) {
    p.id.Some? && p.id.value != 0
  }

  /** `where("id").equals(id).modify(p)`: merge into the record with that
      key; a key with no record matches nothing. */
  function ApplyPatch(m: map<int, Node>, p: Patch): (r: map<int, Node>)
    requires p.id.Some?
    ensures r.Keys == m.Keys
    ensures forall k :: k in m && p.id != Some(k) ==> r[k] == m[k]
  {
    if p.id.value in m then m[p.id.value := Merge(m[p.id.value], p)] else m
  }

  predicate AllKeyed(ps: seq<Patch>) {
    forall i :: 0 <= i < |ps| ==> ps[i].id.Some?
  }

  /** Every entry, its date_modified set to the current time. */
  function StampAll(ps: seq<Patch>, now: int): (r: seq<Patch>)
    ensures |r| == |ps|
    ensures forall i :: 0 <= i < |ps| ==> r[i] == Stamp(ps[i], now)
  {
    seq(|ps|, i requires 0 <= i < |ps| => Stamp(ps[i], now))
  }

  /** The table after applying the entries in input order. */
  function ApplyAll(m: map<int, Node>, ps: seq<Patch>): (r: map<int, Node>)
    requires AllKeyed(ps)
    ensures r.Keys == m.Keys
  {
    if ps == [] then m else ApplyPatch(ApplyAll(m, ps[..|ps| - 1]), ps[|ps| - 1])
  }

  /** The single patch that the entries aimed at key `k` amount to, later
      entries overriding earlier ones. */
  function CombinedFor(ps: seq<Patch>, k: int): Patch {
    if ps == [] then NoChange(Some(k))
    else
      var c := CombinedFor(ps[..|ps| - 1], k);
      if ps[|ps| - 1].id == Some(k) then Override(c, ps[|ps| - 1]) else c
  }

  /** Applying a batch changes each record exactly as merging, once, the
      combination of the entries with its key, the later entry winning on
      every property both list. */
  lemma {:induction false} ApplyAllAt(m: map<int, Node>, ps: seq<Patch>, k: int)
    requires AllKeyed(ps) && k in m
    ensures ApplyAll(m, ps)[k] == Merge(m[k], CombinedFor(ps, k))
  {
    if ps == [] {
      MergeNoChange(m[k], Some(k));
    } else {
      var init := ps[..|ps| - 1];
      ApplyAllAt(m, init, k);
      if ps[|ps| - 1].id == Some(k) {
        MergeTwice(m[k], CombinedFor(init, k), ps[|ps| - 1]);
      }
    }
  }

  /** Records that no entry names are left exactly as they were. */
  lemma {:induction false} ApplyAllUntouched(m: map<int, Node>, ps: seq<Patch>, k: int)
    requires AllKeyed(ps) && k in m
    requires forall i :: 0 <= i < |ps| ==> ps[i].id != Some(k)
    ensures ApplyAll(m, ps)[k] == m[k]
  {
    if ps != [] {
      ApplyAllUntouched(m, ps[..|ps| - 1], k);
    }
  }

  /** A batch never changes a record's key, and changes its uuid or
      date_added only through an entry that lists one. */
  lemma {:induction false} ApplyAllKeepsIdentity(m: map<int, Node>, ps: seq<Patch>, k: int)
    requires AllKeyed(ps) && k in m
    ensures ApplyAll(m, ps)[k].id == m[k].id
    ensures (forall i :: 0 <= i < |ps| && ps[i].id == Some(k) ==> ps[i].uuid.Keep?) ==>
      ApplyAll(m, ps)[k].uuid == m[k].uuid
    ensures (forall i :: 0 <= i < |ps| && ps[i].id == Some(k) ==> ps[i].dateAdded.Keep?) ==>
      ApplyAll(m, ps)[k].dateAdded == m[k].dateAdded
  {
    if ps != [] {
      var init := ps[..|ps| - 1];
      assert forall i :: 0 <= i < |init| ==> init[i] == ps[i];
      ApplyAllKeepsIdentity(m, init, k);
    }
  }

  /** With two entries for the same record, the record ends as the first
      merge updated by the second: a property the second lists is the
      second's, every other one is as the first merge left it. */
  lemma LaterEntryWins(m: map<int, Node>, p1: Patch, p2: Patch, k: int)
    requires k in m && p1.id == Some(k) && p2.id == Some(k)
    ensures ApplyAll(m, [p1, p2])[k] == Merge(Merge(m[k], p1), p2)
    ensures ListedWins(ApplyAll(m, [p1, p2])[k], Merge(m[k], p1), p2)
  {
    assert [p1, p2][..1] == [p1];
    assert [p1][..0] == [];
    assert ApplyAll(m, [p1][..0]) == m;
    var once := ApplyAll(m, [p1]);
    assert once == ApplyPatch(m, p1);
    assert once[k] == Merge(m[k], p1);
  }

  /** The `&uuid` index: no two records share a uuid. */
  ghost predicate UuidsUnique(nodes: map<int, Node>) {
    forall a, b :: a in nodes && b in nodes && a != b ==> nodes[a].uuid != nodes[b].uuid
  }

  /** Writing `p` would give its record a uuid another record already has,
      which the `&uuid` index rejects. */
  predicate Clashes(m: map<int, Node>, p: Patch)
    requires p.id.Some?
  {
    p.id.value in m && exists k :: k in m && k != p.id.value && m[k].uuid == Merge(m[p.id.value], p).uuid
  }

  lemma ApplyPatchKeepsUnique(m: map<int, Node>, p: Patch)
    requires p.id.Some? && UuidsUnique(m) && !Clashes(m, p)
    ensures UuidsUnique(ApplyPatch(m, p))
  {
  }

  /** A batch inside one transaction: the entries are applied in input
      order, and the first entry without a key (a DataError) or whose uuid
      the index rejects (a ConstraintError) aborts the whole transaction. */
  function ApplyChecked(m: map<int, Node>, ps: seq<Patch>): Result<map<int, Node>> {
    if ps == [] then Ok(m)
    else
      var prev := ApplyChecked(m, ps[..|ps| - 1]);
      var p := ps[|ps| - 1];
      if prev.Err? then prev
      else if p.id.None? then Err(DataError)
      else if Clashes(prev.value, p) then Err(ConstraintError)
      else Ok(ApplyPatch(prev.value, p))
  }

  /** A batch that commits has every entry keyed and leaves the table as
      the entries applied in order leave it; a batch with an entry without a
      key never commits. */
  lemma {:induction false} ApplyCheckedOk(m: map<int, Node>, ps: seq<Patch>)
    ensures ApplyChecked(m, ps).Ok? ==> AllKeyed(ps) && ApplyChecked(m, ps).value == ApplyAll(m, ps)
  {
    if ps != [] {
      var init := ps[..|ps| - 1];
      ApplyCheckedOk(m, init);
      if ApplyChecked(m, ps).Ok? {
        assert forall i :: 0 <= i < |init| ==> init[i] == ps[i];
      }
    }
  }

  /** A committed batch keeps the uuids unique. */
  lemma {:induction false} ApplyCheckedKeepsUnique(m: map<int, Node>, ps: seq<Patch>)
    requires UuidsUnique(m)
    ensures ApplyChecked(m, ps).Ok? ==> UuidsUnique(ApplyChecked(m, ps).value)
  {
    if ps != [] {
      var init := ps[..|ps| - 1];
      ApplyCheckedKeepsUnique(m, init);
      var prev := ApplyChecked(m, init);
      var p := ps[|ps| - 1];
      if prev.Ok? && p.id.Some? && !Clashes(prev.value, p) {
        ApplyPatchKeepsUnique(prev.value, p);
      }
    }
  }

  /** A batch whose entries all carry a key and list no uuid always
      commits, on a table whose uuids are unique. */
  lemma {:induction false} ApplyCheckedNoUuid(m: map<int, Node>, ps: seq<Patch>)
    requires UuidsUnique(m) && AllKeyed(ps)
    requires forall i :: 0 <= i < |ps| ==> ps[i].uuid.Keep?
    ensures ApplyChecked(m, ps) == Ok(ApplyAll(m, ps))
  {
    if ps != [] {
      var init := ps[..|ps| - 1];
      assert forall i :: 0 <= i < |init| ==> init[i] == ps[i];
      ApplyCheckedNoUuid(m, init);
      var prev := ApplyAll(m, init);
      forall k | k in prev ensures prev[k].uuid == m[k].uuid {
        ApplyAllKeepsIdentity(m, init, k);
      }
      var p := ps[|ps| - 1];
      assert p.uuid.Keep?;
      assert !Clashes(prev, p);
    }
  }

  /** An aborted prefix aborts the whole batch with the same error. */
  lemma {:induction false} ApplyCheckedPrefixErr(m: map<int, Node>, ps: seq<Patch>, j: nat)
    requires j <= |ps| && ApplyChecked(m, ps[..j]).Err?
    ensures ApplyChecked(m, ps) == ApplyChecked(m, ps[..j])
    decreases |ps| - j
  {
    if j < |ps| {
      var init := ps[..|ps| - 1];
      assert init[..j] == ps[..j];
      ApplyCheckedPrefixErr(m, init, j);
    } else {
      assert ps[..j] == ps;
    }
  }
}
