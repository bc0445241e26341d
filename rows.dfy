/** Rows of the `nodes` table in primary-key order, and the row filters and
    the stable sort that the store's queries are built from. */
module Rows {
  import opened Records

  /** Strictly ascending ids: the primary-key order Dexie returns rows in. */
  predicate IncreasingIds(rows: seq<Node>) {
    forall i, j :: 0 <= i < j < |rows| ==> rows[i].id < rows[j].id
  }

  predicate IncreasingInts(ids: seq<int>) {
    forall i, j :: 0 <= i < j < |ids| ==> ids[i] < ids[j]
  }

  /** The node table as stored: `ids` lists every key once, ascending, and
      each record carries its own key. */
  ghost predicate TableShape(nodes: map<int, Node>, ids: seq<int>) {
    && IncreasingInts(ids)
    && (forall i :: 0 <= i < |ids| ==> ids[i] in nodes)
    && (forall k :: k in nodes ==> k in ids)
    && (forall k :: k in nodes ==> nodes[k].id == k)
  }

  function RowsOf(nodes: map<int, Node>, ids: seq<int>): (r: seq<Node>)
    requires forall i :: 0 <= i < |ids| ==> ids[i] in nodes
    ensures |r| == |ids|
    ensures forall i :: 0 <= i < |ids| ==> r[i] == nodes[ids[i]]
  {
    if ids == [] then [] else [nodes[ids[0]]] + RowsOf(nodes, ids[1..])
  }

  /** Reading the table in key order yields exactly the stored records,
      each once, in ascending id order. */
  lemma RowsOfShape(nodes: map<int, Node>, ids: seq<int>)
    requires TableShape(nodes, ids)
    ensures IncreasingIds(RowsOf(nodes, ids))
    ensures forall n :: n in RowsOf(nodes, ids) <==> n.id in nodes && nodes[n.id] == n
  {
    var r := RowsOf(nodes, ids);
    forall n: Node | n.id in nodes && nodes[n.id] == n ensures n in r {
      var i :| 0 <= i < |ids| && ids[i] == n.id;
      assert r[i] == n;
    }
  }

  /** The ids of a list of rows, in the same order. */
  function IdsOf(rows: seq<Node>): (ids: seq<int>)
    ensures |ids| == |rows| && forall i :: 0 <= i < |rows| ==> ids[i] == rows[i].id
  {
    seq(|rows|, i requires 0 <= i < |rows| => rows[i].id)
  }

  /** A row ahead of rows drawn from its own tail stays in key order. */
  lemma PrependIncreasing(x: Node, r: seq<Node>, rest: seq<Node>)
    requires IncreasingIds([x] + rest) && IncreasingIds(r)
    requires forall n :: n in r ==> n in rest
    ensures IncreasingIds([x] + r)
  {
    forall j | 0 <= j < |r| ensures x.id < r[j].id {
      assert r[j] in rest;
      var m :| 0 <= m < |rest| && rest[m] == r[j];
      var whole := [x] + rest;
      assert whole[0] == x && whole[m + 1] == r[j];
      assert whole[0].id < whole[m + 1].id;
    }
  }

  /** `where("id").anyOf(s)`: the rows whose id is in `s`. */
  function WithIdIn(rows: seq<Node>, s: set<int>): (r: seq<Node>)
    ensures forall n :: n in r <==> n in rows && n.id in s
    ensures |r| <= |rows|
    ensures IncreasingIds(rows) ==> IncreasingIds(r)
  {
    if rows == [] then []
    else
      var tail := WithIdIn(rows[1..], s);
      if rows[0].id in s then
        assert rows == [rows[0]] + rows[1..];
        if IncreasingIds(rows) then PrependIncreasing(rows[0], tail, rows[1..]); [rows[0]] + tail
        else [rows[0]] + tail
      else tail
  }

  /** `where("parent_id").equals(p)`: the rows whose parent is `p`. */
  function ChildrenOf(rows: seq<Node>, p: int): (r: seq<Node>)
    ensures forall n :: n in r <==> n in rows && n.parentId == Some(p)
    ensures IncreasingIds(rows) ==> IncreasingIds(r)
  {
    if rows == [] then []
    else
      var tail := ChildrenOf(rows[1..], p);
      if rows[0].parentId == Some(p) then
        assert rows == [rows[0]] + rows[1..];
        if IncreasingIds(rows) then PrependIncreasing(rows[0], tail, rows[1..]); [rows[0]] + tail
        else [rows[0]] + tail
      else tail
  }

  /** `where("type").equals(NODE_TYPE_SHELF)`: the shelf rows. */
  function ShelvesOf(rows: seq<Node>): (r: seq<Node>)
    ensures forall n :: n in r <==> n in rows && n.nodeType == Shelf
    ensures IncreasingIds(rows) ==> IncreasingIds(r)
  {
    if rows == [] then []
    else
      var tail := ShelvesOf(rows[1..]);
      if rows[0].nodeType == Shelf then
        assert rows == [rows[0]] + rows[1..];
        if IncreasingIds(rows) then PrependIncreasing(rows[0], tail, rows[1..]); [rows[0]] + tail
        else [rows[0]] + tail
      else tail
  }

  predicate SameName(n: Node, name: string, upper: string -> string) {
    upper(name) == upper(n.name)
  }

  /** The first row whose name equals `name` once both are upper-cased by
      `upper` (the `toLocaleUpperCase` of queryShelf and queryGroup). */
  function FirstNamed(rows: seq<Node>, name: string, upper: string -> string): (r: Option<Node>)
    ensures r.Some? ==> r.value in rows && SameName(r.value, name, upper)
    ensures r.None? <==> forall n :: n in rows ==> !SameName(n, name, upper)
    ensures r.Some? && IncreasingIds(rows) ==>
      forall n :: n in rows && SameName(n, name, upper) ==> r.value.id <= n.id
  {
    if rows == [] then None
    else if SameName(rows[0], name, upper) then Some(rows[0])
    else
      var r := FirstNamed(rows[1..], name, upper);
      assert forall n :: n in rows && n != rows[0] ==> n in rows[1..];
      r
  }

  /** What a collection given `limit(n)` yields: for a positive `n`, the
      first `n` of the rows that pass the collection's filter; for a
      negative `n` (truthy, so it is passed on) no row, since the limit
      filter's row count is already spent at the first row; and all of
      them when `limit` is missing or zero.  `rows` are the rows that pass
      the filter. */
  function LimitRows(rows: seq<Node>, limit: Option<int>): (r: seq<Node>)
    ensures limit.Some? && limit.value > 0 ==> |r| <= limit.value
    ensures limit.Some? && limit.value < 0 ==> r == []
    ensures forall i :: 0 <= i < |r| ==> i < |rows| && r[i] == rows[i]
    ensures limit.Some? && 0 < limit.value < |rows| ==> |r| == limit.value
    ensures (limit.None? || limit.value == 0 || 0 <= |rows| <= limit.value) ==> r == rows
  {
    if limit.None? || limit.value == 0 then rows
    else if limit.value < 0 then []
    else if limit.value < |rows| then rows[..limit.value]
    else rows
  }

  lemma LimitKeepsOrder(rows: seq<Node>, limit: Option<int>)
    requires IncreasingIds(rows)
    ensures IncreasingIds(LimitRows(rows, limit))
    ensures forall n :: n in LimitRows(rows, limit) ==> n in rows
  {
  }

  predicate SortedByPos(s: seq<Node>) {
    forall i, j :: 0 <= i < j < |s| ==> s[i].pos <= s[j].pos
  }

  /** Rows with equal `pos` keep ascending id order. */
  predicate TiesById(s: seq<Node>) {
    forall i, j :: 0 <= i < j < |s| && s[i].pos == s[j].pos ==> s[i].id < s[j].id
  }

  /** Inserts `x` before the first element whose pos is not smaller, so
      that `x` stays ahead of the elements it preceded with the same pos. */
  function InsertByPos(x: Node, s: seq<Node>): (r: seq<Node>)
    ensures multiset(r) == multiset(s) + multiset{x}
  {
    if s == [] || x.pos <= s[0].pos then [x] + s
    else
      var r := [s[0]] + InsertByPos(x, s[1..]);
      assert s == [s[0]] + s[1..];
      r
  }

  lemma InsertMember(x: Node, s: seq<Node>, y: Node)
    requires y in InsertByPos(x, s)
    ensures y == x || y in s
  {
    assert y in multiset(InsertByPos(x, s));
  }

  lemma HeadSorted(s: seq<Node>, y: Node)
    requires s != [] && SortedByPos(s) && y in s[1..]
    ensures s[0].pos <= y.pos
  {
    var m :| 0 <= m < |s[1..]| && s[1..][m] == y;
    assert s[m + 1] == y;
  }

  lemma {:induction false} InsertSorted(x: Node, s: seq<Node>)
    requires SortedByPos(s)
    ensures SortedByPos(InsertByPos(x, s))
  {
    if s == [] || x.pos <= s[0].pos {
      var r := [x] + s;
      forall i, j | 0 <= i < j < |r| ensures r[i].pos <= r[j].pos {
        if i > 0 {
          assert r[i] == s[i - 1] && r[j] == s[j - 1];
        } else {
          assert r[j] == s[j - 1];
        }
      }
    } else {
      var t := InsertByPos(x, s[1..]);
      InsertSorted(x, s[1..]);
      var r := [s[0]] + t;
      forall i, j | 0 <= i < j < |r| ensures r[i].pos <= r[j].pos {
        if i > 0 {
          assert r[i] == t[i - 1] && r[j] == t[j - 1];
        } else {
          assert r[j] == t[j - 1];
          InsertMember(x, s[1..], t[j - 1]);
          if r[j] != x {
            HeadSorted(s, r[j]);
          }
        }
      }
    }
  }

  /** The custom order of queryNodes: a stable sort by ascending `pos`. */
  function SortByPos(s: seq<Node>): (r: seq<Node>)
    ensures multiset(r) == multiset(s)
    ensures |r| == |s|
    ensures SortedByPos(r)
  {
    if s == [] then []
    else
      var t := SortByPos(s[1..]);
      InsertSorted(s[0], t);
      var r := InsertByPos(s[0], t);
      assert s == [s[0]] + s[1..];
      r
  }

  /** The elements of `s` whose pos is `k`, in their order in `s`. */
  function WithPos(s: seq<Node>, k: int): seq<Node> {
    if s == [] then []
    else (if s[0].pos == k then [s[0]] else []) + WithPos(s[1..], k)
  }

  lemma {:induction false} InsertWithPos(x: Node, s: seq<Node>, k: int)
    ensures WithPos(InsertByPos(x, s), k) == (if x.pos == k then [x] else []) + WithPos(s, k)
  {
    if s == [] || x.pos <= s[0].pos {
      assert ([x] + s)[1..] == s;
    } else {
      var t := InsertByPos(x, s[1..]);
      assert ([s[0]] + t)[1..] == t;
      InsertWithPos(x, s[1..], k);
    }
  }

  /** Stability: for every pos value, the elements carrying it come out of
      the sort in exactly the order they went in. */
  lemma {:induction false} SortByPosStable(s: seq<Node>, k: int)
    ensures WithPos(SortByPos(s), k) == WithPos(s, k)
  {
    if s != [] {
      SortByPosStable(s[1..], k);
      InsertWithPos(s[0], SortByPos(s[1..]), k);
    }
  }

  lemma TiesByIdTail(s: seq<Node>)
    requires s != [] && TiesById(s)
    ensures TiesById(s[1..])
  {
    forall i, j | 0 <= i < j < |s[1..]| && s[1..][i].pos == s[1..][j].pos
      ensures s[1..][i].id < s[1..][j].id
    {
      assert s[1..][i] == s[i + 1] && s[1..][j] == s[j + 1];
    }
  }

  /** The head of a tie-ordered list precedes every later row with its pos. */
  lemma HeadTies(s: seq<Node>, y: Node)
    requires s != [] && TiesById(s)
    requires y in s[1..] && y.pos == s[0].pos
    ensures s[0].id < y.id
  {
    var m :| 0 <= m < |s[1..]| && s[1..][m] == y;
    assert s[m + 1] == y;
  }

  lemma {:induction false} InsertKeepsTies(x: Node, s: seq<Node>)
    requires TiesById(s)
    requires forall y :: y in s ==> x.id < y.id
    ensures TiesById(InsertByPos(x, s))
  {
    if s == [] || x.pos <= s[0].pos {
      var r := [x] + s;
      forall i, j | 0 <= i < j < |r| && r[i].pos == r[j].pos ensures r[i].id < r[j].id {
        if i > 0 {
          assert r[i] == s[i - 1] && r[j] == s[j - 1];
        } else {
          assert r[j] == s[j - 1];
        }
      }
    } else {
      var t := InsertByPos(x, s[1..]);
      TiesByIdTail(s);
      assert forall y :: y in s[1..] ==> y in s;
      InsertKeepsTies(x, s[1..]);
      var r := [s[0]] + t;
      forall i, j | 0 <= i < j < |r| && r[i].pos == r[j].pos ensures r[i].id < r[j].id {
        if i > 0 {
          assert r[i] == t[i - 1] && r[j] == t[j - 1];
        } else {
          assert r[j] == t[j - 1];
          InsertMember(x, s[1..], t[j - 1]);
          HeadTies(s, r[j]);
        }
      }
    }
  }

  /** Sorting rows that are in storage order by pos keeps rows with equal
      pos in storage (ascending id) order. */
  lemma {:induction false} SortByPosTiesById(s: seq<Node>)
    requires IncreasingIds(s)
    ensures TiesById(SortByPos(s))
  {
    if s != [] {
      assert IncreasingIds(s[1..]) by {
        forall i, j | 0 <= i < j < |s[1..]| ensures s[1..][i].id < s[1..][j].id {
          assert s[1..][i] == s[i + 1] && s[1..][j] == s[j + 1];
        }
      }
      SortByPosTiesById(s[1..]);
      var t := SortByPos(s[1..]);
      forall y | y in t ensures s[0].id < y.id {
        assert y in multiset(t);
        assert y in multiset(s[1..]);
        var m :| 0 <= m < |s[1..]| && s[1..][m] == y;
        assert s[m + 1] == y;
      }
      InsertKeepsTies(s[0], t);
    }
  }
}
