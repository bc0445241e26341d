/** What `queryNodes` returns: the filter it applies to every scanned row,
    and the properties of its result. */
module Queries {
  import opened Records
  import opened Ancestry
  import opened Rows

  /** The options object `{search, tags, types, path, limit, depth, order}`.
      An absent option is `None`. */
  datatype QueryOptions = QueryOptions(
    search: Option<string>,
    tags: Option<seq<string>>,
    types: Option<seq<NodeType>>,
    path: bool,
    limit: Option<int>,
    depth: Option<string>,
    order: Option<string>)

  /** The text a regular expression's `test` sees for `node.uri`: a
      missing uri converts to "undefined" and a `null` one to "null". */
  function UriText(n: Node): string {
    match n.uri
    case NoUri => "undefined"
    case NullUri => "null"
    case UriString(s) => s
  }

  /** `search` is truthy: given and not empty. */
  predicate SearchActive(q: QueryOptions) {
    q.search.Some? && q.search.value != ""
  }

  /** A subtree has to be resolved before filtering. */
  predicate HasScope(q: QueryOptions, group: Option<int>) {
    group.Some? && (q.depth == Some("subtree") || q.depth == Some("root+subtree"))
  }

  /** The filter callback of `queryNodes`: `group` is the scope node's id,
      `subtree` the set `_selectAllChildrenOf` filled, `matches(search, text)`
      the case-insensitive `RegExp.test`. */
  predicate Admits(q: QueryOptions, group: Option<int>, subtree: set<int>,
                   matches: (string, string) -> bool, n: Node)
  {
    && (q.path ==> group.Some?)
    && (q.types.Some? ==> n.nodeType in q.types.value)
    && (SearchActive(q) ==> matches(q.search.value, n.name) || matches(q.search.value, UriText(n)))
    && (group.Some? && q.depth == Some("group") ==> n.parentId == Some(group.value))
    && (group.Some? && q.depth == Some("subtree") ==> n.id in subtree)
    && (group.Some? && q.depth == Some("root+subtree") ==> n.id in subtree || n.id == group.value)
    && (q.tags.Some? ==> n.tags.Some? && exists t :: t in q.tags.value && t in n.tags.value)
  }

  /** `where.filter(...)`: the scanned rows the callback admits. */
  function Matching(rows: seq<Node>, q: QueryOptions, group: Option<int>, subtree: set<int>,
                    matches: (string, string) -> bool): (r: seq<Node>)
    ensures forall n :: n in r <==> n in rows && Admits(q, group, subtree, matches, n)
    ensures |r| <= |rows|
    ensures IncreasingIds(rows) ==> IncreasingIds(r)
  {
    if rows == [] then []
    else
      var tail := Matching(rows[1..], q, group, subtree, matches);
      if Admits(q, group, subtree, matches, rows[0]) then
        assert rows == [rows[0]] + rows[1..];
        if IncreasingIds(rows) then PrependIncreasing(rows[0], tail, rows[1..]); [rows[0]] + tail
        else [rows[0]] + tail
      else tail
  }

  /** The result of `queryNodes(group, q)` on the table `nodes`, read in key
      order `ids`. */
  ghost function QueryResult(nodes: map<int, Node>, ids: seq<int>, group: Option<int>, q: QueryOptions,
                             matches: (string, string) -> bool): seq<Node>
    requires forall i :: 0 <= i < |ids| ==> ids[i] in nodes
  {
    var subtree := if HasScope(q, group) then Descendants(nodes, group.value) else {};
    var kept := Matching(RowsOf(nodes, ids), q, group, subtree, matches);
    var limited := LimitRows(kept, q.limit);
    if q.order == Some("custom") then SortByPos(limited) else limited
  }

  /** `limit` and `order` play no part in the filter. */
  lemma {:induction false} MatchingIgnoresLimitAndOrder(rows: seq<Node>, q1: QueryOptions, q2: QueryOptions,
                                                        group: Option<int>, subtree: set<int>,
                                                        matches: (string, string) -> bool)
    requires q1.(limit := None, order := None) == q2.(limit := None, order := None)
    ensures Matching(rows, q1, group, subtree, matches) == Matching(rows, q2, group, subtree, matches)
  {
    if rows != [] {
      MatchingIgnoresLimitAndOrder(rows[1..], q1, q2, group, subtree, matches);
      assert Admits(q1, group, subtree, matches, rows[0]) == Admits(q2, group, subtree, matches, rows[0]);
    }
  }

  /** Every row of the result is a stored record that passes every active
      predicate, the scope ones read as parent / descendant relations. */
  lemma QueryAdmitted(nodes: map<int, Node>, ids: seq<int>, group: Option<int>, q: QueryOptions,
                      matches: (string, string) -> bool, n: Node)
    requires TableShape(nodes, ids)
    requires n in QueryResult(nodes, ids, group, q, matches)
    ensures n.id in nodes && nodes[n.id] == n
    ensures q.path ==> group.Some?
    ensures q.types.Some? ==> n.nodeType in q.types.value
    ensures SearchActive(q) ==> matches(q.search.value, n.name) || matches(q.search.value, UriText(n))
    ensures q.tags.Some? ==> n.tags.Some? && exists t :: t in q.tags.value && t in n.tags.value
    ensures group.Some? && q.depth == Some("group") ==> n.parentId == Some(group.value)
    ensures group.Some? && q.depth == Some("subtree") ==> IsDescendant(nodes, n.id, group.value)
    ensures group.Some? && q.depth == Some("root+subtree") ==>
      n.id == group.value || IsDescendant(nodes, n.id, group.value)
  {
    var rows := RowsOf(nodes, ids);
    RowsOfShape(nodes, ids);
    var subtree := if HasScope(q, group) then Descendants(nodes, group.value) else {};
    var kept := Matching(rows, q, group, subtree, matches);
    var limited := LimitRows(kept, q.limit);
    assert n in multiset(QueryResult(nodes, ids, group, q, matches));
    assert n in limited;
    assert n in kept;
  }

  /** The scope filter of a stored row that descends from the group. */
  lemma ScopeAdmits(nodes: map<int, Node>, group: Option<int>, q: QueryOptions, n: Node)
    requires n.id in nodes
    requires group.Some? && q.depth == Some("subtree") ==> IsDescendant(nodes, n.id, group.value)
    requires group.Some? && q.depth == Some("root+subtree") ==>
      n.id == group.value || IsDescendant(nodes, n.id, group.value)
    ensures var subtree := if HasScope(q, group) then Descendants(nodes, group.value) else {};
      && (group.Some? && q.depth == Some("subtree") ==> n.id in subtree)
      && (group.Some? && q.depth == Some("root+subtree") ==> n.id in subtree || n.id == group.value)
  {
  }

  /** Conversely, without a truthy `limit` every stored row passing every
      active predicate is returned (with one, `QueryLimitPrefix` says which
      of them are). */
  lemma QueryComplete(nodes: map<int, Node>, ids: seq<int>, group: Option<int>, q: QueryOptions,
                      matches: (string, string) -> bool, n: Node)
    requires TableShape(nodes, ids)
    requires n.id in nodes && nodes[n.id] == n
    requires q.path ==> group.Some?
    requires q.types.Some? ==> n.nodeType in q.types.value
    requires SearchActive(q) ==> matches(q.search.value, n.name) || matches(q.search.value, UriText(n))
    requires q.tags.Some? ==> n.tags.Some? && exists t :: t in q.tags.value && t in n.tags.value
    requires group.Some? && q.depth == Some("group") ==> n.parentId == Some(group.value)
    requires group.Some? && q.depth == Some("subtree") ==> IsDescendant(nodes, n.id, group.value)
    requires group.Some? && q.depth == Some("root+subtree") ==>
      n.id == group.value || IsDescendant(nodes, n.id, group.value)
    ensures q.limit.None? || q.limit.value == 0 ==> n in QueryResult(nodes, ids, group, q, matches)
  {
    var rows := RowsOf(nodes, ids);
    RowsOfShape(nodes, ids);
    var subtree := if HasScope(q, group) then Descendants(nodes, group.value) else {};
    ScopeAdmits(nodes, group, q, n);
    assert Admits(q, group, subtree, matches, n);
    var kept := Matching(rows, q, group, subtree, matches);
    assert n in kept;
    if q.limit.None? || q.limit.value == 0 {
      assert LimitRows(kept, q.limit) == kept;
      if q.order == Some("custom") {
        assert n in multiset(SortByPos(kept));
      }
    }
  }

  /** With a truthy `limit` the result is made of the first `limit` rows of
      the unlimited result in storage order; the custom order sorts those. */
  lemma QueryLimitPrefix(nodes: map<int, Node>, ids: seq<int>, group: Option<int>, q: QueryOptions,
                         matches: (string, string) -> bool)
    requires TableShape(nodes, ids)
    ensures q.order != Some("custom") ==>
      QueryResult(nodes, ids, group, q, matches) ==
      LimitRows(QueryResult(nodes, ids, group, q.(limit := None), matches), q.limit)
    ensures q.order == Some("custom") ==>
      QueryResult(nodes, ids, group, q, matches) ==
      SortByPos(LimitRows(QueryResult(nodes, ids, group, q.(limit := None, order := None), matches), q.limit))
  {
    var rows := RowsOf(nodes, ids);
    var subtree := if HasScope(q, group) then Descendants(nodes, group.value) else {};
    var kept := Matching(rows, q, group, subtree, matches);
    assert LimitRows(kept, None) == kept;
    var q1 := q.(limit := None);
    assert HasScope(q1, group) == HasScope(q, group);
    MatchingIgnoresLimitAndOrder(rows, q, q1, group, subtree, matches);
    assert QueryResult(nodes, ids, group, q1, matches) == if q.order == Some("custom") then SortByPos(kept) else kept;
    var q2 := q.(limit := None, order := None);
    assert HasScope(q2, group) == HasScope(q, group);
    MatchingIgnoresLimitAndOrder(rows, q, q2, group, subtree, matches);
    assert QueryResult(nodes, ids, group, q2, matches) == kept;
  }

  /** The degenerate filters: an empty `types` or `tags` list, or `path`
      without a group, admit nothing. */
  lemma QueryEmptyFilters(nodes: map<int, Node>, ids: seq<int>, group: Option<int>, q: QueryOptions,
                          matches: (string, string) -> bool)
    requires TableShape(nodes, ids)
    requires q.types == Some([]) || q.tags == Some([]) || (q.path && group.None?)
    ensures QueryResult(nodes, ids, group, q, matches) == []
  {
    var r := QueryResult(nodes, ids, group, q, matches);
    if r != [] {
      QueryAdmitted(nodes, ids, group, q, matches, r[0]);
    }
  }

  /** A truthy `limit` bounds the result: a positive one by its value, a
      negative one to no row at all. */
  lemma QueryLimit(nodes: map<int, Node>, ids: seq<int>, group: Option<int>, q: QueryOptions,
                   matches: (string, string) -> bool)
    requires TableShape(nodes, ids)
    requires q.limit.Some? && q.limit.value != 0
    ensures q.limit.value > 0 ==> |QueryResult(nodes, ids, group, q, matches)| <= q.limit.value
    ensures q.limit.value < 0 ==> QueryResult(nodes, ids, group, q, matches) == []
  {
    var subtree := if HasScope(q, group) then Descendants(nodes, group.value) else {};
    var limited := LimitRows(Matching(RowsOf(nodes, ids), q, group, subtree, matches), q.limit);
    assert |multiset(limited)| == |limited|;
  }

  /** Without `order: "custom"` the result is in storage (ascending id)
      order; with it, ascending by pos, rows of equal pos in storage order. */
  lemma QueryOrder(nodes: map<int, Node>, ids: seq<int>, group: Option<int>, q: QueryOptions,
                   matches: (string, string) -> bool)
    requires TableShape(nodes, ids)
    ensures q.order != Some("custom") ==> IncreasingIds(QueryResult(nodes, ids, group, q, matches))
    ensures q.order == Some("custom") ==> SortedByPos(QueryResult(nodes, ids, group, q, matches))
    ensures q.order == Some("custom") ==> TiesById(QueryResult(nodes, ids, group, q, matches))
  {
    var rows := RowsOf(nodes, ids);
    RowsOfShape(nodes, ids);
    var subtree := if HasScope(q, group) then Descendants(nodes, group.value) else {};
    var kept := Matching(rows, q, group, subtree, matches);
    LimitKeepsOrder(kept, q.limit);
    SortByPosTiesById(LimitRows(kept, q.limit));
  }

  /** The options that leave only the scope filter active. */
  predicate OnlyScope(q: QueryOptions) {
    q.search.None? && q.tags.None? && q.types.None? && !q.path && q.limit.None?
  }

  /** `queryNodes(group, {depth: "group"})` returns exactly the stored
      children of the group. */
  lemma QueryGroupExact(nodes: map<int, Node>, ids: seq<int>, g: int, q: QueryOptions,
                        matches: (string, string) -> bool, n: Node)
    requires TableShape(nodes, ids) && OnlyScope(q) && q.depth == Some("group")
    ensures n in QueryResult(nodes, ids, Some(g), q, matches) <==>
      n.id in nodes && nodes[n.id] == n && n.parentId == Some(g)
  {
    RowsOfShape(nodes, ids);
    if n.id in nodes && nodes[n.id] == n && n.parentId == Some(g) {
      QueryComplete(nodes, ids, Some(g), q, matches, n);
    }
    if n in QueryResult(nodes, ids, Some(g), q, matches) {
      QueryAdmitted(nodes, ids, Some(g), q, matches, n);
    }
  }

  /** `{depth: "subtree"}` returns exactly the stored strict descendants of
      the group; `{depth: "root+subtree"}` adds the group itself. */
  lemma QuerySubtreeExact(nodes: map<int, Node>, ids: seq<int>, g: int, q: QueryOptions,
                          matches: (string, string) -> bool, n: Node)
    requires TableShape(nodes, ids) && OnlyScope(q)
    requires q.depth == Some("subtree") || q.depth == Some("root+subtree")
    ensures n in QueryResult(nodes, ids, Some(g), q, matches) <==>
      n.id in nodes && nodes[n.id] == n &&
      ((q.depth == Some("root+subtree") && n.id == g) || IsDescendant(nodes, n.id, g))
  {
    RowsOfShape(nodes, ids);
    if n.id in nodes && nodes[n.id] == n &&
      ((q.depth == Some("root+subtree") && n.id == g) || IsDescendant(nodes, n.id, g)) {
      QueryComplete(nodes, ids, Some(g), q, matches, n);
    }
    if n in QueryResult(nodes, ids, Some(g), q, matches) {
      QueryAdmitted(nodes, ids, Some(g), q, matches, n);
    }
  }

  /** With no group, or a depth other than the three known ones, no scope
      filter applies. */
  lemma QueryNoScope(nodes: map<int, Node>, ids: seq<int>, group: Option<int>, q: QueryOptions,
                     matches: (string, string) -> bool, n: Node)
    requires TableShape(nodes, ids) && OnlyScope(q)
    requires group.None? || (q.depth != Some("group") && q.depth != Some("subtree") && q.depth != Some("root+subtree"))
    ensures n in QueryResult(nodes, ids, group, q, matches) <==> n.id in nodes && nodes[n.id] == n
  {
    RowsOfShape(nodes, ids);
    if n.id in nodes && nodes[n.id] == n {
      QueryComplete(nodes, ids, group, q, matches, n);
    }
    if n in QueryResult(nodes, ids, group, q, matches) {
      QueryAdmitted(nodes, ids, group, q, matches, n);
    }
  }
}
