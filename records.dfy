/** Records of the scrapyard store: the node, blob and index rows, partial
    updates ("patches") and how a patch is merged into a stored node. */
module Records {

  datatype Option<T> = None | Some(value: T)

  /** The store's error results: a unique index rejected a write, or a key
      that IndexedDB does not accept (an absent id) was used. */
  datatype DbError = ConstraintError | DataError

  datatype Result<T> = Ok(value: T) | Err(error: DbError)

  /** NODE_TYPE_SHELF .. NODE_TYPE_SEPARATOR (codes 1 .. 5). */
  datatype NodeType = Shelf | Group | Bookmark | Archive | Separator

  /** TODO_STATE_TODO .. TODO_STATE_CANCELLED. */
  datatype TodoState = Todo | Done | Waiting | Postponed | Cancelled

  const DefaultShelfName: string := "default"

  /** A row of the `nodes` table.  `icon` is not indexed but is stored with
      the record like every other property of the datum. */
  datatype Node = Node(
    id: int,
    uuid: string,
    parentId: Option<int>,
    nodeType: NodeType,
    name: string,
    uri: UriValue,
    tags: Option<seq<string>>,
    pos: int,
    todoPos: Option<int>,
    dateAdded: int,
    dateModified: Option<int>,
    todoState: Option<TodoState>,
    todoDate: Option<int>,
    icon: Option<string>)

  /** A `uri` property: missing, `null`, or a string.  The three read
      differently as text: "undefined", "null" and the string itself. */
  datatype UriValue = NoUri | NullUri | UriString(text: string)

  /** A row of the `blobs` table; `nodeId` is a unique index. */
  datatype Blob = Blob(id: int, nodeId: int, data: seq<char>)

  /** A row of the `index` table; `nodeId` is a unique index. */
  datatype IndexEntry = IndexEntry(id: int, nodeId: int, words: seq<string>)

  /** An IndexedDB key: numbers and strings are different keys. */
  datatype Key = NumKey(n: int) | StrKey(s: string)

  /** One property of an update object: absent (`Keep`) or present (`Set`). */
  datatype Change<T> = Keep | Set(value: T)

  /** The object handed to updateNode / updateNodes: the key `id` and any
      subset of the other properties, `uuid` and `date_added` included.  A
      property set to `null` is `Set(None)` (`Set(NullUri)` for `uri`). */
  datatype Patch = Patch(
    id: Option<int>,
    uuid: Change<string>,
    parentId: Change<Option<int>>,
    nodeType: Change<NodeType>,
    name: Change<string>,
    uri: Change<UriValue>,
    tags: Change<Option<seq<string>>>,
    pos: Change<int>,
    todoPos: Change<Option<int>>,
    dateAdded: Change<int>,
    dateModified: Change<Option<int>>,
    todoState: Change<Option<TodoState>>,
    todoDate: Change<Option<int>>,
    icon: Change<Option<string>>)

  function Pick<T>(c: Change<T>, old_: T): T {
    if c.Set? then c.value else old_
  }

  /** `r` is `n` updated by `p`: every property `p` lists takes the listed
      value, every property it does not list keeps the value it had in `n`. */
  predicate ListedWins(r: Node, n: Node, p: Patch) {
    && (p.uuid.Set? ==> r.uuid == p.uuid.value) && (p.uuid.Keep? ==> r.uuid == n.uuid)
    && (p.parentId.Set? ==> r.parentId == p.parentId.value) && (p.parentId.Keep? ==> r.parentId == n.parentId)
    && (p.nodeType.Set? ==> r.nodeType == p.nodeType.value) && (p.nodeType.Keep? ==> r.nodeType == n.nodeType)
    && (p.name.Set? ==> r.name == p.name.value) && (p.name.Keep? ==> r.name == n.name)
    && (p.uri.Set? ==> r.uri == p.uri.value) && (p.uri.Keep? ==> r.uri == n.uri)
    && (p.tags.Set? ==> r.tags == p.tags.value) && (p.tags.Keep? ==> r.tags == n.tags)
    && (p.pos.Set? ==> r.pos == p.pos.value) && (p.pos.Keep? ==> r.pos == n.pos)
    && (p.todoPos.Set? ==> r.todoPos == p.todoPos.value) && (p.todoPos.Keep? ==> r.todoPos == n.todoPos)
    && (p.dateAdded.Set? ==> r.dateAdded == p.dateAdded.value) && (p.dateAdded.Keep? ==> r.dateAdded == n.dateAdded)
    && (p.dateModified.Set? ==> r.dateModified == p.dateModified.value)
    && (p.dateModified.Keep? ==> r.dateModified == n.dateModified)
    && (p.todoState.Set? ==> r.todoState == p.todoState.value) && (p.todoState.Keep? ==> r.todoState == n.todoState)
    && (p.todoDate.Set? ==> r.todoDate == p.todoDate.value) && (p.todoDate.Keep? ==> r.todoDate == n.todoDate)
    && (p.icon.Set? ==> r.icon == p.icon.value) && (p.icon.Keep? ==> r.icon == n.icon)
  }

  /** Dexie's modify/update with an object: every property present in the
      patch overwrites the stored one, every other property is kept.  The
      key is the record's own: the patch's `id` names the record updated. */
  function Merge(n: Node, p: Patch): (r: Node)
    ensures r.id == n.id
    ensures ListedWins(r, n, p)
  {
    n.(uuid := Pick(p.uuid, n.uuid),
       parentId := Pick(p.parentId, n.parentId),
       nodeType := Pick(p.nodeType, n.nodeType),
       name := Pick(p.name, n.name),
       uri := Pick(p.uri, n.uri),
       tags := Pick(p.tags, n.tags),
       pos := Pick(p.pos, n.pos),
       todoPos := Pick(p.todoPos, n.todoPos),
       dateAdded := Pick(p.dateAdded, n.dateAdded),
       dateModified := Pick(p.dateModified, n.dateModified),
       todoState := Pick(p.todoState, n.todoState),
       todoDate := Pick(p.todoDate, n.todoDate),
       icon := Pick(p.icon, n.icon))
  }

  function Later<T>(first: Change<T>, second: Change<T>): Change<T> {
    if second.Set? then second else first
  }

  /** The single patch equivalent to applying `first` and then `second`:
      every property the second one lists wins. */
  function Override(first: Patch, second: Patch): Patch {
    Patch(
      second.id,
      Later(first.uuid, second.uuid),
      Later(first.parentId, second.parentId),
      Later(first.nodeType, second.nodeType),
      Later(first.name, second.name),
      Later(first.uri, second.uri),
      Later(first.tags, second.tags),
      Later(first.pos, second.pos),
      Later(first.todoPos, second.todoPos),
      Later(first.dateAdded, second.dateAdded),
      Later(first.dateModified, second.dateModified),
      Later(first.todoState, second.todoState),
      Later(first.todoDate, second.todoDate),
      Later(first.icon, second.icon))
  }

  /** The empty patch: an update object holding no property. */
  function NoChange(id: Option<int>): Patch {
    Patch(id, Keep, Keep, Keep, Keep, Keep, Keep, Keep, Keep, Keep, Keep, Keep, Keep, Keep)
  }

  /** Two merges in a row are one merge in which the later patch wins. */
  lemma MergeTwice(n: Node, p1: Patch, p2: Patch)
    ensures Merge(Merge(n, p1), p2) == Merge(n, Override(p1, p2))
  {
  }

  /** Merging a patch that lists nothing leaves the record as it is. */
  lemma MergeNoChange(n: Node, id: Option<int>)
    ensures Merge(n, NoChange(id)) == n
  {
  }

  /** Merging is idempotent. */
  lemma MergeIdempotent(n: Node, p: Patch)
    ensures Merge(Merge(n, p), p) == Merge(n, p)
  {
  }

  /** The update object once its date_modified is set to the current time. */
  function Stamp(p: Patch, now: int): (r: Patch)
    ensures r.id == p.id && r.dateModified == Set(Some(now))
    ensures r.(dateModified := p.dateModified) == p
  {
    p.(dateModified := Set(Some(now)))
  }
}
