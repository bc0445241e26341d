# scrapyard node store, tree view and text walk in Dafny

This project models the core of the scrapyard bookmark and archive manager.

- **Node store** (`addon/db.js`, module `Db`). The `Storage` class sits over three IndexedDB tables:
  - `nodes`: shelves, groups, bookmarks, archives and separators, linked by `parent_id`;
  - `blobs`: archived page content, at most one per node;
  - `index`: search words, at most one entry per node.

  The class is a Dafny `class`. Its fields are the three tables and the two `++id` key generators. Its methods change them in place and keep the invariant `Valid()`, which covers keys, the unique uuid index and the unique node_id indexes.
- **Pure layers the store is specified by**:
  - `Records`: node, blob and index rows; update objects and how Dexie merges them into a record.
  - `Updates`: a batch of updates applied in order.
  - `Ancestry`: the `parent_id` forest, strict descendants and subtrees.
  - `Rows`: a table read in key order, index lookups, and the stable sort by `pos`.
  - `Queries`: the filter of `queryNodes` and what its result contains.
- **Tree view** (`addon/tree.js`, module `TreeView`):
  - how a record is shown in the jstree widget (`toJsTreeNode`);
  - the `types` table of allowed children;
  - `checkOperation`;
  - the dense renumbering of siblings (`reorderNodes`);
  - the context menu's item table: which items are kept for each node type, and which are disabled.
- **Text walk** (`addon/edit-content.js`, module `EditContent`). `getTextNodesBetween` is a recursive walk whose closure updates three variables. It becomes the class `TextNodeWalk` with those variables as fields. The walk is proved equal to a flat scan of the nodes it visits, and that scan is then characterised exactly.

External services become parameters of the operations:

- **clock**: `new Date()` becomes `now: int`.
- **uuid generator**: `UUID.numeric()` becomes the `uuid` argument of `AddNode`.
- **case-insensitive search**: `RegExp(search, "i").test` becomes `matches`.
- **case folding**: `toLocaleUpperCase` becomes `upper`.

Each asynchronous store method is one sequential step on the tables.

Where the code can be read two ways, the model makes these choices:

- **No cycle guard in `_selectAllChildrenOf`.** The code has none, so `SelectAllChildrenOf`, `QueryFullSubtree` and scoped `QueryNodes` require that no node below the start node lies on a cycle (`AcyclicBelow`). Below such a node the source would recurse forever.
- **Scope node passed as an id.** `queryNodes` receives the scope node and reads only its `id`, so the model passes the id.
- **`limit` counts the rows that pass the filter.** `db.nodes.limit(n).filter(f)` is read as the first `n` rows, in key order, that pass `f`: Dexie applies a collection's limit after its filter.
- **Text between the endpoints only.** The walk does not descend into the start or the end node. A start element's own text is therefore never collected.

## Model

| member | source | states |
|---|---|---|
| Records.Merge | addon/db.js:76 | every property the update object lists, uuid and date_added included, takes the listed value; every property it does not list keeps its value; the key stays |
| Records.MergeTwice | addon/db.js:70-80 | two merges in a row are one merge in which the later object wins |
| Records.MergeIdempotent | addon/db.js:82-90 | merging the same update object twice is merging it once |
| Records.Stamp | addon/db.js:75 | stamping sets date_modified to the current time and changes nothing else |
| Updates.ApplyPatch | addon/db.js:76 | an update changes at most the record with its key, and never the set of keys |
| Updates.StampAll | addon/db.js:73-75 | every entry of the batch is stamped, in order |
| Updates.ApplyAll | addon/db.js:72-77 | a batch never adds or removes keys |
| Updates.ApplyAllAt | addon/db.js:70-80 | after a batch, each record equals one merge of the combination of its entries, later entries overriding earlier ones |
| Updates.ApplyAllUntouched | addon/db.js:70-80 | records that no entry names are unchanged |
| Updates.ApplyAllKeepsIdentity | addon/db.js:70-80 | a batch never changes a record's key, and changes its uuid or date_added only through an entry for that record that lists it |
| Updates.LaterEntryWins | addon/db.js:72-77 | for two entries on one record, the record ends as the first merge updated by the second: every property the second lists is the second's, every other property is as the first merge left it |
| Updates.ApplyPatchKeepsUnique | addon/db.js:20 | a write whose merged uuid no other record carries keeps the uuids unique |
| Updates.ApplyCheckedOk | addon/db.js:70-80 | a batch that commits has a key on every entry and leaves the table as the entries applied in order leave it; a batch with an entry without a key never commits |
| Updates.ApplyCheckedKeepsUnique | addon/db.js:70-80 | a committed batch keeps the uuids unique |
| Updates.ApplyCheckedNoUuid | addon/db.js:70-80 | a batch whose entries all carry a key and list no uuid always commits |
| Updates.ApplyCheckedPrefixErr | addon/db.js:71-77 | the first failing entry aborts the whole batch with its error, whatever follows it |
| Ancestry.DescendantTransitive | addon/db.js:92-102 | a descendant of a descendant is a descendant |
| Ancestry.ChildHasFewerDescendants | addon/db.js:92-102 | when no node below a node lies on a cycle, each child has strictly fewer descendants than the node and no node below the child lies on a cycle, so the recursion ends |
| Ancestry.DescendantsUnfold | addon/db.js:92-102 | the descendants of a node are its children plus their descendants, which is the one-level expansion the recursion performs |
| Ancestry.SubtreeIds | addon/db.js:104-116 | the ids a subtree query resolves to are each input id plus each strict descendant of one |
| Ancestry.SubtreeStep | addon/db.js:109-112 | one more input id adds itself and its descendants |
| Rows.RowsOf | addon/db.js:62-67 | reading the table yields the record of each listed key, in the order of the keys |
| Rows.WithIdIn | addon/db.js:62-64 | the `anyOf` lookup returns exactly the rows whose id is listed, in key order |
| Rows.ChildrenOf | addon/db.js:66-68 | the `parent_id` lookup returns exactly the rows with that parent, in key order |
| Rows.ShelvesOf | addon/db.js:176 | the `type` lookup returns exactly the shelf rows, in key order |
| Rows.FirstNamed | addon/db.js:179-180 | returns the first row whose upper-cased name matches, or none when no row matches |
| Rows.LimitRows | addon/db.js:121-123 | a positive `limit` yields exactly the first `limit` of the rows that pass the filter, or all of them when there are fewer; a negative (truthy) limit yields none; a missing or zero limit yields all |
| Rows.LimitKeepsOrder | addon/db.js:121-123 | the limited rows keep key order and are drawn from the filtered rows |
| Rows.SortByPos | addon/db.js:160-161 | the custom order is a permutation of its input, ascending by pos |
| Rows.InsertSorted | addon/db.js:160-161 | inserting into a pos-sorted list keeps it sorted |
| Rows.SortByPosStable | addon/db.js:160-161 | the sort is stable: rows with equal pos keep their relative order |
| Rows.SortByPosTiesById | addon/db.js:160-161 | on a key-ordered input, rows of equal pos come out in ascending id order |
| Queries.Matching | addon/db.js:132-158 | the filter keeps exactly the scanned rows its callback admits, in order; the search tests the uri as its text, "undefined" when missing and "null" when `null` |
| Queries.QueryAdmitted | addon/db.js:118-164 | every result row is stored and passes each active predicate: path, types, search on name or uri, group parent, subtree or root+subtree descendant, tags |
| Queries.QueryComplete | addon/db.js:118-164 | without a truthy limit, every stored row passing each active predicate is in the result |
| Queries.QueryEmptyFilters | addon/db.js:133-157 | an empty types or tags list, or path without a group, yields nothing |
| Queries.QueryLimit | addon/db.js:121-123 | a result never has more rows than a positive limit, and a negative limit returns no row |
| Queries.QueryLimitPrefix | addon/db.js:121-163 | with a truthy limit the result is the first `limit` rows, in id order, of the unlimited result; the custom order sorts those |
| Queries.QueryOrder | addon/db.js:160-163 | without the custom order the result is in id order; with it, the result is ascending by pos, with ties in id order |
| Queries.QueryGroupExact | addon/db.js:141-142 | the group depth returns exactly the stored children of the group |
| Queries.QuerySubtreeExact | addon/db.js:127-150 | the subtree depth returns exactly the strict descendants; root+subtree adds the group itself |
| Queries.QueryNoScope | addon/db.js:118-164 | without a group or a known depth, no scope filter applies |
| Db.DefaultShelf | addon/db.js:25-27 | the populated row is a parentless shelf at pos 1 with the reserved uuid "1" |
| Db.AddIds | addon/db.js:96-97 | one round adds exactly the ids of the child rows to the set |
| Db.ChildIdsExact | addon/db.js:93 | the ids read by the `parent_id` lookup are exactly the children, all of them descendants |
| Db.ReachedAll | addon/db.js:95-99 | after every child is visited, the set holds exactly the node's descendants |
| Db.WithoutIds | addon/db.js:172 | after `bulkDelete` the key list keeps exactly the surviving keys, still ascending |
| Db.FirstWithUuid | addon/db.js:203-204 | the uuid lookup finds a node carrying that uuid, or reports that none does |
| Db.AsIdList | addon/db.js:105-106 | a single id is read as a one-element list, and a list as itself, as queryFullSubtree does and deleteNodes evidently means to |
| Db.DeleteArgAsWritten | addon/db.js:167-168 | the guard tests the function object, so a single id is never wrapped |
| Db.SingleIdNotWrapped | addon/db.js:167-168 | the single id 7 stays a bare id where the intended normalisation gives [7] |
| Db.Storage.constructor | addon/db.js:19-27 | a new database holds only the default shelf under key 1, and no blobs or index entries |
| Db.Storage.Rows | addon/db.js:19-20 | reading the table, keyed by `++id`, yields every stored record once, in ascending id order |
| Db.Storage.AddNode | addon/db.js:35-44 | the datum gets the given uuid, the current time and, with reset_order, pos and todo_pos 1, even when the add fails; it is stored under its own id when it carries one, otherwise under the generated key above all keys; a taken id or uuid is rejected and the tables stay as they were |
| Db.Storage.Store | addon/db.js:42 | the record is stored under its key, the key list stays ascending with exactly that key added, and the generator moves past a key at or above it |
| Db.InsertKey | addon/db.js:42 | inserting a new key keeps the key list strictly ascending and adds exactly that key |
| Db.Storage.GetNode | addon/db.js:58-60 | returns the record with that key, or none exactly when no record has it |
| Db.Storage.GetNodes | addon/db.js:62-64 | returns exactly the stored records whose key is listed, each once, in key order |
| Db.Storage.GetChildNodes | addon/db.js:66-68 | returns exactly the stored records whose parent is the id, in key order |
| Db.Storage.UpdateNode | addon/db.js:82-90 | with a truthy id, stamps the object and merges it into that record, or makes no change when the key is missing; a merged uuid another record carries is rejected and nothing changes; without a truthy id, nothing changes; returns the update object |
| Db.Storage.UpdateNodes | addon/db.js:70-80 | applies the stamped entries in order; an entry without a key, or one whose merged uuid another record carries, aborts the transaction and leaves the table unchanged |
| Db.Storage.SelectAllChildrenOf | addon/db.js:92-102 | adds exactly the strict descendants of the node to the given set, and never the node itself |
| Db.Storage.VisitChild | addon/db.js:96-99 | one round of the loop adds every child id and every descendant of the visited child |
| Db.Storage.QueryFullSubtree | addon/db.js:104-116 | after reading a single id as a one-element list, returns exactly the stored records that are an input id or a strict descendant of one, each once, in key order |
| Db.Storage.QueryNodes | addon/db.js:118-164 | the result is exactly the query result the Queries lemmas characterise |
| Db.Storage.DeleteNodes | addon/db.js:166-173 | for an array of ids, removes the listed nodes and their blobs and index entries, and nothing else; descendants stay |
| Db.Storage.QueryShelf | addon/db.js:175-183 | without a truthy name, every shelf in key order; with one, the first shelf whose upper-cased name matches, or none when no shelf matches |
| Db.Storage.QueryGroup | addon/db.js:185-189 | the first child of the parent whose upper-cased name matches, or none when no child matches |
| Db.Storage.StoreBlob | addon/db.js:191-199 | for a stored node, adds one blob under the next blob key; a second blob for the node is rejected; for a missing node, nothing |
| Db.Storage.FetchBlob | addon/db.js:201-208 | returns the blob of the node with that id, or with that uuid when asked; a uuid no node carries finds nothing |
| Db.DeleteSubtreeLeavesNoDescendant | addon/db.js:104-116 | deleting what a subtree query resolved leaves no descendant of the deleted roots |
| Db.DeleteOrphansChildren | addon/db.js:166-173 | deleting a node without its subtree leaves its children pointing at the deleted id |
| TreeView.Repeat | addon/tree.js:91 | the separator text is that many copies of one character |
| TreeView.ToJsTreeNode | addon/tree.js:79-121 | text, parent, icon, anchor and tooltip attributes per node type, with the falsy parent, uri and icon cases |
| TreeView.ParentRoundTrip | addon/tree.js:82-84 | the widget parent gives back parent_id, except that the falsy id 0 is shown at the root |
| TreeView.TooltipShowsName | addon/tree.js:97-106 | the tooltip starts with the name, and is exactly the name when there is no truthy uri |
| TreeView.TypeTableRules | addon/tree.js:38-51 | only shelves go at the root; bookmarks, archives and separators hold nothing; shelves and groups hold anything |
| TreeView.CheckOperation | addon/tree.js:153-160 | every operation is allowed except a drag-and-drop copy |
| TreeView.ReorderNodes | addon/tree.js:179-191 | the i-th sibling gets pos i + 1 |
| TreeView.RenumberingDense | addon/tree.js:179-191 | the positions used are exactly 1 to N, ascending, with the siblings in their order |
| TreeView.FullMenu | addon/tree.js:213-440 | every item is declared, and only Paste can start disabled |
| TreeView.EveryKeyListed | addon/tree.js:213-440 | the declaration order lists every item key |
| TreeView.ContextMenu | addon/tree.js:195-474 | an item is present exactly when the node type's rule keeps it; it is disabled exactly when it is Paste with nothing pasteable or a target that is not a group or shelf, or when it is a single-target item on a multiselection |
| TreeView.PruneByType | addon/tree.js:442-463 | deletes exactly the items the node type's rule drops, and keeps the flags of the others |
| TreeView.RemoveGroupItems | addon/tree.js:444-448 | a group drops Open, Open Original and Properties |
| TreeView.RemoveBookmarkItems | addon/tree.js:449-456 | a bookmark or archive drops Open All, Sort, Open Original, New Folder and Rename |
| TreeView.KeepShelfItems | addon/tree.js:459-463 | a shelf keeps exactly New Folder, Rename and Paste |
| TreeView.DisableIfPresent | addon/tree.js:466 | disables the item if it is present, and leaves the set of items as it is |
| TreeView.DisableSingleTarget | addon/tree.js:465-472 | on a multiselection, disables exactly the six single-target items that are present |
| EditContent.TextNodeWalk.constructor | addon/edit-content.js:204 | the walk starts neither past the start nor at the end, with no nodes |
| EditContent.TextNodeWalk.GetTextNodes | addon/edit-content.js:205-219 | the walk updates its three variables exactly as the recursive step specification does |
| EditContent.GetTextNodesBetween | addon/edit-content.js:203-223 | returns the walk's result (nothing when start equals end); every returned node is non-blank text and neither endpoint |
| EditContent.Visited | addon/edit-content.js:205-219 | the visiting order starts with the node itself |
| EditContent.ScanAppend | addon/edit-content.js:215-217 | scanning two visiting orders in a row is scanning their concatenation |
| EditContent.StepIsScan | addon/edit-content.js:205-219 | the recursive walk equals the flat scan of its pruned pre-order |
| EditContent.StepAllIsScan | addon/edit-content.js:215-217 | the child loop, with its early exit, equals the flat scan of the children's visiting orders |
| EditContent.ScanMembers | addon/edit-content.js:205-219 | a scan collects exactly the non-blank text nodes that are neither endpoint, come after the start and come before any end |
| EditContent.ScanInOrder | addon/edit-content.js:205-219 | a scan only appends, and what it appends is a subsequence of the visiting order |
| EditContent.TextNodesBetweenMembers | addon/edit-content.js:203-223 | a node is returned exactly when it is non-blank text, neither endpoint, visited after the start and before any end node |
| EditContent.TextNodesBetweenInOrder | addon/edit-content.js:203-223 | the result is in document order |
| EditContent.TextNodesBetweenEmpty | addon/edit-content.js:220-222 | nothing is returned when start equals end, or when the start is never visited before an end node |
| EditContent.TextNodesBetweenAreText | addon/edit-content.js:210-212 | every returned node is non-blank text and neither endpoint |

## Left out

- Asynchrony, promises and Dexie transactions are not modelled. Each store method is one atomic step, and `UpdateNodes` models the transaction abort as a rollback.
- The clock, the uuid generator, `RegExp` and `toLocaleUpperCase` are parameters. Their own behaviour is not modelled.
- Db.Storage.AddNode: a rejected add leaves the key generator where it was. Whether Dexie consumes a key on a failed add is not modelled. Keys are integers: an explicit id that is a fraction, a string or another kind of key is not modelled.
- Db.Storage.DeleteNodes: takes an array of ids, which is what its caller in addon/tree.js passes. A single id reaches `anyOf` and `bulkDelete` unwrapped (see Findings). What Dexie then does with it is not modelled.
- Db.Storage.UpdateNodes: the whole batch is stamped with one clock reading `now`. The source reads the clock again for each entry, so the entries of one batch can get different date_modified values; that is not modelled.
- Db.Storage.QueryShelf, Db.Storage.QueryGroup and TreeView.ToJsTreeNode: every record has a `name` string. A record without a name is not modelled. In the source, the upper-casing in queryShelf and queryGroup would throw on such a record, the search would test the text "undefined", and the tree text would be undefined.
- Db.Storage.UpdateNodes: on an abort the caller's entries up to the failing one have already been stamped in place. The method returns only the error, so that in-place stamping is not modelled.
- Db.Storage.SelectAllChildrenOf: requires that no node below the start node lies on a cycle. There the source never terminates, and a non-terminating recursion is not modelled.
- Rows.LimitRows: reads Dexie's `limit(n)` as counting only rows that pass the collection's filter, and a negative `n` as admitting no row. The model assumes this behaviour of Dexie; Dexie itself is not part of this model. Limits are integers: a fractional or non-numeric `limit` is not modelled.
- Db.Storage.QueryNodes: `pos` is always an integer. A missing `pos`, where the comparator yields NaN, is not modelled.
- IndexedDB's key comparison is not modelled. Numeric keys and string keys are different keys (`Key`); keys and ids are integers.
- TreeView.ToJsTreeNode: returns a new value instead of mutating the record in place. The returned value holds the original record, and aliasing with the widget's data array is not modelled.
- TreeView.ContextMenu: the `items` object is a map from item key to its `_disabled` flag. Labels, separators, each item's action, the TODO submenu, and the key insertion order of the returned object are not modelled.
- TreeView.ReorderNodes: takes the sibling ids. The widget lookups and the backend call that sends the positions are not modelled.
- The jstree widget wiring, `moveNode`, `update`, click handlers and the other parts of `addon/tree.js` are not modelled. So are `addon/background.js` message routing and the rest of `addon/edit-content.js` (toolbar, `surround`, markers).
- EditContent.GetTextNodesBetween: DOM node identity is the `key` field. Node types other than text and element behave like childless elements, as comments do in the source.

## Findings

| source | as written | input that shows it | evidently intended | confidence | as-written member | corrected member |
|---|---|---|---|---|---|---|
| addon/db.js:167-168 | the guard negates `Array.isArray` itself, not a call of it, so it is always false | `deleteNodes(7)`: the single id is never wrapped, and the table operations receive a bare number | wrap a single id into a one-element list, as queryFullSubtree does at addon/db.js:105-106 | high that the wrap never happens; the effect inside Dexie is not modelled; not executed | Db.DeleteArgAsWritten | Db.AsIdList |
