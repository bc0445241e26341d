/** The view-model side of addon/tree.js: how a node record is shown in the
    bookmark tree, which drag-and-drop operations are allowed, the dense
    renumbering of siblings after a move, and the context menu's item table. */
module TreeView {
  import opened Records

  /** A node's parent in the widget: the root "#" or a node id. */
  datatype TreeParent = Root | ParentNode(id: int)

  /** `a_attr`: none, the separator class, or the clickable anchor data. */
  datatype AnchorAttr = NoAnchorAttr | SeparatorAnchor(cssClass: string) | Clickable(dataId: int, clickable: string)

  /** `li_attr`: none, or the tooltip class and its title. */
  datatype ItemAttr = NoItemAttr | Tooltip(cssClass: string, title: string)

  /** The record after `toJsTreeNode`: the stored node together with the
      properties the widget reads. */
  datatype JsTreeNode = JsTreeNode(
    original: Node,
    text: string,
    parent: TreeParent,
    icon: Option<string>,
    aAttr: AnchorAttr,
    liAttr: ItemAttr,
    dataUuid: string)

  const ShelfIcon: string := "/icons/bookmarks.svg"
  const GroupIcon: string := "/icons/group.svg"
  const DefaultIcon: string := "/icons/homepage.png"
  const SeparatorWidth: nat := 30

  function Repeat(c: char, k: nat): (s: string)
    ensures |s| == k && forall i :: 0 <= i < k ==> s[i] == c
  {
    if k == 0 then "" else [c] + Repeat(c, k - 1)
  }

  /** `"\n" + uri` when the uri is truthy (given and not empty), nothing
      otherwise.  The truncation branch is never taken: its condition is
      the constant `false`. */
  function UriSuffix(uri: UriValue): string {
    if uri.UriString? && uri.text != "" then "\n" + uri.text else ""
  }

  /** toJsTreeNode. */
  function ToJsTreeNode(n: Node): (d: JsTreeNode)
    ensures d.original == n && d.dataUuid == n.uuid
    ensures d.parent == Root <==> n.parentId.None? || n.parentId == Some(0)
    ensures d.parent.ParentNode? ==> n.parentId == Some(d.parent.id)
    ensures n.nodeType != Separator ==> d.text == n.name
    ensures n.nodeType == Separator ==>
      |d.text| == SeparatorWidth && (forall i :: 0 <= i < |d.text| ==> d.text[i] == '─') &&
      d.aAttr == SeparatorAnchor("separator-node") && d.liAttr == NoItemAttr && d.icon == n.icon
    ensures n.nodeType == Shelf ==> d.icon == Some(ShelfIcon) && d.aAttr == NoAnchorAttr && d.liAttr == NoItemAttr
    ensures n.nodeType == Group ==> d.icon == Some(GroupIcon) && d.aAttr == NoAnchorAttr && d.liAttr == NoItemAttr
    ensures n.nodeType in {Bookmark, Archive} ==>
      && d.liAttr == Tooltip("show_tooltip", n.name + UriSuffix(n.uri))
      && d.aAttr == Clickable(n.id, "true")
      && (n.icon.Some? && n.icon.value != "" ==> d.icon == n.icon)
      && (n.icon.None? || n.icon.value == "" ==> d.icon == Some(DefaultIcon))
  {
    var parent := if n.parentId.None? || n.parentId.value == 0 then Root else ParentNode(n.parentId.value);
    var base := JsTreeNode(n, n.name, parent, n.icon, NoAnchorAttr, NoItemAttr, n.uuid);
    match n.nodeType
    case Shelf => base.(icon := Some(ShelfIcon))
    case Group => base.(icon := Some(GroupIcon))
    case Separator => base.(text := Repeat('─', SeparatorWidth), aAttr := SeparatorAnchor("separator-node"))
    case _ =>
      var icon := if n.icon.None? || n.icon.value == "" then Some(DefaultIcon) else n.icon;
      base.(liAttr := Tooltip("show_tooltip", base.text + UriSuffix(n.uri)),
            aAttr := Clickable(n.id, "true"),
            icon := icon)
  }

  /** The widget's parent as the `parent_id` it came from. */
  function ParentIdOf(p: TreeParent): Option<int> {
    match p
    case Root => None
    case ParentNode(id) => Some(id)
  }

  /** The display parent gives back the stored parent_id, except that the
      falsy parent_id 0 is shown at the root like a missing one. */
  lemma ParentRoundTrip(n: Node)
    ensures n.parentId != Some(0) ==> ParentIdOf(ToJsTreeNode(n).parent) == n.parentId
    ensures n.parentId == Some(0) ==> ToJsTreeNode(n).parent == Root
  {
  }

  /** The tooltip title starts with the node's name, and is exactly the name
      when the node has no (truthy) uri. */
  lemma TooltipShowsName(n: Node)
    requires n.nodeType == Bookmark || n.nodeType == Archive
    ensures ToJsTreeNode(n).liAttr.Tooltip?
    ensures n.name <= ToJsTreeNode(n).liAttr.title
    ensures (!n.uri.UriString? || n.uri.text == "") <==> ToJsTreeNode(n).liAttr.title == n.name
  {
    var title := ToJsTreeNode(n).liAttr.title;
    if n.uri.UriString? && n.uri.text != "" {
      assert |title| > |n.name|;
    }
  }

  /** A widget position that can hold children: the root "#" or a node of
      some type. */
  datatype Slot = RootSlot | NodeSlot(nodeType: NodeType)

  /** The `types` plugin table: `valid_children` of each listed type; types
      without an entry accept any child. */
  function ValidChildren(s: Slot): Option<seq<NodeType>> {
    match s
    case RootSlot => Some([Shelf])
    case NodeSlot(Bookmark) => Some([])
    case NodeSlot(Archive) => Some([])
    case NodeSlot(Separator) => Some([])
    case NodeSlot(_) => None
  }

  predicate MayHoldChild(s: Slot, child: NodeType) {
    var v := ValidChildren(s);
    v.None? || child in v.value
  }

  /** Only shelves sit at the root; bookmarks, archives and separators hold
      nothing; shelves and groups hold anything. */
  lemma TypeTableRules(s: Slot, child: NodeType)
    ensures s == RootSlot ==> (MayHoldChild(s, child) <==> child == Shelf)
    ensures s.NodeSlot? && s.nodeType in {Bookmark, Archive, Separator} ==> !MayHoldChild(s, child)
    ensures s.NodeSlot? && s.nodeType in {Shelf, Group} ==> MayHoldChild(s, child)
  {
  }

  /** checkOperation: every tree operation but a drag-and-drop copy. */
  function CheckOperation(operation: string): (allowed: bool)
    ensures allowed <==> operation != "copy_node"
  {
    if operation == "copy_node" then false
    else true
  }

  /** One entry of the positions list sent to the backend. */
  datatype Position = Position(id: int, pos: int)

  /** reorderNodes: the i-th sibling gets pos i + 1. */
  method ReorderNodes(siblings: seq<int>) returns (positions: seq<Position>)
    ensures |positions| == |siblings|
    ensures forall i :: 0 <= i < |siblings| ==> positions[i].id == siblings[i] && positions[i].pos == i + 1
  {
    positions := [];
    var i := 0;
    while i < |siblings|
      invariant 0 <= i <= |siblings|
      invariant |positions| == i
      invariant forall k :: 0 <= k < i ==> positions[k].id == siblings[k] && positions[k].pos == k + 1
    {
      var node := Position(siblings[i], i + 1);
      positions := positions + [node];
      i := i + 1;
    }
  }

  predicate Renumbered(siblings: seq<int>, positions: seq<Position>) {
    |positions| == |siblings| &&
    forall i :: 0 <= i < |siblings| ==> positions[i].id == siblings[i] && positions[i].pos == i + 1
  }

  function PositionsUsed(positions: seq<Position>): set<int> {
    set i | 0 <= i < |positions| :: positions[i].pos
  }

  /** The renumbering is dense: the positions used are exactly 1..N, each
      once, ascending in sibling order; and the ids read back in order are
      the siblings. */
  lemma RenumberingDense(siblings: seq<int>, positions: seq<Position>)
    requires Renumbered(siblings, positions)
    ensures forall p :: p in PositionsUsed(positions) <==> 1 <= p <= |siblings|
    ensures forall i, j :: 0 <= i < j < |positions| ==> positions[i].pos < positions[j].pos
    ensures seq(|positions|, i requires 0 <= i < |positions| => positions[i].id) == siblings
  {
    forall p | 1 <= p <= |siblings| ensures p in PositionsUsed(positions) {
      assert positions[p - 1].pos == p;
    }
  }

  /** The keys of the `items` object. */
  datatype MenuKey =
    | OpenItem | OpenAllItem | SortItem | OpenOriginalItem | NewFolderItem | NewSeparatorItem
    | CutItem | CopyItem | PasteItem | TodoItem | DeleteItem | PropertiesItem | RenameItem

  /** The keys of the `items` object in declaration order, the order a
      for-in loop over the object visits them. */
  const MenuOrder: seq<MenuKey> := [
    OpenItem, OpenAllItem, SortItem, OpenOriginalItem, NewFolderItem, NewSeparatorItem,
    CutItem, CopyItem, PasteItem, TodoItem, DeleteItem, PropertiesItem, RenameItem]

  /** The `items` object as first built, each key mapped to its `_disabled`
      flag: only Paste starts disabled, when pasting is not possible. */
  function FullMenu(pasteDisabled: bool): (items: map<MenuKey, bool>)
    ensures forall k :: k in items
    ensures forall k :: items[k] == (k == PasteItem && pasteDisabled)
  {
    var items := map k | k in MenuOrder :: k == PasteItem && pasteDisabled;
    forall k ensures k in items {
      EveryKeyListed(k);
    }
    items
  }

  lemma EveryKeyListed(k: MenuKey)
    ensures k in MenuOrder
  {
    match k
    case OpenItem => assert MenuOrder[0] == k;
    case OpenAllItem => assert MenuOrder[1] == k;
    case SortItem => assert MenuOrder[2] == k;
    case OpenOriginalItem => assert MenuOrder[3] == k;
    case NewFolderItem => assert MenuOrder[4] == k;
    case NewSeparatorItem => assert MenuOrder[5] == k;
    case CutItem => assert MenuOrder[6] == k;
    case CopyItem => assert MenuOrder[7] == k;
    case PasteItem => assert MenuOrder[8] == k;
    case TodoItem => assert MenuOrder[9] == k;
    case DeleteItem => assert MenuOrder[10] == k;
    case PropertiesItem => assert MenuOrder[11] == k;
    case RenameItem => assert MenuOrder[12] == k;
  }

  const ShelfKeys: set<MenuKey> := {NewFolderItem, RenameItem, PasteItem}
  const GroupRemoved: set<MenuKey> := {OpenItem, OpenOriginalItem, PropertiesItem}
  const BookmarkRemoved: set<MenuKey> := {OpenAllItem, SortItem, OpenOriginalItem, NewFolderItem, RenameItem}
  const MultiselectDisabled: set<MenuKey> :=
    {SortItem, RenameItem, OpenAllItem, NewFolderItem, PropertiesItem, OpenOriginalItem}

  /** The pruning rule of the menu for a context node of type `t`. */
  predicate Kept(t: NodeType, key: MenuKey) {
    match t
    case Shelf => key in ShelfKeys
    case Group => key !in GroupRemoved
    case Bookmark => key !in BookmarkRemoved
    case Archive => key !in BookmarkRemoved
    case Separator => true
  }

  /** Set the `_disabled` flag of an item, when the item is still present. */
  function DisableIfPresent(items: map<MenuKey, bool>, key: MenuKey): (r: map<MenuKey, bool>)
    ensures r.Keys == items.Keys
    ensures forall k :: k in items ==> r[k] == (items[k] || k == key)
  {
    if key in items then items[key := true] else items
  }

  /** contextMenu: build the item table, prune it by the context node's
      type, then disable the single-target items on a multiselection.  An
      item is present exactly when the type's rule keeps its key, and it is
      disabled exactly when it is Paste with nothing pasteable or no
      group/shelf target, or a single-target item on a multiselection. */
  method ContextMenu(ctxType: NodeType, selectedCount: nat, canPaste: bool) returns (items: map<MenuKey, bool>)
    ensures forall k :: k in items <==> Kept(ctxType, k)
    ensures forall k :: k in items ==>
      (items[k] <==>
        (k == PasteItem && !(canPaste && (ctxType == Group || ctxType == Shelf))) ||
        (selectedCount > 1 && k in MultiselectDisabled))
  {
    var pasteDisabled := !(canPaste && (ctxType == Group || ctxType == Shelf));
    items := FullMenu(pasteDisabled);
    items := PruneByType(ctxType, items);
    if selectedCount > 1 {
      items := DisableSingleTarget(items);
    }
  }

  /** The type-dependent deletions from the full item table. */
  method PruneByType(ctxType: NodeType, items: map<MenuKey, bool>) returns (r: map<MenuKey, bool>)
    requires forall k :: k in items
    ensures forall k :: k in r <==> Kept(ctxType, k)
    ensures forall k :: k in r ==> r[k] == items[k]
  {
    if ctxType != Shelf {
      match ctxType
      case Group =>
        r := RemoveGroupItems(items);
      case Archive =>
        r := RemoveBookmarkItems(items);
      case Bookmark =>
        r := RemoveBookmarkItems(items);
      case Separator =>
        r := items;
    } else {
      r := KeepShelfItems(items);
    }
  }

  /** On a multiselection, disable the items that act on a single node. */
  method DisableSingleTarget(items: map<MenuKey, bool>) returns (r: map<MenuKey, bool>)
    ensures r.Keys == items.Keys
    ensures forall k :: k in r ==> r[k] == (items[k] || k in MultiselectDisabled)
  {
    r := DisableIfPresent(items, SortItem);
    r := DisableIfPresent(r, RenameItem);
    r := DisableIfPresent(r, OpenAllItem);
    r := DisableIfPresent(r, NewFolderItem);
    r := DisableIfPresent(r, PropertiesItem);
    r := DisableIfPresent(r, OpenOriginalItem);
  }

  method RemoveGroupItems(items: map<MenuKey, bool>) returns (r: map<MenuKey, bool>)
    ensures r.Keys == items.Keys - GroupRemoved
    ensures forall k :: k in r ==> r[k] == items[k]
  {
    r := items - {OpenItem};
    r := r - {OpenOriginalItem};
    r := r - {PropertiesItem};
  }

  /** The shelf branch: visit every key and delete those not kept. */
  method KeepShelfItems(items: map<MenuKey, bool>) returns (r: map<MenuKey, bool>)
    requires forall k :: k in items
    ensures r.Keys == ShelfKeys
    ensures forall k :: k in r ==> r[k] == items[k]
  {
    r := items;
    for i := 0 to |MenuOrder|
      invariant forall k :: k in r <==> k in ShelfKeys || k !in MenuOrder[..i]
      invariant forall k :: k in r ==> r[k] == items[k]
    {
      var k := MenuOrder[i];
      if k !in ShelfKeys {
        r := r - {k};
      }
      assert MenuOrder[..i + 1] == MenuOrder[..i] + [k];
    }
    forall k ensures k in r <==> k in ShelfKeys {
      EveryKeyListed(k);
      assert MenuOrder[..|MenuOrder|] == MenuOrder;
    }
  }

  method RemoveBookmarkItems(items: map<MenuKey, bool>) returns (r: map<MenuKey, bool>)
    ensures r.Keys == items.Keys - BookmarkRemoved
    ensures forall k :: k in r ==> r[k] == items[k]
  {
    r := items - {OpenAllItem};
    r := r - {SortItem};
    r := r - {OpenOriginalItem};
    r := r - {NewFolderItem};
    r := r - {RenameItem};
  }
}
