/**
 * Integration of one item into a FugueMax document
 * (backend/fuguemax/fugue-max-crdt.go): id lookup, origin lookup, the scan
 * between the new item's origins that settles concurrent inserts, and the
 * splice.
 */
module FugueIntegrate {
  import opened Base
  import opened Items
  import opened FugueDoc

  /** `idsEqual`: the field-by-field test adds nothing to struct equality. */
  function IdsEqual(id1: ID, id2: ID): (r: bool)
    ensures r <==> id1 == id2
  {
    id1 == id2 || (id1.agent == id2.agent && id1.seqNo == id2.seqNo)
  }

  /** `findIndexById`: the first index holding `id`, or -1 when no item has it. */
  function FindIndexById(items: seq<Item>, id: ID): (r: int)
    ensures -1 <= r < |items|
    ensures r >= 0 ==> items[r].id == id && forall k :: 0 <= k < r ==> items[k].id != id
    ensures r == -1 <==> forall k :: 0 <= k < |items| ==> items[k].id != id
  {
    FindIdFrom(items, id, 0)
  }

  /** The loop of `findIndexById` from index `i` on. */
  function FindIdFrom(items: seq<Item>, id: ID, i: nat): (r: int)
    requires i <= |items|
    ensures r == -1 || i <= r < |items|
    ensures r >= 0 ==> items[r].id == id && forall k :: i <= k < r ==> items[k].id != id
    ensures r == -1 <==> forall k :: i <= k < |items| ==> items[k].id != id
    decreases |items| - i
  {
    if i == |items| then -1
    else if IdsEqual(items[i].id, id) then i
    else FindIdFrom(items, id, i + 1)
  }

  /** With unique ids, the lookup of the item at index `k` finds `k`. */
  lemma FindIndexOfUnique(items: seq<Item>, k: nat)
    requires UniqueIds(items) && k < |items|
    ensures FindIndexById(items, items[k].id) == k
  {
  }

  /** `findOriginIndex`: -1 for the start marker, the list length for the end marker, else the item's index. */
  function FindOriginIndex(items: seq<Item>, o: Origin): (r: int)
    ensures -1 <= r <= |items|
  {
    match o
    case Beginning => -1
    case Ending => |items|
    case ItemId(id) => FindIndexById(items, id)
  }

  /**
   * With unique ids, origin indices order the origins as the document does:
   * the start marker before every item, each item's id at its own index,
   * and the end marker after every item.
   */
  lemma FindOriginOrder(items: seq<Item>, k: nat)
    requires UniqueIds(items) && k < |items|
    ensures FindOriginIndex(items, Beginning) < FindOriginIndex(items, ItemId(items[k].id)) == k
    ensures k < FindOriginIndex(items, Ending)
  {
    FindIndexOfUnique(items, k);
  }

  /**
   * An item the scan moved past: its left origin is not left of the new
   * item's, and if both origins coincide with the new item's, the new item's
   * agent does not sort before its agent.
   */
  ghost predicate Passed(items: seq<Item>, newItem: Item, newLeft: int, newRight: int, k: nat)
    requires k < |items|
  {
    var existingLeft := FindOriginIndex(items, items[k].originLeft);
    var existingRight := FindOriginIndex(items, items[k].originRight);
    && existingLeft >= newLeft
    && (existingLeft == newLeft && existingRight == newRight ==> !StringLess(newItem.id.agent, items[k].id.agent))
  }

  /**
   * The item right after the left origin lies strictly between the new
   * item's origins, has exactly the new item's origins, and its agent does
   * not sort after the new item's: the scan must move past it.
   */
  ghost predicate LosesFirstTie(items: seq<Item>, newItem: Item, newLeft: int, newRight: int)
  {
    var k := newLeft + 1;
    && 0 <= k < |items| && k < newRight
    && FindOriginIndex(items, items[k].originLeft) == newLeft
    && FindOriginIndex(items, items[k].originRight) == newRight
    && !StringLess(newItem.id.agent, items[k].id.agent)
  }

  /**
   * Where the scan may put `newItem`: after its left origin, not past its
   * right origin (unless that is missing or left of the left origin), right
   * after the left origin when nothing lies between the origins, only after
   * items the scan moved past, and past the first item when that one is an
   * exact conflict the new item loses.
   */
  ghost predicate Placed(items: seq<Item>, newItem: Item, dest: int)
  {
    var newLeft := FindOriginIndex(items, newItem.originLeft);
    var newRight := FindOriginIndex(items, newItem.originRight);
    && newLeft < dest <= |items|
    && dest <= Max(newLeft + 1, newRight)
    && (newRight <= newLeft + 1 ==> dest == newLeft + 1)
    && (forall k :: newLeft < k < dest ==> Passed(items, newItem, newLeft, newRight, k))
    && (LosesFirstTie(items, newItem, newLeft, newRight) ==> dest > newLeft + 1)
  }

  /**
   * The scan of `Integrate`: walk from just after the left origin towards
   * the right origin. Items whose left origin lies further left end the scan;
   * siblings with the same left origin are skipped, tentatively when their
   * right origin is nearer (`scanning`) and for good otherwise; exact
   * conflicts are ordered by agent name.
   */
  method FindDestIndex(items: seq<Item>, newItem: Item) returns (destIndex: nat)
    ensures Placed(items, newItem, destIndex)
  {
    var newLeft := FindOriginIndex(items, newItem.originLeft);
    var newRight := FindOriginIndex(items, newItem.originRight);
    destIndex := newLeft + 1;
    var scanning := false;

    var i := destIndex;
    while i <= newRight
      invariant newLeft + 1 <= destIndex <= i <= |items|
      invariant i == newLeft + 1 || i <= newRight
      invariant newRight <= newLeft + 1 ==> i == newLeft + 1 && destIndex == newLeft + 1
      invariant forall k :: newLeft < k < i ==> Passed(items, newItem, newLeft, newRight, k)
      invariant LosesFirstTie(items, newItem, newLeft, newRight) && i > newLeft + 1 ==>
        destIndex > newLeft + 1 || (!scanning && i == newLeft + 2)
      decreases newRight - i
    {
      if !scanning {
        destIndex := i;
      }
      if i == newRight || i == |items| {
        break;
      }
      var existingItem := items[i];
      var existingLeft := FindOriginIndex(items, existingItem.originLeft);
      var existingRight := FindOriginIndex(items, existingItem.originRight);
      if existingLeft < newLeft {
        break;
      } else if existingLeft == newLeft {
        if existingRight < newRight {
          scanning := true;
        } else if existingRight == newRight {
          if StringLess(newItem.id.agent, existingItem.id.agent) {
            break;
          } else {
            scanning := false;
          }
        } else {
          scanning := false;
        }
      }
      i := i + 1;
    }
  }

  /** `after` is `before` with `x` spliced in at index `dest`. */
  ghost predicate InsertedAt(before: seq<Item>, after: seq<Item>, x: Item, dest: int)
  {
    0 <= dest <= |before| && after == before[..dest] + [x] + before[dest..]
  }

  /**
   * `Integrate`: panics unless the item is the next operation of its agent;
   * otherwise records it in the version and splices it in where the scan
   * says. The panic comes before any change. Every other agent's version
   * entry and every existing item, with its flag and relative order, stays
   * as it was.
   */
  method Integrate(d: Doc, newItem: Item) returns (r: Outcome)
    ensures r.Panic? <==> newItem.id.seqNo != AddU64(SeenSeq(d.version, newItem.id.agent), 1)
    ensures r.Panic? ==> r == Panic(d, OutOfOrder)
    ensures !r.Err?
    ensures r.Ok? ==> r.doc.agent == d.agent
    ensures r.Ok? ==> r.doc.version == d.version[newItem.id.agent := newItem.id.seqNo]
    ensures r.Ok? ==> exists dest :: Placed(d.items, newItem, dest) && InsertedAt(d.items, r.doc.items, newItem, dest)
  {
    var lastSeenSeq := SeenSeq(d.version, newItem.id.agent);
    var newSeq := newItem.id.seqNo;
    if newSeq != AddU64(lastSeenSeq, 1) {
      return Panic(d, OutOfOrder);
    }

    var version := d.version[newItem.id.agent := newSeq];
    var destIndex := FindDestIndex(d.items, newItem);
    var items := d.items[..destIndex] + [newItem] + d.items[destIndex..];
    assert InsertedAt(d.items, items, newItem, destIndex);
    r := Ok(Doc(d.agent, items, version));
  }

  /** What a splice does to ids, visible count and text. */
  lemma InsertedAtFacts(before: seq<Item>, after: seq<Item>, x: Item, dest: int)
    requires InsertedAt(before, after, x, dest)
    ensures |after| == |before| + 1
    ensures multiset(Ids(after)) == multiset(Ids(before)) + multiset{x.id}
    ensures Visible(after) == Visible(before) + (if x.deleted then 0 else 1)
    ensures Content(after) == Content(before[..dest]) + (if x.deleted then "" else x.content) + Content(before[dest..])
  {
    var left, right := before[..dest], before[dest..];
    assert before == left + right;
    assert Ids(after) == Ids(left) + [x.id] + Ids(right);
    assert Ids(before) == Ids(left) + Ids(right);
    ContentAppend(left + [x], right);
    ContentAppendItem(left, x);
    ContentAppend(left, right);
  }

  /** A splice adds exactly the spliced item and keeps every other item as it was. */
  lemma InsertedAtItems(before: seq<Item>, after: seq<Item>, x: Item, dest: int)
    requires InsertedAt(before, after, x, dest)
    ensures multiset(after) == multiset(before) + multiset{x}
  {
    assert before == before[..dest] + before[dest..];
  }
}
