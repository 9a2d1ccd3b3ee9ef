/**
 * The FugueMax document of backend/fuguemax/fugue-max-crdt.go: its state,
 * the text it shows, the lookup from a visible position to a list index,
 * and local deletion.
 *
 * The source mutates a `*Doc` in place and returns `(success, error)`; here
 * every operation returns an `Outcome` carrying the document as it is when
 * the operation returns, so an error keeps whatever was changed before it.
 * A Go panic is the `Panic` outcome, which likewise carries the document as
 * the panic leaves it: the web server recovers from a handler's panic and
 * keeps using the replica.
 */
module FugueDoc {
  import opened Base
  import opened Items

  /** Highest sequence number integrated so far, per agent. */
  type Version = map<string, uint64>

  /** Go's map read: an agent that is not in the map reads as 0. */
  function SeenSeq(v: Version, agent: string): uint64
  {
    if agent in v then v[agent] else 0
  }

  /** A replica: its own agent name, the item list with tombstones, and its version. */
  datatype Doc = Doc(agent: string, items: seq<Item>, version: Version)

  /** The errors the source returns. */
  datatype Error = ItemNotFound | NotMakingProgress

  /** The source's panics: the explicit out-of-order panic and Go's index-out-of-range panic. */
  datatype PanicReason = OutOfOrder | IndexOutOfRange

  datatype Outcome =
    | Ok(doc: Doc)
    | Err(doc: Doc, error: Error)
    | Panic(doc: Doc, reason: PanicReason)

  /** A fresh replica for `agent`: no items and nothing seen from anybody. */
  function NewDoc(agent: string): (d: Doc)
    ensures d.agent == agent && |d.items| == 0
    ensures forall a :: SeenSeq(d.version, a) == 0
  {
    Doc(agent, [], map[])
  }

  /** The shown text: contents of the live items in list order. */
  method StringContent(d: Doc) returns (r: string)
    ensures r == Content(d.items)
    ensures SingleChars(d.items) ==> |r| == Visible(d.items)
  {
    r := ConcatVisible(d.items);
    if SingleChars(d.items) {
      ContentLength(d.items);
    }
  }

  /**
   * Maps visible position `pos` to a list index, skipping tombstones. In
   * insert mode the answer is the first index with exactly `pos` live items
   * before it; in delete mode it is the index of the live item at visible
   * position `pos`, or the list length when `pos` is the visible count.
   */
  function FindItemIndexAtPos(items: seq<Item>, pos: uint64, isInsert: bool): (r: Result<nat, Error>)
    ensures r.Failure? <==> pos > Visible(items)
    ensures r.Failure? ==> r.error == ItemNotFound
    ensures r.Success? ==> r.value <= |items| && Visible(items[..r.value]) == pos
    ensures isInsert && r.Success? ==> forall j :: 0 <= j < r.value ==> Visible(items[..j]) < pos
    ensures !isInsert && r.Success? ==> (r.value == |items| <==> pos == Visible(items))
    ensures !isInsert && r.Success? && r.value < |items| ==> !items[r.value].deleted
  {
    assert items[..0] == [];
    ScanForPos(items, pos, isInsert, 0)
  }

  /** The loop of `findItemIndexAtPos` from index `i` on, with `pos` live items still to pass. */
  function ScanForPos(items: seq<Item>, pos: nat, isInsert: bool, i: nat): (r: Result<nat, Error>)
    requires i <= |items|
    ensures r.Failure? <==> Visible(items[..i]) + pos > Visible(items)
    ensures r.Failure? ==> r.error == ItemNotFound
    ensures r.Success? ==> i <= r.value <= |items| && Visible(items[..r.value]) == Visible(items[..i]) + pos
    ensures isInsert && r.Success? ==>
      forall j :: i <= j < r.value ==> Visible(items[..j]) < Visible(items[..i]) + pos
    ensures !isInsert && r.Success? ==> (r.value == |items| <==> Visible(items[..i]) + pos == Visible(items))
    ensures !isInsert && r.Success? && r.value < |items| ==> !items[r.value].deleted
    decreases |items| - i
  {
    assert items[..|items|] == items;
    if i == |items| then
      if pos == 0 then Success(i) else Failure(ItemNotFound)
    else if isInsert && pos == 0 then
      VisiblePrefixMonotone(items, i, |items|);
      Success(i)
    else if items[i].deleted then
      VisiblePrefixStep(items, i);
      ScanForPos(items, pos, isInsert, i + 1)
    else if pos == 0 then
      VisiblePrefixMonotone(items, i, |items|);
      Success(i)
    else
      VisiblePrefixStep(items, i);
      ScanForPos(items, pos - 1, isInsert, i + 1)
  }

  /** How many of `m` deletions starting at visible position `pos` fall before a point of visible position `rank`. */
  function Clamp(rank: int, pos: int, m: nat): nat
  {
    if rank <= pos then 0 else if rank - pos >= m then m else rank - pos
  }

  /**
   * The list after deleting `n` visible items from visible position `pos`:
   * the live items whose visible position is in `pos .. pos + n - 1` become
   * tombstones and nothing else changes.
   */
  function MarkDeleted(items: seq<Item>, pos: nat, n: int): seq<Item>
  {
    seq(|items|, i requires 0 <= i < |items| =>
      if !items[i].deleted && pos <= Visible(items[..i]) < pos + n then items[i].(deleted := true) else items[i])
  }

  /** Visible positions after `m` deletions from `pos`: every point past the deleted span moves left by `m`. */
  lemma {:induction false} MarkDeletedRank(items: seq<Item>, pos: nat, m: nat, i: nat)
    requires i <= |items|
    ensures Visible(MarkDeleted(items, pos, m)[..i])
      == Visible(items[..i]) - Clamp(Visible(items[..i]), pos, m)
  {
    var marked := MarkDeleted(items, pos, m);
    if i == 0 {
      assert marked[..0] == [] && items[..0] == [];
    } else {
      MarkDeletedRank(items, pos, m, i - 1);
      VisiblePrefixStep(marked, i - 1);
      VisiblePrefixStep(items, i - 1);
    }
  }

  /** Deleting `m` visible items from `pos` lowers the visible count by `m` when they all exist. */
  lemma MarkDeletedVisible(items: seq<Item>, pos: nat, m: nat)
    ensures Visible(MarkDeleted(items, pos, m)) == Visible(items) - Clamp(Visible(items), pos, m)
    ensures pos + m <= Visible(items) ==> Visible(MarkDeleted(items, pos, m)) == Visible(items) - m
  {
    var marked := MarkDeleted(items, pos, m);
    MarkDeletedRank(items, pos, m, |items|);
    assert marked[..|marked|] == marked && items[..|items|] == items;
  }

  /** Deleting only sets tombstone flags: ids, contents and origins stay where they were. */
  lemma MarkDeletedKeepsIds(items: seq<Item>, pos: nat, n: int)
    ensures Ids(MarkDeleted(items, pos, n)) == Ids(items)
  {
  }

  /** Deleting nothing changes nothing. */
  lemma MarkDeletedNone(items: seq<Item>, pos: nat)
    ensures MarkDeleted(items, pos, 0) == items
  {
  }

  /**
   * One more step of `LocalDelete`: the live item now at visible position
   * `pos` is the one that was at `pos + m`, and marking it extends the
   * deleted span by one.
   */
  lemma MarkDeletedStep(items: seq<Item>, pos: nat, m: nat, index: nat)
    requires index < |items|
    requires !MarkDeleted(items, pos, m)[index].deleted
    requires Visible(MarkDeleted(items, pos, m)[..index]) == pos
    ensures Visible(items[..index]) == pos + m
    ensures MarkDeleted(items, pos, m)[index := MarkDeleted(items, pos, m)[index].(deleted := true)]
      == MarkDeleted(items, pos, m + 1)
  {
    var cur := MarkDeleted(items, pos, m);
    MarkDeletedRank(items, pos, m, index);
    var rank := Visible(items[..index]);
    assert !items[index].deleted;
    assert rank == pos + m;
    var next := cur[index := cur[index].(deleted := true)];
    forall j | 0 <= j < |items|
      ensures next[j] == MarkDeleted(items, pos, m + 1)[j]
    {
      if j < index {
        VisiblePrefixMonotone(items, j, index);
      } else if j > index {
        VisiblePrefixMonotone(items, index, j);
      }
    }
  }

  /**
   * The lookup `LocalDelete` makes after `m` deletions: an error only when
   * `pos` was never visible, the list length once the span ran out, and
   * otherwise a live item whose marking extends the span by one.
   */
  lemma DeleteLookup(items: seq<Item>, pos: uint64, m: nat)
    requires pos > Visible(items) ==> m == 0
    requires pos <= Visible(items) ==> pos + m <= Visible(items)
    ensures var cur := MarkDeleted(items, pos, m);
      var found := FindItemIndexAtPos(cur, pos, false);
      && (found.Failure? <==> pos > Visible(items))
      && (found.Success? ==> (found.value == |items| <==> pos + m == Visible(items)))
      && (found.Success? && found.value < |items| ==>
            && pos + m + 1 <= Visible(items)
            && cur[found.value := cur[found.value].(deleted := true)] == MarkDeleted(items, pos, m + 1))
  {
    MarkDeletedVisible(items, pos, m);
    var cur := MarkDeleted(items, pos, m);
    var found := FindItemIndexAtPos(cur, pos, false);
    if found.Success? && found.value < |items| {
      MarkDeletedStep(items, pos, m, found.value);
    }
  }

  /**
   * Reference outcome of deleting `numChars` visible items from visible
   * position `pos`: nothing to do for a non-positive count, an error when
   * `pos` is past the visible count, and otherwise the span marked deleted.
   * A span running past the end panics after every live item from `pos` on
   * has been marked. Only tombstone flags ever change.
   */
  function DeleteOutcome(d: Doc, pos: uint64, numChars: int): (r: Outcome)
    ensures r.doc.agent == d.agent && r.doc.version == d.version && Ids(r.doc.items) == Ids(d.items)
    ensures r.Err? <==> numChars > 0 && pos > Visible(d.items)
    ensures r.Err? ==> r == Err(d, ItemNotFound)
    ensures r.Ok? ==> Visible(r.doc.items) == Visible(d.items) - Max(numChars, 0)
    ensures r.Panic? <==> numChars > 0 && pos <= Visible(d.items) < pos + numChars
    ensures r.Panic? ==> r.reason == IndexOutOfRange && Visible(r.doc.items) == pos
  {
    if numChars <= 0 then Ok(d)
    else if pos > Visible(d.items) then Err(d, ItemNotFound)
    else
      var n := if pos + numChars > Visible(d.items) then Visible(d.items) - pos else numChars;
      MarkDeletedVisible(d.items, pos, n);
      MarkDeletedKeepsIds(d.items, pos, n);
      var marked := d.(items := MarkDeleted(d.items, pos, n));
      if pos + numChars > Visible(d.items) then Panic(marked, IndexOutOfRange) else Ok(marked)
  }

  /**
   * `LocalDelete`: deletes `numChars` visible items starting at visible
   * position `pos`, looking the position up again before each deletion.
   * A position past the visible count is an error before anything changes;
   * running out of visible items part way makes the lookup return the list
   * length, and indexing with it panics, with the items marked so far.
   */
  method LocalDelete(d: Doc, pos: uint64, numChars: int) returns (r: Outcome)
    ensures r == DeleteOutcome(d, pos, numChars)
  {
    var items := d.items;
    var n := numChars;
    ghost var m: nat := 0;
    MarkDeletedNone(d.items, pos);
    while n > 0
      invariant items == MarkDeleted(d.items, pos, m)
      invariant m + n == numChars
      invariant numChars > 0 ==> n >= 0
      invariant numChars <= 0 ==> m == 0
      invariant pos > Visible(d.items) ==> m == 0
      invariant pos <= Visible(d.items) ==> pos + m <= Visible(d.items)
      decreases n
    {
      DeleteLookup(d.items, pos, m);
      var found := FindItemIndexAtPos(items, pos, false);
      if found.Failure? {
        return Err(d, ItemNotFound);
      }
      var index := found.value;
      if index >= |items| {
        return Panic(d.(items := items), IndexOutOfRange);
      }
      items := items[index := items[index].(deleted := true)];
      n := n - 1;
      m := m + 1;
    }
    return Ok(d.(items := items));
  }
}
