/**
 * The item model shared by the prototype document (crdt.go) and the
 * FugueMax document (backend/fuguemax/fugue-max-crdt.go): operation ids,
 * origin markers, list items with tombstones, and what a list of items
 * shows as text.
 */
module Items {
  import opened Base

  /** Unique per session or device: the agent that made an operation and its sequence number there. */
  datatype ID = ID(agent: string, seqNo: uint64)

  /** What an item's neighbour at insertion time can be: the document's start or end marker, or another item. */
  datatype Origin = Beginning | Ending | ItemId(id: ID)

  /** Left origins are the start marker or an item: the end marker is ruled out by the types. */
  type OriginLeft = o: Origin | !o.Ending? witness Beginning

  /** Right origins are the end marker or an item. */
  type OriginRight = o: Origin | !o.Beginning? witness Ending

  /** A Go string meant to hold a single character. */
  type UnicodeCharacter = string

  /** One list element. Deleting an item only sets its tombstone flag `deleted`. */
  datatype Item = Item(
    content: UnicodeCharacter,
    id: ID,
    originLeft: OriginLeft,
    originRight: OriginRight,
    deleted: bool)

  /** Number of items that are not tombstones. */
  function Visible(items: seq<Item>): nat
  {
    if |items| == 0 then 0
    else Visible(items[..|items| - 1]) + (if items[|items| - 1].deleted then 0 else 1)
  }

  /** Reference definition of the shown text: the contents of the non-deleted items, in list order. */
  function Content(items: seq<Item>): string
  {
    if |items| == 0 then ""
    else Content(items[..|items| - 1]) + (if items[|items| - 1].deleted then "" else items[|items| - 1].content)
  }

  /** The ids of the items, in list order. */
  function Ids(items: seq<Item>): seq<ID>
  {
    seq(|items|, i requires 0 <= i < |items| => items[i].id)
  }

  ghost predicate UniqueIds(items: seq<Item>)
  {
    forall i, j :: 0 <= i < j < |items| ==> items[i].id != items[j].id
  }

  /** Every item holds exactly one character, as local inserts produce. */
  ghost predicate SingleChars(items: seq<Item>)
  {
    forall i :: 0 <= i < |items| ==> |items[i].content| == 1
  }

  /** The `StringContent` loop of both documents: append each live item's content in order. */
  method ConcatVisible(items: seq<Item>) returns (result: string)
    ensures result == Content(items)
  {
    result := "";
    for i := 0 to |items|
      invariant result == Content(items[..i])
    {
      assert items[..i + 1][..i] == items[..i];
      if !items[i].deleted {
        result := result + items[i].content;
      }
    }
    assert items[..|items|] == items;
  }

  /** Appending one item extends the text by its content exactly when it is live. */
  lemma ContentAppendItem(items: seq<Item>, x: Item)
    ensures Content(items + [x]) == Content(items) + (if x.deleted then "" else x.content)
    ensures Visible(items + [x]) == Visible(items) + (if x.deleted then 0 else 1)
  {
  }

  /** Text and visible count of a concatenation are the concatenation and the sum of the parts'. */
  lemma {:induction false} ContentAppend(a: seq<Item>, b: seq<Item>)
    ensures Content(a + b) == Content(a) + Content(b)
    ensures Visible(a + b) == Visible(a) + Visible(b)
    decreases |b|
  {
    if |b| > 0 {
      var b' := b[..|b| - 1];
      var x := b[|b| - 1];
      var shown := if x.deleted then "" else x.content;
      assert a + b == (a + b') + [x];
      assert b == b' + [x];
      ContentAppend(a, b');
      ContentAppendItem(a + b', x);
      ContentAppendItem(b', x);
      calc {
        Content(a + b);
        Content(a + b') + shown;
        (Content(a) + Content(b')) + shown;
        Content(a) + (Content(b') + shown);
        Content(a) + Content(b);
      }
    } else {
      assert a + b == a;
    }
  }

  /** A list whose items are all tombstones shows nothing. */
  lemma {:induction false} ContentAllDeleted(items: seq<Item>)
    requires forall i :: 0 <= i < |items| ==> items[i].deleted
    ensures Content(items) == "" && Visible(items) == 0
  {
    if |items| > 0 {
      ContentAllDeleted(items[..|items| - 1]);
    }
  }

  /** With one character per item, the text is exactly as long as the number of live items. */
  lemma {:induction false} ContentLength(items: seq<Item>)
    requires SingleChars(items)
    ensures |Content(items)| == Visible(items)
  {
    if |items| > 0 {
      ContentLength(items[..|items| - 1]);
    }
  }

  /** `Visible(items[..i])`, the live items before index `i`, is the visible position of index `i`. */
  lemma VisiblePrefixStep(items: seq<Item>, i: nat)
    requires i < |items|
    ensures Visible(items[..i + 1]) == Visible(items[..i]) + (if items[i].deleted then 0 else 1)
  {
    assert items[..i + 1][..i] == items[..i];
  }

  /** Visible positions never decrease along the list, and strictly increase past a live item. */
  lemma {:induction false} VisiblePrefixMonotone(items: seq<Item>, i: nat, j: nat)
    requires i <= j <= |items|
    ensures Visible(items[..i]) <= Visible(items[..j])
    ensures i < j && !items[i].deleted ==> Visible(items[..i]) < Visible(items[..j])
    decreases j - i
  {
    if i < j {
      VisiblePrefixMonotone(items, i + 1, j);
      VisiblePrefixStep(items, i);
    }
  }
}
