/**
 * Local edits on a FugueMax document (backend/fuguemax/fugue-max-crdt.go):
 * inserting one character at a visible position, and inserting a text
 * character by character.
 *
 * Two behaviours of the source are kept as written. The left origin of a
 * local insert is taken only when `index - 1 > 0`, so an insert at list
 * index 1 is anchored to the document start instead of to item 0, and the
 * scan may then put it in front of item 0. And `LocalInsertText` advances
 * the position by the UTF-8 byte offset of each rune, not by its rune
 * index, so after a multi-byte rune the next rune lands further right.
 */
module FugueLocal {
  import opened Base
  import opened Items
  import opened FugueDoc
  import opened FugueIntegrate

  /** Left origin of a local insert at list index `index`: item `index - 1`, but only from index 2 on. */
  function LocalOriginLeft(items: seq<Item>, index: int): (r: OriginLeft)
    ensures r.ItemId? <==> 2 <= index <= |items|
    ensures index == 1 ==> r == Beginning
    ensures r.ItemId? ==> r.id == items[index - 1].id
  {
    if index - 1 > 0 && index - 1 < |items| then ItemId(items[index - 1].id) else Beginning
  }

  /** Right origin of a local insert at list index `index`: the item there, or the end marker. */
  function LocalOriginRight(items: seq<Item>, index: int): (r: OriginRight)
    ensures r.ItemId? <==> 0 <= index < |items|
    ensures r.ItemId? ==> r.id == items[index].id
  {
    if 0 <= index < |items| then ItemId(items[index].id) else Ending
  }

  /** The id the replica gives its next local operation. */
  function NextId(d: Doc): ID
  {
    ID(d.agent, AddU64(SeenSeq(d.version, d.agent), 1))
  }

  /** The item `localInsertChar` builds for a character inserted at list index `index`. */
  function LocalItem(d: Doc, ch: UnicodeCharacter, index: int): Item
  {
    Item(ch, NextId(d), LocalOriginLeft(d.items, index), LocalOriginRight(d.items, index), false)
  }

  /** The list index a local insert at visible position `pos` targets (0 when `pos` is past the end). */
  function InsertIndex(items: seq<Item>, pos: uint64): nat
  {
    var found := FindItemIndexAtPos(items, pos, true);
    if found.Success? then found.value else 0
  }

  /** Every item of the replica's own agent is already counted in its version. */
  ghost predicate OwnIdsSeen(d: Doc)
  {
    forall i :: 0 <= i < |d.items| && d.items[i].id.agent == d.agent ==>
      d.items[i].id.seqNo <= SeenSeq(d.version, d.agent)
  }

  /**
   * `localInsertChar`: an error, with the document untouched, when `pos` is
   * past the visible count; otherwise the character becomes the agent's next
   * operation and is integrated, which cannot panic. With unique ids it lands
   * exactly at the target index, except at index 1, where the start-marker
   * left origin lets the scan put it in front of item 0.
   */
  method LocalInsertChar(d: Doc, ch: UnicodeCharacter, pos: uint64) returns (r: Outcome)
    ensures !r.Panic?
    ensures r.Err? <==> pos > Visible(d.items)
    ensures r.Err? ==> r == Err(d, ItemNotFound)
    ensures r.Ok? ==> r.doc.agent == d.agent
    ensures r.Ok? ==> r.doc.version == d.version[d.agent := NextId(d).seqNo]
    ensures r.Ok? ==> |r.doc.items| == |d.items| + 1 && Visible(r.doc.items) == Visible(d.items) + 1
    ensures r.Ok? ==> exists dest :: InsertedAt(d.items, r.doc.items, LocalItem(d, ch, InsertIndex(d.items, pos)), dest)
    ensures r.Ok? && UniqueIds(d.items) && InsertIndex(d.items, pos) != 1 ==>
      InsertedAt(d.items, r.doc.items, LocalItem(d, ch, InsertIndex(d.items, pos)), InsertIndex(d.items, pos))
    ensures r.Ok? && UniqueIds(d.items) && InsertIndex(d.items, pos) == 1 ==>
      InsertedAt(d.items, r.doc.items, LocalItem(d, ch, 1), 0) || InsertedAt(d.items, r.doc.items, LocalItem(d, ch, 1), 1)
    ensures (&& r.Ok? && UniqueIds(d.items) && |d.items| == 1 && pos == 1 && !d.items[0].deleted
             && d.items[0].originLeft == Beginning && d.items[0].originRight == Ending
             && StringLess(d.agent, d.items[0].id.agent)) ==>
      r.doc.items == [LocalItem(d, ch, 1)] + d.items
    ensures r.Ok? && UniqueIds(d.items) && InsertIndex(d.items, pos) == 1 && FirstTieLost(d) ==>
      InsertedAt(d.items, r.doc.items, LocalItem(d, ch, 1), 1)
    ensures r.Ok? && UniqueIds(d.items) && pos != 1 ==>
      Content(r.doc.items)
      == Content(d.items[..InsertIndex(d.items, pos)]) + ch + Content(d.items[InsertIndex(d.items, pos)..])
  {
    var seqNo := AddU64(SeenSeq(d.version, d.agent), 1);
    var id := ID(d.agent, seqNo);

    var found := FindItemIndexAtPos(d.items, pos, true);
    if found.Failure? {
      return Err(d, ItemNotFound);
    }
    var index := found.value;

    var originLeft: OriginLeft := Beginning;
    if index - 1 > 0 && index - 1 < |d.items| {
      originLeft := ItemId(d.items[index - 1].id);
    }
    var originRight: OriginRight := Ending;
    if index < |d.items| {
      originRight := ItemId(d.items[index].id);
    }
    var item := Item(ch, id, originLeft, originRight, false);
    assert item == LocalItem(d, ch, index) && InsertIndex(d.items, pos) == index;

    r := Integrate(d, item);
    LocalInsertEffect(d, ch, pos, r.doc.items);
  }

  /** What integrating the item a local insert builds does to the item list. */
  lemma LocalInsertEffect(d: Doc, ch: UnicodeCharacter, pos: uint64, after: seq<Item>)
    requires pos <= Visible(d.items)
    requires exists dest ::
      && Placed(d.items, LocalItem(d, ch, InsertIndex(d.items, pos)), dest)
      && InsertedAt(d.items, after, LocalItem(d, ch, InsertIndex(d.items, pos)), dest)
    ensures |after| == |d.items| + 1 && Visible(after) == Visible(d.items) + 1
    ensures exists dest :: InsertedAt(d.items, after, LocalItem(d, ch, InsertIndex(d.items, pos)), dest)
    ensures UniqueIds(d.items) && InsertIndex(d.items, pos) != 1 ==>
      InsertedAt(d.items, after, LocalItem(d, ch, InsertIndex(d.items, pos)), InsertIndex(d.items, pos))
    ensures UniqueIds(d.items) && InsertIndex(d.items, pos) == 1 ==>
      InsertedAt(d.items, after, LocalItem(d, ch, 1), 0) || InsertedAt(d.items, after, LocalItem(d, ch, 1), 1)
    ensures (&& UniqueIds(d.items) && |d.items| == 1 && pos == 1 && !d.items[0].deleted
             && d.items[0].originLeft == Beginning && d.items[0].originRight == Ending
             && StringLess(d.agent, d.items[0].id.agent)) ==>
      after == [LocalItem(d, ch, 1)] + d.items
    ensures UniqueIds(d.items) && InsertIndex(d.items, pos) == 1 && FirstTieLost(d) ==>
      InsertedAt(d.items, after, LocalItem(d, ch, 1), 1)
    ensures UniqueIds(d.items) && pos != 1 ==>
      Content(after) == Content(d.items[..InsertIndex(d.items, pos)]) + ch + Content(d.items[InsertIndex(d.items, pos)..])
  {
    var index := InsertIndex(d.items, pos);
    var item := LocalItem(d, ch, index);
    var dest :| Placed(d.items, item, dest) && InsertedAt(d.items, after, item, dest);
    LocalPlacement(d, ch, pos, dest);
    InsertedAtFacts(d.items, after, item, dest);
  }

  /**
   * Where the scan puts a local insert: with unique ids, exactly at the
   * looked-up index unless that index is 1; at index 1 either just before or
   * just after item 0, and before it when item 0 was typed alone into an
   * empty document by an agent whose name sorts after the local one, and
   * after it when item 0 has the new item's origins and an agent name that
   * does not sort after the local one.
   */
  lemma LocalPlacement(d: Doc, ch: UnicodeCharacter, pos: uint64, dest: int)
    requires pos <= Visible(d.items)
    requires Placed(d.items, LocalItem(d, ch, InsertIndex(d.items, pos)), dest)
    ensures UniqueIds(d.items) && InsertIndex(d.items, pos) != 1 ==> dest == InsertIndex(d.items, pos)
    ensures UniqueIds(d.items) && InsertIndex(d.items, pos) == 1 ==> dest == 0 || dest == 1
    ensures (&& UniqueIds(d.items) && |d.items| == 1 && pos == 1 && !d.items[0].deleted
             && d.items[0].originLeft == Beginning && d.items[0].originRight == Ending
             && StringLess(d.agent, d.items[0].id.agent)) ==>
      dest == 0
    ensures (&& UniqueIds(d.items) && InsertIndex(d.items, pos) == 1 && FirstTieLost(d)) ==> dest == 1
    ensures pos != 1 ==> InsertIndex(d.items, pos) != 1
  {
    var index := InsertIndex(d.items, pos);
    var item := LocalItem(d, ch, index);
    if UniqueIds(d.items) {
      if index > 0 {
        FindIndexOfUnique(d.items, index - 1);
      }
      if index < |d.items| {
        FindIndexOfUnique(d.items, index);
      }
      if index == 1 && |d.items| == 1 && !d.items[0].deleted
        && d.items[0].originLeft == Beginning && d.items[0].originRight == Ending
        && StringLess(d.agent, d.items[0].id.agent)
      {
        assert !Passed(d.items, item, -1, 1, 0);
      }
      if index == 1 && FirstTieLost(d) {
        assert LosesFirstTie(d.items, item, -1, FindOriginIndex(d.items, item.originRight));
      }
    }
    if pos != 1 {
      InsertIndexNotOne(d.items, pos);
    }
  }

  /**
   * Item 0 has the origins a local insert at list index 1 gets (the start
   * marker and item 1, or the end marker) and an agent that does not sort
   * after the local agent: the scan moves past it.
   */
  ghost predicate FirstTieLost(d: Doc)
  {
    && |d.items| > 0
    && d.items[0].originLeft == Beginning
    && d.items[0].originRight == LocalOriginRight(d.items, 1)
    && !StringLess(d.agent, d.items[0].id.agent)
  }

  /** Only visible position 1 can map to list index 1. */
  lemma InsertIndexNotOne(items: seq<Item>, pos: uint64)
    requires pos <= Visible(items) && pos != 1
    ensures InsertIndex(items, pos) != 1
  {
  }

  /** A live item spliced in at list index `index` shows its content at the visible position of that index. */
  lemma InsertKeepsText(items: seq<Item>, after: seq<Item>, x: Item, index: nat)
    requires InsertedAt(items, after, x, index) && SingleChars(items) && !x.deleted
    ensures Visible(items[..index]) <= |Content(items)|
    ensures Content(after)
      == Content(items)[..Visible(items[..index])] + x.content + Content(items)[Visible(items[..index])..]
  {
    InsertedAtFacts(items, after, x, index);
    var left, right := items[..index], items[index..];
    assert items == left + right;
    assert SingleChars(left);
    CutAtVisible(left, right);
  }

  /** With one character per item on the left, the text of `left + right` splits at the left's visible count. */
  lemma CutAtVisible(left: seq<Item>, right: seq<Item>)
    requires SingleChars(left)
    ensures Visible(left) <= |Content(left + right)|
    ensures Content(left + right)[..Visible(left)] == Content(left)
    ensures Content(left + right)[Visible(left)..] == Content(right)
  {
    ContentAppend(left, right);
    ContentLength(left);
  }

  /**
   * Splicing in an item that carries the replica's next id, with no
   * wrap-around, keeps ids unique, every own id counted and every item a
   * single character.
   */
  lemma FreshInsertKeepsInvariant(d: Doc, after: Doc, x: Item, index: nat)
    requires UniqueIds(d.items) && OwnIdsSeen(d) && SingleChars(d.items)
    requires x.id == NextId(d) && SeenSeq(d.version, d.agent) + 1 < UINT64_MODULUS && |x.content| == 1
    requires InsertedAt(d.items, after.items, x, index)
    requires after.agent == d.agent && after.version == d.version[d.agent := x.id.seqNo]
    ensures UniqueIds(after.items) && OwnIdsSeen(after) && SingleChars(after.items)
    ensures SeenSeq(after.version, after.agent) == SeenSeq(d.version, d.agent) + 1
  {
  }

  /** Number of bytes of the UTF-8 encoding of a code point: one exactly for ASCII. */
  function Utf8Width(c: char): (r: nat)
    ensures 1 <= r <= 4
    ensures r == 1 <==> c as int < 0x80
  {
    if c as int < 0x80 then 1
    else if c as int < 0x800 then 2
    else if c as int < 0x1_0000 then 3
    else 4
  }

  /**
   * Byte offset of rune `k` of `text` in its UTF-8 encoding: what Go's
   * `for i, c := range text` gives as `i`. It is never below the rune index
   * nor above four times it.
   */
  function ByteOffset(text: string, k: nat): (r: nat)
    requires k <= |text|
    ensures k <= r <= 4 * k
  {
    if k == 0 then 0 else ByteOffset(text, k - 1) + Utf8Width(text[k - 1])
  }

  /** The byte offset of a rune equals its rune index exactly when every rune before it is one byte. */
  lemma {:induction false} ByteOffsetIsIndex(text: string, k: nat)
    requires k <= |text|
    ensures ByteOffset(text, k) == k <==> forall j :: 0 <= j < k ==> Utf8Width(text[j]) == 1
  {
    if k > 0 {
      ByteOffsetIsIndex(text, k - 1);
    }
  }

  /** Text made only of one-byte (ASCII) runes. */
  predicate SingleByte(text: string)
  {
    forall j :: 0 <= j < |text| ==> Utf8Width(text[j]) == 1
  }

  /**
   * The position `LocalInsertText` uses for rune `k`: never past `pos` plus
   * the byte offset, and exactly `pos + k` for one-byte text that does not
   * reach 2^64.
   */
  lemma RunePosition(text: string, k: nat, pos: uint64)
    requires k < |text|
    ensures AddU64(pos, ByteOffset(text, k) % UINT64_MODULUS) <= pos + ByteOffset(text, k)
    ensures SingleByte(text) ==> ByteOffset(text, k) == k
    ensures SingleByte(text) && pos + |text| <= UINT64_MODULUS ==>
      AddU64(pos, ByteOffset(text, k) % UINT64_MODULUS) == pos + k
  {
    ByteOffsetIsIndex(text, k);
  }

  /**
   * The conditions under which typing `text` at `pos` splices it into the
   * shown text: one-byte runes, a position up to the visible count other
   * than 1 with room before 2^64, unique ids, every own id counted, one
   * character per item, and sequence numbers that do not wrap.
   */
  ghost predicate TypingSettles(d: Doc, text: string, pos: uint64)
  {
    && SingleByte(text)
    && pos != 1 && pos <= Visible(d.items)
    && pos + |text| <= UINT64_MODULUS
    && UniqueIds(d.items) && OwnIdsSeen(d) && SingleChars(d.items)
    && SeenSeq(d.version, d.agent) + |text| < UINT64_MODULUS
  }

  /**
   * The state after typing the first `k` runes of `text` under
   * `TypingSettles`: ids still unique and counted, one character per item,
   * `k` more live items and sequence numbers, and `text[..k]` spliced in.
   * Typing at 0, the first rune went to the front.
   */
  ghost predicate TypedSoFar(d: Doc, r: Doc, text: string, pos: uint64, k: nat)
    requires TypingSettles(d, text, pos) && k <= |text|
  {
    && r.agent == d.agent
    && UniqueIds(r.items) && OwnIdsSeen(r) && SingleChars(r.items)
    && SeenSeq(r.version, r.agent) == SeenSeq(d.version, d.agent) + k
    && Visible(r.items) == Visible(d.items) + k
    && pos <= |Content(d.items)|
    && Content(r.items) == Content(d.items)[..pos] + text[..k] + Content(d.items)[pos..]
    && (pos == 0 && k == 1 ==> r.items == [LocalItem(d, [text[0]], 0)] + d.items)
  }

  /** One more rune typed at `pos + k` keeps `TypedSoFar`. */
  lemma TypedStep(d: Doc, r: Doc, next: Doc, text: string, pos: uint64, k: nat, at: uint64)
    requires TypingSettles(d, text, pos) && k < |text| && at == pos + k
    requires TypedSoFar(d, r, text, pos, k) && (k == 0 ==> r == d)
    requires next.agent == r.agent && next.version == r.version[r.agent := NextId(r).seqNo]
    requires InsertedAt(r.items, next.items, LocalItem(r, [text[k]], InsertIndex(r.items, at)), InsertIndex(r.items, at))
    ensures TypedSoFar(d, next, text, pos, k + 1)
  {
    var index := InsertIndex(r.items, at);
    var x := LocalItem(r, [text[k]], index);
    InsertKeepsText(r.items, next.items, x, index);
    FreshInsertKeepsInvariant(r, next, x, index);
    InsertedAtFacts(r.items, next.items, x, index);
    TypedText(Content(d.items), text, pos, k, Content(r.items), Content(next.items));
    if pos == 0 && k == 0 {
      assert index == 0;
      assert r.items[..0] == [] && r.items[0..] == r.items;
    }
  }

  /**
   * Typing at 0, the second rune meets the first at list index 1: same
   * origins, same agent, so the scan moves past it and the second rune lands
   * after the first.
   */
  lemma SecondRuneAfterFirst(d: Doc, r: Doc, text: string)
    requires TypingSettles(d, text, 0) && 1 < |text|
    requires TypedSoFar(d, r, text, 0, 1)
    ensures InsertIndex(r.items, 1) == 1 && FirstTieLost(r)
  {
  }

  /** Typing rune `k` right after the first `k` runes of `text` extends the typed part by one. */
  lemma TypedText(text0: string, text: string, pos: nat, k: nat, current: string, next: string)
    requires pos <= |text0| && k < |text|
    requires current == text0[..pos] + text[..k] + text0[pos..]
    requires next == current[..pos + k] + [text[k]] + current[pos + k..]
    ensures next == text0[..pos] + text[..k + 1] + text0[pos..]
  {
  }

  /**
   * After the first `k` runes of `LocalInsertText`, `inserted` of them
   * accepted: only the agent's own sequence number moved, by one per
   * accepted rune, and the list grew by one live item per accepted rune.
   */
  ghost predicate TypingCounts(d: Doc, r: Doc, k: nat, inserted: nat)
  {
    && r.agent == d.agent
    && inserted <= k && |r.items| == |d.items| + inserted
    && Visible(r.items) == Visible(d.items) + inserted
    && (inserted == 0 ==> r == d)
    && (inserted > 0 ==>
          r.version == d.version[d.agent := (SeenSeq(d.version, d.agent) + inserted) % UINT64_MODULUS])
  }

  /** With one-byte runes at a valid position, every rune so far was accepted. */
  ghost predicate TypingAscii(d: Doc, r: Doc, text: string, pos: uint64, k: nat, inserted: nat)
  {
    SingleByte(text) && pos <= Visible(d.items) ==> inserted == k && Visible(r.items) == Visible(d.items) + k
  }

  /**
   * Rune `j` of `text` is offered at a position past the visible count even
   * if every earlier rune was accepted: the byte offsets of multi-byte runes
   * before it push it out, so it is not accepted and `text` does not arrive
   * whole.
   */
  ghost predicate RuneTooFar(d: Doc, text: string, pos: uint64, j: nat)
  {
    && j < |text|
    && pos + ByteOffset(text, j) < UINT64_MODULUS
    && pos + ByteOffset(text, j) > Visible(d.items) + j
  }

  /** The last rune of `text` is too far, the case `MultiByteRunePushesOut` shows. */
  ghost predicate LastRuneTooFar(d: Doc, text: string, pos: uint64)
  {
    |text| > 0 && RuneTooFar(d, text, pos, |text| - 1)
  }

  /** The first rune at a valid position is always accepted; a last rune pushed out is not. */
  ghost predicate TypingReach(d: Doc, text: string, pos: uint64, k: nat, inserted: nat)
  {
    && (k > 0 && pos <= Visible(d.items) ==> inserted > 0)
    && (forall j: nat :: j < k && RuneTooFar(d, text, pos, j) ==> inserted < k)
  }

  /** The loop invariant of `LocalInsertText`. */
  ghost predicate TypingInvariant(d: Doc, r: Doc, text: string, pos: uint64, k: nat, inserted: nat)
    requires k <= |text|
  {
    && TypingCounts(d, r, k, inserted)
    && TypingAscii(d, r, text, pos, k, inserted)
    && TypingReach(d, text, pos, k, inserted)
    && (TypingSettles(d, text, pos) ==> TypedSoFar(d, r, text, pos, k))
  }

  /** The counters after one more rune, accepted or not. */
  lemma CountsStep(d: Doc, r: Doc, k: nat, inserted: nat, res: Outcome)
    requires TypingCounts(d, r, k, inserted)
    requires !res.Panic?
    requires res.Err? ==> res.doc == r
    requires res.Ok? ==> res.doc.agent == r.agent && res.doc.version == r.version[r.agent := NextId(r).seqNo]
    requires res.Ok? ==> |res.doc.items| == |r.items| + 1 && Visible(res.doc.items) == Visible(r.items) + 1
    ensures TypingCounts(d, res.doc, k + 1, if res.Ok? then inserted + 1 else inserted)
  {
    if res.Ok? {
      var start := SeenSeq(d.version, d.agent);
      AddU64Wrapped(start + inserted);
      assert SeenSeq(r.version, r.agent) == (start + inserted) % UINT64_MODULUS;
    }
  }

  /** Counting on from a wrapped counter is counting on from the unwrapped one, then wrapping. */
  lemma AddU64Wrapped(a: nat)
    ensures AddU64(a % UINT64_MODULUS, 1) == (a + 1) % UINT64_MODULUS
  {
  }

  /** One-byte runes keep being accepted: the position of rune `k` is within the text typed so far. */
  lemma AsciiStep(d: Doc, r: Doc, text: string, pos: uint64, k: nat, inserted: nat, res: Outcome)
    requires k < |text|
    requires TypingAscii(d, r, text, pos, k, inserted)
    requires !res.Panic?
    requires res.Err? <==> AddU64(pos, ByteOffset(text, k) % UINT64_MODULUS) > Visible(r.items)
    requires res.Ok? ==> Visible(res.doc.items) == Visible(r.items) + 1
    ensures TypingAscii(d, res.doc, text, pos, k + 1, if res.Ok? then inserted + 1 else inserted)
  {
    RunePosition(text, k, pos);
  }

  /** Rune `k` offered at `pos` plus its byte offset: the first one is accepted, a last one pushed out is dropped. */
  lemma ReachStep(d: Doc, r: Doc, text: string, pos: uint64, k: nat, inserted: nat, res: Outcome)
    requires k < |text| && inserted <= k && TypingReach(d, text, pos, k, inserted)
    requires Visible(r.items) == Visible(d.items) + inserted
    requires !res.Panic?
    requires res.Err? <==> AddU64(pos, ByteOffset(text, k) % UINT64_MODULUS) > Visible(r.items)
    ensures TypingReach(d, text, pos, k + 1, if res.Ok? then inserted + 1 else inserted)
  {
    if k == 0 || RuneTooFar(d, text, pos, k) {
      OffsetNoWrap(pos, ByteOffset(text, k));
    }
  }

  /** A byte position below 2^64 is reached without wrap-around. */
  lemma OffsetNoWrap(pos: uint64, offset: nat)
    requires pos + offset < UINT64_MODULUS
    ensures AddU64(pos, offset % UINT64_MODULUS) == pos + offset
  {
  }

  /**
   * One iteration of `LocalInsertText`: rune `k` was offered to
   * `LocalInsertChar` at `pos` plus its byte offset, and an error is dropped.
   */
  lemma TypeRuneEffect(d: Doc, r: Doc, text: string, pos: uint64, k: nat, inserted: nat, res: Outcome)
    requires k < |text|
    requires TypingInvariant(d, r, text, pos, k, inserted)
    requires var at := AddU64(pos, ByteOffset(text, k) % UINT64_MODULUS);
      && !res.Panic?
      && (res.Err? <==> at > Visible(r.items))
      && (res.Err? ==> res == Err(r, ItemNotFound))
      && (res.Ok? ==> res.doc.agent == r.agent && res.doc.version == r.version[r.agent := NextId(r).seqNo])
      && (res.Ok? ==> |res.doc.items| == |r.items| + 1 && Visible(res.doc.items) == Visible(r.items) + 1)
      && (res.Ok? && UniqueIds(r.items) && InsertIndex(r.items, at) != 1 ==>
            InsertedAt(r.items, res.doc.items, LocalItem(r, [text[k]], InsertIndex(r.items, at)), InsertIndex(r.items, at)))
      && (res.Ok? && UniqueIds(r.items) && InsertIndex(r.items, at) == 1 && FirstTieLost(r) ==>
            InsertedAt(r.items, res.doc.items, LocalItem(r, [text[k]], 1), 1))
    ensures TypingInvariant(d, res.doc, text, pos, k + 1, if res.Ok? then inserted + 1 else inserted)
  {
    var at := AddU64(pos, ByteOffset(text, k) % UINT64_MODULUS);
    CountsStep(d, r, k, inserted, res);
    AsciiStep(d, r, text, pos, k, inserted, res);
    ReachStep(d, r, text, pos, k, inserted, res);
    if TypingSettles(d, text, pos) {
      RunePosition(text, k, pos);
      if pos + k == 1 {
        SecondRuneAfterFirst(d, r, text);
      } else {
        InsertIndexNotOne(r.items, at);
      }
      if res.Ok? {
        TypedStep(d, r, res.doc, text, pos, k, at);
      } else {
        assert false;
      }
    }
  }

  /**
   * One iteration of `LocalInsertText`: offers rune `k` to `LocalInsertChar`
   * at `pos` plus its byte offset and drops the error of an insert past the
   * end.
   */
  method TypeRune(d: Doc, r: Doc, text: string, pos: uint64, k: nat, ghost inserted: nat)
    returns (next: Doc, ghost inserted': nat)
    requires k < |text| && TypingInvariant(d, r, text, pos, k, inserted)
    ensures TypingInvariant(d, next, text, pos, k + 1, inserted')
    ensures next == r || |next.items| == |r.items| + 1
  {
    var res := LocalInsertChar(r, [text[k]], AddU64(pos, ByteOffset(text, k) % UINT64_MODULUS));
    TypeRuneEffect(d, r, text, pos, k, inserted, res);
    inserted' := if res.Ok? then inserted + 1 else inserted;
    next := res.doc;
  }

  /**
   * `LocalInsertText`: inserts rune `k` at position `pos` plus its byte
   * offset, ignoring the error of any insert whose position is past the end.
   * For single-byte text at a valid position every rune is inserted, and
   * under `TypingSettles` the shown text gets `text` spliced in at `pos`.
   * The first rune at a valid position is always inserted; a last rune
   * pushed past the end by the byte offsets of earlier runes is not.
   */
  method LocalInsertText(d: Doc, text: string, pos: uint64) returns (r: Doc)
    ensures r.agent == d.agent
    ensures |d.items| <= |r.items| <= |d.items| + |text|
    ensures |r.items| == |d.items| ==> r == d
    ensures |r.items| > |d.items| ==>
      r.version == d.version[d.agent := (SeenSeq(d.version, d.agent) + |r.items| - |d.items|) % UINT64_MODULUS]
    ensures SingleByte(text) && pos <= Visible(d.items) ==>
      |r.items| == |d.items| + |text| && Visible(r.items) == Visible(d.items) + |text|
    ensures TypingSettles(d, text, pos) ==>
      pos <= |Content(d.items)| && Content(r.items) == Content(d.items)[..pos] + text + Content(d.items)[pos..]
    ensures |text| > 0 && pos <= Visible(d.items) ==> |r.items| > |d.items|
    ensures LastRuneTooFar(d, text, pos) ==> |r.items| < |d.items| + |text|
    ensures forall j: nat :: RuneTooFar(d, text, pos, j) ==> |r.items| < |d.items| + |text|
  {
    r := d;
    ghost var inserted := 0;
    if TypingSettles(d, text, pos) {
      ContentLength(d.items);
    }
    for k := 0 to |text|
      invariant TypingInvariant(d, r, text, pos, k, inserted)
    {
      r, inserted := TypeRune(d, r, text, pos, k, inserted);
    }
    assert text[..|text|] == text;
  }

  /**
   * Typing "éa" at 0 into an empty document: `é` takes two bytes, so `a` is
   * offered at position 2 while one character is shown, and is dropped.
   */
  lemma MultiByteRunePushesOut(agent: string)
    ensures !SingleByte("\U{E9}a")
    ensures LastRuneTooFar(NewDoc(agent), "\U{E9}a", 0)
    ensures RuneTooFar(NewDoc(agent), "\U{E9}ab", 0, 1) && RuneTooFar(NewDoc(agent), "\U{E9}ab", 0, 2)
  {
  }
}
