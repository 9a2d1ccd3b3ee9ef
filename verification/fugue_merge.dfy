/**
 * Merging one FugueMax replica into another
 * (backend/fuguemax/fugue-max-crdt.go): collect the source items the
 * destination has not seen, integrate them in passes until none is left,
 * then walk both item lists to copy the source's tombstones.
 *
 * Go visits the pending map in an unspecified order; here each pass picks
 * the next id with `:|`, so every contract below holds whatever the order.
 */
module FugueMerge {
  import opened Base
  import opened Items
  import opened FugueDoc
  import opened FugueIntegrate

  /**
   * `isInVersion`: an id counts as seen once its agent's entry has reached
   * its sequence number. So sequence number 0 always counts as seen, and for
   * an agent missing from the version nothing else does.
   */
  predicate IsInVersion(v: Version, id: ID)
    ensures id.seqNo == 0 ==> IsInVersion(v, id)
    ensures id.agent !in v ==> (IsInVersion(v, id) <==> id.seqNo == 0)
  {
    SeenSeq(v, id.agent) >= id.seqNo
  }

  /** Every agent's entry in `v1` is at most its entry in `v2`. */
  ghost predicate VersionLe(v1: Version, v2: Version)
  {
    forall a :: SeenSeq(v1, a) <= SeenSeq(v2, a)
  }

  /**
   * Only integrating an id writes a version entry: every agent's entry in
   * `after` is its entry in `before`, or the sequence number of one of
   * `ids` from that agent.
   */
  ghost predicate VersionFrame(before: Version, after: Version, ids: set<ID>)
  {
    forall a :: SeenSeq(after, a) == SeenSeq(before, a) ||
      exists id :: id in ids && id.agent == a && SeenSeq(after, a) == id.seqNo
  }

  /** Writing the entry of `x` extends the frame by `x`. */
  lemma VersionFrameStep(v0: Version, v: Version, ids: set<ID>, x: ID)
    requires VersionFrame(v0, v, ids)
    ensures VersionFrame(v0, v[x.agent := x.seqNo], ids + {x})
  {
    var v' := v[x.agent := x.seqNo];
    forall a
      ensures SeenSeq(v', a) == SeenSeq(v0, a) ||
        exists id :: id in ids + {x} && id.agent == a && SeenSeq(v', a) == id.seqNo
    {
      if a == x.agent {
        assert x in ids + {x};
      } else if SeenSeq(v', a) != SeenSeq(v0, a) {
        var id :| id in ids && id.agent == a && SeenSeq(v, a) == id.seqNo;
        assert id in ids + {x};
      }
    }
  }

  /** Frames compose: two steps write only entries of the ids of either. */
  lemma VersionFrameTrans(v1: Version, v2: Version, v3: Version, a: set<ID>, b: set<ID>)
    requires VersionFrame(v1, v2, a) && VersionFrame(v2, v3, b)
    ensures VersionFrame(v1, v3, a + b)
  {
    forall x
      ensures SeenSeq(v3, x) == SeenSeq(v1, x) ||
        exists id :: id in a + b && id.agent == x && SeenSeq(v3, x) == id.seqNo
    {
      if SeenSeq(v3, x) != SeenSeq(v2, x) {
        var id :| id in b && id.agent == x && SeenSeq(v3, x) == id.seqNo;
        assert id in a + b;
      } else if SeenSeq(v2, x) != SeenSeq(v1, x) {
        var id :| id in a && id.agent == x && SeenSeq(v2, x) == id.seqNo;
        assert id in a + b;
      }
    }
  }

  /** A frame for some ids is a frame for any larger set of ids. */
  lemma VersionFrameWiden(v1: Version, v2: Version, a: set<ID>, b: set<ID>)
    requires VersionFrame(v1, v2, a) && a <= b
    ensures VersionFrame(v1, v2, b)
  {
    forall x | SeenSeq(v2, x) != SeenSeq(v1, x)
      ensures exists id :: id in b && id.agent == x && SeenSeq(v2, x) == id.seqNo
    {
      var id :| id in a && id.agent == x && SeenSeq(v2, x) == id.seqNo;
      assert id in b;
    }
  }

  /**
   * `canInsert`: the item is not seen yet, it is its agent's next operation
   * (or carries sequence number 0), and both origins are markers or seen ids.
   * An item it accepts is exactly the next operation of its agent, so
   * `Integrate` does not panic on it; sequence number 0 never passes,
   * because every id with sequence number 0 counts as seen.
   */
  predicate CanInsert(d: Doc, item: Item)
    ensures CanInsert(d, item) ==> item.id.seqNo != 0
    ensures CanInsert(d, item) ==> item.id.seqNo == SeenSeq(d.version, item.id.agent) + 1
    ensures CanInsert(d, item) ==> item.id.seqNo == AddU64(SeenSeq(d.version, item.id.agent), 1)
  {
    var leftExists := item.originLeft.ItemId? ==> IsInVersion(d.version, item.originLeft.id);
    var rightExists := item.originRight.ItemId? ==> IsInVersion(d.version, item.originRight.id);
    var isCorrectOrder := item.id.seqNo == 0 || IsInVersion(d.version, ID(item.id.agent, item.id.seqNo - 1));
    !IsInVersion(d.version, item.id) && isCorrectOrder && leftExists && rightExists
  }

  /** No pending item can be integrated into `d`. */
  ghost predicate NoneInsertable(d: Doc, pending: map<ID, Item>)
  {
    forall id :: id in pending ==> !CanInsert(d, pending[id])
  }

  /**
   * `toBeInserted`: the source items the destination has not seen, by id.
   * Built in source order, so a later item with the same id wins.
   */
  function Pending(v: Version, src: seq<Item>): (p: map<ID, Item>)
    ensures forall id :: id in p ==> !IsInVersion(v, id) && p[id].id == id
    ensures forall id :: id in p ==> exists i :: 0 <= i < |src| && src[i] == p[id]
    ensures forall i :: 0 <= i < |src| && !IsInVersion(v, src[i].id) ==> src[i].id in p
  {
    if |src| == 0 then map[]
    else
      var p := Pending(v, src[..|src| - 1]);
      var item := src[|src| - 1];
      if !IsInVersion(v, item.id) then p[item.id := item] else p
  }

  /**
   * Integrating `x`, its agent's next operation, raises only its agent's
   * entry, by one: `x` becomes seen and every other unseen id stays unseen.
   */
  lemma IntegrateVersion(v0: Version, v: Version, x: ID)
    requires VersionLe(v0, v) && x.seqNo == SeenSeq(v, x.agent) + 1
    ensures VersionLe(v0, v[x.agent := x.seqNo])
    ensures IsInVersion(v[x.agent := x.seqNo], x)
    ensures forall y :: IsInVersion(v, y) ==> IsInVersion(v[x.agent := x.seqNo], y)
    ensures forall y :: !IsInVersion(v, y) && y != x ==> !IsInVersion(v[x.agent := x.seqNo], y)
  {
  }

  /** The pending items under the ids `ids`, as a multiset. */
  ghost function PendingItems(pending: map<ID, Item>, ids: set<ID>): multiset<Item>
  {
    multiset(set id | id in ids && id in pending :: pending[id])
  }

  /** Pending items of disjoint id sets add up, when every pending item sits under its own id. */
  lemma PendingItemsUnion(m: map<ID, Item>, a: set<ID>, b: set<ID>)
    requires a !! b && forall id :: id in m ==> m[id].id == id
    ensures PendingItems(m, a + b) == PendingItems(m, a) + PendingItems(m, b)
  {
  }

  /** One pending id contributes its own item. */
  lemma PendingItemsOne(m: map<ID, Item>, id: ID)
    requires id in m
    ensures PendingItems(m, {id}) == multiset{m[id]}
  {
  }

  /** The destination can integrate none of the pending items it has not seen, and at least one is left. */
  ghost predicate Stuck(d: Doc, pending: map<ID, Item>)
  {
    && (exists id :: id in pending && !IsInVersion(d.version, id))
    && forall id :: id in pending && !IsInVersion(d.version, id) ==> !CanInsert(d, pending[id])
  }

  /**
   * What holds part way through a pass: `r` has integrated exactly the
   * pending items in `inserted`, all of them already visited, nothing
   * changed while nothing was integrated, and something was integrated only
   * if some pending item was insertable to begin with.
   */
  ghost predicate PassSoFar(d: Doc, pending: map<ID, Item>, unvisited: set<ID>, r: Doc, inserted: set<ID>)
  {
    && unvisited <= pending.Keys && inserted <= pending.Keys - unvisited
    && r.agent == d.agent && VersionLe(d.version, r.version) && VersionFrame(d.version, r.version, inserted)
    && (forall id :: id in inserted ==> IsInVersion(r.version, id))
    && (forall id :: id in pending && id !in inserted ==> !IsInVersion(r.version, id))
    && multiset(Ids(r.items)) == multiset(Ids(d.items)) + multiset(inserted)
    && multiset(r.items) == multiset(d.items) + PendingItems(pending, inserted)
    && (inserted == {} ==> r == d)
    && (inserted == {} ==> forall id :: id in pending && id !in unvisited ==> !CanInsert(d, pending[id]))
    && (NoneInsertable(d, pending) ==> inserted == {})
  }

  /** Integrating the visited pending item `id` extends what the pass has done. */
  lemma PassInsertStep(d: Doc, pending: map<ID, Item>, unvisited: set<ID>, r: Doc, inserted: set<ID>, id: ID, next: Doc)
    requires PassSoFar(d, pending, unvisited + {id}, r, inserted) && id !in unvisited && id in pending
    requires forall k :: k in pending ==> pending[k].id == k
    requires CanInsert(r, pending[id])
    requires next.agent == r.agent && next.version == r.version[id.agent := id.seqNo]
    requires multiset(Ids(next.items)) == multiset(Ids(r.items)) + multiset{id}
    requires multiset(next.items) == multiset(r.items) + multiset{pending[id]}
    ensures PassSoFar(d, pending, unvisited, next, inserted + {id})
  {
    IntegrateVersion(d.version, r.version, id);
    VersionFrameStep(d.version, r.version, inserted, id);
    assert multiset(inserted + {id}) == multiset(inserted) + multiset{id};
    PendingItemsUnion(pending, inserted, {id});
    PendingItemsOne(pending, id);
  }

  /**
   * One pass of `MergeInto` over the pending items, in any order: every item
   * `canInsert` accepts at its turn is integrated. Returns the ids it
   * integrated, and integrates none exactly when no pending item is
   * insertable at the start.
   */
  method InsertPass(d: Doc, pending: map<ID, Item>) returns (r: Doc, inserted: set<ID>)
    requires forall id :: id in pending ==> pending[id].id == id && !IsInVersion(d.version, id)
    ensures inserted <= pending.Keys
    ensures r.agent == d.agent && VersionLe(d.version, r.version)
    ensures VersionFrame(d.version, r.version, inserted)
    ensures forall id :: id in inserted ==> IsInVersion(r.version, id)
    ensures forall id :: id in pending && id !in inserted ==> !IsInVersion(r.version, id)
    ensures multiset(Ids(r.items)) == multiset(Ids(d.items)) + multiset(inserted)
    ensures multiset(r.items) == multiset(d.items) + PendingItems(pending, inserted)
    ensures inserted == {} ==> r == d && NoneInsertable(d, pending)
    ensures NoneInsertable(d, pending) ==> inserted == {}
  {
    r := d;
    inserted := {};
    var unvisited := pending.Keys;
    while unvisited != {}
      invariant PassSoFar(d, pending, unvisited, r, inserted)
      decreases |unvisited|
    {
      var id :| id in unvisited;
      unvisited := unvisited - {id};
      r, inserted := VisitPending(d, pending, unvisited, r, inserted, id);
    }
  }

  /** One step of a pass: integrate the pending item `id` if `canInsert` accepts it now, else skip it. */
  method VisitPending(d: Doc, pending: map<ID, Item>, unvisited: set<ID>, r: Doc, inserted: set<ID>, id: ID)
    returns (next: Doc, inserted': set<ID>)
    requires forall k :: k in pending ==> pending[k].id == k
    requires PassSoFar(d, pending, unvisited + {id}, r, inserted) && id !in unvisited && id in pending
    ensures PassSoFar(d, pending, unvisited, next, inserted')
    ensures inserted' == inserted || inserted' == inserted + {id}
  {
    var item := pending[id];
    if !CanInsert(r, item) {
      return r, inserted;
    }
    var res := Integrate(r, item);
    ghost var dest :| Placed(r.items, item, dest) && InsertedAt(r.items, res.doc.items, item, dest);
    InsertedAtFacts(r.items, res.doc.items, item, dest);
    InsertedAtItems(r.items, res.doc.items, item, dest);
    PassInsertStep(d, pending, unvisited, r, inserted, id, res.doc);
    return res.doc, inserted + {id};
  }

  /** Where the tombstone walk stopped: the item list it left, and whether it got through the whole source. */
  datatype Walk = Walk(items: seq<Item>, complete: bool)

  /**
   * The tombstone walk of `MergeInto` from source index `j` and destination
   * index `k`: find each source item's id at or after the current
   * destination index and mark the match deleted when the source item is.
   * An incomplete walk is the index-out-of-range panic when some id is not
   * found, with the flags set up to that point. Either way only tombstone
   * flags change, and only from index `k` on.
   */
  function CopyTombstones(src: seq<Item>, dest: seq<Item>, j: nat, k: nat): (r: Walk)
    requires j <= |src|
    ensures |r.items| == |dest|
    ensures forall n :: 0 <= n < |dest| ==> r.items[n] == dest[n] || r.items[n] == dest[n].(deleted := true)
    ensures forall n :: 0 <= n < k && n < |dest| ==> r.items[n] == dest[n]
    decreases |src| - j, |dest| - k
  {
    if j == |src| then Walk(dest, true)
    else if k >= |dest| then Walk(dest, false)
    else if !IdsEqual(src[j].id, dest[k].id) then CopyTombstones(src, dest, j, k + 1)
    else CopyTombstones(src, if src[j].deleted then dest[k := dest[k].(deleted := true)] else dest, j + 1, k + 1)
  }

  /** The ids of `src[j..]` occur in order in `dest[k..]`, at the increasing positions `f`. */
  ghost predicate EmbedsAt(src: seq<Item>, dest: seq<Item>, j: nat, k: nat, f: seq<nat>)
  {
    && j <= |src| && |f| == |src| - j
    && (forall i :: 0 <= i < |f| ==> k <= f[i] < |dest| && dest[f[i]].id == src[j + i].id)
    && (forall a, b :: 0 <= a < b < |f| ==> f[a] < f[b])
  }

  /** A source item still to place needs a destination index still to look at. */
  lemma EmbedsNeedRoom(src: seq<Item>, dest: seq<Item>, j: nat, k: nat, f: seq<nat>)
    requires EmbedsAt(src, dest, j, k, f) && j < |src|
    ensures k < |dest|
  {
    assert k <= f[0] < |dest|;
  }

  /** Lists with the same ids have the same length and the same id at every index. */
  lemma SameIdsAt(a: seq<Item>, b: seq<Item>)
    requires Ids(a) == Ids(b)
    ensures |a| == |b| && forall n :: 0 <= n < |a| ==> a[n].id == b[n].id
  {
    assert |Ids(a)| == |a| && |Ids(b)| == |b|;
    forall n | 0 <= n < |a|
      ensures a[n].id == b[n].id
    {
      assert Ids(a)[n] == a[n].id && Ids(b)[n] == b[n].id;
    }
  }

  /** A destination item whose id is not the next source id is never used by an embedding. */
  lemma EmbedsSkip(src: seq<Item>, dest: seq<Item>, j: nat, k: nat, f: seq<nat>)
    requires EmbedsAt(src, dest, j, k, f) && j < |src| && k < |dest| && src[j].id != dest[k].id
    ensures EmbedsAt(src, dest, j, k + 1, f)
  {
    assert f[0] != k;
    forall i | 0 <= i < |f|
      ensures k + 1 <= f[i]
    {
      if i > 0 {
        assert f[0] < f[i];
      }
    }
  }

  /** Matching the next source id at `k` extends an embedding of the rest past `k`. */
  lemma EmbedsCons(src: seq<Item>, dest: seq<Item>, dest1: seq<Item>, j: nat, k: nat, f: seq<nat>)
    requires j < |src| && k < |dest| && src[j].id == dest[k].id && Ids(dest) == Ids(dest1)
    requires EmbedsAt(src, dest1, j + 1, k + 1, f)
    ensures EmbedsAt(src, dest, j, k, [k] + f)
  {
    SameIdsAt(dest, dest1);
  }

  /** Dropping the first position of an embedding embeds the rest past `k`. */
  lemma EmbedsTail(src: seq<Item>, dest: seq<Item>, dest1: seq<Item>, j: nat, k: nat, f: seq<nat>)
    requires EmbedsAt(src, dest, j, k, f) && j < |src| && Ids(dest) == Ids(dest1)
    ensures EmbedsAt(src, dest1, j + 1, k + 1, f[1..])
  {
    SameIdsAt(dest, dest1);
    var g := f[1..];
    forall i | 0 <= i < |g|
      ensures k + 1 <= g[i] < |dest1| && dest1[g[i]].id == src[j + 1 + i].id
    {
      assert g[i] == f[i + 1] && f[0] < f[i + 1];
    }
    forall a, b | 0 <= a < b < |g|
      ensures g[a] < g[b]
    {
      assert g[a] == f[a + 1] && g[b] == f[b + 1];
    }
  }

  /** The walk succeeds exactly when the source ids occur, in order, among the destination ids. */
  lemma {:induction false} CopyTombstonesSucceeds(src: seq<Item>, dest: seq<Item>, j: nat, k: nat)
    requires j <= |src|
    ensures CopyTombstones(src, dest, j, k).complete <==> exists f :: EmbedsAt(src, dest, j, k, f)
    decreases |src| - j, |dest| - k
  {
    if j == |src| {
      assert EmbedsAt(src, dest, j, k, []);
    } else if k >= |dest| {
      forall f | EmbedsAt(src, dest, j, k, f)
        ensures false
      {
        EmbedsNeedRoom(src, dest, j, k, f);
      }
    } else if !IdsEqual(src[j].id, dest[k].id) {
      CopyTombstonesSucceeds(src, dest, j, k + 1);
      forall f | EmbedsAt(src, dest, j, k, f)
        ensures EmbedsAt(src, dest, j, k + 1, f)
      {
        EmbedsSkip(src, dest, j, k, f);
      }
      if CopyTombstones(src, dest, j, k + 1).complete {
        var f :| EmbedsAt(src, dest, j, k + 1, f);
        assert EmbedsAt(src, dest, j, k, f);
      }
    } else {
      var dest1 := if src[j].deleted then dest[k := dest[k].(deleted := true)] else dest;
      assert Ids(dest) == Ids(dest1);
      CopyTombstonesSucceeds(src, dest1, j + 1, k + 1);
      if CopyTombstones(src, dest1, j + 1, k + 1).complete {
        var f :| EmbedsAt(src, dest1, j + 1, k + 1, f);
        EmbedsCons(src, dest, dest1, j, k, f);
      }
      forall f | EmbedsAt(src, dest, j, k, f)
        ensures EmbedsAt(src, dest1, j + 1, k + 1, f[1..])
      {
        EmbedsTail(src, dest, dest1, j, k, f);
      }
    }
  }

  /** After a successful walk, every deleted source item has a deleted destination item with its id. */
  lemma {:induction false} CopyTombstonesCopies(src: seq<Item>, dest: seq<Item>, j: nat, k: nat)
    requires j <= |src| && CopyTombstones(src, dest, j, k).complete
    ensures var out := CopyTombstones(src, dest, j, k).items;
      forall i :: j <= i < |src| && src[i].deleted ==>
        exists n :: k <= n < |out| && out[n].id == src[i].id && out[n].deleted
    decreases |src| - j, |dest| - k
  {
    var out := CopyTombstones(src, dest, j, k).items;
    if j == |src| {
    } else if !IdsEqual(src[j].id, dest[k].id) {
      CopyTombstonesCopies(src, dest, j, k + 1);
    } else {
      var dest1 := if src[j].deleted then dest[k := dest[k].(deleted := true)] else dest;
      CopyTombstonesCopies(src, dest1, j + 1, k + 1);
      assert out == CopyTombstones(src, dest1, j + 1, k + 1).items;
      if src[j].deleted {
        assert out[k] == dest1[k];
        assert k <= k < |out| && out[k].id == src[j].id && out[k].deleted;
      }
    }
  }

  /** Walking again over the walk's own result changes nothing: the flags it would set are already set. */
  lemma {:induction false} CopyTombstonesIdempotent(src: seq<Item>, dest: seq<Item>, j: nat, k: nat)
    requires j <= |src| && CopyTombstones(src, dest, j, k).complete
    ensures var out := CopyTombstones(src, dest, j, k).items;
      CopyTombstones(src, out, j, k) == Walk(out, true)
    decreases |src| - j, |dest| - k
  {
    var out := CopyTombstones(src, dest, j, k).items;
    if j == |src| {
    } else if !IdsEqual(src[j].id, dest[k].id) {
      CopyTombstonesIdempotent(src, dest, j, k + 1);
      assert out[k].id == dest[k].id;
    } else {
      var dest1 := if src[j].deleted then dest[k := dest[k].(deleted := true)] else dest;
      CopyTombstonesIdempotent(src, dest1, j + 1, k + 1);
      assert out == CopyTombstones(src, dest1, j + 1, k + 1).items;
      assert out[k] == dest1[k];
      if src[j].deleted {
        assert out[k := out[k].(deleted := true)] == out;
      }
    }
  }

  /** The walk as the source's nested loops run it; an incomplete walk is the index-out-of-range panic. */
  method WalkTombstones(src: seq<Item>, items: seq<Item>) returns (r: Walk)
    ensures r == CopyTombstones(src, items, 0, 0)
  {
    var cur := items;
    var destIndex := 0;
    for j := 0 to |src|
      invariant destIndex <= |cur|
      invariant CopyTombstones(src, cur, j, destIndex) == CopyTombstones(src, items, 0, 0)
    {
      var srcItem := src[j];
      while true
        invariant destIndex <= |cur|
        invariant CopyTombstones(src, cur, j, destIndex) == CopyTombstones(src, items, 0, 0)
        decreases |cur| - destIndex
      {
        if destIndex >= |cur| {
          return Walk(cur, false);
        }
        if IdsEqual(srcItem.id, cur[destIndex].id) {
          break;
        }
        destIndex := destIndex + 1;
      }
      if srcItem.deleted {
        cur := cur[destIndex := cur[destIndex].(deleted := true)];
      }
      destIndex := destIndex + 1;
    }
    return Walk(cur, true);
  }

  /** The destination has seen every source item and already carries every source tombstone. */
  ghost predicate Absorbed(d: Doc, src: seq<Item>)
  {
    && (forall i :: 0 <= i < |src| ==> IsInVersion(d.version, src[i].id))
    && CopyTombstones(src, d.items, 0, 0) == Walk(d.items, true)
  }

  /** A destination that has seen every source item has nothing pending. */
  lemma PendingOfSeen(v: Version, src: seq<Item>)
    requires forall i :: 0 <= i < |src| ==> IsInVersion(v, src[i].id)
    ensures Pending(v, src) == map[]
  {
  }

  /**
   * What holds between passes of `MergeInto`: `pending` is what is left of
   * `all`, `cur` has seen exactly the ids already taken out of it, and its
   * items are the destination's plus the item of each id taken out.
   */
  ghost predicate Passes(dest: Doc, all: map<ID, Item>, pending: map<ID, Item>, cur: Doc)
  {
    && pending.Keys <= all.Keys
    && (forall id :: id in all ==> all[id].id == id)
    && (forall id :: id in pending ==> pending[id] == all[id])
    && cur.agent == dest.agent && VersionLe(dest.version, cur.version)
    && VersionFrame(dest.version, cur.version, all.Keys - pending.Keys)
    && (forall id :: id in all && id !in pending ==> IsInVersion(cur.version, id))
    && (forall id :: id in pending ==> !IsInVersion(cur.version, id))
    && multiset(Ids(cur.items)) == multiset(Ids(dest.items)) + multiset(all.Keys - pending.Keys)
    && multiset(cur.items) == multiset(dest.items) + PendingItems(all, all.Keys - pending.Keys)
    && (pending == all ==> cur == dest)
  }

  /**
   * `cur` is the destination with exactly the pending items under `done`
   * integrated: it holds their items besides its own, it has seen exactly
   * those of the pending ids, and only their agents' version entries moved.
   */
  ghost predicate Integrated(dest: Doc, all: map<ID, Item>, done: set<ID>, cur: Doc)
  {
    && done <= all.Keys
    && multiset(cur.items) == multiset(dest.items) + PendingItems(all, done)
    && (forall id :: id in all ==> (IsInVersion(cur.version, id) <==> id in done))
    && VersionFrame(dest.version, cur.version, done)
  }

  /** Between passes, the destination has integrated exactly the ids taken out of the pending map. */
  lemma PassesIntegrated(dest: Doc, all: map<ID, Item>, pending: map<ID, Item>, cur: Doc)
    requires Passes(dest, all, pending, cur)
    ensures Integrated(dest, all, all.Keys - pending.Keys, cur)
  {
  }

  /** What the passes have done by any point, in the terms `IntegratePending` reports it. */
  lemma PassesSoFar(dest: Doc, all: map<ID, Item>, pending: map<ID, Item>, cur: Doc)
    requires Passes(dest, all, pending, cur)
    ensures exists done :: Integrated(dest, all, done, cur)
    ensures pending == map[] ==> Integrated(dest, all, all.Keys, cur)
    ensures VersionFrame(dest.version, cur.version, all.Keys)
    ensures multiset(dest.items) <= multiset(cur.items)
  {
    PassesIntegrated(dest, all, pending, cur);
    assert pending == map[] ==> all.Keys - pending.Keys == all.Keys;
    VersionFrameWiden(dest.version, cur.version, all.Keys - pending.Keys, all.Keys);
    MultisetGrows(multiset(dest.items), multiset(cur.items), PendingItems(all, all.Keys - pending.Keys));
  }

  /** Before the first pass, everything is pending and nothing has changed. */
  lemma PassesStart(dest: Doc, src: seq<Item>)
    ensures Passes(dest, Pending(dest.version, src), Pending(dest.version, src), dest)
  {
  }

  /** A pass that integrated something takes exactly those ids out of the pending map. */
  lemma PassStep(dest: Doc, all: map<ID, Item>, pending: map<ID, Item>, cur: Doc, next: Doc, inserted: set<ID>)
    requires Passes(dest, all, pending, cur)
    requires inserted != {} && inserted <= pending.Keys
    requires next.agent == cur.agent && VersionLe(cur.version, next.version)
    requires VersionFrame(cur.version, next.version, inserted)
    requires forall id :: id in inserted ==> IsInVersion(next.version, id)
    requires forall id :: id in pending && id !in inserted ==> !IsInVersion(next.version, id)
    requires multiset(Ids(next.items)) == multiset(Ids(cur.items)) + multiset(inserted)
    requires multiset(next.items) == multiset(cur.items) + PendingItems(pending, inserted)
    ensures Passes(dest, all, pending - inserted, next)
    ensures |pending - inserted| == |pending| - |inserted|
  {
    var rest := pending - inserted;
    PassKeys(all, pending, inserted);
    PassContentsStep(dest.items, all, pending, cur.items, next.items, inserted,
                     all.Keys - pending.Keys, all.Keys - rest.Keys);
    VersionFrameTrans(dest.version, cur.version, next.version, all.Keys - pending.Keys, inserted);
    forall a
      ensures SeenSeq(dest.version, a) <= SeenSeq(next.version, a)
    {
      assert SeenSeq(dest.version, a) <= SeenSeq(cur.version, a);
    }
    forall id | id in all && id !in rest
      ensures IsInVersion(next.version, id)
    {
      if id !in inserted {
        assert IsInVersion(cur.version, id);
        assert SeenSeq(cur.version, id.agent) <= SeenSeq(next.version, id.agent);
      }
    }
    var x :| x in inserted;
    assert x in pending.Keys && x !in rest.Keys;
  }

  /** Taking `inserted` out of the pending map moves exactly those ids to the done side. */
  lemma PassKeys(all: map<ID, Item>, pending: map<ID, Item>, inserted: set<ID>)
    requires pending.Keys <= all.Keys && inserted <= pending.Keys
    ensures (pending - inserted).Keys == pending.Keys - inserted
    ensures all.Keys - (pending - inserted).Keys == (all.Keys - pending.Keys) + inserted
    ensures (all.Keys - pending.Keys) !! inserted
  {
  }

  /** The ids and items a pass added are those of the pending entries it took out. */
  lemma PassContentsStep(dest: seq<Item>, all: map<ID, Item>, pending: map<ID, Item>, cur: seq<Item>,
                         next: seq<Item>, inserted: set<ID>, done: set<ID>, done': set<ID>)
    requires done' == done + inserted && done !! inserted
    requires forall id :: id in all ==> all[id].id == id
    requires forall id :: id in inserted ==> id in pending && id in all && pending[id] == all[id]
    requires multiset(Ids(cur)) == multiset(Ids(dest)) + multiset(done)
    requires multiset(Ids(next)) == multiset(Ids(cur)) + multiset(inserted)
    requires multiset(cur) == multiset(dest) + PendingItems(all, done)
    requires multiset(next) == multiset(cur) + PendingItems(pending, inserted)
    ensures multiset(Ids(next)) == multiset(Ids(dest)) + multiset(done')
    ensures multiset(next) == multiset(dest) + PendingItems(all, done')
  {
  }

  /** A pass that integrated nothing leaves the merge stuck on what is still pending. */
  lemma NoProgressStuck(dest: Doc, all: map<ID, Item>, pending: map<ID, Item>, cur: Doc)
    requires Passes(dest, all, pending, cur) && |pending| > 0
    requires forall id :: id in pending ==> !CanInsert(cur, pending[id])
    ensures Stuck(cur, all)
  {
  }

  /** Once nothing is pending, every source item is seen and each pending id added its item. */
  lemma PassesDone(dest: Doc, src: seq<Item>, cur: Doc)
    requires Passes(dest, Pending(dest.version, src), map[], cur)
    ensures forall i :: 0 <= i < |src| ==> IsInVersion(cur.version, src[i].id)
    ensures multiset(Ids(cur.items)) == multiset(Ids(dest.items)) + multiset(Pending(dest.version, src).Keys)
    ensures var all := Pending(dest.version, src);
      multiset(cur.items) == multiset(dest.items) + PendingItems(all, all.Keys)
  {
    var all := Pending(dest.version, src);
    var none: map<ID, Item> := map[];
    assert all.Keys - none.Keys == all.Keys;
    forall i | 0 <= i < |src|
      ensures IsInVersion(cur.version, src[i].id)
    {
      if !IsInVersion(dest.version, src[i].id) {
        assert src[i].id in all;
      } else {
        assert SeenSeq(dest.version, src[i].id.agent) <= SeenSeq(cur.version, src[i].id.agent);
      }
    }
  }

  /** Every agent no source item comes from keeps its version entry through the passes. */
  lemma UnmentionedAgentsKept(v0: Version, v: Version, src: seq<Item>)
    requires VersionFrame(v0, v, Pending(v0, src).Keys)
    ensures forall a :: (forall i :: 0 <= i < |src| ==> src[i].id.agent != a) ==> SeenSeq(v, a) == SeenSeq(v0, a)
  {
  }

  /** Adding to a multiset only grows it. */
  lemma MultisetGrows(a: multiset<Item>, b: multiset<Item>, added: multiset<Item>)
    requires b == a + added
    ensures a <= b
  {
  }

  /**
   * The passes of `MergeInto`: integrates every source item the destination
   * has not seen, and fails with "not making progress" (keeping what earlier
   * passes integrated) when a pass integrates nothing, which is at once when
   * none of them is insertable. Every destination item stays.
   */
  method IntegratePending(dest: Doc, src: seq<Item>) returns (r: Outcome)
    ensures !r.Panic? && r.doc.agent == dest.agent && VersionLe(dest.version, r.doc.version)
    ensures VersionFrame(dest.version, r.doc.version, Pending(dest.version, src).Keys)
    ensures r.Err? ==> exists done :: Integrated(dest, Pending(dest.version, src), done, r.doc)
    ensures r.Ok? ==> Integrated(dest, Pending(dest.version, src), Pending(dest.version, src).Keys, r.doc)
    ensures multiset(dest.items) <= multiset(r.doc.items)
    ensures r.Err? ==> r.error == NotMakingProgress && Stuck(r.doc, Pending(dest.version, src))
    ensures r.Ok? ==> forall i :: 0 <= i < |src| ==> IsInVersion(r.doc.version, src[i].id)
    ensures r.Ok? ==>
      multiset(Ids(r.doc.items)) == multiset(Ids(dest.items)) + multiset(Pending(dest.version, src).Keys)
    ensures var all := Pending(dest.version, src);
      r.Ok? ==> multiset(r.doc.items) == multiset(dest.items) + PendingItems(all, all.Keys)
    ensures Pending(dest.version, src) == map[] ==> r == Ok(dest)
    ensures Pending(dest.version, src) != map[] && NoneInsertable(dest, Pending(dest.version, src)) ==>
      r == Err(dest, NotMakingProgress)
  {
    var toBeInserted := Pending(dest.version, src);
    ghost var all := toBeInserted;
    PassesStart(dest, src);
    var numRemaining := |toBeInserted|;
    var cur := dest;
    while numRemaining > 0
      invariant numRemaining == |toBeInserted| && Passes(dest, all, toBeInserted, cur)
      invariant all == map[] ==> numRemaining == 0 && cur == dest
      invariant all != map[] && NoneInsertable(dest, all) ==> toBeInserted == all && cur == dest
      decreases numRemaining
    {
      var next, inserted := InsertPass(cur, toBeInserted);
      if |inserted| == 0 {
        NoProgressStuck(dest, all, toBeInserted, cur);
        PassesSoFar(dest, all, toBeInserted, cur);
        return Err(cur, NotMakingProgress);
      }
      PassStep(dest, all, toBeInserted, cur, next, inserted);
      cur := next;
      toBeInserted := toBeInserted - inserted;
      numRemaining := numRemaining - |inserted|;
    }
    assert toBeInserted == map[];
    PassesDone(dest, src, cur);
    PassesSoFar(dest, all, toBeInserted, cur);
    r := Ok(cur);
  }

  /** Every item of `before` is still in `after`, at most with its tombstone flag set. */
  ghost predicate KeepsItems(before: seq<Item>, after: seq<Item>)
  {
    forall i :: 0 <= i < |before| ==> before[i] in after || before[i].(deleted := true) in after
  }

  /** Items kept through the passes survive a walk that only sets flags; a tombstone survives as it is. */
  lemma WalkKeepsItems(before: seq<Item>, mid: seq<Item>, after: seq<Item>)
    requires multiset(before) <= multiset(mid)
    requires |after| == |mid|
    requires forall n :: 0 <= n < |mid| ==> after[n] == mid[n] || after[n] == mid[n].(deleted := true)
    ensures KeepsItems(before, after)
    ensures forall i :: 0 <= i < |before| && before[i].deleted ==> before[i] in after
  {
    forall i | 0 <= i < |before|
      ensures before[i] in after || before[i].(deleted := true) in after
    {
      var n := KeptAt(before, mid, i);
      assert after[n] in after;
    }
    forall i | 0 <= i < |before| && before[i].deleted
      ensures before[i] in after
    {
      var n := KeptAt(before, mid, i);
      assert after[n] == mid[n];
    }
  }

  /** Where item `i` of `before` sits in a list holding at least the items of `before`. */
  lemma KeptAt(before: seq<Item>, mid: seq<Item>, i: nat) returns (n: nat)
    requires multiset(before) <= multiset(mid) && i < |before|
    ensures n < |mid| && mid[n] == before[i]
  {
    assert before[i] in multiset(before);
    assert before[i] in multiset(mid);
    n :| n < |mid| && mid[n] == before[i];
  }

  /**
   * `MergeInto`: the passes, then the copy of the source's tombstones, which
   * panics when the source ids do not occur in order in the merged list,
   * leaving the flags copied so far. `merged` is the destination after the
   * passes: its items are the destination's plus the pending source items.
   * Whatever the outcome, every destination item is still there, at most
   * marked deleted. Merging a source that is already absorbed returns the
   * destination unchanged, and a successful merge leaves the source
   * absorbed, so merging twice is merging once.
   */
  method MergeInto(dest: Doc, src: Doc) returns (r: Outcome, ghost merged: Doc)
    ensures r.Err? ==> r.error == NotMakingProgress && r.doc.agent == dest.agent
    ensures r.Err? ==> VersionLe(dest.version, r.doc.version) && Stuck(r.doc, Pending(dest.version, src.items))
    ensures Pending(dest.version, src.items) != map[] && NoneInsertable(dest, Pending(dest.version, src.items)) ==>
      r == Err(dest, NotMakingProgress)
    ensures !r.Err? ==> merged.agent == dest.agent && VersionLe(dest.version, merged.version)
    ensures !r.Err? ==> forall i :: 0 <= i < |src.items| ==> IsInVersion(merged.version, src.items[i].id)
    ensures !r.Err? ==>
      multiset(Ids(merged.items)) == multiset(Ids(dest.items)) + multiset(Pending(dest.version, src.items).Keys)
    ensures var all := Pending(dest.version, src.items);
      !r.Err? ==> multiset(merged.items) == multiset(dest.items) + PendingItems(all, all.Keys)
    ensures r.Panic? <==> !r.Err? && !exists f :: EmbedsAt(src.items, merged.items, 0, 0, f)
    ensures r.Panic? ==> r.reason == IndexOutOfRange
    ensures !r.Err? ==> r.doc == merged.(items := CopyTombstones(src.items, merged.items, 0, 0).items)
    ensures r.Ok? ==> Absorbed(r.doc, src.items)
    ensures r.Ok? ==> forall i :: 0 <= i < |src.items| && src.items[i].deleted ==>
      exists n :: 0 <= n < |r.doc.items| && r.doc.items[n].id == src.items[i].id && r.doc.items[n].deleted
    ensures KeepsItems(dest.items, r.doc.items)
    ensures forall i :: 0 <= i < |dest.items| && dest.items[i].deleted ==> dest.items[i] in r.doc.items
    ensures Absorbed(dest, src.items) ==> r == Ok(dest)
    ensures VersionFrame(dest.version, r.doc.version, Pending(dest.version, src.items).Keys)
    ensures forall a :: (forall i :: 0 <= i < |src.items| ==> src.items[i].id.agent != a) ==>
      SeenSeq(r.doc.version, a) == SeenSeq(dest.version, a)
    ensures r.Err? ==> exists done :: Integrated(dest, Pending(dest.version, src.items), done, r.doc)
    ensures !r.Err? ==>
      Integrated(dest, Pending(dest.version, src.items), Pending(dest.version, src.items).Keys, merged)
  {
    if Absorbed(dest, src.items) {
      PendingOfSeen(dest.version, src.items);
    }
    var passes := IntegratePending(dest, src.items);
    UnmentionedAgentsKept(dest.version, passes.doc.version, src.items);
    if passes.Err? {
      WalkKeepsItems(dest.items, passes.doc.items, passes.doc.items);
      return passes, passes.doc;
    }
    var cur := passes.doc;
    merged := cur;
    var walked := WalkTombstones(src.items, cur.items);
    CopyTombstonesSucceeds(src.items, cur.items, 0, 0);
    WalkKeepsItems(dest.items, cur.items, walked.items);
    if !walked.complete {
      return Panic(cur.(items := walked.items), IndexOutOfRange), merged;
    }
    CopyTombstonesIdempotent(src.items, cur.items, 0, 0);
    CopyTombstonesCopies(src.items, cur.items, 0, 0);
    r := Ok(cur.(items := walked.items));
  }
}
