/**
 * The study queue: an ordered list of item ids that the queue actions edit
 * in place. Each action on the list is a function of the old list; the class
 * applies them to its `ids` field, and the lemmas relate the actions to one
 * another (what `remove` undoes, what the moves keep, what `reorder` undoes).
 */
module QueueStore {
  import opened Wrappers
  import opened Seqs
  import opened Types

  /** The ids that `ids` does not list: `id => !ids.includes(id)`. */
  function NotListed(ids: seq<string>): string -> bool {
    (id: string) => id !in ids
  }

  /** `item => item.id === id`. */
  function HasId(id: string): WordItem -> bool {
    (it: WordItem) => it.id == id
  }

  // ---------------------------------------------------------------------
  // The actions on the list
  // ---------------------------------------------------------------------

  /**
   * `add`: the argument's ids that the queue does not hold yet, appended in
   * argument order; ids repeated inside the argument are not merged.
   */
  function Added(queue: seq<string>, xs: seq<string>): (r: seq<string>)
    ensures |queue| <= |r| && r[..|queue|] == queue
    ensures Picked(r[|queue|..], xs, NotListed(queue))
    ensures forall id :: id in r <==> id in queue || id in xs
  {
    var newIds := Filter(xs, NotListed(queue));
    FilterPicked(xs, NotListed(queue));
    assert (queue + newIds)[|queue|..] == newIds;
    queue + newIds
  }

  /** `remove`: the first occurrence of `id` goes, nothing else changes. */
  function RemoveFirst(queue: seq<string>, id: string): (r: seq<string>)
    ensures multiset(r) == multiset(queue) - multiset{id}
    ensures |r| == if id in queue then |queue| - 1 else |queue|
    ensures id !in queue ==> r == queue
    ensures id in queue ==> exists i :: (0 <= i < |queue| && queue[i] == id &&
      (forall j :: 0 <= j < i ==> queue[j] != id) && r == queue[..i] + queue[i + 1..])
  {
    match IndexOf(queue, id)
    case None => queue
    case Some(i) => RemoveAt(queue, i)
  }

  /** `removeMultiple`: every occurrence of every listed id goes. */
  function RemoveAll(queue: seq<string>, xs: seq<string>): (r: seq<string>)
    ensures forall id :: id in r <==> id in queue && id !in xs
    ensures |r| <= |queue|
    ensures Picked(r, queue, NotListed(xs))
  {
    FilterPicked(queue, NotListed(xs));
    Filter(queue, NotListed(xs))
  }

  /** `moveToTop`: the first occurrence of `id` is taken out and put first. */
  function MovedToTop(queue: seq<string>, id: string): (r: seq<string>)
    ensures |r| == |queue| && multiset(r) == multiset(queue)
    ensures id in queue ==> r[0] == id
    ensures id !in queue ==> r == queue
    ensures id in queue ==> exists i :: (0 <= i < |queue| && queue[i] == id &&
      (forall j :: 0 <= j < i ==> queue[j] != id) && r == [id] + queue[..i] + queue[i + 1..])
  {
    match IndexOf(queue, id)
    case None => queue
    case Some(i) =>
      var r := [id] + RemoveAt(queue, i);
      assert r == [id] + queue[..i] + queue[i + 1..];
      assert r[0] == id;
      r
  }

  /** `moveToBottom`: the first occurrence of `id` is taken out and put last. */
  function MovedToBottom(queue: seq<string>, id: string): (r: seq<string>)
    ensures |r| == |queue| && multiset(r) == multiset(queue)
    ensures id in queue ==> r[|r| - 1] == id
    ensures id !in queue ==> r == queue
    ensures id in queue ==> exists i :: (0 <= i < |queue| && queue[i] == id &&
      (forall j :: 0 <= j < i ==> queue[j] != id) && r == queue[..i] + queue[i + 1..] + [id])
  {
    match IndexOf(queue, id)
    case None => queue
    case Some(i) =>
      var r := RemoveAt(queue, i) + [id];
      assert r == queue[..i] + queue[i + 1..] + [id];
      r
  }

  /**
   * How `Array.prototype.splice` reads a start index on an array of length
   * `n`: a negative one counts from the end, and both ends are clamped.
   */
  function SpliceStart(n: nat, start: int): (k: nat)
    ensures k <= n
    ensures 0 <= start <= n ==> k == start
    ensures start < n ==> k < n || n == 0
  {
    if start < 0 then (if n + start < 0 then 0 else n + start)
    else if start > n then n
    else start
  }

  /**
   * `reorder`: `splice(fromIndex, 1)` takes one id out, `splice(toIndex, 0, removed)`
   * puts it back in the shortened list. An empty queue or a `fromIndex` at
   * or past the end would insert `undefined`, which callers do not ask for.
   */
  function Reordered(queue: seq<string>, from: int, to: int): (r: seq<string>)
    requires 0 < |queue| && from < |queue|
    ensures |r| == |queue| && multiset(r) == multiset(queue)
    ensures r[SpliceStart(|queue| - 1, to)] == queue[SpliceStart(|queue|, from)]
    ensures RemoveAt(r, SpliceStart(|queue| - 1, to)) == RemoveAt(queue, SpliceStart(|queue|, from))
  {
    var f := SpliceStart(|queue|, from);
    var t := SpliceStart(|queue| - 1, to);
    RemoveInsert(RemoveAt(queue, f), t, queue[f]);
    InsertAt(RemoveAt(queue, f), t, queue[f])
  }

  // ---------------------------------------------------------------------
  // Reads
  // ---------------------------------------------------------------------

  /** `getNextItem`: the first item whose id is the head of the queue, `null` otherwise. */
  function NextItem(queue: seq<string>, items: seq<WordItem>): (r: Option<WordItem>)
    ensures queue == [] ==> r.None?
    ensures queue != [] ==> (r.None? <==> forall k :: 0 <= k < |items| ==> items[k].id != queue[0])
    ensures r.Some? ==> exists k :: IsFirst(items, HasId(queue[0]), k) && r.value == items[k]
  {
    if queue == [] then None else Find(items, HasId(queue[0]))
  }

  /**
   * `getRandomItem`: `draw` stands for `Math.random()`; the id it picks is
   * `ids[draw % ids.length]`, any position of the queue.
   */
  function RandomItem(queue: seq<string>, items: seq<WordItem>, draw: nat): (r: Option<WordItem>)
    ensures queue == [] ==> r.None?
    ensures queue != [] ==> (r.None? <==> forall k :: 0 <= k < |items| ==> items[k].id != queue[draw % |queue|])
    ensures r.Some? ==> exists k :: IsFirst(items, HasId(queue[draw % |queue|]), k) && r.value == items[k]
  {
    if queue == [] then None else Find(items, HasId(queue[draw % |queue|]))
  }

  /** The ids that name some item. */
  function Named(items: seq<WordItem>): string -> bool {
    (id: string) => Find(items, HasId(id)).Some?
  }

  /** The ids of the items, in order. */
  function ItemIds(items: seq<WordItem>): (r: seq<string>)
    ensures |r| == |items| && forall k :: 0 <= k < |items| ==> r[k] == items[k].id
  {
    seq(|items|, k requires 0 <= k < |items| => items[k].id)
  }

  lemma ItemIdsSnoc(items: seq<WordItem>, it: WordItem)
    ensures ItemIds(items + [it]) == ItemIds(items) + [it.id]
  {
  }

  /** Each of `r` is the first of `items` with its id. */
  ghost predicate FirstOfTheirIds(r: seq<WordItem>, items: seq<WordItem>) {
    forall m :: 0 <= m < |r| ==> exists k :: IsFirst(items, HasId(r[m].id), k) && r[m] == items[k]
  }

  /**
   * `queueItems`: the queue's ids that name an item, each paired with the
   * first such item, in queue order; ids without an item are dropped.
   */
  function QueueItems(queue: seq<string>, items: seq<WordItem>): (r: seq<WordItem>)
    ensures |r| <= |queue|
    ensures forall m :: 0 <= m < |r| ==> r[m].id in queue
    ensures FirstOfTheirIds(r, items)
  {
    if queue == [] then []
    else
      var rest := QueueItems(queue[..|queue| - 1], items);
      assert forall id | id in queue[..|queue| - 1] :: id in queue;
      match Find(items, HasId(queue[|queue| - 1]))
      case None => rest
      case Some(it) =>
        assert it.id == queue[|queue| - 1];
        assert FirstOfTheirIds(rest + [it], items) by {
          forall m | 0 <= m < |rest| + 1
            ensures exists k :: IsFirst(items, HasId((rest + [it])[m].id), k) && (rest + [it])[m] == items[k]
          {
            if m < |rest| {
              assert (rest + [it])[m] == rest[m];
            }
          }
        }
        rest + [it]
  }

  /** The items' ids are the queue's ids that name an item, in queue order: `ids.filter(named)`. */
  lemma {:induction false} QueueItemsIds(queue: seq<string>, items: seq<WordItem>)
    ensures ItemIds(QueueItems(queue, items)) == Filter(queue, Named(items))
  {
    if queue != [] {
      var init, last := queue[..|queue| - 1], queue[|queue| - 1];
      InitLast(queue);
      QueueItemsIds(init, items);
      FilterAppend(init, [last], Named(items));
      FilterSingle(last, Named(items));
      var rest := QueueItems(init, items);
      match Find(items, HasId(last))
      case None =>
        assert QueueItems(queue, items) == rest;
      case Some(it) =>
        assert QueueItems(queue, items) == rest + [it];
        ItemIdsSnoc(rest, it);
    }
  }

  /**
   * The items come in queue order, one for each queue position whose id
   * names an item (so a repeated id gives its item again), and each is the
   * first item with its id. With every id naming an item, one item per id.
   */
  lemma QueueItemsSpec(queue: seq<string>, items: seq<WordItem>)
    ensures Picked(ItemIds(QueueItems(queue, items)), queue, Named(items))
    ensures FirstOfTheirIds(QueueItems(queue, items), items)
    ensures (forall id | id in queue :: exists k :: 0 <= k < |items| && items[k].id == id) ==>
      |QueueItems(queue, items)| == |queue|
  {
    QueueItemsIds(queue, items);
    FilterPicked(queue, Named(items));
    if forall id | id in queue :: exists k :: 0 <= k < |items| && items[k].id == id {
      forall i | 0 <= i < |queue| ensures Named(items)(queue[i]) {
        assert queue[i] in queue;
      }
      FilterCount(queue, Named(items));
    }
  }

  // ---------------------------------------------------------------------
  // Laws
  // ---------------------------------------------------------------------

  /** `add` keeps a duplicate-free queue duplicate-free when its argument is. */
  lemma AddedNoDup(queue: seq<string>, xs: seq<string>)
    requires NoDup(queue) && NoDup(xs)
    ensures NoDup(Added(queue, xs))
  {
    var newIds := Filter(xs, NotListed(queue));
    FilterNoDup(xs, NotListed(queue));
    var r := Added(queue, xs);
    forall i, j | 0 <= i < j < |r| ensures r[i] != r[j] {
      if j >= |queue| {
        assert r[j] == newIds[j - |queue|];
        if i < |queue| {
          assert r[i] == queue[i];
        } else {
          assert r[i] == newIds[i - |queue|];
        }
      }
    }
  }

  /** Adding the same ids a second time changes nothing. */
  lemma AddedIdempotent(queue: seq<string>, xs: seq<string>)
    ensures Added(Added(queue, xs), xs) == Added(queue, xs)
  {
    var r := Added(queue, xs);
    FilterCount(xs, NotListed(r));
    assert Filter(xs, NotListed(r)) == [];
    assert r + [] == r;
  }

  /** `addSingle(id)` is `add([id])`. */
  lemma AddSingleIsAdd(queue: seq<string>, id: string)
    ensures AddNew(queue, id) == Added(queue, [id])
  {
    var p := NotListed(queue);
    assert Filter([id], p) == (if p(id) then [id] else []) + Filter([id][1..], p);
    assert [id][1..] == [];
  }

  /** `remove` undoes `addSingle` of an id the queue did not hold. */
  lemma RemoveUndoesAddSingle(queue: seq<string>, id: string)
    requires id !in queue
    ensures RemoveFirst(AddNew(queue, id), id) == queue
  {
    var r := queue + [id];
    IndexOfIs(r, id, |queue|);
    assert r[..|queue|] == queue;
  }

  /** In a duplicate-free queue, `remove` takes the id out altogether. */
  lemma RemoveFirstNoDup(queue: seq<string>, id: string)
    requires NoDup(queue)
    ensures id !in RemoveFirst(queue, id)
  {
    if id in queue {
      var i := IndexOf(queue, id).value;
      var r := RemoveAt(queue, i);
      forall k | 0 <= k < |r| ensures r[k] != id {
        if k < i { assert r[k] == queue[k]; } else { assert r[k] == queue[k + 1]; }
      }
    }
  }

  /** `removeMultiple` of the ids just added leaves what removing them from the old queue leaves. */
  lemma RemoveAllUndoesAdd(queue: seq<string>, xs: seq<string>)
    ensures RemoveAll(Added(queue, xs), xs) == RemoveAll(queue, xs)
  {
    var newIds := Filter(xs, NotListed(queue));
    FilterAppend(queue, newIds, NotListed(xs));
    forall x | x in newIds ensures !NotListed(xs)(x) { }
    assert Filter(newIds, NotListed(xs)) == [] by {
      FilterCount(newIds, NotListed(xs));
    }
    assert Filter(queue, NotListed(xs)) + [] == Filter(queue, NotListed(xs));
  }

  /** Taking one occurrence of `id` out keeps every other id in its relative order. */
  lemma RemoveAtKeepsOthers(queue: seq<string>, i: nat, id: string)
    requires i < |queue| && queue[i] == id
    ensures RemoveAll(RemoveAt(queue, i), [id]) == RemoveAll(queue, [id])
  {
    var p := NotListed([id]);
    assert queue == queue[..i] + ([queue[i]] + queue[i + 1..]);
    FilterAppend(queue[..i], [queue[i]] + queue[i + 1..], p);
    FilterAppend(queue[..i], queue[i + 1..], p);
    assert Filter([queue[i]] + queue[i + 1..], p) == Filter(queue[i + 1..], p) by {
      assert ([queue[i]] + queue[i + 1..])[1..] == queue[i + 1..];
    }
  }

  /** `remove`, `moveToTop` and `moveToBottom` keep the other ids in their relative order. */
  lemma MovesKeepOthers(queue: seq<string>, id: string)
    ensures RemoveAll(RemoveFirst(queue, id), [id]) == RemoveAll(queue, [id])
    ensures RemoveAll(MovedToTop(queue, id), [id]) == RemoveAll(queue, [id])
    ensures RemoveAll(MovedToBottom(queue, id), [id]) == RemoveAll(queue, [id])
  {
    if id in queue {
      var i := IndexOf(queue, id).value;
      var rest := RemoveAt(queue, i);
      var p := NotListed([id]);
      RemoveAtKeepsOthers(queue, i, id);
      assert Filter([id] + rest, p) == Filter(rest, p) by {
        assert ([id] + rest)[1..] == rest;
      }
      FilterAppend(rest, [id], p);
      assert Filter([id], p) == [] + Filter([id][1..], p);
      assert [id][1..] == [];
      assert Filter(rest, p) + [] == Filter(rest, p);
    }
  }

  /** Moving an id to the top twice is moving it once. */
  lemma MoveToTopIdempotent(queue: seq<string>, id: string)
    ensures MovedToTop(MovedToTop(queue, id), id) == MovedToTop(queue, id)
  {
    var r := MovedToTop(queue, id);
    if id in queue {
      assert r[0] == id;
      IndexOfIs(r, id, 0);
      assert MovedToTop(r, id) == [id] + RemoveAt(r, 0);
      assert RemoveAt(r, 0) == r[1..];
      assert [id] + r[1..] == r;
    }
  }

  /** In a duplicate-free queue, moving an id to the bottom twice is moving it once. */
  lemma MoveToBottomIdempotent(queue: seq<string>, id: string)
    requires NoDup(queue)
    ensures MovedToBottom(MovedToBottom(queue, id), id) == MovedToBottom(queue, id)
  {
    if id in queue {
      var i := IndexOf(queue, id).value;
      var rest := RemoveAt(queue, i);
      var r := rest + [id];
      RemoveFirstNoDup(queue, id);
      assert RemoveFirst(queue, id) == rest;
      forall k | 0 <= k < |rest| ensures r[k] != id {
        assert r[k] == rest[k];
      }
      IndexOfIs(r, id, |rest|);
      assert RemoveAt(r, |rest|) == rest;
    }
  }

  /** After `moveToTop(id)`, `getNextItem` reads the item of `id`. */
  lemma NextItemAfterMoveToTop(queue: seq<string>, items: seq<WordItem>, id: string)
    requires id in queue
    ensures NextItem(MovedToTop(queue, id), items) == Find(items, HasId(id))
  {
  }

  /** `reorder(to, from)` undoes `reorder(from, to)` for positions inside the queue. */
  lemma ReorderUndo(queue: seq<string>, from: int, to: int)
    requires 0 <= from < |queue| && 0 <= to < |queue|
    ensures Reordered(Reordered(queue, from, to), to, from) == queue
  {
    var rest := RemoveAt(queue, from);
    RemoveInsert(rest, to, queue[from]);
    InsertRemove(queue, from);
  }

  // ---------------------------------------------------------------------
  // The store
  // ---------------------------------------------------------------------

  class Queue {
    var ids: seq<string>
    var error: Option<string>

    constructor()
      ensures ids == [] && error == None
    {
      ids := [];
      error := None;
    }

    /** `loadQueue`: the saved ids, or the message of a failed load with the ids kept. */
    method LoadQueue(loaded: Result<seq<string>, string>)
      modifies this
      ensures loaded.Ok? ==> ids == loaded.value && error == None
      ensures loaded.Err? ==> ids == old(ids) && error == Some(loaded.error)
    {
      error := None;
      match loaded
      case Ok(saved) =>
        ids := saved;
      case Err(message) =>
        error := Some(message);
    }

    /** `saveQueue`: the ids handed to the database; `saveFailure` is the message of a failed save. */
    method SaveQueue(saveFailure: Option<string>) returns (saved: seq<string>)
      modifies this
      ensures saved == ids && ids == old(ids)
      ensures error == if saveFailure.Some? then saveFailure else old(error)
    {
      saved := ids;
      if saveFailure.Some? {
        error := saveFailure;
      }
    }

    method Add(xs: seq<string>)
      modifies this
      ensures ids == Added(old(ids), xs) && error == old(error)
    {
      ids := ids + Filter(xs, NotListed(ids));
    }

    method AddSingle(id: string)
      modifies this
      ensures ids == AddNew(old(ids), id) && error == old(error)
    {
      if id !in ids {
        ids := ids + [id];
      }
    }

    method Remove(id: string)
      modifies this
      ensures ids == RemoveFirst(old(ids), id) && error == old(error)
    {
      var index := IndexOf(ids, id);
      if index.Some? {
        ids := ids[..index.value] + ids[index.value + 1..];
      }
    }

    method RemoveMultiple(xs: seq<string>)
      modifies this
      ensures ids == RemoveAll(old(ids), xs) && error == old(error)
    {
      ids := Filter(ids, NotListed(xs));
    }

    method Clear()
      modifies this
      ensures ids == [] && error == old(error)
    {
      ids := [];
    }

    method MoveToTop(id: string)
      modifies this
      ensures ids == MovedToTop(old(ids), id) && error == old(error)
    {
      var index := IndexOf(ids, id);
      if index.Some? {
        ids := [id] + (ids[..index.value] + ids[index.value + 1..]);
      }
    }

    method MoveToBottom(id: string)
      modifies this
      ensures ids == MovedToBottom(old(ids), id) && error == old(error)
    {
      var index := IndexOf(ids, id);
      if index.Some? {
        ids := (ids[..index.value] + ids[index.value + 1..]) + [id];
      }
    }

    method Reorder(fromIndex: int, toIndex: int)
      requires 0 < |ids| && fromIndex < |ids|
      modifies this
      ensures ids == Reordered(old(ids), fromIndex, toIndex) && error == old(error)
    {
      var f := SpliceStart(|ids|, fromIndex);
      var removed := ids[f];
      var rest := ids[..f] + ids[f + 1..];
      var t := SpliceStart(|rest|, toIndex);
      ids := rest[..t] + [removed] + rest[t..];
    }

    function IsInQueue(id: string): (b: bool)
      reads this
      ensures b <==> exists k :: 0 <= k < |ids| && ids[k] == id
    {
      id in ids
    }

    function QueueLength(): (n: nat)
      reads this
      ensures n == |ids|
    {
      |ids|
    }

    function IsEmpty(): (b: bool)
      reads this
      ensures b <==> QueueLength() == 0
    {
      |ids| == 0
    }

    function GetNextItem(items: seq<WordItem>): (r: Option<WordItem>)
      reads this
      ensures r == NextItem(ids, items)
    {
      if |ids| == 0 then None else Find(items, HasId(ids[0]))
    }

    function GetRandomItem(items: seq<WordItem>, draw: nat): (r: Option<WordItem>)
      reads this
      ensures r == RandomItem(ids, items, draw)
    {
      if |ids| == 0 then None else Find(items, HasId(ids[draw % |ids|]))
    }

    /**
     * `shuffle`: Fisher–Yates from the last position down; `draw(i) % (i + 1)`
     * stands for `Math.floor(Math.random() * (i + 1))`. The result is a
     * rearrangement of the same ids.
     */
    method Shuffle(draw: nat -> nat)
      modifies this
      ensures |ids| == |old(ids)| && multiset(ids) == multiset(old(ids))
      ensures error == old(error)
    {
      var i: int := |ids| - 1;
      while i > 0
        invariant i < |ids| && |ids| == |old(ids)|
        invariant multiset(ids) == multiset(old(ids))
        invariant error == old(error)
        decreases i
      {
        var j := draw(i) % (i + 1);
        ids := ids[i := ids[j]][j := ids[i]];
        i := i - 1;
      }
    }

    method ClearError()
      modifies this
      ensures ids == old(ids) && error == None
    {
      error := None;
    }

    method Reset()
      modifies this
      ensures ids == [] && error == None
    {
      ids := [];
      error := None;
    }
  }
}
