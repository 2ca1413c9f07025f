/** Reverse iteration over a ROS1 bag: the chunks that can hold messages at
    or before the current position, largest end time first, are loaded a
    batch at a time, and the index entries of each loaded chunk that fall
    between the new and the old position feed the message heap.

    Times are nanosecond counts: `compare` is the integer order and
    subtracting `{sec: 0, nsec: 1}` is `t - 1`. Reading a chunk is a
    parameter `read`; the heap is the sequence of items pushed onto it. */
module BagReverse {
  import opened Wrappers

  type Time = int

  datatype ChunkInfo = ChunkInfo(startTime: Time, endTime: Time, chunkPosition: int)

  datatype IndexEntry = IndexEntry(time: Time, offset: int)

  /** The index of one connection in a chunk; `indices` may be absent. */
  datatype IndexData = IndexData(conn: int, indices: Option<seq<IndexEntry>>)

  datatype ChunkReadResult = ChunkReadResult(indices: seq<IndexData>)

  datatype HeapItem = HeapItem(time: Time, offset: int, chunkReadResult: ChunkReadResult)

  // ----- the remaining-chunk slots -----

  /** `filter(Boolean)`: the present slots, in order. */
  function Somes<T>(s: seq<Option<T>>): (r: seq<T>)
    ensures |r| <= |s|
  {
    if s == [] then []
    else
      var init := Somes(s[..|s| - 1]);
      if s[|s| - 1].Some? then init + [s[|s| - 1].value] else init
  }

  predicate NoGaps<T>(s: seq<Option<T>>) {
    forall i :: 0 <= i < |s| ==> s[i].Some?
  }

  /** Every chunk as a present slot. */
  function Wrap(s: seq<ChunkInfo>): (r: seq<Option<ChunkInfo>>)
    ensures |r| == |s| && NoGaps(r)
    ensures forall i :: 0 <= i < |s| ==> r[i] == Some(s[i])
  {
    seq(|s|, i requires 0 <= i < |s| => Some(s[i]))
  }

  /** Dropping the gaps of all-present slots gives back the chunks. */
  lemma {:induction false} SomesOfWrap(s: seq<ChunkInfo>)
    ensures Somes(Wrap(s)) == s
  {
    if s != [] {
      var init := s[..|s| - 1];
      SomesOfWrap(init);
      assert Wrap(s)[..|s| - 1] == Wrap(init);
    }
  }

  /** `p` is `s` with some slots emptied. */
  predicate Pruned(p: seq<Option<ChunkInfo>>, s: seq<Option<ChunkInfo>>) {
    |p| == |s| && forall i :: 0 <= i < |s| ==> p[i].None? || p[i] == s[i]
  }

  /** `a` is `b` with some elements left out, the rest in order. */
  predicate IsSubsequence<T(==)>(a: seq<T>, b: seq<T>)
    decreases |b|
  {
    if a == [] then true
    else if b == [] then false
    else if a[|a| - 1] == b[|b| - 1] then IsSubsequence(a[..|a| - 1], b[..|b| - 1])
    else IsSubsequence(a, b[..|b| - 1])
  }

  /** Emptying slots keeps the survivors in their order, and a slot that
      held a chunk and is emptied makes the list shorter. */
  lemma {:induction false} PrunedSurvivors(p: seq<Option<ChunkInfo>>, s: seq<Option<ChunkInfo>>)
    requires Pruned(p, s)
    ensures IsSubsequence(Somes(p), Somes(s))
    ensures |Somes(p)| <= |Somes(s)|
    ensures (exists i :: 0 <= i < |s| && s[i].Some? && p[i].None?) ==> |Somes(p)| < |Somes(s)|
  {
    if s != [] {
      var n := |s| - 1;
      assert Pruned(p[..n], s[..n]);
      PrunedSurvivors(p[..n], s[..n]);
      assert Somes(p) == Somes(p[..n]) + (if p[n].Some? then [p[n].value] else []);
      assert Somes(s) == Somes(s[..n]) + (if s[n].Some? then [s[n].value] else []);
      if p[n].Some? {
        assert Somes(p)[..|Somes(p)| - 1] == Somes(p[..n]);
      } else if s[n].Some? {
        SubsequenceExtend(Somes(p[..n]), Somes(s[..n]), s[n].value);
      }
      if exists i :: 0 <= i < |s| && s[i].Some? && p[i].None? {
        var i :| 0 <= i < |s| && s[i].Some? && p[i].None?;
        if i < n {
          assert s[..n][i].Some? && p[..n][i].None?;
        }
      }
    }
  }

  /** A subsequence stays one when the whole grows at the end. */
  lemma {:induction false} SubsequenceExtend<T>(a: seq<T>, b: seq<T>, v: T)
    requires IsSubsequence(a, b)
    ensures IsSubsequence(a, b + [v])
    decreases |b|, 1
  {
    assert (b + [v])[..|b|] == b;
    if a != [] && a[|a| - 1] == v {
      SubsequenceDropLast(a, b);
    }
  }

  /** Leaving out the last element of a subsequence keeps it one. */
  lemma {:induction false} SubsequenceDropLast<T>(a: seq<T>, b: seq<T>)
    requires a != [] && IsSubsequence(a, b)
    ensures IsSubsequence(a[..|a| - 1], b)
    decreases |b|, 0
  {
    var b' := b[..|b| - 1];
    assert b == b' + [b[|b| - 1]];
    if a[|a| - 1] == b[|b| - 1] {
      SubsequenceExtend(a[..|a| - 1], b', b[|b| - 1]);
    } else {
      SubsequenceDropLast(a, b');
      SubsequenceExtend(a[..|a| - 1], b', b[|b| - 1]);
    }
  }

  /** Every element of a subsequence is an element of the whole, and a
      subsequence of a list sorted by non-increasing end time is sorted so. */
  lemma {:induction false} SubsequenceSorted(a: seq<ChunkInfo>, b: seq<ChunkInfo>)
    requires IsSubsequence(a, b)
    ensures forall x :: x in a ==> x in b
    ensures SortedByEnd(b) ==> SortedByEnd(a)
    decreases |b|
  {
    if a != [] && b != [] {
      var b' := b[..|b| - 1];
      if a[|a| - 1] == b[|b| - 1] {
        var a' := a[..|a| - 1];
        SubsequenceSorted(a', b');
        assert a == a' + [b[|b| - 1]];
        assert b == b' + [b[|b| - 1]];
        if SortedByEnd(b) {
          assert SortedByEnd(b');
          forall i, j | 0 <= i < j < |a| ensures a[i].endTime >= a[j].endTime {
            if j == |a| - 1 {
              assert a[i] in b';
              var k :| 0 <= k < |b'| && b'[k] == a[i];
              assert b[k] == a[i];
            } else {
              assert a[i] == a'[i] && a[j] == a'[j];
            }
          }
        }
      } else {
        SubsequenceSorted(a, b');
        assert SortedByEnd(b) ==> SortedByEnd(b');
      }
    }
  }

  // ----- construction -----

  /** Non-increasing end time: largest end first. */
  predicate SortedByEnd(s: seq<ChunkInfo>) {
    forall i, j :: 0 <= i < j < |s| ==> s[i].endTime >= s[j].endTime
  }

  /** The chunks starting at or before `position`, in their order. */
  function StartedBy(infos: seq<ChunkInfo>, position: Time): (r: seq<ChunkInfo>)
    ensures forall c :: c in r <==> c in infos && c.startTime <= position
    ensures IsSubsequence(r, infos)
  {
    if infos == [] then []
    else
      var last := infos[|infos| - 1];
      var init := StartedBy(infos[..|infos| - 1], position);
      assert infos == infos[..|infos| - 1] + [last];
      if last.startTime <= position then
        assert (init + [last])[..|init|] == init;
        init + [last]
      else
        init
  }

  /** Inserting into the chunk-info heap: after every chunk that ends no
      earlier, before the first that ends earlier. */
  function InsertByEnd(x: ChunkInfo, s: seq<ChunkInfo>): (r: seq<ChunkInfo>)
    ensures multiset(r) == multiset(s) + multiset{x}
  {
    if s == [] then [x]
    else if s[0].endTime < x.endTime then [x] + s
    else
      assert s == [s[0]] + s[1..];
      [s[0]] + InsertByEnd(x, s[1..])
  }

  /** Insertion keeps the order by non-increasing end time. */
  lemma {:induction false} InsertByEndSorted(x: ChunkInfo, s: seq<ChunkInfo>)
    requires SortedByEnd(s)
    ensures SortedByEnd(InsertByEnd(x, s))
  {
    if s != [] && s[0].endTime >= x.endTime {
      var rest := InsertByEnd(x, s[1..]);
      InsertByEndSorted(x, s[1..]);
      forall k | 0 <= k < |rest| ensures rest[k].endTime <= s[0].endTime {
        assert rest[k] in multiset(rest);
        if rest[k] != x {
          assert rest[k] in multiset(s[1..]);
          var m :| 0 <= m < |s[1..]| && s[1..][m] == rest[k];
          assert s[m + 1] == rest[k];
        }
      }
    }
  }

  /** The order the chunk-info heap pops its chunks in. */
  function HeapOrder(s: seq<ChunkInfo>): (r: seq<ChunkInfo>)
    ensures SortedByEnd(r)
    ensures multiset(r) == multiset(s)
  {
    if s == [] then []
    else
      assert s == s[..|s| - 1] + [s[|s| - 1]];
      var init := HeapOrder(s[..|s| - 1]);
      InsertByEndSorted(s[|s| - 1], init);
      InsertByEnd(s[|s| - 1], init)
  }

  // ----- selection -----

  /** A present chunk that ends before `start` ends the selection. */
  predicate Stops(slot: Option<ChunkInfo>, start: Time) {
    slot.Some? && slot.value.endTime < start
  }

  /** A selected chunk starting at or after `start` is consumed. */
  predicate Consumed(slot: Option<ChunkInfo>, start: Time) {
    slot.Some? && slot.value.startTime >= start
  }

  /** Where the forward scan from `from` stops: the first chunk ending
      before `start`, or the end of the slots. */
  function StopIndex(slots: seq<Option<ChunkInfo>>, start: Time, from: nat): (r: nat)
    requires from <= |slots|
    ensures from <= r <= |slots|
    ensures r < |slots| ==> Stops(slots[r], start)
    ensures forall j :: from <= j < r ==> !Stops(slots[j], start)
    decreases |slots| - from
  {
    if from == |slots| then from
    else if Stops(slots[from], start) then from
    else StopIndex(slots, start, from + 1)
  }

  /** The slots once the first and every consumed chunk before `stop` are
      emptied. */
  function Cleared(slots: seq<Option<ChunkInfo>>, start: Time, stop: nat): (r: seq<Option<ChunkInfo>>)
    ensures Pruned(r, slots)
  {
    seq(|slots|, i requires 0 <= i < |slots| =>
      if i == 0 || (i < stop && Consumed(slots[i], start)) then None else slots[i])
  }

  /** The chunks to load: the first, then every present chunk before `stop`. */
  function Selected(slots: seq<Option<ChunkInfo>>, stop: nat): seq<ChunkInfo>
    requires 1 <= stop <= |slots| && slots[0].Some?
  {
    [slots[0].value] + Somes(slots[1..stop])
  }

  /** The selection: the first chunk is loaded and removed; every chunk
      loaded after it ends at or after `start`, and the chunk the scan
      stops at ends before `start` and stays; a slot is emptied exactly
      when it is the first or a scanned chunk starting at or after
      `start`. */
  lemma SelectionFacts(slots: seq<Option<ChunkInfo>>)
    requires |slots| > 0 && slots[0].Some?
    ensures var start := slots[0].value.startTime;
      var stop := StopIndex(slots, start, 1);
      var loaded := Selected(slots, stop);
      var r := Cleared(slots, start, stop);
      loaded[0] == slots[0].value && r[0].None?
      && (forall c :: c in loaded[1..] ==> c.endTime >= start)
      && (forall i :: 1 <= i < stop && slots[i].Some? ==> slots[i].value in loaded)
      && (stop < |slots| ==> slots[stop].value.endTime < start && r[stop] == slots[stop])
      && (forall i :: 1 <= i < |slots| ==>
            (r[i].None? <==> slots[i].None? || (i < stop && slots[i].value.startTime >= start)))
  {
    var start := slots[0].value.startTime;
    var stop := StopIndex(slots, start, 1);
    SelectedEndAfter(slots, start, stop);
    SelectedHoldsScanned(slots, stop);
    ClearedSlots(slots, start, stop);
  }

  lemma SelectedEndAfter(slots: seq<Option<ChunkInfo>>, start: Time, stop: nat)
    requires 1 <= stop <= |slots| && slots[0].Some?
    requires forall j :: 1 <= j < stop ==> !Stops(slots[j], start)
    ensures forall c :: c in Selected(slots, stop)[1..] ==> c.endTime >= start
  {
    var scanned := slots[1..stop];
    assert Selected(slots, stop)[1..] == Somes(scanned);
    SomesMembers(scanned);
    forall c: ChunkInfo | c in Somes(scanned) ensures c.endTime >= start {
      var k :| 0 <= k < |scanned| && scanned[k] == Some(c);
      assert !Stops(slots[k + 1], start);
    }
  }

  lemma SelectedHoldsScanned(slots: seq<Option<ChunkInfo>>, stop: nat)
    requires 1 <= stop <= |slots| && slots[0].Some?
    ensures forall i :: 1 <= i < stop && slots[i].Some? ==> slots[i].value in Selected(slots, stop)
  {
    var scanned := slots[1..stop];
    SomesMembers(scanned);
    forall i | 1 <= i < stop && slots[i].Some? ensures slots[i].value in Selected(slots, stop) {
      assert scanned[i - 1] == slots[i];
      assert slots[i].value in Somes(scanned);
    }
  }

  lemma ClearedSlots(slots: seq<Option<ChunkInfo>>, start: Time, stop: nat)
    requires 1 <= stop <= |slots|
    ensures var r := Cleared(slots, start, stop);
      r[0].None? && (stop < |slots| ==> r[stop] == slots[stop])
      && (forall i :: 1 <= i < |slots| ==>
            (r[i].None? <==> slots[i].None? || (i < stop && slots[i].value.startTime >= start)))
  {
  }

  /** The chunks of present slots are exactly the present values. */
  lemma {:induction false} SomesMembers(s: seq<Option<ChunkInfo>>)
    ensures forall x :: x in Somes(s) <==> Some(x) in s
  {
    if s != [] {
      SomesMembers(s[..|s| - 1]);
      assert s == s[..|s| - 1] + [s[|s| - 1]];
    }
  }

  // ----- what a batch loads -----

  /** `connectionIds` absent admits every connection. */
  predicate Allowed(connectionIds: Option<set<int>>, conn: int) {
    connectionIds.None? || conn in connectionIds.value
  }

  /** The heap items of one connection's entries: those after `start` and
      not after `stamp`. */
  function EntryItems(start: Time, stamp: Time, entries: seq<IndexEntry>, result: ChunkReadResult): seq<HeapItem> {
    if entries == [] then []
    else
      var e := entries[|entries| - 1];
      EntryItems(start, stamp, entries[..|entries| - 1], result)
        + (if start < e.time <= stamp then [HeapItem(e.time, e.offset, result)] else [])
  }

  /** The heap items of a chunk's connections that are allowed. */
  function DataItems(connectionIds: Option<set<int>>, start: Time, stamp: Time, datas: seq<IndexData>,
    result: ChunkReadResult): seq<HeapItem>
  {
    if datas == [] then []
    else
      var d := datas[|datas| - 1];
      DataItems(connectionIds, start, stamp, datas[..|datas| - 1], result)
        + (if Allowed(connectionIds, d.conn) then EntryItems(start, stamp, d.indices.GetOr([]), result) else [])
  }

  /** A chunk's read result: the cached one, or a fresh read. */
  function CachedOrRead(cache: map<int, ChunkReadResult>, read: ChunkInfo -> ChunkReadResult, info: ChunkInfo)
    : ChunkReadResult
  {
    if info.chunkPosition in cache then cache[info.chunkPosition] else read(info)
  }

  /** The heap items of every loaded chunk, chunk after chunk. */
  function ChunkItems(cache: map<int, ChunkReadResult>, read: ChunkInfo -> ChunkReadResult,
    connectionIds: Option<set<int>>, start: Time, stamp: Time, infos: seq<ChunkInfo>): seq<HeapItem>
  {
    if infos == [] then []
    else
      var result := CachedOrRead(cache, read, infos[|infos| - 1]);
      ChunkItems(cache, read, connectionIds, start, stamp, infos[..|infos| - 1])
        + DataItems(connectionIds, start, stamp, result.indices, result)
  }

  /** The new cache: the read results of the loaded chunks that contain `start`. */
  function NewCache(cache: map<int, ChunkReadResult>, read: ChunkInfo -> ChunkReadResult, start: Time,
    infos: seq<ChunkInfo>): map<int, ChunkReadResult>
  {
    if infos == [] then map[]
    else
      var info := infos[|infos| - 1];
      var m := NewCache(cache, read, start, infos[..|infos| - 1]);
      if info.startTime <= start && info.endTime >= start then m[info.chunkPosition := CachedOrRead(cache, read, info)]
      else m
  }

  /** An entry is pushed exactly when it lies after `start` and not after `stamp`. */
  lemma {:induction false} EntryItemsWindow(start: Time, stamp: Time, entries: seq<IndexEntry>, result: ChunkReadResult)
    ensures forall h :: h in EntryItems(start, stamp, entries, result) <==>
      exists e :: e in entries && start < e.time <= stamp && h == HeapItem(e.time, e.offset, result)
  {
    if entries != [] {
      var init := entries[..|entries| - 1];
      EntryItemsWindow(start, stamp, init, result);
      assert entries == init + [entries[|entries| - 1]];
    }
  }

  /** A connection's entries are pushed exactly when the connection is allowed. */
  lemma {:induction false} DataItemsAllowed(connectionIds: Option<set<int>>, start: Time, stamp: Time,
    datas: seq<IndexData>, result: ChunkReadResult)
    ensures forall h :: h in DataItems(connectionIds, start, stamp, datas, result) <==>
      exists d :: d in datas && Allowed(connectionIds, d.conn) && h in EntryItems(start, stamp, d.indices.GetOr([]), result)
  {
    if datas != [] {
      var init := datas[..|datas| - 1];
      DataItemsAllowed(connectionIds, start, stamp, init, result);
      assert datas == init + [datas[|datas| - 1]];
    }
  }

  /** `h` holds the read result of a loaded chunk with an allowed connection. */
  ghost predicate FromLoaded(cache: map<int, ChunkReadResult>, read: ChunkInfo -> ChunkReadResult,
    connectionIds: Option<set<int>>, infos: seq<ChunkInfo>, h: HeapItem)
  {
    exists c, d :: c in infos && d in CachedOrRead(cache, read, c).indices && Allowed(connectionIds, d.conn)
      && h.chunkReadResult == CachedOrRead(cache, read, c)
  }

  /** Every pushed item lies after `start` and not after `stamp`, and comes
      from an allowed connection of a loaded chunk's read result. */
  lemma {:induction false} ChunkItemsWindow(cache: map<int, ChunkReadResult>, read: ChunkInfo -> ChunkReadResult,
    connectionIds: Option<set<int>>, start: Time, stamp: Time, infos: seq<ChunkInfo>)
    ensures forall h :: h in ChunkItems(cache, read, connectionIds, start, stamp, infos) ==>
      start < h.time <= stamp && FromLoaded(cache, read, connectionIds, infos, h)
  {
    if infos != [] {
      var init := infos[..|infos| - 1];
      var c := infos[|infos| - 1];
      var result := CachedOrRead(cache, read, c);
      ChunkItemsWindow(cache, read, connectionIds, start, stamp, init);
      DataItemsAllowed(connectionIds, start, stamp, result.indices, result);
      forall h | h in DataItems(connectionIds, start, stamp, result.indices, result)
        ensures start < h.time <= stamp
        ensures FromLoaded(cache, read, connectionIds, infos, h)
      {
        var d :| d in result.indices && Allowed(connectionIds, d.conn)
          && h in EntryItems(start, stamp, d.indices.GetOr([]), result);
        EntryItemsWindow(start, stamp, d.indices.GetOr([]), result);
        assert c in infos;
      }
      forall h | h in ChunkItems(cache, read, connectionIds, start, stamp, init)
        ensures FromLoaded(cache, read, connectionIds, infos, h)
      {
        var c', d' :| c' in init && d' in CachedOrRead(cache, read, c').indices && Allowed(connectionIds, d'.conn)
          && h.chunkReadResult == CachedOrRead(cache, read, c');
        assert c' in infos;
      }
    }
  }

  /** A chunk position is kept in the cache exactly when a loaded chunk
      with that position contains `start`. */
  lemma {:induction false} NewCacheKeys(cache: map<int, ChunkReadResult>, read: ChunkInfo -> ChunkReadResult,
    start: Time, infos: seq<ChunkInfo>)
    ensures forall k :: k in NewCache(cache, read, start, infos) <==>
      exists c :: c in infos && c.chunkPosition == k && c.startTime <= start <= c.endTime
  {
    if infos != [] {
      var init := infos[..|infos| - 1];
      NewCacheKeys(cache, read, start, init);
      assert infos == init + [infos[|infos| - 1]];
    }
  }

  // ----- the iterator -----

  class ReverseIterator {
    var position: Time
    var chunkInfos: seq<ChunkInfo>
    var remainingChunkInfos: seq<Option<ChunkInfo>>
    var heap: seq<HeapItem>
    var cachedChunkReadResults: map<int, ChunkReadResult>
    const connectionIds: Option<set<int>>

    /** The iterator's state between calls: no gaps, largest end time
        first, and nothing starting after the position. */
    predicate Valid()
      reads this
    {
      NoGaps(remainingChunkInfos)
      && SortedByEnd(Somes(remainingChunkInfos))
      && forall c :: c in Somes(remainingChunkInfos) ==> c.startTime <= position
    }

    /** Keeps the chunks starting at or before `position`, and lists them
        for iteration in the order the heap pops them. */
    constructor(position: Time, chunkInfos: seq<ChunkInfo>, connectionIds: Option<set<int>>)
      ensures this.position == position && this.connectionIds == connectionIds
      ensures this.chunkInfos == StartedBy(chunkInfos, position)
      ensures remainingChunkInfos == Wrap(HeapOrder(this.chunkInfos))
      ensures heap == [] && cachedChunkReadResults == map[]
      ensures Valid()
    {
      var infos := StartedBy(chunkInfos, position);
      var chunkInfoHeap := BuildHeap(infos);
      var remaining := PopAll(chunkInfoHeap);
      this.position := position;
      this.connectionIds := connectionIds;
      this.chunkInfos := infos;
      this.remainingChunkInfos := remaining;
      this.heap := [];
      this.cachedChunkReadResults := map[];
      ConstructedValid(position, chunkInfos);
    }

    /** `loadNext`: false when no chunk remains; otherwise one batch is
        selected, scanned forward from the first chunk, the position moves
        to just before the first chunk's start, the entries in between are
        pushed and the cache keeps the loaded chunks containing the new
        position. */
    method LoadNext(read: ChunkInfo -> ChunkReadResult) returns (loaded: bool)
      modifies this`remainingChunkInfos, this`position, this`heap, this`cachedChunkReadResults
      ensures !loaded <==> old(remainingChunkInfos) == [] || old(remainingChunkInfos)[0].None?
      ensures !loaded ==>
        remainingChunkInfos == old(remainingChunkInfos) && position == old(position)
        && heap == old(heap) && cachedChunkReadResults == old(cachedChunkReadResults)
      ensures loaded ==>
        var slots := old(remainingChunkInfos);
        var start := slots[0].value.startTime;
        var stop := StopIndex(slots, start, 1);
        remainingChunkInfos == Wrap(Somes(Cleared(slots, start, stop)))
        && position == start - 1
        && heap == old(heap) + ChunkItems(old(cachedChunkReadResults), read, connectionIds, start - 1, old(position),
             Selected(slots, stop))
        && cachedChunkReadResults == NewCache(old(cachedChunkReadResults), read, start - 1, Selected(slots, stop))
      ensures old(Valid()) && (forall c: ChunkInfo :: c in Somes(old(remainingChunkInfos)) ==> c.startTime <= c.endTime) ==> Valid()
    {
      var stamp := position;
      if |remainingChunkInfos| == 0 || remainingChunkInfos[0].None? {
        return false;
      }
      var firstChunkInfo := remainingChunkInfos[0].value;
      ghost var slots := remainingChunkInfos;
      remainingChunkInfos := remainingChunkInfos[0 := None];
      var start := firstChunkInfo.startTime;
      var chunksToLoad := SelectChunks(slots, firstChunkInfo);
      SomesOfWrap(Somes(remainingChunkInfos));
      remainingChunkInfos := Wrap(Somes(remainingChunkInfos));
      position := start - 1;
      if old(Valid()) && forall c: ChunkInfo :: c in Somes(slots) ==> c.startTime <= c.endTime {
        LoadNextKeepsValid(slots, stamp);
      }
      start := start - 1;
      LoadChunks(read, chunksToLoad, start, stamp);
      return true;
    }

    /** The forward selection scan from the second slot. */
    method SelectChunks(ghost slots: seq<Option<ChunkInfo>>, firstChunkInfo: ChunkInfo) returns (chunksToLoad: seq<ChunkInfo>)
      requires |slots| > 0 && slots[0] == Some(firstChunkInfo)
      requires remainingChunkInfos == slots[0 := None]
      modifies this`remainingChunkInfos
      ensures var start := firstChunkInfo.startTime;
        remainingChunkInfos == Cleared(slots, start, StopIndex(slots, start, 1))
        && chunksToLoad == Selected(slots, StopIndex(slots, start, 1))
    {
      var start := firstChunkInfo.startTime;
      assert remainingChunkInfos == Cleared(slots, start, 1);
      chunksToLoad := [firstChunkInfo];
      var idx := 1;
      while idx < |remainingChunkInfos|
        invariant 1 <= idx <= |slots| == |remainingChunkInfos|
        invariant forall j :: 1 <= j < idx ==> !Stops(slots[j], start)
        invariant remainingChunkInfos == Cleared(slots, start, idx)
        invariant chunksToLoad == Selected(slots, idx)
        decreases |slots| - idx
      {
        var nextChunkInfo := remainingChunkInfos[idx];
        if nextChunkInfo.None? {
          SelectionStep(slots, start, idx);
          idx := idx + 1;
          continue;
        }
        if nextChunkInfo.value.endTime < start {
          break;
        }
        SelectionStep(slots, start, idx);
        chunksToLoad := chunksToLoad + [nextChunkInfo.value];
        if nextChunkInfo.value.startTime >= start {
          remainingChunkInfos := remainingChunkInfos[idx := None];
        }
        idx := idx + 1;
      }
      assert StopIndex(slots, start, 1) == idx;
    }

    /** Reading and filtering each selected chunk: read (or reuse) each chunk, keep the ones containing
        `start` in the new cache, push the entries between `start` and
        `stamp`. */
    method LoadChunks(read: ChunkInfo -> ChunkReadResult, chunksToLoad: seq<ChunkInfo>, start: Time, stamp: Time)
      modifies this`heap, this`cachedChunkReadResults
      ensures heap == old(heap) + ChunkItems(old(cachedChunkReadResults), read, connectionIds, start, stamp, chunksToLoad)
      ensures cachedChunkReadResults == NewCache(old(cachedChunkReadResults), read, start, chunksToLoad)
    {
      var newCache := map[];
      for i := 0 to |chunksToLoad|
        invariant cachedChunkReadResults == old(cachedChunkReadResults)
        invariant heap == old(heap) + ChunkItems(old(cachedChunkReadResults), read, connectionIds, start, stamp, chunksToLoad[..i])
        invariant newCache == NewCache(old(cachedChunkReadResults), read, start, chunksToLoad[..i])
      {
        var chunkInfo := chunksToLoad[i];
        assert chunksToLoad[..i + 1][..i] == chunksToLoad[..i];
        var result := if chunkInfo.chunkPosition in cachedChunkReadResults then cachedChunkReadResults[chunkInfo.chunkPosition]
          else read(chunkInfo);
        if chunkInfo.startTime <= start && chunkInfo.endTime >= start {
          newCache := newCache[chunkInfo.chunkPosition := result];
        }
        PushChunk(result, start, stamp);
      }
      assert chunksToLoad[..|chunksToLoad|] == chunksToLoad;
      cachedChunkReadResults := newCache;
    }

    /** Pushing the allowed entries of one read result. */
    method PushChunk(result: ChunkReadResult, start: Time, stamp: Time)
      modifies this`heap
      ensures heap == old(heap) + DataItems(connectionIds, start, stamp, result.indices, result)
    {
      for i := 0 to |result.indices|
        invariant heap == old(heap) + DataItems(connectionIds, start, stamp, result.indices[..i], result)
      {
        var indexData := result.indices[i];
        assert result.indices[..i + 1][..i] == result.indices[..i];
        if connectionIds.Some? && indexData.conn !in connectionIds.value {
          continue;
        }
        PushEntries(indexData.indices.GetOr([]), result, start, stamp);
      }
      assert result.indices[..|result.indices|] == result.indices;
    }

    /** Pushing one connection's entries that lie in the window. */
    method PushEntries(entries: seq<IndexEntry>, result: ChunkReadResult, start: Time, stamp: Time)
      modifies this`heap
      ensures heap == old(heap) + EntryItems(start, stamp, entries, result)
    {
      for i := 0 to |entries|
        invariant heap == old(heap) + EntryItems(start, stamp, entries[..i], result)
      {
        var indexEntry := entries[i];
        assert entries[..i + 1][..i] == entries[..i];
        if indexEntry.time <= start || indexEntry.time > stamp {
          continue;
        }
        heap := heap + [HeapItem(indexEntry.time, indexEntry.offset, result)];
      }
      assert entries[..|entries|] == entries;
    }
  }

  /** Every chunk inserted into the chunk-info heap. */
  method BuildHeap(infos: seq<ChunkInfo>) returns (chunkInfoHeap: seq<ChunkInfo>)
    ensures chunkInfoHeap == HeapOrder(infos)
  {
    chunkInfoHeap := [];
    for i := 0 to |infos|
      invariant chunkInfoHeap == HeapOrder(infos[..i])
    {
      assert infos[..i + 1][..i] == infos[..i];
      chunkInfoHeap := InsertByEnd(infos[i], chunkInfoHeap);
    }
    assert infos[..|infos|] == infos;
  }

  /** Popping the chunk-info heap until it is empty. */
  method PopAll(chunkInfoHeap: seq<ChunkInfo>) returns (remaining: seq<Option<ChunkInfo>>)
    ensures remaining == Wrap(chunkInfoHeap)
  {
    remaining := [];
    var rest := chunkInfoHeap;
    while |rest| > 0
      invariant remaining + Wrap(rest) == Wrap(chunkInfoHeap)
    {
      assert Wrap(rest) == [Some(rest[0])] + Wrap(rest[1..]);
      remaining := remaining + [Some(rest[0])];
      rest := rest[1..];
    }
  }

  /** One scan step past a chunk that does not stop the selection. */
  lemma SelectionStep(slots: seq<Option<ChunkInfo>>, start: Time, idx: nat)
    requires 1 <= idx < |slots| && slots[0].Some? && !Stops(slots[idx], start)
    ensures Selected(slots, idx + 1) == Selected(slots, idx) + (if slots[idx].Some? then [slots[idx].value] else [])
    ensures Cleared(slots, start, idx + 1) ==
      if Consumed(slots[idx], start) then Cleared(slots, start, idx)[idx := None] else Cleared(slots, start, idx)
  {
    assert slots[1..idx + 1][..idx - 1] == slots[1..idx];
  }

  /** A constructed iterator is in its between-calls state, and lists
      exactly the chunks starting at or before the position. */
  lemma ConstructedValid(position: Time, chunkInfos: seq<ChunkInfo>)
    ensures var r := HeapOrder(StartedBy(chunkInfos, position));
      NoGaps(Wrap(r)) && SortedByEnd(Somes(Wrap(r)))
      && (forall c :: c in Somes(Wrap(r)) <==> c in chunkInfos && c.startTime <= position)
      && multiset(r) == multiset(StartedBy(chunkInfos, position))
  {
    var r := HeapOrder(StartedBy(chunkInfos, position));
    SomesOfWrap(r);
    forall c ensures c in r <==> c in StartedBy(chunkInfos, position) {
      assert c in r <==> c in multiset(r);
    }
  }

  /** A batch keeps the iterator's state between calls, for chunks that
      start no later than they end: the survivors stay in order, none
      starts after the new position, and at least one chunk is gone. */
  lemma LoadNextKeepsValid(slots: seq<Option<ChunkInfo>>, position: Time)
    requires |slots| > 0 && NoGaps(slots) && SortedByEnd(Somes(slots))
    requires forall c :: c in Somes(slots) ==> c.startTime <= position && c.startTime <= c.endTime
    ensures var start := slots[0].value.startTime;
      var r := Somes(Cleared(slots, start, StopIndex(slots, start, 1)));
      IsSubsequence(r, Somes(slots)) && SortedByEnd(r) && |r| < |slots|
      && forall c :: c in r ==> c.startTime <= start - 1
  {
    var start := slots[0].value.startTime;
    var stop := StopIndex(slots, start, 1);
    var p := Cleared(slots, start, stop);
    var r := Somes(p);
    PrunedSurvivors(p, slots);
    SubsequenceSorted(r, Somes(slots));
    SomesAll(slots);
    assert slots[0].Some? && p[0].None?;
    SomesMembers(p);
    SomesMembers(slots);
    forall c | c in r ensures c.startTime <= start - 1 {
      var i :| 0 <= i < |p| && p[i] == Some(c);
      assert p[i] == slots[i] && i != 0;
      if i < stop {
        assert !Consumed(slots[i], start);
      } else {
        assert Stops(slots[stop], start);
        SortedSlots(slots, stop, i);
        assert c.startTime <= c.endTime;
      }
    }
  }

  /** All-present slots lose nothing to `Somes`. */
  lemma {:induction false} SomesAll<T>(s: seq<Option<T>>)
    requires NoGaps(s)
    ensures |Somes(s)| == |s| && forall i :: 0 <= i < |s| ==> Somes(s)[i] == s[i].value
  {
    if s != [] {
      SomesAll(s[..|s| - 1]);
    }
  }

  /** In sorted all-present slots a later chunk ends no later. */
  lemma SortedSlots(slots: seq<Option<ChunkInfo>>, i: nat, j: nat)
    requires NoGaps(slots) && SortedByEnd(Somes(slots)) && i <= j < |slots|
    ensures slots[j].value.endTime <= slots[i].value.endTime
  {
    SomesAll(slots);
    if i < j {
      assert Somes(slots)[i] == slots[i].value && Somes(slots)[j] == slots[j].value;
    }
  }
}
