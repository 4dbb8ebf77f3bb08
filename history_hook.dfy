/**
 * The useHistory hook of lib/db.ts: the in-memory list shown to the user,
 * its loading flag, and the calls that keep the browser's storage and the
 * localStorage mirror in step with it.
 *
 * React state updates are applied at once, in program order; the stale
 * closure over `history` that the source uses for the mirror is the same list
 * as the `prev` of its state updater in this sequential model.
 */
module HistoryHook {
  import opened Wrappers
  import opened Ordering
  import opened HistoryStore

  // ---------------------------------------------------------------------
  // The list computations
  // ---------------------------------------------------------------------

  /** `[entry, ...prev.slice(0, 9)]`: the in-memory list after a successful save. */
  function Prepended(entry: Entry, prev: seq<Entry>): (h: seq<Entry>)
    ensures |h| == Min(|prev| + 1, Capacity)
    ensures h[0] == entry && h[1..] == prev[..|h| - 1]
  {
    [entry] + prev[..Min(|prev|, Capacity - 1)]
  }

  /** `[entry, ...history].slice(0, 10)`: the list the mirror receives after a successful save. */
  function MirrorCopy(entry: Entry, prev: seq<Entry>): (h: seq<Entry>)
    ensures |h| <= Capacity
  {
    var all := [entry] + prev;
    all[..Min(|all|, Capacity)]
  }

  /** The two slices agree: after a save the mirror holds the list the user sees. */
  lemma MirrorCopyIsPrepended(entry: Entry, prev: seq<Entry>)
    ensures MirrorCopy(entry, prev) == Prepended(entry, prev)
  {
    var h := Prepended(entry, prev);
    var c := MirrorCopy(entry, prev);
    assert |c| == |h|;
    forall i | 0 <= i < |h| ensures c[i] == h[i] {
      if i > 0 {
        assert h[i] == h[1..][i - 1] == prev[i - 1];
      }
    }
  }

  /** The list after saving each of `es` in turn, first to last. */
  function PrependAll(prev: seq<Entry>, es: seq<Entry>): seq<Entry>
    decreases |es|
  {
    if es == [] then prev else PrependAll(Prepended(es[0], prev), es[1..])
  }

  function Reversed(es: seq<Entry>): (r: seq<Entry>)
    ensures |r| == |es|
  {
    if es == [] then [] else Reversed(es[1..]) + [es[0]]
  }

  /**
   * The in-memory list keeps the ten most recently prepended entries, newest
   * first, whatever their timestamps.
   */
  lemma {:induction false} PrependAllKeepsLatest(prev: seq<Entry>, es: seq<Entry>)
    requires es != []
    ensures var all := Reversed(es) + prev;
            PrependAll(prev, es) == all[..Min(|all|, Capacity)]
    decreases |es|
  {
    MirrorCopyIsPrepended(es[0], prev);
    if |es| == 1 {
      assert Reversed(es) == [es[0]];
    } else {
      var p := Prepended(es[0], prev);
      PrependAllKeepsLatest(p, es[1..]);
      var a := Reversed(es[1..]);
      var b := [es[0]] + prev;
      assert Reversed(es) + prev == a + b;
      var n := Min(|a + b|, Capacity);
      assert (a + p)[..Min(|a + p|, Capacity)] == (a + b)[..n] by {
        assert p == b[..Min(|b|, Capacity)];
        assert |a + p| >= Min(|a + b|, Capacity);
        forall i | 0 <= i < n ensures (a + p)[i] == (a + b)[i] {
          if i >= |a| {
            assert i - |a| < |p|;
          }
        }
      }
    }
  }

  /** `prev.filter(entry => entry.timestamp !== timestamp)`. */
  function WithoutTimestamp(h: seq<Entry>, timestamp: int): (r: seq<Entry>)
    ensures forall e :: e in r <==> e in h && e.timestamp != timestamp
    ensures |r| <= |h|
  {
    if h == [] then []
    else if h[0].timestamp == timestamp then WithoutTimestamp(h[1..], timestamp)
    else [h[0]] + WithoutTimestamp(h[1..], timestamp)
  }

  /** Filtering works piecewise, so the survivors keep their relative order. */
  lemma {:induction false} WithoutTimestampConcat(a: seq<Entry>, b: seq<Entry>, timestamp: int)
    ensures WithoutTimestamp(a + b, timestamp) == WithoutTimestamp(a, timestamp) + WithoutTimestamp(b, timestamp)
  {
    if a != [] {
      assert (a + b)[1..] == a[1..] + b;
      WithoutTimestampConcat(a[1..], b, timestamp);
    } else {
      assert a + b == b;
    }
  }

  /** Deleting a timestamp no entry carries changes nothing. */
  lemma {:induction false} WithoutAbsentTimestamp(h: seq<Entry>, timestamp: int)
    requires forall e :: e in h ==> e.timestamp != timestamp
    ensures WithoutTimestamp(h, timestamp) == h
  {
    if h != [] {
      assert h[0] in h;
      WithoutAbsentTimestamp(h[1..], timestamp);
      assert h == [h[0]] + h[1..];
    }
  }

  /** What loadHistoryData puts in the list: the loaded records, else a readable mirror, else the old list. */
  function LoadedHistory(current: seq<Entry>, loaded: Result<seq<Entry>>, mirror: Mirror): (h: seq<Entry>)
    ensures loaded.Ok? ==> h == loaded.value
    ensures loaded.Err? && mirror.Saved? ==> h == mirror.entries
    ensures loaded.Err? && !mirror.Saved? ==> h == current
  {
    match loaded
    case Ok(entries) => entries
    case Err(_) =>
      match mirror
      case Saved(entries) => entries
      case _ => current
  }

  // ---------------------------------------------------------------------
  // What the hook's calls do, as functions of the state they see
  // ---------------------------------------------------------------------

  /** The state the hook's calls change: the list on screen, the object store and the mirror. */
  datatype HistoryView = HistoryView(history: seq<Entry>, store: map<int, string>, mirror: Mirror)

  /**
   * addEntry: a save that went through prepends the entry to the list
   * (keeping ten), leaves the ten newest records in the store and, when the
   * browser accepts the write, puts the new list in the mirror. A failed save
   * changes nothing.
   */
  function AfterAdd(v: HistoryView, entry: Entry, host: Host, mirrorWritable: bool): (r: HistoryView)
    ensures AddOutcome(v.store, entry, host).Failed? ==> r == v
    ensures AddOutcome(v.store, entry, host).Done? ==>
      && |r.store| == Min(|v.store| + 1, Capacity)
      && r.store.Keys <= v.store.Keys + {entry.timestamp}
      && (forall k :: k in r.store && k != entry.timestamp ==> r.store[k] == v.store[k])
      && |r.history| == Min(|v.history| + 1, Capacity) && r.history[0] == entry
      && r.history[1..] == v.history[..|r.history| - 1]
      && r.mirror == (if mirrorWritable then Saved(r.history) else v.mirror)
  {
    if AddOutcome(v.store, entry, host).Failed? then v
    else
      var added := v.store[entry.timestamp := entry.text];
      RetainedSize(added, Capacity);
      var history := Prepended(entry, v.history);
      HistoryView(history, Retained(added, Capacity), if mirrorWritable then Saved(history) else v.mirror)
  }

  /**
   * deleteEntry: a delete that went through removes the record and every
   * entry of the list with that timestamp, and, when the browser accepts the
   * write, puts the filtered list in the mirror. A failed delete changes nothing.
   */
  function AfterDelete(v: HistoryView, timestamp: int, host: Host, mirrorWritable: bool): (r: HistoryView)
    ensures !host.Healthy? ==> r == v
    ensures host.Healthy? ==>
      && timestamp !in r.store
      && r.store.Keys == v.store.Keys - {timestamp}
      && (forall k :: k in r.store ==> r.store[k] == v.store[k])
      && (forall e :: e in r.history <==> e in v.history && e.timestamp != timestamp)
      && r.mirror == (if mirrorWritable then Saved(r.history) else v.mirror)
  {
    if !host.Healthy? then v
    else
      var history := WithoutTimestamp(v.history, timestamp);
      HistoryView(history, v.store - {timestamp}, if mirrorWritable then Saved(history) else v.mirror)
  }

  /** clearHistory: a clear that went through empties the store, the mirror and the list. */
  function AfterClear(v: HistoryView, host: Host): (r: HistoryView)
    ensures host.Healthy? ==> r.history == [] && r.store == map[] && r.mirror == Absent
    ensures !host.Healthy? ==> r == v
  {
    if host.Healthy? then HistoryView([], map[], Absent) else v
  }

  /** One call of the hook, with what the browser does when it runs. */
  datatype HistoryCall =
    | Add(entry: Entry, host: Host)
    | Delete(timestamp: int, host: Host)
    | Clear(host: Host)

  function Apply(v: HistoryView, call: HistoryCall, mirrorWritable: bool): HistoryView
  {
    match call
    case Add(entry, host) => AfterAdd(v, entry, host, mirrorWritable)
    case Delete(timestamp, host) => AfterDelete(v, timestamp, host, mirrorWritable)
    case Clear(host) => AfterClear(v, host)
  }

  /** The state after the calls, first to last. */
  function ApplyAll(v: HistoryView, calls: seq<HistoryCall>, mirrorWritable: bool): HistoryView
    decreases |calls|
  {
    if calls == [] then v else ApplyAll(Apply(v, calls[0], mirrorWritable), calls[1..], mirrorWritable)
  }

  /** Neither the list nor the store ever holds more than ten entries once it starts within the limit. */
  predicate WithinCapacity(v: HistoryView)
  {
    |v.history| <= Capacity && |v.store| <= Capacity
  }

  lemma {:induction false} CallsStayWithinCapacity(v: HistoryView, calls: seq<HistoryCall>, mirrorWritable: bool)
    requires WithinCapacity(v)
    ensures WithinCapacity(ApplyAll(v, calls, mirrorWritable))
    decreases |calls|
  {
    if calls != [] {
      var next := Apply(v, calls[0], mirrorWritable);
      assert WithinCapacity(next) by {
        match calls[0]
        case Add(entry, host) =>
        case Delete(timestamp, host) =>
          if host.Healthy? {
            assert next.store.Keys <= v.store.Keys;
            assert |next.store| <= |v.store| by { KeysCard(next.store, v.store); }
          }
        case Clear(host) =>
      }
      CallsStayWithinCapacity(next, calls[1..], mirrorWritable);
    }
  }

  /** A map with fewer keys has no more entries. */
  lemma KeysCard(a: map<int, string>, b: map<int, string>)
    requires a.Keys <= b.Keys
    ensures |a| <= |b|
  {
    assert |a.Keys| <= |b.Keys| by { SubsetCard(a.Keys, b.Keys); }
  }

  lemma {:induction false} SubsetCard(a: set<int>, b: set<int>)
    requires a <= b
    ensures |a| <= |b|
    decreases b
  {
    if a != {} {
      var x := PickOne(a);
      SubsetCard(a - {x}, b - {x});
    }
  }

  /**
   * The mirror is in step with the list when it holds the list, or is gone
   * while the list is empty (what a clear leaves).
   */
  predicate MirrorInStep(v: HistoryView)
  {
    v.mirror == Saved(v.history) || (v.mirror == Absent && v.history == [])
  }

  /** While the browser accepts every mirror write, the mirror stays in step with the list. */
  lemma {:induction false} MirrorStaysInStep(v: HistoryView, calls: seq<HistoryCall>)
    requires MirrorInStep(v)
    ensures MirrorInStep(ApplyAll(v, calls, true))
    decreases |calls|
  {
    if calls != [] {
      var next := Apply(v, calls[0], true);
      assert MirrorInStep(next);
      MirrorStaysInStep(next, calls[1..]);
    }
  }

  /** A refused mirror write leaves the mirror behind: after it, the mirror can hold a stale list. */
  lemma RefusedWriteLeavesStaleMirror(entry: Entry)
    ensures var v := HistoryView([], map[], Absent);
            var r := AfterAdd(v, entry, Healthy, false);
            r.history == [entry] && !MirrorInStep(r)
  {
  }

  // ---------------------------------------------------------------------
  // The hook's state
  // ---------------------------------------------------------------------

  class HistoryState {
    /** The list the history panel shows. */
    var history: seq<Entry>
    var isLoading: bool
    /** The browser storage the hook reads and writes. */
    const storage: BrowserStorage

    constructor (storage: BrowserStorage)
      ensures this.storage == storage
      ensures history == [] && isLoading
    {
      this.storage := storage;
      history := [];
      isLoading := true;
    }

    function View(): HistoryView
      reads this, storage
    {
      HistoryView(history, storage.store, storage.mirror)
    }

    /**
     * loadHistoryData: load the records from the object store; when that
     * fails, fall back to the mirror if it holds a readable list.
     */
    method LoadHistoryData(host: Host)
      modifies this`history, this`isLoading
      ensures !isLoading
      ensures host.Healthy? ==> history == NewestFirst(storage.store)
      ensures host.Healthy? ==> NewestFirstOrder(history) && SameRecords(history, storage.store)
      ensures !host.Healthy? && storage.mirror.Saved? ==> history == storage.mirror.entries
      ensures !host.Healthy? && !storage.mirror.Saved? ==> history == old(history)
    {
      isLoading := true;
      var loaded := storage.LoadHistory(host);
      history := LoadedHistory(history, loaded, storage.mirror);
      isLoading := false;
    }

    /** addEntry: save first; only a save that went through touches the list and the mirror. */
    method AddEntry(entry: Entry, host: Host, mirrorWritable: bool)
      modifies this`history, storage
      ensures View() == AfterAdd(old(View()), entry, host, mirrorWritable)
      ensures isLoading == old(isLoading)
    {
      var outcome := storage.SaveHistoryEntry(entry, host);
      if outcome.Failed? {
        return;
      }
      var prev := history;
      history := Prepended(entry, prev);
      MirrorCopyIsPrepended(entry, prev);
      var written := storage.WriteMirror(MirrorCopy(entry, prev), mirrorWritable);
    }

    /**
     * deleteEntry: delete first; only a delete that went through touches the
     * list and the mirror. The result is true only when the mirror write went
     * through as well.
     */
    method DeleteEntry(timestamp: int, host: Host, mirrorWritable: bool) returns (ok: bool)
      modifies this`history, storage
      ensures ok <==> host.Healthy? && mirrorWritable
      ensures View() == AfterDelete(old(View()), timestamp, host, mirrorWritable)
      ensures isLoading == old(isLoading)
    {
      var outcome := storage.DeleteHistoryEntry(timestamp, host);
      if outcome.Failed? {
        return false;
      }
      var prev := history;
      history := WithoutTimestamp(prev, timestamp);
      ok := storage.WriteMirror(WithoutTimestamp(prev, timestamp), mirrorWritable);
    }

    /** clearHistory: clear the store (which also removes the mirror), then empty the list. */
    method ClearHistory(host: Host) returns (ok: bool)
      modifies this`history, storage
      ensures ok <==> host.Healthy?
      ensures View() == AfterClear(old(View()), host)
      ensures isLoading == old(isLoading)
    {
      var outcome := storage.ClearAllHistory(host);
      if outcome.Failed? {
        return false;
      }
      history := [];
      ok := true;
    }
  }
}
