/**
 * The persistent side of the writing history: the IndexedDB object store
 * 'history' (records keyed by their timestamp) and the best-effort copy of
 * the list kept in localStorage under 'writing-history'.
 *
 * The object store is a map from timestamp to text. Whether the browser
 * manages to open the database and serve a request is not something the
 * program decides; it is a parameter (`Host`) of every operation.
 */
module HistoryStore {
  import opened Wrappers
  import opened Ordering

  /** One saved writing snapshot. */
  datatype Entry = Entry(text: string, timestamp: int)

  /** What reading the localStorage item 'writing-history' yields. */
  datatype Mirror =
    | Absent                      // no item stored
    | Unreadable                  // reading it or parsing its JSON throws
    | Saved(entries: seq<Entry>)  // a parsable list of entries

  /** How the browser's IndexedDB behaves during one operation. */
  datatype Host =
    | Healthy       // the database opens and the request is served
    | OpenFails     // indexedDB.open reports an error
    | RequestFails  // the database opens, but the request reports an error

  /** The number of records the eviction pass keeps. */
  const Capacity: nat := 10

  const OpenError := "Failed to open database"
  const SaveError := "Failed to save entry"
  const DeleteError := "Failed to delete entry"
  const ClearError := "Failed to clear history"
  const LoadError := "Failed to load history"

  /** The rejection a failing host produces, given the message of the failing request. */
  function HostError(host: Host, requestError: string): (msg: string)
    requires !host.Healthy?
    ensures host.OpenFails? ==> msg == OpenError
    ensures host.RequestFails? ==> msg == requestError
  {
    if host.OpenFails? then OpenError else requestError
  }

  // ---------------------------------------------------------------------
  // Retention: which records the descending cursor leaves in the store
  // ---------------------------------------------------------------------

  /** The keys the cursor visits before its counter passes `cap`: the `cap` largest keys. */
  function KeptKeys(m: map<int, string>, cap: nat): (d: seq<int>)
  {
    var all := DescKeys(m.Keys);
    all[..Min(|all|, cap)]
  }

  /** The store after the eviction pass with limit `cap`. */
  function Retained(m: map<int, string>, cap: nat): (r: map<int, string>)
    ensures forall k :: k in r ==> k in m && r[k] == m[k]
  {
    map k | k in m && k in KeptKeys(m, cap) :: m[k]
  }

  /** The eviction pass keeps exactly `min(cap, |m|)` records. */
  lemma RetainedSize(m: map<int, string>, cap: nat)
    ensures |Retained(m, cap)| == Min(|m|, cap)
  {
    var all := DescKeys(m.Keys);
    var kept := KeptKeys(m, cap);
    assert StrictlyDecreasing(kept);
    DistinctCard(kept);
    assert Retained(m, cap).Keys == set k | k in kept;
  }

  /** Every kept key is larger than every evicted key. */
  lemma RetainedAreNewest(m: map<int, string>, cap: nat, kept: int, evicted: int)
    requires kept in Retained(m, cap)
    requires evicted in m && evicted !in Retained(m, cap)
    ensures evicted < kept
  {
    var all := DescKeys(m.Keys);
    var n := Min(|all|, cap);
    var i :| 0 <= i < n && all[i] == kept;
    var j :| 0 <= j < |all| && all[j] == evicted;
    if j < n {
      assert false;
    }
  }

  /** A store within the limit loses nothing. */
  lemma RetainedWithinCapacity(m: map<int, string>, cap: nat)
    requires |m| <= cap
    ensures Retained(m, cap) == m
  {
    RetainedSize(m, cap);
    SubsetOfSameSize(Retained(m, cap).Keys, m.Keys);
  }

  /** A subset as large as its (finite) superset is the whole superset. */
  lemma SubsetOfSameSize(a: set<int>, b: set<int>)
    requires a <= b && |a| == |b|
    ensures a == b
  {
    assert a * b == a;
    assert |b - a| == 0;
    assert b == a + (b - a);
  }

  /** A subset missing an element of its superset is strictly smaller. */
  lemma ProperSubsetCard(a: set<int>, b: set<int>, x: int)
    requires a <= b && x in b && x !in a
    ensures |a| < |b|
  {
    var c := b - {x};
    assert a <= c;
    var d := c - a;
    assert c == a + d;
    assert a * d == {};
    assert |c| == |b| - 1;
  }

  /** A record with at least `cap` strictly newer records beside it is evicted. */
  lemma OlderThanCapacityEvicted(m: map<int, string>, cap: nat, t: int, newer: set<int>)
    requires t in m
    requires newer <= m.Keys && |newer| >= cap
    requires forall k :: k in newer ==> k > t
    ensures t !in Retained(m, cap)
  {
    var r := Retained(m, cap);
    if t in r {
      forall k | k in newer ensures k in r {
        if k !in r {
          RetainedAreNewest(m, cap, t, k);
        }
      }
      RetainedSize(m, cap);
      ProperSubsetCard(newer, r.Keys, t);
      assert false;
    }
  }

  /** One record over the limit: exactly the oldest record is evicted. */
  lemma EvictsOnlyOldest(m: map<int, string>, cap: nat, oldest: int)
    requires |m| == cap + 1
    requires oldest in m && forall k :: k in m ==> oldest <= k
    ensures Retained(m, cap).Keys == m.Keys - {oldest}
  {
    var r := Retained(m, cap);
    var newer := m.Keys - {oldest};
    assert |newer| == cap;
    OlderThanCapacityEvicted(m, cap, oldest, newer);
    RetainedSize(m, cap);
    SubsetOfSameSize(r.Keys, newer);
  }

  // ---------------------------------------------------------------------
  // Reading: every record, newest first
  // ---------------------------------------------------------------------

  /** Timestamps strictly decrease along the list. */
  predicate NewestFirstOrder(es: seq<Entry>)
  {
    forall i, j :: 0 <= i < j < |es| ==> es[i].timestamp > es[j].timestamp
  }

  /** The list holds exactly the records of the store, once each. */
  predicate SameRecords(es: seq<Entry>, m: map<int, string>)
  {
    && |es| == |m|
    && (forall e :: e in es ==> e.timestamp in m && m[e.timestamp] == e.text)
    && (forall k :: k in m ==> Entry(m[k], k) in es)
  }

  /** The records of the store sorted by descending timestamp. */
  function NewestFirst(m: map<int, string>): (es: seq<Entry>)
    ensures |es| == |m|
  {
    var d := DescKeys(m.Keys);
    seq(|d|, i requires 0 <= i < |d| => Entry(m[d[i]], d[i]))
  }

  /** NewestFirst lists every record of the store once, in strictly decreasing timestamp order. */
  lemma NewestFirstSorted(m: map<int, string>)
    ensures NewestFirstOrder(NewestFirst(m))
    ensures SameRecords(NewestFirst(m), m)
  {
    NewestFirstOrdered(m);
    NewestFirstRecords(m);
  }

  lemma NewestFirstOrdered(m: map<int, string>)
    ensures NewestFirstOrder(NewestFirst(m))
  {
    var d := DescKeys(m.Keys);
    var es := NewestFirst(m);
    forall i, j | 0 <= i < j < |es| ensures es[i].timestamp > es[j].timestamp {
      assert es[i].timestamp == d[i] && es[j].timestamp == d[j];
    }
  }

  lemma NewestFirstRecords(m: map<int, string>)
    ensures SameRecords(NewestFirst(m), m)
  {
    var d := DescKeys(m.Keys);
    var es := NewestFirst(m);
    forall e | e in es ensures e.timestamp in m && m[e.timestamp] == e.text {
      var i :| 0 <= i < |es| && es[i] == e;
      assert d[i] in m;
    }
    forall k | k in m ensures Entry(m[k], k) in es {
      var i :| 0 <= i < |d| && d[i] == k;
      assert es[i] == Entry(m[k], k);
    }
  }

  /** Sorting is determined: a newest-first list of the store's records is NewestFirst. */
  lemma {:induction false} NewestFirstUnique(es: seq<Entry>, m: map<int, string>)
    requires NewestFirstOrder(es) && SameRecords(es, m)
    ensures es == NewestFirst(m)
  {
    var fs := NewestFirst(m);
    NewestFirstSorted(m);
    forall i | 0 <= i < |es| ensures es[i] == fs[i] {
      RankAgrees(es, fs, m, i);
    }
  }

  /** In two newest-first lists of the same records, position i holds the same record. */
  lemma RankAgrees(es: seq<Entry>, fs: seq<Entry>, m: map<int, string>, i: int)
    requires NewestFirstOrder(es) && SameRecords(es, m)
    requires NewestFirstOrder(fs) && SameRecords(fs, m)
    requires 0 <= i < |es|
    ensures es[i] == fs[i]
  {
    var a, b := es[i].timestamp, fs[i].timestamp;
    CountAbove(es, m, i);
    CountAbove(fs, m, i);
    if a < b {
      ProperSubsetCard(Newer(m, b), Newer(m, a), b);
      assert false;
    } else if a > b {
      ProperSubsetCard(Newer(m, a), Newer(m, b), a);
      assert false;
    }
    assert es[i] == Entry(m[a], a);
  }

  /** The keys of the store newer than t. */
  function Newer(m: map<int, string>, t: int): (s: set<int>)
    ensures forall k :: k in s <==> k in m && k > t
  {
    set k | k in m && k > t
  }

  /** In a newest-first list of the store's records, exactly i keys of the store are newer than the i-th. */
  lemma CountAbove(es: seq<Entry>, m: map<int, string>, i: int)
    requires NewestFirstOrder(es) && SameRecords(es, m)
    requires 0 <= i < |es|
    ensures |Newer(m, es[i].timestamp)| == i
  {
    var t := es[i].timestamp;
    var ts := seq(i, j requires 0 <= j < i => es[j].timestamp);
    forall k | k in Newer(m, t) ensures k in ts {
      assert Entry(m[k], k) in es;
      var j :| 0 <= j < |es| && es[j] == Entry(m[k], k);
      assert j < i;
      assert ts[j] == k;
    }
    forall k | k in ts ensures k in Newer(m, t) {
      var j :| 0 <= j < i && ts[j] == k;
      assert es[j] in es;
    }
    assert StrictlyDecreasing(ts);
    DistinctCard(ts);
    assert Newer(m, t) == set k | k in ts;
  }

  /**
   * After the eviction pass has visited the first `visited` keys of `keys`
   * (all keys of `added`, largest first), the store holds the unvisited
   * records and the first `Capacity` visited ones, unchanged.
   */
  ghost predicate CursorState(store: map<int, string>, added: map<int, string>, keys: seq<int>, visited: nat)
  {
    && visited <= |keys|
    && (forall k :: k in store ==> k in added && store[k] == added[k])
    && (forall j :: 0 <= j < |keys| ==> (keys[j] in store <==> visited <= j || j < Capacity))
  }

  /** Visiting the next key: it stays while the count is within the capacity and is deleted after. */
  lemma CursorStep(store: map<int, string>, added: map<int, string>, keys: seq<int>, visited: nat)
    requires CursorState(store, added, keys, visited) && visited < |keys| && StrictlyDecreasing(keys)
    ensures CursorState(if visited + 1 > Capacity then store - {keys[visited]} else store, added, keys, visited + 1)
  {
    if visited + 1 > Capacity {
      var store' := store - {keys[visited]};
      forall j | 0 <= j < |keys| ensures keys[j] in store' <==> visited + 1 <= j || j < Capacity {
        if j != visited {
          assert keys[j] != keys[visited];
        }
      }
    }
  }

  /** When every key has been visited, the store is exactly the retained part of where it started. */
  lemma CursorDone(store: map<int, string>, added: map<int, string>, keys: seq<int>)
    requires keys == DescKeys(added.Keys)
    requires CursorState(store, added, keys, |keys|)
    ensures store == Retained(added, Capacity)
  {
    var r := Retained(added, Capacity);
    forall k | k in added ensures k in store <==> k in r {
      var j :| 0 <= j < |keys| && keys[j] == k;
      KeptByRank(added, Capacity, j);
    }
    SameKeysSameMap(store, r, added);
  }

  /** Two sub-maps of `m` with the same keys inside `m` are equal. */
  lemma SameKeysSameMap(a: map<int, string>, b: map<int, string>, m: map<int, string>)
    requires forall k :: k in a ==> k in m && a[k] == m[k]
    requires forall k :: k in b ==> k in m && b[k] == m[k]
    requires forall k :: k in m ==> (k in a <==> k in b)
    ensures a == b
  {
    forall k ensures k in a <==> k in b {
      if k in a || k in b {
        assert k in m;
      }
    }
    assert a.Keys == b.Keys;
    assert forall k :: k in a ==> a[k] == b[k];
  }

  /** The key at position j of the descending order is kept exactly when j is below the limit. */
  lemma KeptByRank(m: map<int, string>, cap: nat, j: int)
    requires 0 <= j < |m|
    ensures DescKeys(m.Keys)[j] in KeptKeys(m, cap) <==> j < cap
  {
    var keys := DescKeys(m.Keys);
    var kept := KeptKeys(m, cap);
    if j < cap {
      assert kept[j] == keys[j];
    } else {
      forall i | 0 <= i < |kept| ensures kept[i] != keys[j] {
        assert kept[i] == keys[i];
      }
    }
  }

  /** A record newer than every other record survives the eviction pass. */
  lemma FreshestSurvives(m: map<int, string>, cap: nat, t: int)
    requires cap >= 1 && t in m
    requires forall k :: k in m ==> k <= t
    ensures t in Retained(m, cap)
  {
    assert DescKeys(m.Keys)[0] == t;
    KeptByRank(m, cap, 0);
  }

  // ---------------------------------------------------------------------
  // The browser's storage and the operations of lib/db.ts on it
  // ---------------------------------------------------------------------

  /** How `store.add` followed by the eviction pass ends: the add request fails on an existing key. */
  function AddOutcome(m: map<int, string>, entry: Entry, host: Host): (outcome: Outcome)
    ensures outcome.Done? <==> host.Healthy? && entry.timestamp !in m
    ensures host.OpenFails? ==> outcome == Failed(OpenError)
    ensures !host.OpenFails? && outcome.Failed? ==> outcome == Failed(SaveError)
  {
    if host.OpenFails? then Failed(OpenError)
    else if host.RequestFails? || entry.timestamp in m then Failed(SaveError)
    else Done
  }

  /** The IndexedDB object store and the localStorage mirror, as one browser profile holds them. */
  class BrowserStorage {
    /** Object store 'history': the text of each record, by its timestamp key. */
    var store: map<int, string>
    /** The localStorage item 'writing-history'. */
    var mirror: Mirror

    constructor (initialStore: map<int, string>, initialMirror: Mirror)
      ensures store == initialStore && mirror == initialMirror
    {
      store := initialStore;
      mirror := initialMirror;
    }

    /**
     * saveHistoryEntry: `store.add(entry)`, then a cursor over the timestamp
     * index in descending order counts the records and deletes every record
     * after the tenth.
     */
    method SaveHistoryEntry(entry: Entry, host: Host) returns (outcome: Outcome)
      modifies this`store
      ensures outcome == AddOutcome(old(store), entry, host)
      ensures store == if outcome.Done? then Retained(old(store)[entry.timestamp := entry.text], Capacity)
                       else old(store)
      ensures outcome.Done? ==> |store| <= Capacity && (entry.timestamp in store ==> store[entry.timestamp] == entry.text)
    {
      if !host.Healthy? || entry.timestamp in store {
        return AddOutcome(store, entry, host);
      }
      store := store[entry.timestamp := entry.text];
      EvictBeyondCapacity();
      RetainedSize(old(store)[entry.timestamp := entry.text], Capacity);
      outcome := Done;
    }

    /**
     * The add request's success handler: walk the timestamp index with a
     * 'prev' cursor, counting records, and delete each record once the count
     * exceeds the capacity.
     */
    method EvictBeyondCapacity()
      modifies this`store
      ensures store == Retained(old(store), Capacity)
    {
      ghost var added := store;
      var keys := DescKeys(store.Keys);  // the order in which the cursor visits the records
      var count := 0;
      var i := 0;
      while i < |keys|
        invariant count == i
        invariant CursorState(store, added, keys, i)
      {
        CursorStep(store, added, keys, i);
        count := count + 1;
        if count > Capacity {
          store := store - {keys[i]};
        }
        i := i + 1;
      }
      CursorDone(store, added, keys);
    }

    /** deleteHistoryEntry: `store.delete(timestamp)`; an absent key is deleted without complaint. */
    method DeleteHistoryEntry(timestamp: int, host: Host) returns (outcome: Outcome)
      modifies this`store
      ensures outcome.Done? <==> host.Healthy?
      ensures outcome.Failed? ==> outcome.message == HostError(host, DeleteError)
      ensures store == if outcome.Done? then old(store) - {timestamp} else old(store)
    {
      if !host.Healthy? {
        return Failed(HostError(host, DeleteError));
      }
      store := store - {timestamp};
      outcome := Done;
    }

    /** clearAllHistory: `store.clear()`, then, once the transaction completes, the mirror is removed. */
    method ClearAllHistory(host: Host) returns (outcome: Outcome)
      modifies this`store, this`mirror
      ensures outcome.Done? <==> host.Healthy?
      ensures outcome.Failed? ==> outcome.message == HostError(host, ClearError)
      ensures outcome.Done? ==> store == map[] && mirror == Absent
      ensures outcome.Failed? ==> store == old(store) && mirror == old(mirror)
    {
      if !host.Healthy? {
        return Failed(HostError(host, ClearError));
      }
      store := map[];
      mirror := Absent;
      outcome := Done;
    }

    /** loadHistory: every record of the store, sorted by descending timestamp. */
    method LoadHistory(host: Host) returns (r: Result<seq<Entry>>)
      ensures r.Ok? <==> host.Healthy?
      ensures r.Ok? ==> r.value == NewestFirst(store)
      ensures r.Ok? ==> NewestFirstOrder(r.value) && SameRecords(r.value, store)
      ensures r.Err? ==> r.message == HostError(host, LoadError)
    {
      if !host.Healthy? {
        return Err(HostError(host, LoadError));
      }
      var entries := NewestFirst(store);
      NewestFirstSorted(store);
      r := Ok(entries);
    }

    /** localStorage.setItem('writing-history', ...): `writable` is false when the browser refuses the write. */
    method WriteMirror(entries: seq<Entry>, writable: bool) returns (ok: bool)
      modifies this`mirror
      ensures ok == writable
      ensures mirror == if writable then Saved(entries) else old(mirror)
    {
      if writable {
        mirror := Saved(entries);
      }
      ok := writable;
    }
  }
}
