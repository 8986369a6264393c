/**
  The flush half of the repository. FlushLogs resolves the log table, then
  visits the keys of the live map: each record is inserted into the table
  and, once the insert returns, removed from the map. A storage error is
  caught only outside the loop, so the first one ends the whole pass.

  The table and the inserts are foreign calls; the model takes their
  outcomes as parameters: `table` says how resolving the table went, and
  `sink[i]` is what the table answers to the i-th insert of the pass.
  The key enumeration order of the concurrent dictionary is unspecified,
  so the visit order `order` is any duplicate-free listing of the keys.
 */
module LogFlush {
  import opened DiagnosticEvents

  /** What the table does with one insert. */
  datatype InsertOutcome = Inserted | StorageError

  /**
    How resolving the log table went: a usable table; no table at all
    (no usable connection string, so the table stays null); a storage
    error while getting or creating it; or some other exception while
    resolving it, such as the ArgumentNullException the name filter throws
    for a null app name, or a client-side rejection of the table name.
   */
  datatype LogTable = Available | Missing | CreationFailed | ResolutionThrew

  /**
    How the pass ended: ran to the end; a storage error was caught and
    logged; a NullReferenceException, which no handler catches, left it;
    or a non-storage exception from resolving the table left it.
   */
  datatype FlushStatus = Completed | StorageErrorLogged | NullReferenceThrown | ResolutionExceptionThrown

  /** The map after the pass, the records the table accepted in order, and how the pass ended. */
  datatype FlushResult = FlushResult(remaining: Events, inserted: seq<Event>, status: FlushStatus)

  predicate Distinct(order: seq<string>) {
    forall i, j :: 0 <= i < j < |order| ==> order[i] != order[j]
  }

  /** `order` lists every key of `events` exactly once. */
  predicate IsVisitOrder(order: seq<string>, events: Events) {
    && Distinct(order)
    && (forall i :: 0 <= i < |order| ==> order[i] in events)
    && (forall code :: code in events ==> code in order)
  }

  /**
    The insert-then-remove loop over the keys still to visit. An accepted
    insert removes the key and moves on; a storage error stops the loop
    and leaves the map as it is.
   */
  function FlushKeys(events: Events, order: seq<string>, sink: seq<InsertOutcome>): (r: FlushResult)
    requires Distinct(order) && forall i :: 0 <= i < |order| ==> order[i] in events
    requires |order| <= |sink|
    ensures IsSubMap(r.remaining, events)
    ensures forall code :: code in events && code !in order ==> code in r.remaining
    ensures |r.inserted| <= |order|
    ensures r.status == Completed || r.status == StorageErrorLogged
    decreases |order|
  {
    if |order| == 0 then FlushResult(events, [], Completed)
    else
      match sink[0]
      case StorageError => FlushResult(events, [], StorageErrorLogged)
      case Inserted =>
        var record := events[order[0]];
        var rest := FlushKeys(events - {order[0]}, order[1..], sink[1..]);
        FlushResult(rest.remaining, [record] + rest.inserted, rest.status)
  }

  /**
    FlushLogs: a table that cannot be created ends the pass in the storage
    handler before any key is visited; a non-storage exception while
    resolving the table escapes before any key is visited, whatever the map
    holds; a missing table lets the loop dereference null on the first key,
    so only an empty map gets through.
   */
  function FlushLogs(events: Events, table: LogTable, order: seq<string>, sink: seq<InsertOutcome>): (r: FlushResult)
    requires IsVisitOrder(order, events)
    requires |order| <= |sink|
    ensures IsSubMap(r.remaining, events)
    ensures table != Available ==> r.remaining == events && r.inserted == []
    ensures r.status == NullReferenceThrown <==> table == Missing && events != map[]
    ensures table == Missing && events == map[] ==> r.status == Completed
    ensures table == CreationFailed ==> r.status == StorageErrorLogged
    ensures r.status == ResolutionExceptionThrown <==> table == ResolutionThrew
    ensures WellKeyed(events) ==> WellKeyed(r.remaining)
  {
    match table
    case CreationFailed => FlushResult(events, [], StorageErrorLogged)
    case ResolutionThrew => FlushResult(events, [], ResolutionExceptionThrown)
    case Missing => FlushResult(events, [], if events == map[] then Completed else NullReferenceThrown)
    case Available => FlushKeys(events, order, sink)
  }

  /** The position of the first storage error among the first `n` inserts, or `n` if there is none. */
  function FirstStorageError(sink: seq<InsertOutcome>, n: nat): (k: nat)
    requires n <= |sink|
    ensures k <= n
    ensures forall i :: 0 <= i < k ==> sink[i] == Inserted
    ensures k < n ==> sink[k] == StorageError
    decreases n
  {
    if n == 0 then 0
    else
      match sink[0]
      case StorageError => 0
      case Inserted =>
        var k' := FirstStorageError(sink[1..], n - 1);
        assert forall i :: 1 <= i <= k' ==> sink[i] == sink[1..][i - 1];
        1 + k'
  }

  /** The keys among the first `k` visited. */
  function Visited(order: seq<string>, k: nat): set<string>
    requires k <= |order|
  {
    set i | 0 <= i < k :: order[i]
  }

  /** The records stored under `keys`, in that order. */
  function Records(events: Events, keys: seq<string>): seq<Event>
    requires forall i :: 0 <= i < |keys| ==> keys[i] in events
  {
    seq(|keys|, i requires 0 <= i < |keys| => events[keys[i]])
  }

  /**
    The pass described without a loop: with k the first storage error,
    the first k keys are inserted and removed, and the rest are untouched.
   */
  function FlushReference(events: Events, order: seq<string>, sink: seq<InsertOutcome>): FlushResult
    requires Distinct(order) && forall i :: 0 <= i < |order| ==> order[i] in events
    requires |order| <= |sink|
  {
    var k := FirstStorageError(sink, |order|);
    FlushResult(events - Visited(order, k), Records(events, order[..k]),
                if k < |order| then StorageErrorLogged else Completed)
  }

  /** The loop computes exactly the reference description. */
  lemma {:induction false} FlushKeysMatchesReference(events: Events, order: seq<string>, sink: seq<InsertOutcome>)
    requires Distinct(order) && forall i :: 0 <= i < |order| ==> order[i] in events
    requires |order| <= |sink|
    ensures FlushKeys(events, order, sink) == FlushReference(events, order, sink)
    decreases |order|
  {
    if |order| == 0 {
      assert Visited(order, 0) == {};
    } else if sink[0] == StorageError {
      assert Visited(order, 0) == {};
    } else {
      var rest := events - {order[0]};
      var tail := order[1..];
      TailIsVisitable(events, order);
      FlushKeysMatchesReference(rest, tail, sink[1..]);
      var k' := FirstStorageError(sink[1..], |tail|);
      assert FirstStorageError(sink, |order|) == k' + 1;
      VisitedStep(order, k');
      var r, ref := FlushKeys(events, order, sink), FlushReference(events, order, sink);
      assert r.remaining == ref.remaining by {
        assert rest - Visited(tail, k') == events - Visited(order, k' + 1);
      }
      assert r.inserted == ref.inserted by {
        assert |r.inserted| == |ref.inserted| == k' + 1;
      }
      assert r.status == ref.status;
    }
  }

  /** Dropping the first visited key keeps the rest of the order visitable. */
  lemma TailIsVisitable(events: Events, order: seq<string>)
    requires Distinct(order) && forall i :: 0 <= i < |order| ==> order[i] in events
    requires |order| > 0
    ensures Distinct(order[1..])
    ensures forall i :: 0 <= i < |order[1..]| ==> order[1..][i] in events - {order[0]}
  {
  }

  /** The first k + 1 keys visited are the first key and the first k of the rest. */
  lemma VisitedStep(order: seq<string>, k: nat)
    requires k < |order|
    ensures Visited(order, k + 1) == {order[0]} + Visited(order[1..], k)
  {
  }

  /**
    When the table accepts every insert, the pass hands every record to it
    exactly as stored, in visit order, and leaves the map empty.
   */
  lemma FlushAllInserted(events: Events, order: seq<string>, sink: seq<InsertOutcome>)
    requires IsVisitOrder(order, events)
    requires |order| <= |sink|
    requires forall i :: 0 <= i < |order| ==> sink[i] == Inserted
    ensures var r := FlushLogs(events, Available, order, sink);
            && r.remaining == map[]
            && r.status == Completed
            && |r.inserted| == |order|
            && (forall i :: 0 <= i < |order| ==> r.inserted[i] == events[order[i]])
            && (forall code :: code in events ==> events[code] in r.inserted)
  {
    FlushKeysMatchesReference(events, order, sink);
    var k := FirstStorageError(sink, |order|);
    assert k == |order|;
    var r := FlushLogs(events, Available, order, sink);
    forall code | code in events ensures code in Visited(order, k) && events[code] in r.inserted {
      var i :| 0 <= i < |order| && order[i] == code;
      assert r.inserted[i] == events[code];
    }
  }

  /**
    When the k-th insert is the first to fail: the keys visited before it
    are gone, the failing key and every later one keep their records, and
    the error is logged rather than raised.
   */
  lemma FlushStopsAtFirstStorageError(events: Events, order: seq<string>, sink: seq<InsertOutcome>, k: nat)
    requires IsVisitOrder(order, events)
    requires |order| <= |sink|
    requires k < |order| && sink[k] == StorageError
    requires forall i :: 0 <= i < k ==> sink[i] == Inserted
    ensures var r := FlushLogs(events, Available, order, sink);
            && (forall i :: 0 <= i < k ==> order[i] !in r.remaining)
            && (forall i :: k <= i < |order| ==> order[i] in r.remaining && r.remaining[order[i]] == events[order[i]])
            && r.status == StorageErrorLogged
            && r.inserted == Records(events, order[..k])
  {
    FlushKeysMatchesReference(events, order, sink);
    assert FirstStorageError(sink, |order|) == k;
    var r := FlushLogs(events, Available, order, sink);
    forall i | 0 <= i < k ensures order[i] in Visited(order, k) { }
    forall i | k <= i < |order| ensures order[i] !in Visited(order, k) { }
  }

  /**
    Once a pass has succeeded for every key, a second pass has nothing to
    insert; unless resolving the table throws, it also completes.
   */
  lemma FlushTwiceInsertsNothing(events: Events, order: seq<string>, sink: seq<InsertOutcome>,
                                 table2: LogTable, order2: seq<string>, sink2: seq<InsertOutcome>)
    requires IsVisitOrder(order, events)
    requires |order| <= |sink|
    requires forall i :: 0 <= i < |order| ==> sink[i] == Inserted
    requires IsVisitOrder(order2, FlushLogs(events, Available, order, sink).remaining)
    requires |order2| <= |sink2|
    ensures var second := FlushLogs(FlushLogs(events, Available, order, sink).remaining, table2, order2, sink2);
            && second.inserted == []
            && second.remaining == map[]
            && second.status != NullReferenceThrown
            && (table2 == Available || table2 == Missing ==> second.status == Completed)
  {
    FlushAllInserted(events, order, sink);
  }
}
