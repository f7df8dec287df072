/**
 * DatabaseServerMessenger: each node appends cache instructions to the shared
 * umbracoCacheInstruction table and, on its own schedule, replays the rows
 * it has not yet seen against its local cache refreshers, advances its
 * last-synced offset and prunes rows past the retention window.
 *
 * Times are DateTime ticks (100 ns); "now" is always a parameter.
 */
module Messenger {
  import opened Common
  import opened Instructions

  const TicksPerDay := 86_400 * TicksPerSecond

  /** DatabaseServerMessengerOptions defaults. */
  const ThrottleSeconds := 5
  const DaysToRetainInstructionRecords := 100

  /** One row of umbracoCacheInstruction. */
  datatype Record = Record(id: int, utcStamp: int, payload: Payload)

  /** An identifier for a rebuild callback of the messenger's options. */
  type Callback = nat

  predicate Ascending(rows: seq<Record>) {
    forall i, j :: 0 <= i < j < |rows| ==> rows[i].id < rows[j].id
  }

  /** The rows a sync fetches: `WHERE id > lastId ORDER BY id`. */
  function Fetch(rows: seq<Record>, lastId: int): seq<Record> {
    Filter(rows, (r: Record) => r.id > lastId)
  }

  /** The prune date: now minus the retention window. */
  function PruneCutoff(now: int): int {
    now - DaysToRetainInstructionRecords * TicksPerDay
  }

  /** The rows left by `DELETE ... WHERE utcStamp < @pruneDate`. */
  function Prune(rows: seq<Record>, now: int): seq<Record> {
    Filter(rows, (r: Record) => r.utcStamp >= PruneCutoff(now))
  }

  /** `list.Max(x => x.Id)`. */
  function MaxId(batch: seq<Record>): (m: int)
    requires batch != []
    ensures exists i :: 0 <= i < |batch| && batch[i].id == m
    ensures forall i :: 0 <= i < |batch| ==> batch[i].id <= m
  {
    if |batch| == 1 then batch[0].id
    else
      var rest := MaxId(batch[1..]);
      if batch[0].id >= rest then batch[0].id else rest
  }

  /** The sync throttle: skip unless more than ThrottleSeconds have passed since `lastTicks`. */
  predicate WithinThrottle(now: int, lastTicks: int) {
    now - lastTicks <= ThrottleSeconds * TicksPerSecond
  }

  /** The `catch (JsonException)` around one record: such an exception ends that record only. */
  function Catch(r: Run): Run {
    if r.fault.Some? && IsJsonException(r.fault.value) then Run(r.calls, None) else r
  }

  /** What the sync loop does with one fetched row. */
  function ReplayRecord(registry: Registry, rec: Record): Run {
    match rec.payload
    case Malformed => Done
    case NullDocument => Run([], Some(NullArray))
    case Parsed(nodes) => Catch(Replay(registry, nodes))
  }

  /** What the sync loop does with a fetched batch: rows in order, stopping at an escaping exception. */
  function ReplayBatch(registry: Registry, batch: seq<Record>): Run {
    RunAll(batch, (rec: Record) => ReplayRecord(registry, rec))
  }

  /** The array the writer stores for a list of instructions. */
  function Serialize(instructions: seq<RefreshInstruction>): (r: seq<Node>)
    ensures |r| == |instructions|
  {
    seq(|instructions|, i requires 0 <= i < |instructions| => Obj(instructions[i]))
  }

  /** The umbracoCacheInstruction table: an identity column starting at 1, rows in id order. */
  class InstructionLog {
    var rows: seq<Record>
    var nextId: int

    ghost predicate Valid()
      reads this
    {
      1 <= nextId && Ascending(rows) &&
      forall i :: 0 <= i < |rows| ==> 1 <= rows[i].id < nextId
    }

    constructor ()
      ensures Valid() && rows == [] && nextId == 1
    {
      rows := [];
      nextId := 1;
    }

    /** `Database.Insert`: the identity column assigns the next id. */
    method Insert(utcStamp: int, payload: Payload) returns (id: int)
      requires Valid()
      modifies this
      ensures Valid()
      ensures id == old(nextId) && nextId == id + 1
      ensures rows == old(rows) + [Record(id, utcStamp, payload)]
    {
      id := nextId;
      rows := rows + [Record(id, utcStamp, payload)];
      nextId := nextId + 1;
    }

    /** `Fetch<CacheInstructionDto>` with `WHERE id > @lastId ORDER BY id`. */
    method FetchAfter(lastId: int) returns (list: seq<Record>)
      requires Valid()
      ensures list == Fetch(rows, lastId)
      ensures Ascending(list)
      ensures forall i :: 0 <= i < |list| ==> list[i].id > lastId
    {
      list := Fetch(rows, lastId);
      FetchIsOrderedSuffix(rows, lastId);
    }

    /** `Delete<CacheInstructionDto>("WHERE utcStamp < @pruneDate")`. */
    method DeleteOlderThan(now: int)
      requires Valid()
      modifies this`rows
      ensures Valid()
      ensures rows == Prune(old(rows), now)
    {
      rows := Prune(rows, now);
      FilterKeepsAscending(old(rows), (r: Record) => r.utcStamp >= PruneCutoff(now));
      FilterMembers(old(rows), (r: Record) => r.utcStamp >= PruneCutoff(now));
    }

    /** `SELECT MAX(id)`, an empty table reading as 0. */
    function MaxIdScalar(): (m: int)
      reads this
      requires Valid()
      ensures rows == [] ==> m == 0
      ensures rows != [] ==> m == rows[|rows| - 1].id && m > 0
    {
      if rows == [] then 0 else MaxId(rows)
    }
  }

  /** How one call of Sync ended. */
  datatype SyncResult =
    | SkippedByThrottle
    | SkippedWhileSyncing
    | Completed(fetched: nat)
    | Escaped(fault: Fault)

  class DatabaseServerMessenger {
    const store: InstructionLog
    const useDistributedCalls: bool
    const rebuildingCallbacks: seq<Callback>
    var lastId: int
    var syncing: bool
    var lastTicks: int
    var initialized: bool
    /** The calls this node has made on its cache refreshers, in order. */
    var applied: seq<Call>
    /** The rebuild callbacks this node has run, in order. */
    var rebuilt: seq<Callback>

    constructor (store: InstructionLog, enableDistCalls: bool, rebuildingCallbacks: seq<Callback>, now: int)
      ensures this.store == store && useDistributedCalls == enableDistCalls
      ensures this.rebuildingCallbacks == rebuildingCallbacks
      ensures lastId == -1 && !syncing && lastTicks == now && !initialized
      ensures applied == [] && rebuilt == []
    {
      this.store := store;
      useDistributedCalls := enableDistCalls;
      this.rebuildingCallbacks := rebuildingCallbacks;
      lastId := -1;
      syncing := false;
      lastTicks := now;
      initialized := false;
      applied := [];
      rebuilt := [];
    }

    /** False until start-up has found the database; then whether distributed calls are enabled. */
    method ShouldMakeDistributedCall() returns (r: bool)
      ensures r <==> initialized && useDistributedCalls
    {
      if !initialized {
        return false;
      }
      r := useDistributedCalls;
    }

    /** Appends one row holding the serialized instructions, stamped now. Nothing is applied locally. */
    method PerformDistributedCall(instructions: seq<RefreshInstruction>, now: int) returns (id: int)
      requires store.Valid()
      modifies store
      ensures store.Valid()
      ensures store.rows == old(store.rows) + [Record(id, now, Parsed(Serialize(instructions)))]
      ensures id == old(store.nextId) && id > 0
    {
      id := store.Insert(now, Parsed(Serialize(instructions)));
    }

    /**
     * Runs the rebuild callbacks in order, then takes MAX(id) of the table as
     * the offset when it is positive.
     */
    method FirstSync()
      requires store.Valid()
      modifies this`rebuilt, this`lastId
      ensures rebuilt == old(rebuilt) + rebuildingCallbacks
      ensures lastId == if store.MaxIdScalar() > 0 then store.MaxIdScalar() else old(lastId)
    {
      var i := 0;
      while i < |rebuildingCallbacks|
        invariant 0 <= i <= |rebuildingCallbacks|
        invariant rebuilt == old(rebuilt) + rebuildingCallbacks[..i]
        invariant lastId == old(lastId)
      {
        rebuilt := rebuilt + [rebuildingCallbacks[i]];
        i := i + 1;
      }
      var maxId := store.MaxIdScalar();
      if maxId > 0 {
        lastId := maxId;
      }
    }

    /**
     * The ApplicationStarted handler: with a configured, reachable database it
     * reads the persisted offset (None when the file is missing or does not
     * parse), catches up when there is none, and marks the messenger initialized.
     */
    method OnApplicationStarted(isConfigured: bool, isDatabaseConfigured: bool, canConnect: bool,
                                persisted: Option<int>)
      requires store.Valid()
      modifies this`rebuilt, this`lastId, this`initialized
      ensures !(isConfigured && isDatabaseConfigured && canConnect) ==>
        initialized == old(initialized) && lastId == old(lastId) && rebuilt == old(rebuilt)
      ensures isConfigured && isDatabaseConfigured && canConnect ==>
        var read := if persisted.Some? then persisted.value else old(lastId);
        initialized &&
        (read != -1 ==> lastId == read && rebuilt == old(rebuilt)) &&
        (read == -1 ==> rebuilt == old(rebuilt) + rebuildingCallbacks &&
                        lastId == if store.MaxIdScalar() > 0 then store.MaxIdScalar() else -1)
    {
      if isConfigured && isDatabaseConfigured && canConnect {
        if persisted.Some? {
          lastId := persisted.value;
        }
        if lastId == -1 {
          FirstSync();
        }
        initialized := true;
      }
    }

    /**
     * Polls the table: throttled, single-flight, replays the new rows in id
     * order, advances the offset to the largest fetched id and prunes old
     * rows. An exception other than a JsonException escapes and leaves the
     * flag set, the offset where it was and the table unpruned.
     */
    method Sync(registry: Registry, now: int) returns (result: SyncResult)
      requires store.Valid()
      modifies this, store
      ensures store.Valid()
      ensures WithinThrottle(now, old(lastTicks)) ==>
        result == SkippedByThrottle && unchanged(this) && unchanged(store)
      ensures !WithinThrottle(now, old(lastTicks)) && old(syncing) ==>
        result == SkippedWhileSyncing && unchanged(this) && unchanged(store)
      ensures !WithinThrottle(now, old(lastTicks)) && !old(syncing) ==>
        var batch := Fetch(old(store.rows), old(lastId));
        var run := ReplayBatch(registry, batch);
        lastTicks == now && applied == old(applied) + run.calls &&
        initialized == old(initialized) && rebuilt == old(rebuilt) &&
        store.nextId == old(store.nextId) &&
        (run.fault.None? ==>
          result == Completed(|batch|) && !syncing &&
          lastId == (if batch == [] then old(lastId) else MaxId(batch)) &&
          store.rows == Prune(old(store.rows), now)) &&
        (run.fault.Some? ==>
          result == Escaped(run.fault.value) && syncing &&
          lastId == old(lastId) && store.rows == old(store.rows))
    {
      if WithinThrottle(now, lastTicks) {
        return SkippedByThrottle;
      }
      if syncing {
        return SkippedWhileSyncing;
      }
      syncing := true;
      lastTicks := now;
      result := ReplayNewRows(registry, now);
    }

    /** The body of the sync once the flag is set: fetch, replay, advance the offset, prune, clear the flag. */
    method ReplayNewRows(registry: Registry, now: int) returns (result: SyncResult)
      requires store.Valid() && syncing
      modifies this`applied, this`lastId, this`syncing, store
      ensures store.Valid() && store.nextId == old(store.nextId)
      ensures var batch := Fetch(old(store.rows), old(lastId));
        var run := ReplayBatch(registry, batch);
        applied == old(applied) + run.calls &&
        (run.fault.None? ==>
          result == Completed(|batch|) && !syncing &&
          lastId == (if batch == [] then old(lastId) else MaxId(batch)) &&
          store.rows == Prune(old(store.rows), now)) &&
        (run.fault.Some? ==>
          result == Escaped(run.fault.value) && syncing &&
          lastId == old(lastId) && store.rows == old(store.rows))
    {
      var list := store.FetchAfter(lastId);
      if |list| > 0 {
        var fault := ReplayRows(registry, list);
        if fault.Some? {
          return Escaped(fault.value);
        }
        lastId := MaxId(list);
      } else {
        assert ReplayBatch(registry, list) == Done;
      }
      store.DeleteOlderThan(now);
      syncing := false;
      result := Completed(|list|);
    }

    /**
     * The loop over fetched rows: a row that does not parse is skipped, a
     * JsonException ends its own row, any other exception ends the loop.
     */
    method ReplayRows(registry: Registry, list: seq<Record>) returns (fault: Option<Fault>)
      modifies this`applied
      ensures applied == old(applied) + ReplayBatch(registry, list).calls
      ensures fault == ReplayBatch(registry, list).fault
    {
      var i := 0;
      while i < |list|
        invariant 0 <= i <= |list|
        invariant ReplayBatch(registry, list[..i]).fault.None?
        invariant applied == old(applied) + ReplayBatch(registry, list[..i]).calls
      {
        var f := ReplayRow(registry, list[i]);
        assert ReplayBatch(registry, list[..i + 1]) ==
          Run(ReplayBatch(registry, list[..i]).calls + ReplayRecord(registry, list[i]).calls, f) by {
          ReplayBatchExtend(registry, list, i);
        }
        if f.Some? {
          assert ReplayBatch(registry, list) == ReplayBatch(registry, list[..i + 1]) by {
            ReplayBatchPrefixFault(registry, list, i + 1);
          }
          return f;
        }
        i := i + 1;
      }
      assert list[..i] == list;
      fault := None;
    }

    /** The try block around one row; a JsonException is caught and logged here, anything else is returned. */
    method ReplayRow(registry: Registry, rec: Record) returns (fault: Option<Fault>)
      modifies this`applied
      ensures applied == old(applied) + ReplayRecord(registry, rec).calls
      ensures fault == ReplayRecord(registry, rec).fault
    {
      match rec.payload {
        case Malformed =>
          fault := None;
        case NullDocument =>
          fault := Some(NullArray);
        case Parsed(nodes) =>
          fault := UpdateRefreshers(registry, nodes);
          if fault.Some? && IsJsonException(fault.value) {
            fault := None;
          }
      }
    }

    /** Dispatches every object of the array in document order, recursing into nested arrays. */
    method UpdateRefreshers(registry: Registry, nodes: seq<Node>) returns (fault: Option<Fault>)
      modifies this`applied
      decreases nodes
      ensures applied == old(applied) + Replay(registry, nodes).calls
      ensures fault == Replay(registry, nodes).fault
    {
      var i := 0;
      while i < |nodes|
        invariant 0 <= i <= |nodes|
        invariant Replay(registry, nodes[..i]).fault.None?
        invariant applied == old(applied) + Replay(registry, nodes[..i]).calls
      {
        fault := UpdateRefresher(registry, nodes[i]);
        assert Replay(registry, nodes[..i + 1]) ==
          Run(Replay(registry, nodes[..i]).calls + ReplayNode(registry, nodes[i]).calls, fault) by {
          ReplayExtend(registry, nodes, i);
        }
        if fault.Some? {
          assert Replay(registry, nodes) == Replay(registry, nodes[..i + 1]) by {
            ReplayPrefixFault(registry, nodes, i + 1);
          }
          return;
        }
        i := i + 1;
      }
      assert nodes[..i] == nodes;
      fault := None;
    }

    /** One element of the array: an object is converted and dispatched, a nested array is iterated. */
    method UpdateRefresher(registry: Registry, n: Node) returns (fault: Option<Fault>)
      modifies this`applied
      decreases n
      ensures applied == old(applied) + ReplayNode(registry, n).calls
      ensures fault == ReplayNode(registry, n).fault
    {
      match n {
        case Obj(ins) =>
          fault := Dispatch(registry, ins);
        case Unconvertible =>
          fault := Some(ConversionFailed);
        case Arr(children) =>
          fault := UpdateRefreshers(registry, children);
        case Prim =>
          fault := Some(InvalidCast);
      }
    }

    /** The switch over RefreshType for one instruction. */
    method Dispatch(registry: Registry, ins: RefreshInstruction) returns (fault: Option<Fault>)
      modifies this`applied
      ensures applied == old(applied) + Instructions.Dispatch(registry, ins).calls
      ensures fault == Instructions.Dispatch(registry, ins).fault
    {
      var id := ins.refresherId;
      match ins.refreshType {
        case RefreshAll =>
          fault := RefreshAll(registry, id);
        case RefreshByGuid =>
          fault := RefreshByGuid(registry, id, ins.guidId);
        case RefreshById =>
          fault := RefreshById(registry, id, ins.intId);
        case RefreshByIds =>
          fault := RefreshByIds(registry, id, ins.jsonIds);
        case RefreshByJson =>
          fault := RefreshByJson(registry, id, ins.jsonPayload);
        case RemoveById =>
          fault := RemoveById(registry, id, ins.intId);
        case Undefined(_) =>
          fault := None;
      }
    }

    method RefreshAll(registry: Registry, refresher: Guid) returns (fault: Option<Fault>)
      modifies this`applied
      ensures refresher in registry ==> fault == None && applied == old(applied) + [RefreshedAll(refresher)]
      ensures refresher !in registry ==> fault == Some(UnknownRefresher(refresher)) && applied == old(applied)
    {
      if refresher !in registry {
        return Some(UnknownRefresher(refresher));
      }
      applied := applied + [RefreshedAll(refresher)];
      fault := None;
    }

    method RefreshByGuid(registry: Registry, refresher: Guid, guid: Guid) returns (fault: Option<Fault>)
      modifies this`applied
      ensures refresher in registry ==> fault == None && applied == old(applied) + [RefreshedGuid(refresher, guid)]
      ensures refresher !in registry ==> fault == Some(UnknownRefresher(refresher)) && applied == old(applied)
    {
      if refresher !in registry {
        return Some(UnknownRefresher(refresher));
      }
      applied := applied + [RefreshedGuid(refresher, guid)];
      fault := None;
    }

    method RefreshById(registry: Registry, refresher: Guid, id: int) returns (fault: Option<Fault>)
      modifies this`applied
      ensures refresher in registry ==> fault == None && applied == old(applied) + [RefreshedInt(refresher, id)]
      ensures refresher !in registry ==> fault == Some(UnknownRefresher(refresher)) && applied == old(applied)
    {
      if refresher !in registry {
        return Some(UnknownRefresher(refresher));
      }
      applied := applied + [RefreshedInt(refresher, id)];
      fault := None;
    }

    /** Reads the id list first, then calls Refresh once per id, in listed order. */
    method RefreshByIds(registry: Registry, refresher: Guid, jsonIds: IdList) returns (fault: Option<Fault>)
      modifies this`applied
      ensures jsonIds.UnreadableIds? ==> fault == Some(UnreadableIdList) && applied == old(applied)
      ensures jsonIds.Ids? && refresher !in registry ==>
        fault == Some(UnknownRefresher(refresher)) && applied == old(applied)
      ensures jsonIds.Ids? && refresher in registry ==>
        fault == None && applied == old(applied) + RefreshEach(refresher, jsonIds.ids)
    {
      if jsonIds.UnreadableIds? {
        return Some(UnreadableIdList);
      }
      if refresher !in registry {
        return Some(UnknownRefresher(refresher));
      }
      var ids := jsonIds.ids;
      var i := 0;
      while i < |ids|
        invariant 0 <= i <= |ids|
        invariant applied == old(applied) + RefreshEach(refresher, ids[..i])
      {
        assert RefreshEach(refresher, ids[..i + 1]) == RefreshEach(refresher, ids[..i]) + [RefreshedInt(refresher, ids[i])];
        applied := applied + [RefreshedInt(refresher, ids[i])];
        i := i + 1;
      }
      assert ids[..i] == ids;
      fault := None;
    }

    /** Requires an IJsonCacheRefresher; any other refresher raises InvalidOperationException. */
    method RefreshByJson(registry: Registry, refresher: Guid, payload: string) returns (fault: Option<Fault>)
      modifies this`applied
      ensures refresher !in registry ==> fault == Some(UnknownRefresher(refresher)) && applied == old(applied)
      ensures refresher in registry && !registry[refresher].jsonCapable ==>
        fault == Some(NotJsonRefresher(refresher)) && applied == old(applied)
      ensures refresher in registry && registry[refresher].jsonCapable ==>
        fault == None && applied == old(applied) + [RefreshedJson(refresher, payload)]
    {
      if refresher !in registry {
        return Some(UnknownRefresher(refresher));
      }
      if !registry[refresher].jsonCapable {
        return Some(NotJsonRefresher(refresher));
      }
      applied := applied + [RefreshedJson(refresher, payload)];
      fault := None;
    }

    method RemoveById(registry: Registry, refresher: Guid, id: int) returns (fault: Option<Fault>)
      modifies this`applied
      ensures refresher in registry ==> fault == None && applied == old(applied) + [Removed(refresher, id)]
      ensures refresher !in registry ==> fault == Some(UnknownRefresher(refresher)) && applied == old(applied)
    {
      if refresher !in registry {
        return Some(UnknownRefresher(refresher));
      }
      applied := applied + [Removed(refresher, id)];
      fault := None;
    }
  }

  // ---------------------------------------------------------------------------
  // Lemmas

  /** Processing the fetched rows one by one is the same as replaying the batch. */
  lemma ReplayBatchExtend(registry: Registry, list: seq<Record>, i: nat)
    requires i < |list|
    ensures ReplayBatch(registry, list[..i + 1]) == Then(ReplayBatch(registry, list[..i]), ReplayRecord(registry, list[i]))
  {
    var step := (rec: Record) => ReplayRecord(registry, rec);
    assert list[..i + 1] == list[..i] + [list[i]];
    RunAllAppend(list[..i], [list[i]], step);
    RunAllSingle(list[i], step);
  }

  /** Once a prefix of the batch escapes, the rows after it are never reached. */
  lemma ReplayBatchPrefixFault(registry: Registry, list: seq<Record>, i: nat)
    requires i <= |list|
    requires ReplayBatch(registry, list[..i]).fault.Some?
    ensures ReplayBatch(registry, list) == ReplayBatch(registry, list[..i])
  {
    assert list == list[..i] + list[i..];
    RunAllAppend(list[..i], list[i..], (rec: Record) => ReplayRecord(registry, rec));
  }

  /** Once a prefix of the array throws, the rest of the array is never reached. */
  lemma ReplayPrefixFault(registry: Registry, nodes: seq<Node>, i: nat)
    requires i <= |nodes|
    requires Replay(registry, nodes[..i]).fault.Some?
    ensures Replay(registry, nodes) == Replay(registry, nodes[..i])
  {
    assert nodes == nodes[..i] + nodes[i..];
    FlattenAppend(nodes[..i], nodes[i..]);
    RunAllAppend(Flatten(nodes[..i]), Flatten(nodes[i..]), e => Step(registry, e));
  }

  lemma {:induction false} FilterKeepsAscending(rows: seq<Record>, p: Record -> bool)
    requires Ascending(rows)
    ensures Ascending(Filter(rows, p))
  {
    if rows != [] {
      FilterKeepsAscending(rows[1..], p);
      FilterMembers(rows[1..], p);
      var rest := Filter(rows[1..], p);
      forall j | 0 <= j < |rest| ensures rows[0].id < rest[j].id {
        assert rest[j] in rows[1..];
      }
    }
  }

  /**
   * A sync fetches exactly the rows above the offset, in strictly ascending id
   * order; on a table in id order they are the table's tail.
   */
  lemma FetchIsOrderedSuffix(rows: seq<Record>, lastId: int)
    requires Ascending(rows)
    ensures var batch := Fetch(rows, lastId);
      Ascending(batch) &&
      (forall i :: 0 <= i < |batch| ==> batch[i].id > lastId && batch[i] in rows) &&
      (forall i :: 0 <= i < |rows| && rows[i].id > lastId ==> rows[i] in batch)
  {
    FilterKeepsAscending(rows, (r: Record) => r.id > lastId);
    FilterMembers(rows, (r: Record) => r.id > lastId);
  }

  /** The new offset after a non-empty batch is the last fetched id and exceeds the old one. */
  lemma {:induction false} OffsetAdvances(rows: seq<Record>, lastId: int)
    requires Ascending(rows)
    requires Fetch(rows, lastId) != []
    ensures var batch := Fetch(rows, lastId);
      MaxId(batch) == batch[|batch| - 1].id && MaxId(batch) > lastId
  {
    var batch := Fetch(rows, lastId);
    FetchIsOrderedSuffix(rows, lastId);
    var last := batch[|batch| - 1];
    var k :| 0 <= k < |batch| && batch[k].id == MaxId(batch);
    assert k < |batch| - 1 ==> batch[k].id < last.id;
    assert last.id <= MaxId(batch);
  }

  /** Pruning keeps exactly the rows stamped at or after the cutoff, whatever any node's offset. */
  lemma PruneExact(rows: seq<Record>, now: int)
    ensures forall i :: 0 <= i < |Prune(rows, now)| ==>
      Prune(rows, now)[i] in rows && Prune(rows, now)[i].utcStamp >= now - DaysToRetainInstructionRecords * TicksPerDay
    ensures forall i :: 0 <= i < |rows| ==>
      (rows[i] in Prune(rows, now) <==> rows[i].utcStamp >= now - DaysToRetainInstructionRecords * TicksPerDay)
  {
    var p := Prune(rows, now);
    FilterMembers(rows, (r: Record) => r.utcStamp >= PruneCutoff(now));
    forall i | 0 <= i < |rows| && rows[i] in p
      ensures rows[i].utcStamp >= PruneCutoff(now)
    {
      var j :| 0 <= j < |p| && p[j] == rows[i];
    }
  }

  /**
   * A row whose JSON does not parse is skipped: the batch replays exactly as
   * if the row were absent, so the rows after it still run.
   */
  lemma MalformedRowSkipped(registry: Registry, before: seq<Record>, id: int, stamp: int, after: seq<Record>)
    ensures ReplayBatch(registry, before + [Record(id, stamp, Malformed)] + after)
         == ReplayBatch(registry, before + after)
  {
    var step := (rec: Record) => ReplayRecord(registry, rec);
    var bad := Record(id, stamp, Malformed);
    RunAllAppend(before + [bad], after, step);
    RunAllAppend(before, [bad], step);
    RunAllSingle(bad, step);
    RunAllAppend(before, after, step);
    var rb := RunAll(before, step);
    if rb.fault.None? {
      assert rb.calls + [] == rb.calls;
    }
  }

  /**
   * A row holding the JSON literal null deserializes without a JsonException
   * to a null array, whose iteration throws outside the catch: the batch stops
   * there, keeping the calls of the rows before it.
   */
  lemma NullDocumentEscapes(registry: Registry, before: seq<Record>, id: int, stamp: int, after: seq<Record>)
    requires ReplayBatch(registry, before).fault.None?
    ensures ReplayBatch(registry, before + [Record(id, stamp, NullDocument)] + after)
         == Run(ReplayBatch(registry, before).calls, Some(NullArray))
  {
    var step := (rec: Record) => ReplayRecord(registry, rec);
    var bad := Record(id, stamp, NullDocument);
    RunAllAppend(before + [bad], after, step);
    RunAllAppend(before, [bad], step);
    RunAllSingle(bad, step);
    assert ReplayBatch(registry, before).calls + [] == ReplayBatch(registry, before).calls;
  }

  /**
   * A row whose replay throws a JsonException part-way keeps the calls made
   * before the throw, and the batch goes on with the next row.
   */
  lemma JsonExceptionEndsOnlyItsRow(registry: Registry, rec: Record, rest: seq<Record>)
    requires rec.payload.Parsed?
    requires Replay(registry, rec.payload.items).fault == Some(ConversionFailed)
    ensures ReplayBatch(registry, [rec] + rest)
         == Run(Replay(registry, rec.payload.items).calls + ReplayBatch(registry, rest).calls,
                ReplayBatch(registry, rest).fault)
  {
    assert ([rec] + rest)[1..] == rest;
  }

  /**
   * Writing a list of instructions and replaying the written row dispatches
   * each of them once, in order, when every refresher they address is
   * registered with the capability its instruction needs.
   */
  lemma {:induction false} WrittenRowReplays(registry: Registry, instructions: seq<RefreshInstruction>)
    requires forall i :: 0 <= i < |instructions| ==> DispatchFault(registry, instructions[i]).None?
    ensures Replay(registry, Serialize(instructions)) == Run(Effects(Flatten(Serialize(instructions))), None)
    ensures Flatten(Serialize(instructions)) == seq(|instructions|, i requires 0 <= i < |instructions| => Item(instructions[i]))
  {
    var elems := seq(|instructions|, i requires 0 <= i < |instructions| => Item(instructions[i]));
    assert AsNodes(elems) == Serialize(instructions) by {
      AsNodesOfItems(instructions);
    }
    FlattenOfFlat(elems);
    ReplayCharacterised(registry, Serialize(instructions));
    var bad := e => StepFault(registry, e).Some?;
    assert forall k :: 0 <= k < |elems| ==> !bad(elems[k]);
  }

  /**
   * Two nodes sharing the table: when a node's offset covers every row, the
   * row another node then writes is the whole of its next fetch, and replaying
   * it makes every intended call of the written instructions, in order.
   */
  lemma CaughtUpNodeReplaysNewRow(registry: Registry, rows: seq<Record>, lastId: int,
                                  instructions: seq<RefreshInstruction>, id: int, stamp: int)
    requires forall i :: 0 <= i < |rows| ==> rows[i].id <= lastId
    requires id > lastId
    requires forall i :: 0 <= i < |instructions| ==> DispatchFault(registry, instructions[i]).None?
    ensures var rec := Record(id, stamp, Parsed(Serialize(instructions)));
      Fetch(rows + [rec], lastId) == [rec] &&
      ReplayBatch(registry, [rec]) == Run(Effects(Flatten(Serialize(instructions))), None)
  {
    var rec := Record(id, stamp, Parsed(Serialize(instructions)));
    var newer := (r: Record) => r.id > lastId;
    FilterAppend(rows, [rec], newer);
    FilterNone(rows, newer);
    assert [rec][1..] == [];
    WrittenRowReplays(registry, instructions);
    RunAllSingle(rec, (r: Record) => ReplayRecord(registry, r));
  }

  lemma {:induction false} AsNodesOfItems(instructions: seq<RefreshInstruction>)
    ensures AsNodes(seq(|instructions|, i requires 0 <= i < |instructions| => Item(instructions[i])))
         == Serialize(instructions)
  {
    var elems := seq(|instructions|, i requires 0 <= i < |instructions| => Item(instructions[i]));
    if instructions != [] {
      AsNodesOfItems(instructions[1..]);
      assert elems[1..] == seq(|instructions[1..]|, i requires 0 <= i < |instructions[1..]| => Item(instructions[1..][i]));
      assert Serialize(instructions) == [Obj(instructions[0])] + Serialize(instructions[1..]);
    }
  }
}
