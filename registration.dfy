/**
 * ServerRegistrationService: the heartbeat table of the nodes in a
 * load-balanced deployment, one row per computer name compared without
 * regard to case, with an upsert on heartbeat, explicit deactivation, a stale
 * sweep and the list of active servers.
 *
 * Times are DateTime ticks; "now" is always a parameter.
 */
module Registration {
  import opened Common

  /** One row of the server registration table. */
  datatype Registration = Registration(
    serverAddress: string,
    computerName: string,
    updateDate: int,
    isActive: bool)

  /**
   * The repository's staleness criterion for DeactiveStaleServers, given a
   * row, the stale timeout and the current time. The repository's own sweep is
   * not part of this model, so the criterion is a parameter of the store.
   */
  type StaleRule = (Registration, int, int) -> bool

  /** `x.ComputerName.ToUpper() == computerName.ToUpper()`. */
  predicate NameMatches(r: Registration, computerName: string) {
    SameIgnoringCase(r.computerName, computerName)
  }

  /** The index of the first row of the query result for a computer name. */
  function FindByName(rows: seq<Registration>, computerName: string): Option<nat> {
    FirstIndex(rows, (r: Registration) => NameMatches(r, computerName))
  }

  /**
   * The heartbeat upsert: refresh the first matching row, or add a new active
   * row. Either way the table then holds an active row for the name carrying
   * the address and time, and only a new name adds a row.
   */
  function Upsert(rows: seq<Registration>, address: string, computerName: string, now: int): (r: seq<Registration>)
    ensures |r| == |rows| + (if FindByName(rows, computerName).None? then 1 else 0)
    ensures exists k ::
      0 <= k < |r| && NameMatches(r[k], computerName) &&
      r[k].serverAddress == address && r[k].updateDate == now && r[k].isActive
  {
    match FindByName(rows, computerName)
    case Some(k) =>
      var r := rows[k := rows[k].(serverAddress := address, updateDate := now, isActive := true)];
      assert NameMatches(r[k], computerName);
      r
    case None =>
      var r := rows + [Registration(address, computerName, now, true)];
      assert NameMatches(r[|rows|], computerName);
      r
  }

  /** Clear the active flag of the first matching row, if any; names and length never change. */
  function Deactivate(rows: seq<Registration>, computerName: string): (r: seq<Registration>)
    ensures |r| == |rows|
    ensures forall i :: 0 <= i < |rows| ==> r[i].computerName == rows[i].computerName
    ensures FindByName(rows, computerName).Some? ==> !r[FindByName(rows, computerName).value].isActive
  {
    match FindByName(rows, computerName)
    case Some(k) => rows[k := rows[k].(isActive := false)]
    case None => rows
  }

  /** The repository's stale sweep: every row the rule calls stale is marked inactive. */
  function Sweep(rows: seq<Registration>, isStale: StaleRule, staleTimeout: int, now: int): (r: seq<Registration>)
    ensures |r| == |rows|
    ensures forall i :: 0 <= i < |rows| ==>
      r[i].computerName == rows[i].computerName && (r[i].isActive ==> rows[i].isActive)
  {
    seq(|rows|, i requires 0 <= i < |rows| =>
      if isStale(rows[i], staleTimeout, now) then rows[i].(isActive := false) else rows[i])
  }

  /** The rows whose IsActive is set. */
  function ActiveOf(rows: seq<Registration>): seq<Registration> {
    Filter(rows, (r: Registration) => r.isActive)
  }

  /** At most one row per computer name, compared without regard to case. */
  predicate UniqueNames(rows: seq<Registration>) {
    forall i, j :: 0 <= i < j < |rows| ==> !SameIgnoringCase(rows[i].computerName, rows[j].computerName)
  }

  /** One staleness rule: a row is stale when its last update is before now minus the timeout. */
  function UpdatedBeforeCutoff(): StaleRule {
    (r: Registration, staleTimeout: int, now: int) => r.updateDate < now - staleTimeout
  }

  /** The constructor's null checks, in source order: the name of the first null argument. */
  function NullArgument(hasProvider: bool, hasRepositoryFactory: bool): (r: Option<string>)
    ensures r.None? <==> hasProvider && hasRepositoryFactory
    ensures !hasProvider ==> r == Some("provider")
    ensures hasProvider && !hasRepositoryFactory ==> r == Some("repositoryFactory")
  {
    if !hasProvider then Some("provider")
    else if !hasRepositoryFactory then Some("repositoryFactory")
    else None
  }

  /** The registration table behind the repository, with a count of unit-of-work commits. */
  class RegistrationStore {
    var rows: seq<Registration>
    var commits: nat
    const isStale: StaleRule

    constructor (isStale: StaleRule)
      ensures rows == [] && commits == 0 && this.isStale == isStale
    {
      rows := [];
      commits := 0;
      this.isStale := isStale;
    }

    /** `repo.AddOrUpdate(server)` then `uow.Commit()`: update row `index`, or add a row. */
    method SaveAndCommit(index: Option<nat>, server: Registration)
      requires index.Some? ==> index.value < |rows|
      modifies this`rows, this`commits
      ensures index.Some? ==> rows == old(rows)[index.value := server]
      ensures index.None? ==> rows == old(rows) + [server]
      ensures commits == old(commits) + 1
    {
      if index.Some? {
        rows := rows[index.value := server];
      } else {
        rows := rows + [server];
      }
      commits := commits + 1;
    }

    /** `repo.DeactiveStaleServers(staleTimeout)`. */
    method DeactiveStaleServers(staleTimeout: int, now: int)
      modifies this`rows
      ensures rows == Sweep(old(rows), isStale, staleTimeout, now)
    {
      rows := Sweep(rows, isStale, staleTimeout, now);
    }
  }

  class ServerRegistrationService {
    const store: RegistrationStore

    constructor (store: RegistrationStore)
      ensures this.store == store
    {
      this.store := store;
    }

    /**
     * The heartbeat: upsert this server's row, commit, then run the stale
     * sweep with the supplied timeout.
     */
    method EnsureActive(address: string, computerName: string, staleServerTimeout: int, now: int)
      modifies store
      ensures store.rows == Sweep(Upsert(old(store.rows), address, computerName, now),
                                  store.isStale, staleServerTimeout, now)
      ensures store.commits == old(store.commits) + 1
      ensures UniqueNames(old(store.rows)) ==> UniqueNames(store.rows)
    {
      if UniqueNames(store.rows) {
        UpsertKeepsNamesUnique(store.rows, address, computerName, now);
        SweepKeepsNamesUnique(Upsert(store.rows, address, computerName, now), store.isStale, staleServerTimeout, now);
      }
      var found := FindByName(store.rows, computerName);
      if found.Some? {
        var server := store.rows[found.value];
        server := server.(serverAddress := address, updateDate := now, isActive := true);
        store.SaveAndCommit(found, server);
      } else {
        var server := Registration(address, computerName, now, true);
        store.SaveAndCommit(None, server);
      }
      store.DeactiveStaleServers(staleServerTimeout, now);
    }

    /** Deactivates the first row for the name; with no such row nothing is written or committed. */
    method DeactiveServer(computerName: string)
      modifies store
      ensures store.rows == Deactivate(old(store.rows), computerName)
      ensures store.commits == old(store.commits) + (if FindByName(old(store.rows), computerName).Some? then 1 else 0)
      ensures UniqueNames(old(store.rows)) ==> UniqueNames(store.rows)
    {
      if UniqueNames(store.rows) {
        DeactivateKeepsNamesUnique(store.rows, computerName);
      }
      var found := FindByName(store.rows, computerName);
      if found.Some? {
        var server := store.rows[found.value];
        server := server.(isActive := false);
        store.SaveAndCommit(found, server);
      }
    }

    /** The same repository sweep EnsureActive runs after its upsert. */
    method DeactiveStaleServers(staleTimeout: int, now: int)
      modifies store
      ensures store.rows == Sweep(old(store.rows), store.isStale, staleTimeout, now)
      ensures store.commits == old(store.commits)
      ensures UniqueNames(old(store.rows)) ==> UniqueNames(store.rows)
    {
      if UniqueNames(store.rows) {
        SweepKeepsNamesUnique(store.rows, store.isStale, staleTimeout, now);
      }
      store.DeactiveStaleServers(staleTimeout, now);
    }

    /** The rows whose IsActive is set, in table order. */
    method GetActiveServers() returns (servers: seq<Registration>)
      ensures servers == ActiveOf(store.rows)
      ensures forall i :: 0 <= i < |servers| ==> servers[i] in store.rows && servers[i].isActive
      ensures forall i :: 0 <= i < |store.rows| && store.rows[i].isActive ==> store.rows[i] in servers
    {
      servers := ActiveOf(store.rows);
      ActiveOfExact(store.rows);
    }
  }

  // ---------------------------------------------------------------------------
  // Lemmas

  /** A heartbeat for a known name refreshes the first matching row in place and adds no row. */
  lemma UpsertUpdatesFirstMatch(rows: seq<Registration>, address: string, computerName: string, now: int, k: nat)
    requires k < |rows| && NameMatches(rows[k], computerName)
    requires forall i :: 0 <= i < k ==> !NameMatches(rows[i], computerName)
    ensures var r := Upsert(rows, address, computerName, now);
      |r| == |rows| &&
      r[k] == Registration(address, rows[k].computerName, now, true) &&
      forall i :: 0 <= i < |rows| && i != k ==> r[i] == rows[i]
  {
    var p := (r: Registration) => NameMatches(r, computerName);
    assert p(rows[k]);
  }

  /** A heartbeat for an unknown name adds exactly one active row carrying the address, name and time. */
  lemma UpsertAddsRow(rows: seq<Registration>, address: string, computerName: string, now: int)
    requires forall i :: 0 <= i < |rows| ==> !NameMatches(rows[i], computerName)
    ensures Upsert(rows, address, computerName, now) == rows + [Registration(address, computerName, now, true)]
  {
  }

  /** The upsert keeps at most one row per name. */
  lemma UpsertKeepsNamesUnique(rows: seq<Registration>, address: string, computerName: string, now: int)
    requires UniqueNames(rows)
    ensures UniqueNames(Upsert(rows, address, computerName, now))
  {
    var r := Upsert(rows, address, computerName, now);
    match FindByName(rows, computerName)
    case Some(k) =>
      assert forall i :: 0 <= i < |r| ==> r[i].computerName == rows[i].computerName;
    case None =>
      forall i, j | 0 <= i < j < |r|
        ensures !SameIgnoringCase(r[i].computerName, r[j].computerName)
      {
        if j == |rows| {
          assert !NameMatches(rows[i], computerName);
        }
      }
  }

  /**
   * Two heartbeats, each an upsert followed by the stale sweep under
   * `UpdatedBeforeCutoff`, under the same name in any casing leave exactly one row
   * for that name, active and carrying the later address and time.
   */
  lemma HeartbeatTwiceOneRow(rows: seq<Registration>, staleTimeout: int,
                             a1: string, n1: string, t1: int, a2: string, n2: string, t2: int)
    requires UniqueNames(rows) && staleTimeout >= 0
    requires SameIgnoringCase(n1, n2)
    ensures var s1 := Sweep(Upsert(rows, a1, n1, t1), UpdatedBeforeCutoff(), staleTimeout, t1);
      var r := Sweep(Upsert(s1, a2, n2, t2), UpdatedBeforeCutoff(), staleTimeout, t2);
      UniqueNames(r) &&
      exists k :: 0 <= k < |r| &&
        (NameMatches(r[k], n2) && r[k].serverAddress == a2 && r[k].updateDate == t2 && r[k].isActive &&
         forall j :: 0 <= j < |r| && NameMatches(r[j], n1) ==> j == k)
  {
    var s1 := Sweep(Upsert(rows, a1, n1, t1), UpdatedBeforeCutoff(), staleTimeout, t1);
    HeartbeatLeavesOneActiveRow(rows, a1, n1, staleTimeout, t1);
    HeartbeatLeavesOneActiveRow(s1, a2, n2, staleTimeout, t2);
  }

  /**
   * One heartbeat (upsert, then the stale sweep under `UpdatedBeforeCutoff`)
   * keeps names unique and leaves exactly one row for the caller's name,
   * active and carrying its address and time.
   */
  lemma HeartbeatLeavesOneActiveRow(rows: seq<Registration>, address: string, computerName: string,
                                    staleTimeout: int, now: int)
    requires UniqueNames(rows) && staleTimeout >= 0
    ensures var r := Sweep(Upsert(rows, address, computerName, now), UpdatedBeforeCutoff(), staleTimeout, now);
      UniqueNames(r) &&
      exists k :: 0 <= k < |r| &&
        (NameMatches(r[k], computerName) && r[k].serverAddress == address && r[k].updateDate == now && r[k].isActive &&
         forall j :: 0 <= j < |r| && SameIgnoringCase(r[j].computerName, computerName) ==> j == k)
  {
    var u := Upsert(rows, address, computerName, now);
    var r := Sweep(u, UpdatedBeforeCutoff(), staleTimeout, now);
    UpsertKeepsNamesUnique(rows, address, computerName, now);
    SweepKeepsNamesUnique(u, UpdatedBeforeCutoff(), staleTimeout, now);
    HeartbeatRowSurvivesSweep(rows, address, computerName, staleTimeout, now);
    var k :| 0 <= k < |r| && NameMatches(r[k], computerName) &&
      r[k].serverAddress == address && r[k].updateDate == now && r[k].isActive;
  }

  /** Deactivation clears only the active flag of the first matching row; with none, nothing changes. */
  lemma DeactivateExact(rows: seq<Registration>, computerName: string)
    ensures var r := Deactivate(rows, computerName);
      |r| == |rows| &&
      (FindByName(rows, computerName).None? ==> r == rows) &&
      (FindByName(rows, computerName).Some? ==>
        var k := FindByName(rows, computerName).value;
        r[k] == rows[k].(isActive := false) &&
        forall i :: 0 <= i < |rows| && i != k ==> r[i] == rows[i])
  {
  }

  /** Deactivation keeps at most one row per name. */
  lemma DeactivateKeepsNamesUnique(rows: seq<Registration>, computerName: string)
    requires UniqueNames(rows)
    ensures UniqueNames(Deactivate(rows, computerName))
  {
    var r := Deactivate(rows, computerName);
    assert forall i :: 0 <= i < |r| ==> r[i].computerName == rows[i].computerName;
  }

  /** The sweep only clears active flags, exactly on the rows the rule calls stale. */
  lemma SweepExact(rows: seq<Registration>, isStale: StaleRule, staleTimeout: int, now: int)
    ensures var r := Sweep(rows, isStale, staleTimeout, now);
      |r| == |rows| &&
      forall i :: 0 <= i < |rows| ==>
        r[i].(isActive := rows[i].isActive) == rows[i] &&
        (r[i].isActive <==> rows[i].isActive && !isStale(rows[i], staleTimeout, now))
  {
  }

  /** The sweep keeps at most one row per name. */
  lemma SweepKeepsNamesUnique(rows: seq<Registration>, isStale: StaleRule, staleTimeout: int, now: int)
    requires UniqueNames(rows)
    ensures UniqueNames(Sweep(rows, isStale, staleTimeout, now))
  {
    var r := Sweep(rows, isStale, staleTimeout, now);
    assert forall i :: 0 <= i < |r| ==> r[i].computerName == rows[i].computerName;
  }

  /** The active list holds exactly the active rows, in table order. */
  lemma ActiveOfExact(rows: seq<Registration>)
    ensures forall i :: 0 <= i < |ActiveOf(rows)| ==> ActiveOf(rows)[i] in rows && ActiveOf(rows)[i].isActive
    ensures forall i :: 0 <= i < |rows| && rows[i].isActive ==> rows[i] in ActiveOf(rows)
  {
    FilterMembers(rows, (r: Registration) => r.isActive);
  }

  /**
   * Under `UpdatedBeforeCutoff` and a non-negative timeout, the
   * heartbeat's own row survives its own sweep: the caller is listed active
   * with its address and time.
   */
  lemma HeartbeatRowSurvivesSweep(rows: seq<Registration>, address: string, computerName: string,
                                  staleTimeout: int, now: int)
    requires staleTimeout >= 0
    ensures var r := Sweep(Upsert(rows, address, computerName, now), UpdatedBeforeCutoff(), staleTimeout, now);
      exists i :: 0 <= i < |r| && NameMatches(r[i], computerName) &&
        r[i].serverAddress == address && r[i].updateDate == now && r[i].isActive
  {
    var u := Upsert(rows, address, computerName, now);
    var r := Sweep(u, UpdatedBeforeCutoff(), staleTimeout, now);
    var k: nat;
    match FindByName(rows, computerName) {
      case Some(j) =>
        k := j;
        assert NameMatches(rows[j], computerName);
      case None =>
        k := |rows|;
    }
    assert NameMatches(u[k], computerName);
    assert !UpdatedBeforeCutoff()(u[k], staleTimeout, now);
    assert r[k] == u[k];
  }
}
