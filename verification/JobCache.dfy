/** The job system: one process, one database, single-flight execution per task, and a cache of
    finished results in memory and in the jobs table. */
module JobCache {

  type TaskID = string

  datatype Result = Result(errCode: nat, root: string)

  const INTERNAL_ERROR := 5

  /** A row of the jobs table. */
  datatype Row = Row(task: TaskID, done: bool, res: Result)

  /** Where a job is on its way through the worker.  From Leading to Cached it leads the flight of its
      task; `Got` remembers whether this job was the one that executed. */
  datatype Phase =
    | Queued
    | Missed
    | Waiting
    | Leading
    | Executing
    | Executed(res: Result)
    | Caching(val: Result)
    | Cached(val: Result)
    | Got(val: Result, original: bool)
    | Finished(val: Result)

  /** The last two fields are history: how often each task was executed, and with what result. */
  datatype State = State(
    rows: seq<Row>,
    phases: seq<Phase>,
    cache: map<TaskID, Result>,
    flight: map<TaskID, nat>,
    execs: map<TaskID, nat>,
    outcome: map<TaskID, Result>)

  const INITIAL := State([], [], map[], map[], map[], map[])

  function Execs(s: State, t: TaskID): nat {
    if t in s.execs then s.execs[t] else 0
  }

  /** Updates a row that is there and not done; a done row stays as it is. */
  function FinishRow(rows: seq<Row>, i: nat, res: Result): seq<Row> {
    if i < |rows| && !rows[i].done then rows[i := rows[i].(done := true, res := res)] else rows
  }

  predicate IsHit(rows: seq<Row>, t: TaskID, k: nat) {
    k < |rows| && rows[k].task == t && rows[k].done && rows[k].res.errCode == 0
  }

  /** What a lookup may answer: the data of any successful row with that task ID, or nothing if there is
      none. */
  ghost predicate IsCacheRead(rows: seq<Row>, t: TaskID, data: string) {
    if exists k :: IsHit(rows, t, k) then exists k: nat :: IsHit(rows, t, k) && rows[k].res.root == data
    else data == ""
  }

  /** The row a new job gets when the lookup answered `data`; empty data is no hit. */
  function NewRow(t: TaskID, data: string): Row {
    if |data| > 0 then Row(t, true, Result(0, data)) else Row(t, false, Result(0, ""))
  }

  /** The jobs table. */
  class JobsTable {
    var rows: seq<Row>

    constructor ()
      ensures rows == []
    {
      rows := [];
    }

    method CacheRead(t: TaskID) returns (data: string)
      ensures IsCacheRead(rows, t, data)
    {
      var i := 0;
      while i < |rows|
        invariant i <= |rows|
        invariant forall k :: 0 <= k < i ==> !IsHit(rows, t, k)
      {
        if rows[i].task == t && rows[i].done && rows[i].res.errCode == 0 {
          assert IsHit(rows, t, i);
          return rows[i].res.root;
        }
        i := i + 1;
      }
      return "";
    }

    method FinishJobAtRow(i: nat, res: Result)
      modifies this
      ensures rows == FinishRow(old(rows), i, res)
      ensures |rows| == |old(rows)| && forall k :: 0 <= k < |rows| && k != i ==> rows[k] == old(rows)[k]
      ensures i < |rows| ==> rows[i].done && rows[i].task == old(rows)[i].task
      ensures i < |rows| ==> rows[i].res == if old(rows)[i].done then old(rows)[i].res else res
      ensures forall k :: 0 <= k < |rows| && old(rows)[k].done ==> rows[k] == old(rows)[k]
    {
      if i < |rows| && !rows[i].done {
        rows := rows[i := Row(rows[i].task, true, res)];
      }
    }

    /** Looks for a finished job with that task ID, then adds a row, already done on a hit. */
    method CreateJob(t: TaskID) returns (row: nat, ghost data: string)
      modifies this
      ensures row == |old(rows)|
      ensures IsCacheRead(old(rows), t, data) && rows == old(rows) + [NewRow(t, data)]
    {
      var found := CacheRead(t);
      data := found;
      row := |rows|;
      rows := rows + [Row(t, false, Result(0, ""))];
      if |found| > 0 {
        FinishJobAtRow(row, Result(0, found));
      }
    }
  }

  // ----- steps -----

  /** A job the table already answers is finished at once; any other is queued. */
  ghost predicate Spawns(s: State, s': State, t: TaskID, data: string) {
    && IsCacheRead(s.rows, t, data)
    && s' == s.(rows := s.rows + [NewRow(t, data)],
                phases := s.phases + [if |data| > 0 then Finished(Result(0, data)) else Queued])
  }

  predicate At(s: State, i: nat, p: Phase) {
    i < |s.phases| && i < |s.rows| && s.phases[i] == p
  }

  predicate LooksUp(s: State, s': State, i: nat) {
    At(s, i, Queued) &&
    var t := s.rows[i].task;
    s' == s.(phases := s.phases[i := if t in s.cache then Got(s.cache[t], false) else Missed])
  }

  predicate JoinsFlight(s: State, s': State, i: nat) {
    At(s, i, Missed) &&
    var t := s.rows[i].task;
    if t in s.flight then s' == s.(phases := s.phases[i := Waiting])
    else s' == s.(flight := s.flight[t := i], phases := s.phases[i := Leading])
  }

  /** The flight ends: its leader and everyone waiting for it get the value. */
  function Landed(s: State, i: nat, val: Result, original: bool): State
    requires i < |s.phases| == |s.rows|
  {
    var t := s.rows[i].task;
    s.(flight := s.flight - {t},
       phases := seq(|s.phases|, j requires 0 <= j < |s.phases| =>
         if j == i then Got(val, original)
         else if s.phases[j] == Waiting && s.rows[j].task == t then Got(val, false)
         else s.phases[j]))
  }

  /** The leader looks at the cache again before executing. */
  predicate Rechecks(s: State, s': State, i: nat) {
    At(s, i, Leading) && |s.phases| == |s.rows| &&
    var t := s.rows[i].task;
    if t in s.cache then s' == Landed(s, i, s.cache[t], false)
    else s' == s.(phases := s.phases[i := Executing], execs := s.execs[t := Execs(s, t) + 1])
  }

  predicate Executes(s: State, s': State, i: nat, res: Result) {
    At(s, i, Executing) &&
    s' == s.(phases := s.phases[i := Executed(res)], outcome := s.outcome[s.rows[i].task := res])
  }

  /** The leader finishes its row; if the database fails, an internal error takes the place of the
      result. */
  predicate WritesRow(s: State, s': State, i: nat, res: Result, ok: bool, err: string) {
    At(s, i, Executed(res)) &&
    s' == if ok then s.(rows := FinishRow(s.rows, i, res), phases := s.phases[i := Caching(res)])
          else s.(phases := s.phases[i := Caching(Result(INTERNAL_ERROR, err))])
  }

  predicate Caches(s: State, s': State, i: nat, val: Result) {
    At(s, i, Caching(val)) && s' == s.(cache := s.cache[s.rows[i].task := val], phases := s.phases[i := Cached(val)])
  }

  predicate Lands(s: State, s': State, i: nat, val: Result) {
    At(s, i, Cached(val)) && |s.phases| == |s.rows| && s' == Landed(s, i, val, true)
  }

  /** A job that did not execute finishes its own row, if the result is a success. */
  predicate Settles(s: State, s': State, i: nat, val: Result, original: bool) {
    At(s, i, Got(val, original)) &&
    s' == s.(rows := if !original && val.errCode == 0 then FinishRow(s.rows, i, val) else s.rows,
             phases := s.phases[i := Finished(val)])
  }

  ghost predicate Next(s: State, s': State) {
    || (exists t, data :: Spawns(s, s', t, data))
    || (exists i :: LooksUp(s, s', i))
    || (exists i :: JoinsFlight(s, s', i))
    || (exists i :: Rechecks(s, s', i))
    || (exists i, res :: Executes(s, s', i, res))
    || (exists i, res, ok, err :: WritesRow(s, s', i, res, ok, err))
    || (exists i, val :: Caches(s, s', i, val))
    || (exists i, val :: Lands(s, s', i, val))
    || (exists i, val, original :: Settles(s, s', i, val, original))
  }

  ghost predicate IsRun(run: seq<State>) {
    |run| > 0 && run[0] == INITIAL && forall i :: 0 <= i < |run| - 1 ==> Next(run[i], run[i + 1])
  }

  // ----- the invariant -----

  predicate Leads(p: Phase) {
    p.Leading? || p.Executing? || p.Executed? || p.Caching? || p.Cached?
  }

  /** A value handed to a job is the outcome of the one execution of its task ID, or an internal error. */
  predicate Genuine(s: State, t: TaskID, val: Result) {
    val.errCode == 0 ==> t in s.outcome && s.outcome[t].errCode == 0 && val.root == s.outcome[t].root
  }

  /** What a job's phase says about its task. */
  predicate PhaseOk(s: State, t: TaskID, p: Phase) {
    match p
    case Leading => true
    case Executing => t !in s.cache && t !in s.outcome && Execs(s, t) == 1
    case Executed(res) => t !in s.cache && t in s.outcome && s.outcome[t] == res && Execs(s, t) == 1
    case Caching(val) => t !in s.cache && t in s.outcome && Execs(s, t) == 1 && Genuine(s, t, val)
    case Cached(val) => t in s.cache && Genuine(s, t, val)
    case Got(val, _) => Genuine(s, t, val)
    case Finished(val) => Genuine(s, t, val)
    case _ => true
  }

  /** A task with no flight past the recheck was executed exactly if it is cached. */
  predicate TaskOk(s: State, t: TaskID) {
    && Execs(s, t) <= 1
    && (t in s.cache ==> Genuine(s, t, s.cache[t]) && Execs(s, t) == 1)
    && (t in s.outcome ==> Execs(s, t) == 1)
    && (t !in s.cache && (t !in s.flight || (s.flight[t] < |s.phases| && s.phases[s.flight[t]] == Leading)) ==>
          Execs(s, t) == 0)
  }

  predicate RowOk(s: State, r: Row) {
    r.done ==> Genuine(s, r.task, r.res)
  }

  ghost predicate Inv(s: State) {
    && |s.rows| == |s.phases|
    && (forall t :: t in s.flight ==>
          s.flight[t] < |s.phases| && Leads(s.phases[s.flight[t]]) && s.rows[s.flight[t]].task == t)
    && (forall i :: 0 <= i < |s.phases| && Leads(s.phases[i]) ==>
          s.rows[i].task in s.flight && s.flight[s.rows[i].task] == i)
    && (forall i :: 0 <= i < |s.phases| ==> PhaseOk(s, s.rows[i].task, s.phases[i]))
    && (forall i :: 0 <= i < |s.rows| ==> RowOk(s, s.rows[i]))
    && forall t :: TaskOk(s, t)
  }

  lemma InitialInv()
    ensures Inv(INITIAL)
  {
  }

  lemma SpawnsInv(s: State, s': State, t: TaskID, data: string)
    requires Inv(s) && Spawns(s, s', t, data)
    ensures Inv(s')
  {
    forall u ensures TaskOk(s', u) {
      assert TaskOk(s, u);
    }
    forall i | 0 <= i < |s'.phases|
      ensures PhaseOk(s', s'.rows[i].task, s'.phases[i]) && RowOk(s', s'.rows[i])
    {
      if i < |s.phases| {
        assert PhaseOk(s, s.rows[i].task, s.phases[i]) && RowOk(s, s.rows[i]);
      } else if |data| > 0 {
        var k: nat :| IsHit(s.rows, t, k) && s.rows[k].res.root == data;
        assert RowOk(s, s.rows[k]);
      }
    }
  }

  lemma LooksUpInv(s: State, s': State, i: nat)
    requires Inv(s) && LooksUp(s, s', i)
    ensures Inv(s')
  {
    assert TaskOk(s, s.rows[i].task);
    forall u ensures TaskOk(s', u) {
      assert TaskOk(s, u);
    }
    forall j | 0 <= j < |s'.phases| ensures PhaseOk(s', s'.rows[j].task, s'.phases[j]) {
      assert PhaseOk(s, s.rows[j].task, s.phases[j]);
    }
  }

  lemma JoinsFlightInv(s: State, s': State, i: nat)
    requires Inv(s) && JoinsFlight(s, s', i)
    ensures Inv(s')
  {
    hide TaskOk, PhaseOk, RowOk;
    forall u ensures TaskOk(s', u) {
      JoinKeepsTask(s, s', i, u);
    }
    forall j | 0 <= j < |s'.phases|
      ensures PhaseOk(s', s'.rows[j].task, s'.phases[j]) && RowOk(s', s'.rows[j])
    {
      JoinKeepsPhase(s, s', i, j);
    }
  }

  lemma JoinKeepsTask(s: State, s': State, i: nat, u: TaskID)
    requires Inv(s) && JoinsFlight(s, s', i)
    ensures TaskOk(s', u)
  {
    hide PhaseOk, RowOk;
    assert TaskOk(s, u);
  }

  lemma JoinKeepsPhase(s: State, s': State, i: nat, j: nat)
    requires Inv(s) && JoinsFlight(s, s', i) && j < |s'.phases|
    ensures PhaseOk(s', s'.rows[j].task, s'.phases[j]) && RowOk(s', s'.rows[j])
  {
    hide TaskOk;
    assert PhaseOk(s, s.rows[j].task, s.phases[j]) && RowOk(s, s.rows[j]);
  }

  predicate CanLand(s: State, i: nat, val: Result) {
    && i < |s.phases| == |s.rows|
    && Leads(s.phases[i]) && s.rows[i].task in s.cache && Genuine(s, s.rows[i].task, val)
  }

  lemma LandedInv(s: State, i: nat, val: Result, original: bool)
    requires Inv(s) && CanLand(s, i, val)
    ensures Inv(Landed(s, i, val, original))
  {
    hide TaskOk, PhaseOk, RowOk;
    var s' := Landed(s, i, val, original);
    forall u ensures TaskOk(s', u) {
      LandingKeepsTask(s, i, val, original, u);
    }
    forall j | 0 <= j < |s'.phases|
      ensures PhaseOk(s', s'.rows[j].task, s'.phases[j]) && RowOk(s', s'.rows[j])
    {
      LandingKeepsPhase(s, i, val, original, j);
    }
  }

  lemma LandingKeepsTask(s: State, i: nat, val: Result, original: bool, u: TaskID)
    requires Inv(s) && CanLand(s, i, val)
    ensures TaskOk(Landed(s, i, val, original), u)
  {
    hide PhaseOk, RowOk;
    assert TaskOk(s, u);
  }

  lemma LandingKeepsPhase(s: State, i: nat, val: Result, original: bool, j: nat)
    requires Inv(s) && CanLand(s, i, val) && j < |s.phases|
    ensures var s' := Landed(s, i, val, original);
      PhaseOk(s', s'.rows[j].task, s'.phases[j]) && RowOk(s', s'.rows[j])
  {
    hide TaskOk;
    assert PhaseOk(s, s.rows[j].task, s.phases[j]) && RowOk(s, s.rows[j]);
  }

  lemma RechecksInv(s: State, s': State, i: nat)
    requires Inv(s) && Rechecks(s, s', i)
    ensures Inv(s')
  {
    var t := s.rows[i].task;
    assert TaskOk(s, t);
    if t in s.cache {
      LandedInv(s, i, s.cache[t], false);
    } else {
      forall u ensures TaskOk(s', u) {
        assert TaskOk(s, u);
      }
      forall j | 0 <= j < |s'.phases| ensures PhaseOk(s', s'.rows[j].task, s'.phases[j]) {
        assert PhaseOk(s, s.rows[j].task, s.phases[j]);
      }
    }
  }

  lemma ExecutesInv(s: State, s': State, i: nat, res: Result)
    requires Inv(s) && Executes(s, s', i, res)
    ensures Inv(s')
  {
    assert PhaseOk(s, s.rows[i].task, s.phases[i]);
    forall u ensures TaskOk(s', u) {
      assert TaskOk(s, u);
    }
    forall j | 0 <= j < |s'.phases|
      ensures PhaseOk(s', s'.rows[j].task, s'.phases[j]) && RowOk(s', s'.rows[j])
    {
      assert PhaseOk(s, s.rows[j].task, s.phases[j]) && RowOk(s, s.rows[j]);
    }
  }

  lemma WritesRowInv(s: State, s': State, i: nat, res: Result, ok: bool, err: string)
    requires Inv(s) && WritesRow(s, s', i, res, ok, err)
    ensures Inv(s')
  {
    assert PhaseOk(s, s.rows[i].task, s.phases[i]);
    forall u ensures TaskOk(s', u) {
      assert TaskOk(s, u);
    }
    forall j | 0 <= j < |s'.phases|
      ensures PhaseOk(s', s'.rows[j].task, s'.phases[j]) && RowOk(s', s'.rows[j])
    {
      assert PhaseOk(s, s.rows[j].task, s.phases[j]) && RowOk(s, s.rows[j]);
    }
  }

  lemma CachesInv(s: State, s': State, i: nat, val: Result)
    requires Inv(s) && Caches(s, s', i, val)
    ensures Inv(s')
  {
    assert PhaseOk(s, s.rows[i].task, s.phases[i]);
    forall u ensures TaskOk(s', u) {
      assert TaskOk(s, u);
    }
    forall j | 0 <= j < |s'.phases| ensures PhaseOk(s', s'.rows[j].task, s'.phases[j]) {
      assert PhaseOk(s, s.rows[j].task, s.phases[j]);
    }
  }

  lemma LandsInv(s: State, s': State, i: nat, val: Result)
    requires Inv(s) && Lands(s, s', i, val)
    ensures Inv(s')
  {
    assert PhaseOk(s, s.rows[i].task, s.phases[i]);
    LandedInv(s, i, val, true);
  }

  lemma SettlesInv(s: State, s': State, i: nat, val: Result, original: bool)
    requires Inv(s) && Settles(s, s', i, val, original)
    ensures Inv(s')
  {
    assert PhaseOk(s, s.rows[i].task, s.phases[i]);
    forall u ensures TaskOk(s', u) {
      assert TaskOk(s, u);
    }
    forall j | 0 <= j < |s'.phases|
      ensures PhaseOk(s', s'.rows[j].task, s'.phases[j]) && RowOk(s', s'.rows[j])
    {
      assert PhaseOk(s, s.rows[j].task, s.phases[j]) && RowOk(s, s.rows[j]);
    }
  }

  lemma StepInv(s: State, s': State)
    requires Inv(s) && Next(s, s')
    ensures Inv(s')
  {
    hide Inv, Spawns, LooksUp, JoinsFlight, Rechecks, Executes, WritesRow, Caches, Lands, Settles;
    if t, data :| Spawns(s, s', t, data) {
      SpawnsInv(s, s', t, data);
    } else if i :| LooksUp(s, s', i) {
      LooksUpInv(s, s', i);
    } else if i :| JoinsFlight(s, s', i) {
      JoinsFlightInv(s, s', i);
    } else if i :| Rechecks(s, s', i) {
      RechecksInv(s, s', i);
    } else if i, res :| Executes(s, s', i, res) {
      ExecutesInv(s, s', i, res);
    } else if i, res, ok, err :| WritesRow(s, s', i, res, ok, err) {
      WritesRowInv(s, s', i, res, ok, err);
    } else if i, val :| Caches(s, s', i, val) {
      CachesInv(s, s', i, val);
    } else if i, val :| Lands(s, s', i, val) {
      LandsInv(s, s', i, val);
    } else {
      var i, val, original :| Settles(s, s', i, val, original);
      SettlesInv(s, s', i, val, original);
    }
  }

  lemma {:induction false} RunInv(run: seq<State>, n: nat)
    requires IsRun(run) && n < |run|
    ensures Inv(run[n])
    decreases n
  {
    hide Inv, Next;
    if n == 0 {
      InitialInv();
    } else {
      RunInv(run, n - 1);
      StepInv(run[n - 1], run[n]);
    }
  }

  // ----- what holds in every reachable state -----

  /** A success that a finished job reports to its caller. */
  predicate Reports(s: State, i: nat, t: TaskID, root: string) {
    i < |s.rows| == |s.phases| && s.rows[i].task == t && s.phases[i] == Finished(Result(0, root))
  }

  /** A success that the jobs table holds. */
  predicate Records(s: State, i: nat, t: TaskID, root: string) {
    i < |s.rows| && s.rows[i] == Row(t, true, Result(0, root))
  }

  /** Each task is executed at most once, and everything any job of it ever reports or records as a
      success is the result of that one execution. */
  lemma JobCacheSafety(run: seq<State>, n: nat, t: TaskID)
    requires IsRun(run) && n < |run|
    ensures Execs(run[n], t) <= 1
    ensures forall i, root :: Reports(run[n], i, t, root) || Records(run[n], i, t, root) ==>
              t in run[n].outcome && run[n].outcome[t] == Result(0, root) && Execs(run[n], t) == 1
  {
    hide IsRun, Next;
    RunInv(run, n);
    var s := run[n];
    assert TaskOk(s, t);
    forall i: nat, root | Reports(s, i, t, root) || Records(s, i, t, root)
      ensures t in s.outcome && s.outcome[t] == Result(0, root)
    {
      assert PhaseOk(s, s.rows[i].task, s.phases[i]) && RowOk(s, s.rows[i]);
    }
  }

  /** What no step takes back: done rows and finished jobs stay as they are. */
  ghost predicate Keeps(s: State, s': State) {
    && |s.rows| <= |s'.rows| && |s.phases| <= |s'.phases|
    && (forall i :: 0 <= i < |s.rows| ==>
          s'.rows[i].task == s.rows[i].task && (s.rows[i].done ==> s'.rows[i] == s.rows[i]))
    && (forall i :: 0 <= i < |s.phases| && s.phases[i].Finished? ==> s'.phases[i] == s.phases[i])
  }

  lemma StepKeeps(s: State, s': State)
    requires Next(s, s')
    ensures Keeps(s, s')
  {
    hide Spawns, LooksUp, JoinsFlight, Rechecks, Executes, WritesRow, Caches, Lands, Settles;
    if t, data :| Spawns(s, s', t, data) {
      SpawnsKeeps(s, s', t, data);
    } else if i :| LooksUp(s, s', i) {
      LooksUpKeeps(s, s', i);
    } else if i :| JoinsFlight(s, s', i) {
      JoinsFlightKeeps(s, s', i);
    } else if i :| Rechecks(s, s', i) {
      RechecksKeeps(s, s', i);
    } else if i, res :| Executes(s, s', i, res) {
      ExecutesKeeps(s, s', i, res);
    } else if i, res, ok, err :| WritesRow(s, s', i, res, ok, err) {
      WritesRowKeeps(s, s', i, res, ok, err);
    } else if i, val :| Caches(s, s', i, val) {
      CachesKeeps(s, s', i, val);
    } else if i, val :| Lands(s, s', i, val) {
      LandsKeeps(s, s', i, val);
    } else {
      var i, val, original :| Settles(s, s', i, val, original);
      SettlesKeeps(s, s', i, val, original);
    }
  }

  lemma SpawnsKeeps(s: State, s': State, t: TaskID, data: string)
    requires Spawns(s, s', t, data)
    ensures Keeps(s, s')
  {
  }

  lemma LooksUpKeeps(s: State, s': State, i: nat)
    requires LooksUp(s, s', i)
    ensures Keeps(s, s')
  {
  }

  lemma JoinsFlightKeeps(s: State, s': State, i: nat)
    requires JoinsFlight(s, s', i)
    ensures Keeps(s, s')
  {
  }

  lemma RechecksKeeps(s: State, s': State, i: nat)
    requires Rechecks(s, s', i)
    ensures Keeps(s, s')
  {
  }

  lemma ExecutesKeeps(s: State, s': State, i: nat, res: Result)
    requires Executes(s, s', i, res)
    ensures Keeps(s, s')
  {
  }

  lemma WritesRowKeeps(s: State, s': State, i: nat, res: Result, ok: bool, err: string)
    requires WritesRow(s, s', i, res, ok, err)
    ensures Keeps(s, s')
  {
  }

  lemma CachesKeeps(s: State, s': State, i: nat, val: Result)
    requires Caches(s, s', i, val)
    ensures Keeps(s, s')
  {
  }

  lemma LandsKeeps(s: State, s': State, i: nat, val: Result)
    requires Lands(s, s', i, val)
    ensures Keeps(s, s')
  {
  }

  lemma SettlesKeeps(s: State, s': State, i: nat, val: Result, original: bool)
    requires Settles(s, s', i, val, original)
    ensures Keeps(s, s')
  {
  }

  /** Over a whole run a done row and a finished job stay exactly as they are. */
  lemma {:induction false} DoneNeverChanges(run: seq<State>, m: nat, n: nat)
    requires IsRun(run) && m <= n < |run|
    ensures Keeps(run[m], run[n])
    decreases n - m
  {
    hide Next;
    if m < n {
      StepKeeps(run[m], run[m + 1]);
      DoneNeverChanges(run, m + 1, n);
    }
  }

  /** So any two successes of one task carry the same data, whether in memory or in the table and
      whenever in the run they were seen. */
  lemma SuccessesAgree(run: seq<State>, m: nat, n: nat, t: TaskID, i: nat, j: nat, a: string, b: string)
    requires IsRun(run) && m <= n < |run|
    requires Reports(run[m], i, t, a) || Records(run[m], i, t, a)
    requires Reports(run[n], j, t, b) || Records(run[n], j, t, b)
    ensures a == b
  {
    hide IsRun, Next, Inv;
    DoneNeverChanges(run, m, n);
    RunSizes(run, n);
    assert Reports(run[n], i, t, a) || Records(run[n], i, t, a);
    JobCacheSafety(run, n, t);
  }

  lemma RunSizes(run: seq<State>, n: nat)
    requires IsRun(run) && n < |run|
    ensures |run[n].rows| == |run[n].phases|
  {
    hide IsRun, Next;
    RunInv(run, n);
  }

  // ----- memory and table agree about successes -----

  /** What a job's phase says about its own row: not done until the job writes it, and then done with the
      success the job goes on with. */
  predicate RowPhase(r: Row, p: Phase) {
    match p
    case Caching(val) => val.errCode == 0 ==> r.done && r.res == val
    case Cached(val) => val.errCode == 0 ==> r.done && r.res == val
    case Got(val, original) => if original then (val.errCode == 0 ==> r.done && r.res == val) else !r.done
    case Finished(val) => val.errCode == 0 ==> r.done && r.res == val
    case _ => !r.done
  }

  ghost predicate RowsFollow(s: State) {
    |s.rows| == |s.phases| && forall i :: 0 <= i < |s.rows| ==> RowPhase(s.rows[i], s.phases[i])
  }

  /** A step of one job that leaves all others where they are. */
  ghost predicate OnlyJob(s: State, s': State, i: nat) {
    && i < |s.rows| == |s.phases| == |s'.rows| == |s'.phases|
    && forall j :: 0 <= j < |s.rows| && j != i ==> s'.rows[j] == s.rows[j] && s'.phases[j] == s.phases[j]
  }

  lemma OnlyJobFollows(s: State, s': State, i: nat)
    requires RowsFollow(s) && OnlyJob(s, s', i) && RowPhase(s'.rows[i], s'.phases[i])
    ensures RowsFollow(s')
  {}

  lemma WritesRowFollows(s: State, s': State, i: nat, res: Result, ok: bool, err: string)
    requires RowsFollow(s) && WritesRow(s, s', i, res, ok, err)
    ensures RowsFollow(s')
  {
    assert RowPhase(s.rows[i], s.phases[i]);
    OnlyJobFollows(s, s', i);
  }

  lemma SettlesFollows(s: State, s': State, i: nat, val: Result, original: bool)
    requires RowsFollow(s) && Settles(s, s', i, val, original)
    ensures RowsFollow(s')
  {
    assert RowPhase(s.rows[i], s.phases[i]);
    OnlyJobFollows(s, s', i);
  }

  lemma LandedFollows(s: State, i: nat, val: Result, original: bool)
    requires RowsFollow(s) && i < |s.phases| && RowPhase(s.rows[i], Got(val, original))
    ensures RowsFollow(Landed(s, i, val, original))
  {
    var s' := Landed(s, i, val, original);
    forall j | 0 <= j < |s'.rows| ensures RowPhase(s'.rows[j], s'.phases[j]) {
      assert RowPhase(s.rows[j], s.phases[j]);
    }
  }

  lemma SpawnsFollows(s: State, s': State, t: TaskID, data: string)
    requires RowsFollow(s) && Spawns(s, s', t, data)
    ensures RowsFollow(s')
  {
    hide IsCacheRead;
  }

  lemma RechecksFollows(s: State, s': State, i: nat)
    requires RowsFollow(s) && Rechecks(s, s', i)
    ensures RowsFollow(s')
  {
    hide Landed;
    assert RowPhase(s.rows[i], s.phases[i]);
    if s.rows[i].task in s.cache {
      LandedFollows(s, i, s.cache[s.rows[i].task], false);
    } else {
      OnlyJobFollows(s, s', i);
    }
  }

  lemma LandsFollows(s: State, s': State, i: nat, val: Result)
    requires RowsFollow(s) && Lands(s, s', i, val)
    ensures RowsFollow(s')
  {
    hide Landed;
    assert RowPhase(s.rows[i], s.phases[i]);
    LandedFollows(s, i, val, true);
  }

  lemma QuietFollows(s: State, s': State, i: nat)
    requires RowsFollow(s)
    requires LooksUp(s, s', i) || JoinsFlight(s, s', i) || (exists res :: Executes(s, s', i, res)) || (exists val :: Caches(s, s', i, val))
    ensures RowsFollow(s')
  {
    assert RowPhase(s.rows[i], s.phases[i]);
    OnlyJobFollows(s, s', i);
  }

  lemma StepFollows(s: State, s': State)
    requires RowsFollow(s) && Next(s, s')
    ensures RowsFollow(s')
  {
    hide RowsFollow, Spawns, LooksUp, JoinsFlight, Rechecks, Executes, WritesRow, Caches, Lands, Settles;
    if t, data :| Spawns(s, s', t, data) {
      SpawnsFollows(s, s', t, data);
    } else if i :| LooksUp(s, s', i) {
      QuietFollows(s, s', i);
    } else if i :| JoinsFlight(s, s', i) {
      QuietFollows(s, s', i);
    } else if i :| Rechecks(s, s', i) {
      RechecksFollows(s, s', i);
    } else if i, res :| Executes(s, s', i, res) {
      QuietFollows(s, s', i);
    } else if i, res, ok, err :| WritesRow(s, s', i, res, ok, err) {
      WritesRowFollows(s, s', i, res, ok, err);
    } else if i, val :| Caches(s, s', i, val) {
      QuietFollows(s, s', i);
    } else if i, val :| Lands(s, s', i, val) {
      LandsFollows(s, s', i, val);
    } else {
      var i, val, original :| Settles(s, s', i, val, original);
      SettlesFollows(s, s', i, val, original);
    }
  }

  lemma {:induction false} RunFollows(run: seq<State>, n: nat)
    requires IsRun(run) && n < |run|
    ensures RowsFollow(run[n])
    decreases n
  {
    hide Next;
    if n > 0 {
      hide RowsFollow;
      RunFollows(run, n - 1);
      assert Next(run[n - 1], run[n - 1 + 1]);
      StepFollows(run[n - 1], run[n]);
    }
  }

  /** The job has not got a value yet. */
  predicate Unanswered(p: Phase) {
    p.Queued? || p.Missed? || p.Waiting? || p.Leading? || p.Executing? || p.Executed?
  }

  /** In every reachable state, a job that reports a success has its row done with exactly that result, and
      the row of a job that has not got a value yet is not done. */
  lemma SuccessIsRecorded(run: seq<State>, n: nat, i: nat)
    requires IsRun(run) && n < |run| && i < |run[n].phases|
    ensures i < |run[n].rows|
    ensures run[n].phases[i].Finished? && run[n].phases[i].val.errCode == 0 ==>
              run[n].rows[i].done && run[n].rows[i].res == run[n].phases[i].val
    ensures Unanswered(run[n].phases[i]) ==> !run[n].rows[i].done
  {
    hide Next;
    RunFollows(run, n);
    assert RowPhase(run[n].rows[i], run[n].phases[i]);
  }
}
