/**
  The migration that leaves at most one active run for each agent: an in-place
  update of the run table, then a unique index and an event trigger that
  constrain later writes. Identifiers compare as text.
  */
module RunRepair {
  import opened Options
  import I = SortableIds

  datatype Status = Queued | Running | Completed | Failed | Cancelled

  /** A run; `rest` stands for the columns the migration does not mention. */
  datatype Run = Run(
    id: string,
    agentId: string,
    status: Status,
    errorCode: Option<string>,
    errorMessage: Option<string>,
    completedAt: Option<string>,
    rest: seq<string>)

  datatype Event = Event(runId: Option<string>, agentId: string, rest: seq<string>)

  const DUPLICATE_CODE := "supervisor_recovered_duplicate_active_run"
  const DUPLICATE_MESSAGE := "The run was superseded while repairing duplicate active runs"

  predicate Active(run: Run) {
    run.status == Queued || run.status == Running
  }

  /** The primary key, and error columns that are set together. */
  predicate TableOk(runs: seq<Run>) {
    && (forall i, j | 0 <= i < j < |runs| :: runs[i].id != runs[j].id)
    && (forall i | 0 <= i < |runs| :: runs[i].errorCode.None? <==> runs[i].errorMessage.None?)
  }

  /** What the partial unique index demands. */
  predicate OneActivePerAgent(runs: seq<Run>) {
    forall i, j | 0 <= i < j < |runs| && Active(runs[i]) && Active(runs[j]) :: runs[i].agentId != runs[j].agentId
  }

  /** No active run of the same agent has a greater identifier. */
  predicate Newest(runs: seq<Run>, run: Run) {
    forall other | other in runs && Active(other) && other.agentId == run.agentId :: !I.Less(run.id, other.id)
  }

  function Superseded(run: Run, now: string): Run {
    run.(status := Failed, errorCode := Some(DUPLICATE_CODE), errorMessage := Some(DUPLICATE_MESSAGE),
         completedAt := if run.completedAt.None? then Some(now) else run.completedAt)
  }

  function RepairedRun(runs: seq<Run>, run: Run, now: string): Run {
    if Active(run) && !Newest(runs, run) then Superseded(run, now) else run
  }

  function Repaired(runs: seq<Run>, now: string): (after: seq<Run>)
    ensures |after| == |runs|
    ensures forall i | 0 <= i < |runs| :: after[i] == RepairedRun(runs, runs[i], now)
  {
    seq(|runs|, i requires 0 <= i < |runs| => RepairedRun(runs, runs[i], now))
  }

  /** The largest active identifier of each agent, as the grouped subquery gives it. */
  method GroupMaxima(runs: seq<Run>) returns (maxima: map<string, string>)
    ensures forall run | run in runs && Active(run) :: run.agentId in maxima && !I.Less(maxima[run.agentId], run.id)
    ensures forall agent | agent in maxima ::
              exists run :: run in runs && Active(run) && run.agentId == agent && run.id == maxima[agent]
  {
    maxima := map[];
    for n := 0 to |runs|
      invariant forall i | 0 <= i < n && Active(runs[i]) ::
                  runs[i].agentId in maxima && !I.Less(maxima[runs[i].agentId], runs[i].id)
      invariant forall agent | agent in maxima ::
                  exists i :: 0 <= i < n && Active(runs[i]) && runs[i].agentId == agent && runs[i].id == maxima[agent]
    {
      if Active(runs[n]) && (runs[n].agentId !in maxima || I.Less(maxima[runs[n].agentId], runs[n].id)) {
        forall i | 0 <= i < n && Active(runs[i]) && runs[i].agentId == runs[n].agentId
          ensures !I.Less(runs[n].id, runs[i].id)
        {
          if I.Less(runs[n].id, runs[i].id) {
            I.LessIsTransitive(maxima[runs[n].agentId], runs[n].id, runs[i].id);
          }
        }
        I.LessIsStrict(runs[n].id, runs[n].id);
        maxima := maxima[runs[n].agentId := runs[n].id];
      }
    }
  }

  /** An active run is in the subquery's result exactly when no newer one of its agent is active. */
  lemma InMaximaIffNewest(runs: seq<Run>, maxima: map<string, string>, run: Run)
    requires TableOk(runs) && run in runs && Active(run)
    requires forall r | r in runs && Active(r) :: r.agentId in maxima && !I.Less(maxima[r.agentId], r.id)
    requires forall agent | agent in maxima ::
               exists r :: r in runs && Active(r) && r.agentId == agent && r.id == maxima[agent]
    ensures run.id in maxima.Values <==> Newest(runs, run)
  {
    if run.id in maxima.Values {
      var agent :| agent in maxima && maxima[agent] == run.id;
      var same :| same in runs && Active(same) && same.agentId == agent && same.id == run.id;
      SameIdSameRun(runs, run, same);
    }
    if Newest(runs, run) {
      var top :| top in runs && Active(top) && top.agentId == run.agentId && top.id == maxima[run.agentId];
      I.LessIsTotal(run.id, top.id);
      assert maxima[run.agentId] in maxima.Values;
    }
  }

  lemma SameIdSameRun(runs: seq<Run>, a: Run, b: Run)
    requires TableOk(runs) && a in runs && b in runs && a.id == b.id
    ensures a == b
  {
    var i :| 0 <= i < |runs| && runs[i] == a;
    var j :| 0 <= j < |runs| && runs[j] == b;
    assert i <= j && j <= i;
  }

  /** Each agent with an active run has a newest one. */
  lemma {:induction false} NewestExists(runs: seq<Run>, n: nat, agent: string) returns (top: Run)
    requires n <= |runs| && exists i :: 0 <= i < n && Active(runs[i]) && runs[i].agentId == agent
    ensures top in runs[..n] && Active(top) && top.agentId == agent
    ensures forall i | 0 <= i < n && Active(runs[i]) && runs[i].agentId == agent :: !I.Less(top.id, runs[i].id)
  {
    var last := runs[n - 1];
    var front := exists i :: 0 <= i < n - 1 && Active(runs[i]) && runs[i].agentId == agent;
    I.LessIsStrict(last.id, last.id);
    if !front {
      top := last;
    } else {
      top := NewestExists(runs, n - 1, agent);
      if Active(last) && last.agentId == agent && I.Less(top.id, last.id) {
        forall i | 0 <= i < n && Active(runs[i]) && runs[i].agentId == agent ensures !I.Less(last.id, runs[i].id) {
          if i < n - 1 && I.Less(last.id, runs[i].id) {
            I.LessIsTransitive(top.id, last.id, runs[i].id);
          }
        }
        top := last;
      }
    }
  }

  /** Queued or running, in words of the table. */
  predicate Unfinished(run: Run) {
    run.status != Completed && run.status != Failed && run.status != Cancelled
  }

  /** No run of the same agent that is not finished comes behind it. */
  predicate IsLast(runs: seq<Run>, i: nat)
    requires i < |runs|
  {
    forall j | 0 <= j < |runs| && Unfinished(runs[j]) && runs[j].agentId == runs[i].agentId ::
      !I.Less(runs[i].id, runs[j].id)
  }

  /** A row of the repaired table: only an unfinished run that is not its agent's last is recorded as failed. */
  lemma RepairedRow(runs: seq<Run>, now: string, i: nat)
    requires i < |runs|
    ensures var run, after := runs[i], Repaired(runs, now)[i];
            && after.id == run.id && after.agentId == run.agentId && after.rest == run.rest
            && (!Unfinished(run) || IsLast(runs, i) ==> after == run)
            && (Unfinished(run) && !IsLast(runs, i) ==>
                  && after.status == Failed
                  && after.errorCode == Some("supervisor_recovered_duplicate_active_run")
                  && after.errorMessage == Some("The run was superseded while repairing duplicate active runs")
                  && (run.completedAt.Some? ==> after.completedAt == run.completedAt)
                  && (run.completedAt.None? ==> after.completedAt == Some(now)))
  {
    var run := runs[i];
    assert Newest(runs, run) <==> IsLast(runs, i) by {
      assert forall j | 0 <= j < |runs| :: runs[j] in runs;
      assert forall j | 0 <= j < |runs| :: Active(runs[j]) <==> Unfinished(runs[j]);
    }
  }

  /**
    The repair keeps exactly each agent's newest active run. Every other active
    one ends as failed, with the code and the words of the migration and the
    completion time it had or else gets now; finished runs and all other columns
    stay as they were.
    */
  lemma RepairKeepsNewest(runs: seq<Run>, now: string)
    requires TableOk(runs)
    ensures var after := Repaired(runs, now);
            && TableOk(after) && OneActivePerAgent(after)
            && (forall i | 0 <= i < |runs| :: Active(after[i]) <==> Active(runs[i]) && Newest(runs, runs[i]))
            && (forall i | 0 <= i < |runs| && Active(runs[i]) ::
                  exists j :: 0 <= j < |after| && Active(after[j]) && after[j].agentId == runs[i].agentId)
            && (forall i | 0 <= i < |runs| && (!Unfinished(runs[i]) || IsLast(runs, i)) :: after[i] == runs[i])
            && (forall i | 0 <= i < |runs| :: after[i].id == runs[i].id && after[i].agentId == runs[i].agentId
                                              && after[i].rest == runs[i].rest)
            && (forall i | 0 <= i < |runs| && Unfinished(runs[i]) && !IsLast(runs, i) ::
                  && after[i].status == Failed
                  && after[i].errorCode == Some("supervisor_recovered_duplicate_active_run")
                  && after[i].errorMessage == Some("The run was superseded while repairing duplicate active runs")
                  && (runs[i].completedAt.Some? ==> after[i].completedAt == runs[i].completedAt)
                  && (runs[i].completedAt.None? ==> after[i].completedAt == Some(now)))
  {
    var after := Repaired(runs, now);
    forall i | 0 <= i < |runs| {
      RepairedRow(runs, now, i);
    }
    forall i, j | 0 <= i < j < |after| && Active(after[i]) && Active(after[j])
      ensures after[i].agentId != after[j].agentId
    {
      if after[i].agentId == after[j].agentId {
        assert runs[i] in runs && runs[j] in runs;
        I.LessIsTotal(runs[i].id, runs[j].id);
      }
    }
    forall i | 0 <= i < |runs| && Active(runs[i])
      ensures exists j :: 0 <= j < |after| && Active(after[j]) && after[j].agentId == runs[i].agentId
    {
      var top := NewestExists(runs, |runs|, runs[i].agentId);
      var j :| 0 <= j < |runs| && runs[j] == top;
      assert Newest(runs, top);
      assert Active(after[j]) && after[j].agentId == runs[i].agentId;
    }
  }

  /** The repair changes nothing exactly where no agent has two active runs. */
  lemma RepairIsIdleIff(runs: seq<Run>, now: string)
    requires TableOk(runs)
    ensures Repaired(runs, now) == runs <==> OneActivePerAgent(runs)
  {
    RepairKeepsNewest(runs, now);
    if OneActivePerAgent(runs) {
      forall i | 0 <= i < |runs| && Active(runs[i]) ensures Newest(runs, runs[i]) {
        forall other | other in runs && Active(other) && other.agentId == runs[i].agentId
          ensures !I.Less(runs[i].id, other.id)
        {
          var j :| 0 <= j < |runs| && runs[j] == other;
          assert i == j;
          I.LessIsStrict(other.id, other.id);
        }
      }
    }
  }

  /** What the rest of the migration needs of the repair. */
  lemma RepairSettles(runs: seq<Run>, now: string)
    requires TableOk(runs)
    ensures TableOk(Repaired(runs, now)) && OneActivePerAgent(Repaired(runs, now))
    ensures OneActivePerAgent(runs) ==> Repaired(runs, now) == runs
  {
    RepairKeepsNewest(runs, now);
    RepairIsIdleIff(runs, now);
  }

  /** Tables with their constraints: the unique index, the event trigger, the columns of the agent table. */
  datatype Tables = Tables(
    runs: seq<Run>,
    events: seq<Event>,
    activeIndex: bool,
    eventTrigger: bool,
    agentColumns: seq<string>)

  const DELETED_AT := "deleted_at"

  /** A later write: a new run, a new event, or another status for the run with a key. */
  datatype Write = AddRun(run: Run) | AddEvent(event: Event) | SetStatus(id: string, status: Status)

  predicate Sound(tables: Tables) {
    TableOk(tables.runs) && (tables.activeIndex ==> OneActivePerAgent(tables.runs))
  }

  /** The event names no run, or one of its own agent. */
  predicate Linked(runs: seq<Run>, event: Event) {
    event.runId.Some? ==> exists run :: run in runs && run.id == event.runId.value && run.agentId == event.agentId
  }

  predicate KeyTaken(runs: seq<Run>, id: string) {
    exists run :: run in runs && run.id == id
  }

  /** Another run of the agent than the one with this key is active. */
  predicate Occupied(runs: seq<Run>, agentId: string, id: string) {
    exists run :: run in runs && Active(run) && run.agentId == agentId && run.id != id
  }

  /** What keys, checks, index and trigger let through. */
  predicate Admitted(tables: Tables, write: Write) {
    match write
    case AddRun(run) =>
      && !KeyTaken(tables.runs, run.id) && (run.errorCode.None? <==> run.errorMessage.None?)
      && !(tables.activeIndex && Active(run) && Occupied(tables.runs, run.agentId, run.id))
    case AddEvent(event) => tables.eventTrigger ==> Linked(tables.runs, event)
    case SetStatus(id, status) =>
      forall run | run in tables.runs && run.id == id ::
        !(tables.activeIndex && Active(run.(status := status)) && Occupied(tables.runs, run.agentId, id))
  }

  /** The write with no constraint looked at. */
  function Unchecked(tables: Tables, write: Write): Tables {
    match write
    case AddRun(run) => tables.(runs := tables.runs + [run])
    case AddEvent(event) => tables.(events := tables.events + [event])
    case SetStatus(id, status) => tables.(runs := WithStatus(tables.runs, id, status))
  }

  function WithStatus(runs: seq<Run>, id: string, status: Status): (after: seq<Run>)
    ensures |after| == |runs|
    ensures forall i | 0 <= i < |runs| :: after[i] == if runs[i].id == id then runs[i].(status := status) else runs[i]
  {
    seq(|runs|, i requires 0 <= i < |runs| => if runs[i].id == id then runs[i].(status := status) else runs[i])
  }

  function Written(tables: Tables, write: Write): Tables {
    if Admitted(tables, write) then Unchecked(tables, write) else tables
  }

  function AllWritten(tables: Tables, writes: seq<Write>): Tables
    decreases |writes|
  {
    if writes == [] then tables
    else Written(AllWritten(tables, writes[..|writes| - 1]), writes[|writes| - 1])
  }

  /** A run or a status is refused exactly where taking it would leave the tables unsound. */
  lemma AdmittedIffSound(tables: Tables, write: Write)
    requires Sound(tables) && !write.AddEvent?
    ensures Admitted(tables, write) <==> Sound(Unchecked(tables, write))
  {
    var runs, after := tables.runs, Unchecked(tables, write).runs;
    match write
    case AddRun(run) =>
      assert after[|runs|] == run && forall i | 0 <= i < |runs| :: after[i] == runs[i];
      if Sound(Unchecked(tables, write)) {
        forall r | r in runs ensures r.id != run.id {
          var i :| 0 <= i < |runs| && runs[i] == r;
          assert after[i] == r;
        }
      }
    case SetStatus(id, status) =>
      if j :| 0 <= j < |runs| && runs[j].id == id {
        OneRowChanges(runs, id, status, j);
        forall run | run in runs && run.id == id ensures run == runs[j] {
          SameIdSameRun(runs, run, runs[j]);
        }
      } else {
        assert after == runs;
      }
  }

  /** Only the row with the key can come to stand beside another active one. */
  lemma OneRowChanges(runs: seq<Run>, id: string, status: Status, j: nat)
    requires TableOk(runs) && j < |runs| && runs[j].id == id
    ensures var after := WithStatus(runs, id, status);
            && TableOk(after)
            && (OneActivePerAgent(runs) ==>
                  (OneActivePerAgent(after) <==> !(Active(after[j]) && Occupied(runs, runs[j].agentId, id))))
  {
    var after := WithStatus(runs, id, status);
    assert forall i | 0 <= i < |runs| && i != j :: after[i] == runs[i];
    if OneActivePerAgent(runs) && Active(after[j]) && Occupied(runs, runs[j].agentId, id) {
      var other :| other in runs && Active(other) && other.agentId == runs[j].agentId && other.id != id;
      var i :| 0 <= i < |runs| && runs[i] == other;
      assert after[i] == other && after[j].agentId == other.agentId;
    }
  }

  /**
    Once index and trigger stand, no sequence of writes gives an agent two
    active runs or adds an event whose run its agent does not have; earlier
    events stay as they were, even if they name no such run.
    */
  lemma {:induction false} WritesStayLinked(tables: Tables, writes: seq<Write>)
    requires Sound(tables) && tables.activeIndex && tables.eventTrigger
    ensures var after := AllWritten(tables, writes);
            && Sound(after) && after.activeIndex && after.eventTrigger && OneActivePerAgent(after.runs)
            && tables.events <= after.events
            && (forall e | |tables.events| <= e < |after.events| :: Linked(after.runs, after.events[e]))
            && |tables.runs| <= |after.runs|
            && (forall i | 0 <= i < |tables.runs| ::
                  after.runs[i].id == tables.runs[i].id && after.runs[i].agentId == tables.runs[i].agentId)
  {
    if writes != [] {
      var front, write := writes[..|writes| - 1], writes[|writes| - 1];
      WritesStayLinked(tables, front);
      var before, after := AllWritten(tables, front), AllWritten(tables, writes);
      if Admitted(before, write) {
        if !write.AddEvent? {
          AdmittedIffSound(before, write);
        }
        forall e | |tables.events| <= e < |before.events| ensures Linked(after.runs, after.events[e]) {
          LinksStay(before.runs, after.runs, before.events[e]);
        }
      }
    }
  }

  lemma LinksStay(runs: seq<Run>, after: seq<Run>, event: Event)
    requires Linked(runs, event) && |runs| <= |after|
    requires forall i | 0 <= i < |runs| :: after[i].id == runs[i].id && after[i].agentId == runs[i].agentId
    ensures Linked(after, event)
  {
    if event.runId.Some? {
      var run :| run in runs && run.id == event.runId.value && run.agentId == event.agentId;
      var i :| 0 <= i < |runs| && runs[i] == run;
      assert after[i] in after;
    }
  }

  /** Whether a key is in the table, and where. */
  method FindRun(runs: seq<Run>, id: string) returns (found: Option<nat>)
    ensures found.Some? <==> KeyTaken(runs, id)
    ensures found.Some? ==> found.value < |runs| && runs[found.value].id == id
  {
    for n := 0 to |runs|
      invariant forall i | 0 <= i < n :: runs[i].id != id
    {
      if runs[n].id == id {
        return Some(n);
      }
    }
    found := None;
  }

  method FindOccupant(runs: seq<Run>, agentId: string, id: string) returns (found: bool)
    ensures found == Occupied(runs, agentId, id)
  {
    found := false;
    for n := 0 to |runs|
      invariant !found && forall i | 0 <= i < n :: !(Active(runs[i]) && runs[i].agentId == agentId && runs[i].id != id)
    {
      if Active(runs[n]) && runs[n].agentId == agentId && runs[n].id != id {
        return true;
      }
    }
  }

  class Database {
    var runs: seq<Run>
    var events: seq<Event>
    var activeIndex: bool
    var eventTrigger: bool
    var agentColumns: seq<string>

    ghost function State(): Tables
      reads this
    {
      Tables(runs, events, activeIndex, eventTrigger, agentColumns)
    }

    constructor (columns: seq<string>)
      ensures State() == Tables([], [], false, false, columns) && Sound(State())
    {
      runs, events, activeIndex, eventTrigger, agentColumns := [], [], false, false, columns;
    }

    /** The column is added unless it is there. */
    method AddDeletedAt()
      modifies this`agentColumns
      ensures agentColumns == old(agentColumns) + if DELETED_AT in old(agentColumns) then [] else [DELETED_AT]
    {
      if DELETED_AT !in agentColumns {
        agentColumns := agentColumns + [DELETED_AT];
      }
    }

    /** The update statement: its subquery once, then row by row. */
    method RepairDuplicates(now: string)
      requires Sound(State())
      modifies this`runs
      ensures Sound(State()) && runs == Repaired(old(runs), now)
    {
      var maxima := GroupMaxima(runs);
      for n := 0 to |runs|
        invariant |runs| == |old(runs)|
        invariant forall i | 0 <= i < n :: runs[i] == RepairedRun(old(runs), old(runs)[i], now)
        invariant forall i | n <= i < |runs| :: runs[i] == old(runs)[i]
      {
        if Active(runs[n]) {
          InMaximaIffNewest(old(runs), maxima, runs[n]);
          if runs[n].id !in maxima.Values {
            runs := runs[n := Superseded(runs[n], now)];
          }
        }
      }
      assert runs == Repaired(old(runs), now);
      RepairSettles(old(runs), now);
    }

    /** The partial unique index can be created exactly on a table that satisfies it. */
    method CreateActiveIndex() returns (ok: bool)
      requires Sound(State())
      modifies this`activeIndex
      ensures Sound(State()) && ok == (old(activeIndex) || OneActivePerAgent(runs)) && activeIndex == ok
    {
      if !activeIndex {
        activeIndex := OneActivePerAgent(runs);
      }
      ok := activeIndex;
    }

    /** The whole migration: it cannot fail at the index, touches no event, and changes nothing a second time. */
    method Up(now: string) returns (ok: bool)
      requires Sound(State())
      modifies this
      ensures ok && Sound(State()) && activeIndex && eventTrigger
      ensures runs == Repaired(old(runs), now) && events == old(events)
      ensures agentColumns == old(agentColumns) + if DELETED_AT in old(agentColumns) then [] else [DELETED_AT]
      ensures old(activeIndex && eventTrigger && DELETED_AT in agentColumns) ==> State() == old(State())
    {
      RepairSettles(runs, now);
      AddDeletedAt();
      RepairDuplicates(now);
      ok := CreateActiveIndex();
      eventTrigger := true;
    }

    method InsertRun(run: Run) returns (ok: bool)
      requires Sound(State())
      modifies this`runs
      ensures State() == Written(old(State()), AddRun(run)) && ok == Admitted(old(State()), AddRun(run))
      ensures Sound(State()) && runs == if ok then old(runs) + [run] else old(runs)
    {
      AdmittedIffSound(State(), AddRun(run));
      var found := FindRun(runs, run.id);
      var occupied := FindOccupant(runs, run.agentId, run.id);
      ok := found.None? && run.errorCode.None? == run.errorMessage.None? && !(activeIndex && Active(run) && occupied);
      if ok {
        runs := runs + [run];
      }
    }

    method InsertEvent(event: Event) returns (ok: bool)
      requires Sound(State())
      modifies this`events
      ensures State() == Written(old(State()), AddEvent(event)) && ok == Admitted(old(State()), AddEvent(event))
      ensures Sound(State()) && events == if ok then old(events) + [event] else old(events)
      ensures ok <==>
                || !eventTrigger || event.runId.None?
                || exists i :: 0 <= i < |runs| && runs[i].id == event.runId.value && runs[i].agentId == event.agentId
    {
      ok := true;
      if eventTrigger && event.runId.Some? {
        var found := FindRun(runs, event.runId.value);
        ok := found.Some? && runs[found.value].agentId == event.agentId;
        forall run | found.Some? && run in runs && run.id == event.runId.value ensures run == runs[found.value] {
          SameIdSameRun(runs, run, runs[found.value]);
        }
      }
      if ok {
        events := events + [event];
      }
    }

    method UpdateStatus(id: string, status: Status) returns (ok: bool)
      requires Sound(State())
      modifies this`runs
      ensures State() == Written(old(State()), SetStatus(id, status))
      ensures ok == Admitted(old(State()), SetStatus(id, status))
      ensures Sound(State()) && |runs| == |old(runs)| && (!ok ==> runs == old(runs))
      ensures ok ==> forall i | 0 <= i < |runs| ::
                runs[i] == if old(runs)[i].id == id then old(runs)[i].(status := status) else old(runs)[i]
    {
      AdmittedIffSound(State(), SetStatus(id, status));
      ok := true;
      var found := FindRun(runs, id);
      if found.Some? {
        var n := found.value;
        forall run | run in runs && run.id == id ensures run == runs[n] {
          SameIdSameRun(runs, run, runs[n]);
        }
        var changed := runs[n].(status := status);
        var occupied := FindOccupant(runs, changed.agentId, id);
        ok := !(activeIndex && Active(changed) && occupied);
        if ok {
          runs := runs[n := changed];
        }
        assert runs == if ok then WithStatus(old(runs), id, status) else old(runs);
      } else {
        assert runs == WithStatus(runs, id, status);
      }
    }
  }

  /** Run `i` got its identifier from call `born[i]` of one generator. */
  predicate IssuedTo(calls: seq<I.Call>, runs: seq<Run>, born: seq<nat>) {
    && |born| == |runs| && I.Timely(calls)
    && (forall i | 0 <= i < |runs| :: born[i] < |calls| && runs[i].id == I.Issued(calls, born[i]))
  }

  /** Of two runs, the one whose identifier was issued later has the greater one. */
  predicate IssuedInOrder(calls: seq<I.Call>, earlier: nat, later: nat)
    requires I.Timely(calls) && earlier < |calls| && later < |calls|
  {
    earlier < later && I.InOrder(calls, earlier, later)
  }

  lemma LessIffIssued(calls: seq<I.Call>, runs: seq<Run>, born: seq<nat>, i: nat, j: nat)
    requires IssuedTo(calls, runs, born) && TableOk(runs) && i < |runs| && j < |runs| && i != j
    ensures I.Less(runs[i].id, runs[j].id) <==>
            IssuedInOrder(calls, born[i], born[j]) || (born[j] < born[i] && !I.InOrder(calls, born[j], born[i]))
  {
    assert runs[i].id != runs[j].id;
    if born[i] < born[j] {
      I.LaterIsGreaterIff(calls, born[i], born[j]);
    } else {
      I.LaterIsGreaterIff(calls, born[j], born[i]);
      I.LessIsTotal(runs[i].id, runs[j].id);
      I.LessIsStrict(runs[i].id, runs[j].id);
    }
  }

  /**
    Exactly when a run stays active: each other active run of its agent was
    issued before it and in order, or after it and out of order.
    */
  lemma KeptIffIssued(calls: seq<I.Call>, runs: seq<Run>, born: seq<nat>, i: nat, now: string)
    requires IssuedTo(calls, runs, born) && TableOk(runs) && i < |runs| && Active(runs[i])
    ensures Active(Repaired(runs, now)[i]) <==>
            forall j | 0 <= j < |runs| && j != i && Active(runs[j]) && runs[j].agentId == runs[i].agentId ::
              IssuedInOrder(calls, born[j], born[i]) || (born[i] < born[j] && !I.InOrder(calls, born[i], born[j]))
  {
    RepairKeepsNewest(runs, now);
    forall j | 0 <= j < |runs| && j != i && Active(runs[j]) && runs[j].agentId == runs[i].agentId
      ensures !I.Less(runs[i].id, runs[j].id) <==>
              IssuedInOrder(calls, born[j], born[i]) || (born[i] < born[j] && !I.InOrder(calls, born[i], born[j]))
    {
      LessIffIssued(calls, runs, born, i, j);
      LessIffIssued(calls, runs, born, j, i);
      I.LessIsTotal(runs[i].id, runs[j].id);
      I.LessIsStrict(runs[i].id, runs[j].id);
      assert runs[i].id != runs[j].id;
    }
    I.LessIsStrict(runs[i].id, runs[i].id);
    NewestByIndex(runs, i);
  }

  lemma NewestByIndex(runs: seq<Run>, i: nat)
    requires i < |runs|
    ensures Newest(runs, runs[i]) <==>
            forall j | 0 <= j < |runs| && j != i && Active(runs[j]) && runs[j].agentId == runs[i].agentId ::
              !I.Less(runs[i].id, runs[j].id)
  {
    I.LessIsStrict(runs[i].id, runs[i].id);
    assert forall j | 0 <= j < |runs| :: runs[j] in runs;
  }

  /**
    The repair keeps an agent's last issued run exactly if each other active
    run of the agent has an earlier timestamp or the counter did not start
    over between the two. (Runs in one timestamp are taken to lie fewer calls
    apart than the counter has values; `KeptIffIssued` goes without that.)
    */
  lemma KeptIsLastIssuedIff(calls: seq<I.Call>, runs: seq<Run>, born: seq<nat>, i: nat, now: string)
    requires IssuedTo(calls, runs, born) && TableOk(runs) && i < |runs| && Active(runs[i])
    requires forall j | 0 <= j < |runs| && j != i && Active(runs[j]) && runs[j].agentId == runs[i].agentId ::
               && born[j] < born[i]
               && (I.ClockAfter(calls, born[j] + 1).lastTimestamp == I.ClockAfter(calls, born[i] + 1).lastTimestamp ==>
                     born[i] - born[j] < I.COUNTER_RANGE)
    ensures Active(Repaired(runs, now)[i]) <==>
            forall j | 0 <= j < |runs| && j != i && Active(runs[j]) && runs[j].agentId == runs[i].agentId ::
              || I.ClockAfter(calls, born[j] + 1).lastTimestamp < I.ClockAfter(calls, born[i] + 1).lastTimestamp
              || I.NoWrap(calls, born[j], born[i])
  {
    KeptIffIssued(calls, runs, born, i, now);
    forall j | 0 <= j < |runs| && j != i && Active(runs[j]) && runs[j].agentId == runs[i].agentId
      ensures I.InOrder(calls, born[j], born[i]) <==>
              || I.ClockAfter(calls, born[j] + 1).lastTimestamp < I.ClockAfter(calls, born[i] + 1).lastTimestamp
              || I.NoWrap(calls, born[j], born[i])
    {
      I.InOrderIffNoWrap(calls, born[j], born[i]);
    }
  }

  /** Where the counter does start over, the older of two runs is kept and the newer one fails. */
  lemma WrapKeepsTheOlder(time: nat, word: I.Call, older: Run, newer: Run, now: string)
    requires time < I.TIME_RANGE && I.CallOk(word) && word.now <= time
    requires Active(older) && Active(newer) && older.agentId == newer.agentId
    requires older.errorCode.None? && older.errorMessage.None? && newer.errorCode.None? && newer.errorMessage.None?
    requires var calls := [I.Call(time, 0xFFF, word.noise), word];
             older.id == I.Issued(calls, 0) && newer.id == I.Issued(calls, 1)
    ensures Repaired([older, newer], now) == [older, Superseded(newer, now)]
  {
    var calls := [I.Call(time, 0xFFF, word.noise), word];
    var first := I.ClockAfter(calls, 1);
    assert I.ClockAfter(calls, 0) == I.NEW_CLOCK;
    assert first == I.Next(I.NEW_CLOCK, time, 0xFFF) == I.Clock(time, 0xFFF);
    var second := I.ClockAfter(calls, 2);
    assert second == I.Next(first, word.now, word.word) == I.Clock(time, 0);
    I.IdsAscend(second, first, word.noise, word.noise);
    I.LessIsStrict(older.id, older.id);
    var runs := [older, newer];
    assert Newest(runs, older) && !Newest(runs, newer) by {
      assert older in runs;
    }
  }
}
