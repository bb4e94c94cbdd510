/** What the updates of a run carry: the rows reported dirty, or all of them exactly where that is called for. */
module UpdateContents {
  import opened Bytes
  import opened RenderModel
  import opened PackedUpdate
  import opened NativeTerminal
  import opened CoreModel
  import opened ReplicaAgreement
  import V = ViewportModel

  /** The row is reported dirty, by its own flag or with everything else. */
  predicate Pending(render: Render, r: nat) {
    render.level == Full || (r < U32_RANGE && r in render.rowDirty)
  }

  lemma {:induction false} AllRowsIffAsMany(d: set<U32>, n: U16)
    requires forall r | r in d :: r < n
    ensures |d| <= n
    ensures |d| == n <==> forall r: U32 | r < n :: r in d
  {
    if n == 0 {
      assert d == {};
    } else {
      AllRowsIffAsMany(d - {n - 1}, n - 1);
      if n - 1 !in d {
        assert d - {n - 1} == d;
      }
    }
  }

  /** When a frame of the whole grid with these dirty rows is sent as a full one. */
  lemma SendsFullIff(core: Core, s: Snapshot, forceFull: bool)
    requires forall r | r in s.dirtyRows :: r < s.rows
    ensures SendsFull(core, s, forceFull) <==>
              || forceFull || core.frameId == 0 || s.cols != core.updateCols || s.rows != core.updateRows
              || forall r: U32 | r < s.rows :: r in s.dirtyRows
  {
    AllRowsIffAsMany(s.dirtyRows, s.rows);
  }

  lemma PackCarries(s: Snapshot, frameId: int, generation: int, full: bool)
    requires forall r | r in s.dirtyRows :: r < s.rows
    ensures var u := Pack(s, frameId, generation, full);
            && u.full == full && StrictlyIncreasing(u.dirtyRows)
            && forall r: nat :: r in u.dirtyRows <==> r < s.rows && (full || (r < U32_RANGE && r in s.dirtyRows))
  {
    SortRowsSorts(s.dirtyRows);
    hide FlatCells, RowFlags;
    var rows := AllRows(s.rows);
    forall r: nat | r < s.rows ensures r in rows {
      assert rows[r] == r;
    }
  }

  lemma ReadPending(core: Core, render: Render, consume: bool)
    requires CacheAgrees(core, render)
    ensures var read := ReadSnapshot(core, render, consume);
            && read.snapshot.cols == render.grid.cols && read.snapshot.rows == render.grid.rows
            && read.core.frameId == core.frameId
            && read.core.updateCols == core.updateCols && read.core.updateRows == core.updateRows
            && (forall r | r in read.snapshot.dirtyRows :: r < render.grid.rows)
            && forall r: U32 | r < render.grid.rows :: r in read.snapshot.dirtyRows <==> Pending(render, r)
  {
    SnapshotReadsGrid(core, render, consume);
    RowsToReadArePending(render);
    hide ReadSnapshot, RowsToRead;
  }

  /** What an update carries: the rows reported dirty, or all of them where it is full. */
  ghost predicate Carries(u: Packed, render: Render, called: bool) {
    && (u.full <==> called || forall r: U32 | r < render.grid.rows :: Pending(render, r))
    && StrictlyIncreasing(u.dirtyRows)
    && forall r: nat :: r in u.dirtyRows <==> r < render.grid.rows && (u.full || Pending(render, r))
  }

  lemma CarriesPending(u: Packed, dirty: set<U32>, render: Render, called: bool)
    requires forall r: U32 | r < render.grid.rows :: r in dirty <==> Pending(render, r)
    requires u.full <==> called || forall r: U32 | r < render.grid.rows :: r in dirty
    requires StrictlyIncreasing(u.dirtyRows)
    requires forall r: nat :: r in u.dirtyRows <==> r < render.grid.rows && (u.full || (r < U32_RANGE && r in dirty))
    ensures Carries(u, render, called)
  {
    hide Pending, StrictlyIncreasing;
    forall r: nat ensures r in u.dirtyRows <==> r < render.grid.rows && (u.full || Pending(render, r)) {
      if r < render.grid.rows {
        var row: U32 := r;
        assert row in dirty <==> Pending(render, row);
      }
    }
  }

  lemma UpdateCarries(core: Core, render: Render, consume: bool, forceFull: bool)
    requires CacheAgrees(core, render)
    ensures Carries(NextUpdate(core, render, consume, forceFull).update, render,
                    || forceFull || core.frameId == 0
                    || render.grid.cols != core.updateCols || render.grid.rows != core.updateRows)
  {
    ReadPending(core, render, consume);
    hide ReadSnapshot, SendsFull, Pack, Pending, StrictlyIncreasing, NextFrame, CacheAgrees, Carries, IncludedRows;
    var read := ReadSnapshot(core, render, consume);
    var next, full := NextFrame(read.core, read.snapshot), SendsFull(read.core, read.snapshot, forceFull);
    SendsFullIff(read.core, read.snapshot, forceFull);
    PackCarries(read.snapshot, next.frameId, next.generation, full);
    CarriesPending(Pack(read.snapshot, next.frameId, next.generation, full), read.snapshot.dirtyRows, render,
                   || forceFull || core.frameId == 0
                   || render.grid.cols != core.updateCols || render.grid.rows != core.updateRows);
  }

  /** The size of the last update delivered is another one, or there is none. */
  predicate NewSize(delivered: seq<Delivery>, grid: Grid) {
    delivered == []
    || delivered[|delivered| - 1].update.cols != grid.cols || delivered[|delivered| - 1].update.rows != grid.rows
  }

  lemma DeliveredCarries(sys: System, event: Event)
    requires Inv(sys) && CountsOn(sys.delivered, sys.core) && Delivers(sys, event)
    ensures var next := Step(sys, event);
            && |next.delivered| == |sys.delivered| + 1
            && Carries(next.delivered[|sys.delivered|].update, sys.render,
                       event.forceFull || NewSize(sys.delivered, sys.render.grid))
  {
    hide Inv, Step, NextUpdate, CacheAgrees, CacheShape, Carries, CountsSizes, V.Valid;
    InvCounters(sys);
    UpdateCarries(sys.core, sys.render, event.consume, event.forceFull);
    var more := RequestSteps(sys, event);
  }

  lemma {:induction false} RunUpTo(states: seq<System>, events: seq<Event>, i: nat, n: nat)
    requires i <= n <= |events| < |states| && IsRun(states, events, n)
    ensures IsRun(states, events, i)
  {
    hide Follows;
    if i < n {
      RunUpTo(states, events, i, n - 1);
    }
  }

  /**
    Over any run: a request that delivers sends exactly the rows reported dirty,
    in ascending order. It sends all of them where that was asked for, where the
    size is new, or where every row is dirty, and says so exactly then.
    */
  lemma RequestCarries(states: seq<System>, events: seq<Event>, i: nat, n: nat)
    requires i < n <= |events| < |states| && |events| <= MAX_SAFE_INTEGER && IsRun(states, events, n)
    requires Delivers(states[i], events[i])
    ensures |states[i].delivered| < |states[n].delivered|
    ensures var render, u := states[i].render, states[n].delivered[|states[i].delivered|].update;
            && (u.full <==> || events[i].forceFull || NewSize(states[i].delivered, render.grid)
                            || forall r: U32 | r < render.grid.rows :: Pending(render, r))
            && StrictlyIncreasing(u.dirtyRows)
            && forall r: nat :: r in u.dirtyRows <==> r < render.grid.rows && (u.full || Pending(render, r))
  {
    hide Step, Delivers, Pending, StrictlyIncreasing, NewSize, CountsOn, Inv, CacheShape, V.Valid, Follows;
    DeliveriesStay(states, events, i + 1, n);
    StepOfRun(states, events, n, i);
    RunUpTo(states, events, i, n);
    RunKeeps(states, events, i);
    RunCountsOn(states, events, i);
    DeliveredCarries(states[i], events[i]);
    var k := |states[i].delivered|;
    assert states[n].delivered[k] == states[i + 1].delivered[k];
  }
}
