/**
  Runs of the whole pipeline: the terminal changes, is inspected, is asked for
  updates; each update is delivered under a lease, waits, and is applied by a
  replica later, which then gives the lease back. Whatever the interleaving, the
  replica shows at each update the grid that update was built from.
  */
module ReplicaAgreement {
  import opened Bytes
  import opened Options
  import opened RenderModel
  import opened PackedUpdate
  import opened NativeTerminal
  import opened CoreModel
  import R = LeaseRing
  import V = ViewportModel

  const SLOT_COUNT := 3

  /** An update handed out: its lease, its contents, and the grid it was built from. */
  datatype Delivery = Delivery(ticket: R.Ticket, update: Packed, grid: Grid)

  /** `delivered` lists all updates so far; the replica has applied the first `taken` of them. */
  datatype System = System(
    render: Render,
    core: Core,
    ring: R.Ring,
    delivered: seq<Delivery>,
    taken: nat,
    replica: V.Viewport)

  datatype Event =
    | Mutate(next: Render)                                  // write, resize, theme, scroll, ...
    | DropCache(next: Render)                               // reset or restored terminal: everything is dirty
    | Inspect                                               // snapshot(false)
    | Request(consume: bool, forceFull: bool)               // tryRenderUpdate
    | Take                                                  // the replica applies the update that waited longest
    | GiveBack(slotId: int, token: int, buffersOk: bool)    // a lease comes back, or something that is none

  predicate Delivers(sys: System, event: Event) {
    event.Request? && R.FirstFree(sys.ring.slots) < |sys.ring.slots|
  }

  /** The system after a delivery. */
  function Delivered(sys: System, next: UpdateResult, more: Delivery): System {
    sys.(render := next.render, core := next.core, ring := R.Acquire(sys.ring).1, delivered := sys.delivered + [more])
  }

  function Step(sys: System, event: Event): System
    requires CacheShape(sys.core) && V.Valid(sys.replica)
  {
    match event
    case Mutate(next) => sys.(render := next)
    case DropCache(next) => sys.(render := next, core := sys.core.(rows := []))
    case Inspect =>
      var read := ReadSnapshot(sys.core, sys.render, false);
      sys.(core := read.core, render := read.render)
    case Request(consume, forceFull) =>
      var ticket := R.Acquire(sys.ring).0;
      if ticket.None? then sys
      else
        var next := NextUpdate(sys.core, sys.render, consume, forceFull);
        Delivered(sys, next, Delivery(ticket.value, next.update, sys.render.grid))
    case Take =>
      if sys.taken < |sys.delivered| then
        sys.(replica := V.Apply(sys.replica, sys.delivered[sys.taken].update).1, taken := sys.taken + 1)
      else sys
    case GiveBack(slotId, token, buffersOk) => sys.(ring := R.Return(sys.ring, slotId, token, buffersOk).1)
  }

  /**
    Environment steps obey the native assumptions, payload offsets fit 32 bits,
    and the lease of an update is given back only after the update was applied.
    */
  ghost predicate Possible(sys: System, event: Event)
    requires CacheShape(sys.core)
  {
    match event
    case Mutate(next) => Advances(sys.render, next)
    case DropCache(next) => RenderOk(next) && next.level == Full
    case Request(consume, forceFull) =>
      Delivers(sys, event) ==>
        |NextUpdate(sys.core, sys.render, consume, forceFull).update.graphemes| < U32_RANGE
    case GiveBack(slotId, token, _) =>
      forall k | sys.taken <= k < |sys.delivered| :: sys.delivered[k].ticket != (slotId, token)
    case _ => true
  }

  /** Unless everything is dirty, the cache holds every unflagged row as visible. */
  ghost predicate CacheAgrees(core: Core, render: Render) {
    && CacheShape(core) && RenderOk(render)
    && (render.level != Full ==>
          && core.colors == Some(ColorsOf(render.grid))
          && core.rowCols == render.grid.cols && |core.rows| == render.grid.rows
          && forall r: U32 | r < render.grid.rows && r !in render.rowDirty ::
               core.rows[r] == VisibleRow(render.grid.lines[r], render.grid.cols, ColorsOf(render.grid)))
  }

  /** Unless everything is dirty, the replica shows every unflagged row. */
  ghost predicate ReplicaAgrees(core: Core, render: Render, replica: V.Viewport)
    requires RenderOk(render)
  {
    && V.Valid(replica)
    && replica.frameId == core.frameId && replica.generation == core.generation
    && core.generation <= core.frameId
    && (core.frameId == 0 <==> core.generation == 0)
    && (core.frameId > 0 ==> replica.cols == core.updateCols && replica.rows == core.updateRows)
    && (render.level != Full ==>
          && core.frameId > 0
          && replica.cols == render.grid.cols && replica.rows == render.grid.rows
          && forall r: U32 | r < render.grid.rows && r !in render.rowDirty ::
               V.Shows(replica, VisibleGrid(render.grid, {}), r))
  }

  /** A replica that has applied the first `k` updates, from the empty one on. */
  function Replayed(delivered: seq<Delivery>, k: nat): (v: V.Viewport)
    requires k <= |delivered|
    ensures V.Valid(v)
  {
    if k == 0 then V.EMPTY
    else
      var before := Replayed(delivered, k - 1);
      V.ApplyIsSound(before, delivered[k - 1].update);
      V.Apply(before, delivered[k - 1].update).1
  }

  ghost predicate ShowsGrid(replica: V.Viewport, grid: Grid) {
    |grid.lines| == grid.rows && V.ShowsAll(replica, VisibleGrid(grid, {}))
  }

  /** The rows alone; a moved cursor need not make anything dirty. */
  ghost predicate ShowsRows(replica: V.Viewport, grid: Grid) {
    && |grid.lines| == grid.rows && V.Valid(replica) && replica.cols == grid.cols && replica.rows == grid.rows
    && forall r | 0 <= r < grid.rows :: V.Shows(replica, VisibleGrid(grid, {}), r)
  }

  ghost predicate IsShownBy(replica: V.Viewport, delivery: Delivery, number: nat) {
    replica.frameId == number && delivery.update.frameId == number && ShowsGrid(replica, delivery.grid)
  }

  /**
    Each of the first `n` updates carries its number, and a replica that applies
    it in its turn takes it and shows the grid it was built from.
    */
  ghost predicate AllShown(delivered: seq<Delivery>, n: nat)
    requires n <= |delivered|
  {
    n == 0
    || (AllShown(delivered, n - 1)
        && IsShownBy(Replayed(delivered, n), delivered[n - 1], n))
  }

  /** The ticket is the one its slot is in flight under. */
  predicate Current(slots: seq<R.SlotState>, ticket: R.Ticket) {
    ticket.0 < |slots| && slots[ticket.0] == R.SlotState(true, ticket.1)
  }

  /** Updates not applied yet hold slots of their own. */
  ghost predicate Queued(slots: seq<R.SlotState>, queue: seq<Delivery>) {
    && (forall k | 0 <= k < |queue| :: Current(slots, queue[k].ticket))
    && (forall j, k | 0 <= j < k < |queue| :: queue[j].ticket.0 != queue[k].ticket.0)
  }

  function Queue(sys: System): seq<Delivery>
    requires sys.taken <= |sys.delivered|
  {
    sys.delivered[sys.taken..]
  }

  /** The lease side of a system: counts balance, one lease for each update, waiting ones still hold theirs. */
  ghost predicate LeasesOk(sys: System) {
    && |sys.ring.slots| == SLOT_COUNT && R.CountsOk(sys.ring)
    && sys.ring.leasesBuilt == |sys.delivered| == sys.core.frameId
    && sys.taken <= |sys.delivered|
    && Queued(sys.ring.slots, Queue(sys))
  }

  ghost predicate Inv(sys: System) {
    && CacheAgrees(sys.core, sys.render)
    && ReplicaAgrees(sys.core, sys.render, Replayed(sys.delivered, |sys.delivered|))
    && LeasesOk(sys)
    && sys.replica == Replayed(sys.delivered, sys.taken)
    && AllShown(sys.delivered, |sys.delivered|)
  }

  /** Before the first frame: nothing cached, nothing shown, everything dirty. */
  ghost predicate Initial(sys: System) {
    && RenderOk(sys.render) && sys.render.level == Full
    && sys == System(sys.render, NEW_CORE, R.NewRing(SLOT_COUNT), [], 0, V.EMPTY)
  }

  lemma InitialInv(sys: System)
    requires Initial(sys)
    ensures Inv(sys)
  {
    R.NothingInFlight(SLOT_COUNT);
  }

  /** The cache a snapshot reads into has the grid's size and colors. */
  lemma SizedCacheFits(core: Core, render: Render)
    requires CacheAgrees(core, render)
    ensures var sized := SizedCache(core, render);
            && sized.colors == Some(ColorsOf(render.grid))
            && sized.rowCols == render.grid.cols && |sized.rows| == render.grid.rows
            && (render.level != Full ==> sized == core)
  {
  }

  lemma RowsToReadArePending(render: Render)
    requires RenderOk(render)
    ensures forall r: U32 :: r in RowsToRead(render, render.grid.rows)
                             <==> r < render.grid.rows && (render.level == Full || r in render.rowDirty)
  {
    if render.level == Clean {
      assert forall r: U32 :: r !in render.rowDirty;
    }
  }

  /** After its reads the cache equals the visible rows. */
  lemma ReadRowsAreVisible(core: Core, render: Render, r: nat)
    requires CacheAgrees(core, render) && r < render.grid.rows
    ensures ReadSnapshot(core, render, false).snapshot.rowData[r]
            == VisibleRow(render.grid.lines[r], render.grid.cols, ColorsOf(render.grid))
  {
    var sized := SizedCache(core, render);
    SizedCacheFits(core, render);
    RowsToReadArePending(render);
    assert sized.rows[r] in sized.rows;
  }

  /** What a snapshot call leaves behind. */
  ghost predicate ReadsGrid(core: Core, render: Render, consume: bool, read: SnapshotResult)
    requires RenderOk(render)
  {
    && read.snapshot == VisibleGrid(render.grid, read.snapshot.dirtyRows)
    && read.snapshot.dirtyRows == RowsToRead(render, render.grid.rows)
    && read.core == core.(rows := read.snapshot.rowData, rowCols := render.grid.cols,
                          colors := Some(ColorsOf(render.grid)))
    && read.render == if consume then Render(render.grid, Clean, {}) else render
  }

  /** A snapshot reads the visible grid, whatever the pending dirtiness. */
  lemma SnapshotReadsGrid(core: Core, render: Render, consume: bool)
    requires CacheAgrees(core, render)
    ensures ReadsGrid(core, render, consume, ReadSnapshot(core, render, consume))
  {
    var read := ReadSnapshot(core, render, consume);
    var visible := VisibleGrid(render.grid, read.snapshot.dirtyRows);
    SizedCacheFits(core, render);
    RowsToReadArePending(render);
    forall r | 0 <= r < render.grid.rows ensures read.snapshot.rowData[r] == visible.rowData[r] {
      ReadRowsAreVisible(core, render, r);
    }
    assert read.snapshot.rowData == visible.rowData;
    assert render.rowDirty - RowsToRead(render, render.grid.rows) == {};
  }

  lemma ReadCacheAgrees(core: Core, render: Render, consume: bool, read: SnapshotResult)
    requires RenderOk(render) && ReadsGrid(core, render, consume, read)
    ensures CacheAgrees(read.core, read.render) && V.Complete(read.snapshot)
  {
    assert forall r | 0 <= r < render.grid.rows ::
        read.core.rows[r] == VisibleRow(render.grid.lines[r], render.grid.cols, ColorsOf(render.grid));
  }

  /** A mutation keeps what a replica shows: new differences are flagged. */
  lemma MutateKeeps(core: Core, render: Render, next: Render, replica: V.Viewport)
    requires CacheAgrees(core, render) && ReplicaAgrees(core, render, replica) && Advances(render, next)
    ensures CacheAgrees(core, next) && ReplicaAgrees(core, next, replica)
  {
    if next.level != Full {
      var before := VisibleGrid(render.grid, {});
      var after := VisibleGrid(next.grid, {});
      forall r: U32 | r < next.grid.rows && r !in next.rowDirty
        ensures V.Shows(replica, after, r)
      {
        assert V.Shows(replica, before, r);
        assert before.rowData[r] == after.rowData[r];
      }
    }
  }

  /** With everything dirty nothing is promised of cache and replica but the counters. */
  lemma DropKeeps(core: Core, render: Render, next: Render, replica: V.Viewport)
    requires CacheAgrees(core, render) && ReplicaAgrees(core, render, replica) && RenderOk(next) && next.level == Full
    ensures CacheAgrees(core.(rows := []), next) && ReplicaAgrees(core.(rows := []), next, replica)
  {
  }

  /** The visible grid packs to a valid update under valid numbers. */
  lemma GridPacks(grid: Grid, dirty: set<U32>, frameId: nat, generation: nat, full: bool)
    requires 1 <= grid.cols && 1 <= grid.rows && |grid.lines| == grid.rows
    requires 1 <= frameId <= MAX_SAFE_INTEGER && 1 <= generation <= MAX_SAFE_INTEGER
    requires full || forall r | r in dirty :: r < grid.rows
    ensures var u := Pack(VisibleGrid(grid, dirty), frameId, generation, full);
            && WellFormedUpdate(u) && u.frameId == frameId && u.generation == generation
            && u.cols == grid.cols && u.rows == grid.rows && u.full == full
  {
    hide WellFormedUpdate, VisibleRow;
    PackValidatesIff(VisibleGrid(grid, dirty), frameId, generation, full);
  }

  /** What one more frame does to the counters. */
  lemma FrameCounts(core: Core, s: Snapshot)
    requires core.generation <= core.frameId
    ensures var next := NextFrame(core, s);
            && next.frameId == core.frameId + 1 && next.updateCols == s.cols && next.updateRows == s.rows
            && core.generation <= next.generation && 1 <= next.generation <= next.frameId
            && (core.generation == 0 || s.cols != core.updateCols || s.rows != core.updateRows ==>
                  next.generation == core.generation + 1)
            && (core.generation > 0 && s.cols == core.updateCols && s.rows == core.updateRows ==>
                  next.generation == core.generation)
            && next.rows == core.rows && next.rowCols == core.rowCols && next.colors == core.colors
  {
  }

  /** Agreement of the cache does not depend on the counters. */
  lemma CountersDoNotMatter(core: Core, other: Core, render: Render)
    requires CacheAgrees(core, render)
    requires other.rows == core.rows && other.rowCols == core.rowCols && other.colors == core.colors
    ensures CacheAgrees(other, render)
  {
  }

  /** The next update is always taken by a replica that follows the stream. */
  lemma NextUpdateAdmitted(core: Core, render: Render, replica: V.Viewport, consume: bool, forceFull: bool)
    requires CacheAgrees(core, render) && ReplicaAgrees(core, render, replica)
    requires core.frameId < MAX_SAFE_INTEGER
    ensures V.Admits(replica, NextUpdate(core, render, consume, forceFull).update)
  {
    SnapshotReadsGrid(core, render, consume);
    RowsToReadArePending(render);
    hide V.Shows, WellFormedUpdate, RowsToRead, VisibleGrid, Pack, ReadSnapshot;
    var read := ReadSnapshot(core, render, consume);
    FrameCounts(read.core, read.snapshot);
    var next := NextFrame(read.core, read.snapshot);
    GridPacks(render.grid, read.snapshot.dirtyRows, next.frameId, next.generation,
              SendsFull(read.core, read.snapshot, forceFull));
  }

  /** Showing depends on the rows shown, not on which of them were dirty. */
  lemma ShowsAllOfGrid(replica: V.Viewport, grid: Grid, dirty: set<U32>)
    requires |grid.lines| == grid.rows
    requires V.ShowsAll(replica, VisibleGrid(grid, dirty))
    ensures ShowsGrid(replica, grid)
  {
    var s := VisibleGrid(grid, dirty);
    var visible := VisibleGrid(grid, {});
    assert s.rowData == visible.rowData;
    forall r | 0 <= r < grid.rows ensures V.Shows(replica, visible, r) {
      assert V.Shows(replica, s, r);
    }
  }

  lemma VisibleComplete(grid: Grid, dirty: set<U32>)
    requires |grid.lines| == grid.rows
    ensures V.Complete(VisibleGrid(grid, dirty))
  {
    hide VisibleRow;
  }

  lemma SameRowShows(v: V.Viewport, s: Snapshot, other: Snapshot, r: nat)
    requires V.Valid(v) && r < v.rows && r < |s.rowData| == |other.rowData| && s.rowData[r] == other.rowData[r]
    requires V.Shows(v, s, r)
    ensures V.Shows(v, other, r)
  {
  }

  /** An admitted update of the grid shows all of it, given the rows it leaves out. */
  lemma GridDelivered(grid: Grid, dirty: set<U32>, replica: V.Viewport, frameId: int, generation: int, full: bool)
    requires |grid.lines| == grid.rows && V.Valid(replica)
    requires var u := Pack(VisibleGrid(grid, dirty), frameId, generation, full);
             V.Admits(replica, u) && |u.graphemes| < U32_RANGE
    requires !full ==> forall r: U32 | r < grid.rows && r !in dirty :: V.Shows(replica, VisibleGrid(grid, {}), r)
    ensures var (accepted, after) := V.Apply(replica, Pack(VisibleGrid(grid, dirty), frameId, generation, full));
            accepted && ShowsGrid(after, grid)
  {
    VisibleComplete(grid, dirty);
    assert !full ==> replica.cols == grid.cols && replica.rows == grid.rows;
    hide V.Apply, V.Admits, V.Valid, V.Shows, Pack, WellFormedUpdate, V.Complete, VisibleRow;
    var s := VisibleGrid(grid, dirty);
    if !full {
      forall r | 0 <= r < s.rows && r !in s.dirtyRows ensures V.Shows(replica, s, r) {
        SameRowShows(replica, VisibleGrid(grid, {}), s, r);
      }
    }
    V.DeliveryAgrees(replica, s, frameId, generation, full);
    ShowsAllOfGrid(V.Apply(replica, Pack(s, frameId, generation, full)).1, grid, dirty);
  }

  /** A delivery shows the whole grid. */
  lemma DeliveryShowsGrid(core: Core, render: Render, replica: V.Viewport, consume: bool, forceFull: bool)
    requires CacheAgrees(core, render) && ReplicaAgrees(core, render, replica)
    requires core.frameId < MAX_SAFE_INTEGER
    requires |NextUpdate(core, render, consume, forceFull).update.graphemes| < U32_RANGE
    ensures var (accepted, after) := V.Apply(replica, NextUpdate(core, render, consume, forceFull).update);
            accepted && ShowsGrid(after, render.grid)
  {
    NextUpdateAdmitted(core, render, replica, consume, forceFull);
    SnapshotReadsGrid(core, render, consume);
    RowsToReadArePending(render);
    var read := ReadSnapshot(core, render, consume);
    ReadCacheAgrees(core, render, consume, read);
    hide ReadSnapshot, V.Apply, WellFormedUpdate, Pack, V.Shows;
    var next := NextFrame(read.core, read.snapshot);
    var full := SendsFull(read.core, read.snapshot, forceFull);
    GridDelivered(render.grid, read.snapshot.dirtyRows, replica, next.frameId, next.generation, full);
  }

  /** Frame numbers advance by one; generations count the grid sizes seen. */
  lemma NextUpdateCounts(core: Core, render: Render, consume: bool, forceFull: bool)
    requires CacheAgrees(core, render) && core.generation <= core.frameId
    ensures var next := NextUpdate(core, render, consume, forceFull);
            && next.update.frameId == next.core.frameId == core.frameId + 1
            && next.update.generation == next.core.generation && 1 <= next.core.generation <= next.core.frameId
            && next.update.cols == next.core.updateCols == render.grid.cols
            && next.update.rows == next.core.updateRows == render.grid.rows
            && next.render.grid == render.grid && CacheAgrees(next.core, next.render)
            && (core.generation == 0 || render.grid.cols != core.updateCols || render.grid.rows != core.updateRows ==>
                  next.core.generation == core.generation + 1)
            && (core.generation > 0 && render.grid.cols == core.updateCols && render.grid.rows == core.updateRows ==>
                  next.core.generation == core.generation)
  {
    SnapshotReadsGrid(core, render, consume);
    var read := ReadSnapshot(core, render, consume);
    ReadCacheAgrees(core, render, consume, read);
    hide VisibleGrid, RowsToRead, ReadSnapshot, NextFrame;
    FrameCounts(read.core, read.snapshot);
    CountersDoNotMatter(read.core, NextFrame(read.core, read.snapshot), read.render);
  }

  /** The counters of replica and core move together. */
  lemma DeliveryCounts(core: Core, render: Render, replica: V.Viewport, consume: bool, forceFull: bool)
    requires CacheAgrees(core, render) && ReplicaAgrees(core, render, replica)
    requires core.frameId < MAX_SAFE_INTEGER
    ensures var next := NextUpdate(core, render, consume, forceFull);
            var after := V.Apply(replica, next.update).1;
            && after.frameId == next.core.frameId == next.update.frameId == core.frameId + 1
            && after.generation == next.core.generation && 1 <= next.core.generation <= next.core.frameId
            && after.cols == next.core.updateCols && after.rows == next.core.updateRows
            && next.render.grid == render.grid && CacheAgrees(next.core, next.render)
  {
    NextUpdateAdmitted(core, render, replica, consume, forceFull);
    NextUpdateCounts(core, render, consume, forceFull);
    V.AppliedHeader(replica, NextUpdate(core, render, consume, forceFull).update);
  }

  lemma ShowingReplicaAgrees(core: Core, render: Render, replica: V.Viewport)
    requires RenderOk(render) && ShowsGrid(replica, render.grid)
    requires replica.frameId == core.frameId && replica.generation == core.generation
    requires 1 <= core.generation <= core.frameId
    requires replica.cols == core.updateCols && replica.rows == core.updateRows
    ensures ReplicaAgrees(core, render, replica)
  {
    forall r: U32 | r < render.grid.rows ensures V.Shows(replica, VisibleGrid(render.grid, {}), r) {
    }
  }

  /** Applying updates does not depend on later ones. */
  lemma {:induction false} ReplayedPrefix(delivered: seq<Delivery>, more: Delivery, k: nat)
    requires k <= |delivered|
    ensures Replayed(delivered + [more], k) == Replayed(delivered, k)
  {
    if k > 0 {
      ReplayedPrefix(delivered, more, k - 1);
    }
  }

  lemma {:induction false} AllShownStays(delivered: seq<Delivery>, more: Delivery, n: nat)
    requires n <= |delivered| && AllShown(delivered, n)
    ensures AllShown(delivered + [more], n)
  {
    hide IsShownBy, V.Apply;
    if n > 0 {
      AllShownStays(delivered, more, n - 1);
      ReplayedPrefix(delivered, more, n);
    }
  }

  lemma {:induction false} AllShownAt(delivered: seq<Delivery>, n: nat, k: nat)
    requires k < n <= |delivered| && AllShown(delivered, n)
    ensures IsShownBy(Replayed(delivered, k + 1), delivered[k], k + 1)
  {
    hide IsShownBy, Replayed;
    if k < n - 1 {
      AllShownAt(delivered, n - 1, k);
    }
  }

  /** One delivery: the replica takes it, shows the grid, and agrees with the new cache and counters. */
  lemma DeliveryAgreesOn(core: Core, render: Render, replica: V.Viewport, consume: bool, forceFull: bool)
    returns (after: V.Viewport)
    requires CacheAgrees(core, render) && ReplicaAgrees(core, render, replica) && core.frameId < MAX_SAFE_INTEGER
    requires |NextUpdate(core, render, consume, forceFull).update.graphemes| < U32_RANGE
    ensures var next := NextUpdate(core, render, consume, forceFull);
            && after == V.Apply(replica, next.update).1
            && next.update.frameId == next.core.frameId == core.frameId + 1 == after.frameId
            && CacheAgrees(next.core, next.render) && ReplicaAgrees(next.core, next.render, after)
            && ShowsGrid(after, render.grid)
  {
    var next := NextUpdate(core, render, consume, forceFull);
    after := V.Apply(replica, next.update).1;
    DeliveryShowsGrid(core, render, replica, consume, forceFull);
    DeliveryCounts(core, render, replica, consume, forceFull);
    ShowingReplicaAgrees(next.core, next.render, after);
  }

  lemma ReplayedOneMore(delivered: seq<Delivery>, more: Delivery)
    ensures Replayed(delivered + [more], |delivered| + 1)
            == V.Apply(Replayed(delivered, |delivered|), more.update).1
  {
    ReplayedPrefix(delivered, more, |delivered|);
  }

  lemma AllShownOneMore(delivered: seq<Delivery>, more: Delivery, after: V.Viewport)
    requires AllShown(delivered, |delivered|) && after == Replayed(delivered + [more], |delivered| + 1)
    requires IsShownBy(after, more, |delivered| + 1)
    ensures AllShown(delivered + [more], |delivered| + 1)
  {
    AllShownStays(delivered, more, |delivered|);
  }

  /** A new lease takes a slot that no waiting update holds. */
  lemma LeaseQueued(ring: R.Ring, queue: seq<Delivery>, more: Delivery)
    requires Queued(ring.slots, queue) && R.Acquire(ring).0 == Some(more.ticket)
    ensures Queued(R.Acquire(ring).1.slots, queue + [more])
  {
    var slots := R.Acquire(ring).1.slots;
    forall k | 0 <= k < |queue| ensures Current(slots, queue[k].ticket) && queue[k].ticket.0 != more.ticket.0 {
      assert Current(ring.slots, queue[k].ticket);
    }
  }

  lemma RequestLeases(sys: System, core: Core, more: Delivery)
    requires LeasesOk(sys) && R.Acquire(sys.ring).0 == Some(more.ticket) && core.frameId == sys.core.frameId + 1
    ensures LeasesOk(sys.(core := core, ring := R.Acquire(sys.ring).1, delivered := sys.delivered + [more]))
  {
    R.CountsKept(sys.ring, 0, 0, false);
    LeaseQueued(sys.ring, Queue(sys), more);
    assert (sys.delivered + [more])[sys.taken..] == Queue(sys) + [more];
  }

  lemma DeliveredInv(sys: System, next: UpdateResult, more: Delivery, after: V.Viewport)
    requires LeasesOk(sys) && sys.replica == Replayed(sys.delivered, sys.taken)
    requires AllShown(sys.delivered, |sys.delivered|)
    requires R.Acquire(sys.ring).0 == Some(more.ticket) && next.core.frameId == sys.core.frameId + 1
    requires after == V.Apply(Replayed(sys.delivered, |sys.delivered|), more.update).1
    requires IsShownBy(after, more, |sys.delivered| + 1)
    requires CacheAgrees(next.core, next.render) && ReplicaAgrees(next.core, next.render, after)
    ensures Inv(Delivered(sys, next, more))
  {
    hide CacheAgrees, ReplicaAgrees, V.Apply, IsShownBy, AllShown;
    ReplayedOneMore(sys.delivered, more);
    AllShownOneMore(sys.delivered, more, after);
    ReplayedPrefix(sys.delivered, more, sys.taken);
    RequestLeases(sys, next.core, more);
  }

  lemma RequestKeeps(sys: System, consume: bool, forceFull: bool)
    requires Inv(sys) && Possible(sys, Request(consume, forceFull)) && sys.core.frameId < MAX_SAFE_INTEGER
    ensures Inv(Step(sys, Request(consume, forceFull)))
  {
    hide ReplicaAgrees, ShowsGrid, V.Apply, NextUpdate, AllShown, Pack;
    if Delivers(sys, Request(consume, forceFull)) {
      var next := NextUpdate(sys.core, sys.render, consume, forceFull);
      var more := Delivery(R.Acquire(sys.ring).0.value, next.update, sys.render.grid);
      var after := DeliveryAgreesOn(
        sys.core, sys.render, Replayed(sys.delivered, |sys.delivered|), consume, forceFull);
      DeliveredInv(sys, next, more, after);
    }
  }

  /** Giving back what was applied frees no slot of a waiting update. */
  lemma GiveBackKeeps(sys: System, slotId: int, token: int, buffersOk: bool)
    requires Inv(sys) && Possible(sys, GiveBack(slotId, token, buffersOk))
    ensures Inv(Step(sys, GiveBack(slotId, token, buffersOk)))
  {
    hide ReplicaAgrees, AllShown, V.Apply;
    R.CountsKept(sys.ring, slotId, token, buffersOk);
    var slots := R.Return(sys.ring, slotId, token, buffersOk).1.slots;
    forall k | 0 <= k < |Queue(sys)| ensures Current(slots, Queue(sys)[k].ticket) {
      assert Current(sys.ring.slots, Queue(sys)[k].ticket);
      assert Queue(sys)[k] == sys.delivered[sys.taken + k];
    }
  }

  lemma GridStepKeeps(sys: System, next: Render)
    requires Inv(sys)
    ensures Advances(sys.render, next) ==> Inv(sys.(render := next))
    ensures RenderOk(next) && next.level == Full ==> Inv(sys.(render := next, core := sys.core.(rows := [])))
  {
    hide ReplicaAgrees, AllShown, CacheAgrees, Advances, RenderOk;
    var replica := Replayed(sys.delivered, |sys.delivered|);
    if Advances(sys.render, next) {
      MutateKeeps(sys.core, sys.render, next, replica);
    }
    if RenderOk(next) && next.level == Full {
      DropKeeps(sys.core, sys.render, next, replica);
    }
  }

  lemma InspectKeeps(sys: System)
    requires Inv(sys)
    ensures Inv(Step(sys, Inspect))
  {
    hide AllShown, V.Shows, V.Apply, VisibleRow;
    SnapshotReadsGrid(sys.core, sys.render, false);
    ReadCacheAgrees(sys.core, sys.render, false, ReadSnapshot(sys.core, sys.render, false));
  }

  lemma TakeKeeps(sys: System)
    requires Inv(sys)
    ensures Inv(Step(sys, Take))
  {
    hide ReplicaAgrees, AllShown, V.Apply, CacheAgrees;
    if sys.taken < |sys.delivered| {
      assert Queue(sys)[1..] == sys.delivered[sys.taken + 1..];
    }
  }

  /** Every step of every run keeps cache, updates, leases and replica together. */
  lemma StepKeeps(sys: System, event: Event)
    requires Inv(sys) && Possible(sys, event) && sys.core.frameId < MAX_SAFE_INTEGER
    ensures Inv(Step(sys, event))
  {
    hide ReplicaAgrees, AllShown, V.Apply, CacheAgrees, NextUpdate, ReadSnapshot;
    hide R.Return, R.Acquire, LeasesOk, Delivers;
    match event
    case Mutate(next) => GridStepKeeps(sys, next);
    case DropCache(next) => GridStepKeeps(sys, next);
    case Inspect => InspectKeeps(sys);
    case Request(consume, forceFull) => RequestKeeps(sys, consume, forceFull);
    case Take => TakeKeeps(sys);
    case GiveBack(slotId, token, buffersOk) => GiveBackKeeps(sys, slotId, token, buffersOk);
  }

  /** Waiting updates are at most as many as there are slots in flight. */
  lemma {:induction false} QueueFits(slots: seq<R.SlotState>, queue: seq<Delivery>)
    requires Queued(slots, queue)
    ensures |queue| <= R.InFlight(slots)
    decreases |queue|
  {
    if queue != [] {
      var n := |queue| - 1;
      var i := queue[n].ticket.0;
      assert Current(slots, queue[n].ticket);
      var rest := slots[i := slots[i].(inFlight := false)];
      R.InFlightUpdate(slots, i, rest[i]);
      forall k | 0 <= k < n ensures Current(rest, queue[..n][k].ticket) {
        assert Current(slots, queue[k].ticket) && queue[k].ticket.0 != i;
      }
      QueueFits(rest, queue[..n]);
    }
  }

  /** One possible step of a run. */
  ghost predicate Follows(sys: System, event: Event, next: System) {
    && CacheShape(sys.core) && V.Valid(sys.replica)
    && Possible(sys, event)
    && next == Step(sys, event)
  }

  /** The first `n` steps of a run, each event possible in its turn. */
  ghost predicate IsRun(states: seq<System>, events: seq<Event>, n: nat)
    requires n <= |events| < |states|
  {
    if n == 0 then Initial(states[0])
    else IsRun(states, events, n - 1) && Follows(states[n - 1], events[n - 1], states[n])
  }

  lemma FollowsCounts(sys: System, event: Event, next: System)
    requires Follows(sys, event, next)
    ensures next.core.frameId <= sys.core.frameId + 1
  {
  }

  lemma {:induction false} RunKeeps(states: seq<System>, events: seq<Event>, n: nat)
    requires n <= |events| < |states| && |events| <= MAX_SAFE_INTEGER && IsRun(states, events, n)
    ensures Inv(states[n]) && states[n].core.frameId <= n
  {
    if n == 0 {
      InitialInv(states[0]);
    } else {
      RunKeeps(states, events, n - 1);
      StepKeeps(states[n - 1], events[n - 1]);
      FollowsCounts(states[n - 1], events[n - 1], states[n]);
    }
  }

  /** Updates count the sizes of the grid: a generation starts with the first one and with each new size. */
  ghost predicate CountsSizes(delivered: seq<Delivery>) {
    && (delivered != [] ==> delivered[0].update.generation == 1)
    && forall k {:trigger delivered[k].update} | 0 < k < |delivered| ::
         var last, u := delivered[k - 1].update, delivered[k].update;
         u.generation == last.generation + if u.cols != last.cols || u.rows != last.rows then 1 else 0
  }

  /** The core counts on from the last update delivered. */
  ghost predicate CountsOn(delivered: seq<Delivery>, core: Core) {
    && CountsSizes(delivered)
    && if delivered == [] then core.generation == 0
       else
         var last := delivered[|delivered| - 1].update;
         core.generation == last.generation >= 1 && core.updateCols == last.cols && core.updateRows == last.rows
  }

  lemma OneMoreCounted(delivered: seq<Delivery>, core: Core, more: Delivery, next: Core)
    requires CountsOn(delivered, core)
    requires var u := more.update;
             next.generation == u.generation && next.updateCols == u.cols && next.updateRows == u.rows
    requires var changed := next.updateCols != core.updateCols || next.updateRows != core.updateRows;
             next.generation == core.generation + if core.generation == 0 || changed then 1 else 0
    ensures CountsOn(delivered + [more], next)
  {
  }

  /** A request that delivers, step by step. */
  lemma RequestSteps(sys: System, event: Event) returns (more: Delivery)
    requires CacheShape(sys.core) && V.Valid(sys.replica) && Delivers(sys, event)
    ensures var next := NextUpdate(sys.core, sys.render, event.consume, event.forceFull);
            && more.update == next.update && more.grid == sys.render.grid
            && Step(sys, event).delivered == sys.delivered + [more] && Step(sys, event).core == next.core
  {
    hide NextUpdate, CacheShape, V.Valid;
    var next := NextUpdate(sys.core, sys.render, event.consume, event.forceFull);
    more := Delivery(R.Acquire(sys.ring).0.value, next.update, sys.render.grid);
  }

  lemma InvCounters(sys: System)
    requires Inv(sys)
    ensures CacheShape(sys.core) && CacheAgrees(sys.core, sys.render) && V.Valid(sys.replica)
    ensures sys.core.generation <= sys.core.frameId == |sys.delivered|
  {
    hide CacheShape, RenderOk, AllShown, V.Shows, V.Apply;
  }

  lemma RequestCountsOn(sys: System, event: Event)
    requires Inv(sys) && CountsOn(sys.delivered, sys.core) && Delivers(sys, event)
    ensures CountsOn(Step(sys, event).delivered, Step(sys, event).core)
  {
    hide Inv, Step, NextUpdate, CacheAgrees, CacheShape, CountsOn, V.Valid, R.FirstFree;
    InvCounters(sys);
    NextUpdateCounts(sys.core, sys.render, event.consume, event.forceFull);
    var more := RequestSteps(sys, event);
    OneMoreCounted(sys.delivered, sys.core, more, Step(sys, event).core);
  }

  lemma InspectCountsOn(sys: System)
    requires Inv(sys) && CountsOn(sys.delivered, sys.core)
    ensures var next := Step(sys, Inspect); CountsOn(next.delivered, next.core)
  {
    hide ReplicaAgrees, AllShown, ReadSnapshot, VisibleGrid, CountsSizes;
    SnapshotReadsGrid(sys.core, sys.render, false);
  }

  lemma StepCountsOn(sys: System, event: Event)
    requires Inv(sys) && Possible(sys, event) && CountsOn(sys.delivered, sys.core)
    ensures var next := Step(sys, event); CountsOn(next.delivered, next.core)
  {
    hide NextUpdate, ReadSnapshot, V.Apply, CountsSizes, Inv, CacheAgrees, Advances;
    match event
    case Inspect => InspectCountsOn(sys);
    case Request(consume, forceFull) =>
      if Delivers(sys, event) {
        RequestCountsOn(sys, event);
      }
    case _ =>
  }

  lemma {:induction false} RunCountsOn(states: seq<System>, events: seq<Event>, n: nat)
    requires n <= |events| < |states| && |events| <= MAX_SAFE_INTEGER && IsRun(states, events, n)
    ensures CountsOn(states[n].delivered, states[n].core)
  {
    hide Inv, Possible, Step, CountsOn;
    if n == 0 {
      InitialCountsOn(states[0]);
    } else {
      RunKeeps(states, events, n - 1);
      RunCountsOn(states, events, n - 1);
      StepCountsOn(states[n - 1], events[n - 1]);
    }
  }

  lemma InitialCountsOn(sys: System)
    requires Initial(sys)
    ensures CountsOn(sys.delivered, sys.core)
  {
  }

  lemma InvShows(sys: System)
    requires Inv(sys)
    ensures sys.taken <= |sys.delivered|
    ensures sys.taken > 0 ==> ShowsGrid(sys.replica, sys.delivered[sys.taken - 1].grid)
    ensures forall k | 0 <= k < |sys.delivered| :: sys.delivered[k].update.frameId == k + 1
    ensures |sys.delivered| - sys.taken <= R.InFlight(sys.ring.slots) <= SLOT_COUNT
  {
    QueueFits(sys.ring.slots, Queue(sys));
    forall k | 0 <= k < |sys.delivered|
      ensures sys.delivered[k].update.frameId == k + 1
      ensures ShowsGrid(Replayed(sys.delivered, k + 1), sys.delivered[k].grid)
    {
      AllShownAt(sys.delivered, |sys.delivered|, k);
    }
    if sys.taken > 0 {
      AllShownAt(sys.delivered, |sys.delivered|, sys.taken - 1);
    }
  }

  lemma InvCatchesUp(sys: System)
    requires Inv(sys) && sys.taken == |sys.delivered| && sys.render.level == Clean
    ensures ShowsRows(sys.replica, sys.render.grid)
  {
    RowsToReadArePending(sys.render);
    forall r | 0 <= r < sys.render.grid.rows ensures V.Shows(sys.replica, VisibleGrid(sys.render.grid, {}), r) {
      assert (r as U32) !in sys.render.rowDirty;
    }
  }

  /**
    Main result. At any point of any run, however far the replica lags behind:
    it shows exactly the grid that the last update it took was built from; the
    updates delivered are numbered 1, 2, 3, ..., and their generations 1 and one
    more at each new size; no more of them wait than slots are in flight, so that
    a queue of three drops none; and once it has caught up and nothing is dirty,
    it shows every row as it is.
    */
  lemma ReplicaShowsWhatItTook(states: seq<System>, events: seq<Event>, n: nat)
    requires n <= |events| < |states| && |events| <= MAX_SAFE_INTEGER && IsRun(states, events, n)
    ensures var sys := states[n];
            && sys.taken <= |sys.delivered|
            && (sys.taken > 0 ==> ShowsGrid(sys.replica, sys.delivered[sys.taken - 1].grid))
            && (forall k | 0 <= k < |sys.delivered| :: sys.delivered[k].update.frameId == k + 1)
            && CountsSizes(sys.delivered)
            && |sys.delivered| - sys.taken <= R.InFlight(sys.ring.slots) <= SLOT_COUNT
            && (sys.taken == |sys.delivered| && sys.render.level == Clean ==> ShowsRows(sys.replica, sys.render.grid))
  {
    hide ShowsGrid, ShowsRows, IsRun, Inv, CountsSizes;
    RunKeeps(states, events, n);
    RunCountsOn(states, events, n);
    InvShows(states[n]);
    if states[n].taken == |states[n].delivered| && states[n].render.level == Clean {
      InvCatchesUp(states[n]);
    }
  }

  lemma {:induction false} DeliveriesStay(states: seq<System>, events: seq<Event>, i: nat, n: nat)
    requires i <= n <= |events| < |states| && IsRun(states, events, n)
    ensures states[i].delivered <= states[n].delivered
  {
    hide Follows;
    if i < n {
      DeliveriesStay(states, events, i, n - 1);
      StepAppends(states[n - 1], events[n - 1], states[n]);
    }
  }

  lemma StepAppends(sys: System, event: Event, next: System)
    requires Follows(sys, event, next)
    ensures sys.delivered <= next.delivered
  {
    hide NextUpdate, ReadSnapshot, V.Apply;
  }

  lemma {:induction false} StepOfRun(states: seq<System>, events: seq<Event>, n: nat, i: nat)
    requires i < n <= |events| < |states| && IsRun(states, events, n)
    ensures CacheShape(states[i].core) && V.Valid(states[i].replica)
    ensures states[i + 1] == Step(states[i], events[i])
  {
    hide Step;
    if i < n - 1 {
      StepOfRun(states, events, n - 1, i);
    }
  }

  /**
    The same by events: whenever a request delivered, a replica that has since
    applied that update and no later one shows the grid at that request, whatever
    the terminal did in the meantime.
    */
  lemma ReplicaShowsTheRequestedGrid(states: seq<System>, events: seq<Event>, i: nat, n: nat)
    requires i < n <= |events| < |states| && |events| <= MAX_SAFE_INTEGER && IsRun(states, events, n)
    requires Delivers(states[i], events[i]) && states[n].taken == |states[i].delivered| + 1
    ensures ShowsGrid(states[n].replica, states[i].render.grid)
  {
    hide ShowsGrid, ShowsRows, V.Valid, CacheShape, Step, Delivers;
    ReplicaShowsWhatItTook(states, events, n);
    DeliveriesStay(states, events, i + 1, n);
    StepOfRun(states, events, n, i);
    RequestRecords(states[i], events[i]);
    var k := |states[i].delivered|;
    assert states[n].delivered[k] == states[i + 1].delivered[k];
  }

  lemma RequestRecords(sys: System, event: Event)
    requires CacheShape(sys.core) && V.Valid(sys.replica) && Delivers(sys, event)
    ensures var next := Step(sys, event);
            |next.delivered| == |sys.delivered| + 1 && next.delivered[|sys.delivered|].grid == sys.render.grid
  {
    hide NextUpdate, ReadSnapshot, V.Apply;
  }

  /** Events between deliveries that leave the terminal alone, refused requests among them. */
  predicate Waits(sys: System, event: Event) {
    event.Inspect? || event.Take? || event.GiveBack? || (event.Request? && !Delivers(sys, event))
  }

  ghost predicate WaitsThroughout(states: seq<System>, events: seq<Event>, i: nat, j: nat)
    requires i <= j <= |events| < |states|
  {
    forall k | i <= k < j :: Waits(states[k], events[k])
  }

  /** What the next request would deliver is settled by grid, flags and counters, not by the cache. */
  lemma UpdateIgnoresCache(core: Core, other: Core, render: Render, consume: bool, forceFull: bool)
    requires CacheAgrees(core, render) && CacheAgrees(other, render)
    requires core.frameId == other.frameId && core.generation == other.generation
    requires core.updateCols == other.updateCols && core.updateRows == other.updateRows
    ensures NextUpdate(core, render, consume, forceFull).update == NextUpdate(other, render, consume, forceFull).update
  {
    SnapshotReadsGrid(core, render, consume);
    SnapshotReadsGrid(other, render, consume);
  }

  lemma WaitingKeepsUpdate(sys: System, event: Event, consume: bool, forceFull: bool)
    requires Inv(sys) && Possible(sys, event) && Waits(sys, event)
    ensures var next := Step(sys, event);
            && CacheShape(next.core)
            && next.delivered == sys.delivered && next.render == sys.render
            && NextUpdate(next.core, next.render, consume, forceFull).update
               == NextUpdate(sys.core, sys.render, consume, forceFull).update
  {
    hide ReplicaAgrees, AllShown, V.Apply, NextUpdate;
    if event.Inspect? {
      var read := ReadSnapshot(sys.core, sys.render, false);
      SnapshotReadsGrid(sys.core, sys.render, false);
      ReadCacheAgrees(sys.core, sys.render, false, read);
      UpdateIgnoresCache(sys.core, read.core, sys.render, consume, forceFull);
    }
  }

  /**
    Waiting loses nothing: however many requests are refused, inspections made,
    updates applied and leases given back in between, a request then builds the
    very update it would have built before.
    */
  lemma {:induction false} WaitingLosesNothing(
      states: seq<System>, events: seq<Event>, i: nat, j: nat, consume: bool, forceFull: bool)
    requires i <= j <= |events| < |states| && |events| <= MAX_SAFE_INTEGER && IsRun(states, events, j)
    requires WaitsThroughout(states, events, i, j)
    ensures Inv(states[i]) && Inv(states[j])
    ensures states[j].delivered == states[i].delivered && states[j].render == states[i].render
    ensures NextUpdate(states[j].core, states[j].render, consume, forceFull).update
            == NextUpdate(states[i].core, states[i].render, consume, forceFull).update
  {
    hide Inv, Possible, NextUpdate, CacheShape, V.Valid, Step;
    RunKeeps(states, events, j);
    if i < j {
      WaitingLosesNothing(states, events, i, j - 1, consume, forceFull);
      assert Waits(states[j - 1], events[j - 1]) && Follows(states[j - 1], events[j - 1], states[j]);
      WaitingKeepsUpdate(states[j - 1], events[j - 1], consume, forceFull);
    }
  }

  /** What is shown is the grid itself exactly when every visible cell is representable. */
  lemma ShownRowIsExactIff(replica: V.Viewport, grid: Grid, r: nat)
    requires ShowsGrid(replica, grid) && r < grid.rows
    ensures var row := VisibleRow(grid.lines[r], grid.cols, ColorsOf(grid));
            replica.lines[r] in replica.lines
            && (V.MaterializeRow(replica.lines[r], replica.cols) == row
                <==> forall cell | cell in row.cells :: Representable(cell))
  {
    var row := VisibleRow(grid.lines[r], grid.cols, ColorsOf(grid));
    assert V.Shows(replica, VisibleGrid(grid, {}), r);
    SeenRowIsIdentityIff(row);
  }

  /** Giving a lease back makes room: whatever is asked for next is delivered. */
  lemma ReturnMakesRoom(sys: System, k: nat, consume: bool, forceFull: bool)
    requires Inv(sys) && k < sys.taken && Current(sys.ring.slots, sys.delivered[k].ticket)
    ensures var t := sys.delivered[k].ticket;
            Delivers(Step(sys, GiveBack(t.0, t.1, true)), Request(consume, forceFull))
  {
    InvCounters(sys);
    hide CacheAgrees, ReplicaAgrees, AllShown, V.Apply, CacheShape, V.Valid;
    var t := sys.delivered[k].ticket;
    var slots := Step(sys, GiveBack(t.0, t.1, true)).ring.slots;
    assert |slots| == |sys.ring.slots| && !slots[t.0].inFlight;
  }

  /** A request delivers exactly if some slot is not in flight. */
  lemma DeliversIff(sys: System, consume: bool, forceFull: bool)
    ensures Delivers(sys, Request(consume, forceFull)) <==>
              exists i :: 0 <= i < |sys.ring.slots| && !sys.ring.slots[i].inFlight
  {
  }
}
