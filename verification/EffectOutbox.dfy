/**
  The bounded outbox that synchronous terminal callbacks record into. The class
  does what the callbacks do; `Delivered` is the same on values, over trees of
  callbacks that may arrive while another one runs.
  */
module EffectOutbox {
  import opened Bytes
  import opened Options

  /** A native terminal handle. */
  type Handle = int

  datatype EffectKind = PtyResponseBytes | PtyResponseCount | Title | WorkingDirectory | Bells | Queries

  datatype EffectLimits = EffectLimits(
    ptyResponseBytes: nat, ptyResponses: nat, textBytes: nat, bells: nat, queries: nat)

  const MAX_PTY_RESPONSE_BYTES := 1024 * 1024
  const MAX_PTY_RESPONSES := 4096
  const MAX_EFFECT_TEXT_BYTES := 64 * 1024
  const MAX_EFFECT_EVENTS := 65_536

  predicate ValidLimits(limits: EffectLimits) {
    && limits.ptyResponseBytes <= MAX_PTY_RESPONSE_BYTES && limits.ptyResponses <= MAX_PTY_RESPONSES
    && limits.textBytes <= MAX_EFFECT_TEXT_BYTES
    && limits.bells <= MAX_EFFECT_EVENTS && limits.queries <= MAX_EFFECT_EVENTS
  }

  datatype QueryKind = Enquiry | Xtversion | Size | ColorScheme | DeviceAttributes

  datatype QueryCounts = QueryCounts(enquiry: nat, xtversion: nat, size: nat, colorScheme: nat, deviceAttributes: nat) {
    function Of(kind: QueryKind): nat {
      match kind
      case Enquiry => enquiry
      case Xtversion => xtversion
      case Size => size
      case ColorScheme => colorScheme
      case DeviceAttributes => deviceAttributes
    }

    function OneMore(kind: QueryKind): (more: QueryCounts)
      ensures forall k: QueryKind :: more.Of(k) == Of(k) + if k == kind then 1 else 0
    {
      match kind
      case Enquiry => this.(enquiry := enquiry + 1)
      case Xtversion => this.(xtversion := xtversion + 1)
      case Size => this.(size := size + 1)
      case ColorScheme => this.(colorScheme := colorScheme + 1)
      case DeviceAttributes => this.(deviceAttributes := deviceAttributes + 1)
    }
  }

  const NO_QUERIES := QueryCounts(0, 0, 0, 0, 0)

  /** What one callback is about. Query callbacks but the first two get a place for their answer. */
  datatype Event =
    | WritePty(bytes: seq<Byte>)
    | WriteNull(length: nat)
    | Bell
    | TitleChanged
    | PwdChanged
    | Query(kind: QueryKind, outIsNull: bool)

  /** A callback, with those that arrive during it before and after its recording. */
  datatype Call = Call(terminal: Handle, event: Event, before: seq<Call>, after: seq<Call>)

  /** What stays fixed: the bound terminal, the limits, the queries with a configured answer. */
  datatype Setup = Setup(terminal: Handle, limits: EffectLimits, answers: set<QueryKind>)

  /** What has been recorded since the last mutation began. */
  datatype Recording = Recording(
    ptyBytes: seq<Byte>,
    ptyRanges: seq<(nat, nat)>,
    title: seq<Byte>,
    pwd: seq<Byte>,
    titleChanged: bool,
    pwdChanged: bool,
    bells: nat,
    queries: QueryCounts,
    overflow: Option<(EffectKind, nat)>)

  datatype Outbox = Outbox(recording: Recording, inCallback: bool, reentrant: bool, invalidCallback: bool)

  const NOTHING := Recording([], [], [], [], false, false, 0, NO_QUERIES, None)

  const EMPTY := Outbox(NOTHING, false, false, false)

  function Overflowed(r: Recording, kind: EffectKind, limit: nat): Recording {
    if r.overflow.None? then r.(overflow := Some((kind, limit))) else r
  }

  function PtyRecorded(setup: Setup, r: Recording, bytes: seq<Byte>): Recording {
    if bytes == [] then r
    else if |r.ptyRanges| >= setup.limits.ptyResponses then Overflowed(r, PtyResponseCount, setup.limits.ptyResponses)
    else if |r.ptyBytes| + |bytes| > USIZE_MAX || |r.ptyBytes| + |bytes| > setup.limits.ptyResponseBytes then
      Overflowed(r, PtyResponseBytes, setup.limits.ptyResponseBytes)
    else r.(ptyBytes := r.ptyBytes + bytes, ptyRanges := r.ptyRanges + [(|r.ptyBytes|, |r.ptyBytes| + |bytes|)])
  }

  function BellRecorded(setup: Setup, r: Recording): Recording {
    if r.bells >= setup.limits.bells then Overflowed(r, Bells, setup.limits.bells) else r.(bells := r.bells + 1)
  }

  function QueryRecorded(setup: Setup, r: Recording, kind: QueryKind): Recording {
    if r.queries.Of(kind) >= setup.limits.queries then Overflowed(r, Queries, setup.limits.queries)
    else r.(queries := r.queries.OneMore(kind))
  }

  function Recorded(setup: Setup, r: Recording, event: Event): Recording {
    match event
    case WritePty(bytes) => PtyRecorded(setup, r, bytes)
    case WriteNull(_) => r
    case Bell => BellRecorded(setup, r)
    case TitleChanged => r.(titleChanged := true)
    case PwdChanged => r.(pwdChanged := true)
    case Query(kind, _) => QueryRecorded(setup, r, kind)
  }

  /** A configured answer needs a place to go. */
  predicate MissingOut(setup: Setup, kind: QueryKind, outIsNull: bool) {
    outIsNull && kind in {Size, ColorScheme, DeviceAttributes} && kind in setup.answers
  }

  /** Null bytes with a length, or no place for a configured answer. */
  predicate BreaksContract(setup: Setup, event: Event) {
    || (event.WriteNull? && event.length > 0)
    || (event.Query? && MissingOut(setup, event.kind, event.outIsNull))
  }

  /** One callback: refused on a foreign handle or while another runs, else recorded. */
  function Delivered(setup: Setup, o: Outbox, call: Call): Outbox
    decreases call, 1
  {
    if call.terminal != setup.terminal then o.(invalidCallback := true)
    else if o.inCallback then o.(reentrant := true)
    else
      var entered := AllDelivered(setup, o.(inCallback := true), call.before, |call.before|);
      var recorded := entered.(recording := Recorded(setup, entered.recording, call.event),
                               invalidCallback := entered.invalidCallback || BreaksContract(setup, call.event));
      AllDelivered(setup, recorded, call.after, |call.after|).(inCallback := false)
  }

  /** The first `n` callbacks, one after the other. */
  function AllDelivered(setup: Setup, o: Outbox, calls: seq<Call>, n: nat): Outbox
    requires n <= |calls|
    decreases calls, n
  {
    if n == 0 then o else Delivered(setup, AllDelivered(setup, o, calls, n - 1), calls[n - 1])
  }

  datatype GhosttyError =
    | InvalidCallback
    | CallbackReentrant
    | CallbackOverflow(effect: EffectKind, limit: nat)
    | Native(code: int)

  /** What a host reads out of a finished outbox. */
  datatype Effects = Effects(
    responses: seq<seq<Byte>>, bells: nat, title: Option<seq<Byte>>, workingDirectory: Option<seq<Byte>>,
    queries: QueryCounts)

  /** A native text getter. */
  type NativeText = Result<seq<Byte>, GhosttyError>

  predicate InBounds(bytes: seq<Byte>, ranges: seq<(nat, nat)>) {
    forall i | 0 <= i < |ranges| :: ranges[i].0 <= ranges[i].1 <= |bytes|
  }

  function Slices(bytes: seq<Byte>, ranges: seq<(nat, nat)>): (r: seq<seq<Byte>>)
    requires InBounds(bytes, ranges)
    ensures |r| == |ranges|
  {
    if ranges == [] then []
    else
      var last := ranges[|ranges| - 1];
      Slices(bytes, ranges[..|ranges| - 1]) + [bytes[last.0..last.1]]
  }

  lemma {:induction false} SliceAt(bytes: seq<Byte>, ranges: seq<(nat, nat)>, i: nat)
    requires InBounds(bytes, ranges) && i < |ranges|
    ensures Slices(bytes, ranges)[i] == bytes[ranges[i].0..ranges[i].1]
  {
    if i < |ranges| - 1 {
      SliceAt(bytes, ranges[..|ranges| - 1], i);
    }
  }

  function TitleCopied(setup: Setup, r: Recording, bytes: seq<Byte>): Recording {
    if |bytes| > setup.limits.textBytes then Overflowed(r, Title, setup.limits.textBytes)
    else r.(title := r.title + bytes)
  }

  function PwdCopied(setup: Setup, r: Recording, bytes: seq<Byte>): Recording {
    if |bytes| > setup.limits.textBytes then Overflowed(r, WorkingDirectory, setup.limits.textBytes)
    else r.(pwd := r.pwd + bytes)
  }

  /** Whether the recording is complete: no error of any kind, worst kind first. */
  function Verdict(o: Outbox): Option<GhosttyError> {
    if o.invalidCallback then Some(InvalidCallback)
    else if o.reentrant then Some(CallbackReentrant)
    else if o.recording.overflow.Some? then
      Some(CallbackOverflow(o.recording.overflow.value.0, o.recording.overflow.value.1))
    else None
  }

  /** The recording once the changed texts are copied in, or the getter's error. */
  function WithTexts(setup: Setup, r: Recording, title: NativeText, pwd: NativeText): Result<Recording, GhosttyError> {
    if r.titleChanged && title.Err? then Err(title.error)
    else
      var titled := if r.titleChanged then TitleCopied(setup, r, title.value) else r;
      if r.pwdChanged && pwd.Err? then Err(pwd.error)
      else Ok(if r.pwdChanged then PwdCopied(setup, titled, pwd.value) else titled)
  }

  /** The exact responses an iterator over the outbox hands out, one a call. */
  class PtyResponses {
    const bytes: seq<Byte>
    const ranges: seq<(nat, nat)>
    var index: nat

    constructor (bytes: seq<Byte>, ranges: seq<(nat, nat)>)
      ensures this.bytes == bytes && this.ranges == ranges && index == 0
    {
      this.bytes, this.ranges, index := bytes, ranges, 0;
    }

    method Next() returns (item: Option<seq<Byte>>)
      modifies this
      ensures InBounds(bytes, ranges) ==>
                item == if old(index) < |ranges| then Some(Slices(bytes, ranges)[old(index)]) else None
      ensures index == if old(index) < |ranges| then old(index) + 1 else old(index)
    {
      if index >= |ranges| {
        return None;
      }
      var range := ranges[index];
      index := index + 1;
      if InBounds(bytes, ranges) {
        SliceAt(bytes, ranges, index - 1);
      }
      item := if range.0 <= range.1 <= |bytes| then Some(bytes[range.0..range.1]) else None;
    }
  }

  class CallbackState {
    const setup: Setup
    var ptyBytes: seq<Byte>
    var ptyRanges: seq<(nat, nat)>
    var title: seq<Byte>
    var pwd: seq<Byte>
    var titleChanged: bool
    var pwdChanged: bool
    var bells: nat
    var queries: QueryCounts
    var overflow: Option<(EffectKind, nat)>
    var inCallback: bool
    var reentrant: bool
    var invalidCallback: bool

    ghost function Kept(): Recording
      reads this
    {
      Recording(ptyBytes, ptyRanges, title, pwd, titleChanged, pwdChanged, bells, queries, overflow)
    }

    ghost function State(): Outbox
      reads this
    {
      Outbox(Kept(), inCallback, reentrant, invalidCallback)
    }

    constructor (setup: Setup)
      ensures this.setup == setup && State() == EMPTY
    {
      this.setup := setup;
      ptyBytes, ptyRanges, title, pwd := [], [], [], [];
      titleChanged, pwdChanged, bells, queries := false, false, 0, NO_QUERIES;
      overflow, inCallback, reentrant, invalidCallback := None, false, false, false;
    }

    /** Forget the last mutation's effects. */
    method Prepare()
      modifies this
      ensures State() == EMPTY
    {
      ptyBytes, ptyRanges, title, pwd := [], [], [], [];
      titleChanged, pwdChanged, bells, queries := false, false, 0, NO_QUERIES;
      overflow, inCallback, reentrant, invalidCallback := None, false, false, false;
    }

    method MarkOverflow(kind: EffectKind, limit: nat)
      modifies this
      ensures State() == old(State()).(recording := Overflowed(old(Kept()), kind, limit))
    {
      if overflow.None? {
        overflow := Some((kind, limit));
      }
    }

    method RecordPty(bytes: seq<Byte>)
      modifies this
      ensures State() == old(State()).(recording := PtyRecorded(setup, old(Kept()), bytes))
    {
      if bytes == [] {
        return;
      }
      if |ptyRanges| >= setup.limits.ptyResponses {
        MarkOverflow(PtyResponseCount, setup.limits.ptyResponses);
        return;
      }
      var end := |ptyBytes| + |bytes|;
      if end > USIZE_MAX || end > setup.limits.ptyResponseBytes {
        MarkOverflow(PtyResponseBytes, setup.limits.ptyResponseBytes);
        return;
      }
      var start := |ptyBytes|;
      ptyBytes := ptyBytes + bytes;
      ptyRanges := ptyRanges + [(start, end)];
    }

    method RecordBell()
      modifies this
      ensures State() == old(State()).(recording := BellRecorded(setup, old(Kept())))
    {
      if bells >= setup.limits.bells {
        MarkOverflow(Bells, setup.limits.bells);
        return;
      }
      bells := bells + 1;
    }

    method RecordQuery(kind: QueryKind)
      modifies this
      ensures State() == old(State()).(recording := QueryRecorded(setup, old(Kept()), kind))
    {
      if queries.Of(kind) >= setup.limits.queries {
        MarkOverflow(Queries, setup.limits.queries);
      } else {
        queries := queries.OneMore(kind);
      }
    }

    /** The body of each callback. */
    method Record(event: Event)
      modifies this
      ensures State() == old(State()).(recording := Recorded(setup, old(Kept()), event),
                                       invalidCallback := old(invalidCallback) || BreaksContract(setup, event))
    {
      match event
      case WritePty(bytes) => RecordPty(bytes);
      case WriteNull(length) =>
        if length != 0 {
          invalidCallback := true;
        }
      case Bell => RecordBell();
      case TitleChanged => titleChanged := true;
      case PwdChanged => pwdChanged := true;
      case Query(kind, outIsNull) =>
        RecordQuery(kind);
        if MissingOut(setup, kind, outIsNull) {
          invalidCallback := true;
        }
    }

    method Enter(terminal: Handle) returns (entered: bool)
      modifies this
      ensures entered == (terminal == setup.terminal && !old(inCallback))
      ensures State() == if terminal != setup.terminal then old(State()).(invalidCallback := true)
                         else if old(inCallback) then old(State()).(reentrant := true)
                         else old(State()).(inCallback := true)
    {
      if terminal != setup.terminal {
        invalidCallback := true;
        return false;
      }
      if inCallback {
        reentrant := true;
        return false;
      }
      inCallback := true;
      entered := true;
    }

    /** Run one callback, and whatever arrives while it runs. */
    method WithState(call: Call)
      modifies this
      ensures State() == Delivered(setup, old(State()), call)
      decreases call, 1
    {
      var entered := Enter(call.terminal);
      if entered {
        RunCalls(call.before);
        Record(call.event);
        RunCalls(call.after);
        inCallback := false;
      }
    }

    /** The native side calling back. */
    method RunCalls(calls: seq<Call>)
      modifies this
      ensures State() == AllDelivered(setup, old(State()), calls, |calls|)
      decreases calls, 0
    {
      for n := 0 to |calls|
        invariant State() == AllDelivered(setup, old(State()), calls, n)
      {
        WithState(calls[n]);
      }
    }

    method CopyTitle(bytes: seq<Byte>)
      modifies this
      ensures State() == old(State()).(recording := TitleCopied(setup, old(Kept()), bytes))
    {
      if |bytes| > setup.limits.textBytes {
        MarkOverflow(Title, setup.limits.textBytes);
        return;
      }
      title := title + bytes;
    }

    method CopyPwd(bytes: seq<Byte>)
      modifies this
      ensures State() == old(State()).(recording := PwdCopied(setup, old(Kept()), bytes))
    {
      if |bytes| > setup.limits.textBytes {
        MarkOverflow(WorkingDirectory, setup.limits.textBytes);
        return;
      }
      pwd := pwd + bytes;
    }

    /** Hand the outbox over if the recording is complete. */
    method Finish() returns (error: Option<GhosttyError>)
      ensures error == Verdict(State())
    {
      if invalidCallback {
        return Some(InvalidCallback);
      }
      if reentrant {
        return Some(CallbackReentrant);
      }
      if overflow.Some? {
        return Some(CallbackOverflow(overflow.value.0, overflow.value.1));
      }
      error := None;
    }
  }

  lemma {:induction false} RecordedInBounds(setup: Setup, r: Recording, event: Event)
    requires InBounds(r.ptyBytes, r.ptyRanges)
    ensures InBounds(Recorded(setup, r, event).ptyBytes, Recorded(setup, r, event).ptyRanges)
  {
    var recorded := Recorded(setup, r, event);
    if recorded.ptyRanges != r.ptyRanges {
      assert recorded.ptyRanges == r.ptyRanges + [(|r.ptyBytes|, |r.ptyBytes| + |event.bytes|)];
    }
  }

  lemma {:induction false} DeliveredInBounds(setup: Setup, o: Outbox, call: Call)
    requires InBounds(o.recording.ptyBytes, o.recording.ptyRanges)
    ensures InBounds(Delivered(setup, o, call).recording.ptyBytes, Delivered(setup, o, call).recording.ptyRanges)
    decreases call, 1
  {
    if call.terminal == setup.terminal && !o.inCallback {
      AllInBounds(setup, o.(inCallback := true), call.before, |call.before|);
      var entered := AllDelivered(setup, o.(inCallback := true), call.before, |call.before|);
      RecordedInBounds(setup, entered.recording, call.event);
      var recorded := entered.(recording := Recorded(setup, entered.recording, call.event),
                               invalidCallback := entered.invalidCallback || BreaksContract(setup, call.event));
      AllInBounds(setup, recorded, call.after, |call.after|);
    }
  }

  /** Every recorded range lies within the recorded bytes. */
  lemma {:induction false} AllInBounds(setup: Setup, o: Outbox, calls: seq<Call>, n: nat)
    requires n <= |calls| && InBounds(o.recording.ptyBytes, o.recording.ptyRanges)
    ensures var r := AllDelivered(setup, o, calls, n).recording; InBounds(r.ptyBytes, r.ptyRanges)
    decreases calls, n
  {
    if n > 0 {
      AllInBounds(setup, o, calls, n - 1);
      DeliveredInBounds(setup, AllDelivered(setup, o, calls, n - 1), calls[n - 1]);
    }
  }

  function EffectsOf(r: Recording): Effects
    requires InBounds(r.ptyBytes, r.ptyRanges)
  {
    Effects(Slices(r.ptyBytes, r.ptyRanges), r.bells, if r.titleChanged then Some(r.title) else None,
            if r.pwdChanged then Some(r.pwd) else None, r.queries)
  }

  /** The outbox after one mutation during which these callbacks came. */
  function Mutated(setup: Setup, calls: seq<Call>): Outbox {
    AllDelivered(setup, EMPTY, calls, |calls|)
  }

  /** What a write returns. */
  function Outcome(setup: Setup, calls: seq<Call>, title: NativeText, pwd: NativeText): Result<Effects, GhosttyError> {
    AllInBounds(setup, EMPTY, calls, |calls|);
    var o := Mutated(setup, calls);
    match WithTexts(setup, o.recording, title, pwd)
    case Err(error) => Err(error)
    case Ok(recording) =>
      match Verdict(o.(recording := recording))
      case Some(error) => Err(error)
      case None => Ok(EffectsOf(recording))
  }

  /** A terminal with its outbox; the native write is the callbacks it makes. */
  class Terminal {
    const callbacks: CallbackState

    constructor (setup: Setup)
      ensures callbacks.setup == setup && fresh(callbacks)
    {
      callbacks := new CallbackState(setup);
    }

    /** Whatever an earlier write left behind, the outcome is that of this write alone. */
    method Write(calls: seq<Call>, title: NativeText, pwd: NativeText) returns (r: Result<Effects, GhosttyError>)
      modifies callbacks
      ensures r == Outcome(callbacks.setup, calls, title, pwd)
    {
      AllInBounds(callbacks.setup, EMPTY, calls, |calls|);
      callbacks.Prepare();
      callbacks.RunCalls(calls);
      if callbacks.titleChanged {
        if title.Err? {
          return Err(title.error);
        }
        callbacks.CopyTitle(title.value);
      }
      if callbacks.pwdChanged {
        if pwd.Err? {
          return Err(pwd.error);
        }
        callbacks.CopyPwd(pwd.value);
      }
      var error := callbacks.Finish();
      r := if error.Some? then Err(error.value)
      else
        Ok(Effects(Slices(callbacks.ptyBytes, callbacks.ptyRanges), callbacks.bells,
                   if callbacks.titleChanged then Some(callbacks.title) else None,
                   if callbacks.pwdChanged then Some(callbacks.pwd) else None, callbacks.queries));
    }
  }
}
