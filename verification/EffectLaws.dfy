/**
  What the outbox reports is what happened: its contents and its errors against
  counts taken over the callbacks themselves.
  */
module EffectLaws {
  import opened Bytes
  import opened Options
  import opened EffectOutbox

  predicate Foreign(setup: Setup, call: Call) {
    call.terminal != setup.terminal
  }

  /** Some of the first `n` callbacks name another terminal. */
  predicate AnyForeign(setup: Setup, calls: seq<Call>, n: nat)
    requires n <= |calls|
  {
    exists i | 0 <= i < n :: Foreign(setup, calls[i])
  }

  /** Some of the first `n` callbacks name this terminal. */
  predicate AnyOwn(setup: Setup, calls: seq<Call>, n: nat)
    requires n <= |calls|
  {
    exists i | 0 <= i < n :: !Foreign(setup, calls[i])
  }

  /** Bytes that are not there, or a query whose configured answer has nowhere to go. */
  predicate Faulty(setup: Setup, event: Event) {
    match event
    case WriteNull(length) => length != 0
    case Query(kind, outIsNull) => outIsNull && kind != Enquiry && kind != Xtversion && kind in setup.answers
    case _ => false
  }

  /** A violation of the callback contract, by this callback or one that arrives during it. */
  predicate Invalid(setup: Setup, call: Call) {
    || Foreign(setup, call) || Faulty(setup, call.event)
    || AnyForeign(setup, call.before, |call.before|) || AnyForeign(setup, call.after, |call.after|)
  }

  /** Another callback of this terminal arrives while this one runs. */
  predicate Nested(setup: Setup, call: Call) {
    && !Foreign(setup, call)
    && (AnyOwn(setup, call.before, |call.before|) || AnyOwn(setup, call.after, |call.after|))
  }

  predicate AnyInvalid(setup: Setup, calls: seq<Call>, n: nat)
    requires n <= |calls|
  {
    exists i | 0 <= i < n :: Invalid(setup, calls[i])
  }

  predicate AnyNested(setup: Setup, calls: seq<Call>, n: nat)
    requires n <= |calls|
  {
    exists i | 0 <= i < n :: Nested(setup, calls[i])
  }

  /** The non-empty write payloads among the first `n` callbacks, in order. */
  function Payloads(setup: Setup, calls: seq<Call>, n: nat): seq<seq<Byte>>
    requires n <= |calls|
  {
    if n == 0 then []
    else
      var call := calls[n - 1];
      Payloads(setup, calls, n - 1)
      + if !Foreign(setup, call) && call.event.WritePty? && call.event.bytes != [] then [call.event.bytes] else []
  }

  function Total(payloads: seq<seq<Byte>>): nat {
    if payloads == [] then 0 else Total(payloads[..|payloads| - 1]) + |payloads[|payloads| - 1]|
  }

  function BellCount(setup: Setup, calls: seq<Call>, n: nat): nat
    requires n <= |calls|
  {
    if n == 0 then 0
    else BellCount(setup, calls, n - 1) + if !Foreign(setup, calls[n - 1]) && calls[n - 1].event.Bell? then 1 else 0
  }

  function QueryCount(setup: Setup, calls: seq<Call>, n: nat, kind: QueryKind): nat
    requires n <= |calls|
  {
    if n == 0 then 0
    else
      var call := calls[n - 1];
      QueryCount(setup, calls, n - 1, kind)
      + if !Foreign(setup, call) && call.event.Query? && call.event.kind == kind then 1 else 0
  }

  predicate TitleFired(setup: Setup, calls: seq<Call>, n: nat)
    requires n <= |calls|
  {
    exists i | 0 <= i < n :: !Foreign(setup, calls[i]) && calls[i].event.TitleChanged?
  }

  predicate PwdFired(setup: Setup, calls: seq<Call>, n: nat)
    requires n <= |calls|
  {
    exists i | 0 <= i < n :: !Foreign(setup, calls[i]) && calls[i].event.PwdChanged?
  }

  /** Which bound callback `n` would break, counting everything before it. */
  function BrokenBound(setup: Setup, calls: seq<Call>, n: nat): Option<(EffectKind, nat)>
    requires n < |calls|
  {
    if Foreign(setup, calls[n]) then None
    else
      match calls[n].event
      case WritePty(bytes) =>
        var payloads := Payloads(setup, calls, n);
        if bytes == [] then None
        else if |payloads| >= setup.limits.ptyResponses then Some((PtyResponseCount, setup.limits.ptyResponses))
        else if Total(payloads) + |bytes| > setup.limits.ptyResponseBytes then
          Some((PtyResponseBytes, setup.limits.ptyResponseBytes))
        else None
      case Bell =>
        if BellCount(setup, calls, n) >= setup.limits.bells then Some((Bells, setup.limits.bells)) else None
      case Query(kind, _) =>
        if QueryCount(setup, calls, n, kind) >= setup.limits.queries then Some((Queries, setup.limits.queries))
        else None
      case _ => None
  }

  /** The first bound broken by the first `n` callbacks. */
  function FirstBroken(setup: Setup, calls: seq<Call>, n: nat): Option<(EffectKind, nat)>
    requires n <= |calls|
  {
    if n == 0 then None
    else
      var earlier := FirstBroken(setup, calls, n - 1);
      if earlier.Some? then earlier else BrokenBound(setup, calls, n - 1)
  }

  /** All counts are within their limits. */
  predicate WithinLimits(setup: Setup, calls: seq<Call>, n: nat)
    requires n <= |calls|
  {
    && |Payloads(setup, calls, n)| <= setup.limits.ptyResponses
    && Total(Payloads(setup, calls, n)) <= setup.limits.ptyResponseBytes
    && BellCount(setup, calls, n) <= setup.limits.bells
    && QueriesWithin(setup, calls, n)
  }

  predicate QueriesWithin(setup: Setup, calls: seq<Call>, n: nat)
    requires n <= |calls|
  {
    && QueryCount(setup, calls, n, Enquiry) <= setup.limits.queries
    && QueryCount(setup, calls, n, Xtversion) <= setup.limits.queries
    && QueryCount(setup, calls, n, Size) <= setup.limits.queries
    && QueryCount(setup, calls, n, ColorScheme) <= setup.limits.queries
    && QueryCount(setup, calls, n, DeviceAttributes) <= setup.limits.queries
  }

  /** One more payload counts once and adds its length. */
  lemma {:induction false} OneMorePayload(setup: Setup, calls: seq<Call>, n: nat)
    requires n < |calls|
    ensures var call, payloads := calls[n], Payloads(setup, calls, n);
            var size := if !Foreign(setup, call) && call.event.WritePty? then |call.event.bytes| else 0;
            && |Payloads(setup, calls, n + 1)| == |payloads| + (if size > 0 then 1 else 0)
            && Total(Payloads(setup, calls, n + 1)) == Total(payloads) + size
  {
    var call, payloads := calls[n], Payloads(setup, calls, n);
    if !Foreign(setup, call) && call.event.WritePty? && call.event.bytes != [] {
      assert (payloads + [call.event.bytes])[..|payloads|] == payloads;
    } else {
      assert Payloads(setup, calls, n + 1) == payloads;
    }
  }

  lemma {:induction false} QueriesStep(setup: Setup, calls: seq<Call>, n: nat)
    requires n < |calls|
    ensures var call := calls[n];
            QueriesWithin(setup, calls, n + 1) <==>
              && QueriesWithin(setup, calls, n)
              && (!Foreign(setup, call) && call.event.Query? ==>
                  QueryCount(setup, calls, n, call.event.kind) < setup.limits.queries)
  {
    var call := calls[n];
    if !Foreign(setup, call) && call.event.Query? {
      match call.event.kind
      case Enquiry =>
      case Xtversion =>
      case Size =>
      case ColorScheme =>
      case DeviceAttributes =>
    }
  }

  /** A callback breaks a bound exactly when it takes a total over its limit. */
  lemma {:induction false} LimitsStep(setup: Setup, calls: seq<Call>, n: nat)
    requires n < |calls|
    ensures WithinLimits(setup, calls, n + 1) <==> WithinLimits(setup, calls, n) && BrokenBound(setup, calls, n).None?
  {
    OneMorePayload(setup, calls, n);
    QueriesStep(setup, calls, n);
    if Foreign(setup, calls[n]) {
      return;
    }
    match calls[n].event
    case WritePty(bytes) =>
    case Bell =>
    case Query(kind, _) =>
    case _ =>
  }

  lemma NothingWithinLimits(setup: Setup, calls: seq<Call>)
    ensures WithinLimits(setup, calls, 0)
  {
  }

  /** A bound is broken by the first `n` callbacks exactly when their totals exceed a limit. */
  lemma {:induction false} BrokenIffOverLimits(setup: Setup, calls: seq<Call>, n: nat)
    requires n <= |calls|
    ensures FirstBroken(setup, calls, n).None? <==> WithinLimits(setup, calls, n)
  {
    hide WithinLimits, BrokenBound;
    if n == 0 {
      NothingWithinLimits(setup, calls);
    } else {
      BrokenIffOverLimits(setup, calls, n - 1);
      LimitsStep(setup, calls, n - 1);
    }
  }

  /** Callbacks that arrive while another runs leave everything but the two flags alone. */
  lemma {:induction false} InnerIsRefused(setup: Setup, o: Outbox, calls: seq<Call>, n: nat)
    requires n <= |calls| && o.inCallback
    ensures AllDelivered(setup, o, calls, n)
            == o.(invalidCallback := o.invalidCallback || AnyForeign(setup, calls, n),
                  reentrant := o.reentrant || AnyOwn(setup, calls, n))
  {
    if n > 0 {
      InnerIsRefused(setup, o, calls, n - 1);
    }
  }

  /** What recording one callback makes of the outbox. */
  function After(setup: Setup, r: Recording, call: Call): Recording {
    if Foreign(setup, call) then r else Recorded(setup, r, call.event)
  }

  /** A callback records what it would alone, raises the flags, and leaves no busy flag. */
  lemma {:induction false} CallEffect(setup: Setup, o: Outbox, call: Call)
    requires !o.inCallback
    ensures Delivered(setup, o, call)
            == Outbox(After(setup, o.recording, call), false,
                      o.reentrant || Nested(setup, call), o.invalidCallback || Invalid(setup, call))
  {
    if !Foreign(setup, call) {
      var busy := o.(inCallback := true);
      InnerIsRefused(setup, busy, call.before, |call.before|);
      var entered := AllDelivered(setup, busy, call.before, |call.before|);
      var recorded := entered.(recording := Recorded(setup, entered.recording, call.event),
                               invalidCallback := entered.invalidCallback || BreaksContract(setup, call.event));
      InnerIsRefused(setup, recorded, call.after, |call.after|);
    }
  }

  /** Sizes stay within the limits the storage was allocated for. */
  predicate Bounded(setup: Setup, r: Recording) {
    && |r.ptyBytes| <= setup.limits.ptyResponseBytes && |r.ptyRanges| <= setup.limits.ptyResponses
    && |r.title| <= setup.limits.textBytes && |r.pwd| <= setup.limits.textBytes
    && r.bells <= setup.limits.bells && forall kind: QueryKind :: r.queries.Of(kind) <= setup.limits.queries
  }

  /** The responses so far are the payloads of the first `n` callbacks. */
  ghost predicate ResponsesComplete(setup: Setup, calls: seq<Call>, n: nat, r: Recording)
    requires n <= |calls|
  {
    && InBounds(r.ptyBytes, r.ptyRanges) && Slices(r.ptyBytes, r.ptyRanges) == Payloads(setup, calls, n)
    && |r.ptyBytes| == Total(Payloads(setup, calls, n))
  }

  /** Bells and queries so far are those of the first `n` callbacks. */
  ghost predicate CountsComplete(setup: Setup, calls: seq<Call>, n: nat, r: Recording)
    requires n <= |calls|
  {
    && r.bells == BellCount(setup, calls, n)
    && forall kind: QueryKind :: r.queries.Of(kind) == QueryCount(setup, calls, n, kind)
  }

  lemma {:induction false} BoundedKept(setup: Setup, r: Recording, event: Event)
    requires Bounded(setup, r)
    ensures Bounded(setup, Recorded(setup, r, event))
  {
  }

  lemma {:induction false} SlicesStay(bytes: seq<Byte>, more: seq<Byte>, ranges: seq<(nat, nat)>)
    requires InBounds(bytes, ranges)
    ensures InBounds(bytes + more, ranges) && Slices(bytes + more, ranges) == Slices(bytes, ranges)
  {
    if ranges != [] {
      var last := ranges[|ranges| - 1];
      SlicesStay(bytes, more, ranges[..|ranges| - 1]);
      assert (bytes + more)[last.0..last.1] == bytes[last.0..last.1];
    }
  }

  /** A response appended to the bytes is one more slice. */
  lemma {:induction false} OneMoreSlice(bytes: seq<Byte>, ranges: seq<(nat, nat)>, more: seq<Byte>)
    requires InBounds(bytes, ranges)
    ensures var longer := ranges + [(|bytes|, |bytes| + |more|)];
            && InBounds(bytes + more, longer)
            && Slices(bytes + more, longer) == Slices(bytes, ranges) + [more]
  {
    var longer := ranges + [(|bytes|, |bytes| + |more|)];
    SlicesStay(bytes, more, ranges);
    assert longer[..|ranges|] == ranges;
    assert (bytes + more)[|bytes|..|bytes| + |more|] == more;
  }

  /** Adding a response: it fits exactly when the counts so far leave room, and then it is the last one. */
  lemma {:induction false} ResponseAdded(setup: Setup, r: Recording, payloads: seq<seq<Byte>>, bytes: seq<Byte>)
    requires ValidLimits(setup.limits) && r.overflow.None? && bytes != []
    requires InBounds(r.ptyBytes, r.ptyRanges) && Slices(r.ptyBytes, r.ptyRanges) == payloads
    requires |r.ptyBytes| == Total(payloads)
    ensures var after := PtyRecorded(setup, r, bytes);
            && after.overflow == (if |payloads| >= setup.limits.ptyResponses then
                                    Some((PtyResponseCount, setup.limits.ptyResponses))
                                  else if Total(payloads) + |bytes| > setup.limits.ptyResponseBytes then
                                    Some((PtyResponseBytes, setup.limits.ptyResponseBytes))
                                  else None)
            && (after.overflow.None? ==>
                  && InBounds(after.ptyBytes, after.ptyRanges)
                  && Slices(after.ptyBytes, after.ptyRanges) == payloads + [bytes]
                  && |after.ptyBytes| == |r.ptyBytes| + |bytes|)
  {
    OneMoreSlice(r.ptyBytes, r.ptyRanges, bytes);
  }

  lemma {:induction false} WriteKept(setup: Setup, calls: seq<Call>, n: nat, r: Recording)
    requires n < |calls| && ValidLimits(setup.limits) && r.overflow.None? && ResponsesComplete(setup, calls, n, r)
    requires !Foreign(setup, calls[n]) && calls[n].event.WritePty? && calls[n].event.bytes != []
    ensures var after := PtyRecorded(setup, r, calls[n].event.bytes);
            && (after.overflow.None? ==> ResponsesComplete(setup, calls, n + 1, after))
            && after.overflow == BrokenBound(setup, calls, n)
  {
    var bytes, payloads := calls[n].event.bytes, Payloads(setup, calls, n);
    ResponseAdded(setup, r, payloads, bytes);
    assert Payloads(setup, calls, n + 1) == payloads + [bytes];
    OneMorePayload(setup, calls, n);
  }

  lemma OthersKeepBytes(setup: Setup, r: Recording, call: Call)
    requires Foreign(setup, call) || !call.event.WritePty? || call.event.bytes == []
    ensures After(setup, r, call).ptyBytes == r.ptyBytes && After(setup, r, call).ptyRanges == r.ptyRanges
    ensures call.event.WritePty? ==> After(setup, r, call).overflow == r.overflow
  {
  }

  lemma OthersKeepResponses(setup: Setup, calls: seq<Call>, n: nat, r: Recording)
    requires n < |calls| && ResponsesComplete(setup, calls, n, r)
    requires Foreign(setup, calls[n]) || !calls[n].event.WritePty? || calls[n].event.bytes == []
    ensures ResponsesComplete(setup, calls, n + 1, After(setup, r, calls[n]))
    ensures calls[n].event.WritePty? ==> After(setup, r, calls[n]).overflow == r.overflow
  {
    assert Payloads(setup, calls, n + 1) == Payloads(setup, calls, n);
    OthersKeepBytes(setup, r, calls[n]);
    hide After;
  }

  lemma {:induction false} ResponsesKept(setup: Setup, calls: seq<Call>, n: nat, r: Recording)
    requires n < |calls| && ValidLimits(setup.limits) && r.overflow.None? && ResponsesComplete(setup, calls, n, r)
    ensures After(setup, r, calls[n]).overflow.None? ==>
              ResponsesComplete(setup, calls, n + 1, After(setup, r, calls[n]))
    ensures calls[n].event.WritePty? ==> After(setup, r, calls[n]).overflow == BrokenBound(setup, calls, n)
  {
    hide ResponsesComplete;
    var call := calls[n];
    if !Foreign(setup, call) && call.event.WritePty? && call.event.bytes != [] {
      WriteKept(setup, calls, n, r);
    } else {
      OthersKeepResponses(setup, calls, n, r);
    }
  }

  lemma {:induction false} CountsKept(setup: Setup, calls: seq<Call>, n: nat, r: Recording)
    requires n < |calls| && r.overflow.None? && CountsComplete(setup, calls, n, r)
    ensures After(setup, r, calls[n]).overflow.None? ==> CountsComplete(setup, calls, n + 1, After(setup, r, calls[n]))
    ensures !calls[n].event.WritePty? ==> After(setup, r, calls[n]).overflow == BrokenBound(setup, calls, n)
  {
    var after := After(setup, r, calls[n]);
    if after.overflow.None? {
      forall kind: QueryKind ensures after.queries.Of(kind) == QueryCount(setup, calls, n + 1, kind) {
        assert r.queries.Of(kind) == QueryCount(setup, calls, n, kind);
      }
    }
  }

  lemma OverflowStays(setup: Setup, r: Recording, call: Call)
    requires r.overflow.Some?
    ensures After(setup, r, call).overflow == r.overflow
  {
  }

  lemma EmptyIsComplete(setup: Setup, calls: seq<Call>)
    ensures ResponsesComplete(setup, calls, 0, EMPTY.recording) && CountsComplete(setup, calls, 0, EMPTY.recording)
  {
  }

  /** What a mutation leaves in the outbox, in terms of its callbacks. */
  lemma {:induction false} Summary(setup: Setup, calls: seq<Call>, n: nat)
    requires n <= |calls| && ValidLimits(setup.limits)
    ensures var o := AllDelivered(setup, EMPTY, calls, n);
            && !o.inCallback
            && o.invalidCallback == AnyInvalid(setup, calls, n) && o.reentrant == AnyNested(setup, calls, n)
            && o.recording.overflow == FirstBroken(setup, calls, n)
            && (o.recording.overflow.None? ==>
                  ResponsesComplete(setup, calls, n, o.recording) && CountsComplete(setup, calls, n, o.recording))
  {
    hide ResponsesComplete, CountsComplete, After, BrokenBound;
    if n == 0 {
      EmptyIsComplete(setup, calls);
    } else {
      Summary(setup, calls, n - 1);
      var o := AllDelivered(setup, EMPTY, calls, n - 1);
      CallEffect(setup, o, calls[n - 1]);
      if o.recording.overflow.None? {
        ResponsesKept(setup, calls, n - 1, o.recording);
        CountsKept(setup, calls, n - 1, o.recording);
      } else {
        OverflowStays(setup, o.recording, calls[n - 1]);
      }
    }
  }

  lemma TextsAfter(setup: Setup, r: Recording, call: Call)
    ensures var after := After(setup, r, call);
            && after.titleChanged == (r.titleChanged || (!Foreign(setup, call) && call.event.TitleChanged?))
            && after.pwdChanged == (r.pwdChanged || (!Foreign(setup, call) && call.event.PwdChanged?))
            && after.title == r.title && after.pwd == r.pwd
  {
  }

  /** The change flags are the callbacks that fired; the texts themselves are copied later. */
  lemma {:induction false} TextsFired(setup: Setup, calls: seq<Call>, n: nat)
    requires n <= |calls|
    ensures var r := AllDelivered(setup, EMPTY, calls, n).recording;
            && !AllDelivered(setup, EMPTY, calls, n).inCallback
            && r.titleChanged == TitleFired(setup, calls, n) && r.pwdChanged == PwdFired(setup, calls, n)
            && r.title == [] && r.pwd == []
  {
    hide After, Foreign, Delivered;
    if n > 0 {
      TextsFired(setup, calls, n - 1);
      var o := AllDelivered(setup, EMPTY, calls, n - 1);
      CallEffect(setup, o, calls[n - 1]);
      TextsAfter(setup, o.recording, calls[n - 1]);
    }
  }

  lemma EmptyIsBounded(setup: Setup)
    ensures Bounded(setup, EMPTY.recording)
  {
  }

  lemma {:induction false} BoundedThroughout(setup: Setup, calls: seq<Call>, n: nat)
    requires n <= |calls|
    ensures Bounded(setup, AllDelivered(setup, EMPTY, calls, n).recording)
    ensures !AllDelivered(setup, EMPTY, calls, n).inCallback
  {
    hide Bounded, Recorded;
    EmptyIsBounded(setup);
    if n > 0 {
      BoundedThroughout(setup, calls, n - 1);
      var o := AllDelivered(setup, EMPTY, calls, n - 1);
      CallEffect(setup, o, calls[n - 1]);
      BoundedKept(setup, o.recording, calls[n - 1].event);
    }
  }

  /** Under valid limits these are a mebibyte in 4096 responses, 64 KiB of text, 65536 bells and as many queries. */
  lemma BoundsOfStorage(setup: Setup, r: Recording)
    requires ValidLimits(setup.limits) && Bounded(setup, r)
    ensures |r.ptyBytes| <= 1_048_576 && |r.ptyRanges| <= 4096 && |r.title| <= 65536 && |r.pwd| <= 65536
    ensures r.bells <= 65536 && forall kind: QueryKind :: r.queries.Of(kind) <= 65536
  {
  }

  /** From the first callback to the copied texts, nothing recorded outgrows the storage allocated up front. */
  lemma {:induction false} StorageSuffices(setup: Setup, calls: seq<Call>, n: nat, title: NativeText, pwd: NativeText)
    requires n <= |calls|
    ensures Bounded(setup, AllDelivered(setup, EMPTY, calls, n).recording)
    ensures var r := WithTexts(setup, Mutated(setup, calls).recording, title, pwd);
            r.Ok? ==> Bounded(setup, r.value)
  {
    BoundedThroughout(setup, calls, n);
    BoundedThroughout(setup, calls, |calls|);
    TextsFired(setup, calls, |calls|);
  }

  predicate Readable(fired: bool, text: NativeText) {
    fired ==> text.Ok?
  }

  predicate TextFits(setup: Setup, fired: bool, text: NativeText) {
    fired ==> text.Ok? && |text.value| <= setup.limits.textBytes
  }

  /** The first bound broken, by a callback or then by the copied title or directory. */
  function FirstOverflow(setup: Setup, calls: seq<Call>, title: NativeText, pwd: NativeText)
    : Option<(EffectKind, nat)>
  {
    var n := |calls|;
    if FirstBroken(setup, calls, n).Some? then FirstBroken(setup, calls, n)
    else if !TextFits(setup, TitleFired(setup, calls, n), title) then Some((Title, setup.limits.textBytes))
    else if !TextFits(setup, PwdFired(setup, calls, n), pwd) then Some((WorkingDirectory, setup.limits.textBytes))
    else None
  }

  /**
    The error a write ends with, if any: that of a getter whose changed text
    cannot be read, title first; then contract violations; then reentrancy; then
    the first bound broken.
    */
  function FirstError(setup: Setup, calls: seq<Call>, title: NativeText, pwd: NativeText): Option<GhosttyError> {
    var n := |calls|;
    if !Readable(TitleFired(setup, calls, n), title) then Some(title.error)
    else if !Readable(PwdFired(setup, calls, n), pwd) then Some(pwd.error)
    else if AnyInvalid(setup, calls, n) then Some(InvalidCallback)
    else if AnyNested(setup, calls, n) then Some(CallbackReentrant)
    else
      match FirstOverflow(setup, calls, title, pwd)
      case Some(broken) => Some(CallbackOverflow(broken.0, broken.1))
      case None => None
  }

  /** For any callbacks and any texts, a write ends with exactly that error, and else succeeds. */
  lemma {:induction false} ErrorPriority(setup: Setup, calls: seq<Call>, title: NativeText, pwd: NativeText)
    requires ValidLimits(setup.limits)
    ensures match FirstError(setup, calls, title, pwd)
            case Some(error) => Outcome(setup, calls, title, pwd) == Err(error)
            case None => Outcome(setup, calls, title, pwd).Ok?
  {
    Summary(setup, calls, |calls|);
    TextsFired(setup, calls, |calls|);
  }

  /**
    A write succeeds exactly when every callback kept the contract, none arrived
    during another, all totals were within their limits, and the changed texts
    could be read and fit.
    */
  lemma {:induction false} SucceedsIff(setup: Setup, calls: seq<Call>, title: NativeText, pwd: NativeText)
    requires ValidLimits(setup.limits)
    ensures Outcome(setup, calls, title, pwd).Ok? <==>
              && !AnyInvalid(setup, calls, |calls|) && !AnyNested(setup, calls, |calls|)
              && WithinLimits(setup, calls, |calls|)
              && TextFits(setup, TitleFired(setup, calls, |calls|), title)
              && TextFits(setup, PwdFired(setup, calls, |calls|), pwd)
  {
    Summary(setup, calls, |calls|);
    TextsFired(setup, calls, |calls|);
    BrokenIffOverLimits(setup, calls, |calls|);
  }

  /** The text a fired change is reported with. */
  function Reported(fired: bool, text: NativeText): Option<seq<Byte>> {
    if fired && text.Ok? then Some(text.value) else None
  }

  /** What a success hands out, in terms of the recording before the texts are copied. */
  lemma EffectsAreKept(setup: Setup, calls: seq<Call>, title: NativeText, pwd: NativeText)
    requires Outcome(setup, calls, title, pwd).Ok?
    ensures var effects, r := Outcome(setup, calls, title, pwd).value, Mutated(setup, calls).recording;
            && InBounds(r.ptyBytes, r.ptyRanges) && effects.responses == Slices(r.ptyBytes, r.ptyRanges)
            && effects.bells == r.bells && effects.queries == r.queries && r.overflow.None?
            && (r.titleChanged ==> title.Ok?) && (r.pwdChanged ==> pwd.Ok?)
            && (r.title == [] ==> effects.title == Reported(r.titleChanged, title))
            && (r.pwd == [] ==> effects.workingDirectory == Reported(r.pwdChanged, pwd))
  {
    AllInBounds(setup, EMPTY, calls, |calls|);
    assert forall bytes: seq<Byte> {:trigger [] + bytes} :: [] + bytes == bytes;
  }

  /** A successful write has lost nothing and made nothing up. */
  lemma {:induction false} SuccessLosesNothing(setup: Setup, calls: seq<Call>, title: NativeText, pwd: NativeText)
    requires ValidLimits(setup.limits) && Outcome(setup, calls, title, pwd).Ok?
    ensures var effects, n := Outcome(setup, calls, title, pwd).value, |calls|;
            && effects.responses == Payloads(setup, calls, n)
            && effects.bells == BellCount(setup, calls, n)
            && (forall kind: QueryKind :: effects.queries.Of(kind) == QueryCount(setup, calls, n, kind))
            && effects.title == Reported(TitleFired(setup, calls, n), title)
            && effects.workingDirectory == Reported(PwdFired(setup, calls, n), pwd)
            && Readable(TitleFired(setup, calls, n), title) && Readable(PwdFired(setup, calls, n), pwd)
  {
    EffectsAreKept(setup, calls, title, pwd);
    Summary(setup, calls, |calls|);
    TextsFired(setup, calls, |calls|);
  }
}
