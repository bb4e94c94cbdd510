/**
  The terminal core's PTY reply callback and its native handle: attached exactly
  while an authoritative core is live and not replaying, and a binary restore
  that either replaces the terminal completely or changes nothing.
  */
module PtyAttachment {
  import opened Options

  /** A native pointer; zero is null. */
  type Handle = nat

  /** A host callback, and one reply handed to it. */
  type Writer = nat
  type Reply = seq<nat>

  /** Who answers terminal queries: this core, or another one it is a replica of. */
  datatype ResponsePolicy = Authoritative | RenderOnly

  /** A chunk to write: its length, what it makes the terminal answer, whether the write throws. */
  datatype Chunk = Chunk(length: nat, replies: seq<Reply>, throws: bool)

  /** What a terminal is given: a reset, the blinking default cursor, or bytes to parse. */
  datatype Input = Reset | DefaultBlink | Bytes(chunk: Chunk)

  /**
    The runtime: live and freed handles, callback ids set on terminals, the
    writer behind each id, inputs and replies so far, and wasm blocks in use.
    */
  datatype Native = Native(
    live: set<Handle>,
    freed: seq<Handle>,
    callback: map<Handle, nat>,
    writers: map<nat, Writer>,
    nextWriterId: nat,
    inputs: seq<(Handle, Input)>,
    delivered: seq<(Writer, Reply)>,
    blocks: set<nat>,
    nextBlock: nat)

  /** The first `n` replies as one writer gets them: in order, and none for an empty one. */
  function SentUpTo(writer: Writer, replies: seq<Reply>, n: nat): (sent: seq<(Writer, Reply)>)
    requires n <= |replies|
    ensures forall pair | pair in sent :: pair.0 == writer && pair.1 != []
  {
    if n == 0 then []
    else SentUpTo(writer, replies, n - 1) + if replies[n - 1] == [] then [] else [(writer, replies[n - 1])]
  }

  function SentTo(writer: Writer, replies: seq<Reply>): (sent: seq<(Writer, Reply)>)
    ensures forall pair | pair in sent :: pair.0 == writer && pair.1 != []
  {
    SentUpTo(writer, replies, |replies|)
  }

  predicate Ascending(at: seq<nat>) {
    forall i, j | 0 <= i < j < |at| :: at[i] < at[j]
  }

  lemma AscendingSnoc(at: seq<nat>, n: nat)
    requires Ascending(at) && forall i | 0 <= i < |at| :: at[i] < n
    ensures Ascending(at + [n]) && n in at + [n] && forall i | 0 <= i < |at| :: (at + [n])[i] == at[i]
    ensures forall k | k in at :: k in at + [n]
  {
    assert (at + [n])[|at|] == n;
  }

  /** `at` lists the places of all replies that are not empty, and `sent` hands those to the writer, in order. */
  ghost predicate SentAt(sent: seq<(Writer, Reply)>, writer: Writer, replies: seq<Reply>, at: seq<nat>) {
    && |at| == |sent| && Ascending(at)
    && (forall i | 0 <= i < |at| :: at[i] < |replies| && replies[at[i]] != [] && sent[i] == (writer, replies[at[i]]))
    && (forall k | 0 <= k < |replies| && replies[k] != [] :: k in at)
  }

  /** The writer gets each reply that is not empty once, in order, and nothing else. */
  ghost predicate Reaches(sent: seq<(Writer, Reply)>, writer: Writer, replies: seq<Reply>) {
    exists at :: SentAt(sent, writer, replies, at)
  }

  lemma OneMoreSent(sent: seq<(Writer, Reply)>, writer: Writer, replies: seq<Reply>, at: seq<nat>, more: Reply)
    requires SentAt(sent, writer, replies, at)
    ensures more == [] ==> SentAt(sent, writer, replies + [more], at)
    ensures more != [] ==> SentAt(sent + [(writer, more)], writer, replies + [more], at + [|replies|])
  {
    var longer := replies + [more];
    assert forall k | 0 <= k < |replies| :: longer[k] == replies[k];
    if more != [] {
      AscendingSnoc(at, |replies|);
      hide Ascending;
      forall k | 0 <= k < |longer| && longer[k] != [] ensures k in at + [|replies|] {
        assert k < |replies| ==> k in at;
      }
    }
  }

  lemma {:induction false} SentUpToReaches(writer: Writer, replies: seq<Reply>, n: nat) returns (at: seq<nat>)
    requires n <= |replies|
    ensures SentAt(SentUpTo(writer, replies, n), writer, replies[..n], at)
  {
    if n == 0 {
      at := [];
    } else {
      at := SentUpToReaches(writer, replies, n - 1);
      hide SentAt;
      assert replies[..n] == replies[..n - 1] + [replies[n - 1]];
      OneMoreSent(SentUpTo(writer, replies, n - 1), writer, replies[..n - 1], at, replies[n - 1]);
      if replies[n - 1] != [] {
        at := at + [n - 1];
      }
    }
  }

  lemma SentReaches(writer: Writer, replies: seq<Reply>)
    ensures Reaches(SentTo(writer, replies), writer, replies)
  {
    var at := SentUpToReaches(writer, replies, |replies|);
    assert replies[..|replies|] == replies;
    assert SentAt(SentTo(writer, replies), writer, replies, at);
  }

  /** Replies the callback of a terminal passes on, if it is set and known; empty ones it drops. */
  function PassedOn(n: Native, terminal: Handle, replies: seq<Reply>): seq<(Writer, Reply)> {
    if terminal in n.callback && n.callback[terminal] in n.writers then SentTo(n.writers[n.callback[terminal]], replies)
    else []
  }

  /**
    Ids and blocks in use are below the counters; no two terminals share an
    id; a freed handle is not live, nor freed twice.
    */
  ghost predicate NativeOk(n: Native) {
    && n.nextWriterId >= 1
    && (forall id | id in n.writers :: 1 <= id < n.nextWriterId)
    && (forall h | h in n.callback :: n.callback[h] < n.nextWriterId)
    && (forall h, k | h in n.callback && k in n.callback && h != k :: n.callback[h] != n.callback[k])
    && (forall block | block in n.blocks :: block < n.nextBlock)
    && (forall i | 0 <= i < |n.freed| :: n.freed[i] !in n.live)
    && (forall i, j | 0 <= i < j < |n.freed| :: n.freed[i] != n.freed[j])
  }

  /** A writer registered under a new id that is set on the terminal. */
  function WithWriter(n: Native, terminal: Handle, writer: Writer): Native {
    n.(callback := n.callback[terminal := n.nextWriterId], writers := n.writers[n.nextWriterId := writer],
       nextWriterId := n.nextWriterId + 1)
  }

  /** The terminal's callback cleared, the writer forgotten. */
  function WithoutWriter(n: Native, terminal: Handle, id: nat): Native {
    n.(callback := n.callback - {terminal}, writers := n.writers - {id})
  }

  /** With a writer the terminal's callback leads to it under this id; without one there is no callback. */
  ghost predicate Routes(n: Native, terminal: Handle, id: nat, writer: Option<Writer>) {
    if writer.Some? then
      && terminal in n.callback && id == n.callback[terminal] > 0
      && id in n.writers && n.writers[id] == writer.value
    else terminal !in n.callback && id == 0
  }

  /** What detaching makes of the runtime: nothing if there was no id. */
  function Silenced(n: Native, terminal: Handle, id: nat): Native {
    if id == 0 then n else WithoutWriter(n, terminal, id)
  }

  function Routed(n: Native, terminal: Handle, writer: Option<Writer>): Native {
    if writer.Some? then WithWriter(n, terminal, writer.value) else n
  }

  lemma SilencedRoutesNowhere(n: Native, terminal: Handle, id: nat, writer: Option<Writer>)
    requires NativeOk(n) && Routes(n, terminal, id, writer)
    ensures var after := Silenced(n, terminal, id);
            NativeOk(after) && Routes(after, terminal, 0, None) && OthersKept(n, after, {terminal}, id)
  {
  }

  lemma RoutedAgain(n: Native, terminal: Handle, writer: Option<Writer>)
    requires NativeOk(n) && Routes(n, terminal, 0, None)
    ensures var after := Routed(n, terminal, writer);
            && NativeOk(after) && Routes(after, terminal, if writer.Some? then n.nextWriterId else 0, writer)
            && OthersKept(n, after, {terminal}, 0)
  {
  }

  /** What hosts do with a runtime: attach and detach writers, and give terminals input. */
  datatype Op =
    | Attach(terminal: Handle, writer: Writer)
    | Unattach(terminal: Handle)
    | Give(terminal: Handle, input: Input)

  /** The runtime goes through ids: the id set on a terminal, and the writer behind the id. */
  function Done(n: Native, op: Op): Native {
    match op
    case Attach(terminal, writer) => WithWriter(n, terminal, writer)
    case Unattach(terminal) => if terminal in n.callback then WithoutWriter(n, terminal, n.callback[terminal]) else n
    case Give(terminal, input) => Fed(n, terminal, input)
  }

  function AllDone(n: Native, ops: seq<Op>): Native
    decreases |ops|
  {
    if ops == [] then n else Done(AllDone(n, ops[..|ops| - 1]), ops[|ops| - 1])
  }

  /** The same without any ids: the writer attached to each terminal. */
  function Rerouted(attached: map<Handle, Writer>, op: Op): map<Handle, Writer> {
    match op
    case Attach(terminal, writer) => attached[terminal := writer]
    case Unattach(terminal) => attached - {terminal}
    case Give(_, _) => attached
  }

  function Attached(ops: seq<Op>): map<Handle, Writer>
    decreases |ops|
  {
    if ops == [] then map[] else Rerouted(Attached(ops[..|ops| - 1]), ops[|ops| - 1])
  }

  /** The replies to one operation, all to the writer its terminal has. */
  function Answer(attached: map<Handle, Writer>, op: Op): seq<(Writer, Reply)> {
    if op.Give? && op.input.Bytes? && op.terminal in attached then SentTo(attached[op.terminal], op.input.chunk.replies)
    else []
  }

  function Answered(ops: seq<Op>): seq<(Writer, Reply)>
    decreases |ops|
  {
    if ops == [] then []
    else Answered(ops[..|ops| - 1]) + Answer(Attached(ops[..|ops| - 1]), ops[|ops| - 1])
  }

  /** Going through ids leads to the attached writers. */
  ghost predicate LeadsTo(n: Native, attached: map<Handle, Writer>) {
    && (forall h :: h in n.callback <==> h in attached)
    && (forall h | h in attached :: n.callback[h] in n.writers && n.writers[n.callback[h]] == attached[h])
  }

  lemma DoneStaysOk(n: Native, op: Op)
    requires NativeOk(n)
    ensures NativeOk(Done(n, op))
  {
  }

  lemma DoneLeads(n: Native, attached: map<Handle, Writer>, op: Op)
    requires NativeOk(n) && LeadsTo(n, attached)
    ensures LeadsTo(Done(n, op), Rerouted(attached, op))
    ensures Done(n, op).delivered == n.delivered + Answer(attached, op)
  {
    match op
    case Attach(terminal, writer) =>
    case Unattach(terminal) =>
      if terminal in n.callback {
        var after := WithoutWriter(n, terminal, n.callback[terminal]);
        forall h | h in after.callback ensures after.callback[h] in after.writers {
          assert n.callback[h] != n.callback[terminal];
        }
      }
    case Give(_, _) =>
  }

  /** Going through ids delivers what the attached writers are answered. */
  lemma {:induction false} IdsLead(n: Native, ops: seq<Op>)
    requires NativeOk(n) && n.callback == map[] && n.delivered == []
    ensures var after := AllDone(n, ops);
            NativeOk(after) && LeadsTo(after, Attached(ops)) && after.delivered == Answered(ops)
    decreases |ops|
  {
    if ops != [] {
      var front, op := ops[..|ops| - 1], ops[|ops| - 1];
      IdsLead(n, front);
      DoneStaysOk(AllDone(n, front), op);
      DoneLeads(AllDone(n, front), Attached(front), op);
    }
  }

  /** Operation `j` attached a writer to the terminal, and no later one attached another or detached it. */
  predicate AttachedAt(ops: seq<Op>, terminal: Handle, j: int) {
    && 0 <= j < |ops| && ops[j].Attach? && ops[j].terminal == terminal
    && forall k | j < k < |ops| :: ops[k].terminal == terminal ==> ops[k].Give?
  }

  lemma AttachedStep(ops: seq<Op>, op: Op, terminal: Handle, j: int)
    ensures AttachedAt(ops + [op], terminal, j) <==>
            if op.terminal == terminal && !op.Give? then op.Attach? && j == |ops| else AttachedAt(ops, terminal, j)
  {
    var more := ops + [op];
    assert forall k | 0 <= k < |ops| :: more[k] == ops[k];
    assert more[|ops|] == op;
  }

  lemma {:induction false} AttachedIff(ops: seq<Op>, terminal: Handle)
    ensures terminal in Attached(ops) <==> exists j :: AttachedAt(ops, terminal, j)
    ensures forall j | AttachedAt(ops, terminal, j) ::
              j < |ops| && ops[j].Attach? && terminal in Attached(ops) && Attached(ops)[terminal] == ops[j].writer
    decreases |ops|
  {
    if ops != [] {
      var front, op := ops[..|ops| - 1], ops[|ops| - 1];
      AttachedIff(front, terminal);
      assert front + [op] == ops;
      forall j
        ensures AttachedAt(ops, terminal, j) <==>
                if op.terminal == terminal && !op.Give? then op.Attach? && j == |front|
                else AttachedAt(front, terminal, j)
      {
        AttachedStep(front, op, terminal, j);
      }
      hide AttachedAt;
      if op.Attach? && op.terminal == terminal {
        assert AttachedAt(ops, terminal, |front|);
      }
    }
  }

  /** What one more operation delivers: an input's replies reach the writer attached then, if there is one. */
  ghost predicate AnsweredRightly(ops: seq<Op>, op: Op, sent: seq<(Writer, Reply)>) {
    if op.Give? && op.input.Bytes? then
      && (forall j | AttachedAt(ops, op.terminal, j) :: Reaches(sent, ops[j].writer, op.input.chunk.replies))
      && ((forall j :: !AttachedAt(ops, op.terminal, j)) ==> sent == [])
    else sent == []
  }

  lemma AnswerIsRight(ops: seq<Op>, op: Op)
    ensures AnsweredRightly(ops, op, Answer(Attached(ops), op))
  {
    AttachedIff(ops, op.terminal);
    hide Reaches, Attached, AttachedAt, SentTo;
    if op.Give? && op.input.Bytes? && op.terminal in Attached(ops) {
      SentReaches(Attached(ops)[op.terminal], op.input.chunk.replies);
    }
  }

  /**
    After any operations on any terminals: what one more input makes its terminal
    answer reaches the writer attached to it last and not detached since, each
    reply that is not empty once and in order. A terminal that has none answers
    nobody, and no other operation delivers anything.
    */
  lemma RepliesAreRouted(n: Native, ops: seq<Op>, op: Op)
    requires NativeOk(n) && n.callback == map[] && n.delivered == []
    ensures var before, after := AllDone(n, ops), AllDone(n, ops + [op]);
            && NativeOk(after) && before.delivered <= after.delivered
            && AnsweredRightly(ops, op, after.delivered[|before.delivered|..])
  {
    hide AnsweredRightly, Attached, Answer, NativeOk;
    IdsLead(n, ops);
    IdsLead(n, ops + [op]);
    AnswerIsRight(ops, op);
    assert (ops + [op])[..|ops|] == ops;
  }

  class Runtime {
    var native: Native

    constructor ()
      ensures NativeOk(native) && native == Native({}, [], map[], map[], 1, [], [], {}, 0)
    {
      native := Native({}, [], map[], map[], 1, [], [], {}, 0);
    }

    method Alloc() returns (block: nat)
      modifies this
      ensures block == old(native).nextBlock
      ensures native == old(native).(blocks := old(native).blocks + {block}, nextBlock := block + 1)
      ensures old(NativeOk(native)) ==> NativeOk(native) && block !in old(native).blocks
    {
      block := native.nextBlock;
      native := native.(blocks := native.blocks + {block}, nextBlock := block + 1);
    }

    method Free(block: nat)
      modifies this
      ensures native == old(native).(blocks := old(native).blocks - {block})
      ensures old(NativeOk(native)) ==> NativeOk(native)
    {
      native := native.(blocks := native.blocks - {block});
    }

    /** Register a writer under a new id and set it on the terminal. */
    method AttachPtyWriter(terminal: Handle, writer: Writer) returns (id: nat)
      modifies this
      ensures id == old(native).nextWriterId
      ensures native == WithWriter(old(native), terminal, writer)
    {
      id := native.nextWriterId;
      native := native.(nextWriterId := id + 1);
      native := native.(writers := native.writers[id := writer]);
      native := native.(callback := native.callback[terminal := id]);
    }

    method DetachPtyWriter(terminal: Handle, id: nat)
      modifies this
      ensures native == WithoutWriter(old(native), terminal, id)
    {
      native := native.(callback := native.callback - {terminal});
      native := native.(writers := native.writers - {id});
    }

    /** A native constructor's new handle comes into being. */
    method Born(handle: Handle)
      modifies this
      ensures native == old(native).(live := old(native).live + {handle})
      ensures old(NativeOk(native)) && handle !in old(native).freed ==> NativeOk(native)
    {
      native := native.(live := native.live + {handle});
    }

    method FreeHandle(handle: Handle)
      modifies this
      ensures native == old(native).(live := old(native).live - {handle}, freed := old(native).freed + [handle])
      ensures old(NativeOk(native)) && handle !in old(native).freed ==> NativeOk(native)
    {
      native := native.(live := native.live - {handle}, freed := native.freed + [handle]);
    }

    /** The callback: with no writer behind the id, or nothing to write, it returns at once. */
    method WritePty(terminal: Handle, reply: Reply)
      modifies this
      ensures var n := old(native);
              native == if terminal in n.callback && n.callback[terminal] in n.writers && reply != [] then
                          n.(delivered := n.delivered + [(n.writers[n.callback[terminal]], reply)])
                        else n
    {
      if terminal !in native.callback || native.callback[terminal] !in native.writers || |reply| == 0 {
        return;
      }
      native := native.(delivered := native.delivered + [(native.writers[native.callback[terminal]], reply)]);
    }

    /** Give a terminal an input; what it answers goes through its callback, one reply after the other. */
    method Feed(terminal: Handle, input: Input)
      modifies this
      ensures native == Fed(old(native), terminal, input)
      ensures old(NativeOk(native)) ==> NativeOk(native)
    {
      native := native.(inputs := native.inputs + [(terminal, input)]);
      if input.Bytes? {
        ghost var n := native;
        ghost var known := terminal in n.callback && n.callback[terminal] in n.writers;
        for k := 0 to |input.chunk.replies|
          invariant native == n.(delivered := n.delivered
                      + if known then SentUpTo(n.writers[n.callback[terminal]], input.chunk.replies, k) else [])
        {
          WritePty(terminal, input.chunk.replies[k]);
        }
      }
    }
  }

  function Fed(n: Native, terminal: Handle, input: Input): Native {
    n.(inputs := n.inputs + [(terminal, input)],
       delivered := n.delivered + if input.Bytes? then PassedOn(n, terminal, input.chunk.replies) else [])
  }

  /** How many chunks are written before one throws. */
  function StopAt(chunks: seq<Chunk>, from: nat): (i: nat)
    requires from <= |chunks|
    ensures from <= i <= |chunks| && (i < |chunks| ==> chunks[i].length > 0 && chunks[i].throws)
    ensures forall k | from <= k < i :: chunks[k].length == 0 || !chunks[k].throws
    decreases |chunks| - from
  {
    if from == |chunks| || Throws(chunks[from]) then from else StopAt(chunks, from + 1)
  }

  predicate Throws(chunk: Chunk) {
    chunk.length > 0 && chunk.throws
  }

  /** The inputs that the first `n` chunks are; empty ones are none. */
  function InputsOf(terminal: Handle, chunks: seq<Chunk>, n: nat): seq<(Handle, Input)>
    requires n <= |chunks|
  {
    if n == 0 then []
    else
      InputsOf(terminal, chunks, n - 1)
      + if chunks[n - 1].length == 0 then [] else [(terminal, Bytes(chunks[n - 1]))]
  }

  /** `at` lists the places of all chunks that are not empty, and `given` are those, in order. */
  ghost predicate GivenAt(given: seq<(Handle, Input)>, terminal: Handle, chunks: seq<Chunk>, at: seq<nat>) {
    && |at| == |given| && Ascending(at)
    && (forall i | 0 <= i < |at| ::
          at[i] < |chunks| && chunks[at[i]].length > 0 && given[i] == (terminal, Bytes(chunks[at[i]])))
    && (forall k | 0 <= k < |chunks| && chunks[k].length > 0 :: k in at)
  }

  /** The terminal is given each chunk that is not empty once, in order, and nothing else. */
  ghost predicate Gives(given: seq<(Handle, Input)>, terminal: Handle, chunks: seq<Chunk>) {
    exists at :: GivenAt(given, terminal, chunks, at)
  }

  lemma OneMoreGiven(given: seq<(Handle, Input)>, terminal: Handle, chunks: seq<Chunk>, at: seq<nat>, more: Chunk)
    requires GivenAt(given, terminal, chunks, at)
    ensures more.length == 0 ==> GivenAt(given, terminal, chunks + [more], at)
    ensures more.length > 0 ==> GivenAt(given + [(terminal, Bytes(more))], terminal, chunks + [more], at + [|chunks|])
  {
    var longer := chunks + [more];
    assert forall k | 0 <= k < |chunks| :: longer[k] == chunks[k];
    if more.length > 0 {
      AscendingSnoc(at, |chunks|);
      hide Ascending;
      forall k | 0 <= k < |longer| && longer[k].length > 0 ensures k in at + [|chunks|] {
        assert k < |chunks| ==> k in at;
      }
    }
  }

  lemma {:induction false} InputsAt(terminal: Handle, chunks: seq<Chunk>, n: nat) returns (at: seq<nat>)
    requires n <= |chunks|
    ensures GivenAt(InputsOf(terminal, chunks, n), terminal, chunks[..n], at)
  {
    if n == 0 {
      at := [];
    } else {
      at := InputsAt(terminal, chunks, n - 1);
      hide GivenAt;
      assert chunks[..n] == chunks[..n - 1] + [chunks[n - 1]];
      OneMoreGiven(InputsOf(terminal, chunks, n - 1), terminal, chunks[..n - 1], at, chunks[n - 1]);
      if chunks[n - 1].length > 0 {
        at := at + [n - 1];
      }
    }
  }

  lemma InputsAreGiven(terminal: Handle, chunks: seq<Chunk>, n: nat)
    requires n <= |chunks|
    ensures Gives(InputsOf(terminal, chunks, n), terminal, chunks[..n])
  {
    var at := InputsAt(terminal, chunks, n);
    assert GivenAt(InputsOf(terminal, chunks, n), terminal, chunks[..n], at);
  }

  /** How the native decoder fares with a snapshot, step by step. */
  datatype Decode =
    | NoDecoder
    | OptionRefused(decoder: Handle)
    | DecodeFailed(decoder: Handle)
    | NullTerminal(decoder: Handle)
    | Decoded(decoder: Handle, terminal: Handle)

  /** Handles the native side makes are new ones. */
  ghost predicate NewHandles(n: Native, decode: Decode) {
    && (!decode.NoDecoder? ==> IsNewHandle(n, decode.decoder))
    && (decode.Decoded? ==> IsNewHandle(n, decode.terminal) && decode.terminal != decode.decoder)
  }

  ghost predicate IsNewHandle(n: Native, handle: Handle) {
    handle != 0 && handle !in n.live && handle !in n.freed && handle !in n.callback
  }

  /** The decoder of a failed restore, if there was one. */
  ghost function DecoderFreed(length: nat, decode: Decode): seq<Handle> {
    if length == 0 || decode.NoDecoder? then [] else [decode.decoder]
  }

  /** Callbacks of other terminals and writers under other ids are as before, and no other terminal gets one. */
  ghost predicate OthersKept(before: Native, after: Native, terminals: set<Handle>, id: nat) {
    && (forall h | h in before.callback && h !in terminals ::
          h in after.callback && after.callback[h] == before.callback[h])
    && (forall h | h in after.callback && h !in terminals :: h in before.callback)
    && (forall i | i in before.writers && i != id :: i in after.writers && after.writers[i] == before.writers[i])
  }

  class GhosttyTerminalCore {
    const runtime: Runtime
    const policy: ResponsePolicy
    const onPtyData: Writer
    var terminal: Handle
    var ptyWriterId: nat
    var ptyWriter: Option<Writer>
    var rows: seq<nat>
    var disposed: bool

    /** Between public calls: an authoritative core is attached to the host's writer, any other to none. */
    ghost predicate Valid()
      reads this, runtime
    {
      && NativeOk(runtime.native)
      && ptyWriter == (if policy.Authoritative? then Some(onPtyData) else None)
      && (!disposed ==>
            && terminal in runtime.native.live && terminal != 0
            && Routes(runtime.native, terminal, ptyWriterId, ptyWriter))
    }

    /** What another core does on the same runtime leaves this one in order. */
    lemma StaysValid(before: Native, acting: Handle, id: nat, writer: Option<Writer>, touched: set<Handle>)
      requires NativeOk(before) && Routes(before, acting, id, writer) && acting != terminal
      requires !disposed && ptyWriter == (if policy.Authoritative? then Some(onPtyData) else None)
      requires terminal in before.live && terminal != 0 && Routes(before, terminal, ptyWriterId, ptyWriter)
      requires NativeOk(runtime.native) && OthersKept(before, runtime.native, touched, id)
      requires terminal !in touched && terminal in runtime.native.live
      ensures Valid()
    {
      if ptyWriter.Some? && writer.Some? {
        assert before.callback[terminal] != before.callback[acting];
      }
    }

    constructor (runtime: Runtime, terminal: Handle, onPtyData: Writer, policy: ResponsePolicy)
      requires NativeOk(runtime.native) && IsNewHandle(runtime.native, terminal)
      modifies runtime
      ensures Valid() && !disposed && this.runtime == runtime && this.terminal == terminal
      ensures this.onPtyData == onPtyData && this.policy == policy
      ensures runtime.native.inputs == old(runtime.native.inputs) + [(terminal, DefaultBlink)]
      ensures runtime.native.delivered == old(runtime.native.delivered)
      ensures runtime.native.live == old(runtime.native.live) + {terminal}
      ensures runtime.native.freed == old(runtime.native.freed) && runtime.native.blocks == old(runtime.native.blocks)
      ensures OthersKept(old(runtime.native), runtime.native, {terminal}, 0)
    {
      this.runtime, this.terminal, this.onPtyData, this.policy := runtime, terminal, onPtyData, policy;
      ptyWriter := if policy.Authoritative? then Some(onPtyData) else None;
      ptyWriterId, rows, disposed := 0, [], false;
      new;
      runtime.Born(terminal);
      runtime.Feed(terminal, DefaultBlink);
      if ptyWriter.Some? {
        ptyWriterId := runtime.AttachPtyWriter(terminal, ptyWriter.value);
      }
    }

    /**
      Write output. Between public calls all replies to it reach the host's
      writer if the core is authoritative, and no one otherwise.
      */
    method Write(chunk: Chunk) returns (threw: bool)
      requires NativeOk(runtime.native) && !disposed
      modifies runtime
      ensures NativeOk(runtime.native) && threw == Throws(chunk)
      ensures runtime.native == if chunk.length == 0 || threw then old(runtime.native)
                                else Fed(old(runtime.native), terminal, Bytes(chunk))
      ensures old(Valid()) && chunk.length > 0 && !threw ==>
                && runtime.native.delivered
                   == old(runtime.native.delivered)
                      + (if policy.Authoritative? then SentTo(onPtyData, chunk.replies) else [])
                && var sent := runtime.native.delivered[|old(runtime.native.delivered)|..];
                   if policy.Authoritative? then Reaches(sent, onPtyData, chunk.replies) else sent == []
    {
      if chunk.length == 0 {
        return false;
      }
      if chunk.throws {
        return true;
      }
      runtime.Feed(terminal, Bytes(chunk));
      SentReaches(onPtyData, chunk.replies);
      threw := false;
    }

    /** Stop passing replies on, if that was on. */
    method Detach()
      requires NativeOk(runtime.native) && Routes(runtime.native, terminal, ptyWriterId, ptyWriter)
      modifies runtime, this`ptyWriterId
      ensures NativeOk(runtime.native) && Routes(runtime.native, terminal, 0, None) && ptyWriterId == 0
      ensures runtime.native == Silenced(old(runtime.native), terminal, old(ptyWriterId))
      ensures OthersKept(old(runtime.native), runtime.native, {terminal}, old(ptyWriterId))
    {
      SilencedRoutesNowhere(runtime.native, terminal, ptyWriterId, ptyWriter);
      if ptyWriterId != 0 {
        runtime.DetachPtyWriter(terminal, ptyWriterId);
        ptyWriterId := 0;
      }
    }

    /** Pass replies on again, if there is a writer. */
    method Reattach()
      requires NativeOk(runtime.native) && Routes(runtime.native, terminal, ptyWriterId, None)
      modifies runtime, this`ptyWriterId
      ensures NativeOk(runtime.native) && Routes(runtime.native, terminal, ptyWriterId, ptyWriter)
      ensures runtime.native == Routed(old(runtime.native), terminal, ptyWriter)
      ensures OthersKept(old(runtime.native), runtime.native, {terminal}, 0)
    {
      RoutedAgain(runtime.native, terminal, ptyWriter);
      if ptyWriter.Some? {
        ptyWriterId := runtime.AttachPtyWriter(terminal, ptyWriter.value);
      }
    }

    /** Write the chunks up to the first that throws, with no writer attached. */
    method WriteAll(chunks: seq<Chunk>) returns (threw: bool)
      requires NativeOk(runtime.native) && Routes(runtime.native, terminal, ptyWriterId, None) && !disposed
      modifies runtime
      ensures threw == (StopAt(chunks, 0) < |chunks|)
      ensures runtime.native == old(runtime.native).(
                inputs := old(runtime.native).inputs + InputsOf(terminal, chunks, StopAt(chunks, 0)))
    {
      threw := false;
      var i := 0;
      while i < |chunks| && !threw
        invariant 0 <= i <= |chunks| && NativeOk(runtime.native)
        invariant StopAt(chunks, 0) == StopAt(chunks, i) && (threw ==> i < |chunks| && Throws(chunks[i]))
        invariant runtime.native == old(runtime.native).(
                    inputs := old(runtime.native).inputs + InputsOf(terminal, chunks, i))
        decreases |chunks| - i, !threw
      {
        threw := Write(chunks[i]);
        if !threw {
          i := i + 1;
        }
      }
    }

    /**
      Replay archived output, up to the first chunk that throws. No reply is
      delivered to anyone, and the callback is back in place however it ends.
      */
    method WriteReplay(chunks: seq<Chunk>) returns (threw: bool)
      requires Valid() && !disposed
      modifies runtime, this`ptyWriterId
      ensures Valid() && runtime.native.delivered == old(runtime.native.delivered)
      ensures runtime.native.live == old(runtime.native.live) && runtime.native.freed == old(runtime.native.freed)
      ensures runtime.native.blocks == old(runtime.native.blocks)
      ensures OthersKept(old(runtime.native), runtime.native, {terminal}, old(ptyWriterId))
      ensures threw == (StopAt(chunks, 0) < |chunks|)
      ensures runtime.native.inputs == old(runtime.native.inputs) + InputsOf(terminal, chunks, StopAt(chunks, 0))
    {
      if |chunks| == 0 {
        return false;
      }
      Detach();
      threw := WriteAll(chunks);
      Reattach();
    }

    /**
      Reset the terminal and replay: the native reset, then the default cursor
      again, then the bytes; no reply reaches anyone, and the rows are read anew.
      */
    method ResetAndWrite(chunk: Chunk) returns (threw: bool)
      requires Valid() && !disposed
      modifies runtime, this`ptyWriterId, this`rows
      ensures Valid() && rows == [] && runtime.native.delivered == old(runtime.native.delivered)
      ensures runtime.native.live == old(runtime.native.live) && runtime.native.freed == old(runtime.native.freed)
      ensures runtime.native.blocks == old(runtime.native.blocks)
      ensures OthersKept(old(runtime.native), runtime.native, {terminal}, old(ptyWriterId))
      ensures threw == Throws(chunk)
      ensures runtime.native.inputs == old(runtime.native.inputs) + [(terminal, Reset), (terminal, DefaultBlink)]
                                       + if chunk.length == 0 || threw then [] else [(terminal, Bytes(chunk))]
    {
      runtime.Feed(terminal, Reset);
      runtime.Feed(terminal, DefaultBlink);
      rows := [];
      if chunk.length == 0 {
        return false;
      }
      var chunks := [chunk];
      assert chunks[0] == chunk;
      threw := WriteReplay(chunks);
      assert InputsOf(terminal, chunks, 0) == [];
    }

    /** Run the decoder; on success the restored terminal is live and nothing else has changed. */
    method RunDecoder(decode: Decode) returns (decoder: Handle, restored: Handle, failed: bool)
      requires Valid() && !disposed && NewHandles(runtime.native, decode)
      modifies runtime
      ensures NativeOk(runtime.native)
      ensures failed == !decode.Decoded?
      ensures decoder == (if decode.NoDecoder? then 0 else decode.decoder)
      ensures restored == (if decode.Decoded? then decode.terminal else 0)
      ensures var n := old(runtime.native);
              var made := (if decoder == 0 then {} else {decoder}) + (if restored == 0 then {} else {restored});
              runtime.native == n.(live := n.live + made, nextBlock := runtime.native.nextBlock)
              && runtime.native.nextBlock >= n.nextBlock
    {
      decoder, restored, failed := 0, 0, true;
      if !decode.NoDecoder? {
        runtime.Born(decode.decoder);
        decoder := decode.decoder;
        var option := runtime.Alloc();
        runtime.Free(option);
        if decode.Decoded? {
          runtime.Born(decode.terminal);
          restored := decode.terminal;
          failed := false;
        }
      }
    }

    /** Put the restored terminal in place of the present one. */
    method Replace(restored: Handle)
      requires Valid() && !disposed && restored in runtime.native.live && restored != terminal && restored != 0
      requires restored !in runtime.native.callback && terminal !in runtime.native.freed
      modifies runtime, this
      ensures Valid() && !disposed && terminal == restored && rows == [] && ptyWriter == old(ptyWriter)
      ensures runtime.native.live == old(runtime.native.live) - {old(terminal)}
      ensures runtime.native.freed == old(runtime.native.freed) + [old(terminal)]
      ensures runtime.native.delivered == old(runtime.native.delivered)
              && runtime.native.blocks == old(runtime.native.blocks)
      ensures runtime.native.nextBlock == old(runtime.native.nextBlock)
      ensures runtime.native.inputs == old(runtime.native.inputs)
      ensures old(terminal) !in runtime.native.callback
      ensures OthersKept(old(runtime.native), runtime.native, {old(terminal), terminal}, old(ptyWriterId))
    {
      hide NativeOk;
      Detach();
      runtime.FreeHandle(terminal);
      terminal := restored;
      Reattach();
      rows := [];
    }

    /**
      Replace this replica with a decoded snapshot. If any step of decoding fails,
      terminal, attachment, rows, handles and memory are as before; on success the
      old terminal is freed, once, and the new one takes over the attachment.
      */
    method RestoreBinarySnapshot(length: nat, decode: Decode) returns (ok: bool)
      requires Valid() && !disposed && NewHandles(runtime.native, decode)
      modifies runtime, this
      ensures Valid() && !disposed && ptyWriter == old(ptyWriter)
      ensures ok == (length > 0 && decode.Decoded?)
      ensures runtime.native.blocks == old(runtime.native.blocks)
              && runtime.native.delivered == old(runtime.native.delivered)
      ensures runtime.native.inputs == old(runtime.native.inputs)
      ensures OthersKept(old(runtime.native), runtime.native, {old(terminal), terminal}, old(ptyWriterId))
      ensures !ok ==> terminal == old(terminal) && ptyWriterId == old(ptyWriterId) && rows == old(rows)
                      && runtime.native.callback == old(runtime.native.callback)
                      && runtime.native.writers == old(runtime.native.writers)
                      && runtime.native.live == old(runtime.native.live)
                      && runtime.native.freed == old(runtime.native.freed) + DecoderFreed(length, decode)
      ensures ok ==> terminal == decode.terminal && rows == []
                     && runtime.native.live == old(runtime.native.live) - {old(terminal)} + {decode.terminal}
                     && runtime.native.freed == old(runtime.native.freed) + [old(terminal), decode.decoder]
                     && old(terminal) !in runtime.native.callback
    {
      hide NativeOk;
      if length == 0 {
        return false;
      }
      var input := runtime.Alloc();
      var decoderSlot := runtime.Alloc();
      var terminalSlot := runtime.Alloc();
      var decoder, restored, failed := RunDecoder(decode);
      if !failed {
        Replace(restored);
      }
      if decoder != 0 {
        runtime.FreeHandle(decoder);
      }
      runtime.Free(terminalSlot);
      runtime.Free(decoderSlot);
      runtime.Free(input);
      ok := !failed;
    }

    /** Free the terminal and its attachment; a second call does nothing. */
    method Dispose()
      requires Valid()
      modifies runtime, this
      ensures Valid() && disposed && ptyWriter == old(ptyWriter) && terminal == old(terminal)
      ensures old(disposed) ==> runtime.native == old(runtime.native)
      ensures OthersKept(old(runtime.native), runtime.native, {terminal}, old(ptyWriterId))
      ensures !old(disposed) ==>
                && runtime.native.live == old(runtime.native.live) - {terminal}
                && runtime.native.freed == old(runtime.native.freed) + [terminal]
                && terminal !in runtime.native.callback && runtime.native.delivered == old(runtime.native.delivered)
                && runtime.native.inputs == old(runtime.native.inputs)
                && runtime.native.blocks == old(runtime.native.blocks)
                && (old(ptyWriterId) != 0 ==> old(ptyWriterId) !in runtime.native.writers)
    {
      if disposed {
        return;
      }
      disposed := true;
      if terminal != 0 {
        if ptyWriterId != 0 {
          runtime.DetachPtyWriter(terminal, ptyWriterId);
        }
        runtime.FreeHandle(terminal);
      }
    }
  }

  /** One more core on a runtime: a live one stays in order, on another terminal. */
  method Open(runtime: Runtime, terminal: Handle, onPtyData: Writer, policy: ResponsePolicy,
              ghost other: GhosttyTerminalCore)
    returns (core: GhosttyTerminalCore)
    requires other.Valid() && !other.disposed && other.runtime == runtime
    requires IsNewHandle(runtime.native, terminal)
    modifies runtime
    ensures fresh(core) && core.Valid() && !core.disposed && core.runtime == runtime
    ensures other.Valid() && core.terminal != other.terminal
    ensures runtime.native.delivered == old(runtime.native.delivered)
  {
    ghost var before := runtime.native;
    core := new GhosttyTerminalCore(runtime, terminal, onPtyData, policy);
    other.StaysValid(before, terminal, 0, None, {terminal});
  }

  /** What a host does with one of its cores. */
  datatype Action =
    | Live(chunk: Chunk)
    | Replay(chunks: seq<Chunk>)
    | ResetTo(chunk: Chunk)
    | Restore(length: nat, decode: Decode)
    | Close

  /**
    Cores share one runtime. Whatever is done with one of them, every other live
    one stays in order on a terminal of its own, and only the acting core's own
    writer is given anything, if it is authoritative.
    */
  method Act(core: GhosttyTerminalCore, action: Action, ghost other: GhosttyTerminalCore)
    requires core.Valid() && !core.disposed && other.Valid() && !other.disposed
    requires core != other && core.runtime == other.runtime && core.terminal != other.terminal
    requires action.Restore? ==> NewHandles(core.runtime.native, action.decode)
    modifies core, core.runtime
    ensures core.Valid() && other.Valid() && core.disposed == action.Close? && core.terminal != other.terminal
    ensures old(core.runtime.native.delivered) <= core.runtime.native.delivered
    ensures forall k | old(|core.runtime.native.delivered|) <= k < |core.runtime.native.delivered| ::
              core.policy.Authoritative? && core.runtime.native.delivered[k].0 == core.onPtyData
  {
    hide Reaches, SentUpTo;
    ghost var before, acting, id := core.runtime.native, core.terminal, core.ptyWriterId;
    match action {
      case Live(chunk) => var _ := core.Write(chunk);
      case Replay(chunks) => var _ := core.WriteReplay(chunks);
      case ResetTo(chunk) => var _ := core.ResetAndWrite(chunk);
      case Restore(length, decode) => var _ := core.RestoreBinarySnapshot(length, decode);
      case Close => core.Dispose();
    }
    other.StaysValid(before, acting, id, core.ptyWriter, {acting, core.terminal});
  }
}
