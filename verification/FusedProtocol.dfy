/**
 The fused predicate: label transfer by oblivious transfer, and the CSP's F/G transcript with its
 replay set. The server's steps are functions of its state and a frame; CspServer carries them out.
 */
module FusedProtocol {
  import opened Wrappers
  import opened NumberTheory
  import opened Paillier
  import opened SecureProtocols
  import opened Garbling

  datatype PredicateContext = PredicateContext(
    session: string, operation: string, kind: PredicateType, depth: nat, node: string)

  // ---------------------------------------------------------------- oblivious transfer

  /** The client's RSA key for the transfers; Valid is what its generation guarantees. */
  datatype OtKey = OtKey(n: int, e: nat, d: nat) {
    ghost predicate Valid() {
      && OtModulusOk(n) && e == OT_EXPONENT
      && forall k :: 0 <= k < n ==> Pow(Pow(k, e) % n, d) % n == k
    }
  }

  const OT_EXPONENT := 65537
  const OT_BITS := 3072

  predicate OtModulusOk(n: int) {
    0 < n && BitLength(n) == OT_BITS
  }

  function OtReply(n: int, e: nat, x0: int, x1: int, choice: bool, k: int): int
    requires 0 < n
  {
    ((if choice then x1 else x0) + Pow(k, e) % n) % n
  }

  function OtRecover(n: int, d: nat, v: int, x: int): int
    requires 0 < n
  {
    Pow((v - x) % n, d) % n
  }

  /** Under the chosen nonce the client recovers the server's key. */
  lemma OtTransfers(ot: OtKey, x0: int, x1: int, choice: bool, k: int)
    requires ot.Valid() && 0 <= k < ot.n
    ensures var v := OtReply(ot.n, ot.e, x0, x1, choice, k);
      OtRecover(ot.n, ot.d, v, if choice then x1 else x0) == k
  {
    hide Pow;
    TakenOff(if choice then x1 else x0, Pow(k, ot.e) % ot.n, ot.n);
  }

  lemma TakenOff(x: int, y: int, n: int)
    requires 0 <= y < n
    ensures ((x + y) % n - x) % n == y
  {
    CongMod(x + y, n);
    CongRefl(-x, n);
    CongAdd((x + y) % n, x + y, -x, -x, n);
    ModIs((x + y) % n - x, y, n);
  }

  // ---------------------------------------------------------------- frames and state

  datatype StartItem = StartItem(difference: Ciphertext, share: int, x0: int, x1: int)

  datatype StartFrame = StartFrame(context: PredicateContext, incumbent: bool, rsaN: int, rsaE: nat, items: seq<StartItem>)

  datatype FinishFrame = FinishFrame(context: PredicateContext, messages: seq<(Label, Label)>, tables: seq<Table>,
    out0: Label, out1: Label)

  datatype RevealFrame = RevealFrame(context: PredicateContext, bit: Ciphertext, share: int)

  /**
   What arrives on a connection: F, G and P requests, other legal requests (they name no context),
   and what the server cannot carry out. Start also carries the keys that the server draws.
   */
  datatype Frame =
    | Start(start: StartFrame, draws: seq<int>)
    | Finish(finish: FinishFrame)
    | Reveal(query: RevealFrame)
    | Unrelated
    | Broken

  datatype Pending = Pending(context: PredicateContext, choices: seq<bool>, keys: seq<int>, circuit: Circuit)

  datatype State = State(pending: Option<Pending>, replays: set<string>)

  datatype Outcome =
    | Rejected
    | Offered(values: seq<int>)
    | Decided(context: PredicateContext, bit: bool)
    | Revealed(context: PredicateContext, bit: bool)
    | NoBit
    | Served

  predicate ContextFieldOk(s: string) {
    0 < |s| <= 128
  }

  predicate ContextOk(c: PredicateContext) {
    ContextFieldOk(c.session) && ContextFieldOk(c.operation) && ContextFieldOk(c.node)
  }

  /** The server's replay key: the two names around a zero byte. */
  function SessionKey(session: string, operation: string): string {
    session + [0 as char] + operation
  }

  function ReplayKey(c: PredicateContext): string {
    SessionKey(c.session, c.operation)
  }

  predicate StartOk(f: StartFrame) {
    && ContextOk(f.context) && BatchSizeOk(|f.items|)
    && OtModulusOk(f.rsaN) && f.rsaE == OT_EXPONENT
    && forall i :: 0 <= i < |f.items| ==> 0 < f.items[i].x0 < f.rsaN && 0 < f.items[i].x1 < f.rsaN
  }

  /** The batch decryption of an F frame: all items or nothing. */
  function DecryptItems(k: Key, items: seq<StartItem>): (r: Option<seq<int>>)
    requires 0 < k.n
    ensures r.Some? ==> |r.value| == |items|
  {
    if items == [] then Some([]) else
      var d := |items| - 1;
      var before := DecryptItems(k, items[..d]);
      var last := k.ThresholdDecrypt(items[d].difference, items[d].share);
      if before.Some? && last.Some? then Some(before.value + [last.value]) else None
  }

  function Choices(k: Key, plain: seq<int>): seq<bool>
    requires 0 < k.n
  {
    seq(|plain|, i requires 0 <= i < |plain| => plain[i] <= k.n / 2)
  }

  /** The F step: the replay key is consumed before anything can fail after it. */
  function StartStep(k: Key, s: State, f: StartFrame, draws: seq<int>): (State, Outcome)
    requires 0 < k.n && |draws| == |f.items|
  {
    var dropped := s.(pending := None);
    if s.pending.Some? || !StartOk(f) || ReplayKey(f.context) in s.replays then (dropped, Rejected)
    else
      var consumed := State(None, s.replays + {ReplayKey(f.context)});
      var circuit := PredicateCircuit(f.context.kind, |f.items|, f.incumbent);
      var plain := DecryptItems(k, f.items);
      if circuit.None? || plain.None? then (consumed, Rejected)
      else
        var choices := Choices(k, plain.value);
        assert 0 < f.rsaN;
        (consumed.(pending := Some(Pending(f.context, choices, draws, circuit.value))),
         Offered(seq(|draws|, i requires 0 <= i < |draws| =>
           OtReply(f.rsaN, f.rsaE, f.items[i].x0, f.items[i].x1, choices[i], draws[i]))))
  }

  predicate PendingOk(p: Pending) {
    p.circuit.WellFormed() && p.circuit.inputs == |p.choices| == |p.keys|
  }

  predicate StateOk(s: State) {
    s.pending.Some? ==> PendingOk(s.pending.value)
  }

  function OpenMessages(pads: Pads, p: Pending, messages: seq<(Label, Label)>): (labels: seq<Label>)
    requires PendingOk(p) && |messages| == |p.choices|
    ensures |labels| == |messages|
  {
    seq(|messages|, i requires 0 <= i < |messages| => OpenMessage(pads, p, messages[i], i))
  }

  function OpenMessage(pads: Pads, p: Pending, message: (Label, Label), i: nat): Label
    requires i < |p.choices| && i < |p.keys|
  {
    Xor(if p.choices[i] then message.1 else message.0, pads.ot(p.keys[i], i))
  }

  /** The G step: the pending start is used up whatever happens. */
  function FinishStep(pads: Pads, s: State, f: FinishFrame): (State, Outcome)
    requires StateOk(s)
  {
    var dropped := s.(pending := None);
    if s.pending.None? then (dropped, Rejected)
    else
      var p := s.pending.value;
      if f.context != p.context || |f.messages| != |p.choices| || |f.tables| != |p.circuit.gates| then
        (dropped, Rejected)
      else
        var labels := Evaluation(p.circuit, pads, f.tables, OpenMessages(pads, p, f.messages), |p.circuit.wires|);
        var out := labels[p.circuit.output];
        if out == f.out0 then (dropped, Decided(p.context, false))
        else if out == f.out1 then (dropped, Decided(p.context, true))
        else (dropped, Rejected)
  }

  /** The single decryption of a P frame: the server's enclave checks the ciphertext, not the share. */
  function DecryptOne(k: Key, c: Ciphertext, share: int): Option<int>
    requires 0 < k.n
  {
    if 0 < c < k.Nsq() then k.Combine(share, k.PartialDecrypt(k.lambda2, c)) else None
  }

  /** The P step: the bit of any context is revealed, with no start and no replay check. */
  function RevealStep(k: Key, s: State, f: RevealFrame): (State, Outcome)
    requires 0 < k.n
  {
    var plain := DecryptOne(k, f.bit, f.share);
    if !ContextOk(f.context) || plain.None? then (s.(pending := None), Rejected)
    else if plain.value == 0 || plain.value == 1 then (s, Revealed(f.context, plain.value == 1))
    else (s, NoBit)
  }

  // ---------------------------------------------------------------- what the steps accept

  /** Exactly which F requests are accepted. */
  lemma StartExactly(k: Key, s: State, f: StartFrame, draws: seq<int>)
    requires 0 < k.n && |draws| == |f.items|
    ensures StartStep(k, s, f, draws).1.Offered? <==>
      && s.pending.None?
      && 1 <= |f.context.session| <= 128 && 1 <= |f.context.operation| <= 128 && 1 <= |f.context.node| <= 128
      && 1 <= |f.items| <= 32
      && 0 < f.rsaN && BitLength(f.rsaN) == 3072 && f.rsaE == 65537
      && (forall i :: 0 <= i < |f.items| ==> 0 < f.items[i].x0 < f.rsaN && 0 < f.items[i].x1 < f.rsaN)
      && f.context.session + [0 as char] + f.context.operation !in s.replays
      && ShapeOk(f.context.kind, |f.items|, f.incumbent)
      && (forall i :: 0 <= i < |f.items| ==> k.ThresholdDecrypt(f.items[i].difference, f.items[i].share).Some?)
    ensures StartStep(k, s, f, draws).1.Offered? || StartStep(k, s, f, draws).1.Rejected?
  {
    DecryptsAll(k, f.items);
    if ShapeOk(f.context.kind, |f.items|, f.incumbent) {
      CircuitExists(f.context.kind, |f.items|, f.incumbent);
    }
  }

  lemma CircuitExists(kind: PredicateType, n: nat, incumbent: bool)
    ensures PredicateCircuit(kind, n, incumbent).Some? <==> ShapeOk(kind, n, incumbent)
  {
    CircuitComputesFormula(kind, seq(n, _ => false), incumbent);
  }

  lemma {:induction false} DecryptsAll(k: Key, items: seq<StartItem>)
    requires 0 < k.n
    ensures DecryptItems(k, items).Some? <==>
      forall i :: 0 <= i < |items| ==> k.ThresholdDecrypt(items[i].difference, items[i].share).Some?
    ensures DecryptItems(k, items).Some? ==>
      && |DecryptItems(k, items).value| == |items|
      && forall i :: 0 <= i < |items| ==>
           k.ThresholdDecrypt(items[i].difference, items[i].share) == Some(DecryptItems(k, items).value[i])
  {
    if items != [] {
      DecryptsAll(k, items[..|items| - 1]);
    }
  }

  /** Exactly which G requests get which decision: one for the pending context, of its shape, with a known output label. */
  lemma FinishExactly(pads: Pads, s: State, f: FinishFrame, bit: bool)
    requires StateOk(s)
    ensures FinishStep(pads, s, f).1 == Decided(f.context, bit) <==>
      && s.pending.Some? && f.context == s.pending.value.context
      && var p := s.pending.value;
      && |f.messages| == |p.choices| && |f.tables| == |p.circuit.gates|
      && var inputs := OpenMessages(pads, p, f.messages);
         var out := Evaluation(p.circuit, pads, f.tables, inputs, |p.circuit.wires|)[p.circuit.output];
         if bit then out != f.out0 && out == f.out1 else out == f.out0
    ensures s.pending.Some? && |f.messages| == |s.pending.value.choices| ==>
      var p := s.pending.value;
      forall i :: 0 <= i < |p.choices| ==>
        OpenMessages(pads, p, f.messages)[i]
        == Xor(if p.choices[i] then f.messages[i].1 else f.messages[i].0, pads.ot(p.keys[i], i))
    ensures FinishStep(pads, s, f).1.Decided? || FinishStep(pads, s, f).1.Rejected?
    ensures FinishStep(pads, s, f).0 == s.(pending := None)
  {
  }

  /** Exactly which P requests reveal which bit, and what the others do. */
  lemma RevealExactly(k: Key, s: State, f: RevealFrame)
    requires 0 < k.n
    ensures var (t, o) := RevealStep(k, s, f);
      var named := 1 <= |f.context.session| <= 128 && 1 <= |f.context.operation| <= 128 && 1 <= |f.context.node| <= 128;
      if named && 0 < f.bit < k.n * k.n && k.Combine(f.share, k.PartialDecrypt(k.lambda2, f.bit)).Some? then
        var plain := k.Combine(f.share, k.PartialDecrypt(k.lambda2, f.bit)).value;
        && t == s
        && (plain == 0 ==> o == Revealed(f.context, false)) && (plain == 1 ==> o == Revealed(f.context, true))
        && (plain != 0 && plain != 1 ==> o == NoBit)
      else t == s.(pending := None) && o == Rejected
  {
  }

  /** Circuits that the server builds are always well formed. */
  lemma PredicateCircuitOk(kind: PredicateType, n: nat, incumbent: bool)
    requires PredicateCircuit(kind, n, incumbent).Some? && 0 < n
    ensures PredicateCircuit(kind, n, incumbent).value.WellFormed()
    ensures PredicateCircuit(kind, n, incumbent).value.inputs == n
  {
    var bits := seq(n, i => false);
    CircuitComputesFormula(kind, bits, incumbent);
  }

  lemma StartStepOk(k: Key, s: State, f: StartFrame, draws: seq<int>)
    requires 0 < k.n && |draws| == |f.items| && StateOk(s)
    ensures StateOk(StartStep(k, s, f, draws).0)
  {
    var circuit := PredicateCircuit(f.context.kind, |f.items|, f.incumbent);
    if circuit.Some? && 0 < |f.items| {
      PredicateCircuitOk(f.context.kind, |f.items|, f.incumbent);
    }
  }

  // ---------------------------------------------------------------- every run of the server

  predicate FrameOk(f: Frame) {
    f.Start? ==> |f.draws| == |f.start.items|
  }

  /**
   One frame. Requests of other kinds leave the transcript alone; a malformed frame, a failed one
   or a lost connection drops it.
   */
  function Step(k: Key, pads: Pads, s: State, f: Frame): (State, Outcome)
    requires 0 < k.n && StateOk(s) && FrameOk(f)
  {
    match f
    case Start(start, draws) => StartStep(k, s, start, draws)
    case Finish(finish) => FinishStep(pads, s, finish)
    case Reveal(query) => RevealStep(k, s, query)
    case Unrelated => (s, Served)
    case Broken => (s.(pending := None), Rejected)
  }

  /** A decision is the answer to a G request that names the pending start in every part of its context. */
  lemma DecidesItsStart(k: Key, pads: Pads, s: State, f: Frame)
    requires 0 < k.n && StateOk(s) && FrameOk(f) && Step(k, pads, s, f).1.Decided?
    ensures f.Finish? && s.pending.Some?
    ensures var (asked, started) := (f.finish.context, s.pending.value.context);
      && asked.session == started.session && asked.operation == started.operation
      && asked.kind == started.kind && asked.depth == started.depth && asked.node == started.node
    ensures Step(k, pads, s, f).1.context == f.finish.context
  {
  }

  /** The accepted starts of a run, the decisions of its circuits and the bits it reveals, in order. */
  datatype Event =
    | Started(context: PredicateContext)
    | Released(context: PredicateContext, bit: bool)
    | Shown(context: PredicateContext, bit: bool)

  function EventsOf(f: Frame, o: Outcome): seq<Event> {
    match o
    case Offered(_) => if f.Start? then [Started(f.start.context)] else []
    case Decided(_, bit) => if f.Finish? then [Released(f.finish.context, bit)] else []
    case Revealed(_, bit) => if f.Reveal? then [Shown(f.query.context, bit)] else []
    case _ => []
  }

  ghost function Run(k: Key, pads: Pads, s: State, frames: seq<Frame>): (r: (State, seq<Event>))
    requires 0 < k.n && StateOk(s) && forall i :: 0 <= i < |frames| ==> FrameOk(frames[i])
    ensures StateOk(r.0)
  {
    if frames == [] then (s, []) else
      var d := |frames| - 1;
      var (t, log) := Run(k, pads, s, frames[..d]);
      var (u, o) := Step(k, pads, t, frames[d]);
      StepOk(k, pads, t, frames[d]);
      (u, log + EventsOf(frames[d], o))
  }

  lemma StepOk(k: Key, pads: Pads, s: State, f: Frame)
    requires 0 < k.n && StateOk(s) && FrameOk(f)
    ensures StateOk(Step(k, pads, s, f).0)
  {
    if f.Start? {
      StartStepOk(k, s, f.start, f.draws);
    }
  }

  const INITIAL := State(None, {})

  /** The log of the circuits alone: without the bits that P requests reveal. */
  function Transcript(log: seq<Event>): (r: seq<Event>)
    ensures forall e :: e in r <==> e in log && !e.Shown?
  {
    if log == [] then [] else
      var last := log[|log| - 1];
      Transcript(log[..|log| - 1]) + if last.Shown? then [] else [last]
  }

  /** What holds of the transcript after every run. */
  ghost predicate LogOk(s: State, log: seq<Event>) {
    && (forall i :: 0 <= i < |log| && log[i].Started? ==> ReplayKey(log[i].context) in s.replays)
    && (forall i, j :: 0 <= i < j < |log| && log[i].Started? && log[j].Started? ==>
          ReplayKey(log[i].context) != ReplayKey(log[j].context))
    && (forall i :: 0 <= i < |log| && log[i].Released? ==> 0 < i && log[i - 1] == Started(log[i].context))
    && (s.pending.Some? ==> log != [] && log[|log| - 1] == Started(s.pending.value.context))
  }

  /**
   Over any run: every decision of a circuit answers a G request and comes right after the accepted
   start of the very context that this request names (bits revealed in between aside), and accepted
   starts have distinct keys.
   */
  lemma {:induction false} RunsAreSafe(k: Key, pads: Pads, frames: seq<Frame>)
    requires 0 < k.n && forall i :: 0 <= i < |frames| ==> FrameOk(frames[i])
    ensures LogOk(Run(k, pads, INITIAL, frames).0, Transcript(Run(k, pads, INITIAL, frames).1))
  {
    if frames == [] {
    } else {
      var d := |frames| - 1;
      RunsAreSafe(k, pads, frames[..d]);
      var (s, log) := Run(k, pads, INITIAL, frames[..d]);
      StepKeepsLog(k, pads, s, log, frames[d]);
    }
  }

  /**
   No two decisions of circuits share a replay key, and each comes right after the accepted start of
   its context.
   */
  lemma AtMostOneDecision(k: Key, pads: Pads, frames: seq<Frame>, i: int, j: int)
    requires 0 < k.n && forall l :: 0 <= l < |frames| ==> FrameOk(frames[l])
    requires var log := Transcript(Run(k, pads, INITIAL, frames).1);
      0 <= i < j < |log| && log[i].Released? && log[j].Released?
    ensures var log := Transcript(Run(k, pads, INITIAL, frames).1);
      && 0 < i && log[i - 1] == Started(log[i].context) && log[j - 1] == Started(log[j].context)
      && ReplayKey(log[i].context) != ReplayKey(log[j].context)
  {
    RunsAreSafe(k, pads, frames);
    var log := Transcript(Run(k, pads, INITIAL, frames).1);
    assert log[i - 1].Started? && log[j - 1].Started?;
  }

  lemma LogStarts(s: State, t: State, log: seq<Event>, c: PredicateContext)
    requires LogOk(s, log) && ReplayKey(c) !in s.replays && t.replays == s.replays + {ReplayKey(c)}
    requires t.pending.Some? && t.pending.value.context == c
    ensures LogOk(t, log + [Started(c)])
  {
    var log' := log + [Started(c)];
    assert forall i :: 0 <= i < |log| ==> log'[i] == log[i];
  }

  lemma LogReleases(s: State, t: State, log: seq<Event>, c: PredicateContext, bit: bool)
    requires LogOk(s, log) && s.pending.Some? && s.pending.value.context == c
    requires t == s.(pending := None)
    ensures LogOk(t, log + [Released(c, bit)])
  {
    var log' := log + [Released(c, bit)];
    assert forall i :: 0 <= i < |log| ==> log'[i] == log[i];
  }

  lemma LogStays(s: State, t: State, log: seq<Event>)
    requires LogOk(s, log) && s.replays <= t.replays && (t.pending == None || t.pending == s.pending)
    ensures LogOk(t, log)
  {
  }

  lemma StepKeepsLog(k: Key, pads: Pads, s: State, log: seq<Event>, f: Frame)
    requires 0 < k.n && StateOk(s) && FrameOk(f) && LogOk(s, Transcript(log))
    ensures LogOk(Step(k, pads, s, f).0, Transcript(log + EventsOf(f, Step(k, pads, s, f).1)))
  {
    hide LogOk, Transcript;
    var (t, o) := Step(k, pads, s, f);
    LastEvent(log, EventsOf(f, o));
    if f.Start? && o.Offered? {
      LogStarts(s, t, Transcript(log), f.start.context);
    } else if o.Decided? {
      DecidesItsStart(k, pads, s, f);
      LogReleases(s, t, Transcript(log), f.finish.context, o.bit);
    } else {
      assert Transcript(log) + [] == Transcript(log);
      LogStays(s, t, Transcript(log));
    }
  }

  lemma LastEvent(log: seq<Event>, events: seq<Event>)
    requires |events| <= 1
    ensures Transcript(log + events) ==
      Transcript(log) + if events == [] || events[0].Shown? then [] else events
  {
    if events == [] {
      assert log + events == log;
    } else {
      assert (log + events)[..|log|] == log;
    }
  }

  /** A rejected frame leaves nothing pending, and never gives a consumed key back. */
  lemma RejectionDropsTranscript(k: Key, pads: Pads, s: State, f: Frame)
    requires 0 < k.n && StateOk(s) && FrameOk(f)
    ensures s.replays <= Step(k, pads, s, f).0.replays
    ensures Step(k, pads, s, f).1.Rejected? ==> Step(k, pads, s, f).0.pending.None?
    ensures f.Start? && s.pending.None? && StartOk(f.start) ==> ReplayKey(f.start.context) in Step(k, pads, s, f).0.replays
  {
  }

  // ---------------------------------------------------------------- how often a key is decided

  /** A decision for the key, by its circuit or by a P request. */
  predicate IsDecision(e: Event, key: string) {
    !e.Started? && ReplayKey(e.context) == key
  }

  function Decisions(log: seq<Event>, key: string): nat {
    if log == [] then 0 else
      var d := |log| - 1;
      Decisions(log[..d], key) + if IsDecision(log[d], key) then 1 else 0
  }

  lemma {:induction false} DecisionsAdd(log: seq<Event>, more: seq<Event>, key: string)
    ensures Decisions(log + more, key) == Decisions(log, key) + Decisions(more, key)
  {
    if more == [] {
      assert log + more == log;
    } else {
      var d := |more| - 1;
      DecisionsAdd(log, more[..d], key);
      assert (log + more)[..|log| + d] == log + more[..d];
    }
  }

  /** A P request that names the key and decrypts to a bit; the server's state plays no part. */
  predicate RevealsFor(k: Key, f: Frame, key: string)
    requires 0 < k.n
  {
    && f.Reveal? && ContextOk(f.query.context) && ReplayKey(f.query.context) == key
    && var plain := DecryptOne(k, f.query.bit, f.query.share); plain == Some(0) || plain == Some(1)
  }

  function Reveals(k: Key, frames: seq<Frame>, key: string): nat
    requires 0 < k.n
  {
    if frames == [] then 0 else
      var d := |frames| - 1;
      Reveals(k, frames[..d], key) + if RevealsFor(k, frames[d], key) then 1 else 0
  }

  /** The decision of the key's circuit can still be to come. */
  predicate Open(s: State, key: string) {
    key !in s.replays || (s.pending.Some? && ReplayKey(s.pending.value.context) == key)
  }

  /** No start can give a decision of the key any more. */
  predicate Spent(s: State, key: string) {
    !Open(s, key)
  }

  ghost predicate PendingConsumed(s: State) {
    s.pending.Some? ==> ReplayKey(s.pending.value.context) in s.replays
  }

  /** One frame decides for the key by revealing, or by the one decision of its circuit. */
  lemma StepDecides(k: Key, pads: Pads, s: State, f: Frame, key: string)
    requires 0 < k.n && StateOk(s) && FrameOk(f) && PendingConsumed(s)
    ensures var (t, o) := Step(k, pads, s, f); var more := Decisions(EventsOf(f, o), key);
      && PendingConsumed(t)
      && (Spent(s, key) ==> Spent(t, key))
      && (RevealsFor(k, f, key) ==> more == 1 && Open(t, key) == Open(s, key))
      && (!RevealsFor(k, f, key) ==> more == 0 || (more == 1 && Open(s, key) && Spent(t, key)))
  {
    var (t, o) := Step(k, pads, s, f);
    var events := EventsOf(f, o);
    OneEvent(events, key);
  }

  /**
   The number of decisions of a key over any run: one for each P request that names it and decrypts
   to a bit, and at most one more, from its circuit, for as long as the key was not spent.
   */
  lemma {:induction false} DecisionCount(k: Key, pads: Pads, s: State, frames: seq<Frame>, key: string)
    requires 0 < k.n && StateOk(s) && PendingConsumed(s) && forall i :: 0 <= i < |frames| ==> FrameOk(frames[i])
    ensures var (t, log) := Run(k, pads, s, frames); var circuit := Decisions(log, key) - Reveals(k, frames, key);
      && PendingConsumed(t)
      && (circuit == 0 || (circuit == 1 && Open(s, key) && Spent(t, key)))
      && (Spent(s, key) ==> Spent(t, key))
  {
    if frames == [] {
    } else {
      var d := |frames| - 1;
      DecisionCount(k, pads, s, frames[..d], key);
      var (t, log) := Run(k, pads, s, frames[..d]);
      StepDecides(k, pads, t, frames[d], key);
      OneMoreFrame(k, pads, s, frames[..d], frames[d], key);
      assert frames[..d] + [frames[d]] == frames;
    }
  }

  /** Once a key is spent, only P requests decide for it, each of them once. */
  lemma SpentForever(k: Key, pads: Pads, s: State, frames: seq<Frame>, key: string)
    requires 0 < k.n && StateOk(s) && PendingConsumed(s) && forall i :: 0 <= i < |frames| ==> FrameOk(frames[i])
    requires Spent(s, key)
    ensures Spent(Run(k, pads, s, frames).0, key)
    ensures Decisions(Run(k, pads, s, frames).1, key) == Reveals(k, frames, key)
  {
    DecisionCount(k, pads, s, frames, key);
  }

  lemma OneMoreFrame(k: Key, pads: Pads, s: State, frames: seq<Frame>, f: Frame, key: string)
    requires 0 < k.n && StateOk(s) && FrameOk(f) && forall i :: 0 <= i < |frames| ==> FrameOk(frames[i])
    ensures var (t, log) := Run(k, pads, s, frames); var (u, o) := Step(k, pads, t, f);
      && Run(k, pads, s, frames + [f]).0 == u
      && Decisions(Run(k, pads, s, frames + [f]).1, key) == Decisions(log, key) + Decisions(EventsOf(f, o), key)
    ensures Reveals(k, frames + [f], key) == Reveals(k, frames, key) + if RevealsFor(k, f, key) then 1 else 0
  {
    hide Step;
    var (t, log) := Run(k, pads, s, frames);
    assert (frames + [f])[..|frames|] == frames;
    DecisionsAdd(log, EventsOf(f, Step(k, pads, t, f).1), key);
  }

  lemma OneEvent(events: seq<Event>, key: string)
    requires |events| <= 1
    ensures Decisions(events, key) == if events != [] && IsDecision(events[0], key) then 1 else 0
  {
    if events != [] {
      assert events[..0] == [];
    }
  }

  /** After any run one more readable P request releases one more decision, and changes nothing else. */
  lemma RevealDecidesAgain(k: Key, pads: Pads, s: State, frames: seq<Frame>, f: Frame, key: string)
    requires 0 < k.n && StateOk(s) && forall i :: 0 <= i < |frames| ==> FrameOk(frames[i])
    requires RevealsFor(k, f, key)
    ensures Run(k, pads, s, frames + [f]).0 == Run(k, pads, s, frames).0
    ensures Decisions(Run(k, pads, s, frames + [f]).1, key) == Decisions(Run(k, pads, s, frames).1, key) + 1
  {
    hide Run, Step, RevealsFor, Decisions;
    var t := Run(k, pads, s, frames).0;
    RevealOutcome(k, pads, t, f, key);
    OneMoreFrame(k, pads, s, frames, f, key);
    OneEvent(EventsOf(f, Step(k, pads, t, f).1), key);
  }

  lemma RevealOutcome(k: Key, pads: Pads, s: State, f: Frame, key: string)
    requires 0 < k.n && StateOk(s) && RevealsFor(k, f, key)
    ensures FrameOk(f) && f.Reveal?
    ensures var (t, o) := Step(k, pads, s, f); t == s && o.Revealed? && ReplayKey(f.query.context) == key
  {
  }

  // ------------------------------------------------- every count of decisions can be reached

  /** A ciphertext of 0: with the share 1 it decrypts to 0 whatever the key. */
  lemma OneDecrypts(k: Key)
    requires 1 < k.n
    ensures DecryptOne(k, 1, 1) == Some(0) && k.ThresholdDecrypt(1, 1) == Some(0)
  {
    PowOne(k.lambda2);
    MulGrows(k.n, k.n);
    SmallRemainder(1, k.Nsq());
    SmallRemainder(0, k.n);
    assert 0 / k.n * k.mu == 0;
  }

  lemma {:induction false} OnesDecrypt(k: Key, item: StartItem, count: nat)
    requires 1 < k.n && k.ThresholdDecrypt(item.difference, item.share).Some?
    ensures DecryptItems(k, seq(count, _ => item)).Some?
  {
    if count > 0 {
      OnesDecrypt(k, item, count - 1);
      assert seq(count, _ => item)[..count - 1] == seq(count - 1, _ => item);
    }
  }

  /** Every acceptable context has a start that a fresh server accepts. */
  lemma StartExists(k: Key, c: PredicateContext) returns (f: StartFrame, draws: seq<int>)
    requires 1 < k.n && ContextOk(c)
    ensures |draws| == |f.items| && f.context == c
    ensures var (t, o) := StartStep(k, INITIAL, f, draws);
      o.Offered? && StateOk(t) && t.pending.Some? && t.pending.value.context == c
  {
    var e: nat := OT_BITS - 1;
    BitLengthOfPow2(e);
    OneDecrypts(k);
    var n := Pow2(e);
    assert 1 < n;
    var item := StartItem(1, 1, 1, 1);
    var count := if c.kind.PruneNode? then 1 else 2;
    OnesDecrypt(k, item, count);
    f := StartFrame(c, false, n, OT_EXPONENT, seq(count, _ => item));
    draws := seq(count, _ => 1);
    assert StartOk(f) && PredicateCircuit(c.kind, count, false).Some?;
    StartStepOk(k, INITIAL, f, draws);
  }

  /** Every pending start has a finish with a decision. */
  lemma FinishExists(pads: Pads, s: State) returns (f: FinishFrame)
    requires StateOk(s) && s.pending.Some?
    ensures f.context == s.pending.value.context
    ensures FinishStep(pads, s, f) == (s.(pending := None), Decided(s.pending.value.context, false))
  {
    var p := s.pending.value;
    var messages := seq(|p.choices|, _ => (ZERO_LABEL, ZERO_LABEL));
    var zeros: Table := [ZERO_LABEL, ZERO_LABEL, ZERO_LABEL, ZERO_LABEL];
    var tables: seq<Table> := seq(|p.circuit.gates|, _ => zeros);
    var labels := Evaluation(p.circuit, pads, tables, OpenMessages(pads, p, messages), |p.circuit.wires|);
    f := FinishFrame(p.context, messages, tables, labels[p.circuit.output], ZERO_LABEL);
  }

  /** A start and its finish, with a decision, on a fresh server. */
  lemma OneExchange(k: Key, pads: Pads, start: StartFrame, draws: seq<int>, finish: FinishFrame, key: string)
    requires 0 < k.n && |draws| == |start.items| && ReplayKey(start.context) == key && finish.context == start.context
    requires var (s, o) := StartStep(k, INITIAL, start, draws);
      && o.Offered? && StateOk(s)
      && var d := FinishStep(pads, s, finish).1; d.Decided? && d.context == start.context
    ensures var frames := [] + [Start(start, draws)] + [Finish(finish)];
      Reveals(k, frames, key) == 0 && Decisions(Run(k, pads, INITIAL, frames).1, key) == 1
  {
    hide StartStep, FinishStep, Run, Reveals, Decisions;
    var first, second := Start(start, draws), Finish(finish);
    NoFrames(k, pads, key);
    OneMoreFrame(k, pads, INITIAL, [], first, key);
    OneEvent([Started(start.context)], key);
    OneMoreFrame(k, pads, INITIAL, [] + [first], second, key);
    OneEvent(EventsOf(second, FinishStep(pads, StartStep(k, INITIAL, start, draws).0, finish).1), key);
  }

  lemma NoFrames(k: Key, pads: Pads, key: string)
    requires 0 < k.n
    ensures Run(k, pads, INITIAL, []) == (INITIAL, []) && Reveals(k, [], key) == 0 && Decisions([], key) == 0
  {
  }

  /** Some run has this many P requests for the context, and one decision more. */
  lemma {:induction false} MostDecisions(k: Key, pads: Pads, c: PredicateContext, count: nat) returns (frames: seq<Frame>)
    requires 1 < k.n && ContextOk(c)
    ensures forall i :: 0 <= i < |frames| ==> FrameOk(frames[i])
    ensures Reveals(k, frames, ReplayKey(c)) == count
    ensures Decisions(Run(k, pads, INITIAL, frames).1, ReplayKey(c)) == count + 1
  {
    if count == 0 {
      var start, draws := StartExists(k, c);
      var s := StartStep(k, INITIAL, start, draws).0;
      var finish := FinishExists(pads, s);
      frames := [] + [Start(start, draws)] + [Finish(finish)];
      OneExchange(k, pads, start, draws, finish, ReplayKey(c));
    } else {
      var before := MostDecisions(k, pads, c, count - 1);
      OneDecrypts(k);
      var f := Reveal(RevealFrame(c, 1, 1));
      RevealDecidesAgain(k, pads, INITIAL, before, f, ReplayKey(c));
      OneMoreFrame(k, pads, INITIAL, before, f, ReplayKey(c));
      frames := before + [f];
    }
  }

  /**
   The exact condition: with a given number of readable P requests for a key, every run keeps it at
   one decision if and only if that number is 0.
   */
  lemma OneDecisionExactly(k: Key, pads: Pads, c: PredicateContext, count: nat)
    requires 1 < k.n && ContextOk(c)
    ensures var key := ReplayKey(c);
      (forall frames: seq<Frame> ::
         (forall i :: 0 <= i < |frames| ==> FrameOk(frames[i])) && Reveals(k, frames, key) == count ==>
           Decisions(Run(k, pads, INITIAL, frames).1, key) <= 1)
      <==> count == 0
  {
    if count == 0 {
      forall frames: seq<Frame> |
        (forall i :: 0 <= i < |frames| ==> FrameOk(frames[i])) && Reveals(k, frames, ReplayKey(c)) == 0
        ensures Decisions(Run(k, pads, INITIAL, frames).1, ReplayKey(c)) <= 1
      {
        DecisionCount(k, pads, INITIAL, frames, ReplayKey(c));
      }
    } else {
      var frames := MostDecisions(k, pads, c, count);
    }
  }

  lemma KeyPrefix(c: PredicateContext, i: int)
    requires 0 <= i < |c.session|
    ensures ReplayKey(c)[i] == c.session[i]
  {
  }

  /** Between sessions without zero bytes the replay key is injective. */
  lemma ReplayKeyInjective(a: PredicateContext, b: PredicateContext)
    requires 0 as char !in a.session && 0 as char !in b.session
    ensures ReplayKey(a) == ReplayKey(b) <==> a.session == b.session && a.operation == b.operation
  {
    var zero := 0 as char;
    if ReplayKey(a) == ReplayKey(b) {
      var key := ReplayKey(a);
      assert key[|a.session|] == zero && key[|b.session|] == zero;
      if |a.session| < |b.session| {
        KeyPrefix(b, |a.session|);
      }
      if |b.session| < |a.session| {
        KeyPrefix(a, |b.session|);
      }
      assert a.session == key[..|a.session|] && b.session == key[..|b.session|];
      assert a.operation == key[|a.session| + 1..] && b.operation == key[|b.session| + 1..];
    }
  }

  /** Two acceptable pairs of names share a key. */
  predicate SharesKey(s: string, o: string, session: string, operation: string) {
    && ContextFieldOk(s) && ContextFieldOk(o) && (s != session || o != operation)
    && SessionKey(s, o) == SessionKey(session, operation)
  }

  /** A zero byte of the session can pass for the separator: both parts are acceptable names. */
  predicate SplitsEarlier(session: string, operation: string, i: int) {
    1 <= i < |session| && session[i] == 0 as char && |session| - i + |operation| <= 128
  }

  /** A zero byte of the operation can. */
  predicate SplitsLater(session: string, operation: string, i: int) {
    0 <= i < |operation| - 1 && operation[i] == 0 as char && |session| + 1 + i <= 128
  }

  /**
   Among the names that the server accepts, a key is shared exactly when some zero byte of the pair
   can pass for the separator.
   */
  lemma ReplayKeyShared(session: string, operation: string)
    requires ContextFieldOk(session) && ContextFieldOk(operation)
    ensures (exists s, o :: SharesKey(s, o, session, operation))
       <==> (exists i :: SplitsEarlier(session, operation, i)) || (exists i :: SplitsLater(session, operation, i))
  {
    if s, o :| SharesKey(s, o, session, operation) {
      SharedSplits(s, o, session, operation);
    }
    if i :| SplitsEarlier(session, operation, i) {
      EarlierShares(session, operation, i);
    }
    if i :| SplitsLater(session, operation, i) {
      LaterShares(session, operation, i);
    }
  }

  lemma SharedSplits(s: string, o: string, session: string, operation: string)
    requires SharesKey(s, o, session, operation)
    ensures SplitsEarlier(session, operation, |s|) || SplitsLater(session, operation, |s| - |session| - 1)
  {
    var zero, key := 0 as char, SessionKey(session, operation);
    assert key[|s|] == zero && key[..|s|] == s && key[|s| + 1..] == o;
    assert key[..|session|] == session && key[|session| + 1..] == operation;
    if |s| < |session| {
      assert key[|s|] == session[|s|];
    } else if |s| > |session| {
      assert key[|s|] == operation[|s| - |session| - 1];
    }
  }

  lemma EarlierShares(session: string, operation: string, i: int)
    requires ContextFieldOk(session) && ContextFieldOk(operation) && SplitsEarlier(session, operation, i)
    ensures SharesKey(session[..i], session[i + 1..] + [0 as char] + operation, session, operation)
  {
    assert session == session[..i] + [0 as char] + session[i + 1..];
  }

  lemma LaterShares(session: string, operation: string, i: int)
    requires ContextFieldOk(session) && ContextFieldOk(operation) && SplitsLater(session, operation, i)
    ensures SharesKey(session + [0 as char] + operation[..i], operation[i + 1..], session, operation)
  {
    assert operation == operation[..i] + [0 as char] + operation[i + 1..];
  }

  // ---------------------------------------------------------------- the server

  method DrawKeys(rsaN: int, count: nat) returns (keys: seq<int>)
    ensures |keys| == count && forall i :: 0 <= i < count && 1 < rsaN ==> 0 < keys[i] < rsaN
  {
    keys := [];
    for i := 0 to count
      invariant |keys| == i && forall j :: 0 <= j < i && 1 < rsaN ==> 0 < keys[j] < rsaN
    {
      var draw := 1;
      if 1 < rsaN {
        draw :| 0 < draw < rsaN;
      }
      keys := keys + [draw];
    }
  }

  method DecryptAll(k: Key, items: seq<StartItem>) returns (r: Option<seq<int>>)
    requires 0 < k.n
    ensures r == DecryptItems(k, items)
  {
    var plain := [];
    for i := 0 to |items|
      invariant DecryptItems(k, items[..i]) == Some(plain)
    {
      assert items[..i + 1][..i] == items[..i];
      var m := k.ThresholdDecrypt(items[i].difference, items[i].share);
      if m.None? {
        DecryptFails(k, items, i);
        return None;
      }
      plain := plain + [m.value];
    }
    assert items[..|items|] == items;
    r := Some(plain);
  }

  method Choose(k: Key, f: StartFrame, plain: seq<int>, keys: seq<int>) returns (choices: seq<bool>, values: seq<int>)
    requires 0 < k.n && 0 < f.rsaN && |plain| == |f.items| == |keys|
    ensures choices == Choices(k, plain)
    ensures values == seq(|keys|, i requires 0 <= i < |keys| =>
      OtReply(f.rsaN, f.rsaE, f.items[i].x0, f.items[i].x1, choices[i], keys[i]))
  {
    choices, values := [], [];
    for i := 0 to |f.items|
      invariant choices == Choices(k, plain)[..i] && |values| == i
      invariant forall j :: 0 <= j < i ==>
        values[j] == OtReply(f.rsaN, f.rsaE, f.items[j].x0, f.items[j].x1, choices[j], keys[j])
    {
      var choice := plain[i] <= k.n / 2;
      choices := choices + [choice];
      values := values + [OtReply(f.rsaN, f.rsaE, f.items[i].x0, f.items[i].x1, choice, keys[i])];
    }
  }

  class CspServer {
    const key: Key
    const pads: Pads
    var pending: Option<Pending>
    var replays: set<string>

    constructor (key: Key, pads: Pads)
      requires key.Valid()
      ensures Valid() && Current() == INITIAL && this.key == key && this.pads == pads
    {
      this.key, this.pads := key, pads;
      pending, replays := None, {};
    }

    function Current(): State
      reads this
    {
      State(pending, replays)
    }

    ghost predicate Valid()
      reads this
    {
      key.Valid() && StateOk(Current())
    }

    /** The failure path of the request loop: the transcript is dropped, the replay set is kept. */
    method Reject()
      requires Valid()
      modifies this
      ensures Valid() && Current() == old(Current()).(pending := None)
    {
      pending := None;
    }

    method OnStart(f: StartFrame) returns (o: Outcome, ghost draws: seq<int>)
      requires Valid()
      modifies this
      ensures Valid() && |draws| == |f.items|
      ensures (Current(), o) == StartStep(key, old(Current()), f, draws)
      ensures forall i :: 0 <= i < |draws| && 1 < f.rsaN ==> 0 < draws[i] < f.rsaN
    {
      var keys := DrawKeys(f.rsaN, |f.items|);
      draws := keys;
      StartStepOk(key, Current(), f, draws);
      if pending.Some? || !StartOk(f) {
        Reject();
        return Rejected, draws;
      }
      var replay := ReplayKey(f.context);
      if replay in replays {
        Reject();
        return Rejected, draws;
      }
      replays := replays + {replay};
      var circuit := BuildPredicateCircuit(f.context.kind, |f.items|, f.incumbent);
      if circuit.None? {
        Reject();
        return Rejected, draws;
      }
      var plain := DecryptAll(key, f.items);
      if plain.None? {
        Reject();
        return Rejected, draws;
      }
      var choices, values := Choose(key, f, plain.value, keys);
      pending := Some(Pending(f.context, choices, keys, circuit.value));
      o := Offered(values);
    }

    method OnFinish(f: FinishFrame) returns (o: Outcome)
      requires Valid()
      modifies this
      ensures Valid() && (Current(), o) == FinishStep(pads, old(Current()), f)
    {
      if pending.None? {
        return Rejected;
      }
      var p := pending.value;
      pending := None;
      if f.context != p.context || |f.messages| != |p.choices| || |f.tables| != |p.circuit.gates| {
        return Rejected;
      }
      var inputs: seq<Label> := [];
      for i := 0 to |f.messages|
        invariant inputs == OpenMessages(pads, p, f.messages)[..i]
      {
        inputs := inputs + [OpenMessage(pads, p, f.messages[i], i)];
      }
      assert inputs == OpenMessages(pads, p, f.messages);
      var labels := Evaluate(p.circuit, pads, f.tables, inputs);
      if labels[p.circuit.output] == f.out0 {
        return Decided(p.context, false);
      } else if labels[p.circuit.output] == f.out1 {
        return Decided(p.context, true);
      }
      o := Rejected;
    }

    method OnReveal(f: RevealFrame) returns (o: Outcome)
      requires Valid()
      modifies this
      ensures Valid() && (Current(), o) == RevealStep(key, old(Current()), f)
    {
      if !ContextOk(f.context) || f.bit <= 0 || key.Nsq() <= f.bit {
        Reject();
        return Rejected;
      }
      var plain := key.Combine(f.share, key.PartialDecrypt(key.lambda2, f.bit));
      if plain.None? {
        Reject();
        return Rejected;
      }
      o := if plain.value != 0 && plain.value != 1 then NoBit else Revealed(f.context, plain.value == 1);
    }
  }

  lemma {:induction false} DecryptFails(k: Key, items: seq<StartItem>, i: int)
    requires 0 < k.n && 0 <= i < |items|
    requires k.ThresholdDecrypt(items[i].difference, items[i].share).None?
    ensures DecryptItems(k, items).None?
  {
    var d := |items| - 1;
    if i < d {
      DecryptFails(k, items[..d], i);
    }
  }

  function Residues(k: Key, vs: seq<int>): seq<int>
    requires 0 < k.n
  {
    seq(|vs|, i requires 0 <= i < |vs| => vs[i] % k.n)
  }

  lemma {:induction false} DecryptWorks(k: Key, items: seq<StartItem>, vs: seq<int>)
    requires k.Valid() && |vs| == |items|
    requires forall i :: 0 <= i < |items| ==>
      k.Holds(items[i].difference, vs[i]) && items[i].share == k.PartialDecrypt(k.lambda1, items[i].difference)
    ensures DecryptItems(k, items) == Some(Residues(k, vs))
  {
    if items == [] {
    } else {
      var d := |items| - 1;
      hide Key.Holds;
      DecryptWorks(k, items[..d], vs[..d]);
      assert Residues(k, vs) == Residues(k, vs[..d]) + [vs[d] % k.n];
      var (c, share, v) := (items[d].difference, items[d].share, vs[d]);
      k.ThresholdDecrypts(c, v);
    }
  }

  // ---------------------------------------------------------------- the client

  /** The client's message pair for one input wire. */
  function Messages(pads: Pads, ot: OtKey, i: nat, v: int, x0: int, x1: int, oriented: bool, zero: Label, delta: Label)
    : (Label, Label)
    requires 0 < ot.n
  {
    (Xor(Offset(zero, delta, oriented), pads.ot(OtRecover(ot.n, ot.d, v, x0), i)),
     Xor(Offset(zero, delta, !oriented), pads.ot(OtRecover(ot.n, ot.d, v, x1), i)))
  }

  /** Opening the chosen message gives the label of the bit that the half test and orientation share. */
  lemma TransferWorks(pads: Pads, ot: OtKey, i: nat, x0: int, x1: int, k: int, choice: bool, oriented: bool,
      zero: Label, delta: Label)
    requires ot.Valid() && 0 <= k < ot.n && 0 < ot.n
    ensures var v := OtReply(ot.n, ot.e, x0, x1, choice, k);
      var m := Messages(pads, ot, i, v, x0, x1, oriented, zero, delta);
      Xor(if choice then m.1 else m.0, pads.ot(k, i)) == Offset(zero, delta, choice != oriented)
  {
    OtTransfers(ot, x0, x1, choice, k);
    XorCancel(Offset(zero, delta, choice != oriented), pads.ot(k, i));
  }

  function GreaterBits(vs: seq<(int, int)>): (bits: seq<bool>)
    ensures |bits| == |vs|
  {
    seq(|vs|, i requires 0 <= i < |vs| => vs[i].0 > vs[i].1)
  }

  /** The F frame of the client. */
  method StartRequest(k: Key, ot: OtKey, context: PredicateContext, hasIncumbent: bool, differences: seq<Ciphertext>)
    returns (f: StartFrame)
    requires k.Valid() && ot.Valid()
    ensures ContextOk(context) && BatchSizeOk(|differences|) ==> StartOk(f)
    ensures f.context == context && f.incumbent == hasIncumbent && f.rsaN == ot.n && f.rsaE == ot.e
    ensures |f.items| == |differences|
    ensures forall i :: 0 <= i < |f.items| ==>
      && f.items[i].difference == differences[i]
      && f.items[i].share == k.PartialDecrypt(k.lambda1, differences[i])
      && 0 < f.items[i].x0 < ot.n && 0 < f.items[i].x1 < ot.n
  {
    var items: seq<StartItem> := [];
    for i := 0 to |differences|
      invariant |items| == i
      invariant forall j :: 0 <= j < i ==>
        && items[j].difference == differences[j]
        && items[j].share == k.PartialDecrypt(k.lambda1, differences[j])
        && 0 < items[j].x0 < ot.n && 0 < items[j].x1 < ot.n
    {
      var x0: int :| 0 < x0 < ot.n;
      var x1: int :| 0 < x1 < ot.n;
      items := items + [StartItem(differences[i], k.PartialDecrypt(k.lambda1, differences[i]), x0, x1)];
    }
    f := StartFrame(context, hasIncumbent, ot.n, ot.e, items);
  }

  /** The server accepts the client's start, and its choices are the half tests. */
  lemma StartAccepted(k: Key, s: State, f: StartFrame, draws: seq<int>, blinded: seq<int>)
    requires k.Valid() && s.pending.None? && StartOk(f) && ReplayKey(f.context) !in s.replays
    requires |draws| == |f.items| == |blinded| && ShapeOk(f.context.kind, |f.items|, f.incumbent)
    requires DecryptItems(k, f.items) == Some(Residues(k, blinded))
    ensures var (t, o) := StartStep(k, s, f, draws);
      && o.Offered? && |o.values| == |draws|
      && t.replays == s.replays + {ReplayKey(f.context)} && t.pending.Some?
      && var p := t.pending.value;
      && p.context == f.context && p.keys == draws
      && Some(p.circuit) == PredicateCircuit(f.context.kind, |f.items|, f.incumbent)
      && |p.choices| == |draws|
      && forall i :: 0 <= i < |draws| ==>
        && p.choices[i] == (blinded[i] % k.n <= k.n / 2)
        && o.values[i] == OtReply(f.rsaN, f.rsaE, f.items[i].x0, f.items[i].x1, p.choices[i], draws[i])
  {
  }

  /** The client's message pairs: opened with the server's choices, they are labels of the bits. */
  method FinishMessages(pads: Pads, ot: OtKey, items: seq<StartItem>, values: seq<int>, orientations: seq<bool>,
      zero: seq<Label>, delta: Label, ghost p: Pending, ghost bits: seq<bool>)
    returns (messages: seq<(Label, Label)>)
    requires ot.Valid() && 0 < ot.n
    requires |values| == |items| == |orientations| == |p.choices| == |p.keys| == |bits| <= |zero|
    requires forall i :: 0 <= i < |items| ==>
      && 0 <= p.keys[i] < ot.n && bits[i] == (p.choices[i] != orientations[i])
      && values[i] == OtReply(ot.n, ot.e, items[i].x0, items[i].x1, p.choices[i], p.keys[i])
    ensures |messages| == |items|
    ensures forall i :: 0 <= i < |items| ==> OpenMessage(pads, p, messages[i], i) == Offset(zero[i], delta, bits[i])
  {
    messages := [];
    for i := 0 to |items|
      invariant |messages| == i
      invariant forall j :: 0 <= j < i ==> OpenMessage(pads, p, messages[j], j) == Offset(zero[j], delta, bits[j])
    {
      var x0, x1 := items[i].x0, items[i].x1;
      TransferWorks(pads, ot, i, x0, x1, p.keys[i], p.choices[i], orientations[i], zero[i], delta);
      messages := messages + [Messages(pads, ot, i, values[i], x0, x1, orientations[i], zero[i], delta)];
    }
  }

  /** With labels of the bits, the server's decision is the value of the circuit. */
  lemma FinishDecides(pads: Pads, s: State, f: FinishFrame, delta: Label, zero: seq<Label>, bits: seq<bool>)
    requires s.pending.Some? && StateOk(s) && f.context == s.pending.value.context
    requires var p := s.pending.value; var c := p.circuit;
      && Garbled(c, pads, delta, zero, f.tables) && |zero| == |c.wires| && |f.tables| == |c.gates|
      && |f.messages| == |bits| == |p.choices|
      && (forall i :: 0 <= i < |bits| ==> OpenMessage(pads, p, f.messages[i], i) == Offset(zero[i], delta, bits[i]))
      && f.out0 == zero[c.output] && f.out1 == Offset(zero[c.output], delta, true)
    ensures FinishStep(pads, s, f) ==
      (s.(pending := None), Decided(f.context, s.pending.value.circuit.Value(bits)))
  {
    var p := s.pending.value;
    var c := p.circuit;
    EvaluatorHolds(c, pads, delta, zero, f.tables, OpenMessages(pads, p, f.messages), bits, |c.wires|);
    OffsetSeparates(zero[c.output], delta, c.Value(bits), false);
    OffsetSeparates(zero[c.output], delta, c.Value(bits), true);
  }

  lemma CircuitWorks(kind: PredicateType, bits: seq<bool>, hasIncumbent: bool)
    requires BitsOk(kind, bits, hasIncumbent)
    ensures ShapeOk(kind, |bits|, hasIncumbent)
    ensures var c := PredicateCircuit(kind, |bits|, hasIncumbent);
      && c.Some? && c.value.WellFormed() && c.value.inputs == |bits|
      && c.value.Value(bits) == Formula(kind, bits, hasIncumbent)
  {
    CircuitComputesFormula(kind, bits, hasIncumbent);
  }

  /**
   The whole fused exchange. When the batch, the context and the replay key are acceptable it
   succeeds, and what it returns is the predicate's formula over the strict comparisons a > b.
   */
  method FusedPredicate(csp: CspServer, ot: OtKey, context: PredicateContext,
      items: seq<(Ciphertext, Ciphertext)>, ghost vs: seq<(int, int)>, hasIncumbent: bool)
    returns (r: Result<bool, ProtocolError>)
    requires csp.Valid() && csp.pending.None? && ot.Valid()
    requires HoldsPairs(csp.key, items, vs) && BitsOk(context.kind, GreaterBits(vs), hasIncumbent)
    modifies csp
    ensures csp.Valid() && csp.pending.None?
    ensures if BatchSizeOk(|items|) && ContextOk(context) && ReplayKey(context) !in old(csp.replays) then
        && r == Success(Formula(context.kind, GreaterBits(vs), hasIncumbent))
        && csp.replays == old(csp.replays) + {ReplayKey(context)}
      else r == Failure(BadPredicate) && csp.replays == old(csp.replays)
  {
    if !BatchSizeOk(|items|) || !ContextOk(context) {
      return Failure(BadPredicate);
    }
    hide Key.Holds, Formula, PredicateCircuit, Garbled, StartStep, FinishStep, OpenMessage, OtReply, Offset, BitsOk, ShapeOk;
    var k := csp.key;
    var attempt, orientations, blinded := BlindBatch(k, items, vs);
    var start := StartRequest(k, ot, context, hasIncumbent, attempt.value);
    DecryptWorks(k, start.items, blinded);
    ghost var bits := GreaterBits(vs);
    CircuitWorks(context.kind, bits, hasIncumbent);
    ghost var before := csp.Current();
    var offer, draws := csp.OnStart(start);
    if !offer.Offered? {
      return Failure(BadPredicate);
    }
    StartAccepted(k, before, start, draws, blinded);
    var circuit := BuildPredicateCircuit(context.kind, |items|, hasIncumbent);
    var c := circuit.value;
    var delta, zero, tables := Garble(c, csp.pads);
    var messages := FinishMessages(csp.pads, ot, start.items, offer.values, orientations, zero, delta,
                                   csp.pending.value, bits);
    var finish := FinishFrame(context, messages, tables, zero[c.output], Offset(zero[c.output], delta, true));
    FinishDecides(csp.pads, csp.Current(), finish, delta, zero, bits);
    var decision := csp.OnFinish(finish);
    if !decision.Decided? {
      return Failure(BadPredicate);
    }
    r := Success(decision.bit);
  }
}
