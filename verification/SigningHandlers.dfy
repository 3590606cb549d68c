/**
 The six signing handlers and `sign_via_enclave` of crates/oc-keyagent/src/handler.rs, as they
 write to the shared audit log. Handlers run concurrently; each audit append holds the log's
 mutex and is one step. The child process and how every append lands are free inputs.
 */
module SigningHandlers {
  import opened Results
  import AuditLog

  datatype Handler = SignTransaction | SignMessage | SignAuth | SignSiwx | SignTypedData | SignUserOp

  /** The audit records that matter here; ids are the counter behind `new_request_id`. */
  datatype Record =
    | Pending(id: nat)
    | Resolved(id: nat, ok: bool)
    | Signed(event: AuditLog.EventType)
    | Alert(event: AuditLog.EventType)

  /** The event a handler records once it holds a signature. */
  function SignedEvent(h: Handler): AuditLog.EventType {
    match h
    case SignAuth => AuditLog.AuthSigned
    case SignSiwx => AuditLog.SiwxSigned
    case _ => AuditLog.TransactionSigned
  }

  // ---------------------------------------------------------------------------
  // The child process
  // ---------------------------------------------------------------------------

  const PROTOCOL_VERSION: nat := 1

  /** An optional hex field of a response. */
  datatype Field = Absent | Undecodable | Decoded

  datatype Reply = Reply(signature: Field, publicKey: Field, hasSignedTx: bool, hasAddress: bool)

  /** No usable output (bad request, spawn failure, timeout, bad exit, no JSON), or a response. */
  datatype Child = NoOutput | Output(version: nat, id: nat, ok: bool, reply: Reply)

  /** The checks `spawn_enclave_child` makes on a response. */
  function Accepted(id: nat, child: Child): Option<Reply> {
    if child.Output? && child.version == PROTOCOL_VERSION && child.id == id && child.ok then Some(child.reply) else None
  }

  /** A reply is accepted exactly from a response in version 1, to this very request, that reports success. */
  lemma AcceptedMeans(id: nat, child: Child, reply: Reply)
    ensures Accepted(id, child) == Some(reply) <==> child == Output(1, id, true, reply)
    ensures Accepted(id, child).Some? <==> child.Output? && child.version == 1 && child.id == id && child.ok
  {
  }

  /** The signature decodes, and so does the public key if there is one. */
  predicate Decodes(r: Reply) {
    r.signature.Decoded? && !r.publicKey.Undecodable?
  }

  /** The handler finds all it needs in the output of the enclave. */
  predicate Suffices(h: Handler, r: Reply) {
    match h
    case SignTransaction => r.hasSignedTx
    case SignUserOp => r.hasSignedTx
    case SignAuth => r.hasAddress && r.publicKey.Decoded?
    case SignSiwx => r.hasAddress && r.publicKey.Decoded?
    case _ => true
  }

  // ---------------------------------------------------------------------------
  // One request, step by step
  // ---------------------------------------------------------------------------

  datatype Exit = Refused | NoExecutable | BadFields | ChildError | Unaudited | Incomplete | SigningFailed | NotOwner | Signed

  datatype Phase =
    | Checking
    | Cleared
    | Spawning(id: nat)
    | Replied(id: nat, reply: Reply)
    | Failing(id: nat)
    | HasSignature
    | Done(exit: Exit)

  /**
   `begun` is the log's length at the start of the request, `child` what its child process
   gave, `mark` the position of the last success record it wrote.
   */
  datatype Thread = Thread(handler: Handler, phase: Phase, begun: nat, id: Option<nat>, child: Option<Child>, mark: Option<nat>)

  datatype State = State(log: seq<Record>, threads: map<nat, Thread>, nextId: nat, failClosed: bool)

  datatype Action =
    | Refuse(alert: Option<AuditLog.EventType>, landing: AuditLog.Landing)
    | Clear
    | SendPending(landing: AuditLog.Landing)
    | LookupFails
    | ChildEnds(child: Child)
    | Resolve(landing: AuditLog.Landing)
    | SignInProcess(ok: bool)
    | Confirm(owned: bool, landing: AuditLog.Landing)

  datatype Step = Begin(t: nat, handler: Handler) | Act(t: nat, action: Action)

  function Appended(log: seq<Record>, r: Record, landing: AuditLog.Landing): seq<Record> {
    if landing.NotWritten? then log else log + [r]
  }

  predicate Enabled(p: Phase, a: Action) {
    match a
    case Refuse(_, _) => p.Checking?
    case Clear => p.Checking?
    case SendPending(_) => p.Cleared?
    case LookupFails => p.Spawning?
    case ChildEnds(_) => p.Spawning?
    case Resolve(_) => p.Replied? || p.Failing?
    case SignInProcess(_) => p.Cleared?
    case Confirm(_, _) => p.HasSignature?
  }

  /** The record an action puts into the log, synced or not, if it does. */
  function Writes(s: State, th: Thread, a: Action): Option<Record>
    requires Enabled(th.phase, a)
  {
    match a
    case Refuse(alert, landing) => if alert.Some? && !landing.NotWritten? then Some(Alert(alert.value)) else None
    case SendPending(landing) => if landing.NotWritten? then None else Some(Pending(s.nextId))
    case Resolve(landing) => if landing.NotWritten? then None else Some(Resolved(th.phase.id, th.phase.Replied?))
    case Confirm(owned, landing) =>
      if !landing.NotWritten? && (owned || !th.handler.SignSiwx?) then Some(Record.Signed(SignedEvent(th.handler))) else None
    case _ => None
  }

  function NextPhase(s: State, th: Thread, a: Action): Phase
    requires Enabled(th.phase, a)
  {
    match a
    case Refuse(_, _) => Done(Refused)
    case Clear => Cleared
    case SendPending(_) => Spawning(s.nextId)
    case LookupFails => Done(NoExecutable)
    case ChildEnds(child) =>
      var id := th.phase.id;
      (match Accepted(id, child)
       case None => Failing(id)
       case Some(reply) => if Decodes(reply) then Replied(id, reply) else Done(BadFields))
    case Resolve(landing) =>
      if s.failClosed && !landing.Synced? then Done(Unaudited)
      else if th.phase.Failing? then Done(ChildError)
      else if !Suffices(th.handler, th.phase.reply) then Done(Incomplete)
      else if th.handler.SignSiwx? then HasSignature
      else Done(Exit.Signed)
    case SignInProcess(ok) => if ok then HasSignature else Done(SigningFailed)
    case Confirm(owned, landing) =>
      if th.handler.SignSiwx? && !owned then Done(NotOwner)
      else if s.failClosed && !landing.Synced? then Done(Unaudited)
      else Done(Exit.Signed)
  }

  /** Does this record say that a signature was made? */
  predicate SaysSigned(r: Record) {
    r.Signed? || (r.Resolved? && r.ok)
  }

  /** The request after its action. */
  function Moved(s: State, th: Thread, a: Action): Thread
    requires Enabled(th.phase, a)
  {
    var w := Writes(s, th, a);
    Thread(th.handler, NextPhase(s, th, a), th.begun,
           if a.SendPending? then Some(s.nextId) else th.id,
           if a.ChildEnds? then Some(a.child) else th.child,
           if w.Some? && SaysSigned(w.value) then Some(|s.log|) else th.mark)
  }

  function ActOn(s: State, t: nat, a: Action): State
    requires t in s.threads && Enabled(s.threads[t].phase, a)
  {
    var th := s.threads[t];
    var w := Writes(s, th, a);
    State(if w.Some? then s.log + [w.value] else s.log,
          s.threads[t := Moved(s, th, a)],
          if a.SendPending? then s.nextId + 1 else s.nextId,
          s.failClosed)
  }

  /** A step that is not possible changes nothing. */
  function Apply(s: State, step: Step): State {
    match step
    case Begin(t, h) =>
      if t in s.threads then s else s.(threads := s.threads[t := Thread(h, Checking, |s.log|, None, None, None)])
    case Act(t, a) =>
      if t in s.threads && Enabled(s.threads[t].phase, a) then ActOn(s, t, a) else s
  }

  /** Any interleaving of any number of requests. */
  function Run(s: State, steps: seq<Step>): State {
    if steps == [] then s else Apply(Run(s, steps[..|steps| - 1]), steps[|steps| - 1])
  }

  function Fresh(log: seq<Record>, nextId: nat, failClosed: bool): State {
    State(log, map[], nextId, failClosed)
  }

  /** The client got a success response. */
  predicate Succeeded(th: Thread) {
    th.phase == Done(Exit.Signed)
  }

  // ---------------------------------------------------------------------------
  // Fail-closed auditing
  // ---------------------------------------------------------------------------

  /** The record is this request's own: its enclave id, or the event of its handler. */
  predicate OwnSuccess(th: Thread, r: Record) {
    || (th.id.Some? && r == Resolved(th.id.value, true))
    || r == Record.Signed(if th.handler.SignAuth? then AuditLog.AuthSigned
                          else if th.handler.SignSiwx? then AuditLog.SiwxSigned
                          else AuditLog.TransactionSigned)
  }

  ghost predicate MarkHolds(log: seq<Record>, th: Thread) {
    && th.begun <= |log|
    && (th.mark.Some? ==> th.begun <= th.mark.value < |log| && OwnSuccess(th, log[th.mark.value]))
    && ((th.phase.Replied? || th.phase.Failing? || th.phase.Spawning?) ==> th.id == Some(th.phase.id))
    && (th.phase.Checking? || th.phase.Cleared? ==> th.mark.None?)
  }

  /** Marks point at success records written during the own request, and no two at the same. */
  ghost predicate MarksHold(s: State) {
    && (forall t :: t in s.threads ==> MarkHolds(s.log, s.threads[t]))
    && (forall t, u :: t in s.threads && u in s.threads && t != u && s.threads[t].mark.Some? ==>
          s.threads[t].mark != s.threads[u].mark)
  }

  ghost predicate SuccessesMarked(s: State) {
    forall t :: t in s.threads && Succeeded(s.threads[t]) ==> s.threads[t].mark.Some?
  }

  lemma ActKeepsMarks(s: State, t: nat, a: Action)
    requires t in s.threads && Enabled(s.threads[t].phase, a)
    requires MarksHold(s)
    ensures MarksHold(ActOn(s, t, a))
  {
    var s' := ActOn(s, t, a);
    forall u | u in s'.threads ensures MarkHolds(s'.log, s'.threads[u]) {
      assert MarkHolds(s.log, s.threads[u]);
    }
  }

  lemma ActMarksSuccess(s: State, t: nat, a: Action)
    requires t in s.threads && Enabled(s.threads[t].phase, a) && s.failClosed
    requires SuccessesMarked(s)
    ensures SuccessesMarked(ActOn(s, t, a))
  {
  }

  lemma {:induction false} RunKeepsMarks(s: State, steps: seq<Step>)
    requires MarksHold(s)
    ensures MarksHold(Run(s, steps))
    ensures s.failClosed && SuccessesMarked(s) ==> SuccessesMarked(Run(s, steps))
    ensures Run(s, steps).failClosed == s.failClosed
  {
    if steps != [] {
      RunKeepsMarks(s, steps[..|steps| - 1]);
      var m, step := Run(s, steps[..|steps| - 1]), steps[|steps| - 1];
      if step.Act? && step.t in m.threads && Enabled(m.threads[step.t].phase, step.action) {
        ActKeepsMarks(m, step.t, step.action);
        if s.failClosed && SuccessesMarked(s) {
          ActMarksSuccess(m, step.t, step.action);
        }
      }
    }
  }

  /** The success responses of a state, each with the record that vouches for it. */
  ghost function Vouchers(s: State): map<nat, nat> {
    map t | t in s.threads && Succeeded(s.threads[t]) && s.threads[t].mark.Some? :: s.threads[t].mark.value
  }

  /**
   Fail-closed auditing. With `audit_fail_closed` set, in every interleaving of all six
   handlers on both signing paths the success responses map one-to-one into the log: each
   to a success record of its own, written between its start and now.
   */
  lemma SuccessesAreAudited(log: seq<Record>, nextId: nat, steps: seq<Step>)
    ensures var s := Run(Fresh(log, nextId, true), steps); var v := Vouchers(s);
            && (forall t :: t in s.threads && Succeeded(s.threads[t]) ==> t in v)
            && (forall t :: t in v ==> s.threads[t].begun <= v[t] < |s.log| && OwnSuccess(s.threads[t], s.log[v[t]]))
            && (forall t, u :: t in v && u in v && t != u ==> v[t] != v[u])
  {
    RunKeepsMarks(Fresh(log, nextId, true), steps);
    var s := Run(Fresh(log, nextId, true), steps);
    forall t | t in s.threads && Succeeded(s.threads[t])
      ensures MarkHolds(s.log, s.threads[t])
    {
    }
  }

  lemma RunSnoc(s: State, steps: seq<Step>, step: Step)
    ensures Run(s, steps + [step]) == Apply(Run(s, steps), step)
  {
    assert (steps + [step])[..|steps|] == steps;
  }

  /** Without the switch a success may leave no trace at all. */
  lemma FailOpenLosesRecords() returns (steps: seq<Step>)
    ensures var s := Run(Fresh([], 0, false), steps);
            s.log == [] && 0 in s.threads && Succeeded(s.threads[0])
  {
    var s0 := Fresh([], 0, false);
    steps := [];
    RunSnoc(s0, steps, Begin(0, SignMessage));
    steps := steps + [Begin(0, SignMessage)];
    RunSnoc(s0, steps, Act(0, Clear));
    steps := steps + [Act(0, Clear)];
    RunSnoc(s0, steps, Act(0, SignInProcess(true)));
    steps := steps + [Act(0, SignInProcess(true))];
    RunSnoc(s0, steps, Act(0, Confirm(true, AuditLog.NotWritten)));
    steps := steps + [Act(0, Confirm(true, AuditLog.NotWritten))];
  }

  // ---------------------------------------------------------------------------
  // What stands behind a signature
  // ---------------------------------------------------------------------------

  /**
   The child answered this very request in version 1 with success, with a signature that
   decodes and no public key that does not, and with all that the handler returns.
   */
  predicate GoodAnswer(h: Handler, id: nat, ch: Child) {
    && ch.Output? && ch.version == 1 && ch.id == id && ch.ok
    && ch.reply.signature.Decoded? && !ch.reply.publicKey.Undecodable?
    && (h.SignTransaction? || h.SignUserOp? ==> ch.reply.hasSignedTx)
    && (h.SignAuth? || h.SignSiwx? ==> ch.reply.hasAddress && ch.reply.publicKey.Decoded?)
  }

  ghost predicate AnswerHolds(th: Thread) {
    && (th.phase.Checking? || th.phase.Cleared? ==> th.id.None? && th.child.None?)
    && (th.phase.Spawning? ==> th.id == Some(th.phase.id) && th.child.None?)
    && (th.phase.Failing? ==> th.id == Some(th.phase.id))
    && (th.phase.Replied? ==>
          && th.id == Some(th.phase.id)
          && th.child == Some(Output(1, th.phase.id, true, th.phase.reply))
          && th.phase.reply.signature.Decoded? && !th.phase.reply.publicKey.Undecodable?)
    && (th.id.Some? && (th.phase.HasSignature? || Succeeded(th)) ==>
          th.child.Some? && GoodAnswer(th.handler, th.id.value, th.child.value))
  }

  lemma ActKeepsAnswer(s: State, th: Thread, a: Action)
    requires Enabled(th.phase, a) && AnswerHolds(th)
    ensures AnswerHolds(Moved(s, th, a))
  {
    if a.ChildEnds? && Accepted(th.phase.id, a.child).Some? {
      AcceptedMeans(th.phase.id, a.child, Accepted(th.phase.id, a.child).value);
    }
  }

  lemma {:induction false} RunKeepsAnswers(s: State, steps: seq<Step>)
    requires forall t :: t in s.threads ==> AnswerHolds(s.threads[t])
    ensures forall t :: t in Run(s, steps).threads ==> AnswerHolds(Run(s, steps).threads[t])
  {
    if steps != [] {
      RunKeepsAnswers(s, steps[..|steps| - 1]);
      var m, step := Run(s, steps[..|steps| - 1]), steps[|steps| - 1];
      if step.Act? && step.t in m.threads && Enabled(m.threads[step.t].phase, step.action) {
        ActKeepsAnswer(m, m.threads[step.t], step.action);
      }
    }
  }

  /**
   No success without the child's own word. In every interleaving, however appends fare, each
   success response on the enclave path has a response of its child behind it that is in version
   1, names this request, reports success, and holds what the handler returns.
   */
  lemma SuccessHasGoodAnswer(log: seq<Record>, nextId: nat, failClosed: bool, steps: seq<Step>, t: nat)
    requires var s := Run(Fresh(log, nextId, failClosed), steps);
             t in s.threads && Succeeded(s.threads[t]) && s.threads[t].id.Some?
    ensures var th := Run(Fresh(log, nextId, failClosed), steps).threads[t];
            th.child.Some? && GoodAnswer(th.handler, th.id.value, th.child.value)
  {
    RunKeepsAnswers(Fresh(log, nextId, failClosed), steps);
  }

  // ---------------------------------------------------------------------------
  // Pending and resolved
  // ---------------------------------------------------------------------------

  /** Does the record count for the id? */
  predicate Counts(r: Record, id: nat, resolved: bool) {
    if resolved then r.Resolved? && r.id == id else r == Pending(id)
  }

  function Count(log: seq<Record>, id: nat, resolved: bool): nat {
    if log == [] then 0
    else
      var r := log[|log| - 1];
      Count(log[..|log| - 1], id, resolved) + if Counts(r, id, resolved) then 1 else 0
  }

  /** No record of the log carries the id. */
  predicate Unused(log: seq<Record>, id: nat) {
    Count(log, id, false) == 0 && Count(log, id, true) == 0
  }

  /** The append of the step, if it makes one, reaches the file, synced or not. */
  predicate Writable(step: Step) {
    step.Act? ==>
      match step.action
      case Refuse(_, landing) => !landing.NotWritten?
      case SendPending(landing) => !landing.NotWritten?
      case Resolve(landing) => !landing.NotWritten?
      case Confirm(_, landing) => !landing.NotWritten?
      case _ => true
  }

  /** The call is over and had an outcome to report, or a signature is in hand. */
  predicate Settled(p: Phase) {
    p.HasSignature? || (p.Done? && !p.exit.NoExecutable? && !p.exit.BadFields?)
  }

  /** How far the call has got says what the child gave. */
  ghost predicate ChildHolds(th: Thread) {
    && (th.phase.Checking? || th.phase.Cleared? || th.phase.Spawning? ==> th.child.None?)
    && (th.phase.Replied? ==>
          th.child.Some? && Accepted(th.phase.id, th.child.value) == Some(th.phase.reply) && Decodes(th.phase.reply))
    && (th.phase.Failing? ==> th.child.Some? && Accepted(th.phase.id, th.child.value).None?)
  }

  /** The record carries this request's id, and a resolved one says what became of its child. */
  predicate Owns(th: Thread, r: Record) {
    && (r.Pending? || r.Resolved? ==> th.id == Some(r.id))
    && (r.Resolved? ==>
          th.child.Some? && var ch := th.child.value;
          r.ok <==> ch.Output? && ch.version == 1 && ch.id == r.id && ch.ok)
  }

  ghost predicate IdHolds(s: State, t: nat)
    requires t in s.threads
  {
    var th := s.threads[t];
    && (th.phase.Spawning? || th.phase.Replied? || th.phase.Failing? ==> th.id == Some(th.phase.id))
    && (th.phase.Checking? || th.phase.Cleared? ==> th.id.None?)
    && ChildHolds(th)
    && (th.id.Some? ==>
          && th.id.value < s.nextId
          && Count(s.log, th.id.value, false) == 1
          && Count(s.log, th.id.value, true) == if Settled(th.phase) then 1 else 0)
  }

  /** What the log says about ids, for a log that started without any. */
  ghost predicate IdsHold(s: State) {
    && (forall t :: t in s.threads ==> IdHolds(s, t))
    && (forall t, u :: t in s.threads && u in s.threads && t != u && s.threads[t].id.Some? ==>
          s.threads[t].id != s.threads[u].id)
    && (forall id: nat, b :: id >= s.nextId ==> Count(s.log, id, b) == 0)
    && (forall i: nat :: i < |s.log| ==> RecordHolds(s, i))
  }

  /** A record with an id belongs to a request, and a resolved one has its pending one before it. */
  ghost predicate RecordHolds(s: State, i: nat)
    requires i < |s.log|
  {
    var r := s.log[i];
    && (r.Pending? || r.Resolved? ==> exists t :: t in s.threads && Owns(s.threads[t], r))
    && (r.Resolved? ==> Pending(r.id) in s.log[..i])
  }

  lemma {:induction false} CountSnoc(log: seq<Record>, r: Record, id: nat, b: bool)
    ensures Count(log + [r], id, b) ==
            Count(log, id, b) + if Counts(r, id, b) then 1 else 0
  {
    assert (log + [r])[..|log|] == log;
  }

  lemma {:induction false} CountedIsThere(log: seq<Record>, id: nat)
    requires Count(log, id, false) > 0
    ensures Pending(id) in log
  {
    var init, r := log[..|log| - 1], log[|log| - 1];
    assert log == init + [r];
    if r != Pending(id) {
      CountedIsThere(init, id);
    }
  }

  lemma CountAfter(s: State, t: nat, a: Action, id: nat, b: bool)
    requires t in s.threads && Enabled(s.threads[t].phase, a)
    ensures var w := Writes(s, s.threads[t], a);
            Count(ActOn(s, t, a).log, id, b) == Count(s.log, id, b) + if w.Some? && Counts(w.value, id, b) then 1 else 0
  {
    var w := Writes(s, s.threads[t], a);
    if w.Some? {
      CountSnoc(s.log, w.value, id, b);
    }
  }

  /** The acting request's own bookkeeping, by what the action writes. */
  lemma SenderHolds(s: State, t: nat, landing: AuditLog.Landing)
    requires t in s.threads && s.threads[t].phase.Cleared? && !landing.NotWritten? && IdHolds(s, t)
    requires Count(s.log, s.nextId, false) == 0 && Count(s.log, s.nextId, true) == 0
    ensures IdHolds(ActOn(s, t, SendPending(landing)), t)
  {
    CountAfter(s, t, SendPending(landing), s.nextId, false);
    CountAfter(s, t, SendPending(landing), s.nextId, true);
  }

  lemma ResolverHolds(s: State, t: nat, landing: AuditLog.Landing)
    requires t in s.threads && Enabled(s.threads[t].phase, Resolve(landing)) && !landing.NotWritten? && IdHolds(s, t)
    ensures IdHolds(ActOn(s, t, Resolve(landing)), t)
  {
    CountAfter(s, t, Resolve(landing), s.threads[t].phase.id, false);
    CountAfter(s, t, Resolve(landing), s.threads[t].phase.id, true);
  }

  lemma ActorHolds(s: State, t: nat, a: Action)
    requires t in s.threads && Enabled(s.threads[t].phase, a)
    requires !a.SendPending? && !a.Resolve? && IdHolds(s, t)
    ensures IdHolds(ActOn(s, t, a), t)
  {
    if s.threads[t].id.Some? {
      CountAfter(s, t, a, s.threads[t].id.value, false);
      CountAfter(s, t, a, s.threads[t].id.value, true);
    }
  }

  lemma BystanderHolds(s: State, t: nat, a: Action, u: nat)
    requires t in s.threads && Enabled(s.threads[t].phase, a)
    requires u in s.threads && u != t && IdHolds(s, u) && IdHolds(s, t)
    requires s.threads[t].id.Some? ==> s.threads[t].id != s.threads[u].id
    ensures IdHolds(ActOn(s, t, a), u)
  {
    if s.threads[u].id.Some? {
      CountAfter(s, t, a, s.threads[u].id.value, false);
      CountAfter(s, t, a, s.threads[u].id.value, true);
    }
  }

  lemma ActKeepsIds(s: State, t: nat, a: Action)
    requires t in s.threads && Enabled(s.threads[t].phase, a)
    requires Writable(Act(t, a)) && IdsHold(s)
    ensures IdsHold(ActOn(s, t, a))
  {
    var s', th := ActOn(s, t, a), s.threads[t];
    assert IdHolds(s, t);
    forall u | u in s'.threads ensures IdHolds(s', u) {
      if u == t {
        match a
        case SendPending(landing) => SenderHolds(s, t, landing);
        case Resolve(landing) => ResolverHolds(s, t, landing);
        case _ => ActorHolds(s, t, a);
      } else {
        BystanderHolds(s, t, a, u);
      }
    }
    forall id: nat, b | id >= s'.nextId ensures Count(s'.log, id, b) == 0 {
      CountAfter(s, t, a, id, b);
    }
    forall i: nat | i < |s'.log| ensures RecordHolds(s', i) {
      if i < |s.log| {
        OldRecordHolds(s, t, a, i);
      } else {
        NewRecordHolds(s, t, a);
      }
    }
  }

  lemma NewRecordHolds(s: State, t: nat, a: Action)
    requires t in s.threads && Enabled(s.threads[t].phase, a)
    requires Writes(s, s.threads[t], a).Some? && IdHolds(s, t)
    ensures RecordHolds(ActOn(s, t, a), |s.log|)
  {
    var s' := ActOn(s, t, a);
    assert s'.log[..|s.log|] == s.log;
    if a.Resolve? {
      CountedIsThere(s.log, s.threads[t].id.value);
      assert Owns(s'.threads[t], s'.log[|s.log|]);
    } else if a.SendPending? {
      assert Owns(s'.threads[t], s'.log[|s.log|]);
    }
  }

  lemma OldRecordHolds(s: State, t: nat, a: Action, i: nat)
    requires t in s.threads && Enabled(s.threads[t].phase, a)
    requires i < |s.log| && RecordHolds(s, i) && IdHolds(s, t)
    ensures RecordHolds(ActOn(s, t, a), i)
  {
    var s' := ActOn(s, t, a);
    var r := s.log[i];
    assert s'.log[i] == r && s'.log[..i] == s.log[..i];
    if r.Pending? || r.Resolved? {
      var u :| u in s.threads && Owns(s.threads[u], r);
      assert u in s'.threads && Owns(s'.threads[u], r);
    }
  }

  lemma {:induction false} RunKeepsIds(s: State, steps: seq<Step>)
    requires IdsHold(s)
    requires forall i :: 0 <= i < |steps| ==> Writable(steps[i])
    ensures IdsHold(Run(s, steps))
  {
    if steps != [] {
      RunKeepsIds(s, steps[..|steps| - 1]);
      var m, step := Run(s, steps[..|steps| - 1]), steps[|steps| - 1];
      match step
      case Begin(t, h) =>
        BeginKeepsIds(m, t, h);
      case Act(t, a) =>
        if t in m.threads && Enabled(m.threads[t].phase, a) {
          ActKeepsIds(m, t, a);
        }
    }
  }

  lemma BeginKeepsIds(s: State, t: nat, h: Handler)
    requires IdsHold(s)
    ensures IdsHold(Apply(s, Begin(t, h)))
  {
    var s' := Apply(s, Begin(t, h));
    forall u | u in s'.threads ensures IdHolds(s', u) {
      if u in s.threads {
        assert IdHolds(s, u);
      }
    }
    forall i: nat | i < |s'.log| ensures RecordHolds(s', i) {
      assert RecordHolds(s, i);
      var r := s.log[i];
      if r.Pending? || r.Resolved? {
        var u :| u in s.threads && Owns(s.threads[u], r);
        assert Owns(s'.threads[u], r);
      }
    }
  }

  /** In the part of the log that the run wrote itself. */
  lemma PendingIsResolvedHere(nextId: nat, failClosed: bool, steps: seq<Step>, p: nat) returns (t: nat)
    requires forall i :: 0 <= i < |steps| ==> Writable(steps[i])
    requires p < |Run(Fresh([], nextId, failClosed), steps).log|
    requires Run(Fresh([], nextId, failClosed), steps).log[p].Pending?
    ensures var s := Run(Fresh([], nextId, failClosed), steps);
            t in s.threads && Paired(s.log, p, s.threads[t])
  {
    RunKeepsIds(Fresh([], nextId, failClosed), steps);
    var s := Run(Fresh([], nextId, failClosed), steps);
    var id := s.log[p].id;
    assert RecordHolds(s, p);
    t :| t in s.threads && Owns(s.threads[t], s.log[p]);
    assert IdHolds(s, t);
    forall i: nat | i < |s.log| && s.log[i].Resolved? && s.log[i].id == id ensures p < i && Owns(s.threads[t], s.log[i]) {
      assert RecordHolds(s, i);
      var q :| 0 <= q < i && s.log[..i][q] == Pending(id);
      OnlyOnePending(s.log, id, p, q);
      var u :| u in s.threads && Owns(s.threads[u], s.log[i]);
      assert u == t;
    }
  }

  /**
   The pending record at p and the request th: the only one with its id; one resolved record
   if the call has an outcome and else none; it comes later and tells whether the child's
   answer was accepted.
   */
  ghost predicate Paired(log: seq<Record>, p: nat, th: Thread)
    requires p < |log| && log[p].Pending?
  {
    var id := log[p].id;
    && th.id == Some(id)
    && Count(log, id, false) == 1
    && Count(log, id, true) == (if Settled(th.phase) then 1 else 0)
    && (forall i :: 0 <= i < |log| && log[i].Resolved? && log[i].id == id ==> p < i && Owns(th, log[i]))
  }

  function Later(th: Thread, n: nat): Thread {
    th.(begun := th.begun + n, mark := if th.mark.Some? then Some(th.mark.value + n) else None)
  }

  /** The same state with earlier records in front of the log. */
  function After(earlier: seq<Record>, s: State): State {
    State(earlier + s.log, map t | t in s.threads :: Later(s.threads[t], |earlier|), s.nextId, s.failClosed)
  }

  lemma MovedAfter(earlier: seq<Record>, s: State, th: Thread, a: Action)
    requires Enabled(th.phase, a)
    ensures Writes(After(earlier, s), Later(th, |earlier|), a) == Writes(s, th, a)
    ensures Moved(After(earlier, s), Later(th, |earlier|), a) == Later(Moved(s, th, a), |earlier|)
  {
  }

  lemma ActAfter(earlier: seq<Record>, s: State, t: nat, a: Action)
    requires t in s.threads && Enabled(s.threads[t].phase, a)
    ensures ActOn(After(earlier, s), t, a) == After(earlier, ActOn(s, t, a))
  {
    MovedAfter(earlier, s, s.threads[t], a);
    var x, y := ActOn(After(earlier, s), t, a), After(earlier, ActOn(s, t, a));
    assert x.log == y.log;
    assert x.threads == y.threads;
  }

  lemma BeginAfter(earlier: seq<Record>, s: State, t: nat, h: Handler)
    ensures Apply(After(earlier, s), Begin(t, h)) == After(earlier, Apply(s, Begin(t, h)))
  {
    var x, y := Apply(After(earlier, s), Begin(t, h)), After(earlier, Apply(s, Begin(t, h)));
    assert x.threads == y.threads;
  }

  lemma ApplyAfter(earlier: seq<Record>, s: State, step: Step)
    ensures Apply(After(earlier, s), step) == After(earlier, Apply(s, step))
  {
    match step
    case Begin(t, h) => BeginAfter(earlier, s, t, h);
    case Act(t, a) =>
      if t in s.threads && Enabled(s.threads[t].phase, a) {
        ActAfter(earlier, s, t, a);
      }
  }

  /** What the log held at the start plays no part: the run goes as on an empty log, behind it. */
  lemma {:induction false} RunAfter(earlier: seq<Record>, nextId: nat, failClosed: bool, steps: seq<Step>)
    ensures Run(Fresh(earlier, nextId, failClosed), steps) == After(earlier, Run(Fresh([], nextId, failClosed), steps))
  {
    if steps == [] {
      assert earlier + [] == earlier;
    } else {
      RunAfter(earlier, nextId, failClosed, steps[..|steps| - 1]);
      ApplyAfter(earlier, Run(Fresh([], nextId, failClosed), steps[..|steps| - 1]), steps[|steps| - 1]);
    }
  }

  lemma {:induction false} CountConcat(a: seq<Record>, b: seq<Record>, id: nat, resolved: bool)
    ensures Count(a + b, id, resolved) == Count(a, id, resolved) + Count(b, id, resolved)
  {
    if b == [] {
      assert a + b == a;
    } else {
      var init, r := b[..|b| - 1], b[|b| - 1];
      assert a + b == (a + init) + [r] && b == init + [r];
      CountSnoc(a + init, r, id, resolved);
      CountSnoc(init, r, id, resolved);
      CountConcat(a, init, id, resolved);
    }
  }

  /** Ids are handed out from the counter's start upwards. */
  lemma {:induction false} IdsFromStart(nextId: nat, failClosed: bool, steps: seq<Step>)
    ensures var s := Run(Fresh([], nextId, failClosed), steps);
            nextId <= s.nextId && forall t :: t in s.threads && s.threads[t].id.Some? ==> nextId <= s.threads[t].id.value
  {
    if steps != [] {
      IdsFromStart(nextId, failClosed, steps[..|steps| - 1]);
    }
  }

  /**
   Pending and resolved records pair up. On any log and in every interleaving whose appends
   land, each pending record the run writes belongs to one request, and among the records of
   the run is followed by exactly one resolved record with its id once that request's enclave
   call is over - unless the call ended at a failed executable lookup or at an accepted response
   whose fields do not decode; then, and while the call is in flight, by none. The resolved
   record says whether the child's response was accepted. Ids count from the start of the
   process; where the log held none of this id before, all this is so of the whole log.
   */
  lemma PendingIsResolved(log: seq<Record>, nextId: nat, failClosed: bool, steps: seq<Step>, p: nat) returns (t: nat)
    requires forall i :: 0 <= i < |steps| ==> Writable(steps[i])
    requires |log| <= p < |Run(Fresh(log, nextId, failClosed), steps).log|
    requires Run(Fresh(log, nextId, failClosed), steps).log[p].Pending?
    ensures var s := Run(Fresh(log, nextId, failClosed), steps);
            && log <= s.log && t in s.threads && nextId <= s.log[p].id
            && Paired(s.log[|log|..], p - |log|, s.threads[t])
            && (Unused(log, s.log[p].id) ==> Paired(s.log, p, s.threads[t]))
  {
    RunAfter(log, nextId, failClosed, steps);
    var r := Run(Fresh([], nextId, failClosed), steps);
    t := PendingIsResolvedHere(nextId, failClosed, steps, p - |log|);
    IdsFromStart(nextId, failClosed, steps);
    assert (log + r.log)[|log|..] == r.log;
    assert Paired(r.log, p - |log|, Later(r.threads[t], |log|));
    if Unused(log, r.log[p - |log|].id) {
      PairedAfter(log, r.log, p - |log|, r.threads[t]);
    }
  }

  lemma PairedAfter(earlier: seq<Record>, log: seq<Record>, p: nat, th: Thread)
    requires p < |log| && log[p].Pending? && Paired(log, p, th)
    requires Unused(earlier, log[p].id)
    ensures Paired(earlier + log, |earlier| + p, Later(th, |earlier|))
  {
    var all, id := earlier + log, log[p].id;
    CountConcat(earlier, log, id, false);
    CountConcat(earlier, log, id, true);
    forall i | 0 <= i < |all| && all[i].Resolved? && all[i].id == id
      ensures |earlier| + p < i && Owns(Later(th, |earlier|), all[i])
    {
      if i < |earlier| {
        ResolvedCounts(earlier, id, i);
      } else {
        assert all[i] == log[i - |earlier|];
      }
    }
  }

  lemma {:induction false} ResolvedCounts(log: seq<Record>, id: nat, i: nat)
    requires i < |log| && log[i].Resolved? && log[i].id == id
    ensures Count(log, id, true) >= 1
  {
    if i < |log| - 1 {
      ResolvedCounts(log[..|log| - 1], id, i);
    }
  }

  /**
   A pending record without a resolved one does not mean that the parent died: with every
   append working, a request can be over and answered and still leave one, by a failed lookup
   of the executable or by a signed response that does not decode.
   */
  lemma UnmatchedWithoutACrash() returns (lookup: seq<Step>, decode: seq<Step>)
    ensures forall i :: 0 <= i < |lookup| ==> Writable(lookup[i])
    ensures forall i :: 0 <= i < |decode| ==> Writable(decode[i])
    ensures var s := Run(Fresh([], 0, true), lookup);
            s.log == [Pending(0)] && 0 in s.threads && s.threads[0].phase == Done(NoExecutable)
    ensures var s := Run(Fresh([], 0, true), decode);
            s.log == [Pending(0)] && 0 in s.threads && s.threads[0].phase == Done(BadFields)
  {
    var start := Fresh([], 0, true);
    var child := Output(PROTOCOL_VERSION, 0, true, Reply(Undecodable, Absent, false, false));
    var sent := SendsPending();
    RunSnoc(start, sent, Act(0, LookupFails));
    RunSnoc(start, sent, Act(0, ChildEnds(child)));
    lookup, decode := sent + [Act(0, LookupFails)], sent + [Act(0, ChildEnds(child))];
  }

  /** A first request up to its pending record. */
  lemma SendsPending() returns (steps: seq<Step>)
    ensures forall i :: 0 <= i < |steps| ==> Writable(steps[i])
    ensures var s := Run(Fresh([], 0, true), steps);
            s.log == [Pending(0)] && 0 in s.threads && s.threads[0].phase == Spawning(0)
  {
    var start := Fresh([], 0, true);
    RunSnoc(start, [], Begin(0, SignMessage));
    steps := [] + [Begin(0, SignMessage)];
    RunSnoc(start, steps, Act(0, Clear));
    steps := steps + [Act(0, Clear)];
    RunSnoc(start, steps, Act(0, SendPending(AuditLog.Synced)));
    steps := steps + [Act(0, SendPending(AuditLog.Synced))];
  }

  lemma {:induction false} OnlyOnePending(log: seq<Record>, id: nat, p: nat, q: nat)
    requires p < |log| && q < |log| && log[p] == log[q] == Pending(id)
    requires Count(log, id, false) == 1
    ensures p == q
  {
    var init, r := log[..|log| - 1], log[|log| - 1];
    if p < |init| && q < |init| {
      CountAtLeastOne(init, id, p);
      OnlyOnePending(init, id, p, q);
    } else if p < |init| {
      CountAtLeastOne(init, id, p);
    } else if q < |init| {
      CountAtLeastOne(init, id, q);
    }
  }

  lemma {:induction false} CountAtLeastOne(log: seq<Record>, id: nat, p: nat)
    requires p < |log| && log[p] == Pending(id)
    ensures Count(log, id, false) >= 1
  {
    if p < |log| - 1 {
      CountAtLeastOne(log[..|log| - 1], id, p);
    }
  }

  // ---------------------------------------------------------------------------
  // The handlers as the source runs them
  // ---------------------------------------------------------------------------

  /** What one request meets on its way. */
  datatype World = World(
    refusal: Option<Option<AuditLog.EventType>>,
    alertLanding: AuditLog.Landing,
    enclave: bool,
    exeFound: bool,
    child: nat -> Child,
    pendingLanding: AuditLog.Landing,
    resolvedLanding: AuditLog.Landing,
    signsInProcess: bool,
    owned: bool,
    confirmLanding: AuditLog.Landing)

  /** What `sign_via_enclave` leaves in the log. */
  function EnclaveLog(log: seq<Record>, w: World, id: nat): seq<Record> {
    var sent := Appended(log, Pending(id), w.pendingLanding);
    var reply := Accepted(id, w.child(id));
    if !w.exeFound || (reply.Some? && !Decodes(reply.value)) then sent
    else Appended(sent, Resolved(id, reply.Some?), w.resolvedLanding)
  }

  /** What it returns: the reply, or the exit through which it fails. */
  function EnclaveResult(w: World, id: nat, failClosed: bool): Result<Reply, Exit> {
    var reply := Accepted(id, w.child(id));
    if !w.exeFound then Err(NoExecutable)
    else if reply.Some? && !Decodes(reply.value) then Err(BadFields)
    else if failClosed && !w.resolvedLanding.Synced? then Err(Unaudited)
    else if reply.None? then Err(ChildError)
    else Ok(reply.value)
  }

  /** The steps after the pending record. */
  function ChildSteps(w: World, id: nat): seq<Step> {
    var reply := Accepted(id, w.child(id));
    if !w.exeFound then [Act(0, LookupFails)]
    else if reply.Some? && !Decodes(reply.value) then [Act(0, ChildEnds(w.child(id)))]
    else [Act(0, ChildEnds(w.child(id))), Act(0, Resolve(w.resolvedLanding))]
  }

  /** The child answers this call in version 1 with success. */
  predicate AnswersOk(w: World, id: nat) {
    var ch := w.child(id);
    ch.Output? && ch.version == 1 && ch.id == id && ch.ok
  }

  /** Its signature, or its public key, is not hex. */
  predicate BadReply(w: World, id: nat) {
    AnswersOk(w, id) && (!w.child(id).reply.signature.Decoded? || w.child(id).reply.publicKey.Undecodable?)
  }

  /**
   What an enclave call returns and records, case by case in terms of the child's own response:
   the executable is missing; the reply does not decode; the resolved record must be synced and
   is not; the child failed; or the reply is returned.
   */
  lemma EnclaveCases(log: seq<Record>, w: World, id: nat, failClosed: bool)
    ensures var r := EnclaveResult(w, id, failClosed);
            && (!w.exeFound ==> r == Err(NoExecutable))
            && (w.exeFound && BadReply(w, id) ==> r == Err(BadFields))
            && (w.exeFound && !BadReply(w, id) && failClosed && !w.resolvedLanding.Synced? ==> r == Err(Unaudited))
            && (w.exeFound && !AnswersOk(w, id) && (failClosed ==> w.resolvedLanding.Synced?) ==> r == Err(ChildError))
            && (w.exeFound && AnswersOk(w, id) && !BadReply(w, id) && (failClosed ==> w.resolvedLanding.Synced?) ==>
                  r == Ok(w.child(id).reply))
    ensures EnclaveLog(log, w, id) ==
            log + (if w.pendingLanding.NotWritten? then [] else [Pending(id)])
                + (if !w.exeFound || BadReply(w, id) || w.resolvedLanding.NotWritten? then [] else [Resolved(id, AnswersOk(w, id))])
  {
    if Accepted(id, w.child(id)).Some? {
      AcceptedMeans(id, w.child(id), Accepted(id, w.child(id)).value);
    }
  }

  /**
   When a handler succeeds: it is not refused; on the enclave path the executable is there and the
   child's answer is good, in process the signer works; a Sign-In wallet owns the address; and
   with `audit_fail_closed` every success record it makes is synced.
   */
  predicate HandlerSucceeds(h: Handler, w: World, id: nat, failClosed: bool) {
    && w.refusal.None?
    && (if w.enclave then w.exeFound && GoodAnswer(h, id, w.child(id)) && (failClosed ==> w.resolvedLanding.Synced?)
        else w.signsInProcess)
    && (h.SignSiwx? ==> w.owned)
    && (failClosed && (h.SignSiwx? || !w.enclave) ==> w.confirmLanding.Synced?)
  }

  lemma HandlerSucceedsIff(h: Handler, w: World, id: nat, failClosed: bool)
    ensures HandlerExit(h, w, id, failClosed).Signed? <==> HandlerSucceeds(h, w, id, failClosed)
  {
    EnclaveCases([], w, id, failClosed);
  }

  /**
   What a handler that is not refused records at its end: on the in-process path, and always for
   Sign-In, its own event once it holds a signature of the owner.
   */
  lemma ConfirmCases(log: seq<Record>, h: Handler, w: World)
    ensures ConfirmLog(log, h, w) ==
            if (h.SignSiwx? && !w.owned) || w.confirmLanding.NotWritten? then log
            else if h.SignSiwx? then log + [Record.Signed(AuditLog.SiwxSigned)]
            else if h.SignAuth? then log + [Record.Signed(AuditLog.AuthSigned)]
            else log + [Record.Signed(AuditLog.TransactionSigned)]
  {
  }

  /** Where a handler stands with the result of the enclave. */
  function PhaseWith(h: Handler, r: Result<Reply, Exit>): Phase {
    match r
    case Err(e) => Done(e)
    case Ok(reply) =>
      if !Suffices(h, reply) then Done(Incomplete) else if h.SignSiwx? then HasSignature else Done(Exit.Signed)
  }

  /** How a handler that holds a signature ends. */
  function ConfirmExit(h: Handler, w: World, failClosed: bool): Exit {
    if h.SignSiwx? && !w.owned then NotOwner else if failClosed && !w.confirmLanding.Synced? then Unaudited else Exit.Signed
  }

  function ConfirmLog(log: seq<Record>, h: Handler, w: World): seq<Record> {
    if h.SignSiwx? && !w.owned then log else Appended(log, Record.Signed(SignedEvent(h)), w.confirmLanding)
  }

  /** Where a handler stands when signing is over, by whichever path. */
  function AfterSigning(h: Handler, w: World, id: nat, failClosed: bool): Phase {
    if w.refusal.Some? then Done(Refused)
    else if w.enclave then PhaseWith(h, EnclaveResult(w, id, failClosed))
    else if w.signsInProcess then HasSignature
    else Done(SigningFailed)
  }

  /** How a handler ends. */
  function HandlerExit(h: Handler, w: World, id: nat, failClosed: bool): Exit {
    var p := AfterSigning(h, w, id, failClosed);
    if p.Done? then p.exit else ConfirmExit(h, w, failClosed)
  }

  /** What a handler leaves in the log. */
  function HandlerLog(log: seq<Record>, h: Handler, w: World, id: nat, failClosed: bool): seq<Record> {
    if w.refusal.Some? then
      if w.refusal.value.Some? then Appended(log, Alert(w.refusal.value.value), w.alertLanding) else log
    else
      var signed := if w.enclave then EnclaveLog(log, w, id) else log;
      if AfterSigning(h, w, id, failClosed).HasSignature? then ConfirmLog(signed, h, w) else signed
  }

  /**
   What a handler leaves in the log: refused, its alert if it has one; else on the enclave path the
   records of the call; and its own event if it signs in process, or is Sign-In with an answer that
   is good.
   */
  lemma HandlerLogCases(log: seq<Record>, h: Handler, w: World, id: nat, failClosed: bool)
    ensures w.refusal.Some? ==>
              HandlerLog(log, h, w, id, failClosed) ==
              log + if w.refusal.value.Some? && !w.alertLanding.NotWritten? then [Alert(w.refusal.value.value)] else []
    ensures w.refusal.None? && !w.enclave ==>
              HandlerLog(log, h, w, id, failClosed) == if w.signsInProcess then ConfirmLog(log, h, w) else log
    ensures w.refusal.None? && w.enclave ==>
              var confirms := h.SignSiwx? && w.exeFound && GoodAnswer(h, id, w.child(id)) && (failClosed ==> w.resolvedLanding.Synced?);
              HandlerLog(log, h, w, id, failClosed) == if confirms then ConfirmLog(EnclaveLog(log, w, id), h, w) else EnclaveLog(log, w, id)
  {
    EnclaveCases(log, w, id, failClosed);
  }

  /** The machine in which only request 0 runs has got this far. */
  ghost predicate At(start: State, steps: seq<Step>, log: seq<Record>, nextId: nat, handler: Handler, phase: Phase) {
    var s := Run(start, steps);
    && s.log == log && s.nextId == nextId && s.failClosed == start.failClosed
    && 0 in s.threads && s.threads[0].handler == handler && s.threads[0].phase == phase
  }

  /** One more action of request 0. */
  lemma Moves(start: State, steps: seq<Step>, log: seq<Record>, nextId: nat, handler: Handler, phase: Phase, a: Action)
    requires At(start, steps, log, nextId, handler, phase) && Enabled(phase, a)
    ensures var s := State(log, map[], nextId, start.failClosed);
            var th := Thread(handler, phase, 0, None, None, None);
            var w := Writes(s, th, a);
            At(start, steps + [Act(0, a)], if w.Some? then log + [w.value] else log,
               if a.SendPending? then nextId + 1 else nextId, handler, NextPhase(s, th, a))
  {
    RunSnoc(start, steps, Act(0, a));
  }

  /** What the enclave call does once its pending record is sent. */
  lemma ChildIsARun(start: State, before: seq<Step>, sent: seq<Record>, id: nat, h: Handler, w: World)
    requires At(start, before, sent, id + 1, h, Spawning(id))
    ensures var reply := Accepted(id, w.child(id));
            At(start, before + ChildSteps(w, id),
               if !w.exeFound || (reply.Some? && !Decodes(reply.value)) then sent
               else Appended(sent, Resolved(id, reply.Some?), w.resolvedLanding),
               id + 1, h, PhaseWith(h, EnclaveResult(w, id, start.failClosed)))
  {
    if !w.exeFound {
      Moves(start, before, sent, id + 1, h, Spawning(id), LookupFails);
    } else {
      var reply := Accepted(id, w.child(id));
      Moves(start, before, sent, id + 1, h, Spawning(id), ChildEnds(w.child(id)));
      if reply.None? || Decodes(reply.value) {
        var ended := before + [Act(0, ChildEnds(w.child(id)))];
        var phase := if reply.Some? then Replied(id, reply.value) else Failing(id);
        Moves(start, ended, sent, id + 1, h, phase, Resolve(w.resolvedLanding));
        assert before + ChildSteps(w, id) == ended + [Act(0, Resolve(w.resolvedLanding))];
      }
    }
  }

  /** The enclave call is a run of the machine. */
  lemma EnclaveIsARun(start: State, before: seq<Step>, log: seq<Record>, id: nat, h: Handler, w: World)
    requires At(start, before, log, id, h, Cleared)
    ensures At(start, before + [Act(0, SendPending(w.pendingLanding))] + ChildSteps(w, id), EnclaveLog(log, w, id), id + 1, h,
               PhaseWith(h, EnclaveResult(w, id, start.failClosed)))
  {
    Moves(start, before, log, id, h, Cleared, SendPending(w.pendingLanding));
    ChildIsARun(start, before + [Act(0, SendPending(w.pendingLanding))], Appended(log, Pending(id), w.pendingLanding), id, h, w);
  }

  lemma SigningIsARun(start: State, log: seq<Record>, id: nat, h: Handler, w: World) returns (steps: seq<Step>)
    requires start == Fresh(log, id, start.failClosed) && w.refusal.None?
    ensures At(start, steps, if w.enclave then EnclaveLog(log, w, id) else log, if w.enclave then id + 1 else id, h,
               AfterSigning(h, w, id, start.failClosed))
  {
    RunSnoc(start, [], Begin(0, h));
    steps := [] + [Begin(0, h)];
    Moves(start, steps, log, id, h, Checking, Clear);
    steps := steps + [Act(0, Clear)];
    if w.enclave {
      EnclaveIsARun(start, steps, log, id, h, w);
      steps := steps + [Act(0, SendPending(w.pendingLanding))] + ChildSteps(w, id);
    } else {
      Moves(start, steps, log, id, h, Cleared, SignInProcess(w.signsInProcess));
      steps := steps + [Act(0, SignInProcess(w.signsInProcess))];
    }
  }

  /**
   A handler that runs by itself is a run of the machine with the same log and the same end,
   so that all that holds of every interleaving holds of the code.
   */
  lemma HandlerIsARun(log: seq<Record>, id: nat, failClosed: bool, h: Handler, w: World) returns (steps: seq<Step>)
    ensures At(Fresh(log, id, failClosed), steps, HandlerLog(log, h, w, id, failClosed),
               if w.enclave && w.refusal.None? then id + 1 else id, h, Done(HandlerExit(h, w, id, failClosed)))
  {
    var start := Fresh(log, id, failClosed);
    if w.refusal.Some? {
      RunSnoc(start, [], Begin(0, h));
      steps := [] + [Begin(0, h)];
      Moves(start, steps, log, id, h, Checking, Refuse(w.refusal.value, w.alertLanding));
      steps := steps + [Act(0, Refuse(w.refusal.value, w.alertLanding))];
    } else {
      steps := SigningIsARun(start, log, id, h, w);
      if AfterSigning(h, w, id, failClosed).HasSignature? {
        var signed, next := if w.enclave then EnclaveLog(log, w, id) else log, if w.enclave then id + 1 else id;
        Moves(start, steps, signed, next, h, HasSignature, Confirm(w.owned, w.confirmLanding));
        steps := steps + [Act(0, Confirm(w.owned, w.confirmLanding))];
      }
    }
  }

  class AgentContext {
    var log: seq<Record>
    var nextId: nat
    const failClosed: bool

    constructor (failClosed: bool)
      ensures log == [] && nextId == 0 && this.failClosed == failClosed
    {
      log, nextId, this.failClosed := [], 0, failClosed;
    }

    /** `sign_via_enclave`. */
    method SignViaEnclave(w: World) returns (r: Result<Reply, Exit>)
      modifies this
      ensures nextId == old(nextId) + 1
      ensures log == EnclaveLog(old(log), w, old(nextId))
      ensures r == EnclaveResult(w, old(nextId), failClosed)
      ensures r.Ok? ==>
                && w.exeFound && w.child(old(nextId)) == Output(1, old(nextId), true, r.value)
                && r.value.signature.Decoded? && !r.value.publicKey.Undecodable?
      ensures forall b :: Resolved(old(nextId), b) in log[|old(log)|..] ==> (b <==> AnswersOk(w, old(nextId)))
    {
      EnclaveCases(log, w, nextId, failClosed);
      var id := nextId;
      nextId := nextId + 1;
      log := Appended(log, Pending(id), w.pendingLanding);
      if !w.exeFound {
        return Err(NoExecutable);
      }
      match Accepted(id, w.child(id))
      case Some(reply) =>
        if !reply.signature.Decoded? {
          return Err(BadFields);
        }
        if reply.publicKey.Undecodable? {
          return Err(BadFields);
        }
        log := Appended(log, Resolved(id, true), w.resolvedLanding);
        if failClosed && !w.resolvedLanding.Synced? {
          return Err(Unaudited);
        }
        r := Ok(reply);
      case None =>
        log := Appended(log, Resolved(id, false), w.resolvedLanding);
        if failClosed && !w.resolvedLanding.Synced? {
          return Err(Unaudited);
        }
        r := Err(ChildError);
    }

    /** The tail of a handler that holds a signature: ownership for Sign-In, then the strict audit append. */
    method ConfirmSigned(handler: Handler, w: World) returns (success: bool)
      modifies this`log
      ensures log == ConfirmLog(old(log), handler, w)
      ensures success == ConfirmExit(handler, w, failClosed).Signed?
    {
      if handler.SignSiwx? && !w.owned {
        return false;
      }
      log := Appended(log, Record.Signed(SignedEvent(handler)), w.confirmLanding);
      if failClosed && !w.confirmLanding.Synced? {
        return false;
      }
      success := true;
    }

    /** One signing handler from start to response. */
    method Handle(handler: Handler, w: World) returns (success: bool)
      modifies this
      ensures log == HandlerLog(old(log), handler, w, old(nextId), failClosed)
      ensures nextId == old(nextId) + if w.enclave && w.refusal.None? then 1 else 0
      ensures success == HandlerExit(handler, w, old(nextId), failClosed).Signed?
      ensures success <==> HandlerSucceeds(handler, w, old(nextId), failClosed)
    {
      HandlerSucceedsIff(handler, w, nextId, failClosed);
      if w.refusal.Some? {
        if w.refusal.value.Some? {
          log := Appended(log, Alert(w.refusal.value.value), w.alertLanding);
        }
        return false;
      }
      if w.enclave {
        var r := SignViaEnclave(w);
        if r.Err? {
          return false;
        }
        if !Suffices(handler, r.value) {
          return false;
        }
        if !handler.SignSiwx? {
          return true;
        }
      } else if !w.signsInProcess {
        return false;
      }
      success := ConfirmSigned(handler, w);
    }
  }
}
