/**
 The signing handlers (crates/oc-keyagent/src/handler.rs) and the audit file
 (crates/oc-keyagent/src/audit.rs) together: what every interleaving of requests leaves in the
 signed chain, and what a reader of that file can tell from request ids alone.
 */
module SigningAudit {
  import opened Results
  import AuditLog
  import Numerals
  import S = SigningHandlers

  /**
   What the process adds to a record: its pid, the clock when a request id was made, and for
   the n-th record its timestamp, session key and remaining JSON fields.
   */
  datatype Clerk = Clerk(
    pid: nat,
    nanos: nat -> nat,
    stamp: nat -> string,
    session: nat -> Option<string>,
    fields: nat -> string)

  /** The request id that the counter value stands for. */
  function RequestText(k: Clerk, id: nat): string {
    Numerals.RequestId(k.pid, k.nanos(id), id)
  }

  /** A payload with a request id starts with it; the other fields follow a space. */
  function NoteOf(k: Clerk, r: S.Record, n: nat): AuditLog.Note {
    match r
    case Pending(id) =>
      AuditLog.Note(AuditLog.EnclavePending, k.session(n), RequestText(k, id) + " " + k.fields(n), k.stamp(n))
    case Resolved(id, ok) =>
      AuditLog.Note(AuditLog.EnclaveResolved, k.session(n), RequestText(k, id) + (if ok then " true " else " false ") + k.fields(n), k.stamp(n))
    case Signed(event) => AuditLog.Note(event, k.session(n), k.fields(n), k.stamp(n))
    case Alert(event) => AuditLog.Note(event, k.session(n), k.fields(n), k.stamp(n))
  }

  /** The request id a payload starts with. */
  function IdIn(payload: string): (id: string)
    ensures |id| <= |payload|
  {
    if payload == [] || payload[0] == ' ' then [] else [payload[0]] + IdIn(payload[1..])
  }

  lemma {:induction false} IdInPrefix(id: string, rest: string)
    requires Numerals.Lacks(id, ' ') && rest != [] && rest[0] == ' '
    ensures IdIn(id + rest) == id
  {
    if id == [] {
      assert id + rest == rest;
    } else {
      assert (id + rest)[1..] == id[1..] + rest;
      IdInPrefix(id[1..], rest);
    }
  }

  lemma IdOfNote(k: Clerk, r: S.Record, n: nat)
    requires r.Pending? || r.Resolved?
    ensures IdIn(NoteOf(k, r, n).payload) == RequestText(k, r.id)
  {
    Numerals.PrintLacks(k.pid, 16);
    Numerals.PrintLacks(k.nanos(r.id), 16);
    Numerals.PrintLacks(r.id, 16);
    var rest := if r.Pending? then " " + k.fields(n) else (if r.ok then " true " else " false ") + k.fields(n);
    IdInPrefix(RequestText(k, r.id), rest);
    assert NoteOf(k, r, n).payload == RequestText(k, r.id) + rest;
  }

  function NotesFor(k: Clerk, log: seq<S.Record>): seq<AuditLog.Note> {
    if log == [] then [] else NotesFor(k, log[..|log| - 1]) + [NoteOf(k, log[|log| - 1], |log| - 1)]
  }

  lemma NotesForSnoc(k: Clerk, log: seq<S.Record>, r: S.Record)
    ensures NotesFor(k, log + [r]) == NotesFor(k, log) + [NoteOf(k, r, |log|)]
  {
    assert (log + [r])[..|log|] == log;
  }

  lemma {:induction false} NotesForAt(k: Clerk, log: seq<S.Record>)
    ensures |NotesFor(k, log)| == |log|
    ensures forall i :: 0 <= i < |log| ==> NotesFor(k, log)[i] == NoteOf(k, log[i], i)
  {
    if log != [] {
      NotesForAt(k, log[..|log| - 1]);
    }
  }

  // ---------------------------------------------------------------------------
  // The file of a run
  // ---------------------------------------------------------------------------

  /** How the append of an action lands, if it makes one. */
  function LandingOf(a: S.Action): AuditLog.Landing {
    match a
    case Refuse(_, landing) => landing
    case SendPending(landing) => landing
    case Resolve(landing) => landing
    case Confirm(_, landing) => landing
    case _ => AuditLog.NotWritten
  }

  /** The append a step makes, if its record reaches the file. */
  function Appends(k: Clerk, s: S.State, step: S.Step): seq<AuditLog.LogOp> {
    var log := S.Apply(s, step).log;
    if step.Act? && |log| > |s.log| then [AuditLog.Append(NoteOf(k, log[|log| - 1], |s.log|), LandingOf(step.action))] else []
  }

  function AllAppends(k: Clerk, s: S.State, steps: seq<S.Step>): seq<AuditLog.LogOp> {
    if steps == [] then []
    else AllAppends(k, s, steps[..|steps| - 1]) + Appends(k, S.Run(s, steps[..|steps| - 1]), steps[|steps| - 1])
  }

  lemma NotesSnoc(ops: seq<AuditLog.LogOp>, op: AuditLog.LogOp)
    requires AuditLog.Lands(op)
    ensures AuditLog.Notes(ops + [op]) == AuditLog.Notes(ops) + [op.note]
  {
    assert (ops + [op])[..|ops|] == ops;
  }

  /** A step adds one record or none. */
  lemma StepLogs(s: S.State, step: S.Step)
    ensures var log := S.Apply(s, step).log;
            if step.Act? && |log| > |s.log| then log == s.log + [log[|log| - 1]] && !LandingOf(step.action).NotWritten?
            else log == s.log
  {
  }

  lemma StepAppends(k: Clerk, s: S.State, step: S.Step, ops: seq<AuditLog.LogOp>)
    requires AuditLog.Notes(ops) == NotesFor(k, s.log)
    ensures AuditLog.Notes(ops + Appends(k, s, step)) == NotesFor(k, S.Apply(s, step).log)
  {
    StepLogs(s, step);
    var log := S.Apply(s, step).log;
    if step.Act? && |log| > |s.log| {
      NotesForSnoc(k, s.log, log[|log| - 1]);
      NotesSnoc(ops, Appends(k, s, step)[0]);
    } else {
      assert ops + [] == ops;
    }
  }

  /** The appends of a run are the records of its log, in order. */
  lemma {:induction false} AppendsAreTheLog(k: Clerk, nextId: nat, failClosed: bool, steps: seq<S.Step>)
    ensures var s0 := S.Fresh([], nextId, failClosed);
            AuditLog.Notes(AllAppends(k, s0, steps)) == NotesFor(k, S.Run(s0, steps).log)
  {
    if steps != [] {
      var s0, init, step := S.Fresh([], nextId, failClosed), steps[..|steps| - 1], steps[|steps| - 1];
      AppendsAreTheLog(k, nextId, failClosed, init);
      var s, ops := S.Run(s0, init), AllAppends(k, s0, init);
      StepAppends(k, s, step, ops);
    }
  }

  lemma {:induction false} AppendsLand(k: Clerk, s: S.State, steps: seq<S.Step>)
    ensures forall i :: 0 <= i < |AllAppends(k, s, steps)| ==> AuditLog.Lands(AllAppends(k, s, steps)[i])
  {
    if steps != [] {
      AppendsLand(k, s, steps[..|steps| - 1]);
      StepLogs(S.Run(s, steps[..|steps| - 1]), steps[|steps| - 1]);
    }
  }

  /** The audit file after the run. */
  function FileOf<K>(c: AuditLog.Crypto<K>, key: K, start: AuditLog.LogState, k: Clerk, nextId: nat, failClosed: bool, steps: seq<S.Step>): AuditLog.LogState {
    AuditLog.RunLog(c, key, start, AllAppends(k, S.Fresh([], nextId, failClosed), steps))
  }

  /** Some record of the run but its last landed unsynced. */
  ghost predicate UnsyncedInside(k: Clerk, nextId: nat, failClosed: bool, steps: seq<S.Step>) {
    AuditLog.UnsyncedBeforeLast(AllAppends(k, S.Fresh([], nextId, failClosed), steps))
  }

  /**
   Every interleaving of signing requests, appending to a log that verifies, leaves what the
   log held followed by exactly the records of the run that landed. If all of these but the
   last were synced, the log verifies and numbers on without a gap.
   */
  lemma EveryInterleavingVerifies<K(!new)>(c: AuditLog.Crypto<K>, key: K, start: AuditLog.LogState, notes: seq<AuditLog.Note>,
                                           k: Clerk, nextId: nat, failClosed: bool, steps: seq<S.Step>)
    requires AuditLog.Sound(c)
    requires start == AuditLog.OpenOn(c, start.handle.deviceId, start.lines)
    requires AuditLog.Holds(c, key, start.handle.deviceId, start.lines, notes)
    ensures var all := notes + NotesFor(k, S.Run(S.Fresh([], nextId, failClosed), steps).log);
            var lines := FileOf(c, key, start, k, nextId, failClosed, steps).lines;
            && AuditLog.CarriesAll(AuditLog.Entries(lines), all)
            && (!UnsyncedInside(k, nextId, failClosed, steps) ==> AuditLog.Holds(c, key, start.handle.deviceId, lines, all))
  {
    var ops := AllAppends(k, S.Fresh([], nextId, failClosed), steps);
    AppendsLand(k, S.Fresh([], nextId, failClosed), steps);
    AuditLog.BrokenIffUnsyncedBeforeLast(ops);
    AuditLog.RunVerifies(c, key, start, notes, ops);
    AuditLog.RunCarries(c, key, start, notes, ops);
    AppendsAreTheLog(k, nextId, failClosed, steps);
  }

  /** And otherwise it does not verify: exactly the runs with working syncs, the last aside, verify. */
  lemma InterleavingVerifiesIff<K(!new)>(c: AuditLog.Crypto<K>, key: K, start: AuditLog.LogState, notes: seq<AuditLog.Note>,
                                         k: Clerk, nextId: nat, failClosed: bool, steps: seq<S.Step>, pool: set<AuditLog.Body>)
    requires AuditLog.Sound(c)
    requires start == AuditLog.OpenOn(c, start.handle.deviceId, start.lines)
    requires AuditLog.Holds(c, key, start.handle.deviceId, start.lines, notes)
    requires AuditLog.IdealOn(c, pool)
    requires AuditLog.Within(AuditLog.Entries(FileOf(c, key, start, k, nextId, failClosed, steps).lines), pool)
    ensures AuditLog.Verify(c, key, FileOf(c, key, start, k, nextId, failClosed, steps).lines, "").Ok? <==>
            !UnsyncedInside(k, nextId, failClosed, steps)
  {
    var ops := AllAppends(k, S.Fresh([], nextId, failClosed), steps);
    AppendsLand(k, S.Fresh([], nextId, failClosed), steps);
    AuditLog.BrokenIffUnsyncedBeforeLast(ops);
    AuditLog.RunVerifiesIff(c, key, start, notes, ops, pool);
  }

  // ---------------------------------------------------------------------------
  // Success into a broken chain
  // ---------------------------------------------------------------------------

  /** The run has reached this state with these appends. */
  ghost predicate At(k: Clerk, s0: S.State, steps: seq<S.Step>, s: S.State, ops: seq<AuditLog.LogOp>) {
    S.Run(s0, steps) == s && AllAppends(k, s0, steps) == ops
  }

  lemma Moves(k: Clerk, s0: S.State, steps: seq<S.Step>, s: S.State, ops: seq<AuditLog.LogOp>, step: S.Step)
    requires At(k, s0, steps, s, ops)
    ensures At(k, s0, steps + [step], S.Apply(s, step), ops + Appends(k, s, step))
  {
    assert (steps + [step])[..|steps|] == steps;
  }

  /** A request for a message signature that is about to be recorded, or over. */
  function Signer(begun: nat, phase: S.Phase, mark: Option<nat>): S.Thread {
    S.Thread(S.SignMessage, phase, begun, None, None, mark)
  }

  function With(s: S.State, t: nat, th: S.Thread): S.State {
    s.(threads := s.threads[t := th])
  }

  /** A step that writes nothing appends nothing. */
  lemma MovesQuietly(k: Clerk, s0: S.State, steps: seq<S.Step>, s: S.State, ops: seq<AuditLog.LogOp>, step: S.Step, s': S.State)
    requires At(k, s0, steps, s, ops) && S.Apply(s, step) == s' && s'.log == s.log
    ensures At(k, s0, steps + [step], s', ops)
  {
    Moves(k, s0, steps, s, ops, step);
    assert ops + [] == ops;
  }

  lemma SignerSteps(s: S.State, t: nat, n: nat)
    ensures S.Apply(With(s, t, Signer(n, S.Checking, None)), S.Act(t, S.Clear)) == With(s, t, Signer(n, S.Cleared, None))
    ensures S.Apply(With(s, t, Signer(n, S.Cleared, None)), S.Act(t, S.SignInProcess(true))) == With(s, t, Signer(n, S.HasSignature, None))
  {
  }

  /** It signs in process; nothing is recorded yet. */
  lemma SignsInProcess(k: Clerk, s0: S.State, steps: seq<S.Step>, s: S.State, ops: seq<AuditLog.LogOp>, t: nat) returns (more: seq<S.Step>)
    requires At(k, s0, steps, s, ops) && t !in s.threads
    ensures At(k, s0, more, With(s, t, Signer(|s.log|, S.HasSignature, None)), ops)
  {
    var begin, clear, sign := S.Begin(t, S.SignMessage), S.Act(t, S.Clear), S.Act(t, S.SignInProcess(true));
    var n := |s.log|;
    SignerSteps(s, t, n);
    MovesQuietly(k, s0, steps, s, ops, begin, With(s, t, Signer(n, S.Checking, None)));
    more := steps + [begin];
    MovesQuietly(k, s0, more, With(s, t, Signer(n, S.Checking, None)), ops, clear, With(s, t, Signer(n, S.Cleared, None)));
    more := more + [clear];
    MovesQuietly(k, s0, more, With(s, t, Signer(n, S.Cleared, None)), ops, sign, With(s, t, Signer(n, S.HasSignature, None)));
    more := more + [sign];
  }

  /** Its record lands; with `audit_fail_closed` the response depends on the sync. */
  lemma Confirms(k: Clerk, s0: S.State, steps: seq<S.Step>, s: S.State, ops: seq<AuditLog.LogOp>, t: nat, begun: nat, landing: AuditLog.Landing)
    returns (s': S.State)
    requires At(k, s0, steps, s, ops) && t in s.threads && s.threads[t] == Signer(begun, S.HasSignature, None)
    requires s.failClosed && !landing.NotWritten?
    ensures At(k, s0, steps + [S.Act(t, S.Confirm(true, landing))], s',
               ops + [AuditLog.Append(NoteOf(k, S.Record.Signed(AuditLog.TransactionSigned), |s.log|), landing)])
    ensures s'.failClosed && s'.threads.Keys == s.threads.Keys
    ensures s'.threads[t].phase == S.Done(if landing.Synced? then S.Exit.Signed else S.Unaudited)
  {
    var step := S.Act(t, S.Confirm(true, landing));
    s' := S.Apply(s, step);
    assert s'.log == s.log + [S.Record.Signed(AuditLog.TransactionSigned)];
    Moves(k, s0, steps, s, ops, step);
  }

  /**
   Fail-closed does not stop an agent whose chain is lost. One request is refused because its
   record could not be synced; the next is answered with success, and its record goes into a
   log that does not verify.
   */
  lemma SuccessIntoABrokenChain<K(!new)>(c: AuditLog.Crypto<K>, key: K, deviceId: string, k: Clerk) returns (steps: seq<S.Step>)
    requires AuditLog.Sound(c)
    ensures var s := S.Run(S.Fresh([], 0, true), steps); 1 in s.threads && S.Succeeded(s.threads[1])
    ensures AuditLog.Verify(c, key, FileOf(c, key, AuditLog.OpenOn(c, deviceId, []), k, 0, true, steps).lines, "").Err?
  {
    var m, n;
    steps, m, n := SecondSucceeds(k);
    AuditLog.FailedSyncBreaksChain(c, key, deviceId, m, n);
  }

  lemma SecondSucceeds(k: Clerk) returns (steps: seq<S.Step>, m: AuditLog.Note, n: AuditLog.Note)
    ensures var s := S.Run(S.Fresh([], 0, true), steps); 1 in s.threads && S.Succeeded(s.threads[1])
    ensures AllAppends(k, S.Fresh([], 0, true), steps) == [AuditLog.Append(m, AuditLog.Unsynced), AuditLog.Append(n, AuditLog.Synced)]
  {
    var s0, r := S.Fresh([], 0, true), S.Record.Signed(AuditLog.TransactionSigned);
    steps := SignsInProcess(k, s0, [], s0, [], 0);
    var s := With(s0, 0, Signer(0, S.HasSignature, None));
    var s' := Confirms(k, s0, steps, s, [], 0, 0, AuditLog.Unsynced);
    m := NoteOf(k, r, 0);
    steps := steps + [S.Act(0, S.Confirm(true, AuditLog.Unsynced))];
    var ops := [] + [AuditLog.Append(m, AuditLog.Unsynced)];
    steps := SignsInProcess(k, s0, steps, s', ops, 1);
    s := With(s', 1, Signer(|s'.log|, S.HasSignature, None));
    n := NoteOf(k, r, |s.log|);
    s' := Confirms(k, s0, steps, s, ops, 1, |s.log|, AuditLog.Synced);
    steps := steps + [S.Act(1, S.Confirm(true, AuditLog.Synced))];
  }

  // ---------------------------------------------------------------------------
  // Reading the file
  // ---------------------------------------------------------------------------

  /** How many resolved entries name this request. */
  function Answers(notes: seq<AuditLog.Note>, id: string): nat {
    if notes == [] then 0
    else
      var n := notes[|notes| - 1];
      Answers(notes[..|notes| - 1], id) + if n.event.EnclaveResolved? && IdIn(n.payload) == id then 1 else 0
  }

  lemma {:induction false} AnswersConcat(a: seq<AuditLog.Note>, b: seq<AuditLog.Note>, id: string)
    ensures Answers(a + b, id) == Answers(a, id) + Answers(b, id)
  {
    if b == [] {
      assert a + b == a;
    } else {
      assert (a + b)[..|a + b| - 1] == a + b[..|b| - 1];
      AnswersConcat(a, b[..|b| - 1], id);
    }
  }

  /** The flag a resolved payload carries behind its request id. */
  predicate SaysOk(payload: string) {
    " true " <= payload[|IdIn(payload)|..]
  }

  /** Refusals and confirmations are not recorded as enclave events. */
  predicate Plain(r: S.Record) {
    (r.Signed? || r.Alert?) ==> !r.event.EnclavePending? && !r.event.EnclaveResolved?
  }

  predicate PlainAlert(step: S.Step) {
    step.Act? && step.action.Refuse? && step.action.alert.Some? ==> Plain(S.Alert(step.action.alert.value))
  }

  lemma {:induction false} LogIsPlain(s0: S.State, steps: seq<S.Step>)
    requires forall i :: 0 <= i < |steps| ==> PlainAlert(steps[i])
    requires forall i :: 0 <= i < |s0.log| ==> Plain(s0.log[i])
    ensures forall i :: 0 <= i < |S.Run(s0, steps).log| ==> Plain(S.Run(s0, steps).log[i])
  {
    if steps != [] {
      LogIsPlain(s0, steps[..|steps| - 1]);
    }
  }

  /** Different requests have different texts. */
  lemma TextIdentifies(k: Clerk, id: nat, other: nat)
    ensures RequestText(k, id) == RequestText(k, other) <==> id == other
  {
    if RequestText(k, id) == RequestText(k, other) {
      Numerals.RequestIdInjective(k.pid, k.nanos(id), id, k.pid, k.nanos(other), other);
    }
  }

  lemma {:induction false} AnswersCount(k: Clerk, log: seq<S.Record>, id: nat)
    requires forall i :: 0 <= i < |log| ==> Plain(log[i])
    ensures Answers(NotesFor(k, log), RequestText(k, id)) == S.Count(log, id, true)
  {
    if log != [] {
      var init, r := log[..|log| - 1], log[|log| - 1];
      AnswersCount(k, init, id);
      var notes, n := NotesFor(k, init), NoteOf(k, r, |init|);
      assert (notes + [n])[..|notes|] == notes;
      if r.Resolved? {
        IdOfNote(k, r, |init|);
        TextIdentifies(k, r.id, id);
      }
    }
  }

  // ---------------------------------------------------------------------------
  // Entries of earlier lives
  // ---------------------------------------------------------------------------

  /**
   A request id of another life of the agent: another process, a counter below the start of
   this one, or the same pid at an earlier reading of the clock.
   */
  ghost predicate OfAnotherLife(k: Clerk, nextId: nat, id: string) {
    exists p: nat, n: nat, c: nat ::
      id == Numerals.RequestId(p, n, c) && (p == k.pid && c >= nextId ==> n < k.nanos(c))
  }

  /** The enclave entries that the file held before. */
  ghost predicate FromEarlier(k: Clerk, nextId: nat, earlier: seq<AuditLog.Note>) {
    forall i :: 0 <= i < |earlier| && (earlier[i].event.EnclavePending? || earlier[i].event.EnclaveResolved?) ==>
      OfAnotherLife(k, nextId, IdIn(earlier[i].payload))
  }

  lemma NotMine(k: Clerk, nextId: nat, id: string, mine: nat)
    requires OfAnotherLife(k, nextId, id) && nextId <= mine
    ensures id != RequestText(k, mine)
  {
    var p: nat, n: nat, c: nat :|
      id == Numerals.RequestId(p, n, c) && (p == k.pid && c >= nextId ==> n < k.nanos(c));
    if id == RequestText(k, mine) {
      Numerals.RequestIdInjective(p, n, c, k.pid, k.nanos(mine), mine);
    }
  }

  lemma {:induction false} EarlierAnswersNothing(k: Clerk, nextId: nat, earlier: seq<AuditLog.Note>, mine: nat)
    requires FromEarlier(k, nextId, earlier) && nextId <= mine
    ensures Answers(earlier, RequestText(k, mine)) == 0
  {
    if earlier != [] {
      var n := earlier[|earlier| - 1];
      EarlierAnswersNothing(k, nextId, earlier[..|earlier| - 1], mine);
      if n.event.EnclaveResolved? {
        NotMine(k, nextId, IdIn(n.payload), mine);
      }
    }
  }

  // ---------------------------------------------------------------------------
  // Pairing by request id
  // ---------------------------------------------------------------------------

  /**
   What the entries say about the pending one at p and its request th: no other pending entry
   has its request id; one resolved entry has it if the call has an outcome, and none else;
   that one comes later, and its flag is true exactly if the child answered this request in
   version 1 with success.
   */
  ghost predicate PairedByText(notes: seq<AuditLog.Note>, p: nat, th: S.Thread)
    requires p < |notes|
  {
    var id := IdIn(notes[p].payload);
    && Answers(notes, id) == (if S.Settled(th.phase) then 1 else 0)
    && (forall q :: 0 <= q < |notes| && notes[q].event.EnclavePending? && IdIn(notes[q].payload) == id ==> q == p)
    && (forall q :: 0 <= q < |notes| && notes[q].event.EnclaveResolved? && IdIn(notes[q].payload) == id ==>
          && p < q && th.id.Some? && th.child.Some?
          && var ch := th.child.value;
             SaysOk(notes[q].payload) <==> ch.Output? && ch.version == 1 && ch.id == th.id.value && ch.ok)
  }

  /** A record of the run is the pending or resolved one of this request exactly if its note says so. */
  lemma NoteNames(k: Clerk, r: S.Record, n: nat, id: nat)
    requires Plain(r)
    ensures var note := NoteOf(k, r, n);
            && (note.event.EnclavePending? && IdIn(note.payload) == RequestText(k, id) <==> r == S.Pending(id))
            && (note.event.EnclaveResolved? && IdIn(note.payload) == RequestText(k, id) <==> r.Resolved? && r.id == id)
            && (r.Resolved? ==> (SaysOk(note.payload) <==> r.ok))
  {
    if r.Pending? || r.Resolved? {
      IdOfNote(k, r, n);
      TextIdentifies(k, r.id, id);
    }
    if r.Resolved? {
      var payload, text := NoteOf(k, r, n).payload, RequestText(k, r.id);
      var flag := if r.ok then " true " else " false ";
      assert payload[|text|..] == flag + k.fields(n);
      assert payload[|text|..][1] == flag[1];
    }
  }

  /** A record of the whole file, by position. */
  lemma NoteAt(k: Clerk, earlier: seq<AuditLog.Note>, log: seq<S.Record>, q: nat)
    requires q < |earlier| + |log|
    ensures |earlier + NotesFor(k, log)| == |earlier| + |log|
    ensures (earlier + NotesFor(k, log))[q] == if q < |earlier| then earlier[q] else NoteOf(k, log[q - |earlier|], q - |earlier|)
  {
    NotesForAt(k, log);
  }

  /** The record behind a note with the request's id. */
  ghost predicate Names(log: seq<S.Record>, i: int, id: nat, n: AuditLog.Note) {
    && 0 <= i < |log|
    && (n.event.EnclavePending? ==> log[i] == S.Pending(id))
    && (n.event.EnclaveResolved? ==> log[i].Resolved? && log[i].id == id && (SaysOk(n.payload) <==> log[i].ok))
  }

  predicate Mentions(n: AuditLog.Note, text: string) {
    (n.event.EnclavePending? || n.event.EnclaveResolved?) && IdIn(n.payload) == text
  }

  /** All entries that mention the text are records of the run, from position `base` on, with this id. */
  ghost predicate ReadsAs(notes: seq<AuditLog.Note>, base: nat, log: seq<S.Record>, text: string, id: nat) {
    forall q: nat :: q < |notes| && Mentions(notes[q], text) ==> base <= q && Names(log, q - base, id, notes[q])
  }

  lemma OwnNoteNames(k: Clerk, log: seq<S.Record>, i: nat, id: nat)
    requires i < |log| && Plain(log[i]) && Mentions(NoteOf(k, log[i], i), RequestText(k, id))
    ensures Names(log, i, id, NoteOf(k, log[i], i))
  {
    NoteNames(k, log[i], i, id);
  }

  lemma NamedInRun(k: Clerk, nextId: nat, earlier: seq<AuditLog.Note>, log: seq<S.Record>, q: nat, id: nat, n: AuditLog.Note)
    requires FromEarlier(k, nextId, earlier) && nextId <= id
    requires q < |earlier| + |log| && n == if q < |earlier| then earlier[q] else NoteOf(k, log[q - |earlier|], q - |earlier|)
    requires q >= |earlier| ==> Plain(log[q - |earlier|])
    requires Mentions(n, RequestText(k, id))
    ensures |earlier| <= q && Names(log, q - |earlier|, id, n)
  {
    if q < |earlier| {
      NotMine(k, nextId, IdIn(earlier[q].payload), id);
    } else {
      OwnNoteNames(k, log, q - |earlier|, id);
    }
  }

  lemma FileReadsAs(k: Clerk, nextId: nat, earlier: seq<AuditLog.Note>, log: seq<S.Record>, id: nat)
    requires FromEarlier(k, nextId, earlier) && nextId <= id
    requires forall i :: 0 <= i < |log| ==> Plain(log[i])
    ensures ReadsAs(earlier + NotesFor(k, log), |earlier|, log, RequestText(k, id), id)
  {
    var notes, text := earlier + NotesFor(k, log), RequestText(k, id);
    assert |notes| == |earlier| + |log| by { NotesForAt(k, log); }
    forall q: nat | q < |notes| && Mentions(notes[q], text) ensures |earlier| <= q && Names(log, q - |earlier|, id, notes[q]) {
      NoteAt(k, earlier, log, q);
      NamedInRun(k, nextId, earlier, log, q, id, notes[q]);
    }
  }

  lemma PairedAsRead(notes: seq<AuditLog.Note>, base: nat, log: seq<S.Record>, p: nat, th: S.Thread, text: string, id: nat)
    requires |notes| == base + |log| && ReadsAs(notes, base, log, text, id)
    requires p < |log| && log[p] == S.Pending(id) && S.Paired(log, p, th)
    requires IdIn(notes[base + p].payload) == text
    requires Answers(notes, text) == S.Count(log, id, true)
    ensures PairedByText(notes, base + p, th)
  {
    forall q: nat | q < |notes| && notes[q].event.EnclavePending? && IdIn(notes[q].payload) == text ensures q == base + p {
      assert Mentions(notes[q], text);
      S.OnlyOnePending(log, id, p, q - base);
    }
    forall q: nat | q < |notes| && notes[q].event.EnclaveResolved? && IdIn(notes[q].payload) == text
      ensures base + p < q && th.child.Some?
      ensures var ch := th.child.value; SaysOk(notes[q].payload) <==> ch.Output? && ch.version == 1 && ch.id == id && ch.ok
    {
      assert Mentions(notes[q], text);
      assert S.Owns(th, log[q - base]);
    }
  }

  lemma IdAt(k: Clerk, earlier: seq<AuditLog.Note>, log: seq<S.Record>, p: nat)
    requires p < |log| && log[p].Pending?
    ensures |earlier + NotesFor(k, log)| == |earlier| + |log|
    ensures IdIn((earlier + NotesFor(k, log))[|earlier| + p].payload) == RequestText(k, log[p].id)
  {
    NoteAt(k, earlier, log, |earlier| + p);
    IdOfNote(k, log[p], p);
  }

  lemma AnswersInFile(k: Clerk, nextId: nat, earlier: seq<AuditLog.Note>, log: seq<S.Record>, id: nat)
    requires FromEarlier(k, nextId, earlier) && nextId <= id
    requires forall i :: 0 <= i < |log| ==> Plain(log[i])
    ensures Answers(earlier + NotesFor(k, log), RequestText(k, id)) == S.Count(log, id, true)
  {
    AnswersConcat(earlier, NotesFor(k, log), RequestText(k, id));
    EarlierAnswersNothing(k, nextId, earlier, id);
    AnswersCount(k, log, id);
  }

  lemma PairedInFile(k: Clerk, nextId: nat, earlier: seq<AuditLog.Note>, log: seq<S.Record>, p: nat, th: S.Thread)
    requires FromEarlier(k, nextId, earlier)
    requires forall i :: 0 <= i < |log| ==> Plain(log[i])
    requires p < |log| && log[p].Pending? && nextId <= log[p].id && S.Paired(log, p, th)
    ensures |earlier + NotesFor(k, log)| == |earlier| + |log|
    ensures PairedByText(earlier + NotesFor(k, log), |earlier| + p, th)
  {
    var notes, id := earlier + NotesFor(k, log), log[p].id;
    var text := RequestText(k, id);
    IdAt(k, earlier, log, p);
    AnswersInFile(k, nextId, earlier, log, id);
    FileReadsAs(k, nextId, earlier, log, id);
    PairedAsRead(notes, |earlier|, log, p, th, text, id);
  }

  lemma OwnIsOfAnotherLife(k: Clerk, next: Clerk, r: S.Record, n: nat)
    requires next.pid == k.pid ==> forall id: nat, c: nat :: k.nanos(id) < next.nanos(c)
    requires r.Pending? || r.Resolved?
    ensures OfAnotherLife(next, 0, IdIn(NoteOf(k, r, n).payload))
  {
    IdOfNote(k, r, n);
    assert RequestText(k, r.id) == Numerals.RequestId(k.pid, k.nanos(r.id), r.id);
  }

  lemma FromEarlierSnoc(k: Clerk, nextId: nat, earlier: seq<AuditLog.Note>, n: AuditLog.Note)
    requires FromEarlier(k, nextId, earlier)
    requires n.event.EnclavePending? || n.event.EnclaveResolved? ==> OfAnotherLife(k, nextId, IdIn(n.payload))
    ensures FromEarlier(k, nextId, earlier + [n])
  {
  }

  /** The records of one life are of another life for the next, under a forward clock or another pid. */
  lemma {:induction false} NextLife(k: Clerk, next: Clerk, earlier: seq<AuditLog.Note>, log: seq<S.Record>)
    requires FromEarlier(next, 0, earlier)
    requires next.pid == k.pid ==> forall id: nat, c: nat :: k.nanos(id) < next.nanos(c)
    requires forall i :: 0 <= i < |log| ==> Plain(log[i])
    ensures FromEarlier(next, 0, earlier + NotesFor(k, log))
  {
    if log == [] {
      assert earlier + [] == earlier;
    } else {
      var init, r := log[..|log| - 1], log[|log| - 1];
      NextLife(k, next, earlier, init);
      if r.Pending? || r.Resolved? {
        OwnIsOfAnotherLife(k, next, r, |init|);
      }
      FromEarlierSnoc(next, 0, earlier + NotesFor(k, init), NoteOf(k, r, |init|));
      assert earlier + NotesFor(k, log) == earlier + NotesFor(k, init) + [NoteOf(k, r, |init|)];
    }
  }

  /**
   What the audit file says about an enclave call, read by request ids alone. Let the agent be
   restarted any number of times: the file holds entries of earlier lives, and this life counts
   from nextId again. If its appends land, each entry `EnclavePending` of this life is the only
   one in the whole file with its request id; exactly one `EnclaveResolved` entry in the whole
   file has that id once the call has an outcome, it comes later, and its flag tells whether the
   child reported success for it; none has it while the call is in flight or when it ended at a
   failed executable lookup or undecodable fields.
   */
  lemma RequestIdsPairUp(earlier: seq<AuditLog.Note>, k: Clerk, nextId: nat, failClosed: bool, steps: seq<S.Step>, p: nat) returns (t: nat)
    requires FromEarlier(k, nextId, earlier)
    requires forall i :: 0 <= i < |steps| ==> S.Writable(steps[i]) && PlainAlert(steps[i])
    requires var notes := earlier + NotesFor(k, S.Run(S.Fresh([], nextId, failClosed), steps).log);
             |earlier| <= p < |notes| && notes[p].event.EnclavePending?
    ensures var s := S.Run(S.Fresh([], nextId, failClosed), steps);
            t in s.threads && PairedByText(earlier + NotesFor(k, s.log), p, s.threads[t])
  {
    var s := S.Run(S.Fresh([], nextId, failClosed), steps);
    LogIsPlain(S.Fresh([], nextId, failClosed), steps);
    NotesForAt(k, s.log);
    var i := p - |earlier|;
    NoteAt(k, earlier, s.log, p);
    assert Plain(s.log[i]);
    t := S.PendingIsResolvedHere(nextId, failClosed, steps, i);
    S.IdsFromStart(nextId, failClosed, steps);
    PairedInFile(k, nextId, earlier, s.log, i, s.threads[t]);
  }
}
