/**
 `handle_sign_siwx` of crates/oc-keyagent/src/handler.rs: CAIP-122 Sign-In messages, signed once
 until the expiry stored with their hash, and again after it as long as they are admitted. The
 message parser, passkey check, signer and audit append are outcomes given with each request;
 the time window is that of crates/oc-siwx/src/validate.rs.
 */
module SignIn {
  import opened Results
  import AuditLog
  import NonceStore

  const DEFAULT_TTL_SECS: nat := 86_400

  const E_AUTH := "E_AUTH"
  const E_PARAM := "E_PARAM"
  const E_AUDIT := "E_AUDIT"
  const E_INTERNAL := "E_INTERNAL"

  const SECOND: nat := 1_000_000_000
  const CLOCK_SKEW_SECS: nat := 60

  /** What the parser finds in a message; times in nanoseconds. `wellShaped` says that its fields pass validation. */
  datatype Message = Message(
    chainId: string,
    chainName: Option<string>,
    address: string,
    expiration: Option<int>,
    notBefore: Option<int>,
    wellShaped: bool)

  datatype SignRequest = SignRequest(walletId: string, chainId: string, message: string, hasAuth: bool, agentToken: string)

  /** The passkey check: it passes, or refuses and may record an event. */
  datatype Passkey = Passed | Failed(why: Refusal, event: Option<AuditLog.EventType>)

  /** The token shared with the daemon. */
  datatype Token = Poisoned | Unset | Configured(text: string)

  /**
   Everything one request meets: other components' answers and four readings of the clock, at
   validation in nanoseconds and then in seconds.
   */
  datatype World = World(
    passkey: Passkey,
    token: Token,
    isUtf8: bool,
    parsed: Option<Message>,
    instant: int,
    clock: nat,
    now: nat,
    later: nat,
    saved: bool,
    signing: Result<string, string>,
    audited: bool)

  /** The agent's hash function, lower-casing and fail-closed switch. */
  datatype Agent = Agent(sha256: string -> string, lower: string -> string, auditFailClosed: bool)

  datatype Refusal = Coded(code: string) | PasskeyForged

  datatype Response = Success(address: string) | Refused(why: Refusal)

  /** The parts of a CAIP-2 id before and after its first colon. */
  function SplitOnce(s: string): (r: Option<(string, string)>)
    ensures r.Some? ==> s == r.value.0 + ":" + r.value.1 && ':' !in r.value.0
    ensures r.None? <==> ':' !in s
  {
    if s == [] then None
    else if s[0] == ':' then Some(("", s[1..]))
    else
      match SplitOnce(s[1..])
      case None => None
      case Some((ns, ref)) => Some(([s[0]] + ns, ref))
  }

  function ExpectedChainName(namespace: string): Option<string> {
    if namespace == "eip155" then Some("Ethereum")
    else if namespace == "solana" then Some("Solana")
    else None
  }

  // ---------------------------------------------------------------------------
  // The handler as a function
  // ---------------------------------------------------------------------------

  /** Exactly one of passkey and internal token; `None` lets the request pass. */
  function Authorization(req: SignRequest, w: World): Option<Refusal> {
    if req.hasAuth then
      if req.agentToken != "" then Some(Coded(E_PARAM))
      else if w.passkey.Failed? then Some(w.passkey.why)
      else None
    else if w.token.Poisoned? then Some(Coded(E_INTERNAL))
    else if w.token.Unset? then Some(Coded(E_AUTH))
    else if req.agentToken == "" || req.agentToken != w.token.text then Some(PasskeyForged)
    else None
  }

  /** Neither expired nor too early, with a leeway either way. */
  predicate Timely(m: Message, instant: int) {
    && (m.expiration.Some? ==> instant - m.expiration.value <= CLOCK_SKEW_SECS * SECOND)
    && (m.notBefore.Some? ==> m.notBefore.value - instant <= CLOCK_SKEW_SECS * SECOND)
  }

  /** UTF-8, syntax, chain binding and time window. */
  function ContentDefect(req: SignRequest, w: World): Option<Refusal> {
    if !w.isUtf8 || w.parsed.None? then Some(Coded(E_PARAM))
    else
      match SplitOnce(req.chainId)
      case None => Some(Coded(E_PARAM))
      case Some((namespace, reference)) =>
        var m := w.parsed.value;
        if ExpectedChainName(namespace).None? || reference != m.chainId || m.chainName != ExpectedChainName(namespace)
        then Some(Coded(E_PARAM))
        else if !m.wellShaped then Some(Coded(E_PARAM))
        else if !Timely(m, w.instant) then Some(Coded(E_AUTH))
        else None
  }

  /** Why a request stops before it reaches the nonce store, if it does. */
  function Stopped(req: SignRequest, w: World): Option<Refusal> {
    if req.walletId == "" || req.chainId == "" || req.message == "" then Some(Coded(E_PARAM))
    else if Authorization(req, w).Some? then Authorization(req, w)
    else ContentDefect(req, w)
  }

  /** Exactly one proof of authority, and it holds. */
  predicate Authorized(req: SignRequest, w: World) {
    (req.hasAuth && req.agentToken == "" && w.passkey.Passed?) ||
    (!req.hasAuth && req.agentToken != "" && w.token == Configured(req.agentToken))
  }

  /** The request's chain id is the namespace of the message's chain, a colon and its chain id. */
  ghost predicate ChainBound(req: SignRequest, m: Message) {
    || (req.chainId == "eip155:" + m.chainId && m.chainName == Some("Ethereum"))
    || (req.chainId == "solana:" + m.chainId && m.chainName == Some("Solana"))
  }

  lemma {:induction false} SplitOnceIsUnique(ns: string, ref: string)
    requires ':' !in ns
    ensures SplitOnce(ns + ":" + ref) == Some((ns, ref))
  {
    var s := ns + ":" + ref;
    if ns == [] {
      assert s[1..] == ref;
    } else {
      assert s[1..] == ns[1..] + ":" + ref;
      SplitOnceIsUnique(ns[1..], ref);
      assert ns == [ns[0]] + ns[1..];
    }
  }

  lemma SplitsInto(chainId: string, ns: string, ref: string)
    requires ':' !in ns
    ensures chainId == ns + ":" + ref <==> SplitOnce(chainId) == Some((ns, ref))
  {
    if chainId == ns + ":" + ref {
      SplitOnceIsUnique(ns, ref);
    }
  }

  lemma ChainBoundIff(req: SignRequest, m: Message)
    ensures ChainBound(req, m) <==>
            && SplitOnce(req.chainId).Some?
            && var (namespace, reference) := SplitOnce(req.chainId).value;
               reference == m.chainId && ExpectedChainName(namespace).Some? && m.chainName == ExpectedChainName(namespace)
  {
    assert "eip155:" == "eip155" + ":" && "solana:" == "solana" + ":";
    SplitsInto(req.chainId, "eip155", m.chainId);
    SplitsInto(req.chainId, "solana", m.chainId);
  }

  /** A request reaches the nonce store exactly when it is complete, authorized, well formed, bound to its chain and timely. */
  lemma AdmittedIff(req: SignRequest, w: World)
    ensures Stopped(req, w).None? <==>
            && req.walletId != "" && req.chainId != "" && req.message != ""
            && Authorized(req, w)
            && w.isUtf8 && w.parsed.Some?
            && ChainBound(req, w.parsed.value)
            && w.parsed.value.wellShaped && InWindow(w.parsed.value, w.instant)
  {
    if w.parsed.Some? {
      ChainBoundIff(req, w.parsed.value);
    }
  }

  /** The request carries all it needs. */
  predicate Complete(req: SignRequest) {
    req.walletId != "" && req.chainId != "" && req.message != ""
  }

  /** UTF-8 text that parses, for this chain, with fields in shape. */
  ghost predicate WellFormed(req: SignRequest, w: World) {
    w.isUtf8 && w.parsed.Some? && ChainBound(req, w.parsed.value) && w.parsed.value.wellShaped
  }

  /** Which refusal a request gets that does not reach the nonce store, in the order of the checks. */
  lemma RefusalCases(req: SignRequest, w: World)
    ensures !Complete(req) || (req.hasAuth && req.agentToken != "") ==> Stopped(req, w) == Some(Coded("E_PARAM"))
    ensures Complete(req) && req.hasAuth && req.agentToken == "" && w.passkey.Failed? ==> Stopped(req, w) == Some(w.passkey.why)
    ensures Complete(req) && !req.hasAuth && w.token.Poisoned? ==> Stopped(req, w) == Some(Coded("E_INTERNAL"))
    ensures Complete(req) && !req.hasAuth && w.token.Unset? ==> Stopped(req, w) == Some(Coded("E_AUTH"))
    ensures Complete(req) && !req.hasAuth && w.token.Configured? && (req.agentToken == "" || req.agentToken != w.token.text) ==>
              Stopped(req, w) == Some(PasskeyForged)
    ensures Complete(req) && Authorized(req, w) && !WellFormed(req, w) ==> Stopped(req, w) == Some(Coded("E_PARAM"))
    ensures Complete(req) && Authorized(req, w) && WellFormed(req, w) && !InWindow(w.parsed.value, w.instant) ==>
              Stopped(req, w) == Some(Coded("E_AUTH"))
  {
    if w.parsed.Some? {
      ChainBoundIff(req, w.parsed.value);
    }
  }

  /** At most a minute past its expiry, and at most a minute before its time. */
  predicate InWindow(m: Message, instant: int) {
    && (m.expiration.Some? ==> instant <= m.expiration.value + 60_000_000_000)
    && (m.notBefore.Some? ==> m.notBefore.value <= instant + 60_000_000_000)
  }

  function Expires(w: World): nat {
    if w.parsed.Some? && w.parsed.value.expiration.Some? then
      var t := w.parsed.value.expiration.value;
      if t < 0 then 0 else t / SECOND
    else w.clock + DEFAULT_TTL_SECS
  }

  /** The request to the nonce store; one that is stopped earlier saves nothing. */
  function Consumption(a: Agent, req: SignRequest, w: World, victim: string): NonceStore.Request {
    NonceStore.Request(a.sha256(req.message), Expires(w), w.now, w.later, w.saved && Stopped(req, w).None?, victim)
  }

  /** The response, given how consuming the message hash went. */
  function Answer(a: Agent, req: SignRequest, w: World, consumed: Result<(), NonceStore.NonceError>): Response {
    if Stopped(req, w).Some? then Refused(Stopped(req, w).value)
    else if consumed.Err? then Refused(Coded(if consumed.error.Replay? then E_AUTH else E_INTERNAL))
    else if w.signing.Err? then Refused(Coded(w.signing.error))
    else if w.parsed.None? || a.lower(w.signing.value) != a.lower(w.parsed.value.address) then Refused(Coded(E_AUTH))
    else if a.auditFailClosed && !w.audited then Refused(Coded(E_AUDIT))
    else Success(w.signing.value)
  }

  /** The response to a request that reaches the nonce store, in the order of the checks. */
  lemma AnswerCases(a: Agent, req: SignRequest, w: World, consumed: Result<(), NonceStore.NonceError>)
    requires Stopped(req, w).None?
    ensures w.parsed.Some?
    ensures var r := Answer(a, req, w, consumed); var owned := w.signing.Ok? && a.lower(w.signing.value) == a.lower(w.parsed.value.address);
            && (consumed == Err(NonceStore.Replay) ==> r == Refused(Coded("E_AUTH")))
            && (consumed.Err? && !consumed.error.Replay? ==> r == Refused(Coded("E_INTERNAL")))
            && (consumed.Ok? && w.signing.Err? ==> r == Refused(Coded(w.signing.error)))
            && (consumed.Ok? && w.signing.Ok? && !owned ==> r == Refused(Coded("E_AUTH")))
            && (consumed.Ok? && owned && a.auditFailClosed && !w.audited ==> r == Refused(Coded("E_AUDIT")))
            && (consumed.Ok? && owned && (a.auditFailClosed ==> w.audited) ==> r == Success(w.signing.value))
  {
    AdmittedIff(req, w);
  }

  /** The handler is shown a token that is not the configured one. */
  predicate WrongToken(req: SignRequest, w: World) {
    && req.walletId != "" && req.chainId != "" && req.message != ""
    && !req.hasAuth && w.token.Configured? && req.agentToken != "" && req.agentToken != w.token.text
  }

  /** The passkey is asked and refuses. */
  predicate PasskeyRefused(req: SignRequest, w: World) {
    && req.walletId != "" && req.chainId != "" && req.message != ""
    && req.hasAuth && req.agentToken == "" && w.passkey.Failed?
  }

  /** The event with which the passkey check records its refusal, if it does. */
  function PasskeyEvent(req: SignRequest, w: World): seq<AuditLog.EventType> {
    if PasskeyRefused(req, w) && w.passkey.event.Some? then [w.passkey.event.value] else []
  }

  /** What the handler and its passkey check send to the audit log; the signer's records come on top. */
  function Trail(a: Agent, req: SignRequest, w: World, consumed: Result<(), NonceStore.NonceError>): seq<AuditLog.EventType> {
    if WrongToken(req, w) then [AuditLog.AuthFailed]
    else if Stopped(req, w).Some? then PasskeyEvent(req, w)
    else if consumed.Err? then if consumed.error.Replay? then [AuditLog.AuthFailed] else []
    else if w.signing.Ok? && w.parsed.Some? && a.lower(w.signing.value) == a.lower(w.parsed.value.address) then [AuditLog.SiwxSigned]
    else []
  }

  /**
   What these events tell: of an admitted request a signature is recorded exactly when the
   response is a success or would be one but for the failed strict append; a failed authorization exactly for a wrong
   token, a replay, or a passkey check that records one; and then the request is refused.
   */
  lemma TrailTells(a: Agent, req: SignRequest, w: World, consumed: Result<(), NonceStore.NonceError>)
    ensures var t, r := Trail(a, req, w, consumed), Answer(a, req, w, consumed);
            && |t| <= 1
            && (r.Success? <==> Stopped(req, w).None? && t == [AuditLog.SiwxSigned] && (a.auditFailClosed ==> w.audited))
            && (t == [AuditLog.AuthFailed] <==>
                  || WrongToken(req, w)
                  || (Stopped(req, w).None? && consumed == Err(NonceStore.Replay))
                  || PasskeyEvent(req, w) == [AuditLog.AuthFailed])
            && (t == [AuditLog.AuthFailed] ==> r.Refused?)
  {
    if consumed.Err? {
      assert consumed == Err(consumed.error);
    }
  }

  // ---------------------------------------------------------------------------
  // The handler as the source runs it
  // ---------------------------------------------------------------------------

  /** Everything before the nonce store, in the order of the source. */
  method Screen(req: SignRequest, w: World) returns (stop: Option<Refusal>, trail: seq<AuditLog.EventType>)
    ensures stop == Stopped(req, w)
    ensures trail == if WrongToken(req, w) then [AuditLog.AuthFailed] else PasskeyEvent(req, w)
  {
    trail := [];
    if req.walletId == "" {
      return Some(Coded(E_PARAM)), [];
    }
    if req.chainId == "" {
      return Some(Coded(E_PARAM)), [];
    }
    if req.message == "" {
      return Some(Coded(E_PARAM)), [];
    }
    if req.hasAuth {
      if req.agentToken != "" {
        return Some(Coded(E_PARAM)), [];
      }
      if w.passkey.Failed? {
        return Some(w.passkey.why), if w.passkey.event.Some? then [w.passkey.event.value] else [];
      }
    } else {
      if w.token.Poisoned? {
        return Some(Coded(E_INTERNAL)), [];
      }
      if w.token.Unset? {
        return Some(Coded(E_AUTH)), [];
      }
      if req.agentToken == "" {
        return Some(PasskeyForged), [];
      }
      if req.agentToken != w.token.text {
        return Some(PasskeyForged), [AuditLog.AuthFailed];
      }
    }
    if !w.isUtf8 {
      return Some(Coded(E_PARAM)), [];
    }
    if w.parsed.None? {
      return Some(Coded(E_PARAM)), [];
    }
    var m := w.parsed.value;
    var split := SplitOnce(req.chainId);
    if split.None? {
      return Some(Coded(E_PARAM)), [];
    }
    var expected := ExpectedChainName(split.value.0);
    if expected.None? {
      return Some(Coded(E_PARAM)), [];
    }
    if split.value.1 != m.chainId {
      return Some(Coded(E_PARAM)), [];
    }
    if m.chainName != expected {
      return Some(Coded(E_PARAM)), [];
    }
    if !m.wellShaped {
      return Some(Coded(E_PARAM)), [];
    }
    if m.expiration.Some? && w.instant - m.expiration.value > CLOCK_SKEW_SECS * SECOND {
      return Some(Coded(E_AUTH)), [];
    }
    if m.notBefore.Some? && m.notBefore.value - w.instant > CLOCK_SKEW_SECS * SECOND {
      return Some(Coded(E_AUTH)), [];
    }
    stop := None;
  }

  lemma StoppedSavesNothing(a: Agent, file: NonceStore.NonceFile, req: SignRequest, w: World, victim: string)
    requires Stopped(req, w).Some? && w.now <= w.later <= NonceStore.U64_MAX
    ensures var q := Consumption(a, req, w, victim);
            NonceStore.Legal(file, q) && NonceStore.After(file, q) == file && NonceStore.Outcome(file, q).Err?
  {
  }

  /** Everything after the nonce store: sign, compare addresses, audit. */
  method Finish(a: Agent, address: string, w: World) returns (r: Response, trail: seq<AuditLog.EventType>)
    ensures r == (if w.signing.Err? then Refused(Coded(w.signing.error))
                  else if a.lower(w.signing.value) != a.lower(address) then Refused(Coded(E_AUTH))
                  else if a.auditFailClosed && !w.audited then Refused(Coded(E_AUDIT))
                  else Success(w.signing.value))
    ensures trail == if w.signing.Ok? && a.lower(w.signing.value) == a.lower(address) then [AuditLog.SiwxSigned] else []
  {
    if w.signing.Err? {
      return Refused(Coded(w.signing.error)), [];
    }
    if a.lower(w.signing.value) != a.lower(address) {
      return Refused(Coded(E_AUTH)), [];
    }
    trail := [AuditLog.SiwxSigned];
    if a.auditFailClosed && !w.audited {
      return Refused(Coded(E_AUDIT)), trail;
    }
    r := Success(w.signing.value);
  }

  method HandleSignSiwx(a: Agent, store: NonceStore.NonceStore, req: SignRequest, w: World)
    returns (r: Response, trail: seq<AuditLog.EventType>, signerCalled: bool, ghost victim: string)
    requires w.now <= w.later <= NonceStore.U64_MAX
    modifies store
    ensures var q := Consumption(a, req, w, victim);
            && NonceStore.Legal(old(store.file), q)
            && store.file == NonceStore.After(old(store.file), q)
            && r == Answer(a, req, w, NonceStore.Outcome(old(store.file), q))
            && trail == Trail(a, req, w, NonceStore.Outcome(old(store.file), q))
            && signerCalled == NonceStore.Outcome(old(store.file), q).Ok?
  {
    victim := "";
    var stop, seen := Screen(req, w);
    if stop.Some? {
      StoppedSavesNothing(a, store.file, req, w, victim);
      return Refused(stop.value), seen, false, "";
    }
    var m := w.parsed.value;
    var expires := if m.expiration.Some? then (if m.expiration.value < 0 then 0 else m.expiration.value / SECOND) else w.clock + DEFAULT_TTL_SECS;
    var consumed, q := store.Consume(a.sha256(req.message), expires, w.now, w.later, w.saved);
    victim := q.victim;
    assert q == Consumption(a, req, w, victim);
    if consumed.Err? {
      if consumed.error.Replay? {
        return Refused(Coded(E_AUTH)), [AuditLog.AuthFailed], false, victim;
      }
      return Refused(Coded(E_INTERNAL)), [], false, victim;
    }
    signerCalled := true;
    r, trail := Finish(a, m.address, w);
  }

  // ---------------------------------------------------------------------------
  // Serialised runs
  // ---------------------------------------------------------------------------

  datatype Turn = Turn(req: SignRequest, world: World, victim: string)

  function Consumptions(a: Agent, turns: seq<Turn>): seq<NonceStore.Request> {
    seq(|turns|, i requires 0 <= i < |turns| => Consumption(a, turns[i].req, turns[i].world, turns[i].victim))
  }

  ghost predicate LegalTurns(a: Agent, file: NonceStore.NonceFile, turns: seq<Turn>) {
    NonceStore.LegalRun(file, Consumptions(a, turns))
  }

  predicate SignerCalled(a: Agent, file: NonceStore.NonceFile, turns: seq<Turn>, i: nat)
    requires i < |turns|
  {
    NonceStore.Succeeds(file, Consumptions(a, turns), i)
  }

  function ResponseAt(a: Agent, file: NonceStore.NonceFile, turns: seq<Turn>, i: nat): Response
    requires i < |turns|
  {
    var qs := Consumptions(a, turns);
    Answer(a, turns[i].req, turns[i].world, NonceStore.Outcome(NonceStore.FileAt(file, qs, i), qs[i]))
  }

  function TrailAt(a: Agent, file: NonceStore.NonceFile, turns: seq<Turn>, i: nat): seq<AuditLog.EventType>
    requires i < |turns|
  {
    var qs := Consumptions(a, turns);
    Trail(a, turns[i].req, turns[i].world, NonceStore.Outcome(NonceStore.FileAt(file, qs, i), qs[i]))
  }

  /** No request between the two finds the store at its cap. */
  ghost predicate BelowCapBetween(a: Agent, file: NonceStore.NonceFile, turns: seq<Turn>, i: nat, k: nat)
    requires k <= |turns|
  {
    var qs := Consumptions(a, turns);
    forall j: nat :: i < j < k && SignerCalled(a, file, turns, j) ==>
      !NonceStore.Full(NonceStore.Load(NonceStore.FileAt(file, qs, j), qs[j].now).value)
  }

  /**
   The signer sees the same message bytes a second time only once the expiry stored with the
   first has been reached, whatever became of the first request after its hash was consumed.
   */
  lemma SignerSeesAMessageOnce(a: Agent, file: NonceStore.NonceFile, turns: seq<Turn>, i: nat, k: nat)
    requires LegalTurns(a, file, turns) && i < k < |turns|
    requires turns[i].req.message == turns[k].req.message
    requires SignerCalled(a, file, turns, i) && SignerCalled(a, file, turns, k)
    requires BelowCapBetween(a, file, turns, i, k)
    ensures turns[k].world.now >= NonceStore.Expiry(Consumptions(a, turns)[i])
  {
    var qs := Consumptions(a, turns);
    if qs[k].now < NonceStore.Expiry(qs[i]) {
      var j := NonceStore.ReplayNeedsEviction(file, qs, i, k);
      assert SignerCalled(a, file, turns, j);
    }
  }

  lemma SuccessNeedsSigner(a: Agent, file: NonceStore.NonceFile, turns: seq<Turn>, i: nat)
    requires i < |turns| && ResponseAt(a, file, turns, i).Success?
    ensures SignerCalled(a, file, turns, i)
  {
  }

  lemma StillHeld(a: Agent, file: NonceStore.NonceFile, turns: seq<Turn>, i: nat, k: nat)
    requires LegalTurns(a, file, turns) && i < k < |turns|
    requires SignerCalled(a, file, turns, i) && BelowCapBetween(a, file, turns, i, k)
    requires turns[k].world.now < NonceStore.Expiry(Consumptions(a, turns)[i])
    ensures var qs := Consumptions(a, turns);
            NonceStore.Holds(NonceStore.FileAt(file, qs, k), a.sha256(turns[i].req.message), NonceStore.Expiry(qs[i]))
  {
    var qs := Consumptions(a, turns);
    NonceStore.ConsumedIsHeld(file, qs, i);
    var evictedAt := NonceStore.StaysOrIsEvicted(file, qs, i, k, qs[i].hash, NonceStore.Expiry(qs[i]));
    if evictedAt.Some? {
      assert SignerCalled(a, file, turns, evictedAt.value);
    }
  }

  /**
   In between, every further presentation of the message is refused and the signer not called;
   and one that would otherwise be admitted is answered E_AUTH and recorded as a failed
   authorization.
   */
  lemma PresentedAgainIsRefused(a: Agent, file: NonceStore.NonceFile, turns: seq<Turn>, i: nat, k: nat)
    requires LegalTurns(a, file, turns) && i < k < |turns|
    requires turns[i].req.message == turns[k].req.message
    requires SignerCalled(a, file, turns, i)
    requires BelowCapBetween(a, file, turns, i, k)
    requires turns[k].world.now < NonceStore.Expiry(Consumptions(a, turns)[i])
    ensures !SignerCalled(a, file, turns, k)
    ensures ResponseAt(a, file, turns, k).Refused?
    ensures Stopped(turns[k].req, turns[k].world).None? ==>
              ResponseAt(a, file, turns, k) == Refused(Coded(E_AUTH)) && TrailAt(a, file, turns, k) == [AuditLog.AuthFailed]
  {
    StillHeld(a, file, turns, i, k);
    if ResponseAt(a, file, turns, k).Success? {
      SuccessNeedsSigner(a, file, turns, k);
    }
  }

  /** No turn between the two has the hash of the message signed. */
  ghost predicate NotSignedBetween(a: Agent, file: NonceStore.NonceFile, turns: seq<Turn>, i: nat, k: nat)
    requires i < |turns| && k <= |turns|
  {
    forall m: nat :: i < m < k && a.sha256(turns[m].req.message) == a.sha256(turns[i].req.message) ==> !SignerCalled(a, file, turns, m)
  }

  /**
   Exactly when a message is signed again. Below the cap, the next presentation of a message
   that reaches the signer is the first that is admitted, with a working disk, once the expiry
   stored with the last signature has been reached.
   */
  lemma SignedAgainIff(a: Agent, file: NonceStore.NonceFile, turns: seq<Turn>, i: nat, k: nat)
    requires LegalTurns(a, file, turns) && i < k < |turns|
    requires turns[i].req.message == turns[k].req.message
    requires SignerCalled(a, file, turns, i)
    requires BelowCapBetween(a, file, turns, i, k) && NotSignedBetween(a, file, turns, i, k)
    ensures SignerCalled(a, file, turns, k) <==>
            && Stopped(turns[k].req, turns[k].world).None? && turns[k].world.saved
            && turns[k].world.now >= NonceStore.Expiry(Consumptions(a, turns)[i])
  {
    var qs := Consumptions(a, turns);
    if SignerCalled(a, file, turns, k) {
      SignerSeesAMessageOnce(a, file, turns, i, k);
    }
    forall m: nat | i < m < k && qs[m].hash == qs[i].hash ensures !NonceStore.Succeeds(file, qs, m) {
      assert !SignerCalled(a, file, turns, m);
    }
    NonceStore.HeldWithExpiryOrOut(file, qs, i, k);
  }

  /**
   How long a message that was signed is refused, in seconds of the clock. Below the cap: for the
   rest of that second; a message with an expiry, until the second of that expiry; one without,
   for 86,400 seconds.
   */
  lemma RefusedFor(a: Agent, file: NonceStore.NonceFile, turns: seq<Turn>, i: nat, k: nat)
    requires LegalTurns(a, file, turns) && i < k < |turns|
    requires turns[i].req.message == turns[k].req.message
    requires SignerCalled(a, file, turns, i) && BelowCapBetween(a, file, turns, i, k)
    ensures var v, w := turns[i].world, turns[k].world;
            && v.parsed.Some?
            && (|| (v.parsed.value.expiration.None? && w.now < v.clock + 86_400)
                || (v.parsed.value.expiration.Some? && w.now < v.parsed.value.expiration.value / 1_000_000_000)
                || (w.now <= v.later < 0xFFFF_FFFF_FFFF_FFFF) ==>
                !SignerCalled(a, file, turns, k) && ResponseAt(a, file, turns, k).Refused?)
  {
    AdmittedIff(turns[i].req, turns[i].world);
    KeptUntil(a, turns, i);
    if turns[k].world.now < NonceStore.Expiry(Consumptions(a, turns)[i]) {
      PresentedAgainIsRefused(a, file, turns, i, k);
    }
  }

  /** The expiry stored with a hash, in terms of the request. */
  lemma KeptUntil(a: Agent, turns: seq<Turn>, i: nat)
    requires i < |turns| && turns[i].world.parsed.Some?
    ensures var w, m, e := turns[i].world, turns[i].world.parsed.value, NonceStore.Expiry(Consumptions(a, turns)[i]);
            var asked := if m.expiration.None? then w.clock + 86_400 else m.expiration.value / 1_000_000_000;
            var next := if w.later < 0xFFFF_FFFF_FFFF_FFFF then w.later + 1 else 0xFFFF_FFFF_FFFF_FFFF;
            e == if asked > next then asked else next
  {
    var w, m := turns[i].world, turns[i].world.parsed.value;
    if m.expiration.Some? && m.expiration.value < 0 {
      assert m.expiration.value / 1_000_000_000 < 0;
    }
  }

  /**
   And when exactly it is signed again: at the first presentation that is admitted, with a working
   disk, in a later second, at or after the second of its expiry, or a day later if it has none.
   */
  lemma SignedAgainAfter(a: Agent, file: NonceStore.NonceFile, turns: seq<Turn>, i: nat, k: nat)
    requires LegalTurns(a, file, turns) && i < k < |turns|
    requires turns[i].req.message == turns[k].req.message
    requires SignerCalled(a, file, turns, i)
    requires BelowCapBetween(a, file, turns, i, k) && NotSignedBetween(a, file, turns, i, k)
    ensures var v, w := turns[i].world, turns[k].world;
            && v.parsed.Some?
            && (SignerCalled(a, file, turns, k) <==>
                  && Stopped(turns[k].req, w).None? && w.saved
                  && (w.now > v.later || v.later == 0xFFFF_FFFF_FFFF_FFFF)
                  && w.now >= if v.parsed.value.expiration.None? then v.clock + 86_400 else v.parsed.value.expiration.value / 1_000_000_000)
  {
    AdmittedIff(turns[i].req, turns[i].world);
    KeptUntil(a, turns, i);
    SignedAgainIff(a, file, turns, i, k);
    assert NonceStore.LegalAt(file, Consumptions(a, turns), i) && NonceStore.LegalAt(file, Consumptions(a, turns), k);
  }

  /** From a store that does not parse or cannot be read, no request reaches the signer, and all are refused. */
  lemma NoSignerOnUnusableStore(a: Agent, file: NonceStore.NonceFile, turns: seq<Turn>, i: nat)
    requires NonceStore.Unusable(file) && i < |turns|
    ensures !SignerCalled(a, file, turns, i) && ResponseAt(a, file, turns, i).Refused?
    ensures NonceStore.FileAt(file, Consumptions(a, turns), i) == file
  {
    NonceStore.UnusableStays(file, Consumptions(a, turns), i);
    if ResponseAt(a, file, turns, i).Success? {
      SuccessNeedsSigner(a, file, turns, i);
    }
  }

  /**
   For how long: an admitted message with an expiry is signed at most until a minute after
   it, and one without is never too late.
   */
  lemma SignedAgainUntil(a: Agent, file: NonceStore.NonceFile, turns: seq<Turn>, k: nat)
    requires k < |turns| && SignerCalled(a, file, turns, k)
    ensures var w := turns[k].world;
            && w.parsed.Some?
            && (w.parsed.value.expiration.Some? ==> w.instant <= w.parsed.value.expiration.value + CLOCK_SKEW_SECS * SECOND)
  {
    AdmittedIff(turns[k].req, turns[k].world);
  }

  /**
   A success response means that this very request consumed its message: the hash was not
   live before, it is stored afterwards with its expiry, and the signer was called.
   */
  lemma SuccessMeansConsumed(a: Agent, file: NonceStore.NonceFile, turns: seq<Turn>, i: nat)
    requires LegalTurns(a, file, turns) && i < |turns|
    requires ResponseAt(a, file, turns, i).Success?
    ensures SignerCalled(a, file, turns, i)
    ensures var qs := Consumptions(a, turns);
            && a.sha256(turns[i].req.message) !in NonceStore.Load(NonceStore.FileAt(file, qs, i), qs[i].now).value
            && NonceStore.Holds(NonceStore.FileAt(file, qs, i + 1), a.sha256(turns[i].req.message), NonceStore.Expiry(qs[i]))
  {
    var qs := Consumptions(a, turns);
    SuccessNeedsSigner(a, file, turns, i);
    NonceStore.ConsumedIsHeld(file, qs, i);
  }

  // ---------------------------------------------------------------------------
  // One expired message, signed for a minute
  // ---------------------------------------------------------------------------

  /** An expiry second and a request with its passkey, the n-th second after it. */
  function LateTurn(e: nat, n: nat): Turn {
    var m := Message("1", Some("Ethereum"), "0x1", Some(e * SECOND), None, true);
    var w := World(Passed, Unset, true, Some(m), (e + n) * SECOND, e + n, e + n, e + n, true, Ok("0x1"), true);
    Turn(SignRequest("wallet", "eip155:1", "message", true, ""), w, "")
  }

  function LateTurns(e: nat, count: nat): seq<Turn> {
    seq(count, n requires 0 <= n < count => LateTurn(e, n))
  }

  lemma Seconds(e: nat, n: nat)
    ensures (e + n) * SECOND - e * SECOND == n * SECOND
    ensures e * SECOND / SECOND == e
  {
  }

  lemma LateTurnIsTimely(e: nat, n: nat)
    requires n <= CLOCK_SKEW_SECS
    ensures Timely(LateTurn(e, n).world.parsed.value, LateTurn(e, n).world.instant) && Expires(LateTurn(e, n).world) == e
  {
    Seconds(e, n);
  }

  lemma LateTurnIsBound(e: nat, n: nat)
    ensures ChainBound(LateTurn(e, n).req, LateTurn(e, n).world.parsed.value)
  {
    var namespace := "eip155";
    assert "eip155:1" == namespace + ":" + "1";
    assert ':' !in namespace && ExpectedChainName(namespace) == Some("Ethereum");
  }

  lemma LateTurnIsAdmitted(e: nat, n: nat)
    requires n <= CLOCK_SKEW_SECS
    ensures Stopped(LateTurn(e, n).req, LateTurn(e, n).world).None? && Expires(LateTurn(e, n).world) == e
  {
    LateTurnIsTimely(e, n);
    LateTurnIsBound(e, n);
    AdmittedIff(LateTurn(e, n).req, LateTurn(e, n).world);
  }

  /** The request to the nonce store at the n-th second: its hash is kept for one second more. */
  function LateRequest(a: Agent, e: nat, n: nat): NonceStore.Request {
    NonceStore.Request(a.sha256("message"), e, e + n, e + n, true, "")
  }

  lemma LateConsumption(a: Agent, e: nat, n: nat)
    requires n <= CLOCK_SKEW_SECS
    ensures Consumption(a, LateTurn(e, n).req, LateTurn(e, n).world, LateTurn(e, n).victim) == LateRequest(a, e, n)
  {
    LateTurnIsAdmitted(e, n);
  }

  /** The requests to the store, second by second. */
  function LateRequests(a: Agent, e: nat, count: nat): seq<NonceStore.Request> {
    seq(count, n requires 0 <= n < count => LateRequest(a, e, n))
  }

  lemma LateConsumptions(a: Agent, e: nat, count: nat)
    requires count <= CLOCK_SKEW_SECS + 1
    ensures Consumptions(a, LateTurns(e, count)) == LateRequests(a, e, count)
  {
    forall n: nat | n < count ensures Consumptions(a, LateTurns(e, count))[n] == LateRequests(a, e, count)[n] {
      LateConsumption(a, e, n);
    }
  }

  /** What the n-th of them finds: nothing, or the hash with an expiry that is now. */
  function LateFile(a: Agent, e: nat, n: nat): NonceStore.NonceFile {
    if n == 0 then NonceStore.Missing else NonceStore.Saved(map[a.sha256("message") := e + n])
  }

  lemma LateStep(a: Agent, e: nat, n: nat)
    requires e + n < NonceStore.U64_MAX
    ensures var q, f := LateRequest(a, e, n), LateFile(a, e, n);
            && NonceStore.Outcome(f, q).Ok? && NonceStore.Legal(f, q)
            && NonceStore.After(f, q) == LateFile(a, e, n + 1)
            && !NonceStore.Full(NonceStore.Load(f, q.now).value)
  {
    var q, f := LateRequest(a, e, n), LateFile(a, e, n);
    assert NonceStore.Load(f, q.now) == Ok(map[]);
    assert NonceStore.Stored(map[], q) == map[a.sha256("message") := e + n + 1];
  }

  lemma LateAfter(a: Agent, e: nat, n: nat, q: NonceStore.Request)
    requires e + n < NonceStore.U64_MAX && q == LateRequest(a, e, n)
    ensures NonceStore.After(LateFile(a, e, n), q) == LateFile(a, e, n + 1)
  {
    LateStep(a, e, n);
  }

  lemma LateFileAt(a: Agent, e: nat, count: nat, n: nat)
    requires n <= count && e + count < NonceStore.U64_MAX
    ensures NonceStore.FileAt(NonceStore.Missing, LateRequests(a, e, count), n) == LateFile(a, e, n)
  {
    var qs, files := LateRequests(a, e, count), seq(count + 1, i requires 0 <= i <= count => LateFile(a, e, i));
    forall i: nat | i < count ensures NonceStore.Follows(files, qs, i) {
      LateAfter(a, e, i, qs[i]);
    }
    NonceStore.FileFollows(NonceStore.Missing, qs, files, n);
  }

  /**
   Single use fails far below the cap. On an empty store, a message that expires at any second
   is signed at that second and at every one of the sixty that follow.
   */
  lemma SignedForAMinute(a: Agent, e: nat) returns (turns: seq<Turn>)
    requires e + CLOCK_SKEW_SECS + 1 < NonceStore.U64_MAX
    ensures |turns| == CLOCK_SKEW_SECS + 1 && LegalTurns(a, NonceStore.Missing, turns)
    ensures forall n: nat :: n < |turns| ==>
              turns[n] == LateTurn(e, n) && SignerCalled(a, NonceStore.Missing, turns, n) && BelowCapBetween(a, NonceStore.Missing, turns, 0, n)
  {
    var count := CLOCK_SKEW_SECS + 1;
    turns := LateTurns(e, count);
    var qs := Consumptions(a, turns);
    LateConsumptions(a, e, count);
    forall n: nat | n < count
      ensures qs[n] == LateRequest(a, e, n) && NonceStore.LegalAt(NonceStore.Missing, qs, n) && SignerCalled(a, NonceStore.Missing, turns, n)
      ensures !NonceStore.Full(NonceStore.Load(NonceStore.FileAt(NonceStore.Missing, qs, n), qs[n].now).value)
    {
      LateFileAt(a, e, count, n);
      LateStep(a, e, n);
    }
  }

  // ---------------------------------------------------------------------------
  // One message without an expiry, signed a day apart
  // ---------------------------------------------------------------------------

  function OpenEndedTurn(now: nat): Turn {
    var m := Message("1", Some("Ethereum"), "0x1", None, None, true);
    var w := World(Passed, Unset, true, Some(m), now * SECOND, now, now, now, true, Ok("0x1"), true);
    Turn(SignRequest("wallet", "eip155:1", "message", true, ""), w, "")
  }

  lemma OpenEndedIsAdmitted(now: nat)
    ensures Stopped(OpenEndedTurn(now).req, OpenEndedTurn(now).world).None?
  {
    assert "eip155:1" == "eip155:" + "1";
    AdmittedIff(OpenEndedTurn(now).req, OpenEndedTurn(now).world);
  }

  /** Its request to the nonce store asks for a day. */
  function DayRequest(a: Agent, now: nat): NonceStore.Request {
    NonceStore.Request(a.sha256("message"), now + 86_400, now, now, true, "")
  }

  lemma OpenEndedConsumption(a: Agent, now: nat)
    ensures Consumption(a, OpenEndedTurn(now).req, OpenEndedTurn(now).world, OpenEndedTurn(now).victim) == DayRequest(a, now)
  {
    OpenEndedIsAdmitted(now);
  }

  lemma DayApart(a: Agent, t: nat, qs: seq<NonceStore.Request>)
    requires t + 86_400 < NonceStore.U64_MAX && qs == [DayRequest(a, t), DayRequest(a, t + 86_400)]
    ensures NonceStore.LegalRun(NonceStore.Missing, qs)
    ensures NonceStore.Succeeds(NonceStore.Missing, qs, 0) && NonceStore.Succeeds(NonceStore.Missing, qs, 1)
  {
    var first := NonceStore.Missing;
    NonceStore.OutcomeCases(first, qs[0]);
    assert NonceStore.FileAt(first, qs, 0) == first;
    assert NonceStore.Load(first, t) == Ok(map[]);
    NonceStore.AfterCases(first, qs[0]);
    var second := NonceStore.After(first, qs[0]);
    assert NonceStore.FileAt(first, qs, 1) == second;
    NonceStore.OutcomeCases(second, qs[1]);
    assert NonceStore.Load(second, t + 86_400) == Ok(map[]);
    assert NonceStore.LegalAt(first, qs, 0) && NonceStore.LegalAt(first, qs, 1);
  }

  lemma TwoConsumptions(a: Agent, x: Turn, y: Turn)
    ensures Consumptions(a, [x, y]) == [Consumption(a, x.req, x.world, x.victim), Consumption(a, y.req, y.world, y.victim)]
  {
  }

  /** On an empty store, such a message is signed at second t and again 86,400 seconds later. */
  lemma SignedADayApart(a: Agent, t: nat) returns (turns: seq<Turn>)
    requires t + 86_400 < NonceStore.U64_MAX
    ensures turns == [OpenEndedTurn(t), OpenEndedTurn(t + 86_400)] && LegalTurns(a, NonceStore.Missing, turns)
    ensures SignerCalled(a, NonceStore.Missing, turns, 0) && SignerCalled(a, NonceStore.Missing, turns, 1)
  {
    turns := [OpenEndedTurn(t), OpenEndedTurn(t + 86_400)];
    OpenEndedConsumption(a, t);
    OpenEndedConsumption(a, t + 86_400);
    TwoConsumptions(a, OpenEndedTurn(t), OpenEndedTurn(t + 86_400));
    DayApart(a, t, Consumptions(a, turns));
  }
}
