/**
 The signed hash chain of crates/oc-keyagent/src/audit.rs. SHA-256 and Ed25519 are a record
 of functions; the theorems say which of their properties they need and on which entries.
 */
module AuditLog {
  import opened Results
  import Seqs

  datatype EventType =
    | CreateSessionKey | RevokeSessionKey | SignUserOp | PasskeyForged | PasskeyMissing | PasskeyReplay
    | PolicyLookupFailed | PolicyParseFailed | HumanAlert | BudgetReclaim | BackupAttemptFailed
    | BackupLocked | AuthFailed | SecretRead | SecretWritten | SecretDeleted | SecretMigrated
    | AgeRecipientAdded | AgeReencrypted | ChallengeIssued | VaultLocked | VaultUnlocked
    | TransactionSigned | AuthSigned | SiwxSigned | PasskeyRegistered | EnclavePending | EnclaveResolved

  /** An entry without its signature. It stands for the canonical bytes, which determine it. */
  datatype Body = Body(
    deviceId: string,
    seqNo: nat,
    timestamp: string,
    event: EventType,
    sessionKeyId: Option<string>,
    payload: string,
    prevHash: string)

  datatype Entry = Entry(body: Body, deviceSig: string)

  /** A line of the file: white space, text that is no entry, or an entry. */
  datatype Line = Blank | Garbage | Record(entry: Entry)

  datatype AuditError = Io | Json | Tampered(seqNo: nat) | ChainHashMismatch(seqNo: nat) | Signature

  /** `verify(k, b, s)` checks s against the public half of k. */
  datatype Crypto<!K> = Crypto(hash: Body -> string, sign: (K, Body) -> string, verify: (K, Body, string) -> bool)

  predicate IsHex(c: char) {
    '0' <= c <= '9' || 'a' <= c <= 'f' || 'A' <= c <= 'F'
  }

  /** Hex text of 64 bytes. */
  predicate SignatureText(s: string) {
    |s| == 128 && forall i :: 0 <= i < |s| ==> IsHex(s[i])
  }

  /** What every use of the log relies on: own signatures verify, and no digest prints as "". */
  ghost predicate Sound<K(!new)>(c: Crypto<K>) {
    && (forall k, b :: SignatureText(c.sign(k, b)) && c.verify(k, b, c.sign(k, b)))
    && (forall b :: c.hash(b) != "")
  }

  predicate Signed<K>(c: Crypto<K>, key: K, e: Entry) {
    SignatureText(e.deviceSig) && c.verify(key, e.body, e.deviceSig)
  }

  // ---------------------------------------------------------------------------
  // Reading a file
  // ---------------------------------------------------------------------------

  function Entries(lines: seq<Line>): seq<Entry> {
    if lines == [] then []
    else
      var init, l := Entries(lines[..|lines| - 1]), lines[|lines| - 1];
      if l.Record? then init + [l.entry] else init
  }

  predicate AllParse(lines: seq<Line>) {
    forall l :: l in lines ==> !l.Garbage?
  }

  /** `(last_hash, last_seq)` as `load_tail` finds them. */
  function Tail<K>(c: Crypto<K>, lines: seq<Line>): (string, nat) {
    var es := Entries(lines);
    if es == [] then ("", 0) else (c.hash(es[|es| - 1].body), es[|es| - 1].body.seqNo)
  }

  /** The check of one entry after the given hash. */
  function Check<K>(c: Crypto<K>, key: K, e: Entry, prev: string): Result<(), AuditError> {
    if e.body.prevHash != prev then Err(ChainHashMismatch(e.body.seqNo))
    else if !SignatureText(e.deviceSig) then Err(Signature)
    else if !c.verify(key, e.body, e.deviceSig) then Err(Tampered(e.body.seqNo))
    else Ok(())
  }

  function Verify<K>(c: Crypto<K>, key: K, lines: seq<Line>, prev: string): Result<(), AuditError> {
    if lines == [] then Ok(())
    else
      match lines[0]
      case Blank => Verify(c, key, lines[1..], prev)
      case Garbage => Err(Json)
      case Record(e) =>
        var r := Check(c, key, e, prev);
        if r.Err? then r else Verify(c, key, lines[1..], c.hash(e.body))
  }

  // ---------------------------------------------------------------------------
  // What verification means
  // ---------------------------------------------------------------------------

  /** The hash an entry at position i must carry. */
  function Link<K>(c: Crypto<K>, es: seq<Entry>, i: nat): string
    requires i <= |es|
  {
    if i == 0 then "" else c.hash(es[i - 1].body)
  }

  /** The entry at position i carries the hash of the one before it and its own signature. */
  predicate LinkedAt<K>(c: Crypto<K>, key: K, es: seq<Entry>, i: nat)
    requires i < |es|
  {
    es[i].body.prevHash == Link(c, es, i) && Signed(c, key, es[i])
  }

  ghost predicate Chained<K>(c: Crypto<K>, key: K, es: seq<Entry>) {
    forall i: nat :: i < |es| ==> LinkedAt(c, key, es, i)
  }

  lemma EntriesSnoc(lines: seq<Line>, l: Line)
    ensures Entries(lines + [l]) == if l.Record? then Entries(lines) + [l.entry] else Entries(lines)
  {
    assert (lines + [l])[..|lines|] == lines;
  }

  lemma {:induction false} VerifyConcat<K>(c: Crypto<K>, key: K, lines: seq<Line>, more: seq<Line>, prev: string)
    requires Verify(c, key, lines, prev).Ok?
    ensures Verify(c, key, lines + more, prev) ==
            Verify(c, key, more, if Entries(lines) == [] then prev else Tail(c, lines).0)
  {
    if lines == [] {
      assert lines + more == more;
    } else {
      assert (lines + more)[1..] == lines[1..] + more;
      var prev' := if lines[0].Record? then c.hash(lines[0].entry.body) else prev;
      VerifyConcat(c, key, lines[1..], more, prev');
      EntriesCons(lines);
    }
  }

  lemma {:induction false} EntriesCons(lines: seq<Line>)
    requires lines != []
    ensures Entries(lines) == if lines[0].Record? then [lines[0].entry] + Entries(lines[1..]) else Entries(lines[1..])
  {
    if |lines| == 1 {
      assert lines == [] + [lines[0]];
      EntriesSnoc([], lines[0]);
    } else {
      var init, l := lines[..|lines| - 1], lines[|lines| - 1];
      EntriesCons(init);
      assert lines[1..] == init[1..] + [l];
      EntriesSnoc(init[1..], l);
    }
  }

  lemma {:induction false} VerifyPrefix<K>(c: Crypto<K>, key: K, lines: seq<Line>, more: seq<Line>, prev: string)
    requires Verify(c, key, lines + more, prev).Ok?
    ensures Verify(c, key, lines, prev).Ok?
  {
    if lines != [] {
      assert (lines + more)[0] == lines[0];
      assert (lines + more)[1..] == lines[1..] + more;
      VerifyPrefix(c, key, lines[1..], more, if lines[0].Record? then c.hash(lines[0].entry.body) else prev);
    }
  }

  /** A file verifies exactly when every line parses and its entries form a signed chain. */
  lemma {:induction false} VerifiesIffChained<K>(c: Crypto<K>, key: K, lines: seq<Line>)
    ensures Verify(c, key, lines, "").Ok? <==> AllParse(lines) && Chained(c, key, Entries(lines))
  {
    if lines != [] {
      var init, l := lines[..|lines| - 1], lines[|lines| - 1];
      assert lines == init + [l];
      VerifiesIffChained(c, key, init);
      EntriesSnoc(init, l);
      if Verify(c, key, init, "").Ok? {
        VerifyConcat(c, key, init, [l], "");
        if l.Record? {
          ChainedSnoc(c, key, Entries(init), l.entry);
        }
      } else {
        if Verify(c, key, lines, "").Ok? {
          VerifyPrefix(c, key, init, [l], "");
        }
        if AllParse(lines) && l.Record? {
          ChainedSnoc(c, key, Entries(init), l.entry);
        }
      }
    }
  }

  lemma ChainedSnoc<K>(c: Crypto<K>, key: K, es: seq<Entry>, e: Entry)
    ensures Chained(c, key, es + [e]) <==> Chained(c, key, es) && e.body.prevHash == Link(c, es, |es|) && Signed(c, key, e)
  {
    var all := es + [e];
    assert forall i: nat :: i < |es| ==> LinkedAt(c, key, all, i) == LinkedAt(c, key, es, i);
    assert LinkedAt(c, key, all, |es|) == (e.body.prevHash == Link(c, es, |es|) && Signed(c, key, e));
  }

  // ---------------------------------------------------------------------------
  // Which fault is reported
  // ---------------------------------------------------------------------------

  /** 128 hexadecimal digits, of either case. */
  predicate HexSignature(s: string) {
    |s| == 128 && forall i :: 0 <= i < 128 ==> s[i] in "0123456789abcdefABCDEF"
  }

  /**
   Line i is the first at fault, and this is its fault: up to it everything parses and is a signed
   chain, and it does not parse; or does not carry the hash of the entry before it; or does, but
   its signature is no hex text of 64 bytes; or is, but does not verify.
   */
  ghost predicate FirstFault<K>(c: Crypto<K>, key: K, lines: seq<Line>, i: nat, error: AuditError) {
    && i < |lines|
    && AllParse(lines[..i]) && Chained(c, key, Entries(lines[..i]))
    && match lines[i]
       case Blank => false
       case Garbage => error == Json
       case Record(e) =>
         var before := Entries(lines[..i]);
         var linked := e.body.prevHash == if before == [] then "" else c.hash(before[|before| - 1].body);
         || (!linked && error == ChainHashMismatch(e.body.seqNo))
         || (linked && !HexSignature(e.deviceSig) && error == Signature)
         || (linked && HexSignature(e.deviceSig) && !c.verify(key, e.body, e.deviceSig) && error == Tampered(e.body.seqNo))
  }

  lemma SignatureTextIsHex(s: string)
    ensures SignatureText(s) <==> HexSignature(s)
  {
    if |s| == 128 {
      forall i | 0 <= i < 128 ensures IsHex(s[i]) <==> s[i] in "0123456789abcdefABCDEF" {
        HexDigit(s[i]);
      }
    }
  }

  lemma HexDigit(c: char)
    ensures IsHex(c) <==> c in "0123456789abcdefABCDEF"
  {
    var digits := "0123456789abcdefABCDEF";
    if '0' <= c <= '9' {
      assert digits[c as int - '0' as int] == c;
    } else if 'a' <= c <= 'f' {
      assert digits[c as int - 'a' as int + 10] == c;
    } else if 'A' <= c <= 'F' {
      assert digits[c as int - 'A' as int + 16] == c;
    }
  }

  lemma {:induction false} FaultStays<K>(c: Crypto<K>, key: K, lines: seq<Line>, more: seq<Line>, prev: string)
    requires Verify(c, key, lines, prev).Err?
    ensures Verify(c, key, lines + more, prev) == Verify(c, key, lines, prev)
  {
    if lines != [] {
      assert (lines + more)[0] == lines[0];
      assert (lines + more)[1..] == lines[1..] + more;
      var rest := if lines[0].Record? then c.hash(lines[0].entry.body) else prev;
      if !lines[0].Garbage? && !(lines[0].Record? && Check(c, key, lines[0].entry, prev).Err?) {
        FaultStays(c, key, lines[1..], more, rest);
      }
    }
  }

  /** A fault of a single line behind a verifying file. */
  lemma FaultOfLast<K>(c: Crypto<K>, key: K, init: seq<Line>, l: Line)
    requires Verify(c, key, init, "").Ok? && Verify(c, key, init + [l], "").Err?
    ensures FirstFault(c, key, init + [l], |init|, Verify(c, key, init + [l], "").error)
  {
    VerifyConcat(c, key, init, [l], "");
    VerifiesIffChained(c, key, init);
    assert (init + [l])[..|init|] == init && (init + [l])[|init|] == l;
    assert [l][1..] == [];
    if l.Record? {
      SignatureTextIsHex(l.entry.deviceSig);
    }
  }

  /** A file that does not verify has a first fault, and that is the one reported. */
  lemma {:induction false} FirstFaultIsReported<K>(c: Crypto<K>, key: K, lines: seq<Line>) returns (i: nat)
    requires Verify(c, key, lines, "").Err?
    ensures FirstFault(c, key, lines, i, Verify(c, key, lines, "").error)
    decreases |lines|
  {
    var init, l := lines[..|lines| - 1], lines[|lines| - 1];
    assert lines == init + [l];
    if Verify(c, key, init, "").Ok? {
      FaultOfLast(c, key, init, l);
      i := |init|;
    } else {
      FaultStays(c, key, init, [l], "");
      i := FirstFaultIsReported(c, key, init);
      assert init[..i] == lines[..i];
    }
  }

  // ---------------------------------------------------------------------------
  // Tamper evidence
  // ---------------------------------------------------------------------------

  /** The hash is injective and never prints as "" on this pool of entries. */
  ghost predicate IdealOn<K>(c: Crypto<K>, pool: set<Body>) {
    && (forall x, y :: x in pool && y in pool && c.hash(x) == c.hash(y) ==> x == y)
    && (forall x :: x in pool ==> c.hash(x) != "")
  }

  ghost predicate Within(es: seq<Entry>, pool: set<Body>) {
    forall i :: 0 <= i < |es| ==> es[i].body in pool
  }

  ghost predicate SameBodies(es: seq<Entry>, fs: seq<Entry>) {
    |es| == |fs| && forall i :: 0 <= i < |es| ==> es[i].body == fs[i].body
  }

  /**
   The hash of the last entry pins down the whole log. Two verifying logs, under whatever
   keys, whose last entries hash the same have the same length and agree entry by entry in
   everything but the signatures.
   */
  lemma {:induction false} LastHashDeterminesLog<K>(c: Crypto<K>, k1: K, k2: K, es: seq<Entry>, fs: seq<Entry>, pool: set<Body>)
    requires Chained(c, k1, es) && Chained(c, k2, fs)
    requires es != [] && fs != []
    requires c.hash(es[|es| - 1].body) == c.hash(fs[|fs| - 1].body)
    requires IdealOn(c, pool) && Within(es, pool) && Within(fs, pool)
    ensures SameBodies(es, fs)
  {
    var m, n := |es| - 1, |fs| - 1;
    assert LinkedAt(c, k1, es, m) && LinkedAt(c, k2, fs, n);
    if m > 0 && n > 0 {
      ChainedInit(c, k1, es);
      ChainedInit(c, k2, fs);
      LastHashDeterminesLog(c, k1, k2, es[..m], fs[..n], pool);
    }
  }

  lemma ChainedInit<K>(c: Crypto<K>, key: K, es: seq<Entry>)
    requires es != [] && Chained(c, key, es)
    ensures Chained(c, key, es[..|es| - 1])
  {
    assert es == es[..|es| - 1] + [es[|es| - 1]];
    ChainedSnoc(c, key, es[..|es| - 1], es[|es| - 1]);
  }

  lemma RewrittenChain<K>(c: Crypto<K>, key: K, other: K, es: seq<Entry>, p: nat, e: Entry, pool: set<Body>)
    requires Chained(c, key, es) && p < |es| - 1 && e.body != es[p].body
    requires IdealOn(c, pool) && Within(es, pool) && e.body in pool
    ensures !Chained(c, other, es[p := e])
  {
    var fs := es[p := e];
    assert fs[p].body != es[p].body;
    if Chained(c, other, fs) {
      LastHashDeterminesLog(c, key, other, es, fs, pool);
    }
  }

  /**
   Rewriting history. Replace any entry before the last by one that differs in more than its
   signature, however it is signed and whichever key then verifies: the log no longer does.
   */
  lemma RewritingIsDetected<K>(c: Crypto<K>, key: K, other: K, lines: seq<Line>, i: nat, e: Entry, pool: set<Body>)
    requires Verify(c, key, lines, "").Ok?
    requires i < |lines| && lines[i].Record? && Entries(lines[i + 1..]) != []
    requires e.body != lines[i].entry.body
    requires IdealOn(c, pool) && Within(Entries(lines), pool) && e.body in pool
    ensures Verify(c, other, lines[i := Record(e)], "").Err?
  {
    var p := EntriesChanged(lines, i, e);
    VerifiesIffChained(c, key, lines);
    VerifiesIffChained(c, other, lines[i := Record(e)]);
    RewrittenChain(c, key, other, Entries(lines), p, e, pool);
  }

  /** Changing a record that is not the last changes one entry that is not the last. */
  lemma EntriesChanged(lines: seq<Line>, i: nat, e: Entry) returns (p: nat)
    requires i < |lines| && lines[i].Record? && Entries(lines[i + 1..]) != []
    ensures p < |Entries(lines)| - 1 && Entries(lines)[p] == lines[i].entry
    ensures Entries(lines[i := Record(e)]) == Entries(lines)[p := e]
  {
    var before, after := lines[..i], lines[i + 1..];
    assert lines == before + [lines[i]] + after;
    assert lines[i := Record(e)] == before + [Record(e)] + after;
    EntriesAround(before, lines[i], after);
    EntriesAround(before, Record(e), after);
    p := |Entries(before)|;
  }

  lemma {:induction false} EntriesAround(before: seq<Line>, l: Line, after: seq<Line>)
    requires l.Record?
    ensures Entries(before + [l] + after) == Entries(before) + [l.entry] + Entries(after)
  {
    if after == [] {
      assert before + [l] + after == before + [l];
      EntriesSnoc(before, l);
    } else {
      var init, x := after[..|after| - 1], after[|after| - 1];
      EntriesAround(before, l, init);
      assert before + [l] + after == (before + [l] + init) + [x];
      EntriesSnoc(before + [l] + init, x);
    }
  }

  /**
   What verification does not notice: entries cut off at the end. Every prefix of a
   verifying log verifies.
   */
  lemma TruncationIsNot<K>(c: Crypto<K>, key: K, lines: seq<Line>, k: nat)
    requires Verify(c, key, lines, "").Ok? && k <= |lines|
    ensures Verify(c, key, lines[..k], "").Ok?
  {
    assert lines == lines[..k] + lines[k..];
    VerifyPrefix(c, key, lines[..k], lines[k..], "");
  }

  ghost predicate Numbered(es: seq<Entry>) {
    forall i :: 0 <= i < |es| ==> es[i].body.seqNo == i + 1
  }

  /** A chain made of entries of another chain repeats it from the start, entry by entry. */
  lemma {:induction false} RearrangedChain<K>(c: Crypto<K>, key: K, es: seq<Entry>, out: seq<Entry>, pool: set<Body>, n: nat)
    requires Chained(c, key, es) && Chained(c, key, out)
    requires Numbered(es) && n <= |out|
    requires forall e :: e in out ==> e in es
    requires IdealOn(c, pool) && Within(es, pool)
    ensures n <= |es| && out[..n] == es[..n]
  {
    if n > 0 {
      RearrangedChain(c, key, es, out, pool, n - 1);
      var e := out[n - 1];
      assert e in out;
      var p: nat :| p < |es| && es[p] == e;
      assert LinkedAt(c, key, es, p) && LinkedAt(c, key, out, n - 1);
      if n > 1 {
        assert out[n - 2] == out[..n - 1][n - 2] == es[n - 2];
      }
      assert p == n - 1;
      assert out[..n] == out[..n - 1] + [out[n - 1]] && es[..n] == es[..n - 1] + [es[n - 1]];
    }
  }

  /**
   Of all the sequences made from the entries of a log - shortened, reordered, repeated, with
   gaps - exactly its prefixes verify.
   */
  lemma OnlyPrefixesChain<K>(c: Crypto<K>, key: K, es: seq<Entry>, out: seq<Entry>, pool: set<Body>)
    requires Chained(c, key, es) && Numbered(es)
    requires forall e :: e in out ==> e in es
    requires IdealOn(c, pool) && Within(es, pool)
    ensures Chained(c, key, out) <==> out <= es
  {
    if Chained(c, key, out) {
      RearrangedChain(c, key, es, out, pool, |out|);
      assert out[..|out|] == out;
    }
    if out <= es {
      forall i: nat | i < |out| ensures LinkedAt(c, key, out, i) {
        assert LinkedAt(c, key, es, i);
      }
    }
  }

  /** The same of whole files: a file of old entries verifies exactly if it parses and is a prefix. */
  lemma OnlyTruncationVerifies<K>(c: Crypto<K>, key: K, lines: seq<Line>, other: seq<Line>, pool: set<Body>)
    requires Verify(c, key, lines, "").Ok? && Numbered(Entries(lines))
    requires forall e :: e in Entries(other) ==> e in Entries(lines)
    requires IdealOn(c, pool) && Within(Entries(lines), pool)
    ensures Verify(c, key, other, "").Ok? <==> AllParse(other) && Entries(other) <= Entries(lines)
  {
    VerifiesIffChained(c, key, lines);
    VerifiesIffChained(c, key, other);
    OnlyPrefixesChain(c, key, Entries(lines), Entries(other), pool);
  }

  // ---------------------------------------------------------------------------
  // Appending
  // ---------------------------------------------------------------------------

  /** The in-memory half of an open log. */
  datatype Handle = Handle(deviceId: string, lastHash: string, lastSeq: nat)

  /** What the caller of `append` supplies, and the clock. */
  datatype Note = Note(event: EventType, sessionKeyId: Option<string>, payload: string, timestamp: string)

  function NewEntry<K>(c: Crypto<K>, key: K, h: Handle, n: Note): Entry {
    var b := Body(h.deviceId, h.lastSeq + 1, n.timestamp, n.event, n.sessionKeyId, n.payload, h.lastHash);
    Entry(b, c.sign(key, b))
  }

  function Advance<K>(c: Crypto<K>, h: Handle, e: Entry): Handle {
    Handle(h.deviceId, c.hash(e.body), e.body.seqNo)
  }

  predicate InStep<K>(c: Crypto<K>, h: Handle, lines: seq<Line>) {
    (h.lastHash, h.lastSeq) == Tail(c, lines)
  }

  /**
   A handle may extend a verifying log exactly when its hash is that of the file; one that
   went stale because another handle appended breaks the chain.
   */
  lemma AppendVerifiesIffCurrent<K(!new)>(c: Crypto<K>, key: K, h: Handle, n: Note, lines: seq<Line>)
    requires Sound(c)
    requires Verify(c, key, lines, "").Ok?
    ensures Verify(c, key, lines + [Record(NewEntry(c, key, h, n))], "").Ok? <==> h.lastHash == Tail(c, lines).0
    ensures h.lastHash == Tail(c, lines).0 ==> InStep(c, Advance(c, h, NewEntry(c, key, h, n)), lines + [Record(NewEntry(c, key, h, n))])
    ensures InStep(c, h, lines) && Numbered(Entries(lines)) ==> Numbered(Entries(lines + [Record(NewEntry(c, key, h, n))]))
  {
    var e := NewEntry(c, key, h, n);
    VerifyConcat(c, key, lines, [Record(e)], "");
    EntriesSnoc(lines, Record(e));
    assert [Record(e)][1..] == [];
  }

  /** Two handles on one file: after the first has appended, the second breaks the chain. */
  lemma StaleHandleBreaksChain<K(!new)>(c: Crypto<K>, key: K, h: Handle, m: Note, n: Note, lines: seq<Line>, pool: set<Body>)
    requires Sound(c)
    requires Verify(c, key, lines, "").Ok? && InStep(c, h, lines) && Numbered(Entries(lines))
    requires IdealOn(c, pool) && Within(Entries(lines), pool) && NewEntry(c, key, h, m).body in pool
    ensures Verify(c, key, lines + [Record(NewEntry(c, key, h, m))] + [Record(NewEntry(c, key, h, n))], "").Err?
  {
    var e := NewEntry(c, key, h, m);
    AppendVerifiesIffCurrent(c, key, h, m, lines);
    EntriesSnoc(lines, Record(e));
    AppendVerifiesIffCurrent(c, key, h, n, lines + [Record(e)]);
  }

  // ---------------------------------------------------------------------------
  // Whole runs
  // ---------------------------------------------------------------------------

  /** How an append fares: on disk and synced; on disk, but the sync failed; or not written. */
  datatype Landing = Synced | Unsynced | NotWritten

  /** Appending, or closing and opening again. */
  datatype LogOp = Append(note: Note, landing: Landing) | Reopen

  datatype LogState = LogState(lines: seq<Line>, handle: Handle)

  function OpenOn<K>(c: Crypto<K>, deviceId: string, lines: seq<Line>): LogState {
    LogState(lines, Handle(deviceId, Tail(c, lines).0, Tail(c, lines).1))
  }

  /** After a failed sync the line is in the file, but the handle does not know it. */
  function StepLog<K>(c: Crypto<K>, key: K, st: LogState, op: LogOp): LogState {
    match op
    case Append(n, landing) =>
      var e := NewEntry(c, key, st.handle, n);
      (match landing
       case Synced => LogState(st.lines + [Record(e)], Advance(c, st.handle, e))
       case Unsynced => LogState(st.lines + [Record(e)], st.handle)
       case NotWritten => st)
    case Reopen => OpenOn(c, st.handle.deviceId, st.lines)
  }

  function RunLog<K>(c: Crypto<K>, key: K, start: LogState, ops: seq<LogOp>): LogState {
    if ops == [] then start
    else StepLog(c, key, RunLog(c, key, start, ops[..|ops| - 1]), ops[|ops| - 1])
  }

  lemma RunLogSnoc<K>(c: Crypto<K>, key: K, start: LogState, ops: seq<LogOp>, op: LogOp)
    ensures RunLog(c, key, start, ops + [op]) == StepLog(c, key, RunLog(c, key, start, ops), op)
  {
    assert (ops + [op])[..|ops|] == ops;
  }

  /** The operation puts a line into the file. */
  predicate Lands(op: LogOp) {
    op.Append? && !op.landing.NotWritten?
  }

  /** The entries that a run's appends put into the file, in order. */
  function Notes(ops: seq<LogOp>): seq<Note> {
    if ops == [] then []
    else
      var init, op := Notes(ops[..|ops| - 1]), ops[|ops| - 1];
      if Lands(op) then init + [op.note] else init
  }

  /** The last line went in unsynced, and the log was not opened again. */
  predicate Stale(ops: seq<LogOp>) {
    ops != [] &&
    match ops[|ops| - 1]
    case Append(_, Synced) => false
    case Append(_, Unsynced) => true
    case Append(_, NotWritten) => Stale(ops[..|ops| - 1])
    case Reopen => false
  }

  /** A line was written after one that went in unsynced, with no opening in between. */
  predicate Broken(ops: seq<LogOp>) {
    ops != [] && var init := ops[..|ops| - 1];
    Broken(init) || (Stale(init) && Lands(ops[|ops| - 1]))
  }

  ghost predicate AllSynced(ops: seq<LogOp>) {
    forall i :: 0 <= i < |ops| && ops[i].Append? ==> !ops[i].landing.Unsynced?
  }

  /** Where every operation lands a line, the run is broken exactly if some line but the last is not synced. */
  lemma {:induction false} BrokenIffUnsyncedBeforeLast(ops: seq<LogOp>)
    requires forall i :: 0 <= i < |ops| ==> Lands(ops[i])
    ensures Broken(ops) <==> UnsyncedBeforeLast(ops)
  {
    if ops != [] {
      var init := ops[..|ops| - 1];
      BrokenIffUnsyncedBeforeLast(init);
      if init != [] {
        assert init[|init| - 1] == ops[|ops| - 2];
      }
    }
  }

  ghost predicate UnsyncedBeforeLast(ops: seq<LogOp>) {
    exists i :: 0 <= i < |ops| - 1 && ops[i].Append? && ops[i].landing.Unsynced?
  }

  /** With every sync working, nothing goes stale. */
  lemma {:induction false} SyncedIsFine(ops: seq<LogOp>)
    requires AllSynced(ops)
    ensures !Stale(ops) && !Broken(ops)
  {
    if ops != [] {
      SyncedIsFine(ops[..|ops| - 1]);
    }
  }

  predicate Carries(e: Entry, n: Note) {
    Note(e.body.event, e.body.sessionKeyId, e.body.payload, e.body.timestamp) == n
  }

  /** The entries are these notes, in order, whatever their links. */
  ghost predicate CarriesAll(es: seq<Entry>, notes: seq<Note>) {
    |es| == |notes| && forall i :: 0 <= i < |es| ==> Carries(es[i], notes[i])
  }

  /** The file holds exactly these notes, numbered from one, in a chain that verifies. */
  ghost predicate Holds<K>(c: Crypto<K>, key: K, deviceId: string, lines: seq<Line>, notes: seq<Note>) {
    && Verify(c, key, lines, "").Ok?
    && Numbered(Entries(lines))
    && |Entries(lines)| == |notes|
    && forall i :: 0 <= i < |notes| ==> Carries(Entries(lines)[i], notes[i]) && Entries(lines)[i].body.deviceId == deviceId
  }

  lemma AppendHolds<K(!new)>(c: Crypto<K>, key: K, h: Handle, lines: seq<Line>, notes: seq<Note>, n: Note)
    requires Sound(c) && InStep(c, h, lines)
    requires Holds(c, key, h.deviceId, lines, notes)
    ensures Holds(c, key, h.deviceId, lines + [Record(NewEntry(c, key, h, n))], notes + [n])
  {
    AppendVerifiesIffCurrent(c, key, h, n, lines);
    EntriesSnoc(lines, Record(NewEntry(c, key, h, n)));
  }

  /** The handle is one line behind the file. */
  ghost predicate Lags<K>(c: Crypto<K>, st: LogState) {
    st.lines != [] &&
    var before, l := st.lines[..|st.lines| - 1], st.lines[|st.lines| - 1];
    InStep(c, st.handle, before) && l.Record? && l.entry.body.seqNo == st.handle.lastSeq + 1
  }

  /** What a run that is not broken has reached. */
  ghost predicate Reached<K>(c: Crypto<K>, key: K, deviceId: string, st: LogState, notes: seq<Note>, stale: bool) {
    && Holds(c, key, deviceId, st.lines, notes)
    && st.handle.deviceId == deviceId
    && if stale then Lags(c, st) else st == OpenOn(c, deviceId, st.lines)
  }

  lemma LandingReaches<K(!new)>(c: Crypto<K>, key: K, deviceId: string, st: LogState, notes: seq<Note>, n: Note, landing: Landing)
    requires Sound(c) && Reached(c, key, deviceId, st, notes, false) && !landing.NotWritten?
    ensures Reached(c, key, deviceId, StepLog(c, key, st, Append(n, landing)), notes + [n], landing.Unsynced?)
  {
    var e := NewEntry(c, key, st.handle, n);
    AppendHolds(c, key, st.handle, st.lines, notes, n);
    EntriesSnoc(st.lines, Record(e));
    assert (st.lines + [Record(e)])[..|st.lines|] == st.lines;
  }

  /**
   From any verifying log opened or handed over in step, every run of appends and reopenings
   that writes nothing over a stale handle verifies, numbers on without a gap and records
   exactly the lines that landed, in order; unless its last line went in unsynced, the handle
   equals what a fresh read of the file would give.
   */
  lemma {:induction false} RunVerifies<K(!new)>(c: Crypto<K>, key: K, start: LogState, notes: seq<Note>, ops: seq<LogOp>)
    requires Sound(c)
    requires start == OpenOn(c, start.handle.deviceId, start.lines)
    requires Holds(c, key, start.handle.deviceId, start.lines, notes)
    ensures !Broken(ops) ==>
              Reached(c, key, start.handle.deviceId, RunLog(c, key, start, ops), notes + Notes(ops), Stale(ops))
  {
    if ops == [] {
      assert notes + [] == notes;
    } else if !Broken(ops) {
      var init, op := ops[..|ops| - 1], ops[|ops| - 1];
      RunVerifies(c, key, start, notes, init);
      var st := RunLog(c, key, start, init);
      if Lands(op) {
        LandingReaches(c, key, start.handle.deviceId, st, notes + Notes(init), op.note, op.landing);
        assert notes + Notes(init) + [op.note] == notes + Notes(ops);
      }
    }
  }

  lemma LaggingWriteBreaks<K(!new)>(c: Crypto<K>, key: K, st: LogState, n: Note, pool: set<Body>)
    requires Sound(c) && Verify(c, key, st.lines, "").Ok? && Lags(c, st) && Numbered(Entries(st.lines))
    requires IdealOn(c, pool) && Within(Entries(st.lines), pool)
    ensures Verify(c, key, st.lines + [Record(NewEntry(c, key, st.handle, n))], "").Err?
  {
    var before, l := st.lines[..|st.lines| - 1], st.lines[|st.lines| - 1];
    assert st.lines == before + [l];
    EntriesSnoc(before, l);
    AppendVerifiesIffCurrent(c, key, st.handle, n, st.lines);
    var es := Entries(st.lines);
    assert es[|es| - 1] == l.entry;
    if Entries(before) != [] {
      assert es[|es| - 2].body in pool && es[|es| - 1].body in pool;
    }
  }

  lemma StepExtends<K>(c: Crypto<K>, key: K, st: LogState, op: LogOp)
    ensures StepLog(c, key, st, op).lines == st.lines + if Lands(op) then [Record(NewEntry(c, key, st.handle, op.note))] else []
  {
  }

  /**
   Exactly which runs verify: those in which no line is written after one whose sync failed
   without opening the log again.
   */
  lemma {:induction false} RunVerifiesIff<K(!new)>(c: Crypto<K>, key: K, start: LogState, notes: seq<Note>, ops: seq<LogOp>, pool: set<Body>)
    requires Sound(c)
    requires start == OpenOn(c, start.handle.deviceId, start.lines)
    requires Holds(c, key, start.handle.deviceId, start.lines, notes)
    requires IdealOn(c, pool) && Within(Entries(RunLog(c, key, start, ops).lines), pool)
    ensures Verify(c, key, RunLog(c, key, start, ops).lines, "").Ok? <==> !Broken(ops)
  {
    RunVerifies(c, key, start, notes, ops);
    if Broken(ops) {
      var init, op := ops[..|ops| - 1], ops[|ops| - 1];
      var st := RunLog(c, key, start, init);
      StepExtends(c, key, st, op);
      if Lands(op) {
        EntriesSnoc(st.lines, Record(NewEntry(c, key, st.handle, op.note)));
        assert forall i :: 0 <= i < |Entries(st.lines)| ==> Entries(RunLog(c, key, start, ops).lines)[i] == Entries(st.lines)[i];
      }
      RunVerifiesIff(c, key, start, notes, init, pool);
      if Broken(init) {
        if Verify(c, key, RunLog(c, key, start, ops).lines, "").Ok? && Lands(op) {
          VerifyPrefix(c, key, st.lines, [Record(NewEntry(c, key, st.handle, op.note))], "");
        }
      } else {
        RunVerifies(c, key, start, notes, init);
        LaggingWriteBreaks(c, key, st, op.note, pool);
      }
    }
  }

  /** Verifying or not, the file of any run holds its earlier notes and then those that landed. */
  lemma {:induction false} RunCarries<K>(c: Crypto<K>, key: K, start: LogState, notes: seq<Note>, ops: seq<LogOp>)
    requires CarriesAll(Entries(start.lines), notes)
    ensures CarriesAll(Entries(RunLog(c, key, start, ops).lines), notes + Notes(ops))
  {
    if ops == [] {
      assert notes + [] == notes;
    } else {
      var init, op := ops[..|ops| - 1], ops[|ops| - 1];
      RunCarries(c, key, start, notes, init);
      var st := RunLog(c, key, start, init);
      if Lands(op) {
        EntriesSnoc(st.lines, Record(NewEntry(c, key, st.handle, op.note)));
        assert notes + Notes(ops) == notes + Notes(init) + [op.note];
      }
    }
  }

  /**
   A line that does not parse is skipped on opening, but the log never verifies again, under
   any key, whatever is appended.
   */
  lemma {:induction false} LegacyLineNeverVerifies<K>(c: Crypto<K>, key: K, other: K, start: LogState, ops: seq<LogOp>)
    requires Garbage in start.lines
    ensures Garbage in RunLog(c, key, start, ops).lines
    ensures Verify(c, other, RunLog(c, key, start, ops).lines, "").Err?
  {
    if ops != [] {
      LegacyLineNeverVerifies(c, key, other, start, ops[..|ops| - 1]);
      StepExtends(c, key, RunLog(c, key, start, ops[..|ops| - 1]), ops[|ops| - 1]);
    }
    VerifiesIffChained(c, other, RunLog(c, key, start, ops).lines);
  }

  /** In particular every run on a new log whose syncs work verifies and holds exactly its appends, from number one. */
  lemma NewLogVerifies<K(!new)>(c: Crypto<K>, key: K, deviceId: string, ops: seq<LogOp>)
    requires Sound(c) && AllSynced(ops)
    ensures var end := RunLog(c, key, OpenOn(c, deviceId, []), ops);
            Holds(c, key, deviceId, end.lines, Notes(ops)) && end == OpenOn(c, deviceId, end.lines)
  {
    SyncedIsFine(ops);
    RunVerifies(c, key, OpenOn(c, deviceId, []), [], ops);
    assert [] + Notes(ops) == Notes(ops);
  }

  /** With working syncs, reopening at any point changes nothing: a run equals the run without its reopenings. */
  lemma {:induction false} ReopeningIsInvisible<K(!new)>(c: Crypto<K>, key: K, deviceId: string, ops: seq<LogOp>)
    requires Sound(c) && AllSynced(ops)
    ensures RunLog(c, key, OpenOn(c, deviceId, []), ops) ==
            RunLog(c, key, OpenOn(c, deviceId, []), Seqs.Filter(ops, IsAppend()))
  {
    if ops != [] {
      var init, op := ops[..|ops| - 1], ops[|ops| - 1];
      ReopeningIsInvisible(c, key, deviceId, init);
      NewLogVerifies(c, key, deviceId, init);
      if op.Append? {
        var kept := Seqs.Filter(init, IsAppend());
        assert (kept + [op])[..|kept|] == kept;
      }
    }
  }

  /**
   A failed sync costs the log: with a new log, one append that lands unsynced and another
   after it, the file no longer verifies; opened again in between, it does.
   */
  lemma FailedSyncBreaksChain<K(!new)>(c: Crypto<K>, key: K, deviceId: string, m: Note, n: Note)
    requires Sound(c)
    ensures Verify(c, key, RunLog(c, key, OpenOn(c, deviceId, []), [Append(m, Unsynced), Append(n, Synced)]).lines, "").Err?
    ensures Verify(c, key, RunLog(c, key, OpenOn(c, deviceId, []), [Append(m, Unsynced), Reopen, Append(n, Synced)]).lines, "").Ok?
  {
    var start, lost := OpenOn(c, deviceId, []), [Append(m, Unsynced)];
    RunLogSnoc(c, key, start, [], Append(m, Unsynced));
    RunLogSnoc(c, key, start, lost, Append(n, Synced));
    RunLogSnoc(c, key, start, lost, Reopen);
    RunLogSnoc(c, key, start, lost + [Reopen], Append(n, Synced));
    assert [] + lost == lost && lost + [Append(n, Synced)] == [Append(m, Unsynced), Append(n, Synced)];
    assert lost + [Reopen] + [Append(n, Synced)] == [Append(m, Unsynced), Reopen, Append(n, Synced)];
    AppendVerifiesIffCurrent(c, key, start.handle, m, []);
    EntriesSnoc([], Record(NewEntry(c, key, start.handle, m)));
    var st := RunLog(c, key, start, lost);
    AppendVerifiesIffCurrent(c, key, st.handle, n, st.lines);
    AppendVerifiesIffCurrent(c, key, OpenOn(c, deviceId, st.lines).handle, n, st.lines);
  }

  function IsAppend(): LogOp -> bool {
    (op: LogOp) => op.Append?
  }

  // ---------------------------------------------------------------------------
  // The log object
  // ---------------------------------------------------------------------------

  /** A file on disk; it may not exist yet. */
  class LogFile {
    var lines: seq<Line>
    var present: bool

    constructor ()
      ensures !present && lines == []
    {
      lines, present := [], false;
    }
  }

  /** `load_tail`: the hash and number of the last line that parses. */
  method LoadTail<K>(c: Crypto<K>, lines: seq<Line>) returns (lastHash: string, lastSeq: nat)
    ensures (lastHash, lastSeq) == Tail(c, lines)
    ensures (forall l :: l in lines ==> !l.Record?) ==> lastHash == "" && lastSeq == 0
    ensures forall i :: 0 <= i < |lines| && lines[i].Record? && (forall j :: i < j < |lines| ==> !lines[j].Record?) ==>
              lastHash == c.hash(lines[i].entry.body) && lastSeq == lines[i].entry.body.seqNo
  {
    lastHash, lastSeq := "", 0;
    for i := 0 to |lines|
      invariant (lastHash, lastSeq) == Tail(c, lines[..i])
      invariant (forall l :: l in lines[..i] ==> !l.Record?) ==> lastHash == "" && lastSeq == 0
      invariant forall p :: 0 <= p < i && lines[p].Record? && (forall j :: p < j < i ==> !lines[j].Record?) ==>
                  lastHash == c.hash(lines[p].entry.body) && lastSeq == lines[p].entry.body.seqNo
    {
      assert lines[..i + 1] == lines[..i] + [lines[i]];
      EntriesSnoc(lines[..i], lines[i]);
      if lines[i].Record? {
        lastHash, lastSeq := c.hash(lines[i].entry.body), lines[i].entry.body.seqNo;
      }
    }
    assert lines[..|lines|] == lines;
  }

  class AuditLog<K> {
    const c: Crypto<K>
    const key: K
    const file: LogFile
    var handle: Handle

    /** The log as a value: what is on disk and what is in memory. */
    ghost function State(): LogState
      reads this, file
    {
      LogState(file.lines, handle)
    }

    /** A handle on a file that was just written, as `merge` returns it. */
    constructor Resume(c: Crypto<K>, file: LogFile, key: K, handle: Handle)
      ensures this.c == c && this.key == key && this.file == file && this.handle == handle
    {
      this.c, this.key, this.file, this.handle := c, key, file, handle;
    }

    /** `append`; `landing` says what the file system makes of the line. */
    method Append(n: Note, landing: Landing) returns (r: Result<nat, AuditError>)
      modifies this, file
      ensures State() == StepLog(c, key, old(State()), LogOp.Append(n, landing))
      ensures r == if landing.Synced? then Ok(old(handle.lastSeq) + 1) else Err(Io)
      ensures file.present == old(file.present)
    {
      var seqNo := handle.lastSeq + 1;
      var body := Body(handle.deviceId, seqNo, n.timestamp, n.event, n.sessionKeyId, n.payload, handle.lastHash);
      var signed := Entry(body, c.sign(key, body));
      if landing.NotWritten? {
        return Err(Io);
      }
      file.lines := file.lines + [Record(signed)];
      if landing.Unsynced? {
        return Err(Io);
      }
      handle := handle.(lastHash := c.hash(signed.body), lastSeq := seqNo);
      r := Ok(seqNo);
    }

    /** `verify_chain`, line by line; the file may fail to open or to be read. */
    method VerifyChain(readable: bool) returns (r: Result<(), AuditError>)
      ensures r == if readable then Verify(c, key, file.lines, "") else Err(Io)
      ensures r.Ok? <==> readable && AllParse(file.lines) && Chained(c, key, Entries(file.lines))
      ensures readable && r.Err? ==> exists i: nat :: FirstFault(c, key, file.lines, i, r.error)
    {
      if !readable {
        return Err(Io);
      }
      VerifiesIffChained(c, key, file.lines);
      if Verify(c, key, file.lines, "").Err? {
        ghost var i := FirstFaultIsReported(c, key, file.lines);
      }
      var prev := "";
      for i := 0 to |file.lines|
        invariant Verify(c, key, file.lines, "") == Verify(c, key, file.lines[i..], prev)
      {
        var line := file.lines[i];
        if line.Garbage? {
          return Err(Json);
        }
        if line.Record? {
          var e := line.entry;
          if e.body.prevHash != prev {
            return Err(ChainHashMismatch(e.body.seqNo));
          }
          if !SignatureText(e.deviceSig) {
            return Err(Signature);
          }
          if !c.verify(key, e.body, e.deviceSig) {
            return Err(Tampered(e.body.seqNo));
          }
          prev := c.hash(e.body);
        }
      }
      r := Ok(());
    }
  }

  /** What the file system makes of an opening: the directory, a new file, reading an old one. */
  datatype OpenDisk = OpenDisk(directory: bool, creates: bool, readable: bool)

  /** `open`: an existing log is read through to its tail, a missing one created. */
  method Open<K>(c: Crypto<K>, file: LogFile, deviceId: string, key: K, disk: OpenDisk) returns (r: Result<AuditLog<K>, AuditError>)
    requires !file.present ==> file.lines == []
    modifies file
    ensures r.Ok? <==> disk.directory && if old(file.present) then disk.readable else disk.creates
    ensures r.Err? ==> r.error == Io && file.present == old(file.present)
    ensures file.lines == old(file.lines)
    ensures r.Ok? ==>
      && fresh(r.value) && r.value.c == c && r.value.key == key && r.value.file == file
      && file.present
      && r.value.State() == OpenOn(c, deviceId, file.lines)
  {
    if !disk.directory {
      return Err(Io);
    }
    var lastHash, lastSeq := "", 0;
    if file.present {
      if !disk.readable {
        return Err(Io);
      }
      lastHash, lastSeq := LoadTail(c, file.lines);
    } else {
      if !disk.creates {
        return Err(Io);
      }
      file.present := true;
    }
    var log := new AuditLog<K>.Resume(c, file, key, Handle(deviceId, lastHash, lastSeq));
    r := Ok(log);
  }
}
