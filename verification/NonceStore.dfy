/**
 The replay store of crates/oc-keyagent/src/nonce_store.rs: message hashes with an expiry
 second, collected when expired and capped in number. Requests are serialised, each one
 loading the file and saving it again.
 */
module NonceStore {
  import opened Results
  import opened Seqs

  const MAX_NONCE_ENTRIES: nat := 10_000
  const U64_MAX: nat := 0xFFFF_FFFF_FFFF_FFFF

  type Hashes = map<string, nat>

  datatype NonceFile = Missing | Empty | Corrupt | Unreadable | Saved(hashes: Hashes)

  datatype NonceError = Io | CorruptStore | Replay

  /** What a file holds that has not expired. */
  function Live(hashes: Hashes, now: nat): Hashes {
    map h | h in hashes && hashes[h] > now :: hashes[h]
  }

  function Load(file: NonceFile, now: nat): Result<Hashes, NonceError> {
    match file
    case Missing => Ok(map[])
    case Empty => Ok(map[])
    case Corrupt => Err(CorruptStore)
    case Unreadable => Err(Io)
    case Saved(hashes) => Ok(Live(hashes, now))
  }

  /** h is among those that expire first. */
  ghost predicate Oldest(hashes: Hashes, h: string) {
    h in hashes && forall x :: x in hashes ==> hashes[h] <= hashes[x]
  }

  /**
   One call of `consume`: its arguments, the clock when it loads and when it inserts, whether
   the save works, and the entry that goes if the store is full.
   */
  datatype Request = Request(hash: string, expires: nat, now: nat, later: nat, saved: bool, victim: string)

  function Max(x: nat, y: nat): nat {
    if x <= y then y else x
  }

  /** The expiry second that is stored: at least the next second. */
  function Expiry(q: Request): nat {
    Max(q.expires, if q.later < U64_MAX then q.later + 1 else U64_MAX)
  }

  predicate Full(live: Hashes) {
    |live| >= MAX_NONCE_ENTRIES
  }

  function Stored(live: Hashes, q: Request): Hashes {
    (if Full(live) then live - {q.victim} else live)[q.hash := Expiry(q)]
  }

  function Outcome(file: NonceFile, q: Request): Result<(), NonceError> {
    match Load(file, q.now)
    case Err(e) => Err(e)
    case Ok(live) => if q.hash in live then Err(Replay) else if q.saved then Ok(()) else Err(Io)
  }

  function After(file: NonceFile, q: Request): NonceFile {
    if Outcome(file, q).Ok? then Saved(Stored(Load(file, q.now).value, q)) else file
  }

  /**
   A hash that was just consumed is refused for the rest of that second at least, and for as
   long as the caller asked.
   */
  lemma RefusedUntilExpiry(file: NonceFile, q: Request, again: Request)
    requires Outcome(file, q).Ok? && again.hash == q.hash && q.later < U64_MAX
    ensures again.now <= q.later || again.now < q.expires ==> Outcome(After(file, q), again) == Err(Replay)
    ensures again.now > q.later && again.now >= q.expires && again.saved ==> Outcome(After(file, q), again).Ok?
  {
    assert Expiry(q) > q.later && Expiry(q) >= q.expires;
  }

  // ---------------------------------------------------------------------------
  // What a call does, in terms of the file alone
  // ---------------------------------------------------------------------------

  /** The file cannot be used: it does not parse, or cannot be read. */
  predicate Unusable(file: NonceFile) {
    file.Corrupt? || file.Unreadable?
  }

  /** The file holds the hash with an expiry still to come. */
  predicate Tracks(file: NonceFile, h: string, now: nat) {
    file.Saved? && h in file.hashes && file.hashes[h] > now
  }

  function Tracked(file: NonceFile, now: nat): set<string> {
    if file.Saved? then set h | h in file.hashes && file.hashes[h] > now else {}
  }

  /** A file that cannot be used is an error of its own; a tracked hash is a replay; only the save can fail else. */
  lemma OutcomeCases(file: NonceFile, q: Request)
    ensures file.Corrupt? <==> Outcome(file, q) == Err(CorruptStore)
    ensures file.Unreadable? ==> Outcome(file, q) == Err(Io)
    ensures Tracks(file, q.hash, q.now) <==> Outcome(file, q) == Err(Replay)
    ensures !Unusable(file) && !Tracks(file, q.hash, q.now) ==> Outcome(file, q) == if q.saved then Ok(()) else Err(Io)
    ensures Outcome(file, q).Err? ==> After(file, q) == file
  {
  }

  /**
   After a success the file holds the hash until the requested second, and beyond this one;
   of the others exactly the tracked ones with their expiry - all of them below 10,000, and
   all but the victim from there on.
   */
  lemma AfterCases(file: NonceFile, q: Request)
    requires Outcome(file, q).Ok?
    ensures After(file, q).Saved?
    ensures var hashes, next := After(file, q).hashes, if q.later < 0xFFFF_FFFF_FFFF_FFFF then q.later + 1 else 0xFFFF_FFFF_FFFF_FFFF;
            && q.hash in hashes && hashes[q.hash] == (if q.expires > next then q.expires else next)
            && (forall h :: h in hashes && h != q.hash ==> Tracks(file, h, q.now) && hashes[h] == file.hashes[h])
            && (forall h :: Tracks(file, h, q.now) ==> (h in hashes <==> |Tracked(file, q.now)| < 10_000 || h != q.victim))
  {
    var live := Load(file, q.now).value;
    assert live.Keys == Tracked(file, q.now);
    assert |live| == |live.Keys|;
  }

  /** The clock does not go back during the call, and a victim is picked as the code picks it. */
  ghost predicate Legal(file: NonceFile, q: Request) {
    && q.now <= q.later <= U64_MAX
    && (Outcome(file, q).Ok? && Full(Load(file, q.now).value) ==> Oldest(Load(file, q.now).value, q.victim))
  }

  lemma {:induction false} OldestExists(hashes: Hashes) returns (h: string)
    requires hashes != map[]
    ensures Oldest(hashes, h)
  {
    var x :| x in hashes;
    var rest := hashes - {x};
    if rest == map[] {
      assert forall y :: y in hashes ==> y == x || y in rest;
      h := x;
    } else {
      var y := OldestExists(rest);
      h := if hashes[x] <= hashes[y] then x else y;
      assert forall z :: z in hashes ==> z == x || z in rest;
    }
  }

  class NonceStore {
    var file: NonceFile

    method Consume(hash: string, expires: nat, now: nat, later: nat, saved: bool)
      returns (r: Result<(), NonceError>, ghost q: Request)
      requires now <= later <= U64_MAX
      modifies this
      ensures q == Request(hash, expires, now, later, saved, q.victim) && Legal(old(file), q)
      ensures r == Outcome(old(file), q) && file == After(old(file), q)
      ensures r == Err(CorruptStore) <==> old(file).Corrupt?
      ensures old(file).Unreadable? ==> r == Err(Io)
      ensures r == Err(Replay) <==> Tracks(old(file), hash, now)
      ensures r.Ok? <==> !Unusable(old(file)) && !Tracks(old(file), hash, now) && saved
      ensures r.Err? ==> file == old(file)
    {
      q := Request(hash, expires, now, later, saved, "");
      OutcomeCases(file, q);
      var loaded := Load(file, now);
      if loaded.Err? {
        return Err(loaded.error), q;
      }
      var live := loaded.value;
      if hash in live {
        return Err(Replay), q;
      }
      var kept := live;
      if |live| >= MAX_NONCE_ENTRIES {
        ghost var o := OldestExists(live);
        var oldest :| oldest in live && forall x :: x in live ==> live[oldest] <= live[x];
        kept := live - {oldest};
        q := q.(victim := oldest);
      }
      kept := kept[hash := Max(expires, if later < U64_MAX then later + 1 else U64_MAX)];
      if !saved {
        return Err(Io), q;
      }
      file := Saved(kept);
      r := Ok(());
    }

    method IsConsumed(hash: string, now: nat) returns (r: Result<bool, NonceError>)
      ensures file.Corrupt? ==> r == Err(CorruptStore)
      ensures file.Unreadable? ==> r == Err(Io)
      ensures r.Err? <==> file.Corrupt? || file.Unreadable?
      ensures r.Ok? ==> (r.value <==> file.Saved? && hash in file.hashes && file.hashes[hash] > now)
    {
      var loaded := Load(file, now);
      r := if loaded.Err? then Err(loaded.error) else Ok(hash in loaded.value);
    }
  }

  // ---------------------------------------------------------------------------
  // Runs
  // ---------------------------------------------------------------------------

  /** The file that request i finds; for i = |qs|, the file after the run. */
  function FileAt(file: NonceFile, qs: seq<Request>, i: nat): NonceFile
    requires i <= |qs|
  {
    if i == 0 then file else After(FileAt(file, qs, i - 1), qs[i - 1])
  }

  /** Request i turns the i-th of these files into the next. */
  predicate Follows(files: seq<NonceFile>, qs: seq<Request>, i: nat)
    requires i < |qs| && i + 1 < |files|
  {
    After(files[i], qs[i]) == files[i + 1]
  }

  lemma {:induction false} FileFollows(file: NonceFile, qs: seq<Request>, files: seq<NonceFile>, n: nat)
    requires |files| == |qs| + 1 && files[0] == file && n <= |qs|
    requires forall i: nat :: i < |qs| ==> Follows(files, qs, i)
    ensures FileAt(file, qs, n) == files[n]
    decreases n
  {
    if n > 0 {
      FileFollows(file, qs, files, n - 1);
      assert Follows(files, qs, n - 1);
    }
  }

  predicate Succeeds(file: NonceFile, qs: seq<Request>, i: nat)
    requires i < |qs|
  {
    Outcome(FileAt(file, qs, i), qs[i]).Ok?
  }

  ghost predicate LegalAt(file: NonceFile, qs: seq<Request>, i: nat)
    requires i < |qs|
  {
    Legal(FileAt(file, qs, i), qs[i])
  }

  ghost predicate LegalRun(file: NonceFile, qs: seq<Request>) {
    && (forall i: nat :: i < |qs| ==> LegalAt(file, qs, i))
    && (forall i, j :: 0 <= i < j < |qs| ==> qs[i].later <= qs[j].now)
  }

  /**
   The request throws h out while it is stored until e: the store holds the maximum of live
   entries, and none of them expires before e.
   */
  ghost predicate Evicts(file: NonceFile, q: Request, h: string, e: nat) {
    && Outcome(file, q).Ok?
    && q.victim == h
    && var live := Load(file, q.now).value;
       Full(live) && h in live && live[h] == e && forall x :: x in live ==> e <= live[x]
  }

  ghost predicate EvictsAt(file: NonceFile, qs: seq<Request>, j: nat, h: string, e: nat)
    requires j < |qs|
  {
    Evicts(FileAt(file, qs, j), qs[j], h, e)
  }

  ghost predicate Holds(file: NonceFile, h: string, e: nat) {
    file.Saved? && h in file.hashes && file.hashes[h] == e
  }

  /** One request keeps an unexpired hash or evicts it. */
  lemma StepKeepsOrEvicts(file: NonceFile, q: Request, h: string, e: nat)
    requires Legal(file, q) && Holds(file, h, e) && q.now < e
    ensures Holds(After(file, q), h, e) || Evicts(file, q, h, e)
  {
  }

  /** An evicted hash is gone. */
  lemma EvictedIsGone(file: NonceFile, q: Request, h: string, e: nat)
    requires Evicts(file, q, h, e)
    ensures After(file, q).Saved? && h !in After(file, q).hashes
  {
  }

  /** From a file that cannot be used no request succeeds, and none changes it. */
  lemma {:induction false} UnusableStays(file: NonceFile, qs: seq<Request>, n: nat)
    requires Unusable(file) && n <= |qs|
    ensures FileAt(file, qs, n) == file
    ensures n < |qs| ==> !Succeeds(file, qs, n)
    decreases n
  {
    if n > 0 {
      UnusableStays(file, qs, n - 1);
      OutcomeCases(file, qs[n - 1]);
    }
    if n < |qs| {
      OutcomeCases(file, qs[n]);
    }
  }

  lemma ConsumedIsHeld(file: NonceFile, qs: seq<Request>, i: nat)
    requires i < |qs| && Succeeds(file, qs, i)
    ensures Holds(FileAt(file, qs, i + 1), qs[i].hash, Expiry(qs[i]))
  {
  }

  lemma RequestKeepsOrEvicts(file: NonceFile, qs: seq<Request>, j: nat, h: string, e: nat)
    requires LegalRun(file, qs) && j < |qs| && qs[j].now < e && Holds(FileAt(file, qs, j), h, e)
    ensures Holds(FileAt(file, qs, j + 1), h, e) || EvictsAt(file, qs, j, h, e)
  {
    assert LegalAt(file, qs, j);
    StepKeepsOrEvicts(FileAt(file, qs, j), qs[j], h, e);
  }

  lemma ClockRuns(file: NonceFile, qs: seq<Request>, j: nat, k: nat)
    requires LegalRun(file, qs) && j < k < |qs|
    ensures qs[j].now <= qs[k].now
  {
    assert LegalAt(file, qs, j);
  }

  /** Until it expires, a stored hash stays in the file with its expiry, or some request evicts it. */
  lemma {:induction false} StaysOrIsEvicted(file: NonceFile, qs: seq<Request>, i: nat, k: nat, h: string, e: nat) returns (evictedAt: Option<nat>)
    requires LegalRun(file, qs) && i < k < |qs|
    requires Holds(FileAt(file, qs, i + 1), h, e) && qs[k].now < e
    ensures evictedAt.None? ==> Holds(FileAt(file, qs, k), h, e)
    ensures evictedAt.Some? ==> i < evictedAt.value < k && EvictsAt(file, qs, evictedAt.value, h, e)
  {
    if k == i + 1 {
      evictedAt := None;
    } else {
      ClockRuns(file, qs, k - 1, k);
      evictedAt := StaysOrIsEvicted(file, qs, i, k - 1, h, e);
      if evictedAt.None? {
        RequestKeepsOrEvicts(file, qs, k - 1, h, e);
        if EvictsAt(file, qs, k - 1, h, e) {
          evictedAt := Some(k - 1);
        }
      }
    }
  }

  /**
   Single use. When the same hash is consumed twice and the second time comes before the
   expiry stored the first time, then a request in between evicted it from a full store in
   which every live entry expired no earlier.
   */
  lemma ReplayNeedsEviction(file: NonceFile, qs: seq<Request>, i: nat, k: nat) returns (j: nat)
    requires LegalRun(file, qs) && i < k < |qs| && qs[i].hash == qs[k].hash
    requires Succeeds(file, qs, i) && Succeeds(file, qs, k)
    requires qs[k].now < Expiry(qs[i])
    ensures i < j < k && EvictsAt(file, qs, j, qs[i].hash, Expiry(qs[i]))
  {
    ConsumedIsHeld(file, qs, i);
    var evictedAt := StaysOrIsEvicted(file, qs, i, k, qs[i].hash, Expiry(qs[i]));
    j := evictedAt.value;
  }

  /** A hash that left the file stays out as long as no request consumes it. */
  lemma {:induction false} StaysOut(file: NonceFile, qs: seq<Request>, j: nat, k: nat, h: string)
    requires j <= k <= |qs|
    requires FileAt(file, qs, j).Saved? && h !in FileAt(file, qs, j).hashes
    requires forall m: nat :: j <= m < k && qs[m].hash == h ==> !Succeeds(file, qs, m)
    ensures FileAt(file, qs, k).Saved? && h !in FileAt(file, qs, k).hashes
  {
    if k > j {
      StaysOut(file, qs, j, k - 1, h);
    }
  }

  /** As long as no request consumes it again, a consumed hash is in the file with its expiry, or not at all. */
  lemma {:induction false} HeldWithExpiryOrOut(file: NonceFile, qs: seq<Request>, i: nat, k: nat)
    requires i < k <= |qs| && Succeeds(file, qs, i)
    requires forall m: nat :: i < m < k && qs[m].hash == qs[i].hash ==> !Succeeds(file, qs, m)
    ensures var f := FileAt(file, qs, k);
            f.Saved? && (qs[i].hash in f.hashes ==> f.hashes[qs[i].hash] == Expiry(qs[i]))
  {
    if k == i + 1 {
      ConsumedIsHeld(file, qs, i);
    } else {
      HeldWithExpiryOrOut(file, qs, i, k - 1);
      assert qs[k - 1].hash == qs[i].hash ==> !Succeeds(file, qs, k - 1);
    }
  }

  lemma EvictedIsAcceptedAgain(file: NonceFile, qs: seq<Request>, j: nat, k: nat, e: nat)
    requires j < k < |qs| && EvictsAt(file, qs, j, qs[k].hash, e) && qs[k].saved
    requires forall m: nat :: j < m < k && qs[m].hash == qs[k].hash ==> !Succeeds(file, qs, m)
    ensures Succeeds(file, qs, k)
  {
    EvictedIsGone(FileAt(file, qs, j), qs[j], qs[k].hash, e);
    StaysOut(file, qs, j + 1, k, qs[k].hash);
  }

  /**
   Exactly when a replay gets through. A second presentation before the stored expiry, with a
   working disk and no other success for the hash in between, is accepted if and only if the
   hash was evicted in between.
   */
  lemma ReplayAcceptedIffEvicted(file: NonceFile, qs: seq<Request>, i: nat, k: nat)
    requires LegalRun(file, qs) && i < k < |qs| && qs[i].hash == qs[k].hash
    requires Succeeds(file, qs, i) && qs[k].now < Expiry(qs[i]) && qs[k].saved
    requires forall m: nat :: i < m < k && qs[m].hash == qs[i].hash ==> !Succeeds(file, qs, m)
    ensures Succeeds(file, qs, k) <==> exists j: nat :: i < j < k && EvictsAt(file, qs, j, qs[i].hash, Expiry(qs[i]))
  {
    if Succeeds(file, qs, k) {
      var j := ReplayNeedsEviction(file, qs, i, k);
    }
    if j: nat :| i < j < k && EvictsAt(file, qs, j, qs[i].hash, Expiry(qs[i])) {
      EvictedIsAcceptedAgain(file, qs, j, k, Expiry(qs[i]));
    }
  }

  ghost predicate WithinCap(file: NonceFile) {
    file.Saved? ==> |file.hashes| <= MAX_NONCE_ENTRIES
  }

  lemma LiveIsSmaller(hashes: Hashes, now: nat)
    ensures |Live(hashes, now)| <= |hashes|
  {
    SubsetSize(Live(hashes, now).Keys, hashes.Keys);
  }

  lemma StepStaysWithinCap(file: NonceFile, q: Request)
    requires WithinCap(file) && Legal(file, q)
    ensures WithinCap(After(file, q))
  {
    if file.Saved? {
      LiveIsSmaller(file.hashes, q.now);
    }
    if Outcome(file, q).Ok? && Full(Load(file, q.now).value) {
      var live := Load(file, q.now).value;
      assert (live - {q.victim}).Keys == live.Keys - {q.victim};
    }
  }

  /** The store never grows past its cap. */
  lemma {:induction false} StaysWithinCap(file: NonceFile, qs: seq<Request>, n: nat)
    requires WithinCap(file) && LegalRun(file, qs) && n <= |qs|
    ensures WithinCap(FileAt(file, qs, n))
  {
    if n > 0 {
      StaysWithinCap(file, qs, n - 1);
      assert LegalAt(file, qs, n - 1);
      StepStaysWithinCap(FileAt(file, qs, n - 1), qs[n - 1]);
    }
  }

  // ---------------------------------------------------------------------------
  // A replay that gets through
  // ---------------------------------------------------------------------------

  /** One entry short of full, all of them expiring at second 100. */
  ghost predicate NearlyFull(hashes: Hashes) {
    && |hashes| + 1 == MAX_NONCE_ENTRIES
    && "h" !in hashes && "x" !in hashes
    && forall h :: h in hashes ==> hashes[h] == 100
  }

  function Filler(n: nat): Hashes {
    if n == 0 then map[] else Filler(n - 1)[seq(n, _ => 'f') := 100]
  }

  lemma {:induction false} FillerShape(n: nat)
    ensures |Filler(n)| == n
    ensures forall h :: h in Filler(n) ==> Filler(n)[h] == 100 && 0 < |h| <= n && h[0] == 'f'
  {
    if n > 0 {
      FillerShape(n - 1);
    }
  }

  lemma NearlyFullExists() returns (hashes: Hashes)
    ensures NearlyFull(hashes)
  {
    var n: nat :| n + 1 == MAX_NONCE_ENTRIES;
    FillerShape(n);
    hashes := Filler(n);
  }

  lemma KeepsAll(hashes: Hashes, now: nat)
    requires forall h :: h in hashes ==> hashes[h] > now
    ensures Live(hashes, now) == hashes
  {
  }

  lemma ConsumesH(hashes: Hashes, q: Request)
    requires NearlyFull(hashes) && q == Request("h", 50, 0, 0, true, "")
    ensures Outcome(Saved(hashes), q).Ok? && Legal(Saved(hashes), q)
    ensures After(Saved(hashes), q) == Saved(hashes["h" := 50])
  {
    KeepsAll(hashes, 0);
  }

  lemma EvictsH(hashes: Hashes, q: Request)
    requires NearlyFull(hashes) && q == Request("x", 200, 1, 1, true, "h")
    ensures Outcome(Saved(hashes["h" := 50]), q).Ok? && Legal(Saved(hashes["h" := 50]), q)
    ensures After(Saved(hashes["h" := 50]), q) == Saved(hashes["x" := 200])
  {
    KeepsAll(hashes["h" := 50], 1);
    assert hashes["h" := 50] - {"h"} == hashes;
  }

  lemma ConsumesHAgain(hashes: Hashes) returns (q: Request)
    requires NearlyFull(hashes)
    ensures q == Request("h", 50, 2, 2, true, q.victim)
    ensures Outcome(Saved(hashes["x" := 200]), q).Ok? && Legal(Saved(hashes["x" := 200]), q)
  {
    assert "x" in hashes["x" := 200];
    var victim := OldestExists(hashes["x" := 200]);
    KeepsAll(hashes["x" := 200], 2);
    q := Request("h", 50, 2, 2, true, victim);
  }

  /**
   Single use does fail: in a store one short of full, "h" is consumed until second 50, the
   next request evicts it as the entry that expires first, and at second 2 it is accepted again.
   */
  lemma ReplayGetsThrough() returns (file: NonceFile, qs: seq<Request>)
    ensures WithinCap(file) && |qs| == 3 && LegalRun(file, qs)
    ensures Succeeds(file, qs, 0) && Succeeds(file, qs, 1) && Succeeds(file, qs, 2)
    ensures qs[2].hash == qs[0].hash && qs[2].now < Expiry(qs[0])
  {
    var hashes := NearlyFullExists();
    var again := ConsumesHAgain(hashes);
    file, qs := Saved(hashes), [Request("h", 50, 0, 0, true, ""), Request("x", 200, 1, 1, true, "h"), again];
    ConsumesH(hashes, qs[0]);
    EvictsH(hashes, qs[1]);
    assert FileAt(file, qs, 1) == Saved(hashes["h" := 50]);
    assert FileAt(file, qs, 2) == Saved(hashes["x" := 200]);
    assert LegalAt(file, qs, 0) && LegalAt(file, qs, 1) && LegalAt(file, qs, 2);
  }
}
