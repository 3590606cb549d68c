/**
 What the recency list promises over whole runs: who may be evicted, who must be kept, and
 how large it gets.
 */
module CacheRuns {
  import opened Results
  import opened Seqs
  import opened RecencyList

  /** One call under the mutex, and the instant it reads from the clock. */
  datatype Event<V> = Event(op: Op<V>, at: nat)

  function Step<V>(l: seq<Slot<V>>, e: Event<V>, c: Config): seq<Slot<V>> {
    match e.op
    case Get(id) => AfterGet(l, id, e.at, c)
    case Insert(id, key) => AfterInsert(l, id, key, e.at, c)
    case Clear => []
    case EvictExpired => Unexpired(l, e.at, c.ttl)
  }

  /** The list after a run of calls on a new cache. */
  function Run<V>(run: seq<Event<V>>, c: Config): seq<Slot<V>> {
    if run == [] then [] else Step(Run(run[..|run| - 1], c), run[|run| - 1], c)
  }

  /** The id a call touches: any insertion, or a lookup that hits. */
  function Touch<V>(l: seq<Slot<V>>, e: Event<V>, c: Config): Option<string> {
    match e.op
    case Get(id) => if Hit(l, id, e.at, c) then Some(id) else None
    case Insert(id, _) => Some(id)
    case _ => None
  }

  function TouchAt<V>(run: seq<Event<V>>, i: nat, c: Config): Option<string>
    requires i < |run|
  {
    Touch(Run(run[..i], c), run[i], c)
  }

  /** The ids touched by the calls after j and before k. */
  ghost function TouchedSince<V>(run: seq<Event<V>>, j: nat, k: nat, c: Config): set<string>
    requires j < k <= |run|
  {
    if k == j + 1 then {}
    else TouchedSince(run, j, k - 1, c) + Touches(TouchAt(run, k - 1, c))
  }

  function Touches(t: Option<string>): set<string> {
    if t.Some? then {t.value} else {}
  }

  /** Call j is the last one among the first k to touch id. */
  ghost predicate LastTouch<V>(run: seq<Event<V>>, j: nat, k: nat, id: string, c: Config) {
    && j < k <= |run|
    && TouchAt(run, j, c) == Some(id)
    && forall i :: j < i < k ==> TouchAt(run, i, c) != Some(id)
  }

  ghost predicate ClockRuns<V>(run: seq<Event<V>>) {
    forall i, j :: 0 <= i < j < |run| ==> run[i].at <= run[j].at
  }

  // ---------------------------------------------------------------------------
  // Shape
  // ---------------------------------------------------------------------------

  lemma StepKeepsDistinct<V>(l: seq<Slot<V>>, e: Event<V>, c: Config)
    requires Distinct(l)
    ensures Distinct(Step(l, e, c))
  {
    match e.op
    case Get(id) =>
      FilterKeepsShape(l, OtherThan(id));
      FilterMembers(l, OtherThan(id));
      assert forall i :: 0 <= i < |Without(l, id)| ==> Without(l, id)[i] in Without(l, id);
    case Insert(id, key) =>
      OthersShape(l, id, e.at, c);
    case Clear =>
    case EvictExpired =>
      FilterKeepsShape(l, LiveAt(e.at, c.ttl));
  }

  /** The slots an insertion leaves are slots of the list, live, in order and not its own. */
  lemma OthersShape<V>(l: seq<Slot<V>>, id: string, now: nat, c: Config)
    ensures Distinct(l) ==> Distinct(Others(l, id, now, c))
    ensures Ordered(l) ==> Ordered(Others(l, id, now, c))
    ensures forall s :: s in Others(l, id, now, c) ==> s in l && s.id != id && !Expired(s, now, c.ttl)
    ensures forall s :: s in l && s.id != id && !Expired(s, now, c.ttl) ==> s in Others(l, id, now, c)
    ensures forall i :: 0 <= i < |Others(l, id, now, c)| ==> Others(l, id, now, c)[i].id != id
  {
    var live := Unexpired(l, now, c.ttl);
    FilterKeepsShape(l, LiveAt(now, c.ttl));
    FilterMembers(l, LiveAt(now, c.ttl));
    FilterKeepsShape(live, OtherThan(id));
    FilterMembers(live, OtherThan(id));
    forall i | 0 <= i < |Others(l, id, now, c)| ensures Others(l, id, now, c)[i].id != id {
      assert Others(l, id, now, c)[i] in Others(l, id, now, c);
    }
  }

  /** No id is ever held twice and the size stays within max(1, max_entries). */
  lemma {:induction false} RunShape<V>(run: seq<Event<V>>, c: Config)
    ensures Distinct(Run(run, c))
    ensures |Run(run, c)| <= Max(1, c.maxEntries)
  {
    if run != [] {
      RunShape(run[..|run| - 1], c);
      StepKeepsDistinct(Run(run[..|run| - 1], c), run[|run| - 1], c);
      var l, e := Run(run[..|run| - 1], c), run[|run| - 1];
      if e.op.Get? && Hit(l, e.op.id, e.at, c) {
        WithoutLength(l, e.op.id);
      }
    }
  }

  /** Sorted by last access, and none in the future. */
  ghost predicate UpTo<V>(l: seq<Slot<V>>, now: nat) {
    Ordered(l) && forall i :: 0 <= i < |l| ==> l[i].last <= now
  }

  lemma FilterUpTo<V>(l: seq<Slot<V>>, p: Slot<V> -> bool, now: nat)
    requires UpTo(l, now)
    ensures UpTo(Filter(l, p), now)
  {
    FilterKeepsShape(l, p);
    FilterMembers(l, p);
    forall i | 0 <= i < |Filter(l, p)| ensures Filter(l, p)[i].last <= now {
      assert Filter(l, p)[i] in l;
    }
  }

  lemma StepUpTo<V>(l: seq<Slot<V>>, e: Event<V>, c: Config)
    requires UpTo(l, e.at)
    ensures UpTo(Step(l, e, c), e.at)
  {
    match e.op
    case Get(id) =>
      FilterUpTo(l, OtherThan(id), e.at);
    case Insert(id, _) =>
      FilterUpTo(l, LiveAt(e.at, c.ttl), e.at);
      FilterUpTo(Unexpired(l, e.at, c.ttl), OtherThan(id), e.at);
    case Clear =>
    case EvictExpired =>
      FilterUpTo(l, LiveAt(e.at, c.ttl), e.at);
  }

  /** With a clock that never runs backwards the list is sorted by last access. */
  lemma {:induction false} RunOrdered<V>(run: seq<Event<V>>, c: Config, now: nat)
    requires ClockRuns(run) && (run != [] ==> run[|run| - 1].at <= now)
    ensures UpTo(Run(run, c), now)
  {
    if run != [] {
      var init, e := run[..|run| - 1], run[|run| - 1];
      RunOrdered(init, c, e.at);
      StepUpTo(Run(init, c), e, c);
    }
  }

  /** The expired slots are exactly the first k of the list, for some k. */
  lemma {:induction false} ExpiredPrefix<V>(l: seq<Slot<V>>, now: nat, ttl: nat) returns (k: nat)
    requires Ordered(l)
    ensures k <= |l|
    ensures forall i :: 0 <= i < |l| ==> (Expired(l[i], now, ttl) <==> i < k)
    ensures Unexpired(l, now, ttl) == l[k..]
  {
    if l == [] {
      k := 0;
    } else {
      var init := l[..|l| - 1];
      k := ExpiredPrefix(init, now, ttl);
      if Expired(l[|l| - 1], now, ttl) {
        k := |l|;
        assert forall i :: 0 <= i < |init| ==> init[i].last <= l[|l| - 1].last;
      } else {
        assert init[k..] + [l[|l| - 1]] == l[k..];
      }
    }
  }

  /** In every run, expiry is a cut through the recency order. */
  lemma RunExpiresFromTheFront<V>(run: seq<Event<V>>, c: Config, now: nat) returns (k: nat)
    requires ClockRuns(run) && (run != [] ==> run[|run| - 1].at <= now)
    ensures k <= |Run(run, c)|
    ensures forall i :: 0 <= i < |Run(run, c)| ==> (Expired(Run(run, c)[i], now, c.ttl) <==> i < k)
    ensures Unexpired(Run(run, c), now, c.ttl) == Run(run, c)[k..]
  {
    RunOrdered(run, c, now);
    k := ExpiredPrefix(Run(run, c), now, c.ttl);
  }

  // ---------------------------------------------------------------------------
  // Who comes after whom
  // ---------------------------------------------------------------------------

  /** The ids that stand behind id, that is, were used more recently. */
  ghost function Behind<V>(l: seq<Slot<V>>, id: string): set<string> {
    if l == [] || l[|l| - 1].id == id then {}
    else if id in Ids(l[..|l| - 1]) then Behind(l[..|l| - 1], id) + {l[|l| - 1].id}
    else {}
  }

  lemma {:induction false} FilterBehind<V>(l: seq<Slot<V>>, p: Slot<V> -> bool, id: string)
    requires id in Ids(Filter(l, p)) && Distinct(l)
    ensures Behind(Filter(l, p), id) <= Behind(l, id)
  {
    var init, s := l[..|l| - 1], l[|l| - 1];
    FilterMembers(init, p);
    assert l == init + [s];
    if s.id == id {
      assert id !in Ids(init);
      FilterMembers(l, p);
    } else if p(s) {
      var f := Filter(init, p);
      IdsOfConcat(f, [s]);
      assert (f + [s])[..|f|] == f;
      FilterBehind(init, p, id);
      assert id in Ids(init);
    } else {
      FilterBehind(init, p, id);
      assert id in Ids(init);
    }
  }

  lemma BehindSnoc<V>(l: seq<Slot<V>>, s: Slot<V>, id: string)
    ensures s.id == id ==> Behind(l + [s], id) == {}
    ensures s.id != id ==> Behind(l + [s], id) <= Behind(l, id) + {s.id}
  {
    assert (l + [s])[..|l|] == l;
  }

  lemma {:induction false} BehindTail<V>(l: seq<Slot<V>>, id: string)
    requires l != [] && id in Ids(l[1..])
    ensures Behind(l[1..], id) <= Behind(l, id)
  {
    var tail := l[1..];
    var init := l[..|l| - 1];
    assert tail[..|tail| - 1] == init[1..];
    if tail[|tail| - 1].id != id && id in Ids(tail[..|tail| - 1]) {
      BehindTail(init, id);
      assert id in Ids(init);
    }
  }

  lemma {:induction false} BehindHead<V>(l: seq<Slot<V>>)
    requires Distinct(l) && l != []
    ensures Behind(l, l[0].id) == Ids(l[1..])
  {
    if |l| > 1 {
      var init := l[..|l| - 1];
      BehindHead(init);
      assert l[0] in init;
      assert l[1..] == init[1..] + [l[|l| - 1]];
      IdsOfConcat(init[1..], [l[|l| - 1]]);
    }
  }

  /** A call that does not touch id moves at most the id it touches behind it. */
  lemma StepBehind<V>(l: seq<Slot<V>>, e: Event<V>, c: Config, id: string)
    requires Distinct(l)
    requires Touch(l, e, c) != Some(id)
    requires id in Ids(Step(l, e, c))
    ensures id in Ids(l)
    ensures Behind(Step(l, e, c), id) <= Behind(l, id) + Touches(Touch(l, e, c))
  {
    match e.op
    case Get(y) =>
      var w := Without(l, y);
      FilterMembers(l, OtherThan(y));
      if Hit(l, y, e.at, c) {
        var s := Slot(y, Find(l, y).value.key, e.at);
        IdsOfConcat(w, [s]);
        BehindSnoc(w, s, id);
      }
      FilterBehind(l, OtherThan(y), id);
    case Insert(y, key) =>
      var live := Unexpired(l, e.at, c.ttl);
      var o := Others(l, y, e.at, c);
      OthersShape(l, y, e.at, c);
      FilterKeepsShape(l, LiveAt(e.at, c.ttl));
      FilterMembers(live, OtherThan(y));
      var kept := Shrunk(o, c.maxEntries);
      IdsOfConcat(kept, [Slot(y, key, e.at)]);
      BehindSnoc(kept, Slot(y, key, e.at), id);
      if kept != o {
        assert id in Ids(o[1..]);
        BehindTail(o, id);
      }
      FilterBehind(live, OtherThan(y), id);
      FilterBehind(l, LiveAt(e.at, c.ttl), id);
    case Clear =>
    case EvictExpired =>
      FilterMembers(l, LiveAt(e.at, c.ttl));
      FilterBehind(l, LiveAt(e.at, c.ttl), id);
  }

  lemma RunSnoc<V>(run: seq<Event<V>>, e: Event<V>, c: Config)
    ensures Run(run + [e], c) == Step(Run(run, c), e, c)
  {
    assert (run + [e])[..|run|] == run;
  }

  lemma RunInsert<V>(run: seq<Event<V>>, id: string, key: V, now: nat, c: Config)
    ensures Run(run + [Event(Op.Insert(id, key), now)], c) == AfterInsert(Run(run, c), id, key, now, c)
  {
    RunSnoc(run, Event(Op.Insert(id, key), now), c);
  }

  lemma RunPrefix<V>(run: seq<Event<V>>, k: nat, c: Config)
    requires k < |run|
    ensures Run(run[..k + 1], c) == Step(Run(run[..k], c), run[k], c)
  {
    assert run[..k + 1][..k] == run[..k];
  }

  /** Right after its touch an id stands at the recent end. */
  lemma TouchMovesToEnd<V>(l: seq<Slot<V>>, e: Event<V>, c: Config, id: string)
    requires Touch(l, e, c) == Some(id)
    ensures Step(l, e, c) != []
    ensures var s := Step(l, e, c)[|Step(l, e, c)| - 1]; s.id == id && s.last == e.at
    ensures Behind(Step(l, e, c), id) == {} && id in Ids(Step(l, e, c))
  {
    var m := Step(l, e, c);
    assert m[|m| - 1] in m;
  }

  lemma {:induction false} NeverTouched<V>(run: seq<Event<V>>, j: nat, k: nat, c: Config, id: string)
    requires LastTouch(run, j, k, id, c)
    ensures id !in TouchedSince(run, j, k, c)
  {
    if k > j + 1 {
      NeverTouched(run, j, k - 1, c, id);
    }
  }

  /** Whatever stands behind id was touched after it. */
  lemma {:induction false} BehindWasTouched<V>(run: seq<Event<V>>, j: nat, k: nat, c: Config, id: string)
    requires LastTouch(run, j, k, id, c)
    requires id in Ids(Run(run[..k], c))
    ensures Behind(Run(run[..k], c), id) <= TouchedSince(run, j, k, c)
  {
    RunPrefix(run, k - 1, c);
    var l, e := Run(run[..k - 1], c), run[k - 1];
    if k == j + 1 {
      TouchMovesToEnd(l, e, c, id);
    } else {
      RunShape(run[..k - 1], c);
      assert TouchAt(run, k - 1, c) == Touch(l, e, c);
      StepBehind(l, e, c, id);
      BehindWasTouched(run, j, k - 1, c, id);
    }
  }

  // ---------------------------------------------------------------------------
  // Eviction and retention
  // ---------------------------------------------------------------------------

  /** A live slot that an insertion pushes out is the head of what is left, and the list is at capacity. */
  lemma VictimIsHead<V>(l: seq<Slot<V>>, y: string, key: V, now: nat, c: Config, s: Slot<V>)
    requires s in l && s.id != y && !Expired(s, now, c.ttl)
    requires s !in AfterInsert(l, y, key, now, c)
    ensures var o := Others(l, y, now, c); o != [] && s == o[0] && |o| >= c.maxEntries
  {
    var o := Others(l, y, now, c);
    OthersShape(l, y, now, c);
    assert s in o;
    assert o == [o[0]] + o[1..];
  }

  /** With distinct ids, the head of what an insertion leaves has all the rest behind it in the list. */
  lemma RestIsBehindHead<V>(l: seq<Slot<V>>, y: string, now: nat, c: Config)
    requires Distinct(l) && Others(l, y, now, c) != []
    ensures var o := Others(l, y, now, c); Ids(o[1..]) <= Behind(l, o[0].id)
  {
    var o, live := Others(l, y, now, c), Unexpired(l, now, c.ttl);
    OthersShape(l, y, now, c);
    BehindHead(o);
    FilterKeepsShape(l, LiveAt(now, c.ttl));
    FilterMembers(live, OtherThan(y));
    assert o[0] in o && o[0] in live;
    assert o[0].id in Ids(o) && o[0].id in Ids(live);
    FilterBehind(live, OtherThan(y), o[0].id);
    FilterBehind(l, LiveAt(now, c.ttl), o[0].id);
  }

  /** So at least max_entries ids stand behind a victim, counting the one that pushes it out. */
  lemma VictimIsFarBack<V>(l: seq<Slot<V>>, y: string, key: V, now: nat, c: Config, s: Slot<V>)
    requires Distinct(l) && s in l && s.id != y && !Expired(s, now, c.ttl)
    requires s !in AfterInsert(l, y, key, now, c)
    ensures |Behind(l, s.id) + {y}| >= c.maxEntries
  {
    var o := Others(l, y, now, c);
    VictimIsHead(l, y, key, now, c, s);
    OthersShape(l, y, now, c);
    DistinctCount(o[1..]);
    assert y !in Ids(o[1..]);
    RestIsBehindHead(l, y, now, c);
    SubsetSize(Ids(o[1..]) + {y}, Behind(l, s.id) + {y});
  }

  /** An id that is there and was not just touched was there before. */
  lemma StepBringsNoOther<V>(l: seq<Slot<V>>, e: Event<V>, c: Config, id: string)
    requires Touch(l, e, c) != Some(id) && id in Ids(Step(l, e, c))
    ensures id in Ids(l)
  {
    var m := Step(l, e, c);
    var s :| s in m && s.id == id;
    match e.op
    case Get(y) => FilterMembers(l, OtherThan(y));
    case Insert(y, _) => OthersShape(l, y, e.at, c);
    case Clear =>
    case EvictExpired => FilterMembers(l, LiveAt(e.at, c.ttl));
  }

  lemma {:induction false} LastTouchExists<V>(run: seq<Event<V>>, k: nat, c: Config, id: string) returns (j: nat)
    requires 0 < k <= |run| && id in Ids(Run(run[..k], c))
    ensures LastTouch(run, j, k, id, c)
  {
    if TouchAt(run, k - 1, c) == Some(id) {
      j := k - 1;
    } else {
      HeldBefore(run, k, c, id);
      j := LastTouchExists(run, k - 1, c, id);
    }
  }

  lemma HeldBefore<V>(run: seq<Event<V>>, k: nat, c: Config, id: string)
    requires 0 < k <= |run| && id in Ids(Run(run[..k], c))
    requires TouchAt(run, k - 1, c) != Some(id)
    ensures k > 1 && id in Ids(Run(run[..k - 1], c))
  {
    RunPrefix(run, k - 1, c);
    StepBringsNoOther(Run(run[..k - 1], c), run[k - 1], c, id);
    assert run[..0] == [];
  }

  /**
   Strict LRU. If the k-th call pushes out an id whose slot had not expired, then at least
   max_entries different other ids were touched since that id's own last touch.
   */
  lemma LostOnlyToNewerIds<V>(run: seq<Event<V>>, k: nat, c: Config, s: Slot<V>) returns (j: nat)
    requires k < |run| && run[k].op.Insert? && run[k].op.id != s.id
    requires s in Run(run[..k], c) && !Expired(s, run[k].at, c.ttl)
    requires s.id !in Ids(Run(run[..k + 1], c))
    ensures LastTouch(run, j, k + 1, s.id, c)
    ensures |TouchedSince(run, j, k + 1, c) - {s.id}| >= c.maxEntries
  {
    var l, y := Run(run[..k], c), run[k].op.id;
    RunPrefix(run, k, c);
    RunShape(run[..k], c);
    assert s.id in Ids(l);
    assert run[..0] == [];
    j := LastTouchExists(run, k, c, s.id);
    BehindWasTouched(run, j, k, c, s.id);
    VictimIsFarBack(l, y, run[k].op.key, run[k].at, c, s);
    assert TouchAt(run, k, c) == Some(y);
    NeverTouched(run, j, k + 1, c, s.id);
    SubsetSize(Behind(l, s.id) + {y}, TouchedSince(run, j, k + 1, c) - {s.id});
  }

  /** With a clock that never runs backwards, the slot pushed out is one of the longest idle. */
  lemma LostIsLongestIdle<V>(run: seq<Event<V>>, k: nat, c: Config, s: Slot<V>)
    requires ClockRuns(run)
    requires k < |run| && run[k].op.Insert? && run[k].op.id != s.id
    requires s in Run(run[..k], c) && !Expired(s, run[k].at, c.ttl)
    requires s.id !in Ids(Run(run[..k + 1], c))
    ensures forall o :: o in Run(run[..k], c) && o.id != run[k].op.id && !Expired(o, run[k].at, c.ttl) ==> s.last <= o.last
  {
    RunPrefix(run, k, c);
    RunOrdered(run[..k], c, run[k].at);
    var l, y := Run(run[..k], c), run[k].op.id;
    VictimIsHead(l, y, run[k].op.key, run[k].at, c, s);
    OthersShape(l, y, run[k].at, c);
  }

  lemma StepRetains<V>(l: seq<Slot<V>>, e: Event<V>, c: Config, s: Slot<V>, touched: set<string>)
    requires Distinct(l) && s in l
    requires Touch(l, e, c) != Some(s.id) && !e.op.Clear? && !Expired(s, e.at, c.ttl)
    requires Behind(l, s.id) + Touches(Touch(l, e, c)) <= touched && |touched| < c.maxEntries
    ensures s in Step(l, e, c)
  {
    SubsetSize(Behind(l, s.id) + Touches(Touch(l, e, c)), touched);
    match e.op
    case Get(y) =>
      FindUnique(l, s);
      FilterMembers(l, OtherThan(y));
    case Insert(y, key) =>
      if s !in AfterInsert(l, y, key, e.at, c) {
        VictimIsFarBack(l, y, key, e.at, c, s);
      }
    case EvictExpired =>
      FilterMembers(l, LiveAt(e.at, c.ttl));
  }

  /** The slot is held just before call k. */
  ghost predicate HeldAt<V>(run: seq<Event<V>>, k: nat, c: Config, s: Slot<V>)
    requires k <= |run|
  {
    s in Run(run[..k], c)
  }

  lemma RetainedOnce<V>(run: seq<Event<V>>, k: nat, c: Config, s: Slot<V>, touched: set<string>)
    requires k < |run| && HeldAt(run, k, c, s)
    requires TouchAt(run, k, c) != Some(s.id) && !run[k].op.Clear? && !Expired(s, run[k].at, c.ttl)
    requires Behind(Run(run[..k], c), s.id) + Touches(TouchAt(run, k, c)) <= touched && |touched| < c.maxEntries
    ensures HeldAt(run, k + 1, c, s)
  {
    RunShape(run[..k], c);
    StepRetains(Run(run[..k], c), run[k], c, s, touched);
    RunPrefix(run, k, c);
  }

  lemma HeldBehindTouched<V>(run: seq<Event<V>>, j: nat, k: nat, c: Config, s: Slot<V>)
    requires LastTouch(run, j, k, s.id, c) && HeldAt(run, k, c, s)
    ensures Behind(Run(run[..k], c), s.id) <= TouchedSince(run, j, k, c)
  {
    assert s.id in Ids(Run(run[..k], c));
    BehindWasTouched(run, j, k, c, s.id);
  }

  /** No call after j and before k clears the cache or comes after the slot's idle time. */
  ghost predicate Spared<V>(run: seq<Event<V>>, j: nat, k: nat, c: Config, s: Slot<V>)
    requires k <= |run|
  {
    forall i :: j < i < k ==> !run[i].op.Clear? && !Expired(s, run[i].at, c.ttl)
  }

  /**
   What keeps a slot from call j, its last touch, up to call k, call by call: none touches or
   clears it or comes after its idle time, and all ids they touch are among these.
   */
  ghost predicate Keeps<V>(run: seq<Event<V>>, j: nat, k: nat, c: Config, s: Slot<V>, touched: set<string>)
    requires j < k <= |run|
    decreases k
  {
    if k == j + 1 then TouchAt(run, j, c) == Some(s.id)
    else
      && Keeps(run, j, k - 1, c, s, touched)
      && TouchAt(run, k - 1, c) != Some(s.id) && Touches(TouchAt(run, k - 1, c)) <= touched
      && !run[k - 1].op.Clear? && !Expired(s, run[k - 1].at, c.ttl)
  }

  lemma {:induction false} KeepsTouched<V>(run: seq<Event<V>>, j: nat, k: nat, c: Config, s: Slot<V>, touched: set<string>)
    requires j < k <= |run| && Keeps(run, j, k, c, s, touched)
    ensures TouchedSince(run, j, k, c) <= touched
    decreases k
  {
    if k > j + 1 {
      KeepsTouched(run, j, k - 1, c, s, touched);
    }
  }

  lemma {:induction false} KeepsLastTouch<V>(run: seq<Event<V>>, j: nat, k: nat, c: Config, s: Slot<V>, touched: set<string>)
    requires j < k <= |run| && Keeps(run, j, k, c, s, touched)
    ensures LastTouch(run, j, k, s.id, c)
    decreases k
  {
    if k > j + 1 {
      KeepsLastTouch(run, j, k - 1, c, s, touched);
    }
  }

  lemma {:induction false} KeepsBecause<V>(run: seq<Event<V>>, j: nat, k: nat, c: Config, s: Slot<V>, touched: set<string>)
    requires LastTouch(run, j, k, s.id, c) && Spared(run, j, k, c, s) && TouchedSince(run, j, k, c) <= touched
    ensures Keeps(run, j, k, c, s, touched)
    decreases k
  {
    if k > j + 1 {
      KeepsBecause(run, j, k - 1, c, s, touched);
    }
  }

  lemma RetainedNext<V>(run: seq<Event<V>>, j: nat, k: nat, c: Config, s: Slot<V>, touched: set<string>)
    requires j < k < |run| && Keeps(run, j, k + 1, c, s, touched) && |touched| < c.maxEntries && HeldAt(run, k, c, s)
    ensures HeldAt(run, k + 1, c, s)
  {
    KeepsTouched(run, j, k, c, s, touched);
    KeepsLastTouch(run, j, k, c, s, touched);
    HeldBehindTouched(run, j, k, c, s);
    RetainedOnce(run, k, c, s, touched);
  }

  lemma {:induction false} RetainedWhile<V>(run: seq<Event<V>>, j: nat, k: nat, c: Config, s: Slot<V>, touched: set<string>)
    requires j < k <= |run| && Keeps(run, j, k, c, s, touched) && |touched| < c.maxEntries && HeldAt(run, j + 1, c, s)
    ensures HeldAt(run, k, c, s)
    decreases k
  {
    if k > j + 1 {
      RetainedWhile(run, j, k - 1, c, s, touched);
      RetainedNext(run, j, k - 1, c, s, touched);
    }
  }

  /**
   Retention. After its last touch a slot stays, key and all, as long as nothing clears the
   cache, its idle time has not run out at any later call, and fewer than max_entries other
   ids have been touched.
   */
  lemma Retained<V>(run: seq<Event<V>>, j: nat, k: nat, c: Config, s: Slot<V>)
    requires LastTouch(run, j, k, s.id, c)
    requires HeldAt(run, j + 1, c, s)
    requires Spared(run, j, k, c, s)
    requires |TouchedSince(run, j, k, c)| < c.maxEntries
    ensures HeldAt(run, k, c, s)
  {
    KeepsBecause(run, j, k, c, s, TouchedSince(run, j, k, c));
    RetainedWhile(run, j, k, c, s, TouchedSince(run, j, k, c));
  }

  /** A slot the run holds answers with its key until its idle time runs out. */
  lemma HeldAnswers<V>(run: seq<Event<V>>, c: Config, s: Slot<V>, now: nat)
    requires s in Run(run, c)
    ensures Answer(Run(run, c), s.id, now, c) == if Expired(s, now, c.ttl) then None else Some(s.key)
  {
    RunShape(run, c);
    FindUnique(Run(run, c), s);
  }

  /** Re-inserting an id that the cache holds, expired or not, pushes out no other live slot. */
  lemma ReinsertEvictsNoOther<V>(run: seq<Event<V>>, c: Config, id: string, key: V, now: nat, s: Slot<V>)
    requires id in Ids(Run(run, c))
    requires s in Run(run, c) && s.id != id && !Expired(s, now, c.ttl)
    ensures s in AfterInsert(Run(run, c), id, key, now, c)
  {
    var l := Run(run, c);
    RunShape(run, c);
    if s !in AfterInsert(l, id, key, now, c) {
      VictimIsHead(l, id, key, now, c, s);
      OthersAreFewer(l, id, now, c);
    }
  }

  lemma OthersAreFewer<V>(l: seq<Slot<V>>, id: string, now: nat, c: Config)
    requires Distinct(l) && id in Ids(l)
    ensures |Others(l, id, now, c)| < |l|
  {
    var o := Others(l, id, now, c);
    OthersShape(l, id, now, c);
    DistinctCount(o);
    DistinctCount(l);
    assert Ids(o) <= Ids(l) - {id};
    SubsetSize(Ids(o), Ids(l) - {id});
  }

  // ---------------------------------------------------------------------------
  // How long a key stays resident
  // ---------------------------------------------------------------------------

  predicate Sweeps<V>(op: Op<V>) {
    op.Insert? || op.EvictExpired?
  }

  /** Right after an insertion or a sweep no slot is expired. */
  lemma SweptIsLive<V>(l: seq<Slot<V>>, e: Event<V>, c: Config, s: Slot<V>)
    requires Sweeps(e.op) && s in Step(l, e, c)
    ensures !Expired(s, e.at, c.ttl)
  {
    match e.op
    case Insert(id, _) => OthersShape(l, id, e.at, c);
    case EvictExpired => FilterMembers(l, LiveAt(e.at, c.ttl));
  }

  /** What a call does to a slot whose idle time ran out before it. */
  lemma StepOnExpired<V>(l: seq<Slot<V>>, e: Event<V>, c: Config, s: Slot<V>)
    requires Distinct(l) && Expired(s, e.at, c.ttl)
    ensures s in Step(l, e, c) <==> s in l && LooksElsewhere(e.op, s.id)
  {
    match e.op
    case Get(y) =>
      FilterMembers(l, OtherThan(y));
      if s in l && y == s.id {
        FindUnique(l, s);
      }
    case Insert(_, _) =>
      if s in Step(l, e, c) {
        SweptIsLive(l, e, c, s);
      }
    case Clear =>
    case EvictExpired =>
      if s in Step(l, e, c) {
        SweptIsLive(l, e, c, s);
      }
  }

  predicate LooksElsewhere<V>(op: Op<V>, id: string) {
    op.Get? && op.id != id
  }

  /** Calls p to k - 1 all look up other ids. */
  ghost predicate AllLookElsewhere<V>(run: seq<Event<V>>, p: nat, k: nat, id: string)
    requires k <= |run|
  {
    forall i :: p <= i < k ==> LooksElsewhere(run[i].op, id)
  }

  lemma ExpiredStaysOnce<V>(run: seq<Event<V>>, k: nat, c: Config, s: Slot<V>)
    requires k < |run| && Expired(s, run[k].at, c.ttl)
    ensures HeldAt(run, k + 1, c, s) <==> HeldAt(run, k, c, s) && LooksElsewhere(run[k].op, s.id)
  {
    RunPrefix(run, k, c);
    RunShape(run[..k], c);
    StepOnExpired(Run(run[..k], c), run[k], c, s);
  }

  /**
   How long a key outlives its idle time. From the moment a slot has expired it stays exactly
   as long as every call is a lookup of some other id: nothing else, and no passing of time,
   removes it.
   */
  lemma {:induction false} ExpiredStaysIff<V>(run: seq<Event<V>>, p: nat, k: nat, c: Config, s: Slot<V>)
    requires p <= k <= |run| && HeldAt(run, p, c, s)
    requires forall i :: p <= i < k ==> Expired(s, run[i].at, c.ttl)
    ensures HeldAt(run, k, c, s) <==> AllLookElsewhere(run, p, k, s.id)
    decreases k
  {
    if k > p {
      ExpiredStaysIff(run, p, k - 1, c, s);
      ExpiredStaysOnce(run, k - 1, c, s);
    }
  }

  /** One insertion and then silence: the key is still held at any later time. */
  lemma IdleCacheKeepsExpiredKey<V>(id: string, key: V, c: Config, now: nat)
    requires now > c.ttl
    ensures var run := [Event(Op.Insert(id, key), 0)];
            Slot(id, key, 0) in Run(run, c) && Expired(Slot(id, key, 0), now, c.ttl)
  {
    RunSnoc([], Event(Op.Insert(id, key), 0), c);
    assert [] + [Event(Op.Insert(id, key), 0)] == [Event(Op.Insert(id, key), 0)];
  }
}
