/**
 What the key cache is supposed to be: a list of slots from the least to the most recently
 used one, with time-to-idle expiry and a capacity.
 */
module RecencyList {
  import opened Results
  import opened Seqs

  datatype Slot<V> = Slot(id: string, key: V, last: nat)

  function Max(x: nat, y: nat): nat {
    if x <= y then y else x
  }

  /** `last_accessed.elapsed() > ttl`; an elapsed time never goes below zero. */
  predicate Expired<V>(s: Slot<V>, now: nat, ttl: nat) {
    now > s.last + ttl
  }

  function LiveAt<V>(now: nat, ttl: nat): Slot<V> -> bool {
    (s: Slot<V>) => !Expired(s, now, ttl)
  }

  function OtherThan<V>(id: string): Slot<V> -> bool {
    (s: Slot<V>) => s.id != id
  }

  function Unexpired<V>(l: seq<Slot<V>>, now: nat, ttl: nat): seq<Slot<V>> {
    Filter(l, LiveAt(now, ttl))
  }

  function Without<V>(l: seq<Slot<V>>, id: string): seq<Slot<V>> {
    Filter(l, OtherThan(id))
  }

  ghost function Ids<V>(l: seq<Slot<V>>): set<string> {
    set s | s in l :: s.id
  }

  ghost predicate Distinct<V>(l: seq<Slot<V>>) {
    forall i, j :: 0 <= i < j < |l| ==> l[i].id != l[j].id
  }

  /** The slots stand in the order in which they were last accessed. */
  ghost predicate Ordered<V>(l: seq<Slot<V>>) {
    forall i, j :: 0 <= i < j < |l| ==> l[i].last <= l[j].last
  }

  function Find<V>(l: seq<Slot<V>>, id: string): (r: Option<Slot<V>>)
    ensures r.Some? ==> r.value in l && r.value.id == id
    ensures r.None? <==> id !in Ids(l)
  {
    if l == [] then None
    else if l[|l| - 1].id == id then Some(l[|l| - 1])
    else Find(l[..|l| - 1], id)
  }

  // ---------------------------------------------------------------------------
  // The operations
  // ---------------------------------------------------------------------------

  datatype Op<V> = Get(id: string) | Insert(id: string, key: V) | Clear | EvictExpired

  datatype Config = Config(ttl: nat, maxEntries: nat)

  predicate Hit<V>(l: seq<Slot<V>>, id: string, now: nat, c: Config) {
    Find(l, id).Some? && !Expired(Find(l, id).value, now, c.ttl)
  }

  function AfterGet<V>(l: seq<Slot<V>>, id: string, now: nat, c: Config): seq<Slot<V>> {
    if Hit(l, id, now, c) then Without(l, id) + [Slot(id, Find(l, id).value.key, now)] else Without(l, id)
  }

  function Answer<V>(l: seq<Slot<V>>, id: string, now: nat, c: Config): Option<V> {
    if Hit(l, id, now, c) then Some(Find(l, id).value.key) else None
  }

  /** The slots an insertion of id leaves before the capacity check. */
  function Others<V>(l: seq<Slot<V>>, id: string, now: nat, c: Config): seq<Slot<V>> {
    Without(Unexpired(l, now, c.ttl), id)
  }

  /** The capacity check: the least recently used slot goes. */
  function Shrunk<V>(l: seq<Slot<V>>, maxEntries: nat): seq<Slot<V>> {
    if |l| >= maxEntries && l != [] then l[1..] else l
  }

  function AfterInsert<V>(l: seq<Slot<V>>, id: string, key: V, now: nat, c: Config): seq<Slot<V>> {
    Shrunk(Others(l, id, now, c), c.maxEntries) + [Slot(id, key, now)]
  }

  // ---------------------------------------------------------------------------
  // Facts about filtered lists
  // ---------------------------------------------------------------------------

  lemma {:induction false} FilterKeepsShape<V>(l: seq<Slot<V>>, p: Slot<V> -> bool)
    ensures Distinct(l) ==> Distinct(Filter(l, p))
    ensures Ordered(l) ==> Ordered(Filter(l, p))
  {
    if l != [] {
      var init := l[..|l| - 1];
      FilterKeepsShape(init, p);
      FilterMembers(init, p);
      forall i | 0 <= i < |Filter(init, p)|
        ensures Distinct(l) ==> Filter(init, p)[i].id != l[|l| - 1].id
        ensures Ordered(l) ==> Filter(init, p)[i].last <= l[|l| - 1].last
      {
        assert Filter(init, p)[i] in init;
      }
    }
  }

  lemma FindUnique<V>(l: seq<Slot<V>>, s: Slot<V>)
    requires Distinct(l) && s in l
    ensures Find(l, s.id) == Some(s)
  {
    var r := Find(l, s.id);
    assert s.id in Ids(l);
    var i :| 0 <= i < |l| && l[i] == s;
    var j :| 0 <= j < |l| && l[j] == r.value;
  }

  lemma WithoutAbsent<V>(l: seq<Slot<V>>, id: string)
    requires id !in Ids(l)
    ensures Without(l, id) == l
  {
    forall s | s in l ensures OtherThan(id)(s) {
      assert s.id in Ids(l);
    }
    FilterAll(l, OtherThan(id));
  }

  /** Removing the head's id is the same as dropping the head. */
  lemma {:induction false} WithoutHead<V>(l: seq<Slot<V>>)
    requires Distinct(l) && l != []
    ensures Without(l, l[0].id) == l[1..]
  {
    if |l| == 1 {
      assert l[..0] == [];
    } else {
      var init, s := l[..|l| - 1], l[|l| - 1];
      WithoutHead(init);
      assert s.id != init[0].id;
      assert init[1..] + [s] == l[1..];
    }
  }

  /** With distinct ids, filtering out one id that is there costs exactly one slot. */
  lemma {:induction false} WithoutLength<V>(l: seq<Slot<V>>, id: string)
    requires Distinct(l)
    ensures |Without(l, id)| == if id in Ids(l) then |l| - 1 else |l|
  {
    if id !in Ids(l) {
      WithoutAbsent(l, id);
    } else {
      var init, s := l[..|l| - 1], l[|l| - 1];
      WithoutLength(init, id);
      assert l == init + [s];
      assert Ids(l) == Ids(init) + {s.id};
      assert s.id !in Ids(init);
    }
  }

  lemma IdsOfConcat<V>(l: seq<Slot<V>>, m: seq<Slot<V>>)
    ensures Ids(l + m) == Ids(l) + Ids(m)
  {
  }

  lemma {:induction false} DistinctCount<V>(l: seq<Slot<V>>)
    requires Distinct(l)
    ensures |Ids(l)| == |l|
  {
    if l != [] {
      var init, s := l[..|l| - 1], l[|l| - 1];
      DistinctCount(init);
      assert l == init + [s];
      assert Ids(l) == Ids(init) + {s.id};
      assert s.id !in Ids(init);
    }
  }
}
