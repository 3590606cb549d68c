/**
 The key cache of crates/oc-crypto/src/key_cache.rs: an entry map and a recency index that
 point at each other through access ticks. Every method is proved to do to the recency list
 what that list's own operation does. Each method runs under the cache's one mutex, so a
 sequence of calls is all that concurrent threads can produce.
 */
module KeyCache {
  import opened Results
  import opened Seqs
  import opened RecencyList
  import opened CacheRuns

  const TICKS: nat := 0x1_0000_0000_0000_0000

  type Tick = t: nat | t < TICKS

  /** Adding one with wrap-around. */
  function NextTick(t: Tick): Tick {
    if t + 1 == TICKS then 0 else t + 1
  }

  datatype CacheEntry<V> = CacheEntry(key: V, last: nat, tick: nat)

  /** The two maps are mutually inverse through ticks that were already handed out. */
  ghost predicate Synced<V>(entries: map<string, CacheEntry<V>>, recency: map<nat, string>, nextTick: nat) {
    && (forall id :: id in entries ==>
          && entries[id].tick < nextTick
          && entries[id].tick in recency
          && recency[entries[id].tick] == id)
    && (forall t :: t in recency ==> recency[t] in entries && entries[recency[t]].tick == t)
  }

  /** The slots with ticks below n, in tick order. */
  ghost function Slots<V>(entries: map<string, CacheEntry<V>>, recency: map<nat, string>, n: nat): seq<Slot<V>>
    requires forall t :: t in recency ==> recency[t] in entries
  {
    if n == 0 then []
    else if n - 1 in recency then Slots(entries, recency, n - 1) + [SlotOf(entries, recency[n - 1])]
    else Slots(entries, recency, n - 1)
  }

  ghost function SlotOf<V>(entries: map<string, CacheEntry<V>>, id: string): Slot<V>
    requires id in entries
  {
    Slot(id, entries[id].key, entries[id].last)
  }

  // ---------------------------------------------------------------------------
  // The abstraction
  // ---------------------------------------------------------------------------

  lemma {:induction false} SlotsMembers<V>(entries: map<string, CacheEntry<V>>, recency: map<nat, string>, nextTick: nat, n: nat)
    requires Synced(entries, recency, nextTick)
    ensures forall s :: s in Slots(entries, recency, n) ==>
              s.id in entries && entries[s.id].tick < n && s == SlotOf(entries, s.id)
    ensures forall id :: id in entries && entries[id].tick < n ==> SlotOf(entries, id) in Slots(entries, recency, n)
    ensures Distinct(Slots(entries, recency, n))
  {
    if n > 0 {
      SlotsMembers(entries, recency, nextTick, n - 1);
      var init := Slots(entries, recency, n - 1);
      forall i | 0 <= i < |init| ensures n - 1 in recency ==> init[i].id != recency[n - 1] {
        assert init[i] in init;
      }
    }
  }

  lemma SlotsIds<V>(entries: map<string, CacheEntry<V>>, recency: map<nat, string>, nextTick: nat)
    requires Synced(entries, recency, nextTick)
    ensures Ids(Slots(entries, recency, nextTick)) == entries.Keys
    ensures |Slots(entries, recency, nextTick)| == |entries|
    ensures Distinct(Slots(entries, recency, nextTick))
  {
    var l := Slots(entries, recency, nextTick);
    SlotsMembers(entries, recency, nextTick, nextTick);
    forall id | id in entries ensures id in Ids(l) {
      assert SlotOf(entries, id) in l;
    }
    assert Ids(l) == entries.Keys;
    DistinctCount(l);
  }

  lemma FindSlot<V>(entries: map<string, CacheEntry<V>>, recency: map<nat, string>, nextTick: nat, id: string)
    requires Synced(entries, recency, nextTick)
    ensures Find(Slots(entries, recency, nextTick), id) ==
            if id in entries then Some(SlotOf(entries, id)) else None
    ensures id !in entries ==> Without(Slots(entries, recency, nextTick), id) == Slots(entries, recency, nextTick)
  {
    var l := Slots(entries, recency, nextTick);
    SlotsMembers(entries, recency, nextTick, nextTick);
    if id in entries {
      FindUnique(l, SlotOf(entries, id));
    } else {
      SlotsIds(entries, recency, nextTick);
      WithoutAbsent(l, id);
    }
  }

  lemma {:induction false} SlotsRemove<V>(entries: map<string, CacheEntry<V>>, recency: map<nat, string>, nextTick: nat, id: string, n: nat)
    requires Synced(entries, recency, nextTick) && id in entries
    ensures Synced(entries - {id}, recency - {entries[id].tick}, nextTick)
    ensures Slots(entries - {id}, recency - {entries[id].tick}, n) == Without(Slots(entries, recency, n), id)
  {
    if n > 0 {
      SlotsRemove(entries, recency, nextTick, id, n - 1);
      if n - 1 in recency {
        FilterSnoc(Slots(entries, recency, n - 1), SlotOf(entries, recency[n - 1]), OtherThan(id));
      }
    }
  }

  lemma {:induction false} SlotsAdd<V>(entries: map<string, CacheEntry<V>>, recency: map<nat, string>, nextTick: nat, id: string, e: CacheEntry<V>, n: nat)
    requires Synced(entries, recency, nextTick) && id !in entries && e.tick == nextTick && n <= nextTick
    ensures Synced(entries[id := e], recency[nextTick := id], nextTick + 1)
    ensures Slots(entries[id := e], recency[nextTick := id], n) == Slots(entries, recency, n)
  {
    if n > 0 {
      SlotsAdd(entries, recency, nextTick, id, e, n - 1);
    }
  }

  lemma RemoveSlot<V>(entries: map<string, CacheEntry<V>>, recency: map<nat, string>, nextTick: nat, id: string)
    requires Synced(entries, recency, nextTick) && id in entries
    ensures var recency' := recency - {entries[id].tick};
            && Synced(entries - {id}, recency', nextTick)
            && Slots(entries - {id}, recency', nextTick) == Without(Slots(entries, recency, nextTick), id)
    ensures |entries - {id}| == |entries| - 1
  {
    SlotsRemove(entries, recency, nextTick, id, nextTick);
    assert (entries - {id}).Keys == entries.Keys - {id};
  }

  lemma AddSlot<V>(entries: map<string, CacheEntry<V>>, recency: map<nat, string>, nextTick: nat, id: string, e: CacheEntry<V>)
    requires Synced(entries, recency, nextTick) && id !in entries && e.tick == nextTick
    ensures Synced(entries[id := e], recency[nextTick := id], nextTick + 1)
    ensures Slots(entries[id := e], recency[nextTick := id], nextTick + 1) ==
            Slots(entries, recency, nextTick) + [Slot(id, e.key, e.last)]
    ensures |entries[id := e]| == |entries| + 1
  {
    SlotsAdd(entries, recency, nextTick, id, e, nextTick);
  }

  /** A hit moves its slot to the recent end. */
  lemma TouchSlot<V>(entries: map<string, CacheEntry<V>>, recency: map<nat, string>, nextTick: nat, id: string, now: nat)
    requires Synced(entries, recency, nextTick) && id in entries
    ensures var e := entries[id].(tick := nextTick, last := now);
            var recency' := (recency - {entries[id].tick})[nextTick := id];
            && Synced(entries[id := e], recency', nextTick + 1)
            && Slots(entries[id := e], recency', nextTick + 1) ==
               Without(Slots(entries, recency, nextTick), id) + [Slot(id, e.key, now)]
            && |entries[id := e]| == |entries|
  {
    var e := entries[id].(tick := nextTick, last := now);
    RemoveSlot(entries, recency, nextTick, id);
    AddSlot(entries - {id}, recency - {entries[id].tick}, nextTick, id, e);
    assert entries[id := e] == (entries - {id})[id := e];
  }

  lemma ExpiredMayGo<V>(entries: map<string, CacheEntry<V>>, recency: map<nat, string>, nextTick: nat, id: string, now: nat, ttl: nat)
    requires Synced(entries, recency, nextTick) && id in entries && now > entries[id].last + ttl
    ensures var l := Slots(entries, recency, nextTick); Unexpired(Without(l, id), now, ttl) == Unexpired(l, now, ttl)
  {
    SlotsMembers(entries, recency, nextTick, nextTick);
    FilterFilter(Slots(entries, recency, nextTick), OtherThan(id), LiveAt(now, ttl));
  }

  lemma AllLive<V>(entries: map<string, CacheEntry<V>>, recency: map<nat, string>, nextTick: nat, now: nat, ttl: nat)
    requires Synced(entries, recency, nextTick)
    requires forall id :: id in entries ==> now <= entries[id].last + ttl
    ensures var l := Slots(entries, recency, nextTick); Unexpired(l, now, ttl) == l
  {
    SlotsMembers(entries, recency, nextTick, nextTick);
    FilterAll(Slots(entries, recency, nextTick), LiveAt(now, ttl));
  }

  /** The slot with the smallest tick heads the list. */
  lemma {:induction false} SlotsHead<V>(entries: map<string, CacheEntry<V>>, recency: map<nat, string>, nextTick: nat, t: nat, n: nat)
    requires Synced(entries, recency, nextTick)
    requires t in recency && forall u :: u in recency ==> t <= u
    ensures n <= t ==> Slots(entries, recency, n) == []
    ensures n > t ==> Slots(entries, recency, n) != [] && Slots(entries, recency, n)[0] == SlotOf(entries, recency[t])
  {
    if n > 0 {
      SlotsHead(entries, recency, nextTick, t, n - 1);
    }
  }

  lemma {:induction false} LeastTick(ticks: set<nat>) returns (t: nat)
    requires ticks != {}
    ensures t in ticks && forall u :: u in ticks ==> t <= u
  {
    var x :| x in ticks;
    if ticks == {x} {
      t := x;
    } else {
      var y := LeastTick(ticks - {x});
      t := if x <= y then x else y;
      assert forall u :: u in ticks ==> u == x || u in ticks - {x};
    }
  }

  // ---------------------------------------------------------------------------
  // The cache
  // ---------------------------------------------------------------------------

  // ---------------------------------------------------------------------------
  // What holds whatever the ticks say
  // ---------------------------------------------------------------------------

  /** The key last inserted under the id since the cache was last cleared. */
  function Latest<V>(run: seq<Event<V>>, id: string): Option<V> {
    if run == [] then None
    else
      match run[|run| - 1].op
      case Insert(x, key) => if x == id then Some(key) else Latest(run[..|run| - 1], id)
      case Clear => None
      case _ => Latest(run[..|run| - 1], id)
  }

  lemma LatestSnoc<V>(run: seq<Event<V>>, e: Event<V>, id: string)
    ensures Latest(run + [e], id) ==
            match e.op
            case Insert(x, key) => if x == id then Some(key) else Latest(run, id)
            case Clear => None
            case _ => Latest(run, id)
  {
    assert (run + [e])[..|run|] == run;
  }

  /** Every entry holds the latest key of its id. */
  ghost predicate UpToDate<V>(entries: map<string, CacheEntry<V>>, run: seq<Event<V>>) {
    forall id :: id in entries ==> Latest(run, id) == Some(entries[id].key)
  }

  /** Entries may be gone or touched, but none has another key. */
  ghost predicate SameKeys<V>(entries: map<string, CacheEntry<V>>, before: map<string, CacheEntry<V>>) {
    forall id :: id in entries ==> id in before && entries[id].key == before[id].key
  }

  lemma StaysUpToDate<V>(entries: map<string, CacheEntry<V>>, before: map<string, CacheEntry<V>>, run: seq<Event<V>>, e: Event<V>)
    requires UpToDate(before, run) && SameKeys(entries, before) && (e.op.Get? || e.op.EvictExpired?)
    ensures UpToDate(entries, run + [e])
  {
    forall id | id in entries ensures Latest(run + [e], id) == Some(entries[id].key) {
      LatestSnoc(run, e, id);
    }
  }

  lemma InsertStaysUpToDate<V>(entries: map<string, CacheEntry<V>>, before: map<string, CacheEntry<V>>, run: seq<Event<V>>, id: string, key: V, now: nat)
    requires UpToDate(before, run) && id in entries && entries[id].key == key && SameKeys(entries - {id}, before)
    ensures UpToDate(entries, run + [Event(Op.Insert(id, key), now)])
  {
    forall x | x in entries ensures Latest(run + [Event(Op.Insert(id, key), now)], x) == Some(entries[x].key) {
      LatestSnoc(run, Event(Op.Insert(id, key), now), x);
      if x != id {
        assert x in entries - {id};
      }
    }
  }

  class KeyCache<V> {
    var entries: map<string, CacheEntry<V>>
    var recency: map<nat, string>
    var nextTick: Tick
    const config: Config

    /** Every call so far, in the order in which they held the mutex. */
    ghost var history: seq<Event<V>>

    /** The tick counter has started again from zero since the cache was last empty. */
    ghost var wrapped: bool

    /** What the two maps keep between themselves, also in the middle of a call. */
    ghost predicate Consistent()
      reads this
    {
      Synced(entries, recency, nextTick) && |entries| <= Max(1, config.maxEntries)
    }

    /** The recency list the two maps stand for. */
    ghost function Contents(): seq<Slot<V>>
      requires Consistent()
      reads this
    {
      Slots(entries, recency, nextTick)
    }

    /**
     Between calls every entry holds the latest key of its id; and until the counter wraps, the
     maps stand for the recency list of the whole run so far.
     */
    ghost predicate Valid()
      reads this
    {
      && UpToDate(entries, history)
      && (!wrapped ==> Consistent() && Contents() == Run(history, config))
    }

    constructor (ttl: nat, maxEntries: nat)
      ensures Valid() && !wrapped && nextTick == 0 && history == []
      ensures config == Config(ttl, maxEntries)
    {
      entries, recency, nextTick := map[], map[], 0;
      config := Config(ttl, maxEntries);
      history, wrapped := [], false;
    }

    method Remove(id: string)
      modifies this`entries, this`recency
      ensures old(Consistent()) ==> Consistent() && Contents() == Without(old(Contents()), id)
      ensures entries == old(entries) - {id}
    {
      if Consistent() {
        FindSlot(entries, recency, nextTick, id);
        if id in entries {
          RemoveSlot(entries, recency, nextTick, id);
        }
      }
      if id in entries {
        recency := recency - {entries[id].tick};
        entries := entries - {id};
      }
    }

    method DropExpired(now: nat)
      modifies this`entries, this`recency
      ensures old(Consistent()) ==> Consistent() && Contents() == Unexpired(old(Contents()), now, config.ttl)
      ensures SameKeys(entries, old(entries)) && forall id :: id in entries ==> now <= entries[id].last + config.ttl
    {
      var expired := set id | id in entries && now > entries[id].last + config.ttl;
      while expired != {}
        invariant expired == set id | id in entries && now > entries[id].last + config.ttl
        invariant SameKeys(entries, old(entries))
        invariant old(Consistent()) ==> Consistent()
        invariant old(Consistent()) ==> Unexpired(Contents(), now, config.ttl) == Unexpired(old(Contents()), now, config.ttl)
        decreases expired
      {
        var id :| id in expired;
        if old(Consistent()) {
          ExpiredMayGo(entries, recency, nextTick, id, now, config.ttl);
        }
        Remove(id);
        expired := expired - {id};
      }
      assert forall id :: id in entries ==> id !in expired;
      if old(Consistent()) {
        AllLive(entries, recency, nextTick, now, config.ttl);
      }
    }

    /** At capacity, drops the entry with the smallest tick. */
    method MakeRoom()
      modifies this`entries, this`recency
      ensures old(Consistent()) ==> Consistent() && |entries| < Max(1, config.maxEntries)
      ensures old(Consistent()) ==> Contents() == Shrunk(old(Contents()), config.maxEntries)
      ensures SameKeys(entries, old(entries))
    {
      if Consistent() {
        SlotsIds(entries, recency, nextTick);
      }
      if |entries| >= config.maxEntries {
        if recency != map[] {
          ghost var least := LeastTick(recency.Keys);
          var t :| t in recency && forall u :: u in recency ==> t <= u;
          if Consistent() {
            SlotsHead(entries, recency, nextTick, t, nextTick);
            WithoutHead(Contents());
            RemoveSlot(entries, recency, nextTick, recency[t]);
          }
          Remove(recency[t]);
        }
      }
    }

    /** Puts a new entry under the next tick. */
    method Add(id: string, key: V, now: nat)
      modifies this`entries, this`recency, this`nextTick
      ensures nextTick == NextTick(old(nextTick))
      ensures entries == old(entries)[id := CacheEntry(key, now, old(nextTick))]
      ensures old(Consistent()) && id !in old(entries) && |old(entries)| < Max(1, config.maxEntries) && old(nextTick) + 1 < TICKS ==>
                Consistent() && Contents() == old(Contents()) + [Slot(id, key, now)]
    {
      var tick := nextTick;
      if Consistent() && id !in entries {
        AddSlot(entries, recency, nextTick, id, CacheEntry(key, now, tick));
      }
      nextTick := NextTick(nextTick);
      recency := recency[tick := id];
      entries := entries[id := CacheEntry(key, now, tick)];
    }

    /** A hit: a new tick, a new access time, and the index entry moved along. */
    method Refresh(id: string, now: nat)
      requires id in entries
      modifies this`entries, this`recency, this`nextTick
      ensures nextTick == NextTick(old(nextTick))
      ensures SameKeys(entries, old(entries)) && id in entries && entries[id].last == now
      ensures old(Consistent()) && old(nextTick) + 1 < TICKS ==>
                Consistent() && Contents() == Without(old(Contents()), id) + [Slot(id, old(entries)[id].key, now)]
    {
      if Consistent() {
        TouchSlot(entries, recency, nextTick, id, now);
      }
      var entry, tick := entries[id], nextTick;
      nextTick := NextTick(nextTick);
      entries := entries[id := entry.(tick := tick, last := now)];
      recency := recency - {entry.tick};
      recency := recency[tick := id];
    }

    /** What `get` does while it holds the mutex. */
    method Lookup(id: string, now: nat) returns (r: Option<V>)
      modifies this`entries, this`recency, this`nextTick
      ensures old(nextTick) + 1 < TICKS ==> nextTick <= old(nextTick) + 1
      ensures SameKeys(entries, old(entries))
      ensures r == if id in old(entries) && now <= old(entries)[id].last + config.ttl then Some(old(entries)[id].key) else None
      ensures old(Consistent()) ==> r == Answer(old(Contents()), id, now, config)
      ensures old(Consistent()) && old(nextTick) + 1 < TICKS ==>
                Consistent() && Contents() == AfterGet(old(Contents()), id, now, config)
    {
      if Consistent() {
        FindSlot(entries, recency, nextTick, id);
      }
      if id !in entries {
        return None;
      }
      var entry := entries[id];
      if now > entry.last + config.ttl {
        Remove(id);
        return None;
      }
      Refresh(id, now);
      r := Some(entry.key);
    }

    /** The first half of `insert`: sweep, drop the old entry of this id, make room for the new one. */
    method Vacate(id: string, now: nat)
      modifies this`entries, this`recency
      ensures SameKeys(entries, old(entries)) && id !in entries
      ensures old(Consistent()) ==> Consistent() && |entries| < Max(1, config.maxEntries)
      ensures old(Consistent()) ==> Contents() == Shrunk(Others(old(Contents()), id, now, config), config.maxEntries)
    {
      DropExpired(now);
      Remove(id);
      MakeRoom();
    }

    /** What `insert` does while it holds the mutex. */
    method Store(id: string, key: V, now: nat)
      modifies this`entries, this`recency, this`nextTick
      ensures nextTick == NextTick(old(nextTick))
      ensures id in entries && entries[id] == CacheEntry(key, now, old(nextTick)) && SameKeys(entries - {id}, old(entries))
      ensures old(Consistent()) && old(nextTick) + 1 < TICKS ==>
                Consistent() && Contents() == AfterInsert(old(Contents()), id, key, now, config)
    {
      Vacate(id, now);
      Add(id, key, now);
    }

    method Get(id: string, now: nat) returns (r: Option<V>)
      requires Valid()
      modifies this
      ensures Valid() && history == old(history) + [Event(Op.Get(id), now)]
      ensures r.Some? ==> r == Latest(old(history), id)
      ensures !old(wrapped) ==> r == Answer(Run(old(history), config), id, now, config)
      ensures !old(wrapped) && old(nextTick) + 1 < 0x1_0000_0000_0000_0000 ==> !wrapped && nextTick <= old(nextTick) + 1
    {
      ghost var wraps := wrapped || nextTick + 1 == TICKS;
      r := Lookup(id, now);
      RunSnoc(history, Event(Op.Get(id), now), config);
      StaysUpToDate(entries, old(entries), history, Event(Op.Get(id), now));
      history, wrapped := history + [Event(Op.Get(id), now)], wraps;
    }

    method Insert(id: string, key: V, now: nat)
      requires Valid()
      modifies this
      ensures Valid() && history == old(history) + [Event(Op.Insert(id, key), now)]
      ensures id in entries && entries[id] == CacheEntry(key, now, old(nextTick))
      ensures !old(wrapped) && old(nextTick) + 1 < 0x1_0000_0000_0000_0000 ==> !wrapped && nextTick == old(nextTick) + 1
    {
      ghost var wraps := wrapped || nextTick + 1 == TICKS;
      RunInsert(history, id, key, now, config);
      Store(id, key, now);
      InsertStaysUpToDate(entries, old(entries), history, id, key, now);
      history, wrapped := history + [Event(Op.Insert(id, key), now)], wraps;
    }

    /** Clearing also ends whatever disorder a wrapped counter left. */
    method Clear(now: nat)
      requires Valid()
      modifies this`entries, this`recency, this`history, this`wrapped
      ensures Valid() && !wrapped && history == old(history) + [Event(Op.Clear, now)]
      ensures entries == map[] && recency == map[]
    {
      entries, recency := map[], map[];
      SlotsIds(entries, recency, nextTick);
      RunSnoc(history, Event(Op.Clear, now), config);
      history, wrapped := history + [Event(Op.Clear, now)], false;
    }

    method EvictExpired(now: nat)
      requires Valid()
      modifies this`entries, this`recency, this`history
      ensures Valid() && history == old(history) + [Event(Op.EvictExpired, now)]
      ensures forall id :: id in entries ==> now <= entries[id].last + config.ttl
    {
      RunSnoc(history, Event(Op.EvictExpired, now), config);
      DropExpired(now);
      StaysUpToDate(entries, old(entries), history, Event(Op.EvictExpired, now));
      history := history + [Event(Op.EvictExpired, now)];
    }

    method Len() returns (n: nat)
      requires Valid()
      ensures !wrapped ==> n == |Run(history, config)| <= Max(1, config.maxEntries)
    {
      if !wrapped {
        SlotsIds(entries, recency, nextTick);
      }
      n := |entries|;
    }
  }
}
