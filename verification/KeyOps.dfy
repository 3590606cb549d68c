/**
 Chain-key derivation through the cache, crates/oc-keyagent/src/key_ops.rs. The BIP-39 and
 HD libraries appear as a record of functions about which nothing is assumed.
 */
module KeyOps {
  import opened Results
  import opened RecencyList
  import opened CacheRuns
  import KeyCache
  import Seqs

  datatype Curve = Secp256k1 | Ed25519

  datatype KeyError = InvalidRequest | Internal

  /** UTF-8 check, phrase check and derivation (`None`: it fails) over secrets M and keys K. */
  datatype Library<!M, !K> = Library(isUtf8: M -> bool, isPhrase: M -> bool, derive: (M, string, Curve) -> Option<K>)

  predicate StartsWith(s: string, prefix: string) {
    |prefix| <= |s| && s[..|prefix|] == prefix
  }

  function ChainToDerivation(chain: string): Result<(string, Curve), KeyError> {
    if StartsWith(chain, "eip155:") then Ok(("m/44'/60'/0'/0/0", Secp256k1))
    else if StartsWith(chain, "solana:") then Ok(("m/44'/501'/0'/0'", Ed25519))
    else Err(InvalidRequest)
  }

  /** Derivation without a cache. */
  function Direct<M, K>(lib: Library<M, K>, mnemonic: M, chain: string): Result<K, KeyError> {
    if !lib.isUtf8(mnemonic) || !lib.isPhrase(mnemonic) then Err(InvalidRequest)
    else
      match ChainToDerivation(chain)
      case Err(e) => Err(e)
      case Ok((path, curve)) =>
        match lib.derive(mnemonic, path, curve)
        case None => Err(Internal)
        case Some(k) => Ok(k)
  }

  /**
   What direct derivation gives: for EVM chains the key on secp256k1 at the BIP-44 path of coin
   60, for Solana the key on Ed25519 at the SLIP-10 path of coin 501, and for nothing else any.
   */
  lemma DirectCases<M, K>(lib: Library<M, K>, mnemonic: M, chain: string)
    ensures !lib.isUtf8(mnemonic) || !lib.isPhrase(mnemonic) ==> Direct(lib, mnemonic, chain) == Err(InvalidRequest)
    ensures |chain| < 7 || (chain[..7] != "eip155:" && chain[..7] != "solana:") ==> Direct(lib, mnemonic, chain) == Err(InvalidRequest)
    ensures lib.isUtf8(mnemonic) && lib.isPhrase(mnemonic) && |chain| >= 7 && chain[..7] in {"eip155:", "solana:"} ==>
              var key := if chain[..7] == "eip155:" then lib.derive(mnemonic, "m/44'/60'/0'/0/0", Secp256k1)
                         else lib.derive(mnemonic, "m/44'/501'/0'/0'", Ed25519);
              Direct(lib, mnemonic, chain) == if key.Some? then Ok(key.value) else Err(Internal)
  {
    assert "eip155:" != "solana:" by { assert "eip155:"[0] != "solana:"[0]; }
  }

  /** Every key the list holds is what the mnemonic derives for its chain. */
  ghost predicate Faithful<M, K>(l: seq<Slot<K>>, lib: Library<M, K>, mnemonic: M) {
    forall s :: s in l ==> Direct(lib, mnemonic, s.id) == Ok(s.key)
  }

  /** Nothing but derived keys was ever inserted. */
  ghost predicate OnlyDerivedKeys<M, K>(run: seq<Event<K>>, lib: Library<M, K>, mnemonic: M) {
    forall i :: 0 <= i < |run| && run[i].op.Insert? ==> Direct(lib, mnemonic, run[i].op.id) == Ok(run[i].op.key)
  }

  lemma StepKeepsFaithful<M, K>(l: seq<Slot<K>>, e: Event<K>, c: Config, lib: Library<M, K>, mnemonic: M)
    requires Faithful(l, lib, mnemonic)
    requires e.op.Insert? ==> Direct(lib, mnemonic, e.op.id) == Ok(e.op.key)
    ensures Faithful(Step(l, e, c), lib, mnemonic)
  {
    match e.op
    case Get(id) => Seqs.FilterMembers(l, OtherThan(id));
    case Insert(id, _) => OthersShape(l, id, e.at, c);
    case Clear =>
    case EvictExpired => Seqs.FilterMembers(l, LiveAt(e.at, c.ttl));
  }

  /**
   Cache transparency over every interleaving. Whatever hits, expiries, evictions and clears
   a run contains, a lookup answers nothing or the very key that direct derivation gives; and
   an unsupported chain is never held.
   */
  lemma {:induction false} Transparent<M, K>(run: seq<Event<K>>, c: Config, lib: Library<M, K>, mnemonic: M)
    requires OnlyDerivedKeys(run, lib, mnemonic)
    ensures Faithful(Run(run, c), lib, mnemonic)
    ensures forall chain, now :: Answer(Run(run, c), chain, now, c).Some? ==>
              Direct(lib, mnemonic, chain) == Ok(Answer(Run(run, c), chain, now, c).value)
    ensures forall chain :: ChainToDerivation(chain).Err? ==> chain !in Ids(Run(run, c))
  {
    if run != [] {
      var init := run[..|run| - 1];
      Transparent(init, c, lib, mnemonic);
      StepKeepsFaithful(Run(init, c), run[|run| - 1], c, lib, mnemonic);
    }
  }

  /** The latest key under a chain is the derived one. */
  lemma {:induction false} LatestIsDerived<M, K>(run: seq<Event<K>>, lib: Library<M, K>, mnemonic: M, chain: string)
    requires OnlyDerivedKeys(run, lib, mnemonic)
    ensures var k := KeyCache.Latest(run, chain); k.Some? ==> Direct(lib, mnemonic, chain) == Ok(k.value)
  {
    if run != [] {
      LatestIsDerived(run[..|run| - 1], lib, mnemonic, chain);
    }
  }

  /** The result, given what the lookup found. */
  function ViaCache<M, K>(lib: Library<M, K>, mnemonic: M, chain: string, cached: Option<K>): Result<K, KeyError> {
    if cached.Some? then Ok(cached.value) else Direct(lib, mnemonic, chain)
  }

  /** The cache calls made: a lookup, and an insertion after a miss that could be derived. */
  function CacheCalls<M, K>(lib: Library<M, K>, mnemonic: M, chain: string, cached: Option<K>, now: nat, later: nat): seq<Event<K>> {
    var d := Direct(lib, mnemonic, chain);
    if cached.None? && d.Ok? then [Event(Op.Get(chain), now), Event(Op.Insert(chain, d.value), later)]
    else [Event(Op.Get(chain), now)]
  }

  /**
   `derive_chain_key`: a lookup, and on a miss a derivation and an insertion. The two cache
   calls take the mutex one after the other, at instants `now` and `later`.
   */
  method DeriveChainKey<M, K>(cache: KeyCache.KeyCache<K>, lib: Library<M, K>, mnemonic: M, chain: string, now: nat, later: nat)
    returns (r: Result<K, KeyError>, ghost cached: Option<K>)
    requires cache.Valid()
    modifies cache
    ensures cache.Valid()
    ensures !old(cache.wrapped) ==> cached == Answer(Run(old(cache.history), cache.config), chain, now, cache.config)
    ensures r == ViaCache(lib, mnemonic, chain, cached)
    ensures cache.history == old(cache.history) + CacheCalls(lib, mnemonic, chain, cached, now, later)
    ensures !old(cache.wrapped) && old(cache.nextTick) + 2 < KeyCache.TICKS ==> !cache.wrapped && cache.nextTick <= old(cache.nextTick) + 2
    ensures OnlyDerivedKeys(old(cache.history), lib, mnemonic) ==>
              r == Direct(lib, mnemonic, chain) && OnlyDerivedKeys(cache.history, lib, mnemonic)
  {
    if OnlyDerivedKeys(cache.history, lib, mnemonic) {
      LatestIsDerived(cache.history, lib, mnemonic, chain);
    }
    var found := cache.Get(chain, now);
    cached := found;
    if found.Some? {
      return Ok(found.value), cached;
    }
    if !lib.isUtf8(mnemonic) {
      return Err(InvalidRequest), cached;
    }
    if !lib.isPhrase(mnemonic) {
      return Err(InvalidRequest), cached;
    }
    var derivation := ChainToDerivation(chain);
    if derivation.Err? {
      return Err(derivation.error), cached;
    }
    var key := lib.derive(mnemonic, derivation.value.0, derivation.value.1);
    if key.None? {
      return Err(Internal), cached;
    }
    cache.Insert(chain, key.value, later);
    r := Ok(key.value);
  }

  // ---------------------------------------------------------------------------
  // Two wallets, one cache
  // ---------------------------------------------------------------------------

  /** What a second mnemonic gets from the cache is what it derives, if it gets anything. */
  ghost predicate RightFor<M, K>(lib: Library<M, K>, mnemonic: M, chain: string, cached: Option<K>) {
    cached.Some? ==> Direct(lib, mnemonic, chain) == Ok(cached.value)
  }

  /**
   The cache key is the chain alone. Let one mnemonic fill the cache, call j be the last to
   touch the chain, and since then nothing clear the cache, no call come after the slot's idle
   time and fewer than max_entries other chains be touched. Then a lookup for a mnemonic that
   derives another key is right exactly once the idle time is over.
   */
  lemma WrongKeyUntilIdle<M, K>(run: seq<Event<K>>, j: nat, c: Config, lib: Library<M, K>, first: M, second: M, chain: string, now: nat)
    requires OnlyDerivedKeys(run, lib, first)
    requires LastTouch(run, j, |run|, chain, c)
    requires forall i :: j < i < |run| ==> !run[i].op.Clear? && run[i].at <= run[j].at + c.ttl
    requires |TouchedSince(run, j, |run|, c)| < c.maxEntries
    requires Direct(lib, first, chain) != Direct(lib, second, chain)
    ensures RightFor(lib, second, chain, Answer(Run(run, c), chain, now, c)) <==> now > run[j].at + c.ttl
  {
    RunPrefix(run, j, c);
    TouchMovesToEnd(Run(run[..j], c), run[j], c, chain);
    var l := Run(run[..j + 1], c);
    var s := l[|l| - 1];
    Retained(run, j, |run|, c, s);
    assert run[..|run|] == run;
    HeldAnswers(run, c, s, now);
    Transparent(run, c, lib, first);
  }

  /** Two calls on a new cache: the second wallet is handed the first wallet's key. */
  method SecondWalletGetsFirstKey<M, K>(lib: Library<M, K>, first: M, second: M, chain: string, now: nat, later: nat, again: nat)
    returns (mine: Result<K, KeyError>, theirs: Result<K, KeyError>)
    requires Direct(lib, first, chain).Ok? && later <= again <= later + 5
    ensures mine == theirs == Direct(lib, first, chain)
  {
    var cache := new KeyCache.KeyCache<K>(5, 32);
    ghost var cached;
    mine, cached := DeriveChainKey(cache, lib, first, chain, now, later);
    var k := Direct(lib, first, chain).value;
    var run := [Event(Op.Get(chain), now), Event(Op.Insert(chain, k), later)];
    assert cache.history == run;
    RunSnoc([], run[0], cache.config);
    RunSnoc([run[0]], run[1], cache.config);
    assert [run[0]] + [run[1]] == run && [] + [run[0]] == [run[0]];
    assert Slot(chain, k, later) in Run(run, cache.config);
    HeldAnswers(run, cache.config, Slot(chain, k, later), again);
    theirs, cached := DeriveChainKey(cache, lib, second, chain, again, again);
  }

  /** With mnemonics and keys plain numbers, wallet 2 asks for its key and gets that of wallet 1. */
  method WalletTwoGetsOne() returns (theirs: Result<int, KeyError>)
    ensures theirs == Ok(1) && Direct(Identity(), 2, "eip155:1") == Ok(2)
  {
    assert "eip155:1"[..7] == "eip155:";
    var mine;
    mine, theirs := SecondWalletGetsFirstKey(Identity(), 1, 2, "eip155:1", 0, 0, 3);
  }

  function Identity(): Library<int, int> {
    Library((m: int) => true, (m: int) => true, (m: int, path: string, curve: Curve) => Some(m))
  }
}
