/**
 * The key pool of `NonceManager` as a protocol. A key leaves the channel when it is handed out, a
 * goroutine asks the chain until the key's nonce has moved by one, and then puts the key back. Each
 * event below is one atomic step of a caller, of a goroutine or of the chain, so a run is any
 * interleaving of them.
 */
module KeyPool {
  import opened Common

  type Address = string

  datatype KeyNonce = KeyNonce(keyNum: nat, nonce: nat)

  /** A goroutine that waits for its key's transaction to be mined. */
  datatype Sync = Sync(key: KeyNonce, attemptsLeft: nat)

  /** What the manager itself holds; `errors` is the length of `Client.Errors`. */
  datatype Pool = Pool(
    addresses: seq<Address>,
    nonces: map<Address, nat>,
    synced: seq<KeyNonce>,
    syncing: seq<Sync>,
    errors: nat)

  function RemoveAt<T>(s: seq<T>, i: nat): seq<T>
    requires i < |s|
  {
    s[..i] + s[i + 1..]
  }

  function NonceOf(nonces: map<Address, nat>, a: Address): nat {
    if a in nonces then nonces[a] else 0
  }

  /** The channel `UpdateNonces` fills: every key but the root, with its address's nonce. */
  function Refill(addresses: seq<Address>, nonces: map<Address, nat>): seq<KeyNonce>
    requires addresses != []
  {
    seq(|addresses| - 1, i requires 0 <= i < |addresses| - 1 => KeyNonce(i + 1, NonceOf(nonces, addresses[i + 1])))
  }

  function Take(p: Pool, retries: nat): Pool
    requires p.synced != []
  {
    p.(synced := p.synced[1..], syncing := p.syncing + [Sync(p.synced[0], retries)])
  }

  /** One attempt of goroutine i, given the chain's answer; no answer is a failed attempt. */
  function Attempt(p: Pool, i: nat, answer: Option<nat>): Pool
    requires i < |p.syncing| && p.syncing[i].attemptsLeft > 0
  {
    var s := p.syncing[i];
    if answer == Some(s.key.nonce + 1) then
      p.(syncing := RemoveAt(p.syncing, i), synced := p.synced + [KeyNonce(s.key.keyNum, s.key.nonce + 1)])
    else
      p.(syncing := p.syncing[i := s.(attemptsLeft := s.attemptsLeft - 1)])
  }

  function GiveUp(p: Pool, i: nat): Pool
    requires i < |p.syncing|
  {
    p.(syncing := RemoveAt(p.syncing, i), errors := p.errors + 1)
  }

  function Refresh(p: Pool, nonces: map<Address, nat>): Pool
    requires p.addresses != []
  {
    p.(nonces := nonces, synced := Refill(p.addresses, nonces))
  }

  /* ---------- The pool in its environment ---------- */

  datatype Event =
    | HandOut
    | Timeout
    | TrySync(i: nat, answered: bool)
    | Abandon(i: nat)
    | UpdateNonces
    | UpdateFails(nonces: map<Address, nat>)
    | NextNonce(address: Address)
    | Mine(keyNum: nat)

  /**
   * `mined` is the chain; `owed` holds the keys whose last hand-out has not been mined yet; `givenUp`,
   * `filled` and `handedOut` only record what happened.
   */
  datatype World = World(
    pool: Pool,
    retries: nat,
    mined: map<Address, nat>,
    owed: set<nat>,
    givenUp: seq<nat>,
    filled: bool,
    handedOut: seq<KeyNonce>)

  function Answer(w: World, s: Sync, answered: bool): Option<nat>
  {
    if answered && s.key.keyNum < |w.pool.addresses|
    then Some(NonceOf(w.mined, w.pool.addresses[s.key.keyNum])) else None
  }

  /** A holder uses at most one transaction nonce per hand-out: only an owed key can be mined. */
  predicate Enabled(w: World, e: Event) {
    match e
    case HandOut => w.pool.synced != []
    case TrySync(i, _) => i < |w.pool.syncing| && w.pool.syncing[i].attemptsLeft > 0
    case Abandon(i) => i < |w.pool.syncing| && w.pool.syncing[i].attemptsLeft == 0
    case Mine(k) => k in w.owed && k < |w.pool.addresses|
    case UpdateNonces => w.pool.addresses != []
    case UpdateFails(nonces) =>
      && nonces.Keys == w.pool.nonces.Keys
      && forall a :: a in nonces ==> nonces[a] == w.pool.nonces[a] || nonces[a] == NonceOf(w.mined, a)
    case Timeout | NextNonce(_) => true
  }

  function Next(w: World, e: Event): World
    requires Enabled(w, e)
  {
    var p := w.pool;
    match e
    case HandOut =>
      w.(pool := Take(p, w.retries), owed := w.owed + {p.synced[0].keyNum}, handedOut := w.handedOut + [p.synced[0]])
    case Timeout => w.(pool := p.(errors := p.errors + 1))
    case TrySync(i, answered) => w.(pool := Attempt(p, i, Answer(w, p.syncing[i], answered)))
    case Abandon(i) => w.(pool := GiveUp(p, i), givenUp := w.givenUp + [p.syncing[i].key.keyNum])
    case UpdateNonces =>
      w.(pool := Refresh(p, map a | a in p.nonces :: NonceOf(w.mined, a)), givenUp := [], filled := true)
    case UpdateFails(nonces) => w.(pool := p.(nonces := nonces))
    case NextNonce(a) => w.(pool := p.(nonces := p.nonces[a := NonceOf(p.nonces, a) + 1]))
    case Mine(k) =>
      var a := p.addresses[k];
      w.(mined := w.mined[a := NonceOf(w.mined, a) + 1], owed := w.owed - {k})
  }

  ghost predicate Initial(w: World) {
    && w.pool.addresses != []
    && w.pool.nonces == (map a | a in w.pool.addresses :: 0)
    && w.pool.synced == [] && w.pool.syncing == [] && w.pool.errors == 0
    && w.owed == {} && w.givenUp == [] && !w.filled && w.handedOut == []
  }

  /** `UpdateNonces` replaces the channel, so it is only called while no key is out. */
  predicate Polite(w: World, e: Event) { e.UpdateNonces? ==> w.pool.syncing == [] }

  ghost predicate IsRun(states: seq<World>, events: seq<Event>) {
    && |states| == |events| + 1 && Initial(states[0])
    && forall i :: 0 <= i < |events| ==> Enabled(states[i], events[i]) && states[i + 1] == Next(states[i], events[i])
  }

  ghost predicate PoliteRun(states: seq<World>, events: seq<Event>) {
    IsRun(states, events) && forall i :: 0 <= i < |events| ==> Polite(states[i], events[i])
  }

  /* ---------- Keys are neither lost nor doubled ---------- */

  function PooledKeys(s: seq<KeyNonce>): seq<nat> { seq(|s|, i requires 0 <= i < |s| => s[i].keyNum) }

  function SyncingKeys(s: seq<Sync>): seq<nat> { seq(|s|, i requires 0 <= i < |s| => s[i].key.keyNum) }

  /** The numbers 1 to m. */
  ghost function KeysUpTo(m: nat): (r: set<nat>)
    ensures forall k :: k in r <==> 1 <= k <= m
    ensures |r| == m
  {
    if m == 0 then {} else KeysUpTo(m - 1) + {m}
  }

  ghost function PoolBag(p: Pool): multiset<nat> {
    multiset(PooledKeys(p.synced)) + multiset(SyncingKeys(p.syncing))
  }

  ghost function KeyBag(w: World): multiset<nat> { PoolBag(w.pool) + multiset(w.givenUp) }

  /** Every key but the root is pooled, out with a goroutine, or given up, exactly once. */
  ghost predicate KeysConserved(w: World) {
    && w.pool.addresses != []
    && KeyBag(w) == if w.filled then multiset(KeysUpTo(|w.pool.addresses| - 1)) else multiset{}
  }

  lemma TakeKeepsBag(p: Pool, retries: nat)
    requires p.synced != []
    ensures PoolBag(Take(p, retries)) == PoolBag(p)
  {
    assert PooledKeys(p.synced) == [p.synced[0].keyNum] + PooledKeys(p.synced[1..]);
    assert SyncingKeys(p.syncing + [Sync(p.synced[0], retries)]) == SyncingKeys(p.syncing) + [p.synced[0].keyNum];
  }

  lemma RemoveFromBag(s: seq<Sync>, i: nat)
    requires i < |s|
    ensures multiset(SyncingKeys(RemoveAt(s, i))) + multiset{s[i].key.keyNum} == multiset(SyncingKeys(s))
  {
    var k := SyncingKeys(s);
    assert SyncingKeys(RemoveAt(s, i)) == k[..i] + k[i + 1..];
    assert k == k[..i] + [k[i]] + k[i + 1..];
  }

  lemma AttemptKeepsBag(p: Pool, i: nat, answer: Option<nat>)
    requires i < |p.syncing| && p.syncing[i].attemptsLeft > 0
    ensures PoolBag(Attempt(p, i, answer)) == PoolBag(p)
  {
    var s := p.syncing[i];
    if answer == Some(s.key.nonce + 1) {
      RemoveFromBag(p.syncing, i);
      assert PooledKeys(p.synced + [KeyNonce(s.key.keyNum, s.key.nonce + 1)]) == PooledKeys(p.synced) + [s.key.keyNum];
    } else {
      assert SyncingKeys(p.syncing[i := s.(attemptsLeft := s.attemptsLeft - 1)]) == SyncingKeys(p.syncing);
    }
  }

  lemma RefillBag(addresses: seq<Address>, nonces: map<Address, nat>)
    requires addresses != []
    ensures multiset(PooledKeys(Refill(addresses, nonces))) == multiset(KeysUpTo(|addresses| - 1))
  {
    CountUp(|addresses| - 1);
    assert PooledKeys(Refill(addresses, nonces)) == seq(|addresses| - 1, i => i + 1);
  }

  lemma {:induction false} CountUp(m: nat)
    ensures multiset(seq(m, i => i + 1)) == multiset(KeysUpTo(m))
  {
    if m > 0 {
      CountUp(m - 1);
      assert seq(m, i => i + 1) == seq(m - 1, i => i + 1) + [m];
    }
  }

  lemma GiveUpMovesKey(p: Pool, i: nat, givenUp: seq<nat>)
    requires i < |p.syncing|
    ensures PoolBag(GiveUp(p, i)) + multiset(givenUp + [p.syncing[i].key.keyNum]) == PoolBag(p) + multiset(givenUp)
  {
    RemoveFromBag(p.syncing, i);
  }

  lemma RefreshRestoresBag(p: Pool, nonces: map<Address, nat>)
    requires p.addresses != [] && p.syncing == []
    ensures PoolBag(Refresh(p, nonces)) + multiset([]) == multiset(KeysUpTo(|p.addresses| - 1))
  {
    RefillBag(p.addresses, nonces);
    assert SyncingKeys(p.syncing) == [];
  }

  /** Every step but a refill leaves the bag of keys as it is. */
  lemma BagStep(w: World, e: Event)
    requires Enabled(w, e) && !e.UpdateNonces?
    ensures KeyBag(Next(w, e)) == KeyBag(w)
    ensures Next(w, e).pool.addresses == w.pool.addresses && Next(w, e).filled == w.filled
  {
    var p := w.pool;
    match e
    case HandOut => TakeKeepsBag(p, w.retries);
    case TrySync(i, answered) => AttemptKeepsBag(p, i, Answer(w, p.syncing[i], answered));
    case Abandon(i) => GiveUpMovesKey(p, i, w.givenUp);
    case Timeout =>
    case UpdateFails(_) =>
    case NextNonce(_) =>
    case Mine(_) =>
  }

  lemma SameBagIsConserved(w: World, w': World)
    requires KeysConserved(w) && KeyBag(w') == KeyBag(w)
    requires w'.pool.addresses == w.pool.addresses && w'.filled == w.filled
    ensures KeysConserved(w')
  {
  }

  lemma RefillIsConserved(w: World)
    requires Enabled(w, UpdateNonces) && w.pool.syncing == []
    ensures KeysConserved(Next(w, UpdateNonces))
  {
    RefreshRestoresBag(w.pool, Next(w, UpdateNonces).pool.nonces);
  }

  lemma ConservedStep(w: World, e: Event)
    requires KeysConserved(w) && Enabled(w, e) && Polite(w, e)
    ensures KeysConserved(Next(w, e))
  {
    if e.UpdateNonces? {
      RefillIsConserved(w);
    } else {
      BagStep(w, e);
      SameBagIsConserved(w, Next(w, e));
    }
  }

  /** Safety over whole runs: in every reachable state the keys are conserved. */
  lemma {:induction false} RunConservesKeys(states: seq<World>, events: seq<Event>, i: nat)
    requires PoliteRun(states, events) && i < |states|
    ensures KeysConserved(states[i])
  {
    if i > 0 {
      RunConservesKeys(states, events, i - 1);
      ConservedStep(states[i - 1], events[i - 1]);
    }
  }

  /** Where a key may be, read off a conserved pool. */
  lemma KeysArePartitioned(w: World, k: nat)
    requires KeysConserved(w)
    ensures var pooled, out, up := PooledKeys(w.pool.synced), SyncingKeys(w.pool.syncing), w.givenUp;
            && (k in pooled || k in out || k in up <==> w.filled && 1 <= k < |w.pool.addresses|)
            && !(k in pooled && k in out) && !(k in pooled && k in up) && !(k in out && k in up)
            && multiset(pooled)[k] <= 1 && multiset(out)[k] <= 1
    // the channel holds as many keys as there are addresses, so no goroutine ever blocks on sending
    ensures |w.pool.synced| + |w.pool.syncing| < |w.pool.addresses|
  {
    var bag := PoolBag(w.pool) + multiset(w.givenUp);
    assert k in PooledKeys(w.pool.synced) <==> multiset(PooledKeys(w.pool.synced))[k] > 0;
    assert k in SyncingKeys(w.pool.syncing) <==> multiset(SyncingKeys(w.pool.syncing))[k] > 0;
    assert k in w.givenUp <==> multiset(w.givenUp)[k] > 0;
    assert bag[k] <= 1;
    assert |bag| == |w.pool.synced| + |w.pool.syncing| + |w.givenUp|;
  }

  /** Replacing the channel is safe exactly when no goroutine is still out with a key. */
  lemma UpdateIsSafeExactlyWhenQuiet(w: World)
    requires KeysConserved(w)
    ensures KeysConserved(Next(w, UpdateNonces)) <==> w.pool.syncing == []
  {
    RefillBag(w.pool.addresses, Next(w, UpdateNonces).pool.nonces);
    var out := multiset(SyncingKeys(w.pool.syncing));
    if w.pool.syncing == [] {
      ConservedStep(w, UpdateNonces);
    } else {
      assert SyncingKeys(w.pool.syncing)[0] in out;
      var after := PoolBag(Next(w, UpdateNonces).pool);
      assert |after| > |multiset(KeysUpTo(|w.pool.addresses| - 1))|;
    }
  }

  /* ---------- Errors are never forgotten ---------- */

  predicate DecodeRefuses(w: World) { w.pool.errors > 0 }

  lemma {:induction false} ErrorsOnlyGrow(states: seq<World>, events: seq<Event>, i: nat, j: nat)
    requires IsRun(states, events) && i <= j < |states|
    ensures states[i].pool.errors <= states[j].pool.errors
  {
    if i < j {
      ErrorsOnlyGrow(states, events, i, j - 1);
      assert Enabled(states[j - 1], events[j - 1]) && states[j - 1 + 1] == Next(states[j - 1], events[j - 1]);
    }
  }

  /** Once a key was given up or a hand-out timed out, every later `Decode` is refused. */
  lemma FailuresStopDecoding(states: seq<World>, events: seq<Event>, i: nat, j: nat)
    requires IsRun(states, events) && i < j < |states|
    requires events[i].Abandon? || events[i].Timeout?
    ensures DecodeRefuses(states[j])
  {
    assert Enabled(states[i], events[i]) && states[i + 1] == Next(states[i], events[i]);
    ErrorsOnlyGrow(states, events, i + 1, j);
  }

  lemma {:induction false} GivenUpKeysAreReported(states: seq<World>, events: seq<Event>, i: nat)
    requires IsRun(states, events) && i < |states|
    ensures |states[i].givenUp| <= states[i].pool.errors
  {
    if i > 0 {
      GivenUpKeysAreReported(states, events, i - 1);
      assert Enabled(states[i - 1], events[i - 1]) && states[i - 1 + 1] == Next(states[i - 1], events[i - 1]);
    }
  }

  /* ---------- Nonces handed out by number ---------- */

  /** How often `NextNonce` is asked for this address by the events from i up to j. */
  function Asked(events: seq<Event>, a: Address, i: nat, j: nat): nat
    requires i <= j <= |events|
  {
    if i == j then 0 else Asked(events, a, i, j - 1) + if events[j - 1] == NextNonce(a) then 1 else 0
  }

  /** Between two updates the recorded nonce of an address counts the calls of `NextNonce` for it, and nothing else. */
  lemma {:induction false} NextNonceCountsUp(states: seq<World>, events: seq<Event>, a: Address, i: nat, j: nat)
    requires IsRun(states, events) && i <= j < |states|
    requires forall k :: i <= k < j ==> !events[k].UpdateNonces? && !events[k].UpdateFails?
    ensures NonceOf(states[j].pool.nonces, a) == NonceOf(states[i].pool.nonces, a) + Asked(events, a, i, j)
  {
    if i < j {
      NextNonceCountsUp(states, events, a, i, j - 1);
      assert Enabled(states[j - 1], events[j - 1]) && states[j - 1 + 1] == Next(states[j - 1], events[j - 1]);
    }
  }
}
