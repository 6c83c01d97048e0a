/**
 * What the pool promises about nonces: with distinct addresses, one transaction per hand-out and no
 * transaction outstanding when `UpdateNonces` runs, a pooled key always carries the chain's nonce.
 */
module KeyNonces {
  import opened Common
  import opened KeyPool

  /** The nonce of the latest hand-out of key k. */
  function Last(log: seq<KeyNonce>, k: nat): Option<nat> {
    if log == [] then None
    else if log[|log| - 1].keyNum == k then Some(log[|log| - 1].nonce)
    else Last(log[..|log| - 1], k)
  }

  /** Successive hand-outs of one key carry consecutive nonces. */
  ghost predicate Consecutive(log: seq<KeyNonce>) {
    log == [] ||
    (var before, x := log[..|log| - 1], log[|log| - 1];
     Consecutive(before) && (Last(before, x.keyNum).Some? ==> x.nonce == Last(before, x.keyNum).value + 1))
  }

  ghost function Chain(w: World, k: nat): nat
    requires k < |w.pool.addresses|
  {
    NonceOf(w.mined, w.pool.addresses[k])
  }

  /** A pooled key carries the nonce of its address and has nothing outstanding. */
  ghost predicate PooledAreCurrent(w: World) {
    forall i :: 0 <= i < |w.pool.synced| ==>
      var x := w.pool.synced[i];
      x.keyNum < |w.pool.addresses| && x.nonce == Chain(w, x.keyNum) && x.keyNum !in w.owed
  }

  /** A goroutine waits for the latest hand-out of its key. */
  ghost predicate SyncingAreLatest(w: World) {
    forall i :: 0 <= i < |w.pool.syncing| ==> Last(w.handedOut, w.pool.syncing[i].key.keyNum) == Some(w.pool.syncing[i].key.nonce)
  }

  /** The chain has passed the latest hand-out of a key exactly when nothing is owed for it. */
  ghost predicate ChainFollows(w: World) {
    && (forall k :: k in w.owed ==> 1 <= k < |w.pool.addresses| && Last(w.handedOut, k).Some?)
    && forall k :: 0 <= k < |w.pool.addresses| && Last(w.handedOut, k).Some? ==>
         Chain(w, k) == Last(w.handedOut, k).value + (if k in w.owed then 0 else 1)
  }

  ghost predicate NoncesAgree(w: World) {
    && Distinct(w.pool.addresses)
    && (forall i :: 0 <= i < |w.pool.addresses| ==> w.pool.addresses[i] in w.pool.nonces)
    && PooledAreCurrent(w) && SyncingAreLatest(w) && ChainFollows(w) && Consecutive(w.handedOut)
  }

  /** `UpdateNonces` waits until every hand-out has been mined. */
  predicate Settled(w: World, e: Event) { e.UpdateNonces? ==> w.pool.syncing == [] && w.owed == {} }

  lemma LastAppend(log: seq<KeyNonce>, x: KeyNonce, k: nat)
    ensures Last(log + [x], k) == if x.keyNum == k then Some(x.nonce) else Last(log, k)
  {
    assert (log + [x])[..|log|] == log;
  }

  lemma ConsecutiveAppend(log: seq<KeyNonce>, x: KeyNonce)
    requires Consecutive(log)
    requires Last(log, x.keyNum).Some? ==> x.nonce == Last(log, x.keyNum).value + 1
    ensures Consecutive(log + [x])
  {
    assert (log + [x])[..|log|] == log;
  }

  lemma OnlyOnce(s: seq<nat>, i: nat, j: nat)
    requires i < j < |s| && s[i] == s[j]
    ensures multiset(s)[s[i]] >= 2
  {
    assert s == s[..j] + s[j..];
    assert s[..j][i] in multiset(s[..j]) && s[j..][0] in multiset(s[j..]);
  }

  lemma OnlyOnceInPool(w: World, i: nat, j: nat)
    requires KeysConserved(w) && i < j < |w.pool.synced|
    ensures w.pool.synced[i].keyNum != w.pool.synced[j].keyNum
  {
    var s := PooledKeys(w.pool.synced);
    if s[i] == s[j] {
      OnlyOnce(s, i, j);
      KeysArePartitioned(w, s[i]);
    }
  }

  lemma HandOutLogged(w: World)
    requires NoncesAgree(w) && w.pool.synced != [] && 1 <= w.pool.synced[0].keyNum
    ensures var w', x := Next(w, HandOut), w.pool.synced[0];
            && ChainFollows(w') && Consecutive(w'.handedOut)
            && forall k :: Last(w'.handedOut, k) == if x.keyNum == k then Some(x.nonce) else Last(w.handedOut, k)
  {
    var w', x := Next(w, HandOut), w.pool.synced[0];
    ConsecutiveAppend(w.handedOut, x);
    forall k ensures Last(w'.handedOut, k) == if x.keyNum == k then Some(x.nonce) else Last(w.handedOut, k) {
      LastAppend(w.handedOut, x, k);
    }
    assert forall k :: 0 <= k < |w.pool.addresses| ==> Chain(w', k) == Chain(w, k);
  }

  lemma HandOutPooled(w: World)
    requires KeysConserved(w) && PooledAreCurrent(w) && w.pool.synced != []
    ensures PooledAreCurrent(Next(w, HandOut))
  {
    forall i | 1 <= i < |w.pool.synced| ensures w.pool.synced[i].keyNum != w.pool.synced[0].keyNum {
      OnlyOnceInPool(w, 0, i);
    }
  }

  lemma HandOutStep(w: World)
    requires KeysConserved(w) && NoncesAgree(w) && w.pool.synced != []
    ensures NoncesAgree(Next(w, HandOut))
  {
    var w', x := Next(w, HandOut), w.pool.synced[0];
    KeysArePartitioned(w, x.keyNum);
    assert PooledKeys(w.pool.synced)[0] == x.keyNum;
    HandOutLogged(w);
    HandOutPooled(w);
    assert SyncingAreLatest(w') by {
      forall i | 0 <= i < |w.pool.syncing| ensures w.pool.syncing[i].key.keyNum != x.keyNum {
        assert SyncingKeys(w.pool.syncing)[i] == w.pool.syncing[i].key.keyNum;
      }
    }
  }

  lemma TrySyncStep(w: World, i: nat, answered: bool)
    requires NoncesAgree(w) && Enabled(w, TrySync(i, answered))
    ensures NoncesAgree(Next(w, TrySync(i, answered)))
  {
    var w', s := Next(w, TrySync(i, answered)), w.pool.syncing[i];
    assert Last(w.handedOut, s.key.keyNum) == Some(s.key.nonce);
    assert SyncingAreLatest(w');
    assert PooledAreCurrent(w');
  }

  lemma MineStep(w: World, k: nat)
    requires NoncesAgree(w) && Enabled(w, Mine(k))
    ensures NoncesAgree(Next(w, Mine(k)))
  {
    var w' := Next(w, Mine(k));
    assert forall j :: 0 <= j < |w.pool.addresses| && j != k ==> Chain(w', j) == Chain(w, j);
    assert PooledAreCurrent(w');
    assert ChainFollows(w');
  }

  lemma UpdateStep(w: World)
    requires NoncesAgree(w) && Settled(w, UpdateNonces) && Enabled(w, UpdateNonces)
    ensures NoncesAgree(Next(w, UpdateNonces))
  {
    var w' := Next(w, UpdateNonces);
    assert forall k :: 0 <= k < |w.pool.addresses| ==> NonceOf(w'.pool.nonces, w.pool.addresses[k]) == Chain(w, k);
    assert PooledAreCurrent(w');
  }

  /** Steps that touch neither the channel nor the chain. */
  lemma OtherStep(w: World, e: Event)
    requires NoncesAgree(w) && Enabled(w, e) && (e.Abandon? || e.Timeout? || e.UpdateFails? || e.NextNonce?)
    ensures NoncesAgree(Next(w, e))
  {
    var w' := Next(w, e);
    assert w'.pool.synced == w.pool.synced && w'.handedOut == w.handedOut;
    assert PooledAreCurrent(w') && SyncingAreLatest(w') && ChainFollows(w');
  }

  lemma NoncesStep(w: World, e: Event)
    requires KeysConserved(w) && NoncesAgree(w) && Enabled(w, e) && Settled(w, e)
    ensures NoncesAgree(Next(w, e))
  {
    match e
    case HandOut => HandOutStep(w);
    case TrySync(i, answered) => TrySyncStep(w, i, answered);
    case Mine(k) => MineStep(w, k);
    case UpdateNonces => UpdateStep(w);
    case Abandon(_) => OtherStep(w, e);
    case Timeout => OtherStep(w, e);
    case UpdateFails(_) => OtherStep(w, e);
    case NextNonce(_) => OtherStep(w, e);
  }

  /** Any interleaving from a given state on, in which the channel is refilled only in a settled state. */
  ghost predicate Continuation(start: World, states: seq<World>, events: seq<Event>) {
    && |states| == |events| + 1 && states[0] == start
    && forall i :: 0 <= i < |events| ==>
         Enabled(states[i], events[i]) && Settled(states[i], events[i]) && states[i + 1] == Next(states[i], events[i])
  }

  lemma {:induction false} ContinuationKeepsNonces(start: World, states: seq<World>, events: seq<Event>, i: nat)
    requires KeysConserved(start) && NoncesAgree(start) && Continuation(start, states, events) && i < |states|
    ensures KeysConserved(states[i]) && NoncesAgree(states[i])
  {
    if i > 0 {
      ContinuationKeepsNonces(start, states, events, i - 1);
      assert Settled(states[i - 1], events[i - 1]) && states[i - 1 + 1] == Next(states[i - 1], events[i - 1]);
      ConservedStep(states[i - 1], events[i - 1]);
      NoncesStep(states[i - 1], events[i - 1]);
    }
  }

  ghost predicate SettledRun(states: seq<World>, events: seq<Event>) {
    && |states| > 0 && Initial(states[0]) && Distinct(states[0].pool.addresses)
    && Continuation(states[0], states, events)
  }

  /** In every reachable state the pool and the chain agree on every nonce. */
  lemma RunKeepsNonces(states: seq<World>, events: seq<Event>, i: nat)
    requires SettledRun(states, events) && i < |states|
    ensures NoncesAgree(states[i])
  {
    assert KeysConserved(states[0]) && NoncesAgree(states[0]);
    ContinuationKeepsNonces(states[0], states, events, i);
  }

  lemma {:induction false} LastIsLatest(log: seq<KeyNonce>, i: nat)
    requires Consecutive(log) && i < |log|
    ensures Last(log, log[i].keyNum).Some? && log[i].nonce <= Last(log, log[i].keyNum).value
  {
    var before := log[..|log| - 1];
    if i < |before| {
      LastIsLatest(before, i);
    }
  }

  lemma {:induction false} ConsecutiveIncreases(log: seq<KeyNonce>, i: nat, j: nat)
    requires Consecutive(log) && i < j < |log| && log[i].keyNum == log[j].keyNum
    ensures log[i].nonce < log[j].nonce
  {
    var before := log[..|log| - 1];
    if j < |before| {
      ConsecutiveIncreases(before, i, j);
    } else {
      LastIsLatest(before, i);
    }
  }

  /** No two holders, ever, are given the same key with the same nonce: later hand-outs of a key carry later nonces. */
  lemma NeverTheSameNonceTwice(states: seq<World>, events: seq<Event>, n: nat, i: nat, j: nat)
    requires SettledRun(states, events) && n < |states| && i < j < |states[n].handedOut|
    requires states[n].handedOut[i].keyNum == states[n].handedOut[j].keyNum
    ensures states[n].handedOut[i].nonce < states[n].handedOut[j].nonce
  {
    RunKeepsNonces(states, events, n);
    ConsecutiveIncreases(states[n].handedOut, i, j);
  }

  /* ---------- Refilling while a hand-out is still to be mined ---------- */

  ghost predicate Repeats(log: seq<KeyNonce>) { exists i, j :: 0 <= i < j < |log| && log[i] == log[j] }

  /** From here on some interleaving hands the same key out twice with the same nonce. */
  ghost predicate MayRepeat(w: World) {
    exists states: seq<World>, events :: Continuation(w, states, events) && Repeats(states[|events|].handedOut)
  }

  lemma {:induction false} LastOccurs(log: seq<KeyNonce>, k: nat) returns (i: nat)
    requires Last(log, k).Some?
    ensures i < |log| && log[i] == KeyNonce(k, Last(log, k).value)
  {
    if log[|log| - 1].keyNum == k {
      i := |log| - 1;
    } else {
      i := LastOccurs(log[..|log| - 1], k);
    }
  }

  ghost function HandOuts(w: World, n: nat): (r: World)
    requires n <= |w.pool.synced|
    ensures r.pool.synced == w.pool.synced[n..] && r.handedOut == w.handedOut + w.pool.synced[..n]
  {
    if n == 0 then w else Next(HandOuts(w, n - 1), HandOut)
  }

  lemma HandOutsContinue(w: World, n: nat) returns (states: seq<World>, events: seq<Event>)
    requires n <= |w.pool.synced|
    ensures Continuation(w, states, events) && |events| == n && states[n] == HandOuts(w, n)
  {
    states := seq(n + 1, m requires 0 <= m <= n => HandOuts(w, m));
    events := seq(n, m => HandOut);
  }

  /** The refilled channel offers key k with the nonce its latest holder was given. */
  lemma OwedIsRepeated(w: World, k: nat)
    requires NoncesAgree(w) && w.pool.addresses != [] && k in w.owed
    ensures MayRepeat(Next(w, UpdateNonces))
  {
    var w' := Next(w, UpdateNonces);
    assert w'.pool.synced[k - 1] == KeyNonce(k, Chain(w, k));
    var i := LastOccurs(w.handedOut, k);
    var states, events := HandOutsContinue(w', k);
    var log := states[k].handedOut;
    assert log[i] == log[|w.handedOut| + k - 1];
  }

  lemma NothingIsRepeated(w: World, states: seq<World>, events: seq<Event>)
    requires KeysConserved(w) && NoncesAgree(w) && Continuation(w, states, events)
    ensures !Repeats(states[|events|].handedOut)
  {
    ContinuationKeepsNonces(w, states, events, |events|);
    var log := states[|events|].handedOut;
    forall i, j | 0 <= i < j < |log| ensures log[i] != log[j] {
      if log[i].keyNum == log[j].keyNum {
        ConsecutiveIncreases(log, i, j);
      }
    }
  }

  /**
   * With no key out, `UpdateNonces` lets some later holder be given a key and nonce that were handed out
   * before if and only if a hand-out is still to be mined.
   */
  lemma RefillMayRepeatExactlyWhenOwed(w: World)
    requires NoncesAgree(w) && w.pool.syncing == [] && w.pool.addresses != []
    ensures MayRepeat(Next(w, UpdateNonces)) <==> w.owed != {}
  {
    if w.owed != {} {
      var k :| k in w.owed;
      OwedIsRepeated(w, k);
    } else {
      var w' := Next(w, UpdateNonces);
      UpdateStep(w);
      RefillIsConserved(w);
      forall states: seq<World>, events | Continuation(w', states, events) ensures !Repeats(states[|events|].handedOut) {
        NothingIsRepeated(w', states, events);
      }
    }
  }

  lemma ContinuationAppend(start: World, states: seq<World>, events: seq<Event>, e: Event)
    requires Continuation(start, states, events) && Enabled(states[|events|], e) && Settled(states[|events|], e)
    ensures Continuation(start, states + [Next(states[|events|], e)], events + [e])
  {
  }

  /** The first key is handed out and n attempts to sync it stay without an answer. */
  lemma {:induction false} Unanswered(w: World, n: nat) returns (states: seq<World>, events: seq<Event>)
    requires Initial(w) && |w.pool.addresses| >= 2 && n <= w.retries
    ensures Continuation(w, states, events)
    ensures var last := states[|events|];
            && |last.pool.syncing| == 1 && last.pool.syncing[0].attemptsLeft == w.retries - n
            && 1 in last.owed && last.pool.addresses == w.pool.addresses && last.retries == w.retries
  {
    if n == 0 {
      var w1 := Next(w, UpdateNonces);
      var w2 := Next(w1, HandOut);
      states, events := [w, w1, w2], [UpdateNonces, HandOut];
    } else {
      states, events := Unanswered(w, n - 1);
      ContinuationAppend(w, states, events, TrySync(0, false));
      states, events := states + [Next(states[|events|], TrySync(0, false))], events + [TrySync(0, false)];
    }
  }

  /** Whatever the configuration, such a refill is reached when a key is given up while its transaction is pending. */
  lemma StuckTransactionIsRepeated(w: World) returns (states: seq<World>, events: seq<Event>)
    requires Initial(w) && Distinct(w.pool.addresses) && |w.pool.addresses| >= 2
    ensures states != [] && states[0] == w && SettledRun(states, events)
    ensures var last := states[|events|];
            last.pool.addresses == w.pool.addresses && last.pool.syncing == [] && MayRepeat(Next(last, UpdateNonces))
  {
    states, events := Unanswered(w, w.retries);
    ContinuationAppend(w, states, events, Abandon(0));
    states, events := states + [Next(states[|events|], Abandon(0))], events + [Abandon(0)];
    RunKeepsNonces(states, events, |events|);
    RefillMayRepeatExactlyWhenOwed(states[|events|]);
  }
}
