/** `NonceManager` as an object; each method is one atomic step of the pool protocol. */
module NonceManager {
  import opened Common
  import opened KeyPool

  const TIMEOUT_KEY_NUM := -80001

  class Manager {
    const addresses: seq<Address>
    const keySyncRetries: nat
    var nonces: map<Address, nat>
    var syncedKeys: seq<KeyNonce>
    // goroutines started by anySyncedKey that have not returned yet
    var syncing: seq<Sync>
    // length of Client.Errors
    var errors: nat

    function State(): Pool
      reads this
    {
      Pool(addresses, nonces, syncedKeys, syncing, errors)
    }

    constructor (addresses: seq<Address>, keySyncRetries: nat)
      ensures this.addresses == addresses && this.keySyncRetries == keySyncRetries
      ensures State() == Pool(addresses, map a | a in addresses :: 0, [], [], 0)
    {
      this.addresses, this.keySyncRetries := addresses, keySyncRetries;
      syncedKeys, syncing, errors := [], [], 0;
      var zeros: map<Address, nat> := map[];
      for i := 0 to |addresses|
        invariant zeros == map a | a in addresses[..i] :: 0
      {
        zeros := zeros[addresses[i] := 0];
      }
      assert addresses[..|addresses|] == addresses;
      nonces := zeros;
    }

    /**
     * `answer` is what the node says for each address, `None` an RPC error. The map is ranged over in
     * any order, and the first error leaves the nonces half updated and the channel as it was.
     */
    method UpdateNonces(answer: Address -> Option<nat>) returns (ok: bool)
      requires addresses != []
      modifies this`nonces, this`syncedKeys
      ensures ok <==> forall a :: a in old(nonces) ==> answer(a).Some?
      ensures ok ==> State() == Refresh(old(State()), map a | a in old(nonces) && answer(a).Some? :: answer(a).value)
      ensures ok ==> forall a :: a in nonces ==> answer(a) == Some(nonces[a])
      ensures ok ==> |syncedKeys| == |addresses| - 1
      ensures ok ==> forall i :: 1 <= i < |addresses| && addresses[i] in old(nonces) ==>
        syncedKeys[i - 1].keyNum == i && Some(syncedKeys[i - 1].nonce) == answer(addresses[i])
      ensures !ok ==> syncedKeys == old(syncedKeys) && nonces.Keys == old(nonces).Keys
      ensures !ok ==> forall a :: a in nonces ==> nonces[a] == old(nonces[a]) || answer(a) == Some(nonces[a])
    {
      var todo := nonces.Keys;
      while todo != {}
        invariant todo <= nonces.Keys == old(nonces).Keys && syncedKeys == old(syncedKeys)
        invariant forall a :: a in nonces ==>
          if a in todo then nonces[a] == old(nonces)[a] else answer(a) == Some(nonces[a])
        decreases todo
      {
        var a :| a in todo;
        if answer(a).None? { return false; }
        nonces := nonces[a := answer(a).value];
        todo := todo - {a};
      }
      assert nonces == map a | a in old(nonces) && answer(a).Some? :: answer(a).value;
      var keys: seq<KeyNonce> := [];
      for i := 1 to |addresses|
        invariant keys == Refill(addresses, nonces)[..i - 1]
      {
        keys := keys + [KeyNonce(i, NonceOf(nonces, addresses[i]))];
      }
      syncedKeys := keys;
      return true;
    }

    method NextNonce(a: Address) returns (nonce: nat)
      modifies this`nonces
      ensures nonce == NonceOf(old(nonces), a) && (a in old(nonces) ==> nonce == old(nonces)[a])
      ensures State() == old(State()).(nonces := old(nonces)[a := nonce + 1])
    {
      nonce := NonceOf(nonces, a);
      nonces := nonces[a := nonce + 1];
    }

    /** The select: when both branches are ready either may be taken, so `expired` is a parameter. */
    method AnySyncedKey(expired: bool) returns (keyNum: int)
      modifies this`syncedKeys, this`syncing, this`errors
      ensures if expired || old(syncedKeys) == []
              then keyNum == TIMEOUT_KEY_NUM && State() == old(State()).(errors := old(errors) + 1)
              else keyNum == old(syncedKeys)[0].keyNum && State() == Take(old(State()), keySyncRetries)
      ensures keyNum == -80001 <==> expired || old(syncedKeys) == []
      ensures !expired && old(syncedKeys) != [] ==>
        && old(syncedKeys) == [old(syncedKeys)[0]] + syncedKeys
        && syncing == old(syncing) + [Sync(old(syncedKeys)[0], keySyncRetries)] && errors == old(errors)
    {
      if expired || syncedKeys == [] {
        errors := errors + 1;
        return TIMEOUT_KEY_NUM;
      }
      var keyData := syncedKeys[0];
      syncedKeys := syncedKeys[1..];
      syncing := syncing + [Sync(keyData, keySyncRetries)];
      return keyData.keyNum;
    }

    /** One round of goroutine i: ask the chain, put the key back, or retry, or report and stop. */
    method SyncRound(i: nat, answer: Option<nat>)
      requires i < |syncing|
      modifies this`syncedKeys, this`syncing, this`errors
      ensures State() == if old(syncing)[i].attemptsLeft == 0 then GiveUp(old(State()), i)
                         else Attempt(old(State()), i, answer)
      // the key goes back, with its nonce moved by one, after exactly one new nonce and at no other time
      ensures var s := old(syncing)[i];
              var mined := s.attemptsLeft > 0 && answer == Some(s.key.nonce + 1);
              && syncedKeys == old(syncedKeys) + (if mined then [KeyNonce(s.key.keyNum, s.key.nonce + 1)] else [])
              && errors == old(errors) + (if s.attemptsLeft == 0 then 1 else 0)
              && syncing == if mined || s.attemptsLeft == 0 then old(syncing[..i] + syncing[i + 1..])
                            else old(syncing)[i := Sync(s.key, s.attemptsLeft - 1)]
    {
      var s := syncing[i];
      if s.attemptsLeft == 0 {
        errors := errors + 1;
        syncing := RemoveAt(syncing, i);
      } else if answer == Some(s.key.nonce + 1) {
        syncing := RemoveAt(syncing, i);
        syncedKeys := syncedKeys + [KeyNonce(s.key.keyNum, s.key.nonce + 1)];
      } else {
        syncing := syncing[i := s.(attemptsLeft := s.attemptsLeft - 1)];
      }
    }
  }
}
