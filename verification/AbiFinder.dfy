/**
 * Which ABI belongs to an address: the finder guesses from selectors, remembers its guess in the contract
 * map and corrects it when a selector does not fit. Maps are ranged over in any order, so the guess is
 * any ABI that has the selector.
 */
module AbiFinder {
  import opened Common

  // An ABI as the set of selectors of its methods.
  type Abi = set<string>

  type Abis = map<string, Abi>

  type Names = map<string, string>

  const SUFFIX := ".abi"

  predicate HasSuffix(name: string) {
    |name| >= |SUFFIX| && forall i :: 0 <= i < |SUFFIX| ==> name[|name| - |SUFFIX| + i] == SUFFIX[i]
  }

  function TrimSuffix(name: string): string { if HasSuffix(name) then name[..|name| - 4] else name }

  function WithSuffix(name: string): string { if HasSuffix(name) then name else name + SUFFIX }

  function ToLower(s: string): string { seq(|s|, i requires 0 <= i < |s| => LowerChar(s[i])) }

  /** The same letter, or its capital. */
  predicate SameLetter(x: char, y: char) {
    x == y || ('A' <= x <= 'Z' && y as int == x as int + 32) || ('A' <= y <= 'Z' && x as int == y as int + 32)
  }

  /** Two spellings of one address: they differ at most in the case of letters. */
  predicate SameAddress(a: string, b: string) {
    |a| == |b| && forall i :: 0 <= i < |a| ==> SameLetter(a[i], b[i])
  }

  /** The contract map's keys tell two addresses apart exactly when they differ in more than case. */
  lemma SameKeyExactlyForSameAddress(a: string, b: string)
    ensures ToLower(a) == ToLower(b) <==> SameAddress(a, b)
  {
    if ToLower(a) == ToLower(b) {
      assert |ToLower(a)| == |ToLower(b)|;
      forall i | 0 <= i < |a| ensures SameLetter(a[i], b[i]) {
        assert ToLower(a)[i] == ToLower(b)[i];
      }
    }
    if SameAddress(a, b) {
      assert forall i :: 0 <= i < |a| ==> ToLower(a)[i] == ToLower(b)[i];
    }
  }

  function NameAt(names: Names, address: string): string {
    if ToLower(address) in names then names[ToLower(address)] else ""
  }

  function WithContract(names: Names, address: string, name: string): Names {
    if address == UNKNOWN then names else names[ToLower(address) := TrimSuffix(name)]
  }

  function Having(abis: Abis, selector: string): set<string> { set k | k in abis && selector in abis[k] }

  datatype Found = Found(contractName: string, duplicateCount: int)

  datatype FindError = NoAbiFound | NoAbiMethod

  /** What one lookup may answer, and the contract map it may leave behind. */
  ghost predicate Finds(
      abis: Abis, names: Names, address: string, selector: string, r: Result<Found, FindError>, names': Names)
  {
    var name := NameAt(names, address);
    if name != "" && name + SUFFIX !in abis then r == Err(NoAbiFound) && names' == names
    else if name != "" && selector in abis[name + SUFFIX] then r == Ok(Found(name, 0)) && names' == names
    else if Having(abis, selector) == {} then r == Err(NoAbiMethod) && names' == names
    else exists k :: Guesses(abis, names, address, selector, k, r, names')
  }

  ghost predicate Guesses(
      abis: Abis, names: Names, address: string, selector: string, k: string, r: Result<Found, FindError>, names': Names)
  {
    && k in Having(abis, selector)
    && r == Ok(Found(k, |Having(abis, selector)| - 1)) && names' == WithContract(names, address, k)
  }

  class ContractStore {
    var abis: Abis

    constructor ()
      ensures abis == map[]
    {
      abis := map[];
    }

    method GetABI(name: string) returns (r: Option<Abi>)
      ensures r == if WithSuffix(name) in abis then Some(abis[WithSuffix(name)]) else None
    {
      var key := name;
      if !HasSuffix(name) { key := name + SUFFIX; }
      r := if key in abis then Some(abis[key]) else None;
    }

    method AddABI(name: string, abi: Abi)
      modifies this`abis
      ensures abis == old(abis)[WithSuffix(name) := abi]
    {
      var key := name;
      if !HasSuffix(name) { key := name + SUFFIX; }
      abis := abis[key := abi];
    }
  }

  class ContractMap {
    var addressMap: Names

    constructor ()
      ensures addressMap == map[]
    {
      addressMap := map[];
    }

    method IsKnownAddress(address: string) returns (known: bool)
      ensures known <==> NameAt(addressMap, address) != ""
    {
      known := ToLower(address) in addressMap && addressMap[ToLower(address)] != "";
    }

    method GetContractName(address: string) returns (name: string)
      ensures name == NameAt(addressMap, address)
    {
      name := if ToLower(address) in addressMap then addressMap[ToLower(address)] else "";
    }

    method AddContract(address: string, name: string)
      modifies this`addressMap
      ensures addressMap == WithContract(old(addressMap), address, name)
      ensures forall b: string ::
        NameAt(addressMap, b) ==
        (if address != UNKNOWN && SameAddress(address, b) then TrimSuffix(name) else NameAt(old(addressMap), b))
    {
      forall b: string ensures ToLower(address) == ToLower(b) <==> SameAddress(address, b) {
        SameKeyExactlyForSameAddress(address, b);
      }
      if address == UNKNOWN { return; }
      addressMap := addressMap[ToLower(address) := TrimSuffix(name)];
    }
  }

  class Finder {
    const contractMap: ContractMap
    const contractStore: ContractStore

    constructor (contractMap: ContractMap, contractStore: ContractStore)
      ensures this.contractMap == contractMap && this.contractStore == contractStore
    {
      this.contractMap, this.contractStore := contractMap, contractStore;
    }

    method GetDuplicateCount(selector: string) returns (count: int)
      ensures count == |Having(contractStore.abis, selector)| - 1
    {
      count := 0;
      var todo := contractStore.abis.Keys;
      ghost var seen: set<string> := {};
      while todo != {}
        invariant todo <= contractStore.abis.Keys
        invariant seen == set k | k in contractStore.abis && k !in todo && selector in contractStore.abis[k]
        invariant count == |seen|
        decreases todo
      {
        var k :| k in todo;
        if selector in contractStore.abis[k] {
          count := count + 1;
          seen := seen + {k};
        }
        todo := todo - {k};
      }
      assert seen == Having(contractStore.abis, selector);
      count := count - 1;
    }

    /** The first ABI, in any order of iteration, that has the selector. */
    method AnyHaving(selector: string) returns (r: Option<string>)
      ensures r.Some? ==> r.value in Having(contractStore.abis, selector)
      ensures r.None? ==> Having(contractStore.abis, selector) == {}
    {
      var todo := contractStore.abis.Keys;
      while todo != {}
        invariant todo <= contractStore.abis.Keys
        invariant forall k :: k in contractStore.abis && k !in todo ==> selector !in contractStore.abis[k]
        decreases todo
      {
        var k :| k in todo;
        if selector in contractStore.abis[k] { return Some(k); }
        todo := todo - {k};
      }
      return None;
    }

    method FindABIByMethod(address: string, selector: string) returns (r: Result<Found, FindError>)
      modifies contractMap
      ensures Finds(contractStore.abis, old(contractMap.addressMap), address, selector, r, contractMap.addressMap)
    {
      var known := contractMap.IsKnownAddress(address);
      if known {
        var contractName := contractMap.GetContractName(address);
        if contractName + SUFFIX !in contractStore.abis { return Err(NoAbiFound); }
        if selector in contractStore.abis[contractName + SUFFIX] { return Ok(Found(contractName, 0)); }
      }
      var k := AnyHaving(selector);
      if k.None? { return Err(NoAbiMethod); }
      var duplicates := GetDuplicateCount(selector);
      contractMap.AddContract(address, k.value);
      r := Ok(Found(k.value, duplicates));
      assert Guesses(contractStore.abis, old(contractMap.addressMap), address, selector, k.value, r, contractMap.addressMap);
    }
  }

  /* ---------- One lookup ---------- */

  /** Keys of the store end in `.abi` and have a name before it. */
  ghost predicate StoreOk(abis: Abis) { forall k :: k in abis ==> HasSuffix(k) && |k| > 4 }

  /** The contract map only names contracts of the store. */
  ghost predicate MapOk(abis: Abis, names: Names) {
    forall a :: a in names ==> names[a] != "" && names[a] + SUFFIX in abis
  }

  /** A name loses one `.abi` at its end and nothing else. */
  lemma TrimsExactlyTheSuffix(name: string, base: string)
    ensures name == base + ".abi" ==> TrimSuffix(name) == base && WithSuffix(name) == name
    ensures (forall x :: name != x + ".abi") ==> TrimSuffix(name) == name && WithSuffix(name) == name + ".abi"
    ensures WithSuffix(name) == TrimSuffix(name) + ".abi"
  {
    if HasSuffix(name) {
      TrimUndoes(name);
      assert name == name[..|name| - 4] + ".abi";
    }
    if name == base + ".abi" {
      assert name[..|name| - 4] == base;
    }
  }

  /** How a lookup ends, whatever the store and the map hold. */
  lemma EndsExactlyWith(abis: Abis, names: Names, address: string, selector: string, r: Result<Found, FindError>, names': Names)
    requires Finds(abis, names, address, selector, r, names')
    ensures var name := NameAt(names, address);
            && (r == Err(NoAbiFound) <==> name != "" && name + ".abi" !in abis)
            && (r == Err(NoAbiMethod) <==>
                 (name == "" || name + ".abi" in abis) && forall k :: k in abis ==> selector !in abis[k])
            && (r.Ok? && name != "" && selector in abis[name + ".abi"] ==> r == Ok(Found(name, 0)) && names' == names)
            && (r.Ok? && !(name != "" && selector in abis[name + ".abi"]) ==>
                 && r.value.contractName in abis && selector in abis[r.value.contractName]
                 && r.value.duplicateCount + 1 == |set k | k in abis && selector in abis[k]|
                 && names' == WithContract(names, address, r.value.contractName))
  {
    var name := NameAt(names, address);
    if name != "" && name + SUFFIX in abis && selector in abis[name + SUFFIX] {
      assert name + SUFFIX in Having(abis, selector);
    }
    assert Having(abis, selector) == {} <==> forall k :: k in abis ==> k !in Having(abis, selector);
  }

  /**
   * A contract deployed under a name, with the suffix or without, is found by every method of its ABI, however
   * the address is spelled, with no other candidate and without changing the map.
   */
  lemma DeployedIsFound(
      abis: Abis, names: Names, a: string, b: string, base: string, name: string, selector: string,
      r: Result<Found, FindError>, names': Names)
    requires a != UNKNOWN && SameAddress(a, b) && base != ""
    requires name == base + ".abi" || (name == base && forall x :: base != x + ".abi")
    requires base + ".abi" in abis && selector in abis[base + ".abi"]
    requires Finds(abis, WithContract(names, a, name), b, selector, r, names')
    ensures r == Ok(Found(base, 0)) && names' == WithContract(names, a, name)
  {
    SameKeyExactlyForSameAddress(a, b);
    TrimsExactlyTheSuffix(name, base);
    assert NameAt(WithContract(names, a, name), b) == base;
  }

  /** What a deployment records: the address in the map, and the ABI in the store unless its name is taken. */
  method RegisterDeployment(contractMap: ContractMap, contractStore: ContractStore, address: string, name: string, abi: Abi)
    modifies contractMap`addressMap, contractStore`abis
    ensures contractMap.addressMap == WithContract(old(contractMap.addressMap), address, name)
    ensures contractStore.abis ==
      if WithSuffix(name) in old(contractStore.abis) then old(contractStore.abis)
      else old(contractStore.abis)[TrimSuffix(name) + ".abi" := abi]
  {
    TrimsExactlyTheSuffix(name, "");
    contractMap.AddContract(address, name);
    var known := contractStore.GetABI(name);
    if known.None? {
      contractStore.AddABI(name, abi);
    }
  }

  lemma TrimUndoes(k: string)
    requires HasSuffix(k)
    ensures TrimSuffix(k) + SUFFIX == k
  {
  }

  lemma FindsKeepsMap(abis: Abis, names: Names, address: string, selector: string, r: Result<Found, FindError>, names': Names)
    requires StoreOk(abis) && MapOk(abis, names) && Finds(abis, names, address, selector, r, names')
    ensures MapOk(abis, names')
  {
    if names' != names {
      var k :| Guesses(abis, names, address, selector, k, r, names');
      TrimUndoes(k);
    }
  }

  /** A lookup fails exactly when no ABI of the store has the selector. */
  lemma FailsExactlyWhenNoAbiHasIt(abis: Abis, names: Names, address: string, selector: string, r: Result<Found, FindError>, names': Names)
    requires MapOk(abis, names) && Finds(abis, names, address, selector, r, names')
    ensures r.Err? <==> Having(abis, selector) == {}
    ensures r.Err? ==> names' == names
  {
    var name := NameAt(names, address);
    if name != "" && selector in abis[name + SUFFIX] {
      assert name + SUFFIX in Having(abis, selector);
    }
  }

  /** What a lookup has found for an address it finds again, without doubt and without changing the map. */
  lemma SuccessRepeats(
      abis: Abis, names: Names, address: string, selector: string, r: Result<Found, FindError>, names': Names,
      again: Result<Found, FindError>, names'': Names)
    requires StoreOk(abis) && MapOk(abis, names) && address != UNKNOWN
    requires Finds(abis, names, address, selector, r, names') && r.Ok?
    requires Finds(abis, names', address, selector, again, names'')
    ensures again == Ok(Found(NameAt(names', address), 0)) && names'' == names'
    ensures r.value.contractName == NameAt(names', address) || r.value.contractName == NameAt(names', address) + SUFFIX
  {
    var name := NameAt(names, address);
    if !(name != "" && selector in abis[name + SUFFIX]) {
      assert Having(abis, selector) != {} by { FailsExactlyWhenNoAbiHasIt(abis, names, address, selector, r, names'); }
      var k :| Guesses(abis, names, address, selector, k, r, names');
      TrimUndoes(k);
    }
  }

  /* ---------- Many lookups and deployments ---------- */

  /** A call is looked up, or a contract of the store is deployed (or loaded) at an address. */
  datatype Action = Lookup(address: string, selector: string) | Deploy(address: string, name: string)

  /** Deploying adds the contract's ABI to the store; here the store holds it from the start. */
  ghost predicate ActionsOk(abis: Abis, actions: seq<Action>) {
    forall i :: 0 <= i < |actions| ==> ActionOk(abis, actions[i])
  }

  predicate ActionOk(abis: Abis, a: Action) { a.Deploy? ==> TrimSuffix(a.name) + SUFFIX in abis }

  ghost predicate StepOf(abis: Abis, names: Names, a: Action, names': Names) {
    match a
    case Lookup(address, selector) => exists r :: Finds(abis, names, address, selector, r, names')
    case Deploy(address, name) => names' == WithContract(names, address, name)
  }

  /** Actions at any addresses, one after the other; `maps` are the contract maps in between. */
  ghost predicate IsRun(abis: Abis, start: Names, maps: seq<Names>, actions: seq<Action>) {
    && |maps| == |actions| + 1 && maps[0] == start
    && forall i :: 0 <= i < |actions| ==> StepsAt(abis, maps, actions, i)
  }

  ghost predicate StepsAt(abis: Abis, maps: seq<Names>, actions: seq<Action>, i: nat)
    requires i < |actions| < |maps|
  {
    StepOf(abis, maps[i], actions[i], maps[i + 1])
  }

  predicate At(a: Action, address: string) { SameAddress(a.address, address) }

  /** The address belongs to contract c: it alone is deployed there, and only its methods are called. */
  ghost predicate BelongsTo(abis: Abis, actions: seq<Action>, address: string, c: string) {
    c in abis && forall i :: 0 <= i < |actions| && At(actions[i], address) ==> Concerns(abis, actions[i], c)
  }

  predicate Concerns(abis: Abis, a: Action, c: string)
    requires c in abis
  {
    match a
    case Lookup(_, selector) => selector in abis[c]
    case Deploy(_, name) => TrimSuffix(name) == TrimSuffix(c)
  }

  /** An action that leaves no choice but c: a deployment, or a call that no other ABI has. */
  predicate Telling(abis: Abis, a: Action, c: string) { a.Deploy? || Having(abis, a.selector) == {c} }

  ghost predicate HasTelling(abis: Abis, actions: seq<Action>, address: string, c: string) {
    exists i :: 0 <= i < |actions| && At(actions[i], address) && Telling(abis, actions[i], c)
  }

  lemma NameOfKey(name: string, c: string)
    requires HasSuffix(c)
    ensures name + SUFFIX == c <==> name == TrimSuffix(c)
  {
    TrimUndoes(c);
    if name + SUFFIX == c {
      assert c[..|c| - 4] == name;
    }
  }

  lemma StepKeepsMap(abis: Abis, names: Names, a: Action, names': Names)
    requires StoreOk(abis) && MapOk(abis, names) && ActionOk(abis, a) && StepOf(abis, names, a, names')
    ensures MapOk(abis, names')
  {
    match a
    case Lookup(address, selector) =>
      var r :| Finds(abis, names, address, selector, r, names');
      FindsKeepsMap(abis, names, address, selector, r, names');
    case Deploy(_, name) => assert TrimSuffix(name) == "" ==> |TrimSuffix(name) + SUFFIX| == 4;
  }

  lemma OtherAddressUntouched(abis: Abis, names: Names, a: Action, names': Names, address: string)
    requires StepOf(abis, names, a, names') && !At(a, address)
    ensures NameAt(names', address) == NameAt(names, address)
  {
    SameKeyExactlyForSameAddress(a.address, address);
    if a.Lookup? && names' != names {
      var r :| Finds(abis, names, a.address, a.selector, r, names');
      var k :| Guesses(abis, names, a.address, a.selector, k, r, names');
    }
  }

  /** The contract map has the address right. */
  predicate Right(names: Names, address: string, c: string) { NameAt(names, address) == TrimSuffix(c) }

  /** An action keeps a correct name. */
  lemma StepKeepsRight(abis: Abis, names: Names, a: Action, names': Names, address: string, c: string)
    requires StoreOk(abis) && c in abis && StepOf(abis, names, a, names')
    requires Right(names, address, c) && (At(a, address) ==> Concerns(abis, a, c))
    ensures Right(names', address, c)
  {
    SameKeyExactlyForSameAddress(a.address, address);
    if !At(a, address) {
      OtherAddressUntouched(abis, names, a, names', address);
    } else if a.Lookup? {
      var r :| Finds(abis, names, a.address, a.selector, r, names');
      NameOfKey(NameAt(names, address), c);
    }
  }

  /** A deployment, or a lookup of a unique selector, makes the name correct. */
  lemma StepTells(abis: Abis, names: Names, a: Action, names': Names, c: string)
    requires StoreOk(abis) && MapOk(abis, names) && c in abis && a.address != UNKNOWN && StepOf(abis, names, a, names')
    requires Concerns(abis, a, c) && Telling(abis, a, c)
    ensures Right(names', a.address, c)
  {
    if a.Lookup? {
      var r :| Finds(abis, names, a.address, a.selector, r, names');
      var name := NameAt(names, a.address);
      NameOfKey(name, c);
      assert c in Having(abis, a.selector);
      if name != "" && a.selector in abis[name + SUFFIX] {
        assert name + SUFFIX in Having(abis, a.selector);
      }
    }
  }

  lemma StepAt(abis: Abis, start: Names, maps: seq<Names>, actions: seq<Action>, i: nat)
    requires IsRun(abis, start, maps, actions) && i < |actions|
    ensures StepOf(abis, maps[i], actions[i], maps[i + 1])
  {
    assert StepsAt(abis, maps, actions, i);
  }

  lemma ConcernsAt(abis: Abis, actions: seq<Action>, address: string, c: string, i: nat)
    requires BelongsTo(abis, actions, address, c) && i < |actions|
    ensures At(actions[i], address) ==> Concerns(abis, actions[i], c)
  {
  }

  lemma {:induction false} RunKeepsMap(abis: Abis, start: Names, maps: seq<Names>, actions: seq<Action>, i: nat)
    requires StoreOk(abis) && MapOk(abis, start) && ActionsOk(abis, actions)
    requires IsRun(abis, start, maps, actions) && i < |maps|
    ensures MapOk(abis, maps[i])
  {
    if i > 0 {
      RunKeepsMap(abis, start, maps, actions, i - 1);
      StepAt(abis, start, maps, actions, i - 1);
      StepKeepsMap(abis, maps[i - 1], actions[i - 1], maps[i]);
    }
  }

  lemma RunKeepsRight(abis: Abis, start: Names, maps: seq<Names>, actions: seq<Action>, address: string, c: string, i: nat)
    requires StoreOk(abis) && IsRun(abis, start, maps, actions) && BelongsTo(abis, actions, address, c)
    requires i < |actions| && Right(maps[i], address, c)
    ensures Right(maps[i + 1], address, c)
  {
    StepAt(abis, start, maps, actions, i);
    ConcernsAt(abis, actions, address, c, i);
    StepKeepsRight(abis, maps[i], actions[i], maps[i + 1], address, c);
  }

  lemma RunTells(abis: Abis, start: Names, maps: seq<Names>, actions: seq<Action>, address: string, c: string, i: nat)
    requires StoreOk(abis) && MapOk(abis, start) && ActionsOk(abis, actions)
    requires IsRun(abis, start, maps, actions) && BelongsTo(abis, actions, address, c)
    requires !SameAddress(UNKNOWN, address) && i < |actions| && At(actions[i], address) && Telling(abis, actions[i], c)
    ensures Right(maps[i + 1], address, c)
  {
    RunKeepsMap(abis, start, maps, actions, i);
    StepAt(abis, start, maps, actions, i);
    ConcernsAt(abis, actions, address, c, i);
    SameKeyExactlyForSameAddress(actions[i].address, address);
    StepTells(abis, maps[i], actions[i], maps[i + 1], c);
  }

  /** Once the address is mapped to its contract, no later action changes that, whatever the order of iteration. */
  lemma {:induction false} RightStaysRight(
      abis: Abis, start: Names, maps: seq<Names>, actions: seq<Action>, address: string, c: string, i: nat, j: nat)
    requires StoreOk(abis) && IsRun(abis, start, maps, actions) && BelongsTo(abis, actions, address, c)
    requires i <= j < |maps| && Right(maps[i], address, c)
    ensures Right(maps[j], address, c)
  {
    if i < j {
      RightStaysRight(abis, start, maps, actions, address, c, i, j - 1);
      RunKeepsRight(abis, start, maps, actions, address, c, j - 1);
    }
  }

  /** After a deployment, or a call that only c has, the address is mapped to c for good. */
  lemma TellingActionSettles(
      abis: Abis, start: Names, maps: seq<Names>, actions: seq<Action>, address: string, c: string, i: nat, j: nat)
    requires StoreOk(abis) && MapOk(abis, start) && ActionsOk(abis, actions)
    requires IsRun(abis, start, maps, actions) && BelongsTo(abis, actions, address, c)
    requires !SameAddress(UNKNOWN, address) && i < j < |maps|
    requires At(actions[i], address) && Telling(abis, actions[i], c)
    ensures Right(maps[j], address, c)
  {
    RunTells(abis, start, maps, actions, address, c, i);
    RightStaysRight(abis, start, maps, actions, address, c, i + 1, j);
  }

  /** Without a telling action some order of iteration keeps the finder away from c. */
  lemma LookupAway(abis: Abis, names: Names, q: string, selector: string, address: string, c: string)
    returns (r: Result<Found, FindError>, names': Names)
    requires StoreOk(abis) && MapOk(abis, names) && c in abis && !Right(names, address, c)
    requires SameAddress(q, address) ==> selector in abis[c] && Having(abis, selector) != {c}
    ensures Finds(abis, names, q, selector, r, names')
    ensures !Right(names', address, c)
  {
    var name, having := NameAt(names, q), Having(abis, selector);
    SameKeyExactlyForSameAddress(q, address);
    if name != "" && selector in abis[name + SUFFIX] {
      r, names' := Ok(Found(name, 0)), names;
    } else if having == {} {
      r, names' := Err(NoAbiMethod), names;
    } else {
      assert SameAddress(q, address) ==> c in having;
      var k :| k in having && (SameAddress(q, address) ==> k != c);
      r, names' := Ok(Found(k, |having| - 1)), WithContract(names, q, k);
      assert Guesses(abis, names, q, selector, k, r, names');
      TrimUndoes(k);
      TrimUndoes(c);
    }
  }

  lemma StepAway(abis: Abis, names: Names, a: Action, address: string, c: string) returns (names': Names)
    requires StoreOk(abis) && MapOk(abis, names) && c in abis && ActionOk(abis, a)
    requires !Right(names, address, c)
    requires At(a, address) ==> Concerns(abis, a, c) && !Telling(abis, a, c)
    ensures StepOf(abis, names, a, names') && MapOk(abis, names')
    ensures !Right(names', address, c)
  {
    match a {
      case Lookup(q, selector) =>
        var r;
        r, names' := LookupAway(abis, names, q, selector, address, c);
      case Deploy(q, name) =>
        SameKeyExactlyForSameAddress(q, address);
        names' := WithContract(names, q, name);
    }
    StepKeepsMap(abis, names, a, names');
  }

  lemma RunAppend(abis: Abis, start: Names, maps: seq<Names>, actions: seq<Action>, a: Action, names': Names)
    requires IsRun(abis, start, maps, actions) && StepOf(abis, maps[|actions|], a, names')
    ensures IsRun(abis, start, maps + [names'], actions + [a])
  {
    forall i | 0 <= i <= |actions| ensures StepsAt(abis, maps + [names'], actions + [a], i) {
      assert i < |actions| ==> StepsAt(abis, maps, actions, i);
    }
  }

  lemma BeforeLast(abis: Abis, actions: seq<Action>, address: string, c: string)
    requires actions != [] && ActionsOk(abis, actions) && BelongsTo(abis, actions, address, c)
    requires !HasTelling(abis, actions, address, c)
    ensures var before, a := actions[..|actions| - 1], actions[|actions| - 1];
            && actions == before + [a]
            && ActionsOk(abis, before) && BelongsTo(abis, before, address, c) && !HasTelling(abis, before, address, c)
            && ActionOk(abis, a) && (At(a, address) ==> Concerns(abis, a, c) && !Telling(abis, a, c))
  {
    assert forall i :: 0 <= i < |actions| - 1 ==> actions[..|actions| - 1][i] == actions[i];
  }

  /** A whole run that never gets to c. */
  lemma {:induction false} RunAway(abis: Abis, start: Names, actions: seq<Action>, address: string, c: string) returns (maps: seq<Names>)
    requires StoreOk(abis) && MapOk(abis, start) && ActionsOk(abis, actions) && BelongsTo(abis, actions, address, c)
    requires !Right(start, address, c) && !HasTelling(abis, actions, address, c)
    ensures IsRun(abis, start, maps, actions)
    ensures MapOk(abis, maps[|actions|]) && !Right(maps[|actions|], address, c)
  {
    if actions == [] {
      maps := [start];
    } else {
      var before, a := actions[..|actions| - 1], actions[|actions| - 1];
      BeforeLast(abis, actions, address, c);
      maps := RunAway(abis, start, before, address, c);
      var names' := StepAway(abis, maps[|before|], a, address, c);
      RunAppend(abis, start, maps, before, a, names');
      maps := maps + [names'];
    }
  }

  /** In whatever order maps are iterated, the address ends up mapped to c. */
  ghost predicate SureToEndAt(abis: Abis, start: Names, actions: seq<Action>, address: string, c: string) {
    forall maps :: IsRun(abis, start, maps, actions) ==> Right(maps[|actions|], address, c)
  }

  /**
   * Main result: from any contract map, an address is sure to end up mapped to its contract if and only if
   * it was so from the start, or the contract is deployed there, or some call made there has a selector
   * that no other ABI has.
   */
  lemma SettlesExactlyWithATellingAction(abis: Abis, start: Names, actions: seq<Action>, address: string, c: string)
    requires StoreOk(abis) && MapOk(abis, start) && ActionsOk(abis, actions) && BelongsTo(abis, actions, address, c)
    requires !SameAddress(UNKNOWN, address)
    ensures SureToEndAt(abis, start, actions, address, c)
            <==> Right(start, address, c) || HasTelling(abis, actions, address, c)
  {
    if Right(start, address, c) {
      forall maps | IsRun(abis, start, maps, actions) ensures Right(maps[|actions|], address, c) {
        RightStaysRight(abis, start, maps, actions, address, c, 0, |actions|);
      }
    } else if HasTelling(abis, actions, address, c) {
      var i :| 0 <= i < |actions| && At(actions[i], address) && Telling(abis, actions[i], c);
      forall maps | IsRun(abis, start, maps, actions) ensures Right(maps[|actions|], address, c) {
        TellingActionSettles(abis, start, maps, actions, address, c, i, |actions|);
      }
    } else {
      var maps := RunAway(abis, start, actions, address, c);
    }
  }

  function DiverseAbis(): Abis { map["A.abi" := {"1"}, "B.abi" := {"2"}, "C.abi" := {"1", "2"}] }

  /** Calls of the two methods of C in turn, of which A and B have one each. */
  function DiverseCalls(n: nat): seq<Action> { seq(n, i => Lookup("0x0", if i % 2 == 0 then "1" else "2")) }

  lemma DiverseStoreIsOk()
    ensures StoreOk(DiverseAbis()) && TrimSuffix("C.abi") == "C"
    ensures Having(DiverseAbis(), "1") != {"C.abi"} && Having(DiverseAbis(), "2") != {"C.abi"}
  {
    assert "A.abi" in Having(DiverseAbis(), "1") && "B.abi" in Having(DiverseAbis(), "2");
    assert "A.abi" != "C.abi" && "B.abi" != "C.abi";
    assert HasSuffix("A.abi") && HasSuffix("B.abi") && HasSuffix("C.abi");
  }

  /**
   * Diverse calls are not enough: here every other ABI is missing one of the methods called, yet the
   * finder may still be wrong after any number of calls.
   */
  lemma DiverseCallsMayNeverSettle(n: nat) returns (maps: seq<Names>)
    ensures BelongsTo(DiverseAbis(), DiverseCalls(n), "0x0", "C.abi")
    ensures IsRun(DiverseAbis(), map[], maps, DiverseCalls(n)) && NameAt(maps[n], "0x0") != "C"
  {
    DiverseStoreIsOk();
    maps := RunAway(DiverseAbis(), map[], DiverseCalls(n), "0x0", "C.abi");
  }
}
