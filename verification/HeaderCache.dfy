/**
 * The least-frequently-used cache of block headers, its eviction rule, and its agreement with fetching
 * every header from the chain.
 */
module HeaderCache {
  import opened Common
  import opened Congestion

  datatype Item = Item(header: Header, frequency: nat)

  type Items = map<nat, Item>

  const MAX_INT: nat := 0x7fff_ffff_ffff_ffff
  const MAX_UINT64: nat := 0xffff_ffff_ffff_ffff

  /** Entry j goes before entry k: used less, or used as much and older. */
  predicate Earlier(items: Items, j: nat, k: nat)
    requires j in items && k in items
  {
    || items[j].frequency < items[k].frequency
    || (items[j].frequency == items[k].frequency && items[j].header.number < items[k].header.number)
  }

  ghost predicate IsLeast(items: Items, k: nat) {
    k in items && forall j :: j in items && j != k ==> Earlier(items, k, j)
  }

  /** Every key is the number of its block. */
  ghost predicate KeysAreNumbers(items: Items) {
    forall k :: k in items ==> items[k].header.number == k
  }

  /** The int counters have not run out. */
  ghost predicate CountersFit(items: Items) {
    forall k :: k in items ==> items[k].frequency < MAX_INT
  }

  /* ---------- Steps of the cache ---------- */

  datatype Op = Get(number: nat) | Set(header: Header)

  function Touched(op: Op): nat { if op.Get? then op.number else op.header.number }

  function Use(items: Items, k: nat): Items
    requires k in items
  {
    items[k := items[k].(frequency := items[k].frequency + 1)]
  }

  ghost predicate Step(capacity: nat, before: Items, op: Op, after: Items) {
    match op
    case Get(k) => after == if k in before then Use(before, k) else before
    case Set(h) =>
      if h.number in before then after == before[h.number := Item(h, before[h.number].frequency + 1)]
      else if |before| < capacity || before == map[] then after == before[h.number := Item(h, 1)]
      else exists e: nat :: IsLeast(before, e) && after == (before - {e})[h.number := Item(h, 1)]
  }

  class LFUHeaderCache {
    const capacity: nat
    var cache: Items

    constructor (capacity: nat)
      ensures this.capacity == capacity && cache == map[]
    {
      this.capacity := capacity;
      cache := map[];
    }

    method Lookup(number: nat) returns (r: Option<Header>)
      modifies this`cache
      ensures r == if number in old(cache) then Some(old(cache)[number].header) else None
      ensures Step(capacity, old(cache), Get(number), cache)
    {
      if number !in cache { return None; }
      var item := cache[number];
      cache := cache[number := item.(frequency := item.frequency + 1)];
      return Some(item.header);
    }

    method Store(header: Option<Header>) returns (ok: bool)
      requires KeysAreNumbers(cache) && CountersFit(cache)
      modifies this`cache
      ensures ok <==> header.Some?
      ensures if ok then Step(capacity, old(cache), Set(header.value), cache) else cache == old(cache)
    {
      if header.None? { return false; }
      var h := header.value;
      if h.number in cache {
        cache := cache[h.number := Item(h, cache[h.number].frequency + 1)];
        return true;
      }
      if |cache| >= capacity {
        Evict();
      }
      cache := cache[h.number := Item(h, 1)];
      return true;
    }

    /** Ranges over the map in any order; on an empty cache it deletes nothing. */
    method Evict()
      requires KeysAreNumbers(cache) && CountersFit(cache)
      modifies this`cache
      ensures old(cache) == map[] ==> cache == map[]
      ensures old(cache) != map[] ==> exists e: nat :: IsLeast(old(cache), e) && cache == old(cache) - {e}
    {
      var leastFreq, evictKey, oldestBlockNumber := MAX_INT, 0, MAX_UINT64;
      var todo := cache.Keys;
      while todo != {}
        invariant todo <= cache.Keys
        invariant if todo == cache.Keys then leastFreq == MAX_INT && oldestBlockNumber == MAX_UINT64
                  else && evictKey in cache && evictKey !in todo
                       && leastFreq == cache[evictKey].frequency && oldestBlockNumber == evictKey
        invariant todo != cache.Keys ==>
          forall j :: j in cache && j !in todo && j != evictKey ==> Earlier(cache, evictKey, j)
        decreases todo
      {
        var key :| key in todo;
        var item := cache[key];
        if item.frequency < leastFreq {
          evictKey := key;
          leastFreq := item.frequency;
          oldestBlockNumber := item.header.number;
        } else if item.frequency == leastFreq && item.header.number < oldestBlockNumber {
          evictKey := key;
          oldestBlockNumber := item.header.number;
        }
        todo := todo - {key};
      }
      assert cache != map[] ==> IsLeast(cache, evictKey);
      cache := cache - {evictKey};
    }
  }

  /** `getHeaderData` without interference: look in the cache, else fetch and store. */
  method GetHeaderData(c: LFUHeaderCache, number: nat, chain: nat -> Header) returns (header: Header)
    requires AgreesWithChain(c.cache, chain) && KeysAreNumbers(c.cache) && CountersFit(c.cache)
    requires chain(number).number == number
    modifies c`cache
    ensures header == chain(number) && AgreesWithChain(c.cache, chain)
  {
    var cached := c.Lookup(number);
    if cached.Some? { return cached.value; }
    header := chain(number);
    var _ := c.Store(Some(header));
  }

  /** At most one entry can be least, so the order of iteration does not matter. */
  lemma LeastIsUnique(items: Items, a: nat, b: nat)
    requires IsLeast(items, a) && IsLeast(items, b)
    ensures a == b
  {
  }

  /* ---------- Over every interleaving ---------- */

  /** Goroutines interleave freely, but only what the chain answered is ever stored. */
  ghost predicate IsRun(capacity: nat, chain: nat -> Header, states: seq<Items>, ops: seq<Op>) {
    && |states| == |ops| + 1 && states[0] == map[]
    && (forall i :: 0 <= i < |ops| ==> Step(capacity, states[i], ops[i], states[i + 1]))
    && forall i :: 0 <= i < |ops| && ops[i].Set? ==> ops[i].header == chain(ops[i].header.number)
  }

  /** Every cached header is the chain's header for its key. */
  ghost predicate AgreesWithChain(items: Items, chain: nat -> Header) {
    forall k :: k in items ==> items[k].header == chain(k) && items[k].header.number == k
  }

  function Max(a: nat, b: nat): nat { if a < b then b else a }

  lemma StepAgrees(capacity: nat, chain: nat -> Header, before: Items, op: Op, after: Items)
    requires Step(capacity, before, op, after) && AgreesWithChain(before, chain)
    requires op.Set? ==> op.header == chain(op.header.number)
    ensures AgreesWithChain(after, chain)
  {
  }

  lemma ReplaceOne(items: Items, e: nat, k: nat, x: Item)
    requires e in items && k !in items
    ensures |(items - {e})[k := x]| == |items|
  {
    assert (items - {e}).Keys == items.Keys - {e};
    assert (items - {e})[k := x].Keys == items.Keys - {e} + {k};
  }

  lemma StepFits(capacity: nat, before: Items, op: Op, after: Items)
    requires Step(capacity, before, op, after) && |before| <= Max(1, capacity)
    ensures |after| <= Max(1, capacity)
  {
    if op.Get? || op.header.number in before {
      assert after.Keys == before.Keys;
      assert |after| == |after.Keys| == |before.Keys|;
    } else if |before| < capacity || before == map[] {
      assert after.Keys == before.Keys + {op.header.number};
      assert |after| == |after.Keys|;
    } else {
      var e: nat :| IsLeast(before, e) && after == (before - {e})[op.header.number := Item(op.header, 1)];
      ReplaceOne(before, e, op.header.number, Item(op.header, 1));
    }
  }

  /** Whatever is found in the cache is what the chain would answer, and the cache never overflows. */
  lemma {:induction false} RunAgreesWithChain(capacity: nat, chain: nat -> Header, states: seq<Items>, ops: seq<Op>, i: nat)
    requires IsRun(capacity, chain, states, ops) && i < |states|
    ensures AgreesWithChain(states[i], chain) && |states[i]| <= Max(1, capacity)
  {
    if i > 0 {
      RunAgreesWithChain(capacity, chain, states, ops, i - 1);
      assert Step(capacity, states[i - 1], ops[i - 1], states[i - 1 + 1]);
      StepAgrees(capacity, chain, states[i - 1], ops[i - 1], states[i]);
      StepFits(capacity, states[i - 1], ops[i - 1], states[i]);
    }
  }

  /** Hits and updates of entry k since it was last inserted. */
  ghost function Uses(states: seq<Items>, ops: seq<Op>, i: nat, k: nat): nat
    requires |states| == |ops| + 1 && i < |states|
  {
    if i == 0 || k !in states[i - 1] then 0
    else Uses(states, ops, i - 1, k) + if Touched(ops[i - 1]) == k then 1 else 0
  }

  /** The counter of an entry is one plus its uses since insertion. */
  lemma {:induction false} FrequencyCountsUses(capacity: nat, chain: nat -> Header, states: seq<Items>, ops: seq<Op>, i: nat, k: nat)
    requires IsRun(capacity, chain, states, ops) && i < |states| && k in states[i]
    ensures states[i][k].frequency == 1 + Uses(states, ops, i, k) <= 1 + i
  {
    assert Step(capacity, states[i - 1], ops[i - 1], states[i - 1 + 1]);
    if k in states[i - 1] {
      FrequencyCountsUses(capacity, chain, states, ops, i - 1, k);
      var before, op := states[i - 1], ops[i - 1];
      if op.Set? && op.header.number !in before && !(|before| < capacity || before == map[]) {
        var e: nat :| IsLeast(before, e) && states[i] == (before - {e})[op.header.number := Item(op.header, 1)];
      }
    }
  }

  /** Every other entry stays as it is. */
  ghost predicate SameElsewhere(before: Items, after: Items, k: nat) {
    forall j :: j in before && j in after && j != k ==> after[j] == before[j]
  }

  /** What one operation changes: the entry it names, and at most one other entry, only when there is no room. */
  lemma StepExactly(capacity: nat, before: Items, op: Op, after: Items)
    requires Step(capacity, before, op, after)
    ensures SameElsewhere(before, after, Touched(op))
    ensures op.Get? ==> after.Keys == before.Keys
    ensures op.Get? && op.number in before ==>
      after[op.number] == Item(before[op.number].header, before[op.number].frequency + 1)
    ensures op.Set? ==> op.header.number in after && after[op.header.number].header == op.header
    ensures op.Set? && op.header.number in before ==>
      after.Keys == before.Keys && after[op.header.number].frequency == before[op.header.number].frequency + 1
    ensures op.Set? && op.header.number !in before ==> after[op.header.number].frequency == 1
    ensures op.Set? && op.header.number !in before && |before| < capacity ==>
      after.Keys == before.Keys + {op.header.number}
  {
  }

  /** An entry disappears only from a full cache, for a block that was not cached, and then it was used least. */
  lemma LeavesOnlyAsLeast(capacity: nat, before: Items, op: Op, after: Items, e: nat)
    requires Step(capacity, before, op, after) && e in before && e !in after
    ensures op.Set? && op.header.number !in before && |before| >= capacity
    ensures after.Keys == before.Keys - {e} + {op.header.number}
    ensures forall j :: j in before && j != e ==>
      || before[e].frequency < before[j].frequency
      || (before[e].frequency == before[j].frequency && before[e].header.number < before[j].header.number)
  {
    var d: nat :| IsLeast(before, d) && after == (before - {d})[op.header.number := Item(op.header, 1)];
    assert d == e;
    forall j | j in before && j != e
      ensures || before[e].frequency < before[j].frequency
              || (before[e].frequency == before[j].frequency && before[e].header.number < before[j].header.number)
    {
      assert Earlier(before, e, j);
    }
  }

  /**
   * Over whole runs: nothing leaves the cache while there is room, and what leaves a full cache has the fewest
   * hits and updates since its insertion, and of those the smallest block number.
   */
  lemma LeastUsedLeaves(capacity: nat, chain: nat -> Header, states: seq<Items>, ops: seq<Op>, i: nat, e: nat, j: nat)
    requires IsRun(capacity, chain, states, ops) && i < |ops|
    requires e in states[i] && e !in states[i + 1] && j in states[i] && j != e
    ensures |states[i]| >= capacity
    ensures var u, v := Uses(states, ops, i, e), Uses(states, ops, i, j); u < v || (u == v && e < j)
  {
    assert Step(capacity, states[i], ops[i], states[i + 1]);
    LeavesOnlyAsLeast(capacity, states[i], ops[i], states[i + 1], e);
    FrequencyCountsUses(capacity, chain, states, ops, i, e);
    FrequencyCountsUses(capacity, chain, states, ops, i, j);
    RunAgreesWithChain(capacity, chain, states, ops, i);
  }
}
