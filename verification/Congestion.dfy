/**
 * The congestion metric: headers are collected concurrently, sorted by block number and averaged, with
 * weights that grow towards the newest block. Floating-point numbers are modelled as reals.
 */
module Congestion {
  import opened Common

  datatype Header = Header(number: nat, gasUsed: nat, gasLimit: nat)

  /* ---------- Which blocks are asked for ---------- */

  /** The lower end of the range, in unsigned 64-bit arithmetic. */
  function LowerEnd(last: nat, blocks: nat): nat { (last - blocks) % TWO_64 }

  /** `for i := last; i > lower; i--`, left early at block 1. */
  function BlocksBelow(i: nat, lower: nat): (r: seq<nat>)
    ensures |r| == if i <= lower || i <= 1 then 0 else i - (if lower < 1 then 1 else lower)
    ensures forall k :: 0 <= k < |r| ==> r[k] == i - k
  {
    if i <= lower || i <= 1 then [] else [i] + BlocksBelow(i - 1, lower)
  }

  function MinBlockCount(blocks: nat): nat { (blocks as real * 0.8).Floor }

  /** With every fetch successful, enough headers arrive exactly when the chain is as long as the request. */
  lemma EnoughHeadersExactlyOnLongChains(last: nat, blocks: nat)
    requires last < TWO_64 && blocks < TWO_64
    ensures 1 + |BlocksBelow(last, LowerEnd(last, blocks))| >= MinBlockCount(blocks) <==> blocks <= last || blocks <= 2
    // four fifths of the request, rounded down
    ensures 5 * MinBlockCount(blocks) <= 4 * blocks < 5 * MinBlockCount(blocks) + 5
  {
    if blocks <= last {
      assert LowerEnd(last, blocks) == last - blocks;
    } else {
      assert LowerEnd(last, blocks) == last - blocks + TWO_64;
    }
  }

  function Fetch(chain: nat -> Header, numbers: seq<nat>): seq<Header> {
    seq(|numbers|, i requires 0 <= i < |numbers| => chain(numbers[i]))
  }

  lemma FetchRemove(chain: nat -> Header, numbers: seq<nat>, i: nat)
    requires i < |numbers|
    ensures multiset(Fetch(chain, numbers)) ==
            multiset{chain(numbers[i])} + multiset(Fetch(chain, numbers[..i] + numbers[i + 1..]))
  {
    var all := Fetch(chain, numbers);
    assert Fetch(chain, numbers[..i] + numbers[i + 1..]) == all[..i] + all[i + 1..];
    assert all == all[..i] + [all[i]] + all[i + 1..];
  }

  /** On a long enough chain the requested blocks are asked for, newest first and never block 1; else none. */
  lemma AskedFor(last: nat, blocks: nat)
    requires last < TWO_64 && blocks < TWO_64
    ensures var numbers := BlocksBelow(last, LowerEnd(last, blocks));
            && |numbers| == (if blocks > last then 0 else if blocks < last then blocks else if last == 0 then 0 else last - 1)
            && forall k :: 0 <= k < |numbers| ==> numbers[k] == last - k
  {
  }

  /** The collecting goroutine receives the headers in any order; the newest one is there already. */
  method Collect(last: nat, blocks: nat, chain: nat -> Header) returns (headers: seq<Header>)
    ensures multiset(headers) ==
            multiset{chain(last)} + multiset(Fetch(chain, BlocksBelow(last, LowerEnd(last, blocks))))
  {
    headers := [chain(last)];
    var pending := BlocksBelow(last, LowerEnd(last, blocks));
    ghost var all := multiset(Fetch(chain, pending));
    while pending != []
      invariant multiset(headers) + multiset(Fetch(chain, pending)) == multiset{chain(last)} + all
      decreases |pending|
    {
      var i: nat :| i < |pending|;
      FetchRemove(chain, pending, i);
      headers := headers + [chain(pending[i])];
      pending := pending[..i] + pending[i + 1..];
    }
  }

  /* ---------- Sorting by block number ---------- */

  /** `int(i.Number.Uint64() - j.Number.Uint64())`. */
  function Compare(a: Header, b: Header): int {
    var d := (a.number - b.number) % TWO_64;
    if d < TWO_63 then d else d - TWO_64
  }

  lemma CompareOrders(a: Header, b: Header)
    requires a.number < TWO_63 && b.number < TWO_63
    ensures Compare(a, b) == a.number - b.number
  {
  }

  ghost predicate Ascending(s: seq<Header>) {
    forall i, j :: 0 <= i < j < |s| ==> s[i].number <= s[j].number
  }

  ghost predicate Plausible(s: seq<Header>) {
    forall h :: h in s ==> h.number < TWO_63
  }

  /** Two headers of the same block are the same header. */
  ghost predicate OneChain(s: seq<Header>) {
    forall g, h :: g in s && h in s && g.number == h.number ==> g == h
  }

  function Insert(h: Header, s: seq<Header>): (r: seq<Header>)
    ensures multiset(r) == multiset{h} + multiset(s)
  {
    if s == [] then [h]
    else if Compare(h, s[0]) < 0 then [h] + s
    else
      assert s == [s[0]] + s[1..];
      [s[0]] + Insert(h, s[1..])
  }

  function Sort(s: seq<Header>): (r: seq<Header>)
    ensures multiset(r) == multiset(s)
  {
    if s == [] then [] else
    assert s == [s[0]] + s[1..];
    Insert(s[0], Sort(s[1..]))
  }

  lemma {:induction false} InsertAscending(h: Header, s: seq<Header>)
    requires Ascending(s) && Plausible(s) && h.number < TWO_63
    ensures Ascending(Insert(h, s))
  {
    if s != [] {
      CompareOrders(h, s[0]);
      if Compare(h, s[0]) >= 0 {
        InsertAscending(h, s[1..]);
        var r := Insert(h, s[1..]);
        forall i | 0 <= i < |r|
          ensures s[0].number <= r[i].number
        {
          assert r[i] in multiset(r);
          assert r[i] == h || r[i] in s[1..];
        }
      }
    }
  }

  lemma {:induction false} SortAscending(s: seq<Header>)
    requires Plausible(s)
    ensures Ascending(Sort(s))
  {
    if s != [] {
      SortAscending(s[1..]);
      assert forall h :: h in Sort(s[1..]) ==> h in multiset(s[1..]);
      InsertAscending(s[0], Sort(s[1..]));
    }
  }

  /** Only one ascending order exists, whichever way the headers arrived. */
  lemma {:induction false} AscendingIsUnique(a: seq<Header>, b: seq<Header>)
    requires multiset(a) == multiset(b) && Ascending(a) && Ascending(b) && OneChain(a)
    ensures a == b
    decreases |a|
  {
    assert |a| == |multiset(a)| == |multiset(b)| == |b|;
    if a != [] {
      SameFirst(a, b);
      RestOfBag(a);
      RestOfBag(b);
      AscendingIsUnique(a[1..], b[1..]);
    }
  }

  lemma SameFirst(a: seq<Header>, b: seq<Header>)
    requires multiset(a) == multiset(b) && Ascending(a) && Ascending(b) && OneChain(a) && a != [] && b != []
    ensures a[0] == b[0]
  {
    assert a[0] in multiset(b) && b[0] in multiset(a);
    assert a[0] in b && b[0] in a;
  }

  lemma RestOfBag(a: seq<Header>)
    requires a != []
    ensures multiset(a[1..]) == multiset(a) - multiset{a[0]}
  {
    assert a == [a[0]] + a[1..];
  }

  lemma SameMembers(a: seq<Header>, b: seq<Header>)
    requires multiset(a) == multiset(b)
    ensures forall h :: h in a <==> h in b
  {
    assert forall h :: h in a <==> h in multiset(a);
    assert forall h :: h in b <==> h in multiset(b);
  }

  /** Any two arrival orders of the same headers sort to the same sequence. */
  lemma ArrivalOrderDoesNotMatter(a: seq<Header>, b: seq<Header>)
    requires multiset(a) == multiset(b) && Plausible(a) && OneChain(a)
    ensures Sort(a) == Sort(b) && Ascending(Sort(a))
  {
    SameMembers(a, b);
    SameMembers(a, Sort(a));
    SortAscending(a);
    SortAscending(b);
    AscendingIsUnique(Sort(a), Sort(b));
  }
}
