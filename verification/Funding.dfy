/**
 * Splitting the root key's funds among ephemeral keys and returning them. Amounts are unbounded, but the
 * fee of one transfer is computed in int64.
 */
module Funding {
  import opened Common

  const WEI_PER_ETHER: nat := 1_000_000_000_000_000_000

  datatype Details = Details(totalFee: int, freeBalance: int, addrFunding: int, networkTransferFee: int)

  datatype FundingError = InsufficientRootKeyBalance | RequiredExceedsFree

  function RootKeyBuffer(ether: nat): nat { ether * WEI_PER_ETHER }

  /** `CalculateSubKeyFunding` with the balance and gas limit the node reported. */
  function SubKeyFunding(balance: nat, addrs: nat, gasPrice: nat, gasLimit: nat, bufferEther: nat): Result<Details, FundingError>
    requires addrs >= 1
  {
    var fee := Int64(gasPrice * gasLimit);
    var totalFee := fee * addrs;
    var free := balance - (totalFee + RootKeyBuffer(bufferEther));
    if free < 0 then Err(InsufficientRootKeyBalance) else
    var funding := free / addrs;
    if free < funding * addrs then Err(RequiredExceedsFree)
    else Ok(Details(totalFee, free, funding, fee))
  }

  /**
   * The split is possible exactly when the balance covers the buffer and one fee per key, the fee being an int64
   * product; then the shares add up to what is left, less than one wei per key aside.
   */
  lemma SplitsExactlyWhenCovered(balance: nat, addrs: nat, gasPrice: nat, gasLimit: nat, bufferEther: nat)
    requires addrs >= 1
    ensures var r := SubKeyFunding(balance, addrs, gasPrice, gasLimit, bufferEther);
            var reserve := Int64(gasPrice * gasLimit) * addrs + bufferEther * 1_000_000_000_000_000_000;
            && (r == Err(InsufficientRootKeyBalance) <==> balance < reserve)
            && (r.Ok? <==> balance >= reserve)
            && (r.Ok? ==> var d := r.value;
                 && d.networkTransferFee == Int64(gasPrice * gasLimit) && d.totalFee == d.networkTransferFee * addrs
                 && d.freeBalance == balance - reserve
                 && d.addrFunding * addrs <= balance - reserve < (d.addrFunding + 1) * addrs)
  {
    FundingDistributesEverything(balance, addrs, gasPrice, gasLimit, bufferEther);
    var r := SubKeyFunding(balance, addrs, gasPrice, gasLimit, bufferEther);
    if r.Ok? {
      assert (r.value.addrFunding + 1) * addrs == r.value.addrFunding * addrs + addrs;
    }
  }

  /** The second balance check never fires, and less than one wei per key stays undistributed. */
  lemma FundingDistributesEverything(balance: nat, addrs: nat, gasPrice: nat, gasLimit: nat, bufferEther: nat)
    requires addrs >= 1
    ensures var r := SubKeyFunding(balance, addrs, gasPrice, gasLimit, bufferEther);
            && (r.Err? ==> r.error == InsufficientRootKeyBalance)
            && (r.Ok? ==> var d := r.value;
                 && d.addrFunding >= 0
                 && 0 <= d.freeBalance - d.addrFunding * addrs < addrs
                 && balance == d.totalFee + RootKeyBuffer(bufferEther) + d.freeBalance)
  {
    var free := balance - (Int64(gasPrice * gasLimit) * addrs + RootKeyBuffer(bufferEther));
    assert free == free / addrs * addrs + free % addrs;
  }

  /* ---------- Moving the money ---------- */

  datatype Ledger = Ledger(root: int, subs: seq<int>, fees: int)

  datatype Transfer =
    | Fund(key: nat, fee: nat)
    | Return(key: nat, reserved: int, fee: nat)

  /** A mined transfer: the amount moves, the sender also pays the fee. An unaffordable return is skipped. */
  function Apply(l: Ledger, t: Transfer, funding: int): Ledger {
    if t.key >= |l.subs| then l else
    var b := l.subs[t.key];
    match t
    case Fund(k, fee) => Ledger(l.root - funding - fee, l.subs[k := b + funding], l.fees + fee)
    case Return(k, reserved, fee) =>
      if b - reserved < 0 then l
      else Ledger(l.root + (b - reserved), l.subs[k := reserved - fee], l.fees + fee)
  }

  /** The ledger after the first n transfers, in the order they were mined. */
  function After(l: Ledger, ts: seq<Transfer>, funding: int, n: nat): Ledger
    requires n <= |ts|
  {
    if n == 0 then l else Apply(After(l, ts, funding, n - 1), ts[n - 1], funding)
  }

  /* ---------- Where the money of the split ends up ---------- */

  /** How many of the first n transfers go to, or come from, key k. */
  function TransfersTo(ts: seq<Transfer>, k: nat, n: nat): nat
    requires n <= |ts|
  {
    if n == 0 then 0 else TransfersTo(ts, k, n - 1) + if ts[n - 1].key == k then 1 else 0
  }

  function FeesPaid(ts: seq<Transfer>, n: nat): nat
    requires n <= |ts|
  {
    if n == 0 then 0 else FeesPaid(ts, n - 1) + ts[n - 1].fee
  }

  ghost predicate AllFund(ts: seq<Transfer>, keys: nat) { forall i :: 0 <= i < |ts| ==> ts[i].Fund? && ts[i].key < keys }

  /** A key gains the funding once for each transfer to it. */
  lemma {:induction false} FundsArrive(l: Ledger, ts: seq<Transfer>, funding: int, n: nat, k: nat)
    requires n <= |ts| && AllFund(ts, |l.subs|) && k < |l.subs|
    ensures |After(l, ts, funding, n).subs| == |l.subs|
    ensures After(l, ts, funding, n).subs[k] == l.subs[k] + funding * TransfersTo(ts, k, n)
  {
    if n > 0 {
      FundsArrive(l, ts, funding, n - 1, k);
      var c := TransfersTo(ts, k, n - 1);
      assert funding * (c + 1) == funding * c + funding;
    }
  }

  /** The root key loses the funding and the fee of each transfer. */
  lemma {:induction false} FundsLeaveRoot(l: Ledger, ts: seq<Transfer>, funding: int, n: nat)
    requires n <= |ts| && AllFund(ts, |l.subs|)
    ensures var m := After(l, ts, funding, n);
            && |m.subs| == |l.subs| && m.fees == l.fees + FeesPaid(ts, n)
            && m.root == l.root - funding * n - FeesPaid(ts, n)
  {
    if n > 0 {
      FundsLeaveRoot(l, ts, funding, n - 1);
      assert funding * n == funding * (n - 1) + funding;
    }
  }

  ghost predicate Reaches(ts: seq<Transfer>, k: nat) { exists i :: 0 <= i < |ts| && ts[i].key == k }

  /** Every key has exactly one transfer, in any order. */
  ghost predicate OncePerKey(ts: seq<Transfer>, keys: nat) {
    && |ts| == keys
    && (forall i, j :: 0 <= i < j < |ts| ==> ts[i].key != ts[j].key)
    && forall k: nat :: k < keys ==> Reaches(ts, k)
  }

  lemma {:induction false} TransferredOnce(ts: seq<Transfer>, i: nat, n: nat)
    requires i < |ts| && n <= |ts| && forall g, h :: 0 <= g < h < |ts| ==> ts[g].key != ts[h].key
    ensures TransfersTo(ts, ts[i].key, n) == if i < n then 1 else 0
  {
    if n > 0 {
      TransferredOnce(ts, i, n - 1);
    }
  }

  /**
   * With one transfer per key every key ends up with exactly its share, in every order; when each fee is the one
   * foreseen, the root keeps its buffer and the remainder of the division, to the wei.
   */
  lemma EveryKeyGetsItsShare(
      balance: nat, addrs: nat, gasPrice: nat, gasLimit: nat, bufferEther: nat, ts: seq<Transfer>, k: nat)
    requires k < addrs && AllFund(ts, addrs) && OncePerKey(ts, addrs)
    requires SubKeyFunding(balance, addrs, gasPrice, gasLimit, bufferEther).Ok?
    ensures var d := SubKeyFunding(balance, addrs, gasPrice, gasLimit, bufferEther).value;
            var r := After(Ledger(balance, seq(addrs, _ => 0), 0), ts, d.addrFunding, |ts|);
            && |r.subs| == addrs && r.subs[k] == d.addrFunding
            && (FeesPaid(ts, |ts|) == d.totalFee ==>
                 r.root == bufferEther * 1_000_000_000_000_000_000 + (d.freeBalance - d.addrFunding * addrs))
  {
    var d := SubKeyFunding(balance, addrs, gasPrice, gasLimit, bufferEther).value;
    var l := Ledger(balance, seq(addrs, _ => 0), 0);
    assert Reaches(ts, k);
    var i :| 0 <= i < |ts| && ts[i].key == k;
    TransferredOnce(ts, i, |ts|);
    FundsArrive(l, ts, d.addrFunding, |ts|, k);
    FundsLeaveRoot(l, ts, d.addrFunding, |ts|);
    SplitsExactlyWhenCovered(balance, addrs, gasPrice, gasLimit, bufferEther);
  }

  /** `for _, addr := range c.Addresses[1:]`: the transfers run concurrently and are mined in any order. */
  method SplitFunds(l: Ledger, ts: seq<Transfer>, funding: int) returns (r: Ledger)
    requires forall i :: 0 <= i < |ts| ==> ts[i].Fund? && ts[i].key < |l.subs|
    ensures r == After(l, ts, funding, |ts|)
    ensures r.root == l.root - funding * |ts| - FeesPaid(ts, |ts|) && |r.subs| == |l.subs|
    ensures forall k: nat :: k < |l.subs| ==> r.subs[k] == l.subs[k] + funding * TransfersTo(ts, k, |ts|)
  {
    var root, subs, fees := l.root, l.subs, l.fees;
    for i := 0 to |ts|
      invariant |subs| == |l.subs| && Ledger(root, subs, fees) == After(l, ts, funding, i)
    {
      var k := ts[i].key;
      root := root - funding - ts[i].fee;
      subs := subs[k := subs[k] + funding];
      fees := fees + ts[i].fee;
    }
    r := Ledger(root, subs, fees);
    FundsLeaveRoot(l, ts, funding, |ts|);
    forall k: nat | k < |l.subs| ensures subs[k] == l.subs[k] + funding * TransfersTo(ts, k, |ts|) {
      FundsArrive(l, ts, funding, |ts|, k);
    }
  }

  /** The loop of `ReturnFunds`: keys that cannot pay the reserved fee are skipped. */
  method ReturnFunds(l: Ledger, ts: seq<Transfer>) returns (r: Ledger)
    requires forall i :: 0 <= i < |ts| ==> ts[i].Return? && ts[i].key < |l.subs|
    ensures r == After(l, ts, 0, |ts|)
  {
    var root, subs, fees := l.root, l.subs, l.fees;
    for i := 0 to |ts|
      invariant |subs| == |l.subs| && Ledger(root, subs, fees) == After(l, ts, 0, i)
    {
      var k := ts[i].key;
      var fundsToReturn := subs[k] - ts[i].reserved;
      if fundsToReturn >= 0 {
        root := root + fundsToReturn;
        subs := subs[k := subs[k] - fundsToReturn - ts[i].fee];
        fees := fees + ts[i].fee;
      }
    }
    r := Ledger(root, subs, fees);
  }

  function KeyTotal(s: seq<int>): int {
    if s == [] then 0 else KeyTotal(s[..|s| - 1]) + s[|s| - 1]
  }

  lemma {:induction false} KeyTotalUpdate(s: seq<int>, k: nat, v: int)
    requires k < |s|
    ensures KeyTotal(s[k := v]) == KeyTotal(s) - s[k] + v
  {
    var n := |s| - 1;
    if k < n {
      KeyTotalUpdate(s[..n], k, v);
      assert s[k := v][..n] == s[..n][k := v];
    } else {
      assert s[k := v][..n] == s[..n];
    }
  }

  function Total(l: Ledger): int { l.root + KeyTotal(l.subs) + l.fees }

  lemma TransferConserves(l: Ledger, t: Transfer, funding: int)
    ensures Total(Apply(l, t, funding)) == Total(l) && |Apply(l, t, funding).subs| == |l.subs|
  {
    if t.key < |l.subs| {
      match t
      case Fund(k, fee) => KeyTotalUpdate(l.subs, k, l.subs[k] + funding);
      case Return(k, reserved, fee) => KeyTotalUpdate(l.subs, k, reserved - fee);
    }
  }

  /** No wei appears or disappears: what the keys lose is exactly the fees, in any order of transfers. */
  lemma {:induction false} MoneyIsConserved(l: Ledger, ts: seq<Transfer>, funding: int, n: nat)
    requires n <= |ts|
    ensures Total(After(l, ts, funding, n)) == Total(l) && |After(l, ts, funding, n).subs| == |l.subs|
  {
    if n > 0 {
      MoneyIsConserved(l, ts, funding, n - 1);
      TransferConserves(After(l, ts, funding, n - 1), ts[n - 1], funding);
    }
  }

  /** Fees no higher than what was set aside for them. */
  ghost predicate Affordable(ts: seq<Transfer>, fee: int) {
    forall i :: 0 <= i < |ts| ==> if ts[i].Fund? then ts[i].fee <= fee else ts[i].fee <= ts[i].reserved
  }

  lemma {:induction false} RootSpends(l: Ledger, ts: seq<Transfer>, funding: int, fee: int, n: nat)
    requires n <= |ts| && Affordable(ts, fee) && funding >= 0
    requires forall i :: 0 <= i < |ts| ==> ts[i].Fund? && ts[i].key < |l.subs|
    ensures |After(l, ts, funding, n).subs| == |l.subs|
    ensures After(l, ts, funding, n).root >= l.root - n * (funding + fee)
  {
    if n > 0 {
      RootSpends(l, ts, funding, fee, n - 1);
      assert n * (funding + fee) == (n - 1) * (funding + fee) + (funding + fee);
    }
  }

  lemma ShareOfAll(n: nat, addrs: nat, share: int)
    requires n <= addrs && share >= 0
    ensures n * share <= addrs * share
  {
    assert (addrs - n) * share >= 0;
  }

  lemma SplitFits(n: nat, addrs: nat, funding: int, fee: int, free: int)
    requires n <= addrs && 0 <= funding && 0 <= fee && funding * addrs <= free
    ensures n * (funding + fee) <= free + fee * addrs
  {
    ShareOfAll(n, addrs, funding + fee);
    assert addrs * (funding + fee) == funding * addrs + fee * addrs;
  }

  /** In every order, after every transfer, the root key still holds at least its buffer. */
  lemma RootKeepsItsBuffer(
      balance: nat, addrs: nat, gasPrice: nat, gasLimit: nat, bufferEther: nat, ts: seq<Transfer>, n: nat)
    requires 1 <= addrs && |ts| <= addrs && n <= |ts| && gasPrice * gasLimit < TWO_63
    requires SubKeyFunding(balance, addrs, gasPrice, gasLimit, bufferEther).Ok?
    requires forall i :: 0 <= i < |ts| ==> ts[i].Fund? && ts[i].key < addrs
    requires Affordable(ts, gasPrice * gasLimit)
    ensures var d := SubKeyFunding(balance, addrs, gasPrice, gasLimit, bufferEther).value;
            After(Ledger(balance, seq(addrs, _ => 0), 0), ts, d.addrFunding, n).root >= RootKeyBuffer(bufferEther)
  {
    var d := SubKeyFunding(balance, addrs, gasPrice, gasLimit, bufferEther).value;
    var l := Ledger(balance, seq(addrs, _ => 0), 0);
    var fee := gasPrice * gasLimit;
    FundingDistributesEverything(balance, addrs, gasPrice, gasLimit, bufferEther);
    RootSpends(l, ts, d.addrFunding, fee, n);
    SplitFits(n, addrs, d.addrFunding, fee, d.freeBalance);
  }

  /**
   * When every transfer costs what gas price and gas limit say, the split leaves the buffer alone if and
   * only if that cost fits into int64.
   */
  lemma BufferSurvivesExactlyWithoutOverflow(balance: nat, addrs: nat, gasPrice: nat, gasLimit: nat, bufferEther: nat)
    requires addrs >= 1 && SubKeyFunding(balance, addrs, gasPrice, gasLimit, bufferEther).Ok?
    ensures var d := SubKeyFunding(balance, addrs, gasPrice, gasLimit, bufferEther).value;
            balance - addrs * (d.addrFunding + gasPrice * gasLimit) >= RootKeyBuffer(bufferEther)
            <==> gasPrice * gasLimit < TWO_63
  {
    var d := SubKeyFunding(balance, addrs, gasPrice, gasLimit, bufferEther).value;
    var fee := gasPrice * gasLimit;
    FundingDistributesEverything(balance, addrs, gasPrice, gasLimit, bufferEther);
    Int64IsExactBelowTwo63(fee);
    var hidden := fee - d.networkTransferFee;
    assert addrs * (d.addrFunding + fee) == d.addrFunding * addrs + d.totalFee + hidden * addrs;
    if hidden > 0 {
      ShareOfAll(1, hidden, addrs);
    }
  }

  /**
   * A return leaves the key covered exactly when the reserved fee covers the real one, drains it when the fee
   * was foreseen exactly, and is skipped when the key cannot pay. The reserve is an int64 product, so it may
   * be negative, and then no return is covered.
   */
  lemma ReturnIsCovered(l: Ledger, k: nat, reserved: int, fee: nat)
    requires k < |l.subs| && l.subs[k] >= 0
    ensures var m := Apply(l, Return(k, reserved, fee), 0);
            && (l.subs[k] >= reserved ==> (m.subs[k] >= 0 <==> fee <= reserved))
            && (l.subs[k] >= reserved ==>
                 m == Ledger(l.root + l.subs[k] - reserved, l.subs[k := reserved - fee], l.fees + fee))
            && (l.subs[k] >= reserved && fee == reserved ==> m.subs[k] == 0 && m.root == l.root + l.subs[k] - fee)
            && (l.subs[k] < reserved ==> m == l)
  {
  }

  lemma {:induction false} OtherKeysUntouched(l: Ledger, ts: seq<Transfer>, funding: int, m: nat, n: nat, k: nat)
    requires m <= n <= |ts| && k < |l.subs| && forall j :: m <= j < n ==> ts[j].key != k
    ensures |After(l, ts, funding, m).subs| == |After(l, ts, funding, n).subs| == |l.subs|
    ensures After(l, ts, funding, n).subs[k] == After(l, ts, funding, m).subs[k]
  {
    MoneyIsConserved(l, ts, funding, m);
    MoneyIsConserved(l, ts, funding, n);
    if m < n {
      OtherKeysUntouched(l, ts, funding, m, n - 1, k);
    }
  }

  /** With one return per key, in any order: what is above the reserve goes back, a poorer key keeps what it has. */
  lemma EveryKeyReturnsItsRest(l: Ledger, ts: seq<Transfer>, i: nat)
    requires OncePerKey(ts, |l.subs|) && i < |ts| && ts[i].Return? && ts[i].key < |l.subs|
    ensures var k, r := ts[i].key, After(l, ts, 0, |ts|);
            && |r.subs| == |l.subs|
            && r.subs[k] == if l.subs[k] >= ts[i].reserved then ts[i].reserved - ts[i].fee else l.subs[k]
  {
    var k := ts[i].key;
    OtherKeysUntouched(l, ts, 0, 0, i, k);
    OtherKeysUntouched(l, ts, 0, i + 1, |ts|, k);
  }

  ghost predicate Covered(l: Ledger) { forall k :: 0 <= k < |l.subs| ==> l.subs[k] >= 0 }

  /** No ephemeral key is ever overdrawn while fees stay within what was set aside for them. */
  lemma {:induction false} SubsStayCovered(l: Ledger, ts: seq<Transfer>, funding: int, fee: int, n: nat)
    requires n <= |ts| && funding >= 0 && Affordable(ts, fee) && Covered(l)
    ensures Covered(After(l, ts, funding, n))
  {
    if n > 0 {
      SubsStayCovered(l, ts, funding, fee, n - 1);
    }
  }

  /**
   * Splitting and then returning: the root ends with everything except fees and what the keys kept, and
   * with affordable fees no key is overdrawn after any of the transfers.
   */
  lemma SplitThenReturn(balance: int, addrs: nat, funding: int, fee: int, split: seq<Transfer>, back: seq<Transfer>)
    ensures var l := Ledger(balance, seq(addrs, _ => 0), 0);
            var m := After(l, split, funding, |split|);
            var r := After(m, back, 0, |back|);
            && r.root == balance - r.fees - KeyTotal(r.subs)
            && (funding >= 0 && Affordable(split, fee) && Affordable(back, fee) ==>
                 && (forall n :: 0 <= n <= |split| ==> Covered(After(l, split, funding, n)))
                 && (forall n :: 0 <= n <= |back| ==> Covered(After(m, back, 0, n))))
  {
    var l := Ledger(balance, seq(addrs, _ => 0), 0);
    var m := After(l, split, funding, |split|);
    MoneyIsConserved(l, split, funding, |split|);
    MoneyIsConserved(m, back, 0, |back|);
    KeyTotalOfZeros(addrs);
    if funding >= 0 && Affordable(split, fee) && Affordable(back, fee) {
      forall n | 0 <= n <= |split| ensures Covered(After(l, split, funding, n)) {
        SubsStayCovered(l, split, funding, fee, n);
      }
      forall n | 0 <= n <= |back| ensures Covered(After(m, back, 0, n)) {
        SubsStayCovered(m, back, 0, fee, n);
      }
    }
  }

  lemma {:induction false} KeyTotalOfZeros(n: nat)
    ensures KeyTotal(seq(n, _ => 0)) == 0
  {
    if n > 0 {
      KeyTotalOfZeros(n - 1);
      assert seq(n, _ => 0)[..n - 1] == seq(n - 1, _ => 0);
    }
  }
}
