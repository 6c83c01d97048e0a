/**
 * Replacing a transaction that was not mined in time. `Decode` and `DeployContract` wait, and after
 * every retryable failure try to submit the same call again at a bumped price, under an optional cap.
 */
module GasBump {
  import opened Common
  import opened BumpStrategy

  // What a replacement must leave alone.
  datatype Body = Body(nonce: nat, to: Option<string>, value: nat, gas: nat, data: string)

  datatype Tx =
    | Legacy(body: Body, gasPrice: nat)
    | DynamicFee(body: Body, feeCap: nat, tipCap: nat)

  datatype Mode = Decoding | Deploying

  datatype Config = Config(mode: Mode, retries: nat, maxGasPrice: int, addresses: seq<string>)

  // The node's side of one replacement attempt.
  datatype Node = Node(pending: Option<bool>, sender: Option<string>, signs: bool, accepts: bool)

  datatype Outcome = Mined | TimedOut | NoCode | Failed

  datatype PrepareError = LookupFailed | NotPending | NoSender | UnknownSender | PriceTooHigh | NotSigned | NotSent

  datatype Event = Waited(tx: Tx, outcome: Outcome) | Refused(error: PrepareError) | Submitted(tx: Tx)

  // A bumping strategy without hidden state: the new price depends on the old one alone.
  type Strategy = nat -> nat

  function Price(tx: Tx): nat {
    match tx
    case Legacy(_, gasPrice) => gasPrice
    case DynamicFee(_, feeCap, tipCap) => feeCap + tipCap
  }

  function Bumped(tx: Tx, strategy: Strategy): Tx {
    match tx
    case Legacy(body, gasPrice) => Legacy(body, strategy(gasPrice))
    case DynamicFee(body, feeCap, tipCap) => DynamicFee(body, strategy(feeCap), strategy(tipCap))
  }

  predicate HasMax(cfg: Config) { cfg.maxGasPrice > 0 }

  /** Without reference to the node: is the next price above the cap? */
  predicate TooHigh(cfg: Config, strategy: Strategy, tx: Tx) {
    HasMax(cfg) && Price(Bumped(tx, strategy)) > cfg.maxGasPrice
  }

  function Prepare(cfg: Config, strategy: Strategy, tx: Tx, node: Node): Result<Tx, PrepareError> {
    if node.pending.None? then Err(LookupFailed)
    else if !node.pending.value then Err(NotPending)
    else if node.sender.None? then Err(NoSender)
    else if node.sender.value !in cfg.addresses then Err(UnknownSender)
    else if TooHigh(cfg, strategy, tx) then Err(PriceTooHigh)
    else if !node.signs then Err(NotSigned)
    else if !node.accepts then Err(NotSent)
    else Ok(Bumped(tx, strategy))
  }

  /** What a replacement would cost: the strategy applied to the price, or to fee cap and tip cap one by one. */
  function NewPrice(strategy: Strategy, tx: Tx): nat {
    match tx
    case Legacy(_, gasPrice) => strategy(gasPrice)
    case DynamicFee(_, feeCap, tipCap) => strategy(feeCap) + strategy(tipCap)
  }

  /** The same call at the strategy's price. */
  function AtNewPrice(strategy: Strategy, tx: Tx): Tx {
    match tx
    case Legacy(body, gasPrice) => tx.(gasPrice := strategy(gasPrice))
    case DynamicFee(body, feeCap, tipCap) => tx.(feeCap := strategy(feeCap), tipCap := strategy(tipCap))
  }

  /** Everything a replacement needs, and which failure wins when several apply. */
  lemma PreparesExactly(cfg: Config, strategy: Strategy, tx: Tx, node: Node)
    ensures var r := Prepare(cfg, strategy, tx, node);
            var known := node.pending == Some(true) && node.sender.Some? && node.sender.value in cfg.addresses;
            var tooHigh := cfg.maxGasPrice > 0 && NewPrice(strategy, tx) > cfg.maxGasPrice;
            && (r == Ok(AtNewPrice(strategy, tx)) <==> known && !tooHigh && node.signs && node.accepts)
            && (r.Ok? ==> r.value == AtNewPrice(strategy, tx))
            && (r == Err(LookupFailed) <==> node.pending == None)
            && (r == Err(NotPending) <==> node.pending == Some(false))
            && (r == Err(NoSender) <==> node.pending == Some(true) && node.sender.None?)
            && (r == Err(UnknownSender) <==>
                 node.pending == Some(true) && node.sender.Some? && node.sender.value !in cfg.addresses)
            && (r == Err(PriceTooHigh) <==> known && tooHigh)
            && (r == Err(NotSigned) <==> known && !tooHigh && !node.signs)
            && (r == Err(NotSent) <==> known && !tooHigh && node.signs && !node.accepts)
  {
  }

  method PrepareReplacementTransaction(cfg: Config, strategy: Strategy, tx: Tx, node: Node)
    returns (r: Result<Tx, PrepareError>)
    ensures r == Prepare(cfg, strategy, tx, node)
  {
    if node.pending.None? { return Err(LookupFailed); }
    if !node.pending.value { return Err(NotPending); }
    if node.sender.None? { return Err(NoSender); }
    var senderPkIdx := -1;
    for j := 0 to |cfg.addresses|
      invariant senderPkIdx == -1 && node.sender.value !in cfg.addresses[..j]
    {
      if cfg.addresses[j] == node.sender.value {
        senderPkIdx := j;
        break;
      }
    }
    if senderPkIdx == -1 { return Err(UnknownSender); }
    var replacement: Tx;
    match tx {
      case Legacy(body, gasPrice) =>
        var newPrice := strategy(gasPrice);
        if HasMax(cfg) && newPrice > cfg.maxGasPrice { return Err(PriceTooHigh); }
        replacement := Legacy(body, newPrice);
      case DynamicFee(body, feeCap, tipCap) =>
        var newFeeCap, newTipCap := strategy(feeCap), strategy(tipCap);
        if HasMax(cfg) && newFeeCap + newTipCap > cfg.maxGasPrice { return Err(PriceTooHigh); }
        replacement := DynamicFee(body, newFeeCap, newTipCap);
    }
    if !node.signs { return Err(NotSigned); }
    if !node.accepts { return Err(NotSent); }
    return Ok(replacement);
  }

  /* ---------- The retry loop ---------- */

  function Attempts(cfg: Config): nat {
    if cfg.retries != 0 then cfg.retries else if cfg.mode.Decoding? then 1 else 10
  }

  predicate Retryable(cfg: Config, outcome: Outcome) {
    (outcome.TimedOut? && cfg.retries != 0) || (outcome.NoCode? && cfg.mode.Deploying?)
  }

  /** The current transaction, what happened so far, and whether the loop has ended. */
  datatype Loop = Loop(tx: Tx, log: seq<Event>, done: bool)

  /** One wait and, after a retryable failure, its callback. */
  function Turn(cfg: Config, strategy: Strategy, l: Loop, outcome: Outcome, node: Node): Loop {
    var log := l.log + [Waited(l.tx, outcome)];
    if !Retryable(cfg, outcome) then Loop(l.tx, log, true)
    else if !outcome.TimedOut? then Loop(l.tx, log, false)
    else
      match Prepare(cfg, strategy, l.tx, node)
      case Err(e) => Loop(l.tx, log + [Refused(e)], false)
      case Ok(t) => Loop(t, log + [Submitted(t)], false)
  }

  /** The loop after at most n turns; the callback runs after every retryable failure, the last one included. */
  function After(cfg: Config, strategy: Strategy, tx: Tx, n: nat, waits: nat -> Outcome, nodes: nat -> Node): Loop {
    if n == 0 then Loop(tx, [], false) else
    var l := After(cfg, strategy, tx, n - 1, waits, nodes);
    if l.done then l else Turn(cfg, strategy, l, waits(n - 1), nodes(n - 1))
  }

  lemma {:induction false} DoneStaysDone(cfg: Config, strategy: Strategy, tx: Tx, m: nat, n: nat, waits: nat -> Outcome, nodes: nat -> Node)
    requires m <= n && After(cfg, strategy, tx, m, waits, nodes).done
    ensures After(cfg, strategy, tx, n, waits, nodes) == After(cfg, strategy, tx, m, waits, nodes)
  {
    if m < n {
      DoneStaysDone(cfg, strategy, tx, m, n - 1, waits, nodes);
    }
  }

  /** The loop around `retry.Do` in `Decode` and in `DeployContract`. */
  method WaitWithBumps(cfg: Config, strategy: Strategy, tx: Tx, waits: nat -> Outcome, nodes: nat -> Node)
    returns (mined: bool, last: Tx, log: seq<Event>)
    ensures var l := After(cfg, strategy, tx, Attempts(cfg), waits, nodes); last == l.tx && log == l.log
    ensures mined <==> log != [] && log[|log| - 1] == Waited(last, Mined)
  {
    last, log := tx, [];
    var n := 0;
    while n < Attempts(cfg)
      invariant n <= Attempts(cfg)
      invariant Loop(last, log, false) == After(cfg, strategy, tx, n, waits, nodes)
      invariant log != [] ==> !(log[|log| - 1].Waited? && log[|log| - 1].outcome.Mined?)
    {
      var outcome := waits(n);
      log := log + [Waited(last, outcome)];
      if !Retryable(cfg, outcome) {
        DoneStaysDone(cfg, strategy, tx, n + 1, Attempts(cfg), waits, nodes);
        return outcome.Mined?, last, log;
      }
      if outcome.TimedOut? {
        var r := PrepareReplacementTransaction(cfg, strategy, last, nodes(n));
        if r.Ok? {
          log := log + [Submitted(r.value)];
          last := r.value;
        } else {
          log := log + [Refused(r.error)];
        }
      }
      n := n + 1;
    }
    return false, last, log;
  }

  /* ---------- Over every run ---------- */

  /** The transaction after j bumps of the original: same call, higher price. */
  function BumpedTimes(tx: Tx, strategy: Strategy, j: nat): (t: Tx)
    ensures t.body == tx.body && (t.Legacy? <==> tx.Legacy?)
  {
    if j == 0 then tx else Bumped(BumpedTimes(tx, strategy, j - 1), strategy)
  }

  /** A strategy applied j times to a number. */
  function Iterate(strategy: Strategy, x: nat, j: nat): nat {
    if j == 0 then x else strategy(Iterate(strategy, x, j - 1))
  }

  /** The original with each of its prices replaced by the j-th iterate of the strategy on it. */
  predicate IsIterate(t: Tx, tx: Tx, strategy: Strategy, j: nat) {
    match tx
    case Legacy(body, gasPrice) => t == Legacy(body, Iterate(strategy, gasPrice, j))
    case DynamicFee(body, feeCap, tipCap) => t == DynamicFee(body, Iterate(strategy, feeCap, j), Iterate(strategy, tipCap, j))
  }

  lemma {:induction false} BumpedTimesIterates(tx: Tx, strategy: Strategy, j: nat)
    ensures IsIterate(BumpedTimes(tx, strategy, j), tx, strategy, j)
  {
    if j > 0 {
      BumpedTimesIterates(tx, strategy, j - 1);
    }
  }

  /** How many waits, replacements attempted and replacements submitted a log records. */
  datatype Tally = Tally(waits: nat, callbacks: nat, submissions: nat)

  function Count(log: seq<Event>): Tally {
    if log == [] then Tally(0, 0, 0) else
    var t := Count(log[..|log| - 1]);
    match log[|log| - 1]
    case Waited(_, _) => t.(waits := t.waits + 1)
    case Refused(_) => t.(callbacks := t.callbacks + 1)
    case Submitted(_) => t.(callbacks := t.callbacks + 1, submissions := t.submissions + 1)
  }

  /** Event i is about the transaction obtained by bumping the original as often as was submitted before. */
  ghost predicate EventInOrder(cfg: Config, strategy: Strategy, tx: Tx, log: seq<Event>, i: nat)
    requires i < |log|
  {
    var j := Count(log[..i]).submissions;
    match log[i]
    case Waited(t, _) => t == BumpedTimes(tx, strategy, j)
    case Refused(e) => e == PriceTooHigh ==> TooHigh(cfg, strategy, BumpedTimes(tx, strategy, j))
    case Submitted(t) => t == BumpedTimes(tx, strategy, j + 1) && !TooHigh(cfg, strategy, BumpedTimes(tx, strategy, j))
  }

  ghost predicate LogInOrder(cfg: Config, strategy: Strategy, tx: Tx, log: seq<Event>) {
    forall i :: 0 <= i < |log| ==> EventInOrder(cfg, strategy, tx, log, i)
  }

  ghost predicate InOrder(cfg: Config, strategy: Strategy, tx: Tx, l: Loop) {
    l.tx == BumpedTimes(tx, strategy, Count(l.log).submissions) && LogInOrder(cfg, strategy, tx, l.log)
  }

  lemma AppendInOrder(cfg: Config, strategy: Strategy, tx: Tx, log: seq<Event>, e: Event)
    requires LogInOrder(cfg, strategy, tx, log)
    requires var j := Count(log).submissions;
             match e
             case Waited(t, _) => t == BumpedTimes(tx, strategy, j)
             case Refused(x) => x == PriceTooHigh ==> TooHigh(cfg, strategy, BumpedTimes(tx, strategy, j))
             case Submitted(t) => t == BumpedTimes(tx, strategy, j + 1) && !TooHigh(cfg, strategy, BumpedTimes(tx, strategy, j))
    ensures LogInOrder(cfg, strategy, tx, log + [e])
  {
    var more := log + [e];
    forall i | 0 <= i < |more|
      ensures EventInOrder(cfg, strategy, tx, more, i)
    {
      assert more[..i] == log[..i];
      assert i == |log| ==> log[..i] == log;
      assert i < |log| ==> EventInOrder(cfg, strategy, tx, log, i);
    }
  }

  lemma CountAppend(log: seq<Event>, e: Event)
    ensures Count(log + [e]) ==
            match e
            case Waited(_, _) => Count(log).(waits := Count(log).waits + 1)
            case Refused(_) => Count(log).(callbacks := Count(log).callbacks + 1)
            case Submitted(_) => Count(log).(callbacks := Count(log).callbacks + 1, submissions := Count(log).submissions + 1)
  {
    assert (log + [e])[..|log|] == log;
  }

  lemma WaitInOrder(cfg: Config, strategy: Strategy, tx: Tx, l: Loop, outcome: Outcome, done: bool)
    requires InOrder(cfg, strategy, tx, l)
    ensures InOrder(cfg, strategy, tx, Loop(l.tx, l.log + [Waited(l.tx, outcome)], done))
  {
    CountAppend(l.log, Waited(l.tx, outcome));
    AppendInOrder(cfg, strategy, tx, l.log, Waited(l.tx, outcome));
  }

  lemma CallbackInOrder(cfg: Config, strategy: Strategy, tx: Tx, l: Loop, node: Node)
    requires InOrder(cfg, strategy, tx, l)
    ensures match Prepare(cfg, strategy, l.tx, node)
            case Err(e) => InOrder(cfg, strategy, tx, Loop(l.tx, l.log + [Refused(e)], false))
            case Ok(t) => InOrder(cfg, strategy, tx, Loop(t, l.log + [Submitted(t)], false))
  {
    var r := Prepare(cfg, strategy, l.tx, node);
    var f := if r.Ok? then Submitted(r.value) else Refused(r.error);
    CountAppend(l.log, f);
    AppendInOrder(cfg, strategy, tx, l.log, f);
  }

  lemma TurnInOrder(cfg: Config, strategy: Strategy, tx: Tx, l: Loop, outcome: Outcome, node: Node)
    requires InOrder(cfg, strategy, tx, l)
    ensures InOrder(cfg, strategy, tx, Turn(cfg, strategy, l, outcome, node))
  {
    WaitInOrder(cfg, strategy, tx, l, outcome, !Retryable(cfg, outcome));
    if Retryable(cfg, outcome) && outcome.TimedOut? {
      CallbackInOrder(cfg, strategy, tx, Loop(l.tx, l.log + [Waited(l.tx, outcome)], false), node);
    }
  }

  /** In every run every event is about the original, bumped as often as was submitted before. */
  lemma {:induction false} RunInOrder(cfg: Config, strategy: Strategy, tx: Tx, n: nat, waits: nat -> Outcome, nodes: nat -> Node)
    ensures InOrder(cfg, strategy, tx, After(cfg, strategy, tx, n, waits, nodes))
  {
    if n > 0 {
      RunInOrder(cfg, strategy, tx, n - 1, waits, nodes);
      var l := After(cfg, strategy, tx, n - 1, waits, nodes);
      if !l.done {
        TurnInOrder(cfg, strategy, tx, l, waits(n - 1), nodes(n - 1));
      }
    }
  }

  /** Waits and replacement attempts never exceed the turns, and nothing is attempted with bumping disabled. */
  lemma {:induction false} RunBounded(cfg: Config, strategy: Strategy, tx: Tx, n: nat, waits: nat -> Outcome, nodes: nat -> Node)
    ensures var t := Count(After(cfg, strategy, tx, n, waits, nodes).log);
            t.waits <= n && t.callbacks <= if cfg.retries == 0 then 0 else n
  {
    if n > 0 {
      RunBounded(cfg, strategy, tx, n - 1, waits, nodes);
      if !After(cfg, strategy, tx, n - 1, waits, nodes).done {
        StepCounts(cfg, strategy, tx, n, waits, nodes);
      }
    }
  }

  /** One turn is one wait, and one callback exactly when the wait timed out and may be retried. */
  lemma TurnCounts(cfg: Config, strategy: Strategy, l: Loop, outcome: Outcome, node: Node)
    ensures var r, t := Turn(cfg, strategy, l, outcome, node), Count(l.log);
            && r.done == !Retryable(cfg, outcome)
            && Count(r.log).waits == t.waits + 1
            && Count(r.log).callbacks == t.callbacks + if Retryable(cfg, outcome) && outcome.TimedOut? then 1 else 0
  {
    var e, r := Waited(l.tx, outcome), Prepare(cfg, strategy, l.tx, node);
    CountAppend(l.log, e);
    CountAppend(l.log + [e], if r.Ok? then Submitted(r.value) else Refused(r.error));
  }

  lemma StepCounts(cfg: Config, strategy: Strategy, tx: Tx, n: nat, waits: nat -> Outcome, nodes: nat -> Node)
    requires n > 0 && !After(cfg, strategy, tx, n - 1, waits, nodes).done
    ensures var l, l' := After(cfg, strategy, tx, n - 1, waits, nodes), After(cfg, strategy, tx, n, waits, nodes);
            var retried := Retryable(cfg, waits(n - 1));
            && l'.done == !retried
            && Count(l'.log).waits == Count(l.log).waits + 1
            && Count(l'.log).callbacks == Count(l.log).callbacks + if retried && waits(n - 1).TimedOut? then 1 else 0
  {
    TurnCounts(cfg, strategy, After(cfg, strategy, tx, n - 1, waits, nodes), waits(n - 1), nodes(n - 1));
  }

  ghost predicate AllRetryable(cfg: Config, waits: nat -> Outcome) { forall i: nat :: Retryable(cfg, waits(i)) }

  ghost predicate AllTimeOut(waits: nat -> Outcome) { forall i: nat :: waits(i).TimedOut? }

  /** As long as every wait fails in a retryable way the loop goes on, with one callback per time-out. */
  lemma {:induction false} RetriesAreUsedUp(cfg: Config, strategy: Strategy, tx: Tx, n: nat, waits: nat -> Outcome, nodes: nat -> Node)
    requires AllRetryable(cfg, waits)
    ensures var l := After(cfg, strategy, tx, n, waits, nodes);
            !l.done && Count(l.log).waits == n && (AllTimeOut(waits) ==> Count(l.log).callbacks == n)
  {
    if n > 0 {
      RetriesAreUsedUp(cfg, strategy, tx, n - 1, waits, nodes);
      assert Retryable(cfg, waits(n - 1));
      StepCounts(cfg, strategy, tx, n, waits, nodes);
      assert AllTimeOut(waits) ==> waits(n - 1).TimedOut?;
    }
  }

  /** What keeps the loop going: a time-out when bumping is enabled, or missing code after a deployment. */
  predicate GoesOn(cfg: Config, outcome: Outcome) {
    (outcome == TimedOut && cfg.retries != 0) || (outcome == NoCode && cfg.mode == Deploying)
  }

  ghost predicate AllGoOn(cfg: Config, waits: nat -> Outcome, n: nat) { forall i: nat :: i < n ==> GoesOn(cfg, waits(i)) }

  lemma {:induction false} RunsOn(cfg: Config, strategy: Strategy, tx: Tx, n: nat, waits: nat -> Outcome, nodes: nat -> Node)
    requires AllGoOn(cfg, waits, n)
    ensures var l := After(cfg, strategy, tx, n, waits, nodes); !l.done && Count(l.log).waits == n
  {
    if n > 0 {
      RunsOn(cfg, strategy, tx, n - 1, waits, nodes);
      assert GoesOn(cfg, waits(n - 1));
      StepCounts(cfg, strategy, tx, n, waits, nodes);
    }
  }

  function Limit(cfg: Config): nat { if cfg.retries != 0 then cfg.retries else if cfg.mode == Deploying then 10 else 1 }

  /**
   * The loop waits up to and including the first outcome that ends it, or as often as configured: once when
   * decoding without retries, ten times when deploying without.
   */
  lemma WaitsExactly(cfg: Config, strategy: Strategy, tx: Tx, waits: nat -> Outcome, nodes: nat -> Node, m: nat)
    requires AllGoOn(cfg, waits, m)
    requires m == Limit(cfg) || (m < Limit(cfg) && !GoesOn(cfg, waits(m)))
    ensures var l := After(cfg, strategy, tx, Attempts(cfg), waits, nodes);
            && Count(l.log).waits == (if m < Limit(cfg) then m + 1 else m)
            && (l.done <==> m < Limit(cfg))
            && (l.done ==> l.log != [] && l.log[|l.log| - 1] == Waited(l.tx, waits(m)))
  {
    RunsOn(cfg, strategy, tx, m, waits, nodes);
    if m < Limit(cfg) {
      StepCounts(cfg, strategy, tx, m + 1, waits, nodes);
      DoneStaysDone(cfg, strategy, tx, m + 1, Attempts(cfg), waits, nodes);
    }
  }

  /** The number of waits of a loop that never succeeds: the configured retries, or ten when deploying without. */
  lemma FailingLoopWaits(cfg: Config, strategy: Strategy, tx: Tx, waits: nat -> Outcome, nodes: nat -> Node)
    requires forall i: nat :: GoesOn(cfg, waits(i))
    ensures var t := Count(After(cfg, strategy, tx, Attempts(cfg), waits, nodes).log);
            && t.waits == (if cfg.retries != 0 then cfg.retries else 10)
            && (AllTimeOut(waits) ==> t.callbacks == cfg.retries)
  {
    assert GoesOn(cfg, waits(0));
    assert AllRetryable(cfg, waits) by {
      assert forall i: nat :: GoesOn(cfg, waits(i)) ==> Retryable(cfg, waits(i));
    }
    RetriesAreUsedUp(cfg, strategy, tx, Attempts(cfg), waits, nodes);
  }

  /** What a user is promised about everything `Decode` or `DeployContract` sends. */
  lemma ReplacementsAreTheSameCall(
      cfg: Config, strategy: Strategy, tx: Tx, waits: nat -> Outcome, nodes: nat -> Node, i: nat)
    requires i < |After(cfg, strategy, tx, Attempts(cfg), waits, nodes).log|
    ensures var log := After(cfg, strategy, tx, Attempts(cfg), waits, nodes).log;
            && Count(log).waits <= (if cfg.retries != 0 then cfg.retries else if cfg.mode.Decoding? then 1 else 10)
            && Count(log).callbacks <= cfg.retries
            && (log[i].Submitted? ==>
                 && log[i].tx.body == tx.body
                 && (log[i].tx.Legacy? <==> tx.Legacy?)
                 && (HasMax(cfg) ==> Price(log[i].tx) <= cfg.maxGasPrice)
                 && log[i].tx == BumpedTimes(tx, strategy, Count(log[..i]).submissions + 1))
  {
    RunInOrder(cfg, strategy, tx, Attempts(cfg), waits, nodes);
    RunBounded(cfg, strategy, tx, Attempts(cfg), waits, nodes);
    assert EventInOrder(cfg, strategy, tx, After(cfg, strategy, tx, Attempts(cfg), waits, nodes).log, i);
  }

  /** In numbers: the j-th submission, and the wait after it, carry the j-th iterate of every original price. */
  lemma EventsCarryIterates(
      cfg: Config, strategy: Strategy, tx: Tx, n: nat, waits: nat -> Outcome, nodes: nat -> Node, i: nat)
    requires i < |After(cfg, strategy, tx, n, waits, nodes).log|
    ensures var log := After(cfg, strategy, tx, n, waits, nodes).log;
            var j := Count(log[..i]).submissions;
            && (log[i].Submitted? ==> IsIterate(log[i].tx, tx, strategy, j + 1))
            && (log[i].Waited? ==> IsIterate(log[i].tx, tx, strategy, j))
  {
    RunInOrder(cfg, strategy, tx, n, waits, nodes);
    var log := After(cfg, strategy, tx, n, waits, nodes).log;
    var j := Count(log[..i]).submissions;
    assert EventInOrder(cfg, strategy, tx, log, i);
    BumpedTimesIterates(tx, strategy, j);
    BumpedTimesIterates(tx, strategy, j + 1);
  }

  lemma {:induction false} CountPrefix(log: seq<Event>, i: nat, j: nat)
    requires i <= j <= |log|
    requires forall k :: i <= k < j ==> !log[k].Submitted?
    ensures Count(log[..i]).submissions == Count(log[..j]).submissions
  {
    if i < j {
      CountPrefix(log, i, j - 1);
      assert log[..j][..j - 1] == log[..j - 1];
    }
  }

  /** Once a bump was refused for its price, no later replacement is ever submitted. */
  lemma {:induction false} NothingAfterTheCap(
      cfg: Config, strategy: Strategy, tx: Tx, l: Loop, i: nat, j: nat)
    requires InOrder(cfg, strategy, tx, l) && i < j < |l.log|
    requires l.log[i] == Refused(PriceTooHigh)
    ensures !l.log[j].Submitted?
    decreases j
  {
    forall k | i < k < j ensures !l.log[k].Submitted? {
      NothingAfterTheCap(cfg, strategy, tx, l, i, k);
    }
    CountPrefix(l.log, i, j);
    assert EventInOrder(cfg, strategy, tx, l.log, i) && EventInOrder(cfg, strategy, tx, l.log, j);
  }

  /* ---------- The priority strategies inside the loop ---------- */

  function PriorityStrategy(p: Priority): Strategy { x => Bump(p, x) }

  /** No number of bumps puts the tip above the fee cap, which would make the transaction invalid. */
  lemma {:induction false} FeeCapCoversTip(tx: Tx, p: Priority, j: nat)
    requires tx.DynamicFee? && tx.tipCap <= tx.feeCap
    ensures var t := BumpedTimes(tx, PriorityStrategy(p), j); t.DynamicFee? && t.tipCap <= t.feeCap
  {
    if j > 0 {
      FeeCapCoversTip(tx, p, j - 1);
      var t := BumpedTimes(tx, PriorityStrategy(p), j - 1);
      BumpMonotone(p, t.tipCap, t.feeCap);
    }
  }

  predicate FitsInt64(tx: Tx) {
    match tx
    case Legacy(_, gasPrice) => gasPrice <= MAX_INT64
    case DynamicFee(_, feeCap, tipCap) => feeCap <= MAX_INT64 && tipCap <= MAX_INT64
  }

  /** Each replacement pays at least as much as the one before it. */
  lemma {:induction false} PricesNeverFall(tx: Tx, p: Priority, j: nat)
    requires UsesFloat(p) ==> FitsInt64(tx)
    ensures Price(BumpedTimes(tx, PriorityStrategy(p), j)) <= Price(BumpedTimes(tx, PriorityStrategy(p), j + 1))
    ensures UsesFloat(p) ==> FitsInt64(BumpedTimes(tx, PriorityStrategy(p), j))
  {
    if j > 0 {
      PricesNeverFall(tx, p, j - 1);
    }
    var t := BumpedTimes(tx, PriorityStrategy(p), j);
    match t
    case Legacy(_, gasPrice) => BumpRaisesExactlyWithinInt64(p, gasPrice);
    case DynamicFee(_, feeCap, tipCap) =>
      BumpRaisesExactlyWithinInt64(p, feeCap);
      BumpRaisesExactlyWithinInt64(p, tipCap);
  }

  /** The percentage of this price is worth at least a wei. */
  predicate Worthwhile(p: Priority, x: nat) { Percent(p) * x - 100 * x >= 100 }

  lemma WorthwhileAbove(p: Priority, x: nat, y: nat)
    requires Worthwhile(p, x) && x <= y
    ensures Worthwhile(p, y)
  {
  }

  lemma BumpRises(p: Priority, y: nat, z: nat)
    requires Worthwhile(p, y) && (UsesFloat(p) ==> y <= MAX_INT64) && z == Bump(p, y)
    ensures if UsesFloat(p) then y <= z <= MAX_INT64 && (z > y || z == MAX_INT64) else z > y
  {
    BumpStrictlyRaisesExactly(p, y);
    BumpRaisesExactlyWithinInt64(p, y);
    BumpSaturates(p, y);
  }

  /**
   * Bumping again and again: as long as the percentage is worth a wei at the start, each bump adds at least one
   * more wei until a float strategy reaches the largest int64.
   */
  lemma {:induction false} RepeatedBumpsRise(p: Priority, x: nat, j: nat)
    requires Worthwhile(p, x) && (UsesFloat(p) ==> x <= MAX_INT64)
    ensures var y := Iterate(PriorityStrategy(p), x, j);
            if UsesFloat(p) then x <= y <= MAX_INT64 && (y >= x + j || y == MAX_INT64) else y >= x + j
  {
    if j > 0 {
      RepeatedBumpsRise(p, x, j - 1);
      var y := Iterate(PriorityStrategy(p), x, j - 1);
      WorthwhileAbove(p, x, y);
      BumpRises(p, y, Iterate(PriorityStrategy(p), x, j));
    }
  }

  /* ---------- Is every replacement waited for? ---------- */

  ghost predicate AwaitedAt(log: seq<Event>, i: nat)
    requires i < |log|
  {
    log[i].Submitted? ==> i + 1 < |log| && log[i + 1].Waited? && log[i + 1].tx == log[i].tx
  }

  /** Directly after every submission comes a wait for what was submitted. */
  ghost predicate AllAwaited(log: seq<Event>) { forall i :: 0 <= i < |log| ==> AwaitedAt(log, i) }

  /** The same up to a submission at the very end, which is the current transaction of a loop still going on. */
  ghost predicate AwaitedSoFar(l: Loop) {
    && (forall i :: 0 <= i < |l.log| - 1 ==> AwaitedAt(l.log, i))
    && (l.log != [] && l.log[|l.log| - 1].Submitted? ==> l.log[|l.log| - 1].tx == l.tx && !l.done)
  }

  lemma WaitAwaits(l: Loop, outcome: Outcome)
    requires AwaitedSoFar(l)
    ensures AllAwaited(l.log + [Waited(l.tx, outcome)])
  {
    var log := l.log + [Waited(l.tx, outcome)];
    forall i | 0 <= i < |log| ensures AwaitedAt(log, i) {
      assert i < |l.log| - 1 ==> AwaitedAt(l.log, i);
    }
  }

  lemma CallbackAwaits(log: seq<Event>, e: Event)
    requires AllAwaited(log)
    ensures forall i :: 0 <= i < |log| ==> AwaitedAt(log + [e], i)
  {
    forall i | 0 <= i < |log| ensures AwaitedAt(log + [e], i) {
      assert AwaitedAt(log, i);
    }
  }

  predicate Submits(cfg: Config, strategy: Strategy, l: Loop, outcome: Outcome, node: Node) {
    cfg.retries != 0 && outcome.TimedOut? && Prepare(cfg, strategy, l.tx, node).Ok?
  }

  lemma TurnAwaits(cfg: Config, strategy: Strategy, l: Loop, outcome: Outcome, node: Node)
    requires AwaitedSoFar(l)
    ensures var l' := Turn(cfg, strategy, l, outcome, node);
            AwaitedSoFar(l') && (AllAwaited(l'.log) <==> !Submits(cfg, strategy, l, outcome, node))
  {
    WaitAwaits(l, outcome);
    var l', waited := Turn(cfg, strategy, l, outcome, node), l.log + [Waited(l.tx, outcome)];
    if l'.log != waited {
      var e := l'.log[|waited|];
      assert l'.log == waited + [e];
      CallbackAwaits(waited, e);
      assert AwaitedAt(l'.log, |waited|) <==> !e.Submitted?;
    }
  }

  lemma {:induction false} RunAwaits(cfg: Config, strategy: Strategy, tx: Tx, n: nat, waits: nat -> Outcome, nodes: nat -> Node)
    ensures AwaitedSoFar(After(cfg, strategy, tx, n, waits, nodes))
  {
    if n > 0 {
      RunAwaits(cfg, strategy, tx, n - 1, waits, nodes);
      var l := After(cfg, strategy, tx, n - 1, waits, nodes);
      if !l.done {
        TurnAwaits(cfg, strategy, l, waits(n - 1), nodes(n - 1));
      }
    }
  }

  /** The last turn is reached, its wait times out with retries enabled, and its replacement is accepted. */
  predicate LastTurnSubmits(cfg: Config, strategy: Strategy, tx: Tx, n: nat, waits: nat -> Outcome, nodes: nat -> Node) {
    n > 0 &&
    var l := After(cfg, strategy, tx, n - 1, waits, nodes);
    !l.done && Submits(cfg, strategy, l, waits(n - 1), nodes(n - 1))
  }

  /** Every replacement is waited for if and only if the last turn does not submit one. */
  lemma AwaitedExactlyUnlessLastTurnSubmits(
      cfg: Config, strategy: Strategy, tx: Tx, n: nat, waits: nat -> Outcome, nodes: nat -> Node)
    ensures AllAwaited(After(cfg, strategy, tx, n, waits, nodes).log)
            <==> !LastTurnSubmits(cfg, strategy, tx, n, waits, nodes)
  {
    if n > 0 {
      var l := After(cfg, strategy, tx, n - 1, waits, nodes);
      RunAwaits(cfg, strategy, tx, n - 1, waits, nodes);
      if l.done {
        assert l.log != [] ==> AwaitedAt(l.log, |l.log| - 1);
      } else {
        TurnAwaits(cfg, strategy, l, waits(n - 1), nodes(n - 1));
      }
    }
  }

  ghost predicate NodesAccept(cfg: Config, nodes: nat -> Node) {
    forall i: nat :: nodes(i).pending == Some(true) && nodes(i).sender.Some? && nodes(i).sender.value in cfg.addresses
      && nodes(i).signs && nodes(i).accepts
  }

  lemma {:induction false} EveryTurnSubmits(
      cfg: Config, strategy: Strategy, tx: Tx, n: nat, waits: nat -> Outcome, nodes: nat -> Node)
    requires cfg.retries > 0 && !HasMax(cfg) && AllTimeOut(waits) && NodesAccept(cfg, nodes)
    ensures var l := After(cfg, strategy, tx, n, waits, nodes); !l.done && l.tx == BumpedTimes(tx, strategy, n)
    ensures var log := After(cfg, strategy, tx, n, waits, nodes).log;
            n > 0 ==> && LastTurnSubmits(cfg, strategy, tx, n, waits, nodes)
                      && |log| >= 2 && log[|log| - 1] == Submitted(BumpedTimes(tx, strategy, n))
                      && log[|log| - 2] == Waited(BumpedTimes(tx, strategy, n - 1), TimedOut)
  {
    if n > 0 {
      EveryTurnSubmits(cfg, strategy, tx, n - 1, waits, nodes);
      var l := After(cfg, strategy, tx, n - 1, waits, nodes);
      assert waits(n - 1).TimedOut? && nodes(n - 1).pending == Some(true);
      assert Prepare(cfg, strategy, l.tx, nodes(n - 1)) == Ok(Bumped(l.tx, strategy));
    }
  }

  /** When nothing is mined in time and every replacement is accepted, the last one is not waited for. */
  lemma LastReplacementIsNotAwaited(cfg: Config, strategy: Strategy, tx: Tx, waits: nat -> Outcome, nodes: nat -> Node)
    requires cfg.retries > 0 && !HasMax(cfg) && AllTimeOut(waits) && NodesAccept(cfg, nodes)
    ensures var l := After(cfg, strategy, tx, Attempts(cfg), waits, nodes);
            && !l.done && l.tx == BumpedTimes(tx, strategy, cfg.retries) && !AllAwaited(l.log)
            && |l.log| >= 2 && l.log[|l.log| - 1] == Submitted(l.tx)
            && l.log[|l.log| - 2] == Waited(BumpedTimes(tx, strategy, cfg.retries - 1), TimedOut)
  {
    EveryTurnSubmits(cfg, strategy, tx, Attempts(cfg), waits, nodes);
    AwaitedExactlyUnlessLastTurnSubmits(cfg, strategy, tx, Attempts(cfg), waits, nodes);
  }
}
