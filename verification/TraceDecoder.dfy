/**
 * `DecodeTrace` itself: the two closures that share `methods`, `decodedCalls`, `methodCounter` and
 * `nestingLevel`, and the check for calls that only the 4byte tracer has seen.
 */
module TraceDecoder {
  import opened Common
  import opened CallTrace

  // One row of the 4byte tracer's answer. A trace lists its rows in the order the map is ranged over.
  datatype FourByte = FourByte(signature: string, times: nat)

  // Where the ABI finder and the contract map place a selector, if they know it at all.
  type Lookup = string -> Option<string>

  function Total(rows: seq<FourByte>): nat {
    if rows == [] then 0 else rows[0].times + Total(rows[1..])
  }

  /** Some call of the forest mentions the selector in its input. */
  ghost predicate Mentions(calls: Calls, signature: string) {
    exists c :: c in Preorder(calls) && Contains(c.input, signature)
  }

  lemma MentionsUnfold(c: Call, rest: Calls, signature: string)
    ensures Mentions(Cons(c, rest), signature)
            <==> Contains(c.input, signature) || Mentions(c.calls, signature) || Mentions(rest, signature)
  {
    var p := Preorder(Cons(c, rest));
    assert c in p;
    assert forall x :: x in Preorder(c.calls) || x in Preorder(rest) ==> x in p;
    assert forall x :: x in p ==> x == c || x in Preorder(c.calls) || x in Preorder(rest);
  }

  /** The 4byte selectors that no traced call mentions, in the order they are ranged over. */
  ghost function Unseen(main: Call, rows: seq<FourByte>): (r: seq<string>)
    ensures forall s :: s in r <==>
      !Mentions(Cons(main, Nil), s) && exists row :: row in rows && row.signature == s
  {
    if rows == [] then [] else
    var rest := Unseen(main, rows[1..]);
    assert forall row :: row in rows <==> row == rows[0] || row in rows[1..];
    if Mentions(Cons(main, Nil), rows[0].signature) then rest else [rows[0].signature] + rest
  }

  function MissingCall(signature: string, place: Option<string>): DecodedCall {
    match place
    case None => DecodedCall("", "", 0, "", UNKNOWN, UNKNOWN, false)
    case Some(address) => DecodedCall(signature, "", 0, "", UNKNOWN, address, false)
  }

  function MissingCalls(signatures: seq<string>, lookup: Lookup): (r: seq<DecodedCall>)
    ensures |r| == |signatures|
    ensures forall e :: e in r ==> e.parentSignature == "" && !e.decoded
  {
    if signatures == [] then [] else
    [MissingCall(signatures[0], lookup(signatures[0]))] + MissingCalls(signatures[1..], lookup)
  }

  lemma MissingCallsConcat(a: seq<string>, b: seq<string>, lookup: Lookup)
    ensures MissingCalls(a + b, lookup) == MissingCalls(a, lookup) + MissingCalls(b, lookup)
  {
    if a == [] {
      assert a + b == b;
    } else {
      assert (a + b)[1..] == a[1..] + b;
      MissingCallsConcat(a[1..], b, lookup);
    }
  }

  /** Calls added from the 4byte trace: none when the two tracers agree on the number of calls. */
  ghost function Untraced(main: Call, rows: seq<FourByte>, lookup: Lookup): seq<DecodedCall> {
    if Total(rows) == 1 + Size(main.calls) then [] else MissingCalls(Unseen(main, rows), lookup)
  }

  lemma {:induction false} TotalAppend(rows: seq<FourByte>, row: FourByte)
    ensures Total([]) == 0 && Total(rows + [row]) == Total(rows) + row.times
  {
    if rows == [] {
      assert [row][1..] == [];
    } else {
      TotalAppend(rows[1..], row);
      assert (rows + [row])[1..] == rows[1..] + [row];
    }
  }

  /** The 4byte tracer saw each call once and no call besides. */
  ghost predicate OneRowPerCall(main: Call, rows: seq<FourByte>) {
    |rows| == |Preorder(Cons(main, Nil))| && forall i :: 0 <= i < |rows| ==> rows[i].times == 1
  }

  lemma {:induction false} TotalOfOnes(rows: seq<FourByte>)
    requires forall i :: 0 <= i < |rows| ==> rows[i].times == 1
    ensures Total(rows) == |rows|
  {
    if rows != [] {
      TotalOfOnes(rows[1..]);
    }
  }

  lemma OneRowPerCallAddsNothing(main: Call, rows: seq<FourByte>, lookup: Lookup)
    requires OneRowPerCall(main, rows)
    ensures Untraced(main, rows, lookup) == []
  {
    TotalOfOnes(rows);
  }

  /** The entry for a call that only the 4byte tracer saw: nothing but the selector and the place of its method. */
  predicate IsMissingEntry(e: DecodedCall, signature: string, place: Option<string>) {
    if place.None? then e == DecodedCall("", "", 0, "", "unknown", "unknown", false)
    else e == DecodedCall(signature, "", 0, "", "unknown", place.value, false)
  }

  lemma {:induction false} MissingAreEntries(signatures: seq<string>, lookup: Lookup, i: nat)
    requires i < |signatures|
    ensures IsMissingEntry(MissingCalls(signatures, lookup)[i], signatures[i], lookup(signatures[i]))
  {
    if i > 0 {
      MissingAreEntries(signatures[1..], lookup, i - 1);
    }
  }

  /** Some row has this selector, and no call of the tree has an input around it. */
  ghost predicate OnlyFourByte(main: Call, rows: seq<FourByte>, signature: string) {
    && (exists row :: row in rows && row.signature == signature)
    && forall c :: c in Preorder(Cons(main, Nil)) ==> forall a, b :: c.input != a + signature + b
  }

  lemma UnseenIsOnlyFourByte(main: Call, rows: seq<FourByte>, s: string)
    ensures s in Unseen(main, rows) <==> OnlyFourByte(main, rows, s)
  {
    forall c | c in Preorder(Cons(main, Nil)) ensures Contains(c.input, s) <==> exists a, b :: c.input == a + s + b {
      ContainsExactly(c.input, s);
    }
  }

  /** When the counts differ, exactly the selectors that no traced call mentions are added. */
  lemma MissingAreListed(main: Call, rows: seq<FourByte>, lookup: Lookup, s: string)
    requires Total(rows) != |Preorder(Cons(main, Nil))|
    ensures OnlyFourByte(main, rows, s) ==> exists e :: e in Untraced(main, rows, lookup) && IsMissingEntry(e, s, lookup(s))
    ensures forall e :: e in Untraced(main, rows, lookup) ==>
      exists x :: OnlyFourByte(main, rows, x) && IsMissingEntry(e, x, lookup(x))
  {
    var unseen, missing := Unseen(main, rows), Untraced(main, rows, lookup);
    UnseenIsOnlyFourByte(main, rows, s);
    if OnlyFourByte(main, rows, s) {
      var i :| 0 <= i < |unseen| && unseen[i] == s;
      MissingAreEntries(unseen, lookup, i);
      assert missing[i] in missing;
    }
    forall e | e in missing ensures exists x :: OnlyFourByte(main, rows, x) && IsMissingEntry(e, x, lookup(x)) {
      var i :| 0 <= i < |missing| && missing[i] == e;
      MissingAreEntries(unseen, lookup, i);
      UnseenIsOnlyFourByte(main, rows, unseen[i]);
    }
  }

  method CountAllTracedCalls(calls: Calls, previous: nat) returns (count: nat)
    ensures count == previous + Size(calls)
    decreases calls
  {
    count := previous;
    var todo := calls;
    while todo.Cons?
      invariant count + Size(todo) == previous + Size(calls)
      invariant todo == calls || todo < calls
      decreases todo
    {
      count := CountAllTracedCalls(todo.first.calls, count + 1);
      todo := todo.rest;
    }
  }

  method FindSignature(signature: string, calls: Calls) returns (found: bool)
    ensures found <==> Mentions(calls, signature)
    decreases calls
  {
    var todo := calls;
    while todo.Cons?
      invariant Mentions(todo, signature) <==> Mentions(calls, signature)
      invariant todo == calls || todo < calls
      decreases todo
    {
      MentionsUnfold(todo.first, todo.rest, signature);
      if Contains(todo.first.input, signature) { return true; }
      found := FindSignature(signature, todo.first.calls);
      if found { return true; }
      todo := todo.rest;
    }
    return false;
  }

  method CheckForMissingCalls(main: Call, rows: seq<FourByte>, lookup: Lookup) returns (missed: seq<DecodedCall>)
    ensures missed == Untraced(main, rows, lookup)
  {
    var expected := 0;
    for i := 0 to |rows|
      invariant expected + Total(rows[i..]) == Total(rows)
    {
      expected := expected + rows[i].times;
    }
    var actual := CountAllTracedCalls(main.calls, 1);
    missed := [];
    if expected != actual {
      for i := 0 to |rows|
        invariant missed + MissingCalls(Unseen(main, rows[i..]), lookup) == MissingCalls(Unseen(main, rows), lookup)
      {
        var s := rows[i].signature;
        var seen := Contains(main.input, s);
        if !seen {
          seen := FindSignature(s, main.calls);
        }
        MentionsUnfold(main, Nil, s);
        assert rows[i..][1..] == rows[i + 1..];
        if !seen {
          MissingCallsConcat([s], Unseen(main, rows[i + 1..]), lookup);
          missed := missed + [MissingCall(s, lookup(s))];
        }
      }
    }
  }

  class Run {
    var methods: seq<string>
    var decodedCalls: seq<DecodedCall>
    var methodCounter: nat
    var nestingLevel: nat
    const ok: Outcomes

    constructor (ok: Outcomes)
      ensures methods == [] && decodedCalls == [] && methodCounter == 0 && nestingLevel == 1
      ensures this.ok == ok
    {
      methods, decodedCalls, methodCounter, nestingLevel := [], [], 0, 1;
      this.ok := ok;
    }

    method GatherAllMethods(calls: Calls) returns (r: Result<(), TraceError>)
      modifies this`methods
      ensures r == if AllHaveSelectors(calls) then Ok(()) else Err(InvalidMethodSignature)
      ensures r.Ok? ==> methods == Gather(old(methods), calls)
      decreases calls
    {
      var todo := calls;
      while todo.Cons?
        invariant AllHaveSelectors(todo) <==> AllHaveSelectors(calls)
        invariant Gather(methods, todo) == Gather(old(methods), calls)
        invariant todo == calls || todo < calls
        decreases todo
      {
        var c := todo.first;
        if !HasSelector(c) { return Err(InvalidMethodSignature); }
        methods := methods + [Selector(c)];
        if c.calls != Nil {
          r := GatherAllMethods(c.calls);
          if r.Err? { return; }
        }
        todo := todo.rest;
      }
      r := Ok(());
    }

    method ProcessCalls(calls: Calls, parentSignature: string) returns (r: Result<(), TraceError>)
      modifies this`decodedCalls, this`methodCounter, this`nestingLevel
      ensures old(methodCounter) + Size(calls) < |methods| ==> r.Ok?
      ensures r.Ok? ==>
        Walk(decodedCalls, methodCounter) ==
        WalkCalls(Walk(old(decodedCalls), old(methodCounter)), calls, methods, old(nestingLevel), parentSignature, ok)
      ensures r.Ok? ==> nestingLevel == old(nestingLevel)
      ensures methodCounter <= old(methodCounter) + Size(calls)
      ensures r.Err? ==> r.error == CounterExceedsMethods
      decreases calls
    {
      ghost var all := WalkCalls(Walk(decodedCalls, methodCounter), calls, methods, nestingLevel, parentSignature, ok);
      var todo := calls;
      while todo.Cons?
        invariant nestingLevel == old(nestingLevel)
        invariant WalkCalls(Walk(decodedCalls, methodCounter), todo, methods, nestingLevel, parentSignature, ok) == all
        invariant methodCounter + Size(todo) <= old(methodCounter) + Size(calls)
        invariant todo == calls || todo < calls
        decreases todo
      {
        r := ProcessCall(todo.first, parentSignature);
        if r.Err? { return; }
        todo := todo.rest;
      }
      r := Ok(());
    }

    /** One iteration of the range loop of `processCallsFn`. */
    method ProcessCall(c: Call, parentSignature: string) returns (r: Result<(), TraceError>)
      modifies this`decodedCalls, this`methodCounter, this`nestingLevel
      ensures old(methodCounter) + 1 + Size(c.calls) < |methods| ==> r.Ok?
      ensures r.Ok? ==>
        Walk(decodedCalls, methodCounter) ==
        WalkCall(Walk(old(decodedCalls), old(methodCounter)), c, methods, old(nestingLevel), parentSignature, ok)
      ensures r.Ok? ==> nestingLevel == old(nestingLevel)
      ensures methodCounter <= old(methodCounter) + 1 + Size(c.calls)
      ensures r.Err? ==> r.error == CounterExceedsMethods
      decreases c
    {
      methodCounter := methodCounter + 1;
      if methodCounter >= |methods| { return Err(CounterExceedsMethods); }
      var methodHex := methods[methodCounter];
      if !ok(methodCounter) {
        decodedCalls := decodedCalls + [Failed(c)];
        return Ok(());
      }
      decodedCalls := decodedCalls + [Decoded(c, methodHex, nestingLevel, parentSignature)];
      if c.calls != Nil {
        nestingLevel := nestingLevel + 1;
        r := ProcessCalls(c.calls, methodHex);
        if r.Err? { return; }
        nestingLevel := nestingLevel - 1;
      }
      r := Ok(());
    }
  }

  /** The error `DecodeTrace` stops with, if any: never the counter error. */
  ghost function Refusal(main: Call, ok: Outcomes): Option<TraceError> {
    if !(HasSelector(main) && AllHaveSelectors(main.calls)) then Some(InvalidMethodSignature)
    else if !ok(0) then Some(MainCallNotDecoded)
    else None
  }

  /** Both walks over one tree, from the first selector to the last decoded call. */
  method DecodeCallTree(main: Call, ok: Outcomes) returns (r: Result<seq<DecodedCall>, TraceError>)
    ensures r.Err? ==> Refusal(main, ok) == Some(r.error)
    ensures r.Ok? ==> Refusal(main, ok) == None && r.value == Traced(main, ok)
  {
    var run := new Run(ok);
    if !HasSelector(main) { return Err(InvalidMethodSignature); }
    var mainSig := Selector(main);
    run.methods := [mainSig];
    var g := run.GatherAllMethods(main.calls);
    if g.Err? { return Err(g.error); }
    GatherLists([mainSig], main.calls);
    if !ok(0) { return Err(MainCallNotDecoded); }
    run.decodedCalls := [Decoded(main, run.methods[0], 0, "")];
    var p := run.ProcessCalls(main.calls, mainSig);
    r := if p.Ok? then Ok(run.decodedCalls) else Err(CounterExceedsMethods);
  }

  /** Every call of the forest has an input of ten characters or more. */
  lemma {:induction false} NoneIsShort(calls: Calls)
    ensures AllHaveSelectors(calls) <==> forall c :: c in Preorder(calls) ==> |c.input| >= 10
    decreases calls
  {
    match calls
    case Nil =>
    case Cons(c, rest) =>
      NoneIsShort(c.calls);
      NoneIsShort(rest);
      SelectorIsWritten(c, "");
      var p := Preorder(calls);
      assert c in p;
      assert forall x :: x in Preorder(c.calls) || x in Preorder(rest) ==> x in p;
      assert forall x :: x in p ==> x == c || x in Preorder(c.calls) || x in Preorder(rest);
  }

  /** The counter error cannot occur, and success is decided by the inputs and the main call alone. */
  method DecodeTrace(main: Call, rows: seq<FourByte>, ok: Outcomes, lookup: Lookup)
    returns (r: Result<seq<DecodedCall>, TraceError>)
    ensures r.Err? ==> Refusal(main, ok) == Some(r.error)
    ensures r.Ok? ==> Refusal(main, ok) == None
    ensures r.Ok? ==> r.value == Traced(main, ok) + Untraced(main, rows, lookup)
    ensures r.Ok? <==> (forall c :: c in Preorder(Cons(main, Nil)) ==> |c.input| >= 10) && ok(0)
    ensures r == Err(InvalidMethodSignature) <==> exists c :: c in Preorder(Cons(main, Nil)) && |c.input| < 10
    ensures r.Ok? && FailuresAreLeaves(main.calls, 0, ok) ==> Describes(r.value, 0, Cons(main, Nil), 0, "", ok)
    ensures r.Ok? && OneRowPerCall(main, rows) ==> r.value == Traced(main, ok)
  {
    NoneIsShort(Cons(main, Nil));
    assert AllHaveSelectors(Cons(main, Nil)) <==> HasSelector(main) && AllHaveSelectors(main.calls);
    if OneRowPerCall(main, rows) {
      OneRowPerCallAddsNothing(main, rows, lookup);
    }
    if Refusal(main, ok).None? && FailuresAreLeaves(main.calls, 0, ok) {
      TraceIsDescribed(main, ok);
      DescribesLonger(Traced(main, ok), Traced(main, ok) + Untraced(main, rows, lookup), 0, Cons(main, Nil), 0, "", ok);
    }
    r := DecodeCallTree(main, ok);
    if r.Ok? {
      var missing := CheckForMissingCalls(main, rows, lookup);
      r := Ok(r.value + missing);
    }
  }
}
