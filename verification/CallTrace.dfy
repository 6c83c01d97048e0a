/**
 * `DecodeTrace` flattens a call tree into a list of decoded calls. One walk collects the selectors,
 * a second walk decodes, and the two share nothing but a running counter.
 */
module CallTrace {
  import opened Common

  // A node of the call tracer's answer: only the fields that decide the shape of the result.
  datatype Call = Call(from: string, to: string, input: string, error: string, calls: Calls)

  // A slice of calls, ranged over from the front.
  datatype Calls = Nil | Cons(first: Call, rest: Calls)

  datatype DecodedCall = DecodedCall(
    signature: string,
    parentSignature: string,
    nestingLevel: nat,
    error: string,
    fromAddress: string,
    toAddress: string,
    decoded: bool)

  datatype TraceError = InvalidMethodSignature | CounterExceedsMethods | MainCallNotDecoded

  // Outcome of each call of `decodeCall` in one run, numbered in the order the calls are made.
  // The decoder depends on a mutable ABI map, so the n-th outcome is left arbitrary.
  type Outcomes = int -> bool

  /* ---------- Selectors ---------- */

  predicate HasSelector(c: Call) { 10 <= |c.input| }

  function Selector(c: Call): string {
    if HasSelector(c) then c.input[2..10] else ""
  }

  /** `Bytes2Hex(Hex2Bytes(s))`: bytes are decoded up to the first bad pair and printed in lower case. */
  function NormHex(s: string): string {
    if |s| < 2 || !IsHexDigit(s[0]) || !IsHexDigit(s[1]) then ""
    else [LowerChar(s[0]), LowerChar(s[1])] + NormHex(s[2..])
  }

  predicate IsLowerHex(s: string) {
    |s| % 2 == 0 && forall i :: 0 <= i < |s| ==> IsLowerHexDigit(s[i])
  }

  lemma {:induction false} NormHexFixpoint(s: string)
    ensures NormHex(s) == s <==> IsLowerHex(s)
  {
    if |s| < 2 {
    } else if !IsHexDigit(s[0]) || !IsHexDigit(s[1]) {
      assert NormHex(s) == "";
    } else {
      NormHexFixpoint(s[2..]);
      assert s == [s[0], s[1]] + s[2..];
      if NormHex(s) == s {
        assert NormHex(s)[0] == s[0] && NormHex(s)[1] == s[1];
        assert NormHex(s)[2..] == s[2..];
        assert forall i :: 2 <= i < |s| ==> s[i] == s[2..][i - 2];
      } else if IsLowerHex(s) {
        assert IsLowerHex(s[2..]);
      }
    }
  }

  lemma {:induction false} NormHexIsLower(s: string)
    ensures IsLowerHex(NormHex(s))
  {
    if 2 <= |s| && IsHexDigit(s[0]) && IsHexDigit(s[1]) {
      NormHexIsLower(s[2..]);
      var head, tail := [LowerChar(s[0]), LowerChar(s[1])], NormHex(s[2..]);
      assert forall i :: 0 <= i < |tail| ==> (head + tail)[i + 2] == tail[i];
    }
  }

  /** The first n pairs are hexadecimal digits, and the next pair, if there is one, is not. */
  ghost predicate HexPairs(s: string, n: nat) {
    && 2 * n <= |s| && (forall i :: 0 <= i < 2 * n ==> IsHexDigit(s[i]))
    && (2 * n + 2 <= |s| ==> !IsHexDigit(s[2 * n]) || !IsHexDigit(s[2 * n + 1]))
  }

  /** Digits up to the first bad pair are kept, capitals as the small letters 32 code points on. */
  lemma {:induction false} NormHexKeepsDigits(s: string, n: nat)
    requires HexPairs(s, n)
    ensures |NormHex(s)| == 2 * n
    ensures forall i :: 0 <= i < 2 * n ==>
      NormHex(s)[i] as int == s[i] as int + if 'A' <= s[i] <= 'F' then 32 else 0
  {
    if n > 0 {
      assert HexPairs(s[2..], n - 1) by {
        assert forall i :: 0 <= i < |s| - 2 ==> s[2..][i] == s[i + 2];
      }
      NormHexKeepsDigits(s[2..], n - 1);
      var head, tail := [LowerChar(s[0]), LowerChar(s[1])], NormHex(s[2..]);
      forall i | 2 <= i < 2 * n
        ensures NormHex(s)[i] as int == s[i] as int + if 'A' <= s[i] <= 'F' then 32 else 0
      {
        assert (head + tail)[i] == tail[i - 2] && s[2..][i - 2] == s[i];
      }
    }
  }

  /** The input is a two-character prefix, a selector of eight characters, and the arguments. */
  ghost predicate IsMethodOf(input: string, selector: string) {
    exists prefix, arguments :: IsInput(input, prefix, selector, arguments)
  }

  predicate IsInput(input: string, prefix: string, selector: string, arguments: string) {
    input == prefix + selector + arguments && |prefix| == 2 && |selector| == 8
  }

  /** The selector that is read is the one that was written, and nothing is read from a shorter input. */
  lemma SelectorIsWritten(c: Call, selector: string)
    ensures IsMethodOf(c.input, selector) <==> HasSelector(c) && selector == Selector(c)
    ensures HasSelector(c) <==> |c.input| >= 10
  {
    if HasSelector(c) {
      assert IsInput(c.input, c.input[..2], Selector(c), c.input[10..]);
    }
    if IsMethodOf(c.input, selector) {
      var prefix, arguments :| IsInput(c.input, prefix, selector, arguments);
      assert (prefix + selector + arguments)[2..10] == selector;
    }
  }

  /* ---------- The tree, read without counters ---------- */

  function Size(calls: Calls): nat {
    match calls
    case Nil => 0
    case Cons(c, rest) => 1 + Size(c.calls) + Size(rest)
  }

  /** Every call of the forest, parents before children, siblings in order. */
  function Preorder(calls: Calls): (r: seq<Call>)
    ensures |r| == Size(calls)
  {
    match calls
    case Nil => []
    case Cons(c, rest) => [c] + Preorder(c.calls) + Preorder(rest)
  }

  predicate AllHaveSelectors(calls: Calls) {
    match calls
    case Nil => true
    case Cons(c, rest) => HasSelector(c) && AllHaveSelectors(c.calls) && AllHaveSelectors(rest)
  }

  function Failed(c: Call): DecodedCall {
    DecodedCall("", "", 0, "", c.from, c.to, false)
  }

  /** What `decodeCall` fills in, with the level and parent the second walk adds. */
  function Decoded(c: Call, selector: string, level: nat, parent: string): DecodedCall {
    DecodedCall(NormHex(selector), parent, level, c.error, c.from, c.to, true)
  }

  function Entry(c: Call, selector: string, level: nat, parent: string, ok: bool): DecodedCall {
    if ok then Decoded(c, selector, level, parent) else Failed(c)
  }

  /** The decoded list so far, and the number of the last call that was counted. */
  datatype Walk = Walk(entries: seq<DecodedCall>, counter: nat)

  /* ---------- The two walks, as the code does them ---------- */

  /** `gatherAllMethodsFn`: the selectors collected after visiting a forest. */
  function Gather(methods: seq<string>, calls: Calls): seq<string>
    decreases calls
  {
    match calls
    case Nil => methods
    case Cons(c, rest) => Gather(Gather(methods + [Selector(c)], c.calls), rest)
  }

  function At(methods: seq<string>, i: nat): string {
    if i < |methods| then methods[i] else ""
  }

  /** One turn of the range loop of `processCallsFn`. */
  function WalkCall(w: Walk, c: Call, methods: seq<string>, level: nat, parent: string, ok: Outcomes): (r: Walk)
    ensures r.counter <= w.counter + 1 + Size(c.calls)
    decreases c
  {
    var n := w.counter + 1;
    if !ok(n) then Walk(w.entries + [Failed(c)], n) else
    WalkCalls(Walk(w.entries + [Decoded(c, At(methods, n), level, parent)], n),
              c.calls, methods, level + 1, At(methods, n), ok)
  }

  /** `processCallsFn`: the state after walking a forest with the given list of selectors. */
  function WalkCalls(w: Walk, calls: Calls, methods: seq<string>, level: nat, parent: string, ok: Outcomes): (r: Walk)
    ensures r.counter <= w.counter + Size(calls)
    decreases calls
  {
    match calls
    case Nil => w
    case Cons(c, rest) => WalkCalls(WalkCall(w, c, methods, level, parent, ok), rest, methods, level, parent, ok)
  }

  /** The decoded calls of one trace: the main call, then everything the second walk emits. */
  function Traced(main: Call, ok: Outcomes): seq<DecodedCall> {
    var start := Walk([Decoded(main, Selector(main), 0, "")], 0);
    WalkCalls(start, main.calls, Gather([Selector(main)], main.calls), 1, Selector(main), ok).entries
  }

  /* ---------- Alignment of the two walks ---------- */

  /** From position i on, the collected selectors are those of this forest. */
  ghost predicate Lists(methods: seq<string>, i: nat, calls: Calls)
    decreases calls
  {
    match calls
    case Nil => i <= |methods|
    case Cons(c, rest) =>
      && i < |methods| && methods[i] == Selector(c)
      && Lists(methods, i + 1, c.calls)
      && Lists(methods, i + 1 + Size(c.calls), rest)
  }

  lemma {:induction false} ListsExtends(methods: seq<string>, more: seq<string>, i: nat, calls: Calls)
    requires Lists(methods, i, calls) && methods <= more
    ensures Lists(more, i, calls)
    decreases calls
  {
    match calls
    case Nil =>
    case Cons(c, rest) =>
      ListsExtends(methods, more, i + 1, c.calls);
      ListsExtends(methods, more, i + 1 + Size(c.calls), rest);
  }

  /** The first walk lists the forest in preorder, one selector per call. */
  lemma {:induction false} GatherLists(methods: seq<string>, calls: Calls)
    ensures methods <= Gather(methods, calls) && |Gather(methods, calls)| == |methods| + Size(calls)
    ensures Lists(Gather(methods, calls), |methods|, calls)
    decreases calls
  {
    match calls
    case Nil =>
    case Cons(c, rest) =>
      var own := methods + [Selector(c)];
      var mid := Gather(own, c.calls);
      GatherLists(own, c.calls);
      GatherLists(mid, rest);
      ListsExtends(mid, Gather(mid, rest), |own|, c.calls);
      assert own[|methods|] == Selector(c);
  }

  /** Every call that fails to decode is a leaf of the call tree; calls are numbered in preorder. */
  ghost predicate FailuresAreLeaves(calls: Calls, n: nat, ok: Outcomes) {
    match calls
    case Nil => true
    case Cons(c, rest) =>
      && (ok(n + 1) || c.calls == Nil)
      && FailuresAreLeaves(c.calls, n + 1, ok)
      && FailuresAreLeaves(rest, n + 1 + Size(c.calls), ok)
  }

  /** The second walk counts every call exactly when no undecodable call has children. */
  lemma {:induction false} CountsEveryCall(w: Walk, calls: Calls, methods: seq<string>, level: nat, parent: string, ok: Outcomes)
    ensures WalkCalls(w, calls, methods, level, parent, ok).counter == w.counter + Size(calls)
            <==> FailuresAreLeaves(calls, w.counter, ok)
    decreases calls
  {
    match calls
    case Nil =>
    case Cons(c, rest) =>
      var n := w.counter + 1;
      var own := Walk(w.entries + [Decoded(c, At(methods, n), level, parent)], n);
      CountsEveryCall(own, c.calls, methods, level + 1, At(methods, n), ok);
      CountsEveryCall(WalkCall(w, c, methods, level, parent, ok), rest, methods, level, parent, ok);
  }

  /**
   * From position i on, the list mirrors the forest: one entry per call in preorder, carrying that
   * call's own selector, its depth and the selector of its real parent.
   */
  ghost predicate Mirrors(entries: seq<DecodedCall>, i: nat, calls: Calls, level: nat, parent: string, ok: Outcomes)
    decreases calls
  {
    match calls
    case Nil => i <= |entries|
    case Cons(c, rest) =>
      && i < |entries| && entries[i] == Entry(c, Selector(c), level, parent, ok(i))
      && Mirrors(entries, i + 1, c.calls, level + 1, Selector(c), ok)
      && Mirrors(entries, i + 1 + Size(c.calls), rest, level, parent, ok)
  }

  lemma {:induction false} MirrorsExtends(
      entries: seq<DecodedCall>, more: seq<DecodedCall>, i: nat, calls: Calls, level: nat, parent: string, ok: Outcomes)
    requires Mirrors(entries, i, calls, level, parent, ok) && entries <= more
    ensures Mirrors(more, i, calls, level, parent, ok)
    decreases calls
  {
    match calls
    case Nil =>
    case Cons(c, rest) =>
      MirrorsExtends(entries, more, i + 1, c.calls, level + 1, Selector(c), ok);
      MirrorsExtends(entries, more, i + 1 + Size(c.calls), rest, level, parent, ok);
  }

  /** The second walk appends one entry for each call it counts. */
  lemma {:induction false} WalkAppends(w: Walk, calls: Calls, methods: seq<string>, level: nat, parent: string, ok: Outcomes)
    ensures var r := WalkCalls(w, calls, methods, level, parent, ok);
            && w.entries <= r.entries
            && |r.entries| - r.counter == |w.entries| - w.counter
    decreases calls
  {
    match calls
    case Nil =>
    case Cons(c, rest) =>
      var n := w.counter + 1;
      var own := Walk(w.entries + [Decoded(c, At(methods, n), level, parent)], n);
      WalkAppends(own, c.calls, methods, level + 1, At(methods, n), ok);
      WalkAppends(WalkCall(w, c, methods, level, parent, ok), rest, methods, level, parent, ok);
  }

  lemma MirrorsJoin(entries: seq<DecodedCall>, i: nat, c: Call, rest: Calls, level: nat, parent: string, ok: Outcomes)
    requires i < |entries| && entries[i] == Entry(c, Selector(c), level, parent, ok(i))
    requires Mirrors(entries, i + 1, c.calls, level + 1, Selector(c), ok)
    requires Mirrors(entries, i + 1 + Size(c.calls), rest, level, parent, ok)
    ensures Mirrors(entries, i, Cons(c, rest), level, parent, ok)
  {
  }

  /** With failures only at the leaves, what the second walk appends mirrors the forest. */
  lemma {:induction false} WalkMirrors(w: Walk, calls: Calls, methods: seq<string>, level: nat, parent: string, ok: Outcomes)
    requires |w.entries| == w.counter + 1
    requires Lists(methods, w.counter + 1, calls)
    requires FailuresAreLeaves(calls, w.counter, ok)
    ensures Mirrors(WalkCalls(w, calls, methods, level, parent, ok).entries, |w.entries|, calls, level, parent, ok)
    decreases calls
  {
    match calls
    case Nil =>
    case Cons(c, rest) =>
      var n, sel := w.counter + 1, Selector(c);
      var mid := WalkCall(w, c, methods, level, parent, ok);
      var all := WalkCalls(mid, rest, methods, level, parent, ok);
      WalkCallInStep(w, c, methods, level, parent, ok);
      WalkAppends(mid, rest, methods, level, parent, ok);
      WalkMirrors(mid, rest, methods, level, parent, ok);
      if ok(n) {
        WalkMirrors(Walk(w.entries + [Decoded(c, sel, level, parent)], n), c.calls, methods, level + 1, sel, ok);
        MirrorsExtends(mid.entries, all.entries, n + 1, c.calls, level + 1, sel, ok);
      }
      MirrorsJoin(all.entries, n, c, rest, level, parent, ok);
  }

  /** One turn of the walk describes its call first and keeps counter and list in step. */
  lemma WalkCallInStep(w: Walk, c: Call, methods: seq<string>, level: nat, parent: string, ok: Outcomes)
    requires |w.entries| == w.counter + 1 && w.counter + 1 < |methods|
    requires FailuresAreLeaves(c.calls, w.counter + 1, ok) && (ok(w.counter + 1) || c.calls == Nil)
    ensures var n, mid := w.counter + 1, WalkCall(w, c, methods, level, parent, ok);
            && mid.counter == n + Size(c.calls) && |mid.entries| == mid.counter + 1
            && mid.entries[n] == Entry(c, methods[n], level, parent, ok(n))
  {
    var n := w.counter + 1;
    var own := Walk(w.entries + [Entry(c, methods[n], level, parent, ok(n))], n);
    CountsEveryCall(own, c.calls, methods, level + 1, methods[n], ok);
    WalkAppends(own, c.calls, methods, level + 1, methods[n], ok);
    assert own.entries[n] == Entry(c, methods[n], level, parent, ok(n));
  }

  /**
   * Main result on alignment: the decoded list mirrors the call tree, with nothing left over, if
   * and only if no undecodable call has children.
   */
  lemma AlignedExactlyWhenFailuresAreLeaves(main: Call, ok: Outcomes)
    ensures && |Traced(main, ok)| == 1 + Size(main.calls)
            && Mirrors(Traced(main, ok), 1, main.calls, 1, Selector(main), ok)
            <==>
            FailuresAreLeaves(main.calls, 0, ok)
  {
    var sel := Selector(main);
    var methods, start := Gather([sel], main.calls), Walk([Decoded(main, sel, 0, "")], 0);
    GatherLists([sel], main.calls);
    CountsEveryCall(start, main.calls, methods, 1, sel, ok);
    WalkAppends(start, main.calls, methods, 1, sel, ok);
    if FailuresAreLeaves(main.calls, 0, ok) {
      WalkMirrors(start, main.calls, methods, 1, sel, ok);
    }
  }

  /**
   * From position i on, the list describes the forest in the code's own terms: calls in preorder, each with the
   * selector written in its input, its depth, and the selector written in its caller's input.
   */
  ghost predicate Describes(entries: seq<DecodedCall>, i: nat, calls: Calls, level: nat, parent: string, ok: Outcomes)
    decreases calls
  {
    match calls
    case Nil => i <= |entries|
    case Cons(c, rest) =>
      && (exists selector :: IsMethodOf(c.input, selector) && DescribesCall(entries, i, c, selector, level, parent, ok))
      && Describes(entries, i + 1 + Size(c.calls), rest, level, parent, ok)
  }

  ghost predicate DescribesCall(
      entries: seq<DecodedCall>, i: nat, c: Call, selector: string, level: nat, parent: string, ok: Outcomes)
    decreases c
  {
    && i < |entries|
    && entries[i] == (if ok(i) then DecodedCall(NormHex(selector), parent, level, c.error, c.from, c.to, true)
                      else DecodedCall("", "", 0, "", c.from, c.to, false))
    && Describes(entries, i + 1, c.calls, level + 1, selector, ok)
  }

  lemma {:induction false} MirrorDescribes(
      entries: seq<DecodedCall>, i: nat, calls: Calls, level: nat, parent: string, ok: Outcomes)
    requires AllHaveSelectors(calls) && Mirrors(entries, i, calls, level, parent, ok)
    ensures Describes(entries, i, calls, level, parent, ok)
    decreases calls
  {
    match calls
    case Nil =>
    case Cons(c, rest) =>
      MirrorDescribes(entries, i + 1, c.calls, level + 1, Selector(c), ok);
      MirrorDescribes(entries, i + 1 + Size(c.calls), rest, level, parent, ok);
      SelectorIsWritten(c, Selector(c));
      assert DescribesCall(entries, i, c, Selector(c), level, parent, ok);
  }

  /** The whole list, main call included, in terms of what the inputs say. */
  lemma TraceIsDescribed(main: Call, ok: Outcomes)
    requires HasSelector(main) && AllHaveSelectors(main.calls) && ok(0) && FailuresAreLeaves(main.calls, 0, ok)
    ensures |Traced(main, ok)| == 1 + Size(main.calls)
    ensures Describes(Traced(main, ok), 0, Cons(main, Nil), 0, "", ok)
  {
    var sel, entries := Selector(main), Traced(main, ok);
    AlignedExactlyWhenFailuresAreLeaves(main, ok);
    WalkAppends(Walk([Decoded(main, sel, 0, "")], 0), main.calls, Gather([sel], main.calls), 1, sel, ok);
    MirrorDescribes(entries, 1, main.calls, 1, sel, ok);
    SelectorIsWritten(main, sel);
    assert DescribesCall(entries, 0, main, sel, 0, "", ok);
    assert Describes(entries, 1 + Size(main.calls), Nil, 0, "", ok);
  }

  lemma DescribesLonger(
      entries: seq<DecodedCall>, more: seq<DecodedCall>, i: nat, calls: Calls, level: nat, parent: string, ok: Outcomes)
    requires Describes(entries, i, calls, level, parent, ok) && entries <= more
    ensures Describes(more, i, calls, level, parent, ok)
    decreases calls
  {
    match calls
    case Nil =>
    case Cons(c, rest) =>
      var sel :| IsMethodOf(c.input, sel) && DescribesCall(entries, i, c, sel, level, parent, ok);
      DescribesLonger(entries, more, i + 1, c.calls, level + 1, sel, ok);
      DescribesLonger(entries, more, i + 1 + Size(c.calls), rest, level, parent, ok);
      assert DescribesCall(more, i, c, sel, level, parent, ok);
  }

  /**
   * Wherever the two walks are still aligned, a failing call with children makes its next sibling borrow
   * the selector of the first child.
   */
  lemma SkippedChildIsBorrowed(
      w: Walk, c: Call, s: Call, rest: Calls, methods: seq<string>, level: nat, parent: string, ok: Outcomes)
    requires Lists(methods, w.counter + 1, Cons(c, Cons(s, rest)))
    requires c.calls.Cons? && !ok(w.counter + 1) && ok(w.counter + 2)
    ensures var entries, i := WalkCalls(w, Cons(c, Cons(s, rest)), methods, level, parent, ok).entries, |w.entries|;
            && i + 1 < |entries| && entries[i] == Failed(c)
            && entries[i + 1] == Decoded(s, Selector(c.calls.first), level, parent)
  {
    var n := w.counter + 2;
    assert methods[n] == Selector(c.calls.first);
    var mid := Walk(w.entries + [Failed(c)], n - 1);
    var own := Walk(mid.entries + [Decoded(s, methods[n], level, parent)], n);
    var next := WalkCalls(own, s.calls, methods, level + 1, methods[n], ok);
    WalkAppends(own, s.calls, methods, level + 1, methods[n], ok);
    WalkAppends(next, rest, methods, level, parent, ok);
    assert WalkCalls(w, Cons(c, Cons(s, rest)), methods, level, parent, ok) == WalkCalls(mid, Cons(s, rest), methods, level, parent, ok);
    assert WalkCalls(mid, Cons(s, rest), methods, level, parent, ok) == WalkCalls(next, rest, methods, level, parent, ok);
    assert own.entries[|w.entries|] == Failed(c) && own.entries[|w.entries| + 1] == Decoded(s, methods[n], level, parent);
  }

  lemma SkippedChildInTrace(main: Call, c: Call, s: Call, rest: Calls, ok: Outcomes)
    requires main.calls == Cons(c, Cons(s, rest)) && c.calls.Cons? && !ok(1) && ok(2)
    ensures |Traced(main, ok)| > 2 && Traced(main, ok)[2] == Decoded(s, Selector(c.calls.first), 1, Selector(main))
  {
    var sel := Selector(main);
    GatherLists([sel], main.calls);
    SkippedChildIsBorrowed(Walk([Decoded(main, sel, 0, "")], 0), c, s, rest, Gather([sel], main.calls), 1, sel, ok);
  }

  /** The sibling's own address then stands beside the method of the skipped child. */
  lemma SkippedChildMisnames(main: Call, c: Call, s: Call, rest: Calls, ok: Outcomes)
    requires main.calls == Cons(c, Cons(s, rest)) && c.calls.Cons? && !ok(1) && ok(2)
    requires Selector(c.calls.first) != Selector(s) && IsLowerHex(Selector(c.calls.first)) && IsLowerHex(Selector(s))
    ensures |Traced(main, ok)| > 2 && Traced(main, ok)[2].toAddress == s.to
    ensures Traced(main, ok)[2].signature != NormHex(Selector(s))
  {
    SkippedChildInTrace(main, c, s, rest, ok);
    NormHexFixpoint(Selector(c.calls.first));
    NormHexFixpoint(Selector(s));
  }

  /** A concrete tree whose decoded list names the wrong method. */
  lemma SkippedChildrenMisalign(ok: Outcomes)
    requires !ok(1) && ok(2)
    ensures var child := Call("b", "c", "0xbbbbbbbb", "", Nil);
            var first := Call("a", "b", "0xaaaaaaaa", "", Cons(child, Nil));
            var second := Call("a", "d", "0xcccccccc", "", Nil);
            var main := Call("0", "a", "0x00000000", "", Cons(first, Cons(second, Nil)));
            && |Traced(main, ok)| > 2 && Traced(main, ok)[2].toAddress == second.to
            && Traced(main, ok)[2].signature != NormHex(Selector(second))
  {
    var child := Call("b", "c", "0xbbbbbbbb", "", Nil);
    var first := Call("a", "b", "0xaaaaaaaa", "", Cons(child, Nil));
    var second := Call("a", "d", "0xcccccccc", "", Nil);
    var main := Call("0", "a", "0x00000000", "", Cons(first, Cons(second, Nil)));
    assert Selector(child) == "bbbbbbbb" && Selector(second) == "cccccccc";
    SkippedChildMisnames(main, first, second, Nil, ok);
  }

  /* ---------- Reading the tree back from the list ---------- */

  datatype Label = Label(signature: string, error: string, fromAddress: string, toAddress: string)

  datatype Forest = Empty | Grow(root: Label, kids: Forest, siblings: Forest)

  function LabelOf(e: DecodedCall): Label { Label(e.signature, e.error, e.fromAddress, e.toAddress) }

  /** The call forest with its nodes named as the decoded list names them. */
  function Shape(calls: Calls): Forest {
    match calls
    case Nil => Empty
    case Cons(c, rest) =>
      Grow(Label(NormHex(Selector(c)), c.error, c.from, c.to), Shape(c.calls), Shape(rest))
  }

  /** Reads a forest of depth `level` or more from position i on; returns where it stopped. */
  function Rebuild(entries: seq<DecodedCall>, i: nat, level: nat): (r: (Forest, nat))
    requires i <= |entries|
    ensures i <= r.1 <= |entries|
    decreases |entries| - i
  {
    if i == |entries| || entries[i].nestingLevel < level then (Empty, i) else
    var (kids, afterKids) := Rebuild(entries, i + 1, level + 1);
    var (siblings, end) := Rebuild(entries, afterKids, level);
    (Grow(LabelOf(entries[i]), kids, siblings), end)
  }

  /** Reading from position i on yields the forest and stops right after it. */
  ghost predicate ReadsBack(entries: seq<DecodedCall>, i: nat, calls: Calls, level: nat) {
    i <= |entries| && Rebuild(entries, i, level) == (Shape(calls), i + Size(calls))
  }

  ghost predicate EndsAt(entries: seq<DecodedCall>, i: nat, level: nat) {
    i <= |entries| && (i < |entries| ==> entries[i].nestingLevel < level)
  }

  /** The first tree of a forest is read as its root, its children and the trees after it. */
  lemma RebuildJoins(entries: seq<DecodedCall>, i: nat, c: Call, rest: Calls, level: nat)
    requires i < |entries| && entries[i].nestingLevel == level
    requires LabelOf(entries[i]) == Label(NormHex(Selector(c)), c.error, c.from, c.to)
    requires ReadsBack(entries, i + 1, c.calls, level + 1) && ReadsBack(entries, i + 1 + Size(c.calls), rest, level)
    ensures ReadsBack(entries, i, Cons(c, rest), level)
  {
  }

  lemma MirroredFirst(entries: seq<DecodedCall>, i: nat, c: Call, rest: Calls, level: nat, parent: string, ok: Outcomes)
    requires ok(i) && Mirrors(entries, i, Cons(c, rest), level, parent, ok)
    ensures i < |entries| && entries[i].nestingLevel == level
    ensures LabelOf(entries[i]) == Label(NormHex(Selector(c)), c.error, c.from, c.to)
    ensures Mirrors(entries, i + 1, c.calls, level + 1, Selector(c), ok)
    ensures Mirrors(entries, i + 1 + Size(c.calls), rest, level, parent, ok)
  {
  }

  lemma NextIsShallow(entries: seq<DecodedCall>, i: nat, calls: Calls, level: nat, parent: string, ok: Outcomes)
    requires ok(i) && Mirrors(entries, i, calls, level, parent, ok) && EndsAt(entries, i + Size(calls), level)
    ensures EndsAt(entries, i, level + 1)
  {
    match calls
    case Nil =>
    case Cons(c, rest) => MirroredFirst(entries, i, c, rest, level, parent, ok);
  }

  /** Reading stops right after the forest, when what follows is no deeper than its parent. */
  lemma {:induction false} RebuildMirrored(
      entries: seq<DecodedCall>, i: nat, calls: Calls, level: nat, parent: string, ok: Outcomes)
    requires forall k :: ok(k)
    requires Mirrors(entries, i, calls, level, parent, ok) && EndsAt(entries, i + Size(calls), level)
    ensures ReadsBack(entries, i, calls, level)
    decreases calls
  {
    match calls
    case Nil =>
    case Cons(c, rest) =>
      var j := i + 1 + Size(c.calls);
      MirroredFirst(entries, i, c, rest, level, parent, ok);
      NextIsShallow(entries, j, rest, level, parent, ok);
      RebuildMirrored(entries, i + 1, c.calls, level + 1, Selector(c), ok);
      RebuildMirrored(entries, j, rest, level, parent, ok);
      RebuildJoins(entries, i, c, rest, level);
  }

  /** Nothing of the tree is lost: the printed depths alone are enough to restore it. */
  lemma TreeSurvivesFlattening(main: Call, ok: Outcomes)
    requires forall i :: ok(i)
    ensures Rebuild(Traced(main, ok), 0, 0) == (Shape(Cons(main, Nil)), |Traced(main, ok)|)
  {
    EverythingDecodes(main.calls, 0, ok);
    AlignedExactlyWhenFailuresAreLeaves(main, ok);
    var start := Walk([Decoded(main, Selector(main), 0, "")], 0);
    WalkAppends(start, main.calls, Gather([Selector(main)], main.calls), 1, Selector(main), ok);
    RebuildMirrored(Traced(main, ok), 1, main.calls, 1, Selector(main), ok);
    assert Traced(main, ok)[0] == start.entries[0];
  }

  lemma EverythingDecodes(calls: Calls, n: nat, ok: Outcomes)
    requires forall i :: ok(i)
    ensures FailuresAreLeaves(calls, n, ok)
  {
  }
}
