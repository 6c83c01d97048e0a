/** From the call tree to the picture: what the trace decoder guarantees to the graph drawing. */
module TraceGraph {
  import opened Common
  import opened CallTrace
  import opened TraceDecoder
  import opened CallGraph
  import opened DotGraph

  /** A selector as nodes report it: four bytes in lower-case hexadecimal. */
  predicate IsSelector(s: string) { |s| == 8 && IsLowerHex(s) }

  predicate WellFormed(calls: Calls) {
    match calls
    case Nil => true
    case Cons(c, rest) => IsSelector(Selector(c)) && WellFormed(c.calls) && WellFormed(rest)
  }

  ghost predicate AllSelectors(methods: seq<string>) {
    forall i :: 0 <= i < |methods| ==> IsSelector(methods[i])
  }

  lemma {:induction false} GatherSelectors(methods: seq<string>, calls: Calls)
    requires AllSelectors(methods) && WellFormed(calls)
    ensures AllSelectors(Gather(methods, calls))
    decreases calls
  {
    match calls
    case Nil =>
    case Cons(c, rest) =>
      GatherSelectors(methods + [Selector(c)], c.calls);
      GatherSelectors(Gather(methods + [Selector(c)], c.calls), rest);
  }

  /** Some decoded call among the entries has this signature. */
  ghost predicate DecodedAs(entries: seq<DecodedCall>, signature: string) {
    exists j :: 0 <= j < |entries| && entries[j].decoded && entries[j].signature == signature
  }

  /** Entry i is a decoded call made by an earlier decoded call, or carries no signatures at all. */
  ghost predicate GrownAt(entries: seq<DecodedCall>, i: nat)
    requires i < |entries|
  {
    var e := entries[i];
    if e.decoded then |e.signature| == 8 && e.parentSignature != "" && DecodedAs(entries[..i], e.parentSignature)
    else |e.signature| != 8 && e.parentSignature == ""
  }

  /** The list starts with the main call and every other entry grows out of the ones before it. */
  ghost predicate Grown(entries: seq<DecodedCall>) {
    && entries != [] && entries[0].decoded && entries[0].parentSignature == "" && |entries[0].signature| == 8
    && forall i :: 0 < i < |entries| ==> GrownAt(entries, i)
  }

  lemma GrowByOne(entries: seq<DecodedCall>, e: DecodedCall)
    requires Grown(entries)
    requires if e.decoded then |e.signature| == 8 && e.parentSignature != "" && DecodedAs(entries, e.parentSignature)
             else |e.signature| != 8 && e.parentSignature == ""
    ensures Grown(entries + [e])
  {
    var more := entries + [e];
    forall i | 0 < i < |more|
      ensures GrownAt(more, i)
    {
      if i < |entries| {
        assert GrownAt(entries, i) && more[..i] == entries[..i];
      } else {
        assert more[..i] == entries;
      }
    }
  }

  lemma DecodedAsExtends(entries: seq<DecodedCall>, more: seq<DecodedCall>, signature: string)
    requires entries <= more && DecodedAs(entries, signature)
    ensures DecodedAs(more, signature)
  {
    var j :| 0 <= j < |entries| && entries[j].decoded && entries[j].signature == signature;
    assert more[j] == entries[j];
  }

  /** Every run of the second walk keeps the list growing, whatever fails to decode. */
  lemma {:induction false} WalkGrows(w: Walk, calls: Calls, methods: seq<string>, level: nat, parent: string, ok: Outcomes)
    requires Grown(w.entries) && DecodedAs(w.entries, parent) && parent != ""
    requires AllSelectors(methods) && w.counter + Size(calls) < |methods|
    ensures Grown(WalkCalls(w, calls, methods, level, parent, ok).entries)
    decreases calls
  {
    match calls
    case Nil =>
    case Cons(c, rest) =>
      var n := w.counter + 1;
      var mid := WalkCall(w, c, methods, level, parent, ok);
      if ok(n) {
        var e := Decoded(c, methods[n], level, parent);
        NormHexFixpoint(methods[n]);
        GrowByOne(w.entries, e);
        var own := Walk(w.entries + [e], n);
        assert own.entries[|w.entries|] == e;
        WalkGrows(own, c.calls, methods, level + 1, methods[n], ok);
        WalkAppends(own, c.calls, methods, level + 1, methods[n], ok);
        assert w.entries <= mid.entries;
      } else {
        GrowByOne(w.entries, Failed(c));
      }
      DecodedAsExtends(w.entries, mid.entries, parent);
      WalkGrows(mid, rest, methods, level, parent, ok);
  }

  lemma {:induction false} AddUnrelated(entries: seq<DecodedCall>, more: seq<DecodedCall>)
    requires Grown(entries)
    requires forall e :: e in more ==> !e.decoded && e.parentSignature == "" && |e.signature| != 8
    ensures Grown(entries + more)
  {
    if more != [] {
      var last := more[|more| - 1];
      AddUnrelated(entries, more[..|more| - 1]);
      GrowByOne(entries + more[..|more| - 1], last);
      assert entries + more == entries + more[..|more| - 1] + [last];
    } else {
      assert entries + more == entries;
    }
  }

  lemma {:induction false} MissingAreUnrelated(signatures: seq<string>, lookup: Lookup)
    requires forall s :: s in signatures ==> |s| != 8
    ensures forall e :: e in MissingCalls(signatures, lookup) ==> |e.signature| != 8
  {
    if signatures != [] {
      MissingAreUnrelated(signatures[1..], lookup);
    }
  }

  /** The whole list `DecodeTrace` returns, failures and missing calls included. */
  lemma DecodedTraceGrows(main: Call, rows: seq<FourByte>, ok: Outcomes, lookup: Lookup)
    requires IsSelector(Selector(main)) && WellFormed(main.calls)
    requires forall row :: row in rows ==> |row.signature| != 8
    ensures Grown(Traced(main, ok) + Untraced(main, rows, lookup))
  {
    var sel := Selector(main);
    var methods, start := Gather([sel], main.calls), Walk([Decoded(main, sel, 0, "")], 0);
    NormHexFixpoint(sel);
    GatherLists([sel], main.calls);
    GatherSelectors([sel], main.calls);
    assert start.entries[0].signature == sel;
    WalkGrows(start, main.calls, methods, 1, sel, ok);
    MissingAreUnrelated(Unseen(main, rows), lookup);
    AddUnrelated(Traced(main, ok), Untraced(main, rows, lookup));
  }

  /** Such a list is drawn as a forest: parents always come first. */
  lemma GrownParentsFirst(entries: seq<DecodedCall>)
    requires Grown(entries)
    ensures ParentsFirst(entries)
  {
    forall i | 0 <= i < |entries|
      ensures ParentFirst(entries, i)
    {
      if entries[i].parentSignature != "" {
        assert GrownAt(entries, i);
        assert DecodedAs(entries[..i], entries[i].parentSignature);
      }
    }
  }

  lemma {:induction false} DecodedIsReachable(entries: seq<DecodedCall>, i: nat)
    requires Grown(entries) && i < |entries| && entries[i].decoded
    ensures Reachable(entries, entries[0].signature, entries[i].signature)
  {
    var root := entries[0].signature;
    if i == 0 {
      assert IsPath(entries, [root], root, root);
    } else {
      assert GrownAt(entries, i);
      var j :| 0 <= j < i && entries[..i][j].decoded && entries[..i][j].signature == entries[i].parentSignature;
      DecodedIsReachable(entries, j);
      var p :| IsPath(entries, p, root, entries[j].signature);
      assert Edge(entries, entries[j].signature, entries[i].signature);
      assert IsPath(entries, p + [entries[i].signature], root, entries[i].signature);
    }
  }

  lemma {:induction false} PathsStayDecoded(entries: seq<DecodedCall>, p: seq<string>, to: string)
    requires Grown(entries) && IsPath(entries, p, entries[0].signature, to)
    ensures |to| == 8
  {
    if |p| > 1 {
      PathsStayDecoded(entries, p[..|p| - 1], p[|p| - 2]);
      assert Edge(entries, p[|p| - 2], p[|p| - 1]);
      var c :| c in entries && c.parentSignature == p[|p| - 2] && c.signature == to;
      var i :| 0 <= i < |entries| && entries[i] == c;
      assert i > 0 && GrownAt(entries, i);
    }
  }

  /**
   * The highlighted path exists exactly when the call it should lead to was decoded: the graph search
   * finds every decoded call and never an undecodable or untraced one.
   */
  lemma PathExactlyToDecodedCalls(main: Call, rows: seq<FourByte>, ok: Outcomes, lookup: Lookup, i: nat)
    requires IsSelector(Selector(main)) && WellFormed(main.calls)
    requires forall row :: row in rows ==> |row.signature| != 8
    requires i < |Traced(main, ok) + Untraced(main, rows, lookup)|
    ensures var entries := Traced(main, ok) + Untraced(main, rows, lookup);
            && IsRoot(entries, 0) && ParentsFirst(entries)
            && (Reachable(entries, entries[0].signature, entries[i].signature) <==> entries[i].decoded)
  {
    var entries := Traced(main, ok) + Untraced(main, rows, lookup);
    DecodedTraceGrows(main, rows, ok, lookup);
    GrownParentsFirst(entries);
    if entries[i].decoded {
      DecodedIsReachable(entries, i);
    } else if Reachable(entries, entries[0].signature, entries[i].signature) {
      var p :| IsPath(entries, p, entries[0].signature, entries[i].signature);
      assert GrownAt(entries, i);
      PathsStayDecoded(entries, p, entries[i].signature);
    }
  }

  /* ---------- Parents come first, however selectors are spelled ---------- */

  /**
   * A signature of selector length is in lower case, and a parent in lower case was carried before; a parent
   * in another spelling is carried by no call at all.
   */
  ghost predicate ParentedAt(entries: seq<DecodedCall>, i: nat)
    requires i < |entries|
  {
    var e := entries[i];
    && (|e.signature| == 8 ==> IsLowerHex(e.signature))
    && (e.parentSignature != "" ==> Announced(entries[..i], e.parentSignature))
  }

  ghost predicate Announced(before: seq<DecodedCall>, parent: string) {
    |parent| == 8 && (IsLowerHex(parent) ==> Carried(before, parent))
  }

  ghost predicate Parented(entries: seq<DecodedCall>) {
    forall i :: 0 <= i < |entries| ==> ParentedAt(entries, i)
  }

  lemma ParentedAppend(entries: seq<DecodedCall>, e: DecodedCall)
    requires Parented(entries) && (|e.signature| == 8 ==> IsLowerHex(e.signature))
    requires e.parentSignature != "" ==> Announced(entries, e.parentSignature)
    ensures Parented(entries + [e])
  {
    var more := entries + [e];
    forall i | 0 <= i < |more| ensures ParentedAt(more, i) {
      if i < |entries| {
        assert ParentedAt(entries, i) && more[..i] == entries[..i];
      } else {
        assert more[..i] == entries;
      }
    }
  }

  lemma AnnouncedExtends(entries: seq<DecodedCall>, more: seq<DecodedCall>, parent: string)
    requires entries <= more && Announced(entries, parent)
    ensures Announced(more, parent)
  {
    if IsLowerHex(parent) {
      var j :| 0 <= j < |entries| && entries[j].signature == parent;
      assert more[j].signature == parent;
    }
  }

  ghost predicate AllLong(methods: seq<string>) { forall i :: 0 <= i < |methods| ==> |methods[i]| == 8 }

  lemma {:induction false} GatherLong(methods: seq<string>, calls: Calls)
    requires AllLong(methods) && AllHaveSelectors(calls)
    ensures AllLong(Gather(methods, calls))
    decreases calls
  {
    match calls
    case Nil =>
    case Cons(c, rest) =>
      GatherLong(methods + [Selector(c)], c.calls);
      GatherLong(Gather(methods + [Selector(c)], c.calls), rest);
  }

  /** A decoded entry keeps the order, and its children may wait for its selector. */
  lemma DecodedIsParented(entries: seq<DecodedCall>, c: Call, selector: string, level: nat, parent: string)
    requires Parented(entries) && Announced(entries, parent) && |selector| == 8
    ensures var more := entries + [Decoded(c, selector, level, parent)]; Parented(more) && Announced(more, selector)
  {
    var e := Decoded(c, selector, level, parent);
    NormHexIsLower(selector);
    NormHexFixpoint(selector);
    ParentedAppend(entries, e);
    assert (entries + [e])[|entries|] == e;
  }

  lemma {:induction false} WalkParented(w: Walk, calls: Calls, methods: seq<string>, level: nat, parent: string, ok: Outcomes)
    requires Parented(w.entries) && Announced(w.entries, parent)
    requires AllLong(methods) && w.counter + Size(calls) < |methods|
    ensures Parented(WalkCalls(w, calls, methods, level, parent, ok).entries)
    decreases calls
  {
    match calls
    case Nil =>
    case Cons(c, rest) =>
      var n := w.counter + 1;
      var mid := WalkCall(w, c, methods, level, parent, ok);
      if ok(n) {
        var own := Walk(w.entries + [Decoded(c, methods[n], level, parent)], n);
        DecodedIsParented(w.entries, c, methods[n], level, parent);
        WalkParented(own, c.calls, methods, level + 1, methods[n], ok);
        WalkAppends(own, c.calls, methods, level + 1, methods[n], ok);
        assert w.entries <= mid.entries;
      } else {
        ParentedAppend(w.entries, Failed(c));
      }
      AnnouncedExtends(w.entries, mid.entries, parent);
      WalkParented(mid, rest, methods, level, parent, ok);
  }

  lemma {:induction false} AddMissing(entries: seq<DecodedCall>, more: seq<DecodedCall>)
    requires Parented(entries)
    requires forall e :: e in more ==> e.parentSignature == "" && |e.signature| != 8
    ensures Parented(entries + more)
  {
    if more != [] {
      var last := more[|more| - 1];
      AddMissing(entries, more[..|more| - 1]);
      ParentedAppend(entries + more[..|more| - 1], last);
      assert entries + more == entries + more[..|more| - 1] + [last];
    } else {
      assert entries + more == entries;
    }
  }

  /** Whatever the selectors look like and whatever fails to decode, parents come first in a decoded trace. */
  lemma DecodedTraceHasParentsFirst(main: Call, rows: seq<FourByte>, ok: Outcomes, lookup: Lookup)
    requires HasSelector(main) && AllHaveSelectors(main.calls)
    requires forall row :: row in rows ==> |row.signature| != 8
    ensures ParentsFirst(Traced(main, ok) + Untraced(main, rows, lookup))
  {
    var sel := Selector(main);
    var methods, start := Gather([sel], main.calls), Walk([Decoded(main, sel, 0, "")], 0);
    GatherLists([sel], main.calls);
    GatherLong([sel], main.calls);
    NormHexIsLower(sel);
    NormHexFixpoint(sel);
    assert start.entries[0].signature == NormHex(sel);
    WalkParented(start, main.calls, methods, 1, sel, ok);
    MissingAreUnrelated(Unseen(main, rows), lookup);
    AddMissing(Traced(main, ok), Untraced(main, rows, lookup));
    ParentedMeansFirst(Traced(main, ok) + Untraced(main, rows, lookup));
  }

  lemma ParentedMeansFirst(entries: seq<DecodedCall>)
    requires Parented(entries)
    ensures ParentsFirst(entries)
  {
    forall i | 0 <= i < |entries| ensures ParentFirst(entries, i) {
      var parent := entries[i].parentSignature;
      if parent != "" && Carried(entries, parent) {
        var j :| 0 <= j < |entries| && entries[j].signature == parent;
        assert ParentedAt(entries, i) && ParentedAt(entries, j);
      }
    }
  }

  /** From a trace to its picture: decode, find the highlighted path, number the nodes and link them. */
  method TraceAndDraw(main: Call, rows: seq<FourByte>, ok: Outcomes, lookup: Lookup, hash: nat -> string)
    returns (r: Result<seq<DecodedCall>, TraceError>, path: Option<seq<string>>, ids: map<string, nat>, links: seq<Link>)
    ensures r.Ok? <==> HasSelector(main) && AllHaveSelectors(main.calls) && ok(0)
    ensures r.Ok? && (forall row :: row in rows ==> |row.signature| != 8) ==> Numbered(ids) && IsForest(links, |ids|)
    ensures r.Ok? && IsSelector(Selector(main)) && WellFormed(main.calls)
            && (forall row :: row in rows ==> |row.signature| != 8) ==>
              && (forall j: nat :: IsEnd(r.value, j) ==> (path.Some? <==> r.value[j].decoded))
              && (forall j: nat :: IsEnd(r.value, j) && path.Some? ==>
                    IsShortest(r.value, path.value, r.value[0].signature, r.value[j].signature))
  {
    path, ids, links := None, map[], [];
    r := DecodeTrace(main, rows, ok, lookup);
    if r.Err? { return; }
    var calls := r.value;
    path := FindShortestPath(calls);
    ids, links := Draw(calls, seq(|calls|, hash));
    if forall row :: row in rows ==> |row.signature| != 8 {
      DecodedTraceHasParentsFirst(main, rows, ok, lookup);
      if IsSelector(Selector(main)) && WellFormed(main.calls) {
        DecodedTraceGrows(main, rows, ok, lookup);
        assert IsRoot(calls, 0);
        forall j: nat | IsEnd(calls, j)
          ensures Reachable(calls, calls[0].signature, calls[j].signature) <==> calls[j].decoded
        {
          PathExactlyToDecodedCalls(main, rows, ok, lookup, j);
        }
      }
    }
  }
}
