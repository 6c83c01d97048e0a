/**
 * `generateDotGraph` numbers the calls by hash and draws an edge from the first call that carries
 * the parent's signature. What `DecodeTrace` produces always draws as a forest.
 */
module DotGraph {
  import opened Common
  import opened CallTrace

  datatype Link = Link(parent: nat, child: nat)

  /** Ids are handed out without gaps: 1, 2, ... up to the number of distinct hashes. */
  ghost predicate Numbered(ids: map<string, nat>) {
    && (forall h :: h in ids ==> 1 <= ids[h] <= |ids|)
    && (forall g, h :: g in ids && h in ids && g != h ==> ids[g] != ids[h])
  }

  /** Every link leads from an existing node to a later one, and no node has two parents. */
  ghost predicate IsForest(links: seq<Link>, nodes: nat) {
    && (forall i :: 0 <= i < |links| ==> 1 <= links[i].parent < links[i].child <= nodes)
    && (forall i, j :: 0 <= i < j < |links| ==> links[i].child < links[j].child)
  }

  /** Call i's parent signature, when any call carries it, was carried by an earlier call. */
  ghost predicate ParentFirst(calls: seq<DecodedCall>, i: nat)
    requires i < |calls|
  {
    var parent := calls[i].parentSignature;
    parent != "" && Carried(calls, parent) ==> Carried(calls[..i], parent)
  }

  ghost predicate ParentsFirst(calls: seq<DecodedCall>) {
    forall i :: 0 <= i < |calls| ==> ParentFirst(calls, i)
  }

  ghost predicate Carried(calls: seq<DecodedCall>, signature: string) {
    exists j :: 0 <= j < |calls| && calls[j].signature == signature
  }

  /** Position of the first call that carries the signature; the length of the list if none does. */
  function First(calls: seq<DecodedCall>, signature: string, from: nat): (i: nat)
    requires from <= |calls|
    ensures from <= i <= |calls|
    ensures i < |calls| ==> calls[i].signature == signature
    ensures forall j :: from <= j < i ==> calls[j].signature != signature
    decreases |calls| - from
  {
    if from == |calls| || calls[from].signature == signature then from else First(calls, signature, from + 1)
  }

  datatype Drawing = Drawing(ids: map<string, nat>, links: seq<Link>)

  function IdOf(ids: map<string, nat>, hash: string): nat {
    if hash in ids then ids[hash] else 0
  }

  /** One turn of the node loop; `hashes[i]` is the hash of call i. */
  function DrawCall(d: Drawing, calls: seq<DecodedCall>, hashes: seq<string>, i: nat): Drawing
    requires |hashes| == |calls| && i < |calls|
  {
    if hashes[i] in d.ids then d else
    var ids := d.ids[hashes[i] := |d.ids| + 1];
    var p := First(calls, calls[i].parentSignature, 0);
    if calls[i].parentSignature == "" || p == |calls| then Drawing(ids, d.links)
    else Drawing(ids, d.links + [Link(IdOf(ids, hashes[p]), |d.ids| + 1)])
  }

  function Drawn(calls: seq<DecodedCall>, hashes: seq<string>, n: nat): Drawing
    requires |hashes| == |calls| && n <= |calls|
  {
    if n == 0 then Drawing(map[], []) else DrawCall(Drawn(calls, hashes, n - 1), calls, hashes, n - 1)
  }

  lemma NumberNext(ids: map<string, nat>, hash: string)
    requires Numbered(ids) && hash !in ids
    ensures Numbered(ids[hash := |ids| + 1]) && |ids[hash := |ids| + 1]| == |ids| + 1
  {
  }

  /** Drawing a call renumbers nothing and gives a new hash the next number. */
  lemma DrawCallExtends(d: Drawing, calls: seq<DecodedCall>, hashes: seq<string>, i: nat)
    requires |hashes| == |calls| && i < |calls|
    ensures var ids := DrawCall(d, calls, hashes, i).ids;
            ids == if hashes[i] in d.ids then d.ids else d.ids[hashes[i] := |d.ids| + 1]
  {
  }

  lemma NumberedExtends(ids: map<string, nat>, more: map<string, nat>, hash: string)
    requires Numbered(ids) && more == if hash in ids then ids else ids[hash := |ids| + 1]
    ensures Numbered(more)
  {
    if hash !in ids {
      NumberNext(ids, hash);
    }
  }

  lemma PrefixMember(s: seq<string>, n: nat, x: string)
    requires n < |s|
    ensures x in s[..n + 1] <==> x in s[..n] || x == s[n]
  {
    assert s[..n + 1] == s[..n] + [s[n]];
  }

  lemma {:induction false} DrawnKeys(calls: seq<DecodedCall>, hashes: seq<string>, n: nat, h: string)
    requires |hashes| == |calls| && n <= |calls|
    ensures h in Drawn(calls, hashes, n).ids <==> h in hashes[..n]
  {
    if n > 0 {
      DrawnKeys(calls, hashes, n - 1, h);
      DrawCallExtends(Drawn(calls, hashes, n - 1), calls, hashes, n - 1);
      PrefixMember(hashes, n - 1, h);
    }
  }

  lemma {:induction false} DrawnNumbers(calls: seq<DecodedCall>, hashes: seq<string>, n: nat)
    requires |hashes| == |calls| && n <= |calls|
    ensures Numbered(Drawn(calls, hashes, n).ids)
  {
    if n > 0 {
      DrawnNumbers(calls, hashes, n - 1);
      DrawCallExtends(Drawn(calls, hashes, n - 1), calls, hashes, n - 1);
      NumberedExtends(Drawn(calls, hashes, n - 1).ids, Drawn(calls, hashes, n).ids, hashes[n - 1]);
    }
  }

  lemma DrawnIsNumbered(calls: seq<DecodedCall>, hashes: seq<string>, n: nat)
    requires |hashes| == |calls| && n <= |calls|
    ensures Numbered(Drawn(calls, hashes, n).ids)
    ensures forall h :: h in Drawn(calls, hashes, n).ids <==> h in hashes[..n]
  {
    DrawnNumbers(calls, hashes, n);
    forall h ensures h in Drawn(calls, hashes, n).ids <==> h in hashes[..n] {
      DrawnKeys(calls, hashes, n, h);
    }
  }

  lemma {:induction false} IdsStay(calls: seq<DecodedCall>, hashes: seq<string>, m: nat, n: nat, h: string)
    requires |hashes| == |calls| && m <= n <= |calls| && h in Drawn(calls, hashes, m).ids
    ensures h in Drawn(calls, hashes, n).ids && Drawn(calls, hashes, n).ids[h] == Drawn(calls, hashes, m).ids[h]
  {
    if m < n {
      IdsStay(calls, hashes, m, n - 1, h);
      DrawCallExtends(Drawn(calls, hashes, n - 1), calls, hashes, n - 1);
    }
  }

  lemma NextIsLargest(ids: map<string, nat>, more: map<string, nat>, g: string, h: string)
    requires Numbered(ids) && g in ids && h !in ids && more == ids[h := |ids| + 1]
    ensures g in more && h in more && more[g] < more[h]
  {
  }

  lemma NewIsLargest(calls: seq<DecodedCall>, hashes: seq<string>, i: nat, j: nat)
    requires |hashes| == |calls| && i < j < |calls| && hashes[j] !in hashes[..j]
    ensures var ids := Drawn(calls, hashes, j + 1).ids;
            hashes[i] in ids && hashes[j] in ids && ids[hashes[i]] < ids[hashes[j]]
  {
    DrawnNumbers(calls, hashes, j);
    DrawnKeys(calls, hashes, j, hashes[i]);
    DrawnKeys(calls, hashes, j, hashes[j]);
    assert hashes[..j][i] == hashes[i];
    DrawCallExtends(Drawn(calls, hashes, j), calls, hashes, j);
    NextIsLargest(Drawn(calls, hashes, j).ids, Drawn(calls, hashes, j + 1).ids, hashes[i], hashes[j]);
  }

  /** Ids are handed out in the order in which hashes first occur. */
  lemma DrawnInOrder(calls: seq<DecodedCall>, hashes: seq<string>, n: nat, i: nat, j: nat)
    requires |hashes| == |calls| && i < j < n <= |calls| && hashes[j] !in hashes[..j]
    ensures var ids := Drawn(calls, hashes, n).ids;
            hashes[i] in ids && hashes[j] in ids && ids[hashes[i]] < ids[hashes[j]]
  {
    NewIsLargest(calls, hashes, i, j);
    IdsStay(calls, hashes, j + 1, n, hashes[i]);
    IdsStay(calls, hashes, j + 1, n, hashes[j]);
  }

  /** The new link points forward exactly when the parent comes first; duplicates of hashes aside. */
  lemma NewLink(calls: seq<DecodedCall>, hashes: seq<string>, i: nat)
    requires |hashes| == |calls| && i < |calls|
    requires calls[i].parentSignature != "" && First(calls, calls[i].parentSignature, 0) < |calls|
    requires hashes[i] !in Drawn(calls, hashes, i).ids
    ensures var ids := Drawn(calls, hashes, i + 1).ids;
            var parent := IdOf(ids, hashes[First(calls, calls[i].parentSignature, 0)]);
            && (ParentFirst(calls, i) ==> 1 <= parent <= |ids| - 1)
            && (Distinct(hashes) && 1 <= parent <= |ids| - 1 ==> ParentFirst(calls, i))
  {
    var ids, p := Drawn(calls, hashes, i).ids, First(calls, calls[i].parentSignature, 0);
    DrawnIsNumbered(calls, hashes, i);
    DrawnIsNumbered(calls, hashes, i + 1);
    EarlierCarrier(calls, p, i);
    if p < i {
      assert hashes[..i][p] in ids && hashes[p] != hashes[i];
    }
  }

  /** The link of call i leads from the first call that carries its parent's signature. */
  ghost predicate IsLinkOf(calls: seq<DecodedCall>, hashes: seq<string>, ids: map<string, nat>, l: Link, i: nat)
    requires |hashes| == |calls| && i < |calls|
  {
    var p := First(calls, calls[i].parentSignature, 0);
    && calls[i].parentSignature != "" && p < |calls|
    && hashes[p] in ids && hashes[i] in ids
    && l == Link(ids[hashes[p]], ids[hashes[i]])
  }

  ghost predicate Belongs(calls: seq<DecodedCall>, hashes: seq<string>, ids: map<string, nat>, l: Link, n: nat)
    requires |hashes| == |calls| && n <= |calls|
  {
    exists i: nat :: i < n && IsLinkOf(calls, hashes, ids, l, i)
  }

  /** Every link belongs to a call of the list. */
  ghost predicate LinksBelong(calls: seq<DecodedCall>, hashes: seq<string>, d: Drawing, n: nat)
    requires |hashes| == |calls| && n <= |calls|
  {
    forall k :: 0 <= k < |d.links| ==> Belongs(calls, hashes, d.ids, d.links[k], n)
  }

  lemma BelongsExtends(
      calls: seq<DecodedCall>, hashes: seq<string>, ids: map<string, nat>, more: map<string, nat>, l: Link, m: nat, n: nat)
    requires |hashes| == |calls| && m <= n <= |calls| && Belongs(calls, hashes, ids, l, m)
    requires forall h :: h in ids ==> h in more && more[h] == ids[h]
    ensures Belongs(calls, hashes, more, l, n)
  {
    var i: nat :| i < m && IsLinkOf(calls, hashes, ids, l, i);
    assert IsLinkOf(calls, hashes, more, l, i);
  }

  /** Call i, if its hash is new and its parent is known, is linked. */
  ghost predicate CallIsLinked(calls: seq<DecodedCall>, hashes: seq<string>, d: Drawing, i: nat)
    requires |hashes| == |calls| && i < |calls|
  {
    hashes[i] !in hashes[..i] && calls[i].parentSignature != "" && Carried(calls, calls[i].parentSignature)
    ==> exists k: nat :: k < |d.links| && IsLinkOf(calls, hashes, d.ids, d.links[k], i)
  }

  ghost predicate CallsAreLinked(calls: seq<DecodedCall>, hashes: seq<string>, d: Drawing, n: nat)
    requires |hashes| == |calls| && n <= |calls|
  {
    forall i: nat :: i < n ==> CallIsLinked(calls, hashes, d, i)
  }

  lemma CarriedIsFound(calls: seq<DecodedCall>, signature: string)
    ensures Carried(calls, signature) <==> First(calls, signature, 0) < |calls|
  {
  }

  lemma {:induction false} DrawnLinksBelong(calls: seq<DecodedCall>, hashes: seq<string>, n: nat)
    requires |hashes| == |calls| && n <= |calls| && ParentsFirst(calls)
    ensures LinksBelong(calls, hashes, Drawn(calls, hashes, n), n)
  {
    if n > 0 {
      DrawnLinksBelong(calls, hashes, n - 1);
      LinksStillBelong(calls, hashes, n - 1);
    }
  }

  lemma {:induction false} DrawnCallsAreLinked(calls: seq<DecodedCall>, hashes: seq<string>, n: nat)
    requires |hashes| == |calls| && n <= |calls| && ParentsFirst(calls)
    ensures CallsAreLinked(calls, hashes, Drawn(calls, hashes, n), n)
  {
    if n > 0 {
      DrawnCallsAreLinked(calls, hashes, n - 1);
      CallsStayLinked(calls, hashes, n - 1);
    }
  }

  lemma NewLinkBelongs(calls: seq<DecodedCall>, hashes: seq<string>, i: nat)
    requires |hashes| == |calls| && i < |calls| && ParentFirst(calls, i)
    ensures var d, e := Drawn(calls, hashes, i), Drawn(calls, hashes, i + 1);
            && (|e.links| > |d.links| ==> IsLinkOf(calls, hashes, e.ids, e.links[|d.links|], i))
            && (hashes[i] !in hashes[..i] && calls[i].parentSignature != "" && Carried(calls, calls[i].parentSignature)
                ==> |e.links| > |d.links|)
  {
    var d, p := Drawn(calls, hashes, i), First(calls, calls[i].parentSignature, 0);
    DrawnIsNumbered(calls, hashes, i);
    CarriedIsFound(calls, calls[i].parentSignature);
    if hashes[i] !in d.ids && calls[i].parentSignature != "" && p < |calls| {
      EarlierCarrier(calls, p, i);
      assert hashes[..i][p] in d.ids;
    }
  }

  lemma LinksStillBelong(calls: seq<DecodedCall>, hashes: seq<string>, i: nat)
    requires |hashes| == |calls| && i < |calls| && ParentFirst(calls, i)
    requires LinksBelong(calls, hashes, Drawn(calls, hashes, i), i)
    ensures LinksBelong(calls, hashes, Drawn(calls, hashes, i + 1), i + 1)
  {
    var d, e := Drawn(calls, hashes, i), Drawn(calls, hashes, i + 1);
    NewLinkBelongs(calls, hashes, i);
    forall k | 0 <= k < |e.links|
      ensures Belongs(calls, hashes, e.ids, e.links[k], i + 1)
    {
      if k < |d.links| {
        assert e.links[k] == d.links[k];
        BelongsExtends(calls, hashes, d.ids, e.ids, d.links[k], i, i + 1);
      } else {
        assert k == |d.links|;
      }
    }
  }

  /** Adding a call renumbers nothing, so a linked call stays linked. */
  lemma CallStaysLinked(calls: seq<DecodedCall>, hashes: seq<string>, i: nat, j: nat)
    requires |hashes| == |calls| && j < i < |calls| && CallIsLinked(calls, hashes, Drawn(calls, hashes, i), j)
    ensures CallIsLinked(calls, hashes, Drawn(calls, hashes, i + 1), j)
  {
    var d, e := Drawn(calls, hashes, i), Drawn(calls, hashes, i + 1);
    DrawCallExtends(d, calls, hashes, i);
    if hashes[j] !in hashes[..j] && calls[j].parentSignature != "" && Carried(calls, calls[j].parentSignature) {
      var k: nat :| k < |d.links| && IsLinkOf(calls, hashes, d.ids, d.links[k], j);
      assert e.links[k] == d.links[k] && IsLinkOf(calls, hashes, e.ids, e.links[k], j);
    }
  }

  lemma NewCallIsLinked(calls: seq<DecodedCall>, hashes: seq<string>, i: nat)
    requires |hashes| == |calls| && i < |calls| && ParentFirst(calls, i)
    ensures CallIsLinked(calls, hashes, Drawn(calls, hashes, i + 1), i)
  {
    var d, e := Drawn(calls, hashes, i), Drawn(calls, hashes, i + 1);
    NewLinkBelongs(calls, hashes, i);
    if hashes[i] !in hashes[..i] && calls[i].parentSignature != "" && Carried(calls, calls[i].parentSignature) {
      assert IsLinkOf(calls, hashes, e.ids, e.links[|d.links|], i);
    }
  }

  lemma CallsStayLinked(calls: seq<DecodedCall>, hashes: seq<string>, i: nat)
    requires |hashes| == |calls| && i < |calls| && ParentFirst(calls, i)
    requires CallsAreLinked(calls, hashes, Drawn(calls, hashes, i), i)
    ensures CallsAreLinked(calls, hashes, Drawn(calls, hashes, i + 1), i + 1)
  {
    var e := Drawn(calls, hashes, i + 1);
    forall j: nat | j < i + 1 ensures CallIsLinked(calls, hashes, e, j) {
      if j < i {
        CallStaysLinked(calls, hashes, i, j);
      } else {
        NewCallIsLinked(calls, hashes, i);
      }
    }
  }

  /** Parents that come first are enough for a forest. */
  lemma {:induction false} DrawnForest(calls: seq<DecodedCall>, hashes: seq<string>, n: nat)
    requires |hashes| == |calls| && n <= |calls|
    requires forall i :: 0 <= i < n ==> ParentFirst(calls, i)
    ensures IsForest(Drawn(calls, hashes, n).links, |Drawn(calls, hashes, n).ids|)
  {
    if n > 0 {
      DrawnForest(calls, hashes, n - 1);
      var i, d := n - 1, Drawn(calls, hashes, n - 1);
      if hashes[i] !in d.ids && calls[i].parentSignature != "" && First(calls, calls[i].parentSignature, 0) < |calls| {
        NewLink(calls, hashes, i);
      }
    }
  }

  ghost predicate ChildrenExist(d: Drawing) {
    forall i :: 0 <= i < |d.links| ==> d.links[i].child <= |d.ids|
  }

  lemma {:induction false} DrawnChildren(calls: seq<DecodedCall>, hashes: seq<string>, n: nat)
    requires |hashes| == |calls| && n <= |calls|
    ensures ChildrenExist(Drawn(calls, hashes, n))
  {
    if n > 0 {
      DrawnChildren(calls, hashes, n - 1);
      var d, e := Drawn(calls, hashes, n - 1), Drawn(calls, hashes, n);
      assert e == d || |e.ids| == |d.ids| + 1;
    }
  }

  /** A drawing that is a forest was one before the last call was added. */
  lemma ForestBefore(calls: seq<DecodedCall>, hashes: seq<string>, i: nat)
    requires |hashes| == |calls| && i < |calls|
    requires IsForest(Drawn(calls, hashes, i + 1).links, |Drawn(calls, hashes, i + 1).ids|)
    ensures IsForest(Drawn(calls, hashes, i).links, |Drawn(calls, hashes, i).ids|)
  {
    DrawnChildren(calls, hashes, i);
    var before, after := Drawn(calls, hashes, i).links, Drawn(calls, hashes, i + 1).links;
    assert forall k :: 0 <= k < |before| ==> before[k] == after[k];
  }

  /** They are also necessary, as soon as no two calls share a hash. */
  lemma {:induction false} ForestNeedsParentsFirst(calls: seq<DecodedCall>, hashes: seq<string>, n: nat)
    requires |hashes| == |calls| && n <= |calls| && Distinct(hashes)
    requires IsForest(Drawn(calls, hashes, n).links, |Drawn(calls, hashes, n).ids|)
    ensures forall i :: 0 <= i < n ==> ParentFirst(calls, i)
  {
    if n > 0 {
      ForestBefore(calls, hashes, n - 1);
      ForestNeedsParentsFirst(calls, hashes, n - 1);
      LastParentFirst(calls, hashes, n - 1);
    }
  }

  lemma LastParentFirst(calls: seq<DecodedCall>, hashes: seq<string>, i: nat)
    requires |hashes| == |calls| && i < |calls| && Distinct(hashes)
    requires IsForest(Drawn(calls, hashes, i + 1).links, |Drawn(calls, hashes, i + 1).ids|)
    ensures ParentFirst(calls, i)
  {
    DrawnIsNumbered(calls, hashes, i);
    var d, e := Drawn(calls, hashes, i), Drawn(calls, hashes, i + 1);
    assert hashes[i] !in d.ids;
    var p := First(calls, calls[i].parentSignature, 0);
    if calls[i].parentSignature != "" && p < |calls| {
      NewLink(calls, hashes, i);
      assert e.links[|d.links|] == Link(IdOf(e.ids, hashes[p]), |d.ids| + 1);
    }
  }

  /** The node loop of `generateDotGraph`. */
  method Draw(calls: seq<DecodedCall>, hashes: seq<string>) returns (ids: map<string, nat>, links: seq<Link>)
    requires |hashes| == |calls|
    ensures Numbered(ids) && forall h :: h in ids <==> h in hashes
    ensures forall i, j :: 0 <= i < j < |hashes| && hashes[j] !in hashes[..j] ==>
      hashes[i] in ids && hashes[j] in ids && ids[hashes[i]] < ids[hashes[j]]
    ensures ParentsFirst(calls) ==> IsForest(links, |ids|)
    ensures ParentsFirst(calls) ==> LinksBelong(calls, hashes, Drawing(ids, links), |calls|)
    ensures ParentsFirst(calls) ==> CallsAreLinked(calls, hashes, Drawing(ids, links), |calls|)
    ensures Distinct(hashes) && IsForest(links, |ids|) ==> ParentsFirst(calls)
  {
    ids, links := map[], [];
    var nextID: nat := 1;
    for idx := 0 to |calls|
      invariant Drawing(ids, links) == Drawn(calls, hashes, idx) && nextID == |ids| + 1
    {
      var hash := hashes[idx];
      if hash !in ids {
        var callID := nextID;
        nextID := nextID + 1;
        ids := ids[hash := callID];
        if calls[idx].parentSignature != "" {
          var p := First(calls, calls[idx].parentSignature, 0);
          if p < |calls| {
            links := links + [Link(IdOf(ids, hashes[p]), callID)];
          }
        }
      }
    }
    DrawnIsNumbered(calls, hashes, |calls|);
    assert hashes[..|calls|] == hashes;
    forall i, j | 0 <= i < j < |hashes| && hashes[j] !in hashes[..j]
      ensures hashes[i] in ids && hashes[j] in ids && ids[hashes[i]] < ids[hashes[j]]
    {
      DrawnInOrder(calls, hashes, |calls|, i, j);
    }
    if ParentsFirst(calls) {
      DrawnForest(calls, hashes, |calls|);
      DrawnLinksBelong(calls, hashes, |calls|);
      DrawnCallsAreLinked(calls, hashes, |calls|);
    }
    if Distinct(hashes) && IsForest(links, |ids|) {
      ForestNeedsParentsFirst(calls, hashes, |calls|);
    }
  }

  /** The first carrier precedes call i exactly when some carrier does. */
  lemma EarlierCarrier(calls: seq<DecodedCall>, p: nat, i: nat)
    requires p < |calls| && i < |calls|
    requires calls[p].signature == calls[i].parentSignature
    requires forall j :: 0 <= j < p ==> calls[j].signature != calls[i].parentSignature
    ensures calls[i].parentSignature != "" ==> (ParentFirst(calls, i) <==> p < i)
  {
    assert Carried(calls, calls[i].parentSignature);
    if p < i {
      assert calls[..i][p].signature == calls[i].parentSignature;
    }
  }
}
