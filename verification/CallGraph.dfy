/** The highlighted path of the drawn call graph, from the root call to the last (or failing) call. */
module CallGraph {
  import opened Common
  import opened CallTrace

  /* ---------- Paths along signatures ---------- */

  /** Some call has signature b and was made by a call with signature a. */
  ghost predicate Edge(calls: seq<DecodedCall>, a: string, b: string) {
    exists c :: c in calls && c.parentSignature == a && c.signature == b
  }

  ghost predicate IsPath(calls: seq<DecodedCall>, p: seq<string>, from: string, to: string) {
    && |p| > 0 && p[0] == from && p[|p| - 1] == to
    && forall i :: 0 < i < |p| ==> Edge(calls, p[i - 1], p[i])
  }

  ghost predicate Reachable(calls: seq<DecodedCall>, from: string, to: string) {
    exists p :: IsPath(calls, p, from, to)
  }

  ghost predicate IsShortest(calls: seq<DecodedCall>, p: seq<string>, from: string, to: string) {
    && IsPath(calls, p, from, to) && Distinct(p)
    && forall q :: IsPath(calls, q, from, to) ==> |p| <= |q|
  }

  /** The signatures reachable from `root` by a path of at most n nodes. */
  ghost function Ball(calls: seq<DecodedCall>, root: string, n: nat): set<string> {
    if n == 0 then {}
    else if n == 1 then {root}
    else Ball(calls, root, n - 1) + Children(calls, Ball(calls, root, n - 1))
  }

  ghost function Children(calls: seq<DecodedCall>, s: set<string>): set<string> {
    set c | c in calls && c.parentSignature in s :: c.signature
  }

  lemma {:induction false} PathStaysInBall(calls: seq<DecodedCall>, p: seq<string>, root: string, v: string)
    requires IsPath(calls, p, root, v)
    ensures v in Ball(calls, root, |p|)
    decreases |p|
  {
    if |p| > 1 {
      var q, u := p[..|p| - 1], p[|p| - 2];
      assert IsPath(calls, q, root, u);
      PathStaysInBall(calls, q, root, u);
      assert Edge(calls, u, v);
    }
  }

  lemma {:induction false} BallGrows(calls: seq<DecodedCall>, root: string, m: nat, n: nat)
    requires m <= n
    ensures Ball(calls, root, m) <= Ball(calls, root, n)
    decreases n
  {
    if m < n {
      BallGrows(calls, root, m, n - 1);
    }
  }

  lemma {:induction false} ClosedSetHoldsBall(calls: seq<DecodedCall>, root: string, s: set<string>, n: nat)
    requires root in s && Children(calls, s) <= s
    ensures Ball(calls, root, n) <= s
  {
    if n > 1 {
      ClosedSetHoldsBall(calls, root, s, n - 1);
      var b := Ball(calls, root, n - 1);
      forall x | x in Children(calls, b) ensures x in s {
        assert x in Children(calls, s);
      }
    }
  }

  lemma {:induction false} DistinctFits(p: seq<string>, s: set<string>)
    requires Distinct(p) && forall i :: 0 <= i < |p| ==> p[i] in s
    ensures |p| <= |s|
  {
    if p != [] {
      var last := p[|p| - 1];
      DistinctFits(p[..|p| - 1], s - {last});
    }
  }

  /* ---------- The queue of the breadth-first search ---------- */

  datatype Node = Node(sig: string, path: seq<string>)

  ghost function Sigs(queue: seq<Node>): set<string> {
    set n | n in queue :: n.sig
  }

  /** Queue levels: k paths of d nodes come first, the others have one node more. */
  ghost predicate Layered(queue: seq<Node>, d: nat, k: nat) {
    && k <= |queue| && (queue != [] ==> k > 0)
    && (forall i :: 0 <= i < k ==> |queue[i].path| == d)
    && (forall i :: k <= i < |queue| ==> |queue[i].path| == d + 1)
  }

  /** A queued path is a real one, repeats nothing, and all of it but the end was expanded before. */
  ghost predicate Sound(calls: seq<DecodedCall>, root: string, visited: set<string>, n: Node) {
    && IsPath(calls, n.path, root, n.sig) && Distinct(n.path)
    && forall i :: 0 <= i < |n.path| - 1 ==> n.path[i] in visited
  }

  ghost predicate AllSound(calls: seq<DecodedCall>, root: string, visited: set<string>, queue: seq<Node>) {
    forall i :: 0 <= i < |queue| ==> Sound(calls, root, visited, queue[i])
  }

  /** Whatever lies within d nodes of the root is expanded or waiting at the front of the queue. */
  ghost predicate Covered(calls: seq<DecodedCall>, root: string, visited: set<string>, queue: seq<Node>, d: nat, k: nat) {
    && 0 < d && k <= |queue|
    && Ball(calls, root, d - 1) <= visited
    && Ball(calls, root, d) <= visited + Sigs(queue[..k])
    && Children(calls, visited) <= visited + Sigs(queue)
  }

  function AllSignatures(calls: seq<DecodedCall>, root: string): set<string> {
    {root} + set c | c in calls :: c.signature
  }

  /** The inner loop: every call made by this node to a signature not expanded yet. */
  method Expand(calls: seq<DecodedCall>, node: Node, visited: set<string>) returns (next: seq<Node>)
    ensures forall i :: 0 <= i < |next| ==>
      && next[i].path == node.path + [next[i].sig]
      && next[i].sig !in visited && Edge(calls, node.sig, next[i].sig)
    ensures Children(calls, {node.sig}) <= visited + Sigs(next)
  {
    next := [];
    for i := 0 to |calls|
      invariant forall j :: 0 <= j < |next| ==>
        && next[j].path == node.path + [next[j].sig]
        && next[j].sig !in visited && Edge(calls, node.sig, next[j].sig)
      invariant forall j :: 0 <= j < i && calls[j].parentSignature == node.sig ==>
        calls[j].signature in visited + Sigs(next)
    {
      if calls[i].parentSignature == node.sig && calls[i].signature !in visited {
        var n := Node(calls[i].signature, node.path + [calls[i].signature]);
        assert Sigs(next + [n]) == Sigs(next) + {n.sig};
        next := next + [n];
      }
    }
  }

  lemma ExtendSound(calls: seq<DecodedCall>, root: string, visited: set<string>, node: Node, n: Node)
    requires Sound(calls, root, visited, node)
    requires n.path == node.path + [n.sig] && n.sig !in visited + {node.sig} && Edge(calls, node.sig, n.sig)
    ensures Sound(calls, root, visited + {node.sig}, n)
  {
    assert forall i :: 0 <= i < |node.path| ==> n.path[i] == node.path[i] && n.path[i] in visited + {node.sig};
  }

  lemma ChildrenStep(calls: seq<DecodedCall>, visited: set<string>, sig: string, waiting: set<string>, found: set<string>)
    requires Children(calls, visited) <= visited + waiting + {sig}
    requires Children(calls, {sig}) <= visited + {sig} + found
    ensures Children(calls, visited + {sig}) <= visited + {sig} + (waiting + found)
  {
    forall x | x in Children(calls, visited + {sig})
      ensures x in visited + {sig} + (waiting + found)
    {
      var c :| c in calls && c.parentSignature in visited + {sig} && c.signature == x;
      assert x in Children(calls, visited) || x in Children(calls, {sig});
    }
  }

  lemma ChildrenMonotone(calls: seq<DecodedCall>, a: set<string>, b: set<string>)
    requires a <= b
    ensures Children(calls, a) <= Children(calls, b)
  {
  }

  lemma SigsOfQueue(queue: seq<Node>, next: seq<Node>, k: nat)
    requires 0 < k <= |queue|
    ensures Sigs(queue) == {queue[0].sig} + Sigs(queue[1..])
    ensures Sigs(queue[1..] + next) == Sigs(queue[1..]) + Sigs(next)
    ensures Sigs(queue[..k]) == {queue[0].sig} + Sigs(queue[1..][..k - 1])
    ensures (queue[1..] + next)[..k - 1] == queue[1..][..k - 1]
  {
    assert queue == [queue[0]] + queue[1..];
    assert queue[..k] == [queue[0]] + queue[1..][..k - 1];
  }

  lemma CoverStep(calls: seq<DecodedCall>, root: string, visited: set<string>, queue: seq<Node>, next: seq<Node>, d: nat, k: nat)
    requires Layered(queue, d, k) && queue != [] && Covered(calls, root, visited, queue, d, k)
    requires Children(calls, {queue[0].sig}) <= visited + {queue[0].sig} + Sigs(next)
    ensures var visited', queue' := visited + {queue[0].sig}, queue[1..] + next;
            if k > 1 then Covered(calls, root, visited', queue', d, k - 1)
            else Covered(calls, root, visited', queue', d + 1, |queue'|)
  {
    var visited', queue' := visited + {queue[0].sig}, queue[1..] + next;
    SigsOfQueue(queue, next, k);
    ChildrenStep(calls, visited, queue[0].sig, Sigs(queue[1..]), Sigs(next));
    if k == 1 {
      assert queue'[..|queue'|] == queue' && queue[1..][..0] == [];
      assert Ball(calls, root, d) <= visited';
      ChildrenMonotone(calls, Ball(calls, root, d), visited');
    }
  }

  /**
   * The search of `findShortestPath`. A node is marked when it leaves the queue, not when it
   * enters, so the same signature may be queued and expanded many times.
   */
  method BreadthFirst(calls: seq<DecodedCall>, root: string, end: string) returns (r: Option<seq<string>>)
    ensures r.None? ==> !Reachable(calls, root, end)
    ensures r.Some? ==> IsShortest(calls, r.value, root, end)
  {
    var queue := [Node(root, [root])];
    var visited: set<string> := {};
    ghost var d: nat, k: nat := 1, 1;
    ghost var all := AllSignatures(calls, root);
    assert queue[..1] == queue && queue[0] in queue;
    while queue != []
      invariant Layered(queue, d, k)
      invariant AllSound(calls, root, visited, queue)
      invariant Covered(calls, root, visited, queue, d, k)
      invariant end !in visited && d <= |all| + 1
      decreases |all| + 1 - d, k
    {
      var node := queue[0];
      assert Sound(calls, root, visited, node);
      if node.sig == end {
        FirstFoundIsShortest(calls, root, end, visited, node, d);
        return Some(node.path);
      }
      PathFits(calls, root, node);
      var next := Expand(calls, node, visited + {node.sig});
      CoverStep(calls, root, visited, queue, next, d, k);
      SoundStep(calls, root, visited, queue, next);
      LayerStep(queue, next, d, k);
      visited := visited + {node.sig};
      queue := queue[1..] + next;
      k := k - 1;
      if k == 0 {
        d, k := d + 1, |queue|;
      }
    }
    NothingLeft(calls, root, end, visited, d);
    return None;
  }

  lemma LayerStep(queue: seq<Node>, next: seq<Node>, d: nat, k: nat)
    requires Layered(queue, d, k) && queue != []
    requires forall i :: 0 <= i < |next| ==> |next[i].path| == |queue[0].path| + 1
    ensures var queue' := queue[1..] + next;
            if k > 1 then Layered(queue', d, k - 1) else Layered(queue', d + 1, |queue'|)
  {
  }

  lemma SoundStep(calls: seq<DecodedCall>, root: string, visited: set<string>, queue: seq<Node>, next: seq<Node>)
    requires queue != [] && AllSound(calls, root, visited, queue)
    requires forall i :: 0 <= i < |next| ==>
      && next[i].path == queue[0].path + [next[i].sig]
      && next[i].sig !in visited + {queue[0].sig} && Edge(calls, queue[0].sig, next[i].sig)
    ensures AllSound(calls, root, visited + {queue[0].sig}, queue[1..] + next)
  {
    var all := queue[1..] + next;
    forall i | 0 <= i < |all|
      ensures Sound(calls, root, visited + {queue[0].sig}, all[i])
    {
      if i < |queue| - 1 {
        assert all[i] == queue[i + 1];
        assert Sound(calls, root, visited, queue[i + 1]);
      } else {
        assert Sound(calls, root, visited, queue[0]);
        assert all[i] == next[i - (|queue| - 1)];
        ExtendSound(calls, root, visited, queue[0], all[i]);
      }
    }
  }

  lemma FirstFoundIsShortest(calls: seq<DecodedCall>, root: string, end: string, visited: set<string>, node: Node, d: nat)
    requires Sound(calls, root, visited, node) && node.sig == end && |node.path| == d
    requires 0 < d && Ball(calls, root, d - 1) <= visited && end !in visited
    ensures IsShortest(calls, node.path, root, end)
  {
    forall q | IsPath(calls, q, root, end)
      ensures d <= |q|
    {
      PathStaysInBall(calls, q, root, end);
      if |q| < d {
        BallGrows(calls, root, |q|, d - 1);
      }
    }
  }

  lemma PathFits(calls: seq<DecodedCall>, root: string, node: Node)
    requires IsPath(calls, node.path, root, node.sig) && Distinct(node.path)
    ensures |node.path| <= |AllSignatures(calls, root)|
  {
    forall i | 0 <= i < |node.path|
      ensures node.path[i] in AllSignatures(calls, root)
    {
      if i > 0 {
        assert Edge(calls, node.path[i - 1], node.path[i]);
      }
    }
    DistinctFits(node.path, AllSignatures(calls, root));
  }

  lemma NothingLeft(calls: seq<DecodedCall>, root: string, end: string, visited: set<string>, d: nat)
    requires Covered(calls, root, visited, [], d, 0) && end !in visited
    ensures !Reachable(calls, root, end)
  {
    assert Sigs([]) == {};
    BallGrows(calls, root, 1, d);
    forall p | IsPath(calls, p, root, end)
      ensures false
    {
      PathStaysInBall(calls, p, root, end);
      ClosedSetHoldsBall(calls, root, visited, |p|);
    }
  }

  /* ---------- Choosing the two ends ---------- */

  ghost predicate IsRoot(calls: seq<DecodedCall>, i: nat) {
    i < |calls| && calls[i].parentSignature == "" && forall j :: 0 <= j < i ==> calls[j].parentSignature != ""
  }

  /** The last call with an error, or the last call when none has one. */
  ghost predicate IsEnd(calls: seq<DecodedCall>, i: nat) {
    && i < |calls|
    && (calls[i].error != "" || i == |calls| - 1)
    && (calls[i].error == "" ==> forall j :: 0 <= j < |calls| ==> calls[j].error == "")
    && forall j :: i < j < |calls| ==> calls[j].error == ""
  }

  method FindShortestPath(calls: seq<DecodedCall>) returns (r: Option<seq<string>>)
    ensures (forall i :: 0 <= i < |calls| ==> calls[i].parentSignature != "") ==> r.None?
    ensures forall i: nat, j: nat :: IsRoot(calls, i) && IsEnd(calls, j) ==>
      var (from, to) := (calls[i].signature, calls[j].signature);
      && (r.Some? <==> Reachable(calls, from, to))
      && (r.Some? ==> IsShortest(calls, r.value, from, to))
  {
    var root := 0;
    while root < |calls| && calls[root].parentSignature != ""
      invariant root <= |calls|
      invariant forall j :: 0 <= j < root ==> calls[j].parentSignature != ""
    {
      root := root + 1;
    }
    if root == |calls| { return None; }

    var end := |calls| - 1;
    while 0 <= end && calls[end].error == ""
      invariant -1 <= end < |calls|
      invariant forall j :: end < j < |calls| ==> calls[j].error == ""
    {
      end := end - 1;
    }
    if end == -1 { end := |calls| - 1; }

    r := BreadthFirst(calls, calls[root].signature, calls[end].signature);
    assert forall i: nat :: IsRoot(calls, i) ==> i == root;
    assert forall j: nat :: IsEnd(calls, j) ==> j == end;
  }
}
