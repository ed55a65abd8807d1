/** The tagged links of the threaded tree and the shape their CHILD links form.

    Nodes live in an arena and are named by their index: node i is the i-th value inserted.
    A `Tree` records which node hangs below which through CHILD links; the arena's link slots
    are then checked against it. */
module Shapes {
  import opened Wrappers
  import opened Sorting

  /** One link slot of a node (or the tree's root slot). `Child(j)` is an owning link to the
      subtree rooted at node j; `Thread(t)` is a non-owning link to the in-order predecessor
      (a left slot) or successor (a right slot), `None` past either end of the order. */
  datatype Link = Thread(target: Option<nat>) | Child(node: nat)

  /** The shape formed by CHILD links, with arena indices at the nodes. */
  datatype Tree = Empty | Node(left: Tree, id: nat, right: Tree)

  /** The node a link refers to regardless of its tag (the source's `getPointer`). */
  function Target(l: Link): Option<nat> {
    match l
    case Thread(t) => t
    case Child(j) => Some(j)
  }

  /** The link that a slot holding t must contain, given the thread it carries when t is empty. */
  function LinkTo(t: Tree, thread: Option<nat>): Link {
    if t.Empty? then Thread(thread) else Child(t.id)
  }

  /** The root node of t, or None for the empty tree. */
  function RootOf(t: Tree): Option<nat> {
    if t.Empty? then None else Some(t.id)
  }

  /** Every node index of t is below n. */
  predicate Within(t: Tree, n: nat) {
    match t
    case Empty => true
    case Node(l, id, r) => id < n && Within(l, n) && Within(r, n)
  }

  /** Nodes on the longest root-to-leaf path (the root counts as level 1). */
  function Height(t: Tree): nat {
    match t
    case Empty => 0
    case Node(l, _, r) => 1 + if Height(l) < Height(r) then Height(r) else Height(l)
  }

  /** The node indices of t from left to right. */
  function InorderIds(t: Tree): seq<nat> {
    match t
    case Empty => []
    case Node(l, id, r) => InorderIds(l) + [id] + InorderIds(r)
  }

  function InorderValues(t: Tree, V: seq<int>): seq<int>
    requires Within(t, |V|)
  {
    match t
    case Empty => []
    case Node(l, id, r) => InorderValues(l, V) + [V[id]] + InorderValues(r, V)
  }

  function PreorderValues(t: Tree, V: seq<int>): seq<int>
    requires Within(t, |V|)
  {
    match t
    case Empty => []
    case Node(l, id, r) => [V[id]] + PreorderValues(l, V) + PreorderValues(r, V)
  }

  function PostorderValues(t: Tree, V: seq<int>): seq<int>
    requires Within(t, |V|)
  {
    match t
    case Empty => []
    case Node(l, id, r) => PostorderValues(l, V) + PostorderValues(r, V) + [V[id]]
  }

  /** No node index occurs twice. */
  ghost predicate Distinct(s: seq<nat>) {
    forall i :: multiset(s)[i] <= 1
  }

  /** The search-tree order that the insertion's routing produces: a node's left subtree holds
      only smaller values, its right subtree only values at least as large. */
  predicate Ordered(t: Tree, V: seq<int>)
    requires Within(t, |V|)
  {
    match t
    case Empty => true
    case Node(l, id, r) =>
      Ordered(l, V) && Ordered(r, V) &&
      (forall v :: v in InorderValues(l, V) ==> v < V[id]) &&
      (forall v :: v in InorderValues(r, V) ==> V[id] <= v)
  }

  /** The arena's links L (left slots) and R (right slots) follow the shape t, and each THREAD
      link holds the bound inherited on the way down: pred for left slots, succ for right
      slots, where going left from node id makes id the bound on the right and vice versa. */
  predicate Wired(t: Tree, L: seq<Link>, R: seq<Link>, pred: Option<nat>, succ: Option<nat>) {
    match t
    case Empty => true
    case Node(l, id, r) =>
      id < |L| && id < |R| &&
      L[id] == LinkTo(l, pred) && R[id] == LinkTo(r, succ) &&
      Wired(l, L, R, pred, Some(id)) && Wired(r, L, R, Some(id), succ)
  }

  /** Every CHILD link points to a node inserted later (a child is created after its parent). */
  ghost predicate ChildrenNewer(L: seq<Link>, R: seq<Link>, n: nat) {
    (forall i :: 0 <= i < |L| && L[i].Child? ==> i < L[i].node < n) &&
    (forall i :: 0 <= i < |R| && R[i].Child? ==> i < R[i].node < n)
  }

  /** The shape lists each of the nodes 0 .. n-1 exactly once. */
  ghost predicate Listing(t: Tree, n: nat) {
    Within(t, n) && Distinct(InorderIds(t)) && |InorderIds(t)| == n &&
    (forall i :: 0 <= i < n ==> i in InorderIds(t))
  }

  /** The n-node arena's links and root link follow the shape, with correct threads. */
  ghost predicate Threaded(t: Tree, L: seq<Link>, R: seq<Link>, root: Link, n: nat) {
    |L| == n && |R| == n && root == LinkTo(t, None) &&
    Wired(t, L, R, None, None) && ChildrenNewer(L, R, n)
  }

  /** The whole invariant of a threaded tree whose arena holds values V and links L and R. */
  ghost predicate WellFormed(t: Tree, V: seq<int>, L: seq<Link>, R: seq<Link>, root: Link) {
    Listing(t, |V|) && Ordered(t, V) && Threaded(t, L, R, root, |V|)
  }

  /** Within bounds every node index that the in-order listing produces. */
  lemma {:induction false} WithinBoundsIds(t: Tree, n: nat)
    requires Within(t, n)
    ensures forall i :: i in InorderIds(t) ==> i < n
  {
    match t
    case Empty =>
    case Node(l, id, r) =>
      WithinBoundsIds(l, n);
      WithinBoundsIds(r, n);
  }

  /** Within is monotone in its bound. */
  lemma {:induction false} WithinWidens(t: Tree, n: nat, m: nat)
    requires Within(t, n) && n <= m
    ensures Within(t, m)
  {
    match t
    case Empty =>
    case Node(l, id, r) =>
      WithinWidens(l, n, m);
      WithinWidens(r, n, m);
  }

  /** Extending the arena's values leaves the values of an existing tree, and its order, alone. */
  lemma {:induction false} ValuesExtend(t: Tree, V: seq<int>, W: seq<int>)
    requires Within(t, |V|) && |V| <= |W| && W[..|V|] == V
    ensures Within(t, |W|)
    ensures InorderValues(t, W) == InorderValues(t, V)
    ensures Ordered(t, W) <==> Ordered(t, V)
  {
    WithinWidens(t, |V|, |W|);
    match t
    case Empty =>
    case Node(l, id, r) =>
      ValuesExtend(l, V, W);
      ValuesExtend(r, V, W);
      assert W[id] == V[id];
  }

  /** The node reached from the root of t by following left children to the end. */
  function Leftmost(t: Tree): nat
    requires t.Node?
  {
    if t.left.Empty? then t.id else Leftmost(t.left)
  }

  /** The node reached from the root of t by following right children to the end. */
  function Rightmost(t: Tree): nat
    requires t.Node?
  {
    if t.right.Empty? then t.id else Rightmost(t.right)
  }

  /** The leftmost node comes first in in-order. */
  lemma {:induction false} LeftmostFirst(t: Tree)
    requires t.Node?
    ensures |InorderIds(t)| > 0 && InorderIds(t)[0] == Leftmost(t)
  {
    if t.left.Node? {
      LeftmostFirst(t.left);
      assert InorderIds(t) == InorderIds(t.left) + ([t.id] + InorderIds(t.right));
    }
  }

  /** The rightmost node comes last in in-order. */
  lemma {:induction false} RightmostLast(t: Tree)
    requires t.Node?
    ensures |InorderIds(t)| > 0 && InorderIds(t)[|InorderIds(t)| - 1] == Rightmost(t)
  {
    if t.right.Node? {
      RightmostLast(t.right);
      assert InorderIds(t) == (InorderIds(t.left) + [t.id]) + InorderIds(t.right);
    }
  }

  /** The in-order values are the values of the in-order node listing, position by position. */
  lemma {:induction false} ValuesAtIds(t: Tree, V: seq<int>)
    requires Within(t, |V|)
    ensures |InorderValues(t, V)| == |InorderIds(t)|
    ensures forall k :: 0 <= k < |InorderIds(t)| ==> InorderIds(t)[k] < |V|
    ensures forall k :: 0 <= k < |InorderIds(t)| ==> InorderValues(t, V)[k] == V[InorderIds(t)[k]]
  {
    match t
    case Empty =>
    case Node(l, id, r) =>
      ValuesAtIds(l, V);
      ValuesAtIds(r, V);
      var ls, rs, s := InorderIds(l), InorderIds(r), InorderIds(t);
      var lv, rv, v := InorderValues(l, V), InorderValues(r, V), InorderValues(t, V);
      assert s == ls + [id] + rs && v == lv + [V[id]] + rv;
      forall k | 0 <= k < |s| ensures s[k] < |V| && v[k] == V[s[k]] {
        if k < |ls| {
          assert s[k] == ls[k] && v[k] == lv[k];
        } else if k > |ls| {
          assert s[k] == rs[k - |ls| - 1] && v[k] == rv[k - |ls| - 1];
        }
      }
  }

  /** The values listed in order are sorted whenever the tree is ordered. */
  lemma {:induction false} OrderedSorted(t: Tree, V: seq<int>)
    requires Within(t, |V|) && Ordered(t, V)
    ensures Sorted(InorderValues(t, V))
  {
    match t
    case Empty =>
    case Node(l, id, r) =>
      OrderedSorted(l, V);
      OrderedSorted(r, V);
      SortedAround(InorderValues(l, V), V[id], InorderValues(r, V));
  }

  /** The pre-order listing holds the same values as the in-order listing. */
  lemma {:induction false} PreorderPermutes(t: Tree, V: seq<int>)
    requires Within(t, |V|)
    ensures multiset(PreorderValues(t, V)) == multiset(InorderValues(t, V))
  {
    match t
    case Empty =>
    case Node(l, id, r) =>
      PreorderPermutes(l, V);
      PreorderPermutes(r, V);
      var lv, rv := InorderValues(l, V), InorderValues(r, V);
      calc {
        multiset(PreorderValues(t, V));
        multiset([V[id]] + PreorderValues(l, V) + PreorderValues(r, V));
        multiset([V[id]]) + multiset(lv) + multiset(rv);
        multiset(lv + [V[id]] + rv);
      }
  }

  /** The post-order listing holds the same values as the in-order listing. */
  lemma {:induction false} PostorderPermutes(t: Tree, V: seq<int>)
    requires Within(t, |V|)
    ensures multiset(PostorderValues(t, V)) == multiset(InorderValues(t, V))
  {
    match t
    case Empty =>
    case Node(l, id, r) =>
      PostorderPermutes(l, V);
      PostorderPermutes(r, V);
      var lv, rv := InorderValues(l, V), InorderValues(r, V);
      calc {
        multiset(PostorderValues(t, V));
        multiset(PostorderValues(l, V) + PostorderValues(r, V) + [V[id]]);
        multiset(lv) + multiset(rv) + multiset([V[id]]);
        multiset(lv + [V[id]] + rv);
      }
  }

  /** The nodes of a listing a + [id] + b are those of its parts. */
  lemma JoinCounts(a: seq<nat>, id: nat, b: seq<nat>)
    ensures multiset(a + [id] + b) == multiset(a) + multiset{id} + multiset(b)
  {
  }

  /** The parts of a duplicate-free listing are duplicate-free and share no index. */
  lemma DistinctParts(a: seq<nat>, id: nat, b: seq<nat>)
    requires Distinct(a + [id] + b)
    ensures Distinct(a) && Distinct(b)
    ensures id !in a && id !in b
    ensures forall i :: i in a ==> i !in b
  {
    var m := multiset(a + [id] + b);
    assert m == multiset(a) + multiset{id} + multiset(b);
    forall i ensures multiset(a)[i] <= 1 && multiset(b)[i] <= 1 {
      assert m[i] <= 1;
    }
    assert m[id] <= 1;
    forall i | i in a ensures i !in b {
      assert m[i] <= 1;
    }
  }

  /** In a duplicate-free listing two positions holding the same index are one position. */
  lemma DistinctIndex(s: seq<nat>, i: nat, j: nat)
    requires Distinct(s) && i < j < |s|
    ensures s[i] != s[j]
  {
    assert s == s[..j] + [s[j]] + s[j + 1..];
    assert s[i] in s[..j];
    assert multiset(s)[s[j]] == multiset(s[..j])[s[j]] + 1 + multiset(s[j + 1..])[s[j]];
  }

  /** Picking V's elements at the positions of a duplicate-free listing of all of V's
      indices picks each of them once: w is a permutation of V. */
  lemma {:induction false} PicksPermute(ids: seq<nat>, V: seq<int>, w: seq<int>)
    requires |ids| == |V| && |w| == |V| && Distinct(ids)
    requires forall k :: 0 <= k < |ids| ==> ids[k] < |V| && w[k] == V[ids[k]]
    requires forall i :: 0 <= i < |V| ==> i in ids
    ensures multiset(w) == multiset(V)
    decreases |V|
  {
    if |V| > 0 {
      var m := |V| - 1;
      assert m in ids;
      var k :| 0 <= k < |ids| && ids[k] == m;
      var d: seq<nat>, e: seq<int>, U: seq<int> := ids[..k] + ids[k + 1..], w[..k] + w[k + 1..], V[..m];
      PicksDrop(ids, V, w, k, d, e, U);
      PicksPermute(d, U, e);
      DropCounts(w, k, e);
      DropCounts(V, m, U);
    }
  }

  /** Dropping position k, where the last index of V is picked, leaves a duplicate-free
      listing d of all indices of U, V without its last element, and e picks from U at d. */
  lemma PicksDrop(ids: seq<nat>, V: seq<int>, w: seq<int>, k: nat, d: seq<nat>, e: seq<int>, U: seq<int>)
    requires |ids| == |V| && |w| == |V| && Distinct(ids) && k < |ids| && ids[k] == |V| - 1
    requires forall j :: 0 <= j < |ids| ==> ids[j] < |V| && w[j] == V[ids[j]]
    requires forall i :: 0 <= i < |V| ==> i in ids
    requires d == ids[..k] + ids[k + 1..] && e == w[..k] + w[k + 1..] && U == V[..|V| - 1]
    ensures |d| == |U| && |e| == |U| && Distinct(d)
    ensures forall j :: 0 <= j < |d| ==> d[j] < |U| && e[j] == U[d[j]]
    ensures forall i :: 0 <= i < |U| ==> i in d
  {
    assert ids == ids[..k] + [ids[k]] + ids[k + 1..];
    DistinctDrop(ids[..k], ids[k], ids[k + 1..]);
    forall j | 0 <= j < |d| ensures d[j] < |U| && e[j] == U[d[j]] {
      var i := if j < k then j else j + 1;
      assert d[j] == ids[i] && e[j] == w[i];
      assert d[j] in d;
    }
    forall i | 0 <= i < |U| ensures i in d {
      assert i in ids;
    }
  }

  /** Dropping one entry of a duplicate-free listing leaves a duplicate-free listing without
      that entry. */
  lemma DistinctDrop(a: seq<nat>, m: nat, b: seq<nat>)
    requires Distinct(a + [m] + b)
    ensures Distinct(a + b) && m !in a + b
  {
    DistinctParts(a, m, b);
    JoinCounts(a, m, b);
    assert multiset(a + b) == multiset(a) + multiset(b);
    forall i ensures multiset(a + b)[i] <= 1 {
      assert multiset(a + [m] + b)[i] <= 1;
    }
  }

  /** Dropping position k of s, which leaves r, takes one s[k] out of its multiset. */
  lemma DropCounts(s: seq<int>, k: nat, r: seq<int>)
    requires k < |s| && r == s[..k] + s[k + 1..]
    ensures multiset(s) == multiset(r) + multiset{s[k]}
  {
    assert s == s[..k] + [s[k]] + s[k + 1..];
  }

  /** A tree listing every node of the arena once holds exactly the arena's values. */
  lemma ListedValues(t: Tree, V: seq<int>)
    requires Listing(t, |V|)
    ensures multiset(InorderValues(t, V)) == multiset(V)
    ensures forall v :: v in InorderValues(t, V) <==> v in V
  {
    ValuesAtIds(t, V);
    PicksPermute(InorderIds(t), V, InorderValues(t, V));
    forall v ensures v in InorderValues(t, V) <==> v in V {
      assert v in InorderValues(t, V) <==> v in multiset(InorderValues(t, V));
      assert v in V <==> v in multiset(V);
    }
  }

  /** The only position of id in a duplicate-free listing A + m + [id] + rest is |A| + |m|. */
  lemma PositionOf(s: seq<nat>, A: seq<nat>, m: seq<nat>, id: nat, rest: seq<nat>)
    requires s == A + m + [id] + rest && Distinct(s)
    ensures forall k :: 0 <= k < |s| && s[k] == id ==> k == |A| + |m|
  {
    var j := |A| + |m|;
    assert s[j] == id;
    forall k | 0 <= k < |s| && s[k] == id ensures k == j {
      if k < j {
        DistinctIndex(s, k, j);
      } else if j < k {
        DistinctIndex(s, j, k);
      }
    }
  }

  /** In s, the THREAD left links (in L) hold the predecessor in s, pred before the first. */
  predicate PredecessorThreads(s: seq<nat>, L: seq<Link>, pred: Option<nat>) {
    forall k {:trigger L[s[k]]} :: 0 <= k < |s| && s[k] < |L| && L[s[k]].Thread? ==>
      L[s[k]].target == if k == 0 then pred else Some(s[k - 1])
  }

  /** In s, the THREAD right links (in R) hold the successor in s, succ after the last. */
  predicate SuccessorThreads(s: seq<nat>, R: seq<Link>, succ: Option<nat>) {
    forall k {:trigger R[s[k]]} :: 0 <= k < |s| && s[k] < |R| && R[s[k]].Thread? ==>
      R[s[k]].target == if k == |s| - 1 then succ else Some(s[k + 1])
  }

  lemma {:induction false} WiredIdsInArena(t: Tree, L: seq<Link>, R: seq<Link>, pred: Option<nat>, succ: Option<nat>)
    requires Wired(t, L, R, pred, succ)
    ensures forall i :: i in InorderIds(t) ==> i < |L| && i < |R|
  {
    match t
    case Empty =>
    case Node(l, id, r) =>
      WiredIdsInArena(l, L, R, pred, Some(id));
      WiredIdsInArena(r, L, R, Some(id), succ);
  }

  lemma {:induction false} LeftThreadsAreNeighbours(t: Tree, L: seq<Link>, R: seq<Link>, pred: Option<nat>, succ: Option<nat>)
    requires Wired(t, L, R, pred, succ)
    ensures PredecessorThreads(InorderIds(t), L, pred)
  {
    match t
    case Empty =>
    case Node(l, id, r) =>
      LeftThreadsAreNeighbours(l, L, R, pred, Some(id));
      LeftThreadsAreNeighbours(r, L, R, Some(id), succ);
      var A, B := InorderIds(l), InorderIds(r);
      var s := InorderIds(t);
      assert s == A + [id] + B;
      forall k | 0 <= k < |s| && s[k] < |L| && L[s[k]].Thread?
        ensures L[s[k]].target == if k == 0 then pred else Some(s[k - 1])
      {
        if k < |A| {
          assert s[k] == A[k];
          if k > 0 { assert s[k - 1] == A[k - 1]; }
        } else if k == |A| {
          assert s[k] == id && l.Empty?;
        } else {
          var j := k - |A| - 1;
          assert s[k] == B[j];
          if j > 0 { assert s[k - 1] == B[j - 1]; } else { assert s[k - 1] == id; }
        }
      }
  }

  lemma {:induction false} RightThreadsAreNeighbours(t: Tree, L: seq<Link>, R: seq<Link>, pred: Option<nat>, succ: Option<nat>)
    requires Wired(t, L, R, pred, succ)
    ensures SuccessorThreads(InorderIds(t), R, succ)
  {
    match t
    case Empty =>
    case Node(l, id, r) =>
      RightThreadsAreNeighbours(l, L, R, pred, Some(id));
      RightThreadsAreNeighbours(r, L, R, Some(id), succ);
      var A, B := InorderIds(l), InorderIds(r);
      var s := InorderIds(t);
      assert s == A + [id] + B;
      forall k | 0 <= k < |s| && s[k] < |R| && R[s[k]].Thread?
        ensures R[s[k]].target == if k == |s| - 1 then succ else Some(s[k + 1])
      {
        if k < |A| {
          assert s[k] == A[k];
          if k < |A| - 1 { assert s[k + 1] == A[k + 1]; } else { assert s[k + 1] == id; }
        } else if k == |A| {
          assert s[k] == id && r.Empty? && k == |s| - 1;
        } else {
          var j := k - |A| - 1;
          assert s[k] == B[j];
          if j < |B| - 1 { assert s[k + 1] == B[j + 1]; } else { assert k == |s| - 1; }
        }
      }
  }

  /** Thread correctness: in a wired tree every node of t has its link slots in the arena,
      every THREAD left link holds the node's in-order predecessor (pred for the first node)
      and every THREAD right link holds its in-order successor (succ for the last node). */
  lemma ThreadsAreNeighbours(t: Tree, L: seq<Link>, R: seq<Link>, pred: Option<nat>, succ: Option<nat>)
    requires Wired(t, L, R, pred, succ)
    ensures forall i :: i in InorderIds(t) ==> i < |L| && i < |R|
    ensures PredecessorThreads(InorderIds(t), L, pred)
    ensures SuccessorThreads(InorderIds(t), R, succ)
  {
    WiredIdsInArena(t, L, R, pred, succ);
    LeftThreadsAreNeighbours(t, L, R, pred, succ);
    RightThreadsAreNeighbours(t, L, R, pred, succ);
  }

  /** The CHILD links of the arena follow the shape t: a node's slot holds a CHILD link exactly
      when the subtree on that side is non-empty, and then it names that subtree's root. */
  predicate ChildLinks(t: Tree, L: seq<Link>, R: seq<Link>) {
    match t
    case Empty => true
    case Node(l, id, r) =>
      id < |L| && id < |R| &&
      (L[id].Child? <==> l.Node?) && (l.Node? ==> L[id].node == l.id) &&
      (R[id].Child? <==> r.Node?) && (r.Node? ==> R[id].node == r.id) &&
      ChildLinks(l, L, R) && ChildLinks(r, L, R)
  }

  /** Cutting a listing A + [id] + B: the threads of A keep pred, those of B start at id. */
  lemma PredecessorParts(A: seq<nat>, id: nat, B: seq<nat>, L: seq<Link>, pred: Option<nat>)
    requires PredecessorThreads(A + [id] + B, L, pred)
    ensures PredecessorThreads(A, L, pred) && PredecessorThreads(B, L, Some(id))
    ensures id < |L| && L[id].Thread? ==> L[id].target == if A == [] then pred else Some(A[|A| - 1])
  {
    var s := A + [id] + B;
    forall k | 0 <= k < |A| && A[k] < |L| && L[A[k]].Thread?
      ensures L[A[k]].target == if k == 0 then pred else Some(A[k - 1])
    {
      assert s[k] == A[k];
      if k > 0 { assert s[k - 1] == A[k - 1]; }
    }
    forall j | 0 <= j < |B| && B[j] < |L| && L[B[j]].Thread?
      ensures L[B[j]].target == if j == 0 then Some(id) else Some(B[j - 1])
    {
      var k := |A| + 1 + j;
      assert s[k] == B[j];
      if j > 0 { assert s[k - 1] == B[j - 1]; } else { assert s[k - 1] == id; }
    }
    if id < |L| && L[id].Thread? {
      assert s[|A|] == id;
      if A != [] { assert s[|A| - 1] == A[|A| - 1]; }
    }
  }

  /** Cutting a listing A + [id] + B: the threads of A end at id, those of B keep succ. */
  lemma SuccessorParts(A: seq<nat>, id: nat, B: seq<nat>, R: seq<Link>, succ: Option<nat>)
    requires SuccessorThreads(A + [id] + B, R, succ)
    ensures SuccessorThreads(A, R, Some(id)) && SuccessorThreads(B, R, succ)
    ensures id < |R| && R[id].Thread? ==> R[id].target == if B == [] then succ else Some(B[0])
  {
    var s := A + [id] + B;
    forall k | 0 <= k < |A| && A[k] < |R| && R[A[k]].Thread?
      ensures R[A[k]].target == if k == |A| - 1 then Some(id) else Some(A[k + 1])
    {
      assert s[k] == A[k];
      if k < |A| - 1 { assert s[k + 1] == A[k + 1]; } else { assert s[k + 1] == id; }
    }
    forall j | 0 <= j < |B| && B[j] < |R| && R[B[j]].Thread?
      ensures R[B[j]].target == if j == |B| - 1 then succ else Some(B[j + 1])
    {
      var k := |A| + 1 + j;
      assert s[k] == B[j];
      if j < |B| - 1 { assert s[k + 1] == B[j + 1]; }
    }
    if id < |R| && R[id].Thread? {
      assert s[|A|] == id;
      if B != [] { assert s[|A| + 1] == B[0]; }
    }
  }

  /** The converse of ThreadsAreNeighbours: links that follow the shape, with every THREAD link
      holding the in-order neighbour, form a wired tree. */
  lemma {:induction false} NeighboursAreWired(t: Tree, L: seq<Link>, R: seq<Link>, pred: Option<nat>, succ: Option<nat>)
    requires ChildLinks(t, L, R)
    requires PredecessorThreads(InorderIds(t), L, pred)
    requires SuccessorThreads(InorderIds(t), R, succ)
    ensures Wired(t, L, R, pred, succ)
  {
    match t
    case Empty =>
    case Node(l, id, r) =>
      PredecessorParts(InorderIds(l), id, InorderIds(r), L, pred);
      SuccessorParts(InorderIds(l), id, InorderIds(r), R, succ);
      NeighboursAreWired(l, L, R, pred, Some(id));
      NeighboursAreWired(r, L, R, Some(id), succ);
  }

  /** The CHILD links of a wired tree follow its shape. */
  lemma {:induction false} WiredChildLinks(t: Tree, L: seq<Link>, R: seq<Link>, pred: Option<nat>, succ: Option<nat>)
    requires Wired(t, L, R, pred, succ)
    ensures ChildLinks(t, L, R)
  {
    match t
    case Empty =>
    case Node(l, id, r) =>
      WiredChildLinks(l, L, R, pred, Some(id));
      WiredChildLinks(r, L, R, Some(id), succ);
  }

  /** Wired is the same as: CHILD links follow the shape and THREAD links are the neighbours. */
  lemma WiredIffNeighbours(t: Tree, L: seq<Link>, R: seq<Link>, pred: Option<nat>, succ: Option<nat>)
    ensures Wired(t, L, R, pred, succ) <==>
            ChildLinks(t, L, R) && PredecessorThreads(InorderIds(t), L, pred) && SuccessorThreads(InorderIds(t), R, succ)
  {
    if Wired(t, L, R, pred, succ) {
      WiredChildLinks(t, L, R, pred, succ);
      ThreadsAreNeighbours(t, L, R, pred, succ);
    }
    if ChildLinks(t, L, R) && PredecessorThreads(InorderIds(t), L, pred) && SuccessorThreads(InorderIds(t), R, succ) {
      NeighboursAreWired(t, L, R, pred, succ);
    }
  }

  /** Finds the subtree rooted at node id inside a wired tree, together with the in-order
      listing before and after it and the bounds it is wired with. */
  lemma {:induction false} Locate(t: Tree, L: seq<Link>, R: seq<Link>, pred: Option<nat>, succ: Option<nat>, id: nat)
    returns (A: seq<nat>, l: Tree, r: Tree, B: seq<nat>, lo: Option<nat>, hi: Option<nat>)
    requires Wired(t, L, R, pred, succ) && id in InorderIds(t)
    ensures InorderIds(t) == A + InorderIds(l) + [id] + InorderIds(r) + B
    ensures Wired(Node(l, id, r), L, R, lo, hi)
  {
    match t
    case Node(tl, tid, tr) =>
      if id == tid {
        A, l, r, B, lo, hi := [], tl, tr, [], pred, succ;
        assert InorderIds(t) == A + InorderIds(l) + [id] + InorderIds(r) + B;
      } else if id in InorderIds(tl) {
        var B';
        A, l, r, B', lo, hi := Locate(tl, L, R, pred, Some(tid), id);
        B := B' + [tid] + InorderIds(tr);
        Regroup(A, InorderIds(l), id, InorderIds(r), B', tid, InorderIds(tr));
      } else {
        var A';
        A', l, r, B, lo, hi := Locate(tr, L, R, Some(tid), succ, id);
        A := InorderIds(tl) + [tid] + A';
        Regroup(A', InorderIds(l), id, InorderIds(r), B, tid, InorderIds(tl));
      }
  }

  /** Regrouping the listing around a located node when it sits inside a left or a right subtree. */
  lemma Regroup(a: seq<nat>, il: seq<nat>, id: nat, ir: seq<nat>, b: seq<nat>, m: nat, other: seq<nat>)
    ensures (a + il + [id] + ir + b) + [m] + other == a + il + [id] + ir + (b + [m] + other)
    ensures other + [m] + (a + il + [id] + ir + b) == (other + [m] + a) + il + [id] + ir + b
  {
  }

  /** Wired depends only on the link slots of the nodes in t. */
  lemma {:induction false} WiredFrame(t: Tree, L: seq<Link>, R: seq<Link>, L2: seq<Link>, R2: seq<Link>, pred: Option<nat>, succ: Option<nat>)
    requires Wired(t, L, R, pred, succ)
    requires |L| <= |L2| && |R| <= |R2|
    requires forall i :: 0 <= i < |L| && i in InorderIds(t) ==> L2[i] == L[i]
    requires forall i :: 0 <= i < |R| && i in InorderIds(t) ==> R2[i] == R[i]
    ensures Wired(t, L2, R2, pred, succ)
  {
    match t
    case Empty =>
    case Node(l, id, r) =>
      WiredFrame(l, L, R, L2, R2, pred, Some(id));
      WiredFrame(r, L, R, L2, R2, Some(id), succ);
  }
}
