/** The threaded binary search tree itself: an object whose fields are the root link, the two
    counters and the arena of nodes, with the source's queries, navigation, traversals, the
    insertion and the swap as its members. */
module BinaryTrees {
  import opened Wrappers
  import opened Sorting
  import opened Shapes
  import opened Growth

  /** The message of the out_of_range error that minimum and maximum raise on an empty tree. */
  const EmptyTreeMessage := "Drzewo puste"

  /** A well-formed threaded search tree whose counters are its node count and its height
      counted in nodes. */
  ghost predicate Consistent(t: Tree, V: seq<int>, L: seq<Link>, R: seq<Link>, root: Link, size: nat, depth: nat) {
    WellFormed(t, V, L, R, root) && size == |V| && depth == Height(t)
  }

  /** One insertion keeps the counters right as well: the new size is one more and the new
      depth is the old one raised to the level of the slot reached; the in-order values gain
      x in sorted position. */
  lemma InsertConsistent(t: Tree, V: seq<int>, L: seq<Link>, R: seq<Link>, root: Link, size: nat, depth: nat, x: int)
    requires Consistent(t, V, L, R, root, size, depth)
    ensures Inside(FindSlot(t, V, x, RootSlot), |V|)
    ensures SlotLink(FindSlot(t, V, x, RootSlot), root, L, R).Thread?
    ensures FindSlot(t, V, x, RootSlot).RootSlot? || root.Child?
    ensures var s := FindSlot(t, V, x, RootSlot);
            var o := SlotLink(s, root, L, R);
            var level := InsertLevel(t, V, x);
            Consistent(Grow(t, V, x), V + [x], AttachLefts(L, s, o), AttachRights(R, s, o),
                       if s.RootSlot? then Child(|V|) else root,
                       size + 1, if depth < level then level else depth)
    ensures InorderValues(Grow(t, V, x), V + [x]) == InsertSorted(InorderValues(t, V), x)
  {
    InsertKeeps(t, V, L, R, root, x);
    GrowHeight(t, V, x);
    GrowValues(t, V, x);
  }

  class BinaryTree {
    /** values[i], lefts[i] and rights[i] are the value and the two tagged links of node i. */
    var values: seq<int>
    var lefts: seq<Link>
    var rights: seq<Link>
    /** The root slot: a THREAD to null while the tree is empty, a CHILD link afterwards. */
    var root: Link
    var size: nat
    var depth: nat
    /** The shape the CHILD links form. */
    ghost var shape: Tree

    /** The invariant: the fields form a consistent threaded search tree. */
    ghost predicate Valid()
      reads this
    {
      Consistent(shape, values, lefts, rights, root, size, depth)
    }

    /** A new tree is empty: a THREAD-tagged null root and both counters zero. */
    constructor ()
      ensures Valid()
      ensures values == [] && root == Thread(None) && size == 0 && depth == 0
    {
      values, lefts, rights := [], [], [];
      root := Thread(None);
      size, depth := 0, 0;
      shape := Empty;
    }

    /** The number of values inserted so far. */
    function Size(): (n: nat)
      reads this
      requires Valid()
      ensures n == |values| && n == |InorderIds(shape)|
    {
      size
    }

    /** The number of nodes on the longest root-to-leaf path; zero exactly when the tree is empty. */
    function Depth(): (d: nat)
      reads this
      requires Valid()
      ensures d == Height(shape)
      ensures d == 0 <==> |values| == 0
    {
      assert InorderIds(Empty) == [];
      depth
    }

    /** Node id's left child, or None when its left link is a THREAD. */
    function LeftChild(id: nat): (c: Option<nat>)
      reads this
      requires Valid() && id < |values|
      ensures c.Some? <==> lefts[id].Child?
      ensures c.Some? ==> lefts[id] == Child(c.value) && id < c.value < |values|
    {
      if lefts[id].Thread? then None else Some(lefts[id].node)
    }

    /** Node id's right child, or None when its right link is a THREAD. */
    function RightChild(id: nat): (c: Option<nat>)
      reads this
      requires Valid() && id < |values|
      ensures c.Some? <==> rights[id].Child?
      ensures c.Some? ==> rights[id] == Child(c.value) && id < c.value < |values|
    {
      if rights[id].Thread? then None else Some(rights[id].node)
    }

    /** The termination measure of the walks below: children are newer than their parents. */
    function Rank(node: Option<nat>): nat
      reads this
    {
      if node.Some? && node.value < |values| then |values| - node.value else 0
    }

    /** The values below node (None: an empty subtree) in in-order. */
    function InorderFrom(node: Option<nat>): seq<int>
      reads this
      requires Valid() && (node.Some? ==> node.value < |values|)
      decreases Rank(node)
    {
      match node
      case None => []
      case Some(id) => InorderFrom(LeftChild(id)) + [values[id]] + InorderFrom(RightChild(id))
    }

    /** The values below node in pre-order. */
    function PreorderFrom(node: Option<nat>): seq<int>
      reads this
      requires Valid() && (node.Some? ==> node.value < |values|)
      decreases Rank(node)
    {
      match node
      case None => []
      case Some(id) => [values[id]] + PreorderFrom(LeftChild(id)) + PreorderFrom(RightChild(id))
    }

    /** The values below node in post-order. */
    function PostorderFrom(node: Option<nat>): seq<int>
      reads this
      requires Valid() && (node.Some? ==> node.value < |values|)
      decreases Rank(node)
    {
      match node
      case None => []
      case Some(id) => PostorderFrom(LeftChild(id)) + PostorderFrom(RightChild(id)) + [values[id]]
    }

    /** Walking the arena's CHILD links from the root of any wired subtree u visits exactly the
        values of u, in each of the three orders. */
    lemma {:induction false} TraversalsFollowShape(u: Tree, lo: Option<nat>, hi: Option<nat>)
      requires Valid() && Within(u, |values|) && Wired(u, lefts, rights, lo, hi)
      ensures InorderFrom(RootOf(u)) == InorderValues(u, values)
      ensures PreorderFrom(RootOf(u)) == PreorderValues(u, values)
      ensures PostorderFrom(RootOf(u)) == PostorderValues(u, values)
    {
      match u
      case Empty =>
      case Node(l, id, r) =>
        assert LeftChild(id) == RootOf(l) && RightChild(id) == RootOf(r);
        TraversalsFollowShape(l, lo, Some(id));
        TraversalsFollowShape(r, Some(id), hi);
    }

    /** The tree's values in in-order: a non-decreasing permutation of every value inserted. */
    function Inorder(): (s: seq<int>)
      reads this
      requires Valid()
      ensures s == InorderValues(shape, values)
      ensures Sorted(s) && multiset(s) == multiset(values)
    {
      TraversalsFollowShape(shape, None, None);
      OrderedSorted(shape, values);
      ListedValues(shape, values);
      InorderFrom(Target(root))
    }

    /** The tree's values in pre-order: every value inserted, the root's first. */
    function Preorder(): (s: seq<int>)
      reads this
      requires Valid()
      ensures s == PreorderValues(shape, values)
      ensures multiset(s) == multiset(values)
      ensures root.Child? ==> |s| > 0 && s[0] == values[root.node]
    {
      TraversalsFollowShape(shape, None, None);
      PreorderPermutes(shape, values);
      ListedValues(shape, values);
      PreorderFrom(Target(root))
    }

    /** The tree's values in post-order: every value inserted, the root's last. */
    function Postorder(): (s: seq<int>)
      reads this
      requires Valid()
      ensures s == PostorderValues(shape, values)
      ensures multiset(s) == multiset(values)
      ensures root.Child? ==> |s| > 0 && s[|s| - 1] == values[root.node]
    {
      TraversalsFollowShape(shape, None, None);
      PostorderPermutes(shape, values);
      ListedValues(shape, values);
      PostorderFrom(Target(root))
    }

    /** Every THREAD left link names the node's in-order predecessor (None for the minimum) and
        every THREAD right link its in-order successor (None for the maximum). */
    lemma ThreadsFollowOrder()
      requires Valid()
      ensures PredecessorThreads(InorderIds(shape), lefts, None)
      ensures SuccessorThreads(InorderIds(shape), rights, None)
    {
      ThreadsAreNeighbours(shape, lefts, rights, None, None);
    }

    /** The recursive search below node: equal stops, strictly greater goes left, smaller right. */
    function SearchFrom(node: Option<nat>, x: int): (r: Option<nat>)
      reads this
      requires Valid() && (node.Some? ==> node.value < |values|)
      ensures r.Some? ==> r.value < |values| && values[r.value] == x
      decreases Rank(node)
    {
      match node
      case None => None
      case Some(id) =>
        if values[id] == x then node
        else if values[id] > x then SearchFrom(LeftChild(id), x)
        else SearchFrom(RightChild(id), x)
    }

    /** In an ordered wired subtree u the search from u's root fails exactly when x is not among
        u's values. */
    lemma {:induction false} SearchFromFinds(u: Tree, lo: Option<nat>, hi: Option<nat>, x: int)
      requires Valid() && Within(u, |values|) && Wired(u, lefts, rights, lo, hi) && Ordered(u, values)
      ensures SearchFrom(RootOf(u), x).None? <==> x !in InorderValues(u, values)
    {
      match u
      case Empty =>
      case Node(l, id, r) =>
        assert LeftChild(id) == RootOf(l) && RightChild(id) == RootOf(r);
        if values[id] > x {
          SearchFromFinds(l, lo, Some(id), x);
          assert x !in InorderValues(r, values);
        } else if values[id] < x {
          SearchFromFinds(r, Some(id), hi, x);
          assert x !in InorderValues(l, values);
        }
    }

    /** The source's searchRecursive: the node of a value equal to x, None exactly when no
        inserted value equals x. */
    function SearchRecursive(x: int): (r: Option<nat>)
      reads this
      requires Valid()
      ensures r.Some? ==> r.value < |values| && values[r.value] == x
      ensures r.None? <==> x !in values
    {
      SearchFromFinds(shape, None, None, x);
      ListedValues(shape, values);
      SearchFrom(Target(root), x)
    }

    /** The source's iterative search: it walks the same path and finds the same node as the
        recursive one. */
    method Search(x: int) returns (r: Option<nat>)
      requires Valid()
      ensures r == SearchRecursive(x)
      ensures r.Some? ==> r.value < |values| && values[r.value] == x
      ensures r.None? <==> x !in values
    {
      var tmp: Option<nat> := Target(root);
      while tmp.Some?
        invariant tmp.Some? ==> tmp.value < |values|
        invariant SearchFrom(tmp, x) == SearchRecursive(x)
        decreases Rank(tmp)
      {
        var id := tmp.value;
        if values[id] == x {
          return tmp;
        }
        if values[id] > x {
          tmp := LeftChild(id);
        } else {
          tmp := RightChild(id);
        }
      }
      return None;
    }

    /** The tree is empty exactly when its root slot holds no node. */
    lemma EmptyRoot()
      requires Valid()
      ensures Target(root).None? <==> |values| == 0
      ensures Target(root) == RootOf(shape)
    {
      assert InorderIds(Empty) == [];
    }

    /** The value of the node listed first in in-order is the first in-order value; it is an
        inserted value and no inserted value is smaller. */
    lemma FirstIsLeast(first: nat)
      requires Valid() && |InorderIds(shape)| > 0 && InorderIds(shape)[0] == first
      ensures first < |values| && Inorder()[0] == values[first]
      ensures values[first] in values && forall v :: v in values ==> values[first] <= v
    {
      ValuesAtIds(shape, values);
      var s := Inorder();
      SortedFirstIsLeast(s);
      ListedValues(shape, values);
    }

    /** The value of the node listed last in in-order is the last in-order value; it is an
        inserted value and no inserted value is greater. */
    lemma LastIsGreatest(last: nat)
      requires Valid() && |InorderIds(shape)| > 0 && InorderIds(shape)[|InorderIds(shape)| - 1] == last
      ensures last < |values| && |Inorder()| > 0 && Inorder()[|Inorder()| - 1] == values[last]
      ensures values[last] in values && forall v :: v in values ==> v <= values[last]
    {
      ValuesAtIds(shape, values);
      var s := Inorder();
      SortedLastIsGreatest(s);
      ListedValues(shape, values);
    }

    /** The source's minimum: the leftmost node's value, reached along left CHILD links; an
        empty tree raises out_of_range. */
    method Minimum() returns (r: Result<int, string>)
      requires Valid()
      ensures r.Failure? <==> |values| == 0
      ensures r.Failure? ==> r.error == EmptyTreeMessage
      ensures r.Success? ==> r.value == Inorder()[0]
      ensures r.Success? ==> r.value in values && forall v :: v in values ==> r.value <= v
    {
      EmptyRoot();
      if Target(root).None? {
        return Failure(EmptyTreeMessage);
      }
      var tmp := Target(root).value;
      ghost var u: Tree, hi: Option<nat> := shape, None;
      while LeftChild(tmp).Some?
        invariant u.Node? && u.id == tmp && Wired(u, lefts, rights, None, hi)
        invariant Leftmost(u) == Leftmost(shape)
        decreases |values| - tmp
      {
        hi := Some(tmp);
        u := u.left;
        tmp := LeftChild(tmp).value;
      }
      LeftmostFirst(shape);
      FirstIsLeast(tmp);
      return Success(values[tmp]);
    }

    /** The source's maximum: the rightmost node's value, reached along right CHILD links; an
        empty tree raises out_of_range. */
    method Maximum() returns (r: Result<int, string>)
      requires Valid()
      ensures r.Failure? <==> |values| == 0
      ensures r.Failure? ==> r.error == EmptyTreeMessage
      ensures r.Success? ==> r.value == Inorder()[|Inorder()| - 1]
      ensures r.Success? ==> r.value in values && forall v :: v in values ==> v <= r.value
    {
      EmptyRoot();
      if Target(root).None? {
        return Failure(EmptyTreeMessage);
      }
      var tmp := Target(root).value;
      ghost var u: Tree, lo: Option<nat> := shape, None;
      while RightChild(tmp).Some?
        invariant u.Node? && u.id == tmp && Wired(u, lefts, rights, lo, None)
        invariant Rightmost(u) == Rightmost(shape)
        decreases |values| - tmp
      {
        lo := Some(tmp);
        u := u.right;
        tmp := RightChild(tmp).value;
      }
      RightmostLast(shape);
      LastIsGreatest(tmp);
      return Success(values[tmp]);
    }

    /** The source's previous: a THREAD left link is followed as it stands, a CHILD one leads to
        the rightmost node of the left subtree; either way the result is id's in-order
        predecessor, None for the first node. */
    method Previous(id: nat) returns (r: Option<nat>)
      requires Valid() && id < |values|
      ensures forall k {:trigger InorderIds(shape)[k]} :: 0 <= k < |InorderIds(shape)| && InorderIds(shape)[k] == id ==>
                r == if k == 0 then None else Some(InorderIds(shape)[k - 1])
    {
      if lefts[id].Thread? {
        ThreadsFollowOrder();
        return lefts[id].target;
      }
      ghost var A, l, rt, B, lo, hi := Locate(shape, lefts, rights, None, None, id);
      var cur := lefts[id].node;
      ghost var u: Tree, ulo: Option<nat> := l, lo;
      while RightChild(cur).Some?
        invariant u.Node? && u.id == cur && cur < |values|
        invariant Wired(u, lefts, rights, ulo, Some(id))
        invariant Rightmost(u) == Rightmost(l)
        decreases |values| - cur
      {
        ulo := Some(cur);
        u := u.right;
        cur := RightChild(cur).value;
      }
      RightmostLast(l);
      var s := InorderIds(shape);
      assert s == A + InorderIds(l) + [id] + (InorderIds(rt) + B);
      PositionOf(s, A, InorderIds(l), id, InorderIds(rt) + B);
      assert s[|A| + |InorderIds(l)| - 1] == cur;
      return Some(cur);
    }

    /** The source's next: a THREAD right link is followed as it stands, a CHILD one leads to
        the leftmost node of the right subtree; either way the result is id's in-order
        successor, None for the last node. */
    method Next(id: nat) returns (r: Option<nat>)
      requires Valid() && id < |values|
      ensures forall k {:trigger InorderIds(shape)[k]} :: 0 <= k < |InorderIds(shape)| && InorderIds(shape)[k] == id ==>
                r == if k == |InorderIds(shape)| - 1 then None else Some(InorderIds(shape)[k + 1])
    {
      if rights[id].Thread? {
        ThreadsFollowOrder();
        return rights[id].target;
      }
      ghost var A, l, rt, B, lo, hi := Locate(shape, lefts, rights, None, None, id);
      var cur := rights[id].node;
      ghost var u: Tree, uhi: Option<nat> := rt, hi;
      while LeftChild(cur).Some?
        invariant u.Node? && u.id == cur && cur < |values|
        invariant Wired(u, lefts, rights, Some(id), uhi)
        invariant Leftmost(u) == Leftmost(rt)
        decreases |values| - cur
      {
        uhi := Some(cur);
        u := u.left;
        cur := LeftChild(cur).value;
      }
      LeftmostFirst(rt);
      var s := InorderIds(shape);
      assert s == A + InorderIds(l) + [id] + (InorderIds(rt) + B);
      PositionOf(s, A, InorderIds(l), id, InorderIds(rt) + B);
      assert s[|A| + |InorderIds(l)| + 1] == cur;
      return Some(cur);
    }

    /** The source's insert (insertLeft from the root slot, then insertLeft or insertRight
        level by level): the descent follows CHILD links, strictly greater to the left and
        otherwise to the right, until it meets a THREAD slot; the new node is hung there with
        its outer link inheriting that thread and its inner link threaded to the slot's owner,
        the slot becomes a CHILD link to it, size grows by one and depth rises to the level
        reached if that is deeper. */
    method Insert(x: int)
      requires Valid()
      modifies this
      ensures Valid()
      ensures values == old(values) + [x]
      ensures size == old(size) + 1
      ensures depth == if old(depth) < InsertLevel(old(shape), old(values), x)
                       then InsertLevel(old(shape), old(values), x) else old(depth)
      ensures shape == Grow(old(shape), old(values), x)
      ensures Inorder() == InsertSorted(old(Inorder()), x)
      ensures Inside(FindSlot(old(shape), old(values), x, RootSlot), |old(values)|)
      ensures var s := FindSlot(old(shape), old(values), x, RootSlot);
              var o := SlotLink(s, old(root), old(lefts), old(rights));
              && o.Thread?
              && lefts == AttachLefts(old(lefts), s, o)
              && rights == AttachRights(old(rights), s, o)
              && root == (if s.RootSlot? then Child(|old(values)|) else old(root))
              && SlotLink(s, root, lefts, rights) == Child(|old(values)|)
      ensures root.Child?
    {
      var n := |values|;
      var slot := RootSlot;
      var link := root;
      var level: nat := 1;
      ghost var sub: Tree, pred: Option<nat>, succ: Option<nat> := shape, None, None;
      while link.Child?
        invariant Inside(slot, n) && link == SlotLink(slot, root, lefts, rights)
        invariant Within(sub, n) && Wired(sub, lefts, rights, pred, succ)
        invariant Hangs(slot, sub, pred, succ, root, lefts, rights)
        invariant FindSlot(sub, values, x, slot) == FindSlot(shape, values, x, RootSlot)
        invariant level - 1 + InsertLevel(sub, values, x) == InsertLevel(shape, values, x)
        decreases sub
      {
        var p := link.node;
        if values[p] > x {
          slot, link := LeftOf(p), lefts[p];
          sub, succ := sub.left, Some(p);
        } else {
          slot, link := RightOf(p), rights[p];
          sub, pred := sub.right, Some(p);
        }
        level := level + 1;
      }
      InsertConsistent(shape, values, lefts, rights, root, size, depth, x);
      Hang(slot, link, level, x, Grow(shape, values, x));
    }

    /** The THREAD branch of the source's insertLeft and insertRight: slot is where the
        descent for x stopped, link the THREAD link stored there and level its depth, and g
        the shape with the new node in place. The new node is appended to the arena; the link
        it inherits goes on its outer side (left under a left slot or the root slot, right
        under a right slot) and its inner side is threaded to the slot's owner; then the slot
        becomes a CHILD link to the new node, size grows by one and depth rises to level if
        that is deeper. */
    method Hang(slot: Slot, link: Link, level: nat, x: int, ghost g: Tree)
      requires Inside(slot, |values|) && |lefts| == |values| && |rights| == |values|
      requires link == SlotLink(slot, root, lefts, rights) && link.Thread?
      requires Consistent(g, values + [x], AttachLefts(lefts, slot, link), AttachRights(rights, slot, link),
                          if slot.RootSlot? then Child(|values|) else root,
                          size + 1, if depth < level then level else depth)
      modifies this
      ensures Valid()
      ensures values == old(values) + [x]
      ensures lefts == AttachLefts(old(lefts), slot, link)
      ensures rights == AttachRights(old(rights), slot, link)
      ensures root == if slot.RootSlot? then Child(|old(values)|) else old(root)
      ensures size == old(size) + 1
      ensures depth == if old(depth) < level then level else old(depth)
      ensures shape == g
      ensures SlotLink(slot, root, lefts, rights) == Child(|old(values)|)
    {
      var n := |values|;
      var newLeft, newRight := link, Thread(Owner(slot));
      if slot.RightOf? {
        newLeft, newRight := Thread(Owner(slot)), link;
      }
      var ls, rs, top := lefts, rights, root;
      match slot {
        case RootSlot =>
          top := Child(n);
        case LeftOf(p) =>
          ls := ls[p := Child(n)];
        case RightOf(p) =>
          rs := rs[p := Child(n)];
      }
      ls, rs := ls + [newLeft], rs + [newRight];
      var newDepth := if level > depth then level else depth;
      values, lefts, rights, root, size, depth := values + [x], ls, rs, top, size + 1, newDepth;
      shape := g;
    }

    /** The source's swap: the two trees exchange their roots and counters, and with them the
        nodes each root owns. */
    method Swap(other: BinaryTree)
      requires Valid() && other.Valid()
      modifies this, other
      ensures Valid() && other.Valid()
      ensures values == old(other.values) && other.values == old(values)
      ensures lefts == old(other.lefts) && other.lefts == old(lefts)
      ensures rights == old(other.rights) && other.rights == old(rights)
      ensures root == old(other.root) && other.root == old(root)
      ensures size == old(other.size) && other.size == old(size)
      ensures depth == old(other.depth) && other.depth == old(depth)
      ensures shape == old(other.shape) && other.shape == old(shape)
    {
      var v, l, rt, r, n, d := other.values, other.lefts, other.rights, other.root, other.size, other.depth;
      ghost var t := other.shape;
      other.values, other.lefts, other.rights, other.root, other.size, other.depth := values, lefts, rights, root, size, depth;
      other.shape := shape;
      values, lefts, rights, root, size, depth := v, l, rt, r, n, d;
      shape := t;
    }
  }
}
