/** The top-down insertion of the threaded tree, as functions of the shape and the arena,
    and the proof that it keeps the tree well formed. */
module Growth {
  import opened Wrappers
  import opened Sorting
  import opened Shapes

  /** A link slot: the tree's root slot, or the left or right slot of node p. */
  datatype Slot = RootSlot | LeftOf(p: nat) | RightOf(p: nat)

  /** The node whose slot this is: the neighbour the descent forwards (null for the root). */
  function Owner(s: Slot): Option<nat> {
    if s.RootSlot? then None else Some(s.p)
  }

  /** Slot s belongs to the root or to one of the n nodes of the arena. */
  predicate Inside(s: Slot, n: nat) {
    s.RootSlot? || s.p < n
  }

  /** The link currently stored in slot s. */
  function SlotLink(s: Slot, root: Link, L: seq<Link>, R: seq<Link>): Link
    requires Inside(s, |L|) && Inside(s, |R|)
  {
    match s
    case RootSlot => root
    case LeftOf(p) => L[p]
    case RightOf(p) => R[p]
  }

  /** The THREAD slot at which the descent for x, entering subtree t through slot here, stops:
      a node whose value is strictly greater than x sends it left, any other node right. */
  function FindSlot(t: Tree, V: seq<int>, x: int, here: Slot): Slot
    requires Within(t, |V|)
  {
    match t
    case Empty => here
    case Node(l, id, r) =>
      if V[id] > x then FindSlot(l, V, x, LeftOf(id)) else FindSlot(r, V, x, RightOf(id))
  }

  /** The level, counted in nodes with the root at level 1, at which x lands. */
  function InsertLevel(t: Tree, V: seq<int>, x: int): (level: nat)
    requires Within(t, |V|)
    ensures 1 <= level <= Height(t) + 1
  {
    match t
    case Empty => 1
    case Node(l, id, r) =>
      1 + if V[id] > x then InsertLevel(l, V, x) else InsertLevel(r, V, x)
  }

  /** The shape after node |V| holding x is hung at the slot FindSlot reaches. */
  function Grow(t: Tree, V: seq<int>, x: int): (g: Tree)
    requires Within(t, |V|)
    ensures g.Node? && (t.Node? ==> g.id == t.id)
    ensures Within(g, |V| + 1)
  {
    match t
    case Empty => Node(Empty, |V|, Empty)
    case Node(l, id, r) =>
      if V[id] > x then
        WithinWidens(r, |V|, |V| + 1);
        Node(Grow(l, V, x), id, r)
      else
        WithinWidens(l, |V|, |V| + 1);
        Node(l, id, Grow(r, V, x))
  }

  /** The grown shape lists the old nodes and the new node |V|, each exactly as often as before. */
  lemma {:induction false} GrowIds(t: Tree, V: seq<int>, x: int)
    requires Within(t, |V|)
    ensures multiset(InorderIds(Grow(t, V, x))) == multiset(InorderIds(t)) + multiset{|V| as nat}
  {
    match t
    case Empty =>
    case Node(l, id, r) =>
      if V[id] > x {
        GrowIds(l, V, x);
        assert Grow(t, V, x) == Node(Grow(l, V, x), id, r);
        GrowIdsStep(l, id, r, Grow(l, V, x), r, |V|);
      } else {
        GrowIds(r, V, x);
        assert Grow(t, V, x) == Node(l, id, Grow(r, V, x));
        GrowIdsStep(l, id, r, l, Grow(r, V, x), |V|);
      }
  }

  /** One step of GrowIds: a node whose one subtree gained node n gains n itself. */
  lemma GrowIdsStep(l: Tree, id: nat, r: Tree, l2: Tree, r2: Tree, n: nat)
    requires || (r2 == r && multiset(InorderIds(l2)) == multiset(InorderIds(l)) + multiset{n})
             || (l2 == l && multiset(InorderIds(r2)) == multiset(InorderIds(r)) + multiset{n})
    ensures multiset(InorderIds(Node(l2, id, r2))) == multiset(InorderIds(Node(l, id, r))) + multiset{n}
  {
    JoinCounts(InorderIds(l), id, InorderIds(r));
    JoinCounts(InorderIds(l2), id, InorderIds(r2));
  }

  /** The left links after node |L| is hung at slot s whose old link was o: a left slot is
      overwritten with a CHILD link; the new node's left link is its outer link (inheriting o)
      when it hangs on the left or at the root, and its inner thread to the owner otherwise. */
  function AttachLefts(L: seq<Link>, s: Slot, o: Link): seq<Link>
    requires Inside(s, |L|)
  {
    (if s.LeftOf? then L[s.p := Child(|L|)] else L) +
    [if s.RightOf? then Thread(Owner(s)) else o]
  }

  /** The right links after node |R| is hung at slot s whose old link was o. */
  function AttachRights(R: seq<Link>, s: Slot, o: Link): seq<Link>
    requires Inside(s, |R|)
  {
    (if s.RightOf? then R[s.p := Child(|R|)] else R) +
    [if s.RightOf? then o else Thread(Owner(s))]
  }

  /** Slot here holds the link to subtree t, and pred and succ are the bounds that Wired
      gives t there: a left slot of p makes p the successor bound, a right slot the
      predecessor bound, and the root slot has no successor. */
  predicate Hangs(here: Slot, t: Tree, pred: Option<nat>, succ: Option<nat>, root: Link, L: seq<Link>, R: seq<Link>) {
    match here
    case RootSlot => succ == None && root == LinkTo(t, pred)
    case LeftOf(p) => p < |L| && succ == Some(p) && L[p] == LinkTo(t, pred)
    case RightOf(p) => p < |R| && pred == Some(p) && R[p] == LinkTo(t, succ)
  }

  /** The descent stops at here only on an empty subtree; otherwise at a slot of one of t's nodes. */
  lemma {:induction false} FindSlotInside(t: Tree, V: seq<int>, x: int, here: Slot)
    requires Within(t, |V|)
    ensures t.Empty? ==> FindSlot(t, V, x, here) == here
    ensures t.Node? ==> !FindSlot(t, V, x, here).RootSlot? && FindSlot(t, V, x, here).p in InorderIds(t)
  {
    match t
    case Empty =>
    case Node(l, id, r) =>
      if V[id] > x { FindSlotInside(l, V, x, LeftOf(id)); } else { FindSlotInside(r, V, x, RightOf(id)); }
  }

  /** Hanging the new node changes no slot except the one at s (and adds the new node's). */
  lemma AttachFrame(L: seq<Link>, R: seq<Link>, s: Slot, o: Link, i: nat)
    requires |L| == |R| && Inside(s, |L|) && i < |L| && (s.RootSlot? || i != s.p)
    ensures AttachLefts(L, s, o)[i] == L[i] && AttachRights(R, s, o)[i] == R[i]
  {
  }

  /** A subtree that does not own slot s stays wired when the new node is hung at s. */
  lemma AttachKeepsWired(u: Tree, L: seq<Link>, R: seq<Link>, s: Slot, o: Link, lo: Option<nat>, hi: Option<nat>)
    requires Wired(u, L, R, lo, hi) && |L| == |R| && Inside(s, |L|)
    requires s.RootSlot? || s.p !in InorderIds(u)
    ensures Wired(u, AttachLefts(L, s, o), AttachRights(R, s, o), lo, hi)
  {
    var L2, R2 := AttachLefts(L, s, o), AttachRights(R, s, o);
    forall i | 0 <= i < |L| && i in InorderIds(u) ensures L2[i] == L[i] && R2[i] == R[i] {
      AttachFrame(L, R, s, o, i);
    }
    WiredFrame(u, L, R, L2, R2, lo, hi);
  }

  /** The new node, hung at the empty subtree that slot here holds, is wired with the bounds
      that slot gives it: the outer link inherits the slot's thread, the inner one is the owner. */
  lemma HangLeaf(V: seq<int>, L: seq<Link>, R: seq<Link>, root: Link, here: Slot, pred: Option<nat>, succ: Option<nat>)
    requires |L| == |V| && |R| == |V| && Hangs(here, Empty, pred, succ, root, L, R)
    ensures Inside(here, |V|) && SlotLink(here, root, L, R).Thread?
    ensures Wired(Node(Empty, |V|, Empty), AttachLefts(L, here, SlotLink(here, root, L, R)),
                  AttachRights(R, here, SlotLink(here, root, L, R)), pred, succ)
  {
  }

  /** The left-going step of GrowWired: once the new node is correctly hung inside l, the whole
      of Node(l, id, r) is wired, because the slots of id and of r's nodes are untouched. */
  lemma GrowWiredLeft(l: Tree, id: nat, r: Tree, V: seq<int>, L: seq<Link>, R: seq<Link>, root: Link, x: int,
                      pred: Option<nat>, succ: Option<nat>, s: Slot, o: Link)
    requires |L| == |V| && |R| == |V| && Within(Node(l, id, r), |V|) && Distinct(InorderIds(Node(l, id, r)))
    requires Wired(Node(l, id, r), L, R, pred, succ)
    requires V[id] > x && s == FindSlot(l, V, x, LeftOf(id)) && Inside(s, |V|)
    requires Wired(Grow(l, V, x), AttachLefts(L, s, o), AttachRights(R, s, o), pred, Some(id))
    ensures Wired(Grow(Node(l, id, r), V, x), AttachLefts(L, s, o), AttachRights(R, s, o), pred, succ)
  {
    DistinctParts(InorderIds(l), id, InorderIds(r));
    FindSlotInside(l, V, x, LeftOf(id));
    AttachKeepsWired(r, L, R, s, o, Some(id), succ);
    if l.Node? { AttachFrame(L, R, s, o, id); }
  }

  /** The right-going step of GrowWired. */
  lemma GrowWiredRight(l: Tree, id: nat, r: Tree, V: seq<int>, L: seq<Link>, R: seq<Link>, root: Link, x: int,
                       pred: Option<nat>, succ: Option<nat>, s: Slot, o: Link)
    requires |L| == |V| && |R| == |V| && Within(Node(l, id, r), |V|) && Distinct(InorderIds(Node(l, id, r)))
    requires Wired(Node(l, id, r), L, R, pred, succ)
    requires !(V[id] > x) && s == FindSlot(r, V, x, RightOf(id)) && Inside(s, |V|)
    requires Wired(Grow(r, V, x), AttachLefts(L, s, o), AttachRights(R, s, o), Some(id), succ)
    ensures Wired(Grow(Node(l, id, r), V, x), AttachLefts(L, s, o), AttachRights(R, s, o), pred, succ)
  {
    DistinctParts(InorderIds(l), id, InorderIds(r));
    FindSlotInside(r, V, x, RightOf(id));
    AttachKeepsWired(l, L, R, s, o, pred, Some(id));
    if r.Node? { AttachFrame(L, R, s, o, id); }
  }

  /** Thread correctness is kept: hanging the new node at the slot the descent reaches, with the
      outer link inheriting that slot's thread and the inner link threaded to the slot's owner,
      leaves every slot of the grown shape wired with the right bounds. */
  lemma {:induction false} GrowWired(t: Tree, V: seq<int>, L: seq<Link>, R: seq<Link>, root: Link, x: int,
                                     here: Slot, pred: Option<nat>, succ: Option<nat>)
    requires |L| == |V| && |R| == |V| && Within(t, |V|) && Distinct(InorderIds(t))
    requires Wired(t, L, R, pred, succ)
    requires Hangs(here, t, pred, succ, root, L, R)
    ensures Inside(FindSlot(t, V, x, here), |V|)
    ensures SlotLink(FindSlot(t, V, x, here), root, L, R).Thread?
    ensures Wired(Grow(t, V, x),
                  AttachLefts(L, FindSlot(t, V, x, here), SlotLink(FindSlot(t, V, x, here), root, L, R)),
                  AttachRights(R, FindSlot(t, V, x, here), SlotLink(FindSlot(t, V, x, here), root, L, R)),
                  pred, succ)
  {
    match t
    case Empty =>
      HangLeaf(V, L, R, root, here, pred, succ);
    case Node(l, id, r) =>
      DistinctParts(InorderIds(l), id, InorderIds(r));
      if V[id] > x {
        var s := FindSlot(l, V, x, LeftOf(id));
        GrowWired(l, V, L, R, root, x, LeftOf(id), pred, Some(id));
        GrowWiredLeft(l, id, r, V, L, R, root, x, pred, succ, s, SlotLink(s, root, L, R));
      } else {
        var s := FindSlot(r, V, x, RightOf(id));
        GrowWired(r, V, L, R, root, x, RightOf(id), Some(id), succ);
        GrowWiredRight(l, id, r, V, L, R, root, x, pred, succ, s, SlotLink(s, root, L, R));
      }
  }

  /** The left-going step of GrowValues for the order: every value of the grown left subtree
      (x included) stays strictly below the node. */
  lemma GrowOrderLeft(l: Tree, id: nat, r: Tree, V: seq<int>, x: int)
    requires Within(Node(l, id, r), |V|) && Ordered(Node(l, id, r), V) && V[id] > x
    requires Ordered(Grow(l, V, x), V + [x])
    requires InorderValues(Grow(l, V, x), V + [x]) == InsertSorted(InorderValues(l, V), x)
    ensures Ordered(Grow(Node(l, id, r), V, x), V + [x])
  {
    var W := V + [x];
    assert W[..|V|] == V && W[id] == V[id];
    ValuesExtend(r, V, W);
    InsertSortedMembers(InorderValues(l, V), x);
  }

  /** The left-going step of GrowValues for the in-order values. */
  lemma GrowInorderLeft(l: Tree, id: nat, r: Tree, V: seq<int>, x: int)
    requires Within(Node(l, id, r), |V|) && V[id] > x
    requires InorderValues(Grow(l, V, x), V + [x]) == InsertSorted(InorderValues(l, V), x)
    ensures InorderValues(Grow(Node(l, id, r), V, x), V + [x]) == InsertSorted(InorderValues(Node(l, id, r), V), x)
  {
    var W := V + [x];
    assert W[..|V|] == V && W[id] == V[id];
    var lv, rv := InorderValues(l, V), InorderValues(r, V);
    ValuesExtend(r, V, W);
    InsertBeforeMiddle(lv, V[id], rv, x);
  }

  /** The right-going step of GrowValues for the order: every value of the grown right subtree
      (x included) stays at or above the node. */
  lemma GrowOrderRight(l: Tree, id: nat, r: Tree, V: seq<int>, x: int)
    requires Within(Node(l, id, r), |V|) && Ordered(Node(l, id, r), V) && !(V[id] > x)
    requires Ordered(Grow(r, V, x), V + [x])
    requires InorderValues(Grow(r, V, x), V + [x]) == InsertSorted(InorderValues(r, V), x)
    ensures Ordered(Grow(Node(l, id, r), V, x), V + [x])
  {
    var W := V + [x];
    assert W[..|V|] == V && W[id] == V[id];
    ValuesExtend(l, V, W);
    InsertSortedMembers(InorderValues(r, V), x);
  }

  /** The right-going step of GrowValues for the in-order values. */
  lemma GrowInorderRight(l: Tree, id: nat, r: Tree, V: seq<int>, x: int)
    requires Within(Node(l, id, r), |V|) && Ordered(Node(l, id, r), V) && !(V[id] > x)
    requires InorderValues(Grow(r, V, x), V + [x]) == InsertSorted(InorderValues(r, V), x)
    ensures InorderValues(Grow(Node(l, id, r), V, x), V + [x]) == InsertSorted(InorderValues(Node(l, id, r), V), x)
  {
    var W := V + [x];
    assert W[..|V|] == V && W[id] == V[id];
    var lv, rv := InorderValues(l, V), InorderValues(r, V);
    ValuesExtend(l, V, W);
    forall v | v in lv + [V[id]] ensures v <= x {
      if v in lv { assert v < V[id]; }
    }
    InsertAfterHead(lv + [V[id]], rv, x);
  }

  /** The search-tree order is kept, and the in-order values gain x after every value that is
      not greater than it (so duplicates keep their insertion order). */
  lemma {:induction false} GrowValues(t: Tree, V: seq<int>, x: int)
    requires Within(t, |V|) && Ordered(t, V)
    ensures Ordered(Grow(t, V, x), V + [x])
    ensures InorderValues(Grow(t, V, x), V + [x]) == InsertSorted(InorderValues(t, V), x)
  {
    match t
    case Empty =>
    case Node(l, id, r) =>
      if V[id] > x {
        GrowValues(l, V, x);
        GrowOrderLeft(l, id, r, V, x);
        GrowInorderLeft(l, id, r, V, x);
      } else {
        GrowValues(r, V, x);
        GrowOrderRight(l, id, r, V, x);
        GrowInorderRight(l, id, r, V, x);
      }
  }

  /** The grown shape is as high as the old one or as the level the new node landed on. */
  lemma {:induction false} GrowHeight(t: Tree, V: seq<int>, x: int)
    requires Within(t, |V|)
    ensures Height(Grow(t, V, x)) == if Height(t) < InsertLevel(t, V, x) then InsertLevel(t, V, x) else Height(t)
  {
    match t
    case Empty =>
    case Node(l, id, r) =>
      if V[id] > x { GrowHeight(l, V, x); } else { GrowHeight(r, V, x); }
  }

  /** A duplicate-free listing of the nodes 0 .. n-1, extended by the fresh node n, is a
      duplicate-free listing of the nodes 0 .. n. */
  lemma ListingGains(ids: seq<nat>, gids: seq<nat>, n: nat)
    requires Distinct(ids) && |ids| == n && (forall i :: 0 <= i < n ==> i in ids)
    requires forall i :: i in ids ==> i < n
    requires multiset(gids) == multiset(ids) + multiset{n}
    ensures Distinct(gids) && |gids| == n + 1 && (forall i :: 0 <= i < n + 1 ==> i in gids)
  {
    assert n !in ids;
    assert multiset(ids)[n] == 0;
    forall i ensures multiset(gids)[i] <= 1 {
      assert multiset(ids)[i] <= 1;
    }
    assert |gids| == |multiset(gids)| == |multiset(ids)| + 1;
    forall i | 0 <= i < n + 1 ensures i in gids {
      if i < n {
        assert i in ids;
        assert i in multiset(ids);
      }
      assert i in multiset(gids);
    }
  }

  /** Hanging the fresh node n keeps every CHILD link pointing forward: the only new CHILD
      link is the one to n, and the new node's own links are threads or the old THREAD o. */
  lemma AttachNewer(L: seq<Link>, R: seq<Link>, s: Slot, o: Link, n: nat)
    requires |L| == n && |R| == n && Inside(s, n) && o.Thread?
    requires ChildrenNewer(L, R, n)
    ensures ChildrenNewer(AttachLefts(L, s, o), AttachRights(R, s, o), n + 1)
  {
  }

  /** The grown shape lists the nodes 0 .. |V| once each when the old one listed 0 .. |V|-1 once each. */
  lemma GrowListing(t: Tree, V: seq<int>, x: int)
    requires Listing(t, |V|)
    ensures Listing(Grow(t, V, x), |V| + 1)
  {
    GrowIds(t, V, x);
    WithinBoundsIds(t, |V|);
    ListingGains(InorderIds(t), InorderIds(Grow(t, V, x)), |V|);
  }

  /** The arena with the new node hung at the slot the descent reaches is again correctly
      threaded; its root link becomes a CHILD link to the new node when the tree was empty. */
  lemma GrowThreaded(t: Tree, V: seq<int>, L: seq<Link>, R: seq<Link>, root: Link, x: int)
    requires Listing(t, |V|) && Threaded(t, L, R, root, |V|)
    ensures Inside(FindSlot(t, V, x, RootSlot), |V|)
    ensures SlotLink(FindSlot(t, V, x, RootSlot), root, L, R).Thread?
    ensures Threaded(Grow(t, V, x),
                     AttachLefts(L, FindSlot(t, V, x, RootSlot), SlotLink(FindSlot(t, V, x, RootSlot), root, L, R)),
                     AttachRights(R, FindSlot(t, V, x, RootSlot), SlotLink(FindSlot(t, V, x, RootSlot), root, L, R)),
                     if FindSlot(t, V, x, RootSlot).RootSlot? then Child(|V|) else root, |V| + 1)
  {
    var s := FindSlot(t, V, x, RootSlot);
    GrowWired(t, V, L, R, root, x, RootSlot, None, None);
    FindSlotInside(t, V, x, RootSlot);
    AttachNewer(L, R, s, SlotLink(s, root, L, R), |V|);
  }

  /** One insertion keeps the whole invariant: the slot reached is a THREAD slot of the arena,
      and the arena with the new node hung there is again a well-formed threaded tree whose
      CHILD-tagged root is the new node when the tree was empty and the old root otherwise. */
  lemma InsertKeeps(t: Tree, V: seq<int>, L: seq<Link>, R: seq<Link>, root: Link, x: int)
    requires WellFormed(t, V, L, R, root)
    ensures Inside(FindSlot(t, V, x, RootSlot), |V|)
    ensures SlotLink(FindSlot(t, V, x, RootSlot), root, L, R).Thread?
    ensures WellFormed(Grow(t, V, x), V + [x],
                       AttachLefts(L, FindSlot(t, V, x, RootSlot), SlotLink(FindSlot(t, V, x, RootSlot), root, L, R)),
                       AttachRights(R, FindSlot(t, V, x, RootSlot), SlotLink(FindSlot(t, V, x, RootSlot), root, L, R)),
                       if FindSlot(t, V, x, RootSlot).RootSlot? then Child(|V|) else root)
  {
    GrowThreaded(t, V, L, R, root, x);
    GrowListing(t, V, x);
    GrowValues(t, V, x);
  }
}
