/**
 The `Expression` handle over reference-counted expression nodes.

 The free store is modelled by maps. `nodes` maps the address of every node ever
 allocated to the node (an `IntNode`, a `UnaryNode` or a `BinaryNode`), its `use_`
 count and whether it has been deleted. `handles` maps every live `Expression` to its
 `p_`. The operand members of unary and binary nodes are `Expression`s too: they are
 ordinary entries of `handles`, created when their node is built and destroyed when it
 is deleted, so a node's `use_` counts the top-level handles and the members of other
 nodes that point at it. `owner` records, for every member handle ever created, the
 node it belongs to.

 Deleting a node runs the destructors of its members, right operand first, which may
 delete further nodes: `Destroy` and `DestroyMembers` call each other. While that
 cascade runs, the nodes whose members are still being destroyed are `pending`.
 */
module ExprHandle {
  import opened RefCount
  import opened ExprTree

  type NodeId = int
  type HandleId = int

  /** A node of the tree; the operands are the `Expression` members, by handle address. */
  datatype Node =
    | IntNode(n: int)
    | UnaryNode(op: string, operand: HandleId)
    | BinaryNode(op: string, left: HandleId, right: HandleId)

  /** A node on the free store: the node, its `use_` count, and whether `delete` has run on it. */
  datatype NodeCell = NodeCell(node: Node, use: int, freed: bool)

  type Nodes = map<NodeId, NodeCell>
  type Handles = map<HandleId, NodeId>

  /** Whether handle `g` is one of the operand members of `node`. */
  predicate IsMember(node: Node, g: HandleId)
  {
    match node
    case IntNode(_) => false
    case UnaryNode(_, x) => g == x
    case BinaryNode(_, l, r) => g == l || g == r
  }

  /** `owner`, once the members of `node`, allocated at `n`, are recorded. */
  function AddMembers(owner: map<HandleId, NodeId>, node: Node, n: NodeId): (r: map<HandleId, NodeId>)
    ensures forall g :: g in r <==> g in owner || IsMember(node, g)
    ensures forall g :: g in r ==> r[g] == if IsMember(node, g) then n else owner[g]
  {
    match node
    case IntNode(_) => owner
    case UnaryNode(_, x) => owner[x := n]
    case BinaryNode(_, l, r) => owner[l := n][r := n]
  }

  /**
   Every live handle points at a live node, and the members of every live node are live
   handles pointing at nodes allocated before it. This is what reading a tree needs.
   */
  ghost predicate Wf(ns: Nodes, hs: Handles)
  {
    && (forall h :: h in hs ==> 0 <= hs[h] && hs[h] in ns && !ns[hs[h]].freed)
    && (forall n, g :: n in ns && !ns[n].freed && IsMember(ns[n].node, g) ==> g in hs && hs[g] < n)
  }

  /** Handle and node addresses are below the next fresh ones, and member handles belong to nodes. */
  ghost predicate Bounded(ns: Nodes, hs: Handles, owner: map<HandleId, NodeId>, nextNode: nat, nextHandle: nat)
  {
    && (forall h :: h in hs ==> h < nextHandle)
    && (forall n :: n in ns ==> 0 <= n < nextNode)
    && (forall g :: g in owner ==> g < nextHandle && owner[g] in ns)
  }

  /** Every node's `use_` is the number of handles pointing at it; it is deleted exactly when that is zero. */
  ghost predicate Counted(ns: Nodes, hs: Handles)
  {
    && (forall n {:trigger Count(hs, n)} :: n in ns ==> ns[n].use == Count(hs, n))
    && (forall n :: n in ns ==> (ns[n].freed <==> ns[n].use == 0))
  }

  /** Each member handle belongs to exactly one node, and a binary node's two members are distinct. */
  ghost predicate Owned(ns: Nodes, owner: map<HandleId, NodeId>)
  {
    && (forall n, g :: n in ns && IsMember(ns[n].node, g) ==> g in owner && owner[g] == n)
    && (forall g :: g in owner ==> owner[g] in ns && IsMember(ns[owner[g]].node, g))
    && (forall n :: n in ns && ns[n].node.BinaryNode? ==> ns[n].node.left != ns[n].node.right)
  }

  /** The members of a deleted node are gone, unless its deletion is still `pending`. */
  ghost predicate Swept(ns: Nodes, hs: Handles, pending: set<NodeId>)
  {
    forall n, g :: n in ns && ns[n].freed && n !in pending && IsMember(ns[n].node, g) ==> g !in hs
  }

  /** The members of a pending node that remain still point at older nodes. */
  ghost predicate PendingOrdered(ns: Nodes, hs: Handles, pending: set<NodeId>)
  {
    forall n, g :: n in pending && n in ns && IsMember(ns[n].node, g) && g in hs ==> hs[g] < n
  }

  /** Pending nodes are deleted nodes whose members may remain; the others have none left. */
  ghost predicate Cleared(ns: Nodes, hs: Handles, pending: set<NodeId>)
  {
    && Swept(ns, hs, pending)
    && (forall n :: n in pending ==> n in ns && ns[n].freed)
    && PendingOrdered(ns, hs, pending)
  }

  /**
   The invariant of the free store: every node's `use_` is the number of handles
   pointing at it, and it is deleted exactly when that number is zero; each member
   handle belongs to exactly one node; and the members of a deleted node are gone,
   except for the nodes whose deletion is still `pending`.
   */
  ghost predicate Inv(ns: Nodes, hs: Handles, owner: map<HandleId, NodeId>, nextNode: nat, nextHandle: nat,
                      pending: set<NodeId>)
  {
    && Wf(ns, hs)
    && Bounded(ns, hs, owner, nextNode, nextHandle)
    && Counted(ns, hs)
    && Owned(ns, owner)
    && Cleared(ns, hs, pending)
  }

  /** `++p_->use_` */
  function Retain(ns: Nodes, n: NodeId): Nodes
    requires n in ns
  {
    ns[n := ns[n].(use := ns[n].use + 1)]
  }

  /** `if (--p_->use_ == 0) delete p_;`, as far as the node itself goes */
  function Release(ns: Nodes, n: NodeId): Nodes
    requires n in ns
  {
    ns[n := if ns[n].use == 1 then ns[n].(use := 0, freed := true) else ns[n].(use := ns[n].use - 1)]
  }

  /** The expression tree that handle `h` stands for. */
  ghost function TreeOf(ns: Nodes, hs: Handles, h: HandleId): Expr
    requires Wf(ns, hs) && h in hs
    decreases hs[h]
  {
    match ns[hs[h]].node
    case IntNode(n) => Const(n)
    case UnaryNode(op, x) => Unary(op, TreeOf(ns, hs, x))
    case BinaryNode(op, l, r) => Binary(op, TreeOf(ns, hs, l), TreeOf(ns, hs, r))
  }

  /** `Expression::eval`, dispatched to `IntNode::eval`, `UnaryNode::eval` or `BinaryNode::eval`. */
  function EvalIn(ns: Nodes, hs: Handles, h: HandleId): Result<int>
    requires Wf(ns, hs) && h in hs
    decreases hs[h]
  {
    match ns[hs[h]].node
    case IntNode(n) => Success(n)
    case UnaryNode(op, x) =>
      if op == "-" then
        match EvalIn(ns, hs, x)
        case Success(v) => Success(-v)
        case Fail(f) => Fail(f)
      else Fail(BadOp(op, UnaryKind))
    case BinaryNode(op, l, r) =>
      match EvalIn(ns, hs, l)
      case Fail(f) => Fail(f)
      case Success(a) =>
        match EvalIn(ns, hs, r)
        case Fail(f) => Fail(f)
        case Success(b) => Apply(op, a, b)
  }

  /** `operator<<` on an `Expression`, dispatched to the `print` of its node. */
  function PrintIn(ns: Nodes, hs: Handles, h: HandleId): string
    requires Wf(ns, hs) && h in hs
    decreases hs[h]
  {
    match ns[hs[h]].node
    case IntNode(n) => IntToString(n)
    case UnaryNode(op, x) => "(" + op + PrintIn(ns, hs, x) + ")"
    case BinaryNode(op, l, r) => "(" + PrintIn(ns, hs, l) + op + PrintIn(ns, hs, r) + ")"
  }

  /** Evaluating through the nodes computes the value of the tree the handle stands for. */
  lemma {:induction false} EvalInIsEval(ns: Nodes, hs: Handles, h: HandleId)
    requires Wf(ns, hs) && h in hs
    ensures EvalIn(ns, hs, h) == Eval(TreeOf(ns, hs, h))
    decreases hs[h]
  {
    match ns[hs[h]].node
    case IntNode(_) =>
    case UnaryNode(_, x) => EvalInIsEval(ns, hs, x);
    case BinaryNode(_, l, r) => EvalInIsEval(ns, hs, l); EvalInIsEval(ns, hs, r);
  }

  /** Printing through the nodes writes the printed form of the tree the handle stands for. */
  lemma {:induction false} PrintInIsPrint(ns: Nodes, hs: Handles, h: HandleId)
    requires Wf(ns, hs) && h in hs
    ensures PrintIn(ns, hs, h) == Print(TreeOf(ns, hs, h))
    decreases hs[h]
  {
    match ns[hs[h]].node
    case IntNode(_) =>
    case UnaryNode(_, x) => PrintInIsPrint(ns, hs, x);
    case BinaryNode(_, l, r) => PrintInIsPrint(ns, hs, l); PrintInIsPrint(ns, hs, r);
  }

  /**
   How one state of the free store follows from an earlier one: nodes are never
   removed from the map nor changed in shape, a deleted node stays deleted, and a
   member of a node that is still alive keeps pointing where it did.
   */
  ghost predicate Frame(ns: Nodes, hs: Handles, ns': Nodes, hs': Handles)
  {
    && (forall n :: n in ns ==> n in ns' && ns'[n].node == ns[n].node && (ns[n].freed ==> ns'[n].freed))
    && (forall n, g :: n in ns && n in ns' && !ns'[n].freed && IsMember(ns[n].node, g) && g in hs && g in hs'
                       ==> hs'[g] == hs[g])
  }

  /** Two steps that each keep the frame keep it together. */
  lemma FrameTrans(ns1: Nodes, hs1: Handles, ns2: Nodes, hs2: Handles, ns3: Nodes, hs3: Handles)
    requires Frame(ns1, hs1, ns2, hs2) && Frame(ns2, hs2, ns3, hs3) && Wf(ns2, hs2)
    ensures Frame(ns1, hs1, ns3, hs3)
  {
    forall n, g | n in ns1 && n in ns3 && !ns3[n].freed && IsMember(ns1[n].node, g) && g in hs1 && g in hs3
      ensures hs3[g] == hs1[g]
    {
      assert n in ns2 && !ns2[n].freed && IsMember(ns2[n].node, g);
    }
  }

  /**
   A tree read in one state is read again in a later one: the frame keeps every node
   it reaches in shape and every member of such a node pointing where it did.
   */
  lemma {:induction false} TreeStable(ns: Nodes, hs: Handles, ns': Nodes, hs': Handles, h: HandleId, h': HandleId)
    requires Wf(ns, hs) && Wf(ns', hs') && Frame(ns, hs, ns', hs')
    requires h in hs && h' in hs' && hs'[h'] == hs[h]
    ensures TreeOf(ns', hs', h') == TreeOf(ns, hs, h)
    decreases hs[h]
  {
    var m := hs[h];
    assert ns'[m].node == ns[m].node && !ns'[m].freed;
    match ns[m].node
    case IntNode(_) =>
    case UnaryNode(_, x) =>
      assert IsMember(ns[m].node, x);
      TreeStable(ns, hs, ns', hs', x, x);
    case BinaryNode(_, l, r) =>
      assert IsMember(ns[m].node, l) && IsMember(ns[m].node, r);
      TreeStable(ns, hs, ns', hs', l, l);
      TreeStable(ns, hs, ns', hs', r, r);
  }

  /** Attaching a new handle `k` to the live node `t`, and counting it, keeps the counts right. */
  lemma RetainCounted(ns: Nodes, hs: Handles, k: HandleId, t: NodeId)
    requires Counted(ns, hs) && t in ns && !ns[t].freed && k !in hs
    ensures Counted(Retain(ns, t), hs[k := t])
  {
    assert ns[t].use == Count(hs, t);
    forall n | n in ns
      ensures Retain(ns, t)[n].use == Count(hs[k := t], n)
    {
      CountInsert(hs, k, t, n);
    }
  }

  /** Dropping handle `k` and its unit of count keeps the counts right; the node is deleted at zero. */
  lemma ReleaseCounted(ns: Nodes, hs: Handles, k: HandleId)
    requires Counted(ns, hs) && k in hs && hs[k] in ns
    ensures Counted(Release(ns, hs[k]), hs - {k})
  {
    CountPositive(hs, k);
    forall n | n in ns
      ensures Release(ns, hs[k])[n].use == Count(hs - {k}, n)
    {
      CountRemove(hs, k, n);
    }
  }

  /** Redirecting handle `k` to the live node `t`, retaining `t` before releasing the old node. */
  lemma MoveCounted(ns: Nodes, hs: Handles, k: HandleId, t: NodeId)
    requires Counted(ns, hs) && k in hs && hs[k] in ns && t in ns && !ns[t].freed
    ensures Counted(Release(Retain(ns, t), hs[k]), hs[k := t])
  {
    assert ns[t].use == Count(hs, t) && ns[hs[k]].use == Count(hs, hs[k]);
    CountPositive(hs, k);
    forall n | n in ns
      ensures Release(Retain(ns, t), hs[k])[n].use == Count(hs[k := t], n)
    {
      CountUpdate(hs, k, t, n);
    }
  }

  /** A new node at the fresh address `t` with one handle `k` on it keeps the counts right. */
  lemma AllocCounted(ns: Nodes, hs: Handles, k: HandleId, t: NodeId, node: Node)
    requires Counted(ns, hs) && k !in hs && t !in ns && forall h :: h in hs ==> hs[h] in ns
    ensures Counted(ns[t := NodeCell(node, 1, false)], hs[k := t])
  {
    forall h | h in hs
      ensures hs[h] != t
    {
      var m := hs[h];
      assert m in ns;
    }
    CountZero(hs, t);
    forall n | n in ns || n == t
      ensures ns[t := NodeCell(node, 1, false)][n].use == Count(hs[k := t], n)
    {
      CountInsert(hs, k, t, n);
      if n == t {
        assert Count(hs, t) == 0;
      } else {
        assert ns[n].use == Count(hs, n);
      }
    }
  }

  /** A new handle `k` on the live node `t` keeps every tree readable. */
  lemma CopyWf(ns: Nodes, hs: Handles, k: HandleId, t: NodeId)
    requires Wf(ns, hs) && t in ns && 0 <= t && !ns[t].freed && k !in hs
    ensures Wf(Retain(ns, t), hs[k := t])
  {
  }

  /** A new handle `k` that is nobody's member leaves the members of deleted nodes gone. */
  lemma CopyCleared(ns: Nodes, hs: Handles, owner: map<HandleId, NodeId>, pending: set<NodeId>, k: HandleId, t: NodeId)
    requires Cleared(ns, hs, pending) && Owned(ns, owner) && k !in owner && t in ns
    ensures Cleared(Retain(ns, t), hs[k := t], pending)
  {
  }

  /** Counting one more handle on a node changes no node's members. */
  lemma RetainOwned(ns: Nodes, owner: map<HandleId, NodeId>, t: NodeId)
    requires Owned(ns, owner) && t in ns
    ensures Owned(Retain(ns, t), owner)
  {
  }

  /** Counting one more handle on a node and adding a fresh handle are within the frame. */
  lemma RetainFrame(ns: Nodes, hs: Handles, k: HandleId, t: NodeId)
    requires t in ns && k !in hs
    ensures Frame(ns, hs, Retain(ns, t), hs[k := t])
  {
  }

  /** `Expression(const Expression&)` on `h`: a new handle on its node, whose count goes up by one. */
  lemma {:induction false} CopyPreserves(ns: Nodes, hs: Handles, owner: map<HandleId, NodeId>, nextNode: nat,
                                         nextHandle: nat, pending: set<NodeId>, h: HandleId,
                                         ns': Nodes, hs': Handles, nextHandle': nat)
    requires Inv(ns, hs, owner, nextNode, nextHandle, pending) && h in hs
    requires ns' == Retain(ns, hs[h]) && hs' == hs[nextHandle := hs[h]] && nextHandle' == nextHandle + 1
    ensures nextHandle !in hs && nextHandle !in owner
    ensures Inv(ns', hs', owner, nextNode, nextHandle', pending)
    ensures Frame(ns, hs, ns', hs')
  {
    RetainCounted(ns, hs, nextHandle, hs[h]);
    CopyWf(ns, hs, nextHandle, hs[h]);
    CopyCleared(ns, hs, owner, pending, nextHandle, hs[h]);
    RetainFrame(ns, hs, nextHandle, hs[h]);
    RetainOwned(ns, owner, hs[h]);
    assert Bounded(Retain(ns, hs[h]), hs[nextHandle := hs[h]], owner, nextNode, nextHandle + 1);
  }

  /** The node shapes of `ns'` are those of `ns`: only counts and deletion flags differ. */
  ghost predicate SameShapes(ns: Nodes, ns': Nodes)
  {
    && (forall n :: n in ns ==> n in ns')
    && (forall n :: n in ns' ==> n in ns)
    && (forall n :: n in ns ==> ns'[n].node == ns[n].node)
  }

  /** Changing counts and deletion flags keeps every node's members where they belong. */
  lemma ShapesOwned(ns: Nodes, ns': Nodes, owner: map<HandleId, NodeId>)
    requires Owned(ns, owner) && SameShapes(ns, ns')
    ensures Owned(ns', owner)
  {
    forall g | g in owner
      ensures owner[g] in ns' && IsMember(ns'[owner[g]].node, g)
    {
      var n := owner[g];
      assert n in ns && IsMember(ns[n].node, g);
    }
  }

  /** Changing counts and deletion flags, and dropping handles, keeps every address in bounds. */
  lemma ShapesBounded(ns: Nodes, hs: Handles, ns': Nodes, hs': Handles, owner: map<HandleId, NodeId>,
                      nextNode: nat, nextHandle: nat)
    requires Bounded(ns, hs, owner, nextNode, nextHandle) && SameShapes(ns, ns')
    requires forall h :: h in hs' ==> h in hs
    ensures Bounded(ns', hs', owner, nextNode, nextHandle)
  {
    forall g | g in owner
      ensures owner[g] in ns'
    {
      var n := owner[g];
      assert n in ns;
    }
  }

  /** The operands of `node` are live handles that belong to no node yet, and distinct. */
  ghost predicate Attachable(node: Node, hs: Handles, owner: map<HandleId, NodeId>)
  {
    match node
    case IntNode(_) => true
    case UnaryNode(_, x) => x in hs && x !in owner
    case BinaryNode(_, l, r) => l in hs && l !in owner && r in hs && r !in owner && l != r
  }

  /** `Attachable` says of every member what allocating the node needs. */
  lemma AttachableMembers(node: Node, hs: Handles, owner: map<HandleId, NodeId>)
    requires Attachable(node, hs, owner)
    ensures forall g :: IsMember(node, g) ==> g in hs && g !in owner
    ensures node.BinaryNode? ==> node.left != node.right
  {
  }

  /** A fresh node at `t` whose members are live handles that belong to no node yet. */
  lemma AllocWf(ns: Nodes, hs: Handles, k: HandleId, t: NodeId, node: Node)
    requires Wf(ns, hs) && k !in hs && t !in ns && 0 <= t && (forall n :: n in ns ==> n < t)
    requires forall g :: IsMember(node, g) ==> g in hs
    ensures Wf(ns[t := NodeCell(node, 1, false)], hs[k := t])
  {
  }

  /** Recording the members of the fresh node at `t` keeps ownership unique. */
  lemma AllocOwned(ns: Nodes, owner: map<HandleId, NodeId>, t: NodeId, node: Node)
    requires Owned(ns, owner) && t !in ns
    requires forall g :: IsMember(node, g) ==> g !in owner
    requires node.BinaryNode? ==> node.left != node.right
    ensures Owned(ns[t := NodeCell(node, 1, false)], AddMembers(owner, node, t))
  {
  }

  /** A fresh live node and a fresh top-level handle leave the members of deleted nodes gone. */
  lemma AllocCleared(ns: Nodes, hs: Handles, owner: map<HandleId, NodeId>, pending: set<NodeId>, k: HandleId,
                     t: NodeId, node: Node)
    requires Cleared(ns, hs, pending) && Owned(ns, owner) && t !in ns && k !in owner && k !in hs
    ensures Cleared(ns[t := NodeCell(node, 1, false)], hs[k := t], pending)
  {
  }

  /** The fresh node and handle take the next addresses, and the new members are live handles. */
  lemma AllocBounded(ns: Nodes, hs: Handles, owner: map<HandleId, NodeId>, nextNode: nat, nextHandle: nat,
                     node: Node)
    requires Bounded(ns, hs, owner, nextNode, nextHandle)
    requires forall g :: IsMember(node, g) ==> g in hs
    ensures Bounded(ns[nextNode := NodeCell(node, 1, false)], hs[nextHandle := nextNode],
                    AddMembers(owner, node, nextNode), nextNode + 1, nextHandle + 1)
  {
  }

  /** Allocating a node and a handle on it is within the frame. */
  lemma AllocFrame(ns: Nodes, hs: Handles, k: HandleId, t: NodeId, node: Node)
    requires t !in ns && k !in hs
    ensures Frame(ns, hs, ns[t := NodeCell(node, 1, false)], hs[k := t])
  {
  }

  /**
   `new IntNode(n)`, `new UnaryNode(op, e)` or `new BinaryNode(op, l, r)` stored in a new
   `Expression`: the node starts with a `use_` of one, its members are the copies of the
   operands (live handles that belong to no node yet, distinct from each other).
   */
  lemma {:induction false} NodePreserves(ns: Nodes, hs: Handles, owner: map<HandleId, NodeId>, nextNode: nat,
                                         nextHandle: nat, pending: set<NodeId>, node: Node,
                                         ns': Nodes, hs': Handles, owner': map<HandleId, NodeId>,
                                         nextNode': nat, nextHandle': nat)
    requires Inv(ns, hs, owner, nextNode, nextHandle, pending) && Attachable(node, hs, owner)
    requires ns' == ns[nextNode := NodeCell(node, 1, false)] && hs' == hs[nextHandle := nextNode]
    requires owner' == AddMembers(owner, node, nextNode) && nextNode' == nextNode + 1 && nextHandle' == nextHandle + 1
    ensures nextNode !in ns && nextHandle !in hs && nextHandle !in owner
    ensures Inv(ns', hs', owner', nextNode', nextHandle', pending)
    ensures Frame(ns, hs, ns', hs')
  {
    AttachableMembers(node, hs, owner);
    AllocWf(ns, hs, nextHandle, nextNode, node);
    AllocCounted(ns, hs, nextHandle, nextNode, node);
    AllocOwned(ns, owner, nextNode, node);
    AllocCleared(ns, hs, owner, pending, nextHandle, nextNode, node);
    AllocFrame(ns, hs, nextHandle, nextNode, node);
    AllocBounded(ns, hs, owner, nextNode, nextHandle, node);
  }

  /** Handle `g` is not a member of a live node: it is top-level, or its node has been deleted. */
  ghost predicate DetachedIn(ns: Nodes, owner: map<HandleId, NodeId>, g: HandleId)
  {
    g !in owner || (owner[g] in ns && ns[owner[g]].freed)
  }

  /** Dropping a handle that is no live node's member keeps every remaining tree readable. */
  lemma DropWf(ns: Nodes, hs: Handles, owner: map<HandleId, NodeId>, h: HandleId)
    requires Wf(ns, hs) && Counted(ns, hs) && Owned(ns, owner) && h in hs
    requires DetachedIn(ns, owner, h)
    ensures Wf(Release(ns, hs[h]), hs - {h})
  {
    if ns[hs[h]].use == 1 {
      CountOne(hs, h);
    }
  }

  /** The members of the node a handle points at are live handles other than it, when it is no live member. */
  lemma ReleasedMembers(ns: Nodes, hs: Handles, owner: map<HandleId, NodeId>, h: HandleId)
    requires Wf(ns, hs) && Owned(ns, owner) && h in hs
    requires DetachedIn(ns, owner, h)
    ensures forall g :: IsMember(ns[hs[h]].node, g) ==> g in hs - {h}
  {
  }

  /** Dropping a handle: a node whose count reaches zero becomes pending. */
  lemma DropCleared(ns: Nodes, hs: Handles, pending: set<NodeId>, h: HandleId)
    requires Wf(ns, hs) && Cleared(ns, hs, pending) && h in hs
    ensures hs[h] !in pending
    ensures Cleared(Release(ns, hs[h]), hs - {h},
                    if Release(ns, hs[h])[hs[h]].freed then pending + {hs[h]} else pending)
  {
  }

  /** Releasing a node and dropping a handle is within the frame. */
  lemma DropFrame(ns: Nodes, hs: Handles, h: HandleId)
    requires h in hs && hs[h] in ns
    ensures Frame(ns, hs, Release(ns, hs[h]), hs - {h})
    ensures SameShapes(ns, Release(ns, hs[h]))
  {
  }

  /**
   The first half of `~Expression()` on `h`: `--p_->use_`, and `delete p_` when it reaches
   zero, which makes the node pending until the destructors of its members have run. The
   handle must not be a member of a live node (members die with their node).
   */
  lemma {:induction false} DropPreserves(ns: Nodes, hs: Handles, owner: map<HandleId, NodeId>, nextNode: nat,
                                         nextHandle: nat, pending: set<NodeId>, h: HandleId,
                                         ns': Nodes, hs': Handles, pending': set<NodeId>)
    requires Inv(ns, hs, owner, nextNode, nextHandle, pending) && h in hs
    requires DetachedIn(ns, owner, h)
    requires ns' == Release(ns, hs[h]) && hs' == hs - {h}
    requires pending' == if ns'[hs[h]].freed then pending + {hs[h]} else pending
    ensures hs[h] in ns && hs[h] !in pending
    ensures Inv(ns', hs', owner, nextNode, nextHandle, pending')
    ensures Frame(ns, hs, ns', hs')
    ensures ns'[hs[h]].freed ==> forall g :: IsMember(ns[hs[h]].node, g) ==> g in hs'
  {
    DropWf(ns, hs, owner, h);
    ReleasedMembers(ns, hs, owner, h);
    ReleaseCounted(ns, hs, h);
    DropFrame(ns, hs, h);
    ShapesOwned(ns, Release(ns, hs[h]), owner);
    DropCleared(ns, hs, pending, h);
    ShapesBounded(ns, hs, Release(ns, hs[h]), hs - {h}, owner, nextNode, nextHandle);
  }

  /** The end of `delete` on the pending node `n`: its members are gone, so it is no longer pending. */
  lemma RetirePreserves(ns: Nodes, hs: Handles, owner: map<HandleId, NodeId>, nextNode: nat,
                        nextHandle: nat, pending: set<NodeId>, n: NodeId)
    requires Inv(ns, hs, owner, nextNode, nextHandle, pending + {n}) && n !in pending && n in ns
    requires forall g :: IsMember(ns[n].node, g) ==> g !in hs
    ensures Inv(ns, hs, owner, nextNode, nextHandle, pending)
  {
  }

  /** Redirecting the top-level handle `self` to the live node `t` keeps every tree readable. */
  lemma MoveWf(ns: Nodes, hs: Handles, owner: map<HandleId, NodeId>, self: HandleId, t: NodeId)
    requires Wf(ns, hs) && Counted(ns, hs) && Owned(ns, owner) && self in hs && self !in owner
    requires t in ns && 0 <= t && !ns[t].freed
    ensures Wf(Release(Retain(ns, t), hs[self]), hs[self := t])
  {
    assert ns[hs[self]].use == Count(hs, hs[self]);
    if hs[self] != t && ns[hs[self]].use == 1 {
      CountOne(hs, self);
    }
  }

  /** The members of the node a top-level handle leaves are live handles that stay. */
  lemma MoveMembers(ns: Nodes, hs: Handles, owner: map<HandleId, NodeId>, self: HandleId, t: NodeId)
    requires Wf(ns, hs) && Owned(ns, owner) && self in hs && self !in owner
    ensures forall g :: IsMember(ns[hs[self]].node, g) ==> g in hs[self := t]
  {
  }

  /** Redirecting a top-level handle: its old node becomes pending if its count reaches zero. */
  lemma MoveCleared(ns: Nodes, hs: Handles, owner: map<HandleId, NodeId>, pending: set<NodeId>,
                    self: HandleId, t: NodeId)
    requires Wf(ns, hs) && Cleared(ns, hs, pending) && Owned(ns, owner) && self in hs && self !in owner
    requires t in ns
    ensures hs[self] !in pending
    ensures Cleared(Release(Retain(ns, t), hs[self]), hs[self := t],
                    if Release(Retain(ns, t), hs[self])[hs[self]].freed then pending + {hs[self]} else pending)
  {
    MoveSwept(ns, hs, pending, self, t);
    MoveOrdered(ns, hs, owner, pending, self, t);
  }

  /** Redirecting a handle from a live node keeps the members of deleted nodes gone. */
  lemma MoveSwept(ns: Nodes, hs: Handles, pending: set<NodeId>, self: HandleId, t: NodeId)
    requires Swept(ns, hs, pending) && self in hs && hs[self] in ns && !ns[hs[self]].freed && t in ns
    ensures Swept(Release(Retain(ns, t), hs[self]), hs[self := t],
                  if Release(Retain(ns, t), hs[self])[hs[self]].freed then pending + {hs[self]} else pending)
  {
  }

  /** Redirecting a handle that is nobody's member leaves the remaining members of pending nodes alone. */
  lemma MoveOrdered(ns: Nodes, hs: Handles, owner: map<HandleId, NodeId>, pending: set<NodeId>,
                    self: HandleId, t: NodeId)
    requires PendingOrdered(ns, hs, pending) && Owned(ns, owner) && Wf(ns, hs) && self in hs && self !in owner
    requires forall n :: n in pending ==> n in ns && ns[n].freed
    requires t in ns
    ensures PendingOrdered(Release(Retain(ns, t), hs[self]), hs[self := t],
                           if Release(Retain(ns, t), hs[self])[hs[self]].freed then pending + {hs[self]} else pending)
  {
  }

  /** Redirecting a handle that is nobody's member is within the frame. */
  lemma MoveFrame(ns: Nodes, hs: Handles, owner: map<HandleId, NodeId>, self: HandleId, t: NodeId)
    requires Owned(ns, owner) && self in hs && self !in owner && hs[self] in ns && t in ns
    ensures Frame(ns, hs, Release(Retain(ns, t), hs[self]), hs[self := t])
    ensures SameShapes(ns, Release(Retain(ns, t), hs[self]))
  {
  }

  /**
   `Expression::operator=` on the top-level handle `self` from `other`: `++e.p_->use_`,
   then `--p_->use_` with `delete p_` at zero, then `p_ = e.p_`. Retaining first makes
   self-assignment safe: the node's count never reaches zero on the way.
   */
  lemma {:induction false} AssignPreserves(ns: Nodes, hs: Handles, owner: map<HandleId, NodeId>, nextNode: nat,
                                           nextHandle: nat, pending: set<NodeId>, self: HandleId, other: HandleId,
                                           ns': Nodes, hs': Handles, pending': set<NodeId>)
    requires Inv(ns, hs, owner, nextNode, nextHandle, pending) && self in hs && other in hs && self !in owner
    requires ns' == Release(Retain(ns, hs[other]), hs[self]) && hs' == hs[self := hs[other]]
    requires pending' == if ns'[hs[self]].freed then pending + {hs[self]} else pending
    ensures hs[self] in ns && hs[other] in ns && hs[self] !in pending
    ensures Inv(ns', hs', owner, nextNode, nextHandle, pending')
    ensures Frame(ns, hs, ns', hs')
    ensures ns'[hs[self]].freed ==> hs[self] != hs[other] && forall g :: IsMember(ns[hs[self]].node, g) ==> g in hs'
  {
    MoveWf(ns, hs, owner, self, hs[other]);
    MoveMembers(ns, hs, owner, self, hs[other]);
    MoveCounted(ns, hs, self, hs[other]);
    MoveFrame(ns, hs, owner, self, hs[other]);
    ShapesOwned(ns, Release(Retain(ns, hs[other]), hs[self]), owner);
    MoveCleared(ns, hs, owner, pending, self, hs[other]);
    ShapesBounded(ns, hs, Release(Retain(ns, hs[other]), hs[self]), hs[self := hs[other]], owner, nextNode, nextHandle);
  }

  /** The members of a pending node belong to it, and those that remain point at older nodes. */
  lemma PendingMembers(ns: Nodes, hs: Handles, owner: map<HandleId, NodeId>, nextNode: nat, nextHandle: nat,
                       pending: set<NodeId>, n: NodeId)
    requires Inv(ns, hs, owner, nextNode, nextHandle, pending) && n in pending
    ensures n in ns && ns[n].freed
    ensures forall g :: IsMember(ns[n].node, g) ==> g in owner && owner[g] == n && (g in hs ==> hs[g] < n)
  {
  }

  /**
   Once no top-level `Expression` is left, every node has been deleted: a live node would
   be pointed at by a member of a live node allocated after it, and so on without end.
   */
  lemma NoLeak(ns: Nodes, hs: Handles, owner: map<HandleId, NodeId>, nextNode: nat, nextHandle: nat)
    requires Inv(ns, hs, owner, nextNode, nextHandle, {})
    requires forall g :: g in hs ==> g in owner
    ensures forall n :: n in ns ==> ns[n].freed
  {
    forall g | g in hs
      ensures owner[g] in ns && !ns[owner[g]].freed && hs[g] < owner[g]
    {
      MemberOfLive(ns, hs, owner, g);
    }
    DeadFrom(ns, hs, owner, nextNode, 0);
  }

  /** With nothing pending, a live member handle belongs to a live node allocated after its target. */
  lemma MemberOfLive(ns: Nodes, hs: Handles, owner: map<HandleId, NodeId>, g: HandleId)
    requires Wf(ns, hs) && Owned(ns, owner) && Swept(ns, hs, {}) && g in hs && g in owner
    ensures owner[g] in ns && !ns[owner[g]].freed && hs[g] < owner[g]
  {
    var n := owner[g];
    assert n in ns && IsMember(ns[n].node, g);
  }

  /** The induction behind `NoLeak`, downwards from the next fresh node address. */
  lemma {:induction false} DeadFrom(ns: Nodes, hs: Handles, owner: map<HandleId, NodeId>, nextNode: nat, k: nat)
    requires Counted(ns, hs) && forall n :: n in ns ==> n < nextNode
    requires forall g :: g in hs ==> g in owner && owner[g] in ns && !ns[owner[g]].freed && hs[g] < owner[g]
    ensures forall n :: n in ns && n >= k ==> ns[n].freed
    decreases nextNode - k
  {
    if k < nextNode {
      DeadFrom(ns, hs, owner, nextNode, k + 1);
      if k in ns {
        CountZero(hs, k);
      }
    }
  }

  /** A state of the free store. */
  datatype Store = Store(nodes: Nodes, handles: Handles)

  /** Handle `g` is live and points at a node allocated before node `n`. */
  ghost predicate Below(ns: Nodes, hs: Handles, g: HandleId, n: NodeId)
  {
    g in hs && hs[g] in ns && 0 <= hs[g] < n
  }

  /**
   `~Expression()` on `h`, as a function of the store: `--p_->use_`, and when that
   reaches zero `delete p_`, which runs the destructors of the node's members.
   */
  ghost function Drop(ns: Nodes, hs: Handles, h: HandleId): Store
    requires h in hs && hs[h] in ns && 0 <= hs[h]
    decreases hs[h], 1
  {
    var t := hs[h];
    var ns' := Release(ns, t);
    if ns'[t].freed then DropMembers(ns', hs - {h}, t) else Store(ns', hs - {h})
  }

  /**
   The member destructors run by `delete` on the node at `n`: the right operand of a
   binary node before the left one. A member that is gone or does not point at an
   older node is left alone; the invariant rules both out.
   */
  ghost function DropMembers(ns: Nodes, hs: Handles, n: NodeId): Store
    requires n in ns && 0 <= n
    decreases n, 0
  {
    match ns[n].node
    case IntNode(_) => Store(ns, hs)
    case UnaryNode(_, x) => if Below(ns, hs, x, n) then Drop(ns, hs, x) else Store(ns, hs)
    case BinaryNode(_, l, r) =>
      var s := if Below(ns, hs, r, n) then Drop(ns, hs, r) else Store(ns, hs);
      if Below(s.nodes, s.handles, l, n) then Drop(s.nodes, s.handles, l) else s
  }

  /**
   `Expression::operator=` on `self` from `other`, as a function of the store:
   `++e.p_->use_`, then `--p_->use_` and `delete p_` at zero, then `p_ = e.p_`.
   */
  ghost function Reassign(ns: Nodes, hs: Handles, self: HandleId, other: HandleId): Store
    requires self in hs && other in hs && hs[self] in ns && hs[other] in ns && 0 <= hs[self]
  {
    var t := hs[self];
    var ns' := Release(Retain(ns, hs[other]), t);
    var hs' := hs[self := hs[other]];
    if ns'[t].freed then DropMembers(ns', hs', t) else Store(ns', hs')
  }

  /** Assignment away from a node that another handle still uses deletes nothing. */
  lemma ReassignShared(ns: Nodes, hs: Handles, self: HandleId, other: HandleId)
    requires self in hs && other in hs && hs[self] in ns && hs[other] in ns && 0 <= hs[self]
    requires hs[self] != hs[other] && !ns[hs[self]].freed && ns[hs[self]].use >= 2
    ensures Reassign(ns, hs, self, other) ==
              Store(Release(Retain(ns, hs[other]), hs[self]), hs[self := hs[other]])
  {
  }

  /** Destroying a handle on a node that another handle still uses deletes nothing. */
  lemma DropShared(ns: Nodes, hs: Handles, h: HandleId)
    requires h in hs && hs[h] in ns && 0 <= hs[h] && !ns[hs[h]].freed && ns[hs[h]].use >= 2
    ensures Drop(ns, hs, h) == Store(Release(ns, hs[h]), hs - {h})
  {
  }

  /** The handles of `hs'` are handles of `hs`, pointing where they did. */
  ghost predicate Shrinks(hs: Handles, hs': Handles)
  {
    forall g :: g in hs' ==> g in hs && hs'[g] == hs[g]
  }

  /** The nodes of `ns'` are those of `ns`, in the same shapes, and a deleted node stays deleted. */
  ghost predicate Later(ns: Nodes, ns': Nodes)
  {
    SameShapes(ns, ns') && forall n :: n in ns && ns[n].freed ==> ns'[n].freed
  }

  /** Lowering a count and dropping a handle only shrink the handles and age the nodes. */
  lemma ReleaseLater(ns: Nodes, t: NodeId)
    requires t in ns
    ensures Later(ns, Release(ns, t))
  {
  }

  /** Counting a handle more on one node and one less on another only ages the nodes. */
  lemma MoveLater(ns: Nodes, o: NodeId, t: NodeId)
    requires o in ns && t in ns
    ensures Later(ns, Release(Retain(ns, o), t))
  {
  }

  /** A handle that is no live node's member stays so as the nodes age. */
  lemma DetachedAges(ns: Nodes, ns': Nodes, owner: map<HandleId, NodeId>, g: HandleId)
    requires Later(ns, ns') && DetachedIn(ns, owner, g)
    ensures DetachedIn(ns', owner, g)
  {
    if g in owner {
      var m := owner[g];
      assert m in ns && ns[m].freed;
    }
  }

  /**
   A handle that is no live node's member stays so as the nodes age, and it is not a
   member of the live node `t`.
   */
  lemma DetachedLater(ns: Nodes, ns': Nodes, owner: map<HandleId, NodeId>, t: NodeId, g: HandleId)
    requires Owned(ns, owner) && Later(ns, ns') && t in ns && !ns[t].freed && DetachedIn(ns, owner, g)
    ensures DetachedIn(ns', owner, g) && !IsMember(ns'[t].node, g)
  {
    assert ns'[t].node == ns[t].node;
    if g in owner {
      var m := owner[g];
      assert m in ns && ns[m].freed;
      assert m in ns' && ns'[m].freed;
      assert m != t;
    }
  }

  /** Destroying a handle only removes handles, it among them, and only ages the nodes. */
  lemma {:induction false} DropShape(ns: Nodes, hs: Handles, h: HandleId)
    requires h in hs && hs[h] in ns && 0 <= hs[h]
    ensures Shrinks(hs, Drop(ns, hs, h).handles) && h !in Drop(ns, hs, h).handles
    ensures Later(ns, Drop(ns, hs, h).nodes)
    decreases hs[h], 1
  {
    var t := hs[h];
    ReleaseLater(ns, t);
    if Release(ns, t)[t].freed {
      MembersShape(Release(ns, t), hs - {h}, t);
    }
  }

  /** Destroying the members of a node only removes handles and only ages the nodes. */
  lemma {:induction false} MembersShape(ns: Nodes, hs: Handles, n: NodeId)
    requires n in ns && 0 <= n
    ensures Shrinks(hs, DropMembers(ns, hs, n).handles) && Later(ns, DropMembers(ns, hs, n).nodes)
    decreases n, 0
  {
    match ns[n].node
    case IntNode(_) =>
    case UnaryNode(_, x) =>
      if Below(ns, hs, x, n) {
        DropShape(ns, hs, x);
      }
    case BinaryNode(_, l, r) =>
      var s := if Below(ns, hs, r, n) then Drop(ns, hs, r) else Store(ns, hs);
      if Below(ns, hs, r, n) {
        DropShape(ns, hs, r);
      }
      if Below(s.nodes, s.handles, l, n) {
        DropShape(s.nodes, s.handles, l);
      }
  }

  /** Shrinking the handles and ageing the nodes is within the frame. */
  lemma ShrinkFrame(ns: Nodes, hs: Handles, ns': Nodes, hs': Handles)
    requires Shrinks(hs, hs') && Later(ns, ns')
    ensures Frame(ns, hs, ns', hs')
  {
  }

  /**
   Destroying a handle that is no live node's member keeps the invariant, and destroys
   no other handle that is no live node's member.
   */
  lemma {:induction false} DropInv(ns: Nodes, hs: Handles, owner: map<HandleId, NodeId>, nextNode: nat,
                                   nextHandle: nat, pending: set<NodeId>, h: HandleId)
    requires Inv(ns, hs, owner, nextNode, nextHandle, pending) && h in hs && DetachedIn(ns, owner, h)
    ensures hs[h] in ns && 0 <= hs[h]
    ensures Inv(Drop(ns, hs, h).nodes, Drop(ns, hs, h).handles, owner, nextNode, nextHandle, pending)
    ensures forall g :: g in hs && g != h && DetachedIn(ns, owner, g) ==> g in Drop(ns, hs, h).handles
    decreases hs[h], 1
  {
    var t := hs[h];
    var ns1, hs1 := Release(ns, t), hs - {h};
    if ns1[t].freed {
      DropPreserves(ns, hs, owner, nextNode, nextHandle, pending, h, ns1, hs1, pending + {t});
      MembersInv(ns1, hs1, owner, nextNode, nextHandle, pending, t);
      ReleaseLater(ns, t);
      forall g | g in hs && g != h && DetachedIn(ns, owner, g)
        ensures g in hs1 && DetachedIn(ns1, owner, g) && !IsMember(ns1[t].node, g)
      {
        DetachedLater(ns, ns1, owner, t, g);
      }
    } else {
      DropPreserves(ns, hs, owner, nextNode, nextHandle, pending, h, ns1, hs1, pending);
    }
  }

  /**
   Destroying the members of the pending node `n` ends its deletion: the invariant
   holds without it, its members are gone, and so is no other handle that is no live
   node's member.
   */
  lemma {:induction false} MembersInv(ns: Nodes, hs: Handles, owner: map<HandleId, NodeId>, nextNode: nat,
                                      nextHandle: nat, pending: set<NodeId>, n: NodeId)
    requires Inv(ns, hs, owner, nextNode, nextHandle, pending + {n}) && n !in pending
    requires forall g :: IsMember(ns[n].node, g) ==> g in hs
    ensures n in ns && 0 <= n
    ensures Inv(DropMembers(ns, hs, n).nodes, DropMembers(ns, hs, n).handles, owner, nextNode, nextHandle, pending)
    ensures forall g :: IsMember(ns[n].node, g) ==> g !in DropMembers(ns, hs, n).handles
    ensures forall g :: g in hs && DetachedIn(ns, owner, g) && !IsMember(ns[n].node, g)
                        ==> g in DropMembers(ns, hs, n).handles
    decreases n, 0
  {
    PendingMembers(ns, hs, owner, nextNode, nextHandle, pending + {n}, n);
    var r := DropMembers(ns, hs, n);
    match ns[n].node
    case IntNode(_) =>
      RetirePreserves(ns, hs, owner, nextNode, nextHandle, pending, n);
    case UnaryNode(_, x) =>
      DropInv(ns, hs, owner, nextNode, nextHandle, pending + {n}, x);
      DropShape(ns, hs, x);
      RetirePreserves(r.nodes, r.handles, owner, nextNode, nextHandle, pending, n);
    case BinaryNode(_, left, right) =>
      MembersBinary(ns, hs, owner, nextNode, nextHandle, pending, n, left, right);
  }

  /**
   How `delete` on the pending binary node `n` proceeds: the right member is destroyed
   first, the left member survives it with its target, and is destroyed next.
   */
  lemma BinarySteps(ns: Nodes, hs: Handles, owner: map<HandleId, NodeId>, nextNode: nat,
                    nextHandle: nat, pending: set<NodeId>, n: NodeId, left: HandleId, right: HandleId)
    requires Inv(ns, hs, owner, nextNode, nextHandle, pending + {n}) && n !in pending
    requires n in ns && 0 <= n && ns[n].node.BinaryNode? && ns[n].node.left == left && ns[n].node.right == right
    requires left in hs && right in hs
    ensures Below(ns, hs, right, n) && DetachedIn(ns, owner, right)
    ensures left in Drop(ns, hs, right).handles && DetachedIn(Drop(ns, hs, right).nodes, owner, left)
    ensures Below(Drop(ns, hs, right).nodes, Drop(ns, hs, right).handles, left, n)
    ensures DropMembers(ns, hs, n) == Drop(Drop(ns, hs, right).nodes, Drop(ns, hs, right).handles, left)
    decreases n, 0, 0
  {
    PendingMembers(ns, hs, owner, nextNode, nextHandle, pending + {n}, n);
    DropInv(ns, hs, owner, nextNode, nextHandle, pending + {n}, right);
    DropShape(ns, hs, right);
    var s1 := Drop(ns, hs, right);
    assert left in s1.handles && s1.handles[left] == hs[left];
    assert DetachedIn(s1.nodes, owner, left);
  }

  /** The binary case of `MembersInv`: the right member's destructor, then the left one's. */
  lemma {:induction false} MembersBinary(ns: Nodes, hs: Handles, owner: map<HandleId, NodeId>, nextNode: nat,
                                         nextHandle: nat, pending: set<NodeId>, n: NodeId,
                                         left: HandleId, right: HandleId)
    requires Inv(ns, hs, owner, nextNode, nextHandle, pending + {n}) && n !in pending
    requires n in ns && 0 <= n && ns[n].node.BinaryNode? && ns[n].node.left == left && ns[n].node.right == right
    requires left in hs && right in hs
    ensures Inv(DropMembers(ns, hs, n).nodes, DropMembers(ns, hs, n).handles, owner, nextNode, nextHandle, pending)
    ensures left !in DropMembers(ns, hs, n).handles && right !in DropMembers(ns, hs, n).handles
    ensures forall g :: g in hs && DetachedIn(ns, owner, g) && g != left && g != right
                        ==> g in DropMembers(ns, hs, n).handles
    decreases n, 0, 1
  {
    BinarySteps(ns, hs, owner, nextNode, nextHandle, pending, n, left, right);
    var s1 := Drop(ns, hs, right);
    DropInv(ns, hs, owner, nextNode, nextHandle, pending + {n}, right);
    DropShape(ns, hs, right);
    var s2 := Drop(s1.nodes, s1.handles, left);
    DropInv(s1.nodes, s1.handles, owner, nextNode, nextHandle, pending + {n}, left);
    DropShape(s1.nodes, s1.handles, left);
    assert left !in s2.handles && right !in s2.handles;
    assert s2.nodes[n].node == ns[n].node;
    RetirePreserves(s2.nodes, s2.handles, owner, nextNode, nextHandle, pending, n);
    forall g | g in hs && DetachedIn(ns, owner, g) && g != left && g != right
      ensures g in s2.handles
    {
      DetachedAges(ns, s1.nodes, owner, g);
    }
  }

  /** A handle that is no live node's member, other than `h`, survives destroying `h` with its tree. */
  lemma DropKeepsTree(ns: Nodes, hs: Handles, owner: map<HandleId, NodeId>, nextNode: nat,
                      nextHandle: nat, h: HandleId, g: HandleId)
    requires Inv(ns, hs, owner, nextNode, nextHandle, {}) && h in hs && DetachedIn(ns, owner, h)
    requires g in hs && g != h && DetachedIn(ns, owner, g)
    ensures hs[h] in ns && 0 <= hs[h]
    ensures g in Drop(ns, hs, h).handles && Wf(Drop(ns, hs, h).nodes, Drop(ns, hs, h).handles)
    ensures TreeOf(Drop(ns, hs, h).nodes, Drop(ns, hs, h).handles, g) == TreeOf(ns, hs, g)
  {
    DropInv(ns, hs, owner, nextNode, nextHandle, {}, h);
    DropShape(ns, hs, h);
    var r := Drop(ns, hs, h);
    ShrinkFrame(ns, hs, r.nodes, r.handles);
    TreeStable(ns, hs, r.nodes, r.handles, g, g);
  }

  /**
   Assignment keeps the invariant, leaves `self` on `other`'s node standing for
   `other`'s tree, and destroys no handle that is no live node's member.
   */
  lemma ReassignInv(ns: Nodes, hs: Handles, owner: map<HandleId, NodeId>, nextNode: nat,
                    nextHandle: nat, self: HandleId, other: HandleId)
    requires Inv(ns, hs, owner, nextNode, nextHandle, {}) && self in hs && other in hs && self !in owner
    ensures hs[self] in ns && hs[other] in ns && 0 <= hs[self]
    ensures Inv(Reassign(ns, hs, self, other).nodes, Reassign(ns, hs, self, other).handles, owner,
                nextNode, nextHandle, {})
    ensures self in Reassign(ns, hs, self, other).handles
    ensures Reassign(ns, hs, self, other).handles[self] == hs[other]
    ensures TreeOf(Reassign(ns, hs, self, other).nodes, Reassign(ns, hs, self, other).handles, self)
            == TreeOf(ns, hs, other)
    ensures forall g :: g in hs && g != self && DetachedIn(ns, owner, g) ==> g in Reassign(ns, hs, self, other).handles
    ensures Frame(ns, hs, Reassign(ns, hs, self, other).nodes, Reassign(ns, hs, self, other).handles)
    ensures forall g :: g in Reassign(ns, hs, self, other).handles && g != self
                        ==> g in hs && Reassign(ns, hs, self, other).handles[g] == hs[g]
  {
    var t := hs[self];
    var ns1, hs1 := Release(Retain(ns, hs[other]), t), hs[self := hs[other]];
    var r := Reassign(ns, hs, self, other);
    if ns1[t].freed {
      AssignPreserves(ns, hs, owner, nextNode, nextHandle, {}, self, other, ns1, hs1, {} + {t});
      MembersInv(ns1, hs1, owner, nextNode, nextHandle, {}, t);
      MembersShape(ns1, hs1, t);
      assert r == DropMembers(ns1, hs1, t);
      MoveLater(ns, hs[other], t);
      forall g | g in hs && DetachedIn(ns, owner, g)
        ensures g in hs1 && DetachedIn(ns1, owner, g) && !IsMember(ns1[t].node, g)
      {
        DetachedLater(ns, ns1, owner, t, g);
      }
      ShrinkFrame(ns1, hs1, r.nodes, r.handles);
      FrameTrans(ns, hs, ns1, hs1, r.nodes, r.handles);
    } else {
      AssignPreserves(ns, hs, owner, nextNode, nextHandle, {}, self, other, ns1, hs1, {});
    }
    TreeStable(ns, hs, r.nodes, r.handles, other, self);
  }

  /** A handle that is no live node's member, other than `self`, survives an assignment to `self` with its tree. */
  lemma ReassignKeepsTree(ns: Nodes, hs: Handles, owner: map<HandleId, NodeId>, nextNode: nat,
                          nextHandle: nat, self: HandleId, other: HandleId, g: HandleId)
    requires Inv(ns, hs, owner, nextNode, nextHandle, {}) && self in hs && other in hs && self !in owner
    requires g in hs && g != self && DetachedIn(ns, owner, g)
    ensures hs[self] in ns && hs[other] in ns && 0 <= hs[self]
    ensures g in Reassign(ns, hs, self, other).handles
    ensures Wf(Reassign(ns, hs, self, other).nodes, Reassign(ns, hs, self, other).handles)
    ensures TreeOf(Reassign(ns, hs, self, other).nodes, Reassign(ns, hs, self, other).handles, g) == TreeOf(ns, hs, g)
  {
    ReassignInv(ns, hs, owner, nextNode, nextHandle, self, other);
    var r := Reassign(ns, hs, self, other);
    TreeStable(ns, hs, r.nodes, r.handles, g, g);
  }

  /** Every handle kept, with its target, by a step within the frame keeps its tree. */
  lemma KeepTreesIn(ns: Nodes, hs: Handles, ns': Nodes, hs': Handles)
    requires Wf(ns, hs) && Wf(ns', hs') && Frame(ns, hs, ns', hs')
    requires forall g :: g in hs ==> g in hs' && hs'[g] == hs[g]
    ensures forall g :: g in hs ==> g in hs' && TreeOf(ns', hs', g) == TreeOf(ns, hs, g)
  {
    forall g | g in hs
      ensures g in hs' && TreeOf(ns', hs', g) == TreeOf(ns, hs, g)
    {
      TreeStable(ns, hs, ns', hs', g, g);
    }
  }

  /**
   The trees after a new unary node is built over a fresh copy `x` of `e`, in two steps
   that each keep the frame: its operand is the tree of `e`, and every older handle
   keeps its tree.
   */
  lemma UnaryTrees(ns0: Nodes, hs0: Handles, ns1: Nodes, hs1: Handles, ns2: Nodes, hs2: Handles,
                   e: HandleId, x: HandleId, h: HandleId)
    requires Wf(ns0, hs0) && Wf(ns1, hs1) && Wf(ns2, hs2)
    requires Frame(ns0, hs0, ns1, hs1) && Frame(ns1, hs1, ns2, hs2)
    requires e in hs0 && x !in hs0 && hs1 == hs0[x := hs0[e]]
    requires h !in hs1 && h in hs2 && hs2 == hs1[h := hs2[h]]
    requires hs2[h] in ns2 && ns2[hs2[h]].node.UnaryNode? && ns2[hs2[h]].node.operand == x
    ensures Frame(ns0, hs0, ns2, hs2)
    ensures TreeOf(ns2, hs2, h) == Unary(ns2[hs2[h]].node.op, TreeOf(ns0, hs0, e))
    ensures forall g :: g in hs0 ==> g != x && g in hs2 && TreeOf(ns2, hs2, g) == TreeOf(ns0, hs0, g)
  {
    TreeStable(ns0, hs0, ns1, hs1, e, x);
    FrameTrans(ns0, hs0, ns1, hs1, ns2, hs2);
    TreeStable(ns1, hs1, ns2, hs2, x, x);
    KeepTreesIn(ns0, hs0, ns2, hs2);
  }

  /**
   The trees after a new binary node is built over fresh copies `x` of `l` and `y` of
   `r`, in three steps that each keep the frame: its operands are the trees of `l` and
   `r`, and every older handle keeps its tree.
   */
  lemma BinaryTrees(ns0: Nodes, hs0: Handles, ns1: Nodes, hs1: Handles, ns2: Nodes, hs2: Handles,
                    ns3: Nodes, hs3: Handles, l: HandleId, r: HandleId, x: HandleId, y: HandleId, h: HandleId)
    requires Wf(ns0, hs0) && Wf(ns1, hs1) && Wf(ns2, hs2) && Wf(ns3, hs3)
    requires Frame(ns0, hs0, ns1, hs1) && Frame(ns1, hs1, ns2, hs2) && Frame(ns2, hs2, ns3, hs3)
    requires l in hs0 && r in hs0 && x !in hs0 && hs1 == hs0[x := hs0[l]]
    requires y !in hs1 && hs2 == hs1[y := hs1[r]]
    requires h !in hs2 && h in hs3 && hs3 == hs2[h := hs3[h]]
    requires hs3[h] in ns3 && ns3[hs3[h]].node.BinaryNode?
    requires ns3[hs3[h]].node.left == x && ns3[hs3[h]].node.right == y
    ensures Frame(ns0, hs0, ns3, hs3)
    ensures TreeOf(ns3, hs3, h) == Binary(ns3[hs3[h]].node.op, TreeOf(ns0, hs0, l), TreeOf(ns0, hs0, r))
    ensures forall g :: g in hs0 ==> g != x && g != y && g in hs3 && TreeOf(ns3, hs3, g) == TreeOf(ns0, hs0, g)
  {
    TreeStable(ns0, hs0, ns1, hs1, l, x);
    TreeStable(ns0, hs0, ns1, hs1, r, r);
    FrameTrans(ns0, hs0, ns1, hs1, ns2, hs2);
    TreeStable(ns1, hs1, ns2, hs2, x, x);
    TreeStable(ns1, hs1, ns2, hs2, r, y);
    FrameTrans(ns0, hs0, ns2, hs2, ns3, hs3);
    TreeStable(ns2, hs2, ns3, hs3, x, x);
    TreeStable(ns2, hs2, ns3, hs3, y, y);
    KeepTreesIn(ns0, hs0, ns3, hs3);
  }

  /** The free store of expression nodes and the `Expression` handles on them. */
  class Heap {
    var nodes: Nodes
    var handles: Handles
    ghost var owner: map<HandleId, NodeId>
    var nextNode: nat
    var nextHandle: nat

    /** The invariant, with the nodes of `pending` still running their member destructors. */
    ghost predicate ValidPending(pending: set<NodeId>)
      reads this
    {
      Inv(nodes, handles, owner, nextNode, nextHandle, pending)
    }

    /** The invariant between two operations, when no destructor is running. */
    ghost predicate Valid()
      reads this
    {
      ValidPending({})
    }

    /** Handle `g` is not a member of a live node: it is top-level, or its node is being deleted. */
    ghost predicate Detached(g: HandleId)
      reads this
    {
      DetachedIn(nodes, owner, g)
    }

    /** The expression tree handle `h` stands for. */
    ghost function Tree(h: HandleId): Expr
      requires Valid() && h in handles
      reads this
    {
      TreeOf(nodes, handles, h)
    }

    /** `Expression::eval`: the value of the tree, or the error it throws. */
    function Evaluate(h: HandleId): (r: Result<int>)
      requires Valid() && h in handles
      reads this
      ensures r == Eval(Tree(h))
    {
      EvalInIsEval(nodes, handles, h);
      EvalIn(nodes, handles, h)
    }

    /** `operator<<(std::ostream&, const Expression&)`: the fully parenthesised form of the tree. */
    function Show(h: HandleId): (s: string)
      requires Valid() && h in handles
      reads this
      ensures s == Print(Tree(h))
    {
      PrintInIsPrint(nodes, handles, h);
      PrintIn(nodes, handles, h)
    }

    /** An empty free store. */
    constructor ()
      ensures Valid() && nodes == map[] && handles == map[] && owner == map[]
      ensures nextNode == 0 && nextHandle == 0
    {
      nodes, handles, owner := map[], map[], map[];
      nextNode, nextHandle := 0, 0;
    }

    /** `Expression(const Expression& e)`: share `e`'s node and count one more user of it. */
    method Copy(e: HandleId) returns (h: HandleId)
      requires Valid() && e in handles
      modifies this
      ensures Valid() && h == old(nextHandle) && h !in old(handles) && h !in owner
      ensures handles == old(handles)[h := old(handles[e])]
      ensures nodes == Retain(old(nodes), old(handles[e]))
      ensures owner == old(owner) && nextNode == old(nextNode) && nextHandle == old(nextHandle) + 1
      ensures Frame(old(nodes), old(handles), nodes, handles)
      ensures Tree(h) == old(Tree(e))
    {
      ghost var ns, hs := nodes, handles;
      h := nextHandle;
      nodes := Retain(nodes, handles[e]);
      handles := handles[h := handles[e]];
      nextHandle := nextHandle + 1;
      CopyPreserves(ns, hs, owner, nextNode, h, {}, e, nodes, handles, nextHandle);
      TreeStable(ns, hs, nodes, handles, e, h);
    }

    /** `p_ = new ...Node(...)`: a new node with `use_` one, whose members are the given handles. */
    method Allocate(node: Node) returns (h: HandleId)
      requires Valid() && Attachable(node, handles, owner)
      modifies this
      ensures Valid() && h == old(nextHandle) && h !in old(handles) && h !in owner
      ensures nodes == old(nodes)[old(nextNode) := NodeCell(node, 1, false)]
      ensures handles == old(handles)[h := old(nextNode)]
      ensures owner == AddMembers(old(owner), node, old(nextNode))
      ensures nextNode == old(nextNode) + 1 && nextHandle == old(nextHandle) + 1
      ensures Frame(old(nodes), old(handles), nodes, handles)
    {
      ghost var ns, hs, ow, nn := nodes, handles, owner, nextNode;
      h := nextHandle;
      nodes := nodes[nextNode := NodeCell(node, 1, false)];
      handles := handles[h := nextNode];
      owner := AddMembers(owner, node, nextNode);
      nextNode, nextHandle := nextNode + 1, nextHandle + 1;
      NodePreserves(ns, hs, ow, nn, h, {}, node, nodes, handles, owner, nextNode, nextHandle);
    }

    /** `Expression(int n)`: a new `IntNode`. */
    method NewInt(n: int) returns (h: HandleId)
      requires Valid()
      modifies this
      ensures Valid() && h !in old(handles) && h !in owner && h in handles
      ensures Frame(old(nodes), old(handles), nodes, handles)
      ensures Tree(h) == Const(n)
      ensures forall g :: g in old(handles) ==> g in handles && Tree(g) == old(Tree(g))
      ensures forall g :: g in old(handles) && g !in old(owner) ==> g !in owner
    {
      ghost var ns, hs := nodes, handles;
      h := Allocate(IntNode(n));
      KeepTreesIn(ns, hs, nodes, handles);
    }

    /** `Expression(const std::string& op, Expression e)`: a new `UnaryNode` over a copy of `e`. */
    method NewUnary(op: string, e: HandleId) returns (h: HandleId)
      requires Valid() && e in handles
      modifies this
      ensures Valid() && h !in old(handles) && h !in owner && h in handles
      ensures Frame(old(nodes), old(handles), nodes, handles)
      ensures Tree(h) == Unary(op, old(Tree(e)))
      ensures forall g :: g in old(handles) ==> g in handles && Tree(g) == old(Tree(g))
      ensures forall g :: g in old(handles) && g !in old(owner) ==> g !in owner
      // the operand member is a new handle on `e`'s own node, which gains one user
      ensures h == old(nextHandle) + 1 && handles[h] == old(nextNode)
      ensures nodes == Retain(old(nodes), old(handles[e]))[old(nextNode) := NodeCell(UnaryNode(op, old(nextHandle)), 1, false)]
      ensures handles == old(handles)[old(nextHandle) := old(handles[e])][h := old(nextNode)]
      ensures owner == old(owner)[old(nextHandle) := old(nextNode)]
      ensures nextNode == old(nextNode) + 1 && nextHandle == old(nextHandle) + 2
    {
      ghost var ns0, hs0 := nodes, handles;
      var x := Copy(e);
      ghost var ns1, hs1 := nodes, handles;
      h := Allocate(UnaryNode(op, x));
      UnaryTrees(ns0, hs0, ns1, hs1, nodes, handles, e, x, h);
    }

    /** `Expression(const std::string& op, Expression l, Expression r)`: a new `BinaryNode` over copies. */
    method NewBinary(op: string, l: HandleId, r: HandleId) returns (h: HandleId)
      requires Valid() && l in handles && r in handles
      modifies this
      ensures Valid() && h !in old(handles) && h !in owner && h in handles
      ensures Frame(old(nodes), old(handles), nodes, handles)
      ensures Tree(h) == Binary(op, old(Tree(l)), old(Tree(r)))
      ensures forall g :: g in old(handles) ==> g in handles && Tree(g) == old(Tree(g))
      ensures forall g :: g in old(handles) && g !in old(owner) ==> g !in owner
      // the members are new handles on the nodes of `l` and `r`, which gain one user each
      ensures h == old(nextHandle) + 2 && handles[h] == old(nextNode)
      ensures nodes == Retain(Retain(old(nodes), old(handles[l])), old(handles[r]))
                         [old(nextNode) := NodeCell(BinaryNode(op, old(nextHandle), old(nextHandle) + 1), 1, false)]
      ensures handles == old(handles)[old(nextHandle) := old(handles[l])][old(nextHandle) + 1 := old(handles[r])]
                           [h := old(nextNode)]
      ensures owner == old(owner)[old(nextHandle) := old(nextNode)][old(nextHandle) + 1 := old(nextNode)]
      ensures nextNode == old(nextNode) + 1 && nextHandle == old(nextHandle) + 3
    {
      ghost var ns0, hs0 := nodes, handles;
      var x := Copy(l);
      ghost var ns1, hs1 := nodes, handles;
      var y := Copy(r);
      ghost var ns2, hs2 := nodes, handles;
      h := Allocate(BinaryNode(op, x, y));
      BinaryTrees(ns0, hs0, ns1, hs1, ns2, hs2, nodes, handles, l, r, x, y, h);
    }

    /**
     `~Expression()` on `h`: `if (--p_->use_ == 0) delete p_;`, where deleting a unary or
     binary node runs the destructors of its members in turn. `h` is a top-level handle or
     a member of a node being deleted.
     */
    method Destroy(h: HandleId, ghost pending: set<NodeId>)
      requires ValidPending(pending) && h in handles && Detached(h)
      modifies this
      decreases handles[h], 1
      ensures ValidPending(pending)
      ensures old(handles[h]) in old(nodes) && 0 <= old(handles[h])
      ensures Store(nodes, handles) == Drop(old(nodes), old(handles), h)
      ensures owner == old(owner) && nextNode == old(nextNode) && nextHandle == old(nextHandle)
    {
      ghost var ns, hs := nodes, handles;
      var t := handles[h];
      nodes, handles := Release(nodes, t), handles - {h};
      if nodes[t].freed {
        DropPreserves(ns, hs, owner, nextNode, nextHandle, pending, h, nodes, handles, pending + {t});
        DestroyMembers(t, pending);
      } else {
        DropPreserves(ns, hs, owner, nextNode, nextHandle, pending, h, nodes, handles, pending);
      }
    }

    /**
     The rest of `delete` on the node `n`, whose count reached zero: the destructors of its
     members, the right operand of a binary node before the left one (the reverse of their
     declaration order).
     */
    method DestroyMembers(n: NodeId, ghost pending: set<NodeId>)
      requires ValidPending(pending + {n}) && n !in pending
      requires forall g :: IsMember(nodes[n].node, g) ==> g in handles
      modifies this
      decreases n, 0
      ensures ValidPending(pending)
      ensures old(n in nodes) && 0 <= n
      ensures Store(nodes, handles) == DropMembers(old(nodes), old(handles), n)
      ensures owner == old(owner) && nextNode == old(nextNode) && nextHandle == old(nextHandle)
    {
      ghost var ns, hs := nodes, handles;
      MembersInv(ns, hs, owner, nextNode, nextHandle, pending, n);
      PendingMembers(ns, hs, owner, nextNode, nextHandle, pending + {n}, n);
      match nodes[n].node
      case IntNode(_) =>
      case UnaryNode(_, x) =>
        assert Below(ns, hs, x, n);
        Destroy(x, pending + {n});
      case BinaryNode(_, l, r) =>
        BinarySteps(ns, hs, owner, nextNode, nextHandle, pending, n, l, r);
        Destroy(r, pending + {n});
        Destroy(l, pending + {n});
    }

    /**
     `Expression::operator=` on the top-level handle `self`: `self` ends up on `other`'s
     node, whose count went up first, and its old node is deleted if nothing else uses it.
     */
    method Assign(self: HandleId, other: HandleId)
      requires Valid() && self in handles && other in handles && self !in owner
      modifies this
      ensures Valid()
      ensures old(handles[self]) in old(nodes) && old(handles[other]) in old(nodes) && 0 <= old(handles[self])
      ensures Store(nodes, handles) == Reassign(old(nodes), old(handles), self, other)
      ensures owner == old(owner) && nextNode == old(nextNode) && nextHandle == old(nextHandle)
      ensures self in handles && Tree(self) == old(Tree(other))
      ensures forall g :: g in old(handles) && g != self && g !in owner ==> g in handles && Tree(g) == old(Tree(g))
    {
      ghost var ns, hs := nodes, handles;
      var s, o := handles[self], handles[other];
      nodes, handles := Release(Retain(nodes, o), s), handles[self := o];
      if nodes[s].freed {
        AssignPreserves(ns, hs, owner, nextNode, nextHandle, {}, self, other, nodes, handles, {} + {s});
        DestroyMembers(s, {});
      } else {
        AssignPreserves(ns, hs, owner, nextNode, nextHandle, {}, self, other, nodes, handles, {});
      }
      ReassignInv(ns, hs, owner, nextNode, nextHandle, self, other);
      forall g | g in hs && g != self && g !in owner
        ensures g in handles && TreeOf(nodes, handles, g) == TreeOf(ns, hs, g)
      {
        ReassignKeepsTree(ns, hs, owner, nextNode, nextHandle, self, other, g);
      }
    }

    /**
     `~Expression()` on the top-level handle `h`, at the end of its scope: every other
     top-level handle survives and still stands for the same tree.
     */
    method Discard(h: HandleId)
      requires Valid() && h in handles && h !in owner
      modifies this
      ensures Valid() && h !in handles
      ensures Store(nodes, handles) == Drop(old(nodes), old(handles), h)
      ensures owner == old(owner) && nextNode == old(nextNode) && nextHandle == old(nextHandle)
      ensures forall g :: g in old(handles) && g != h && g !in owner ==> g in handles && Tree(g) == old(Tree(g))
    {
      ghost var ns, hs := nodes, handles;
      Destroy(h, {});
      DropShape(ns, hs, h);
      forall g | g in hs && g != h && g !in owner
        ensures g in handles && TreeOf(nodes, handles, g) == TreeOf(ns, hs, g)
      {
        DropKeepsTree(ns, hs, owner, nextNode, nextHandle, h, g);
      }
    }
  }

  /** `Expression("-", k)`: a negation over a temporary `Expression(k)`, which is then destroyed. */
  method MakeNegation(heap: Heap, k: int) returns (h: HandleId)
    requires heap.Valid()
    modifies heap
    ensures heap.Valid() && h in heap.handles && h !in heap.owner && h !in old(heap.handles)
    ensures heap.Tree(h) == Unary("-", Const(k))
    ensures forall g :: g in old(heap.handles) && g !in old(heap.owner) ==>
              g in heap.handles && g !in heap.owner && heap.Tree(g) == old(heap.Tree(g))
  {
    var operand := heap.NewInt(k);
    h := heap.NewUnary("-", operand);
    heap.Discard(operand);
  }

  /** `Expression(op, l, b)`: a binary node over `l` and a temporary `Expression(b)`, which is then destroyed. */
  method MakeBinaryConst(heap: Heap, op: string, l: HandleId, b: int) returns (h: HandleId)
    requires heap.Valid() && l in heap.handles
    modifies heap
    ensures heap.Valid() && h in heap.handles && h !in heap.owner && h !in old(heap.handles)
    ensures heap.Tree(h) == Binary(op, old(heap.Tree(l)), Const(b))
    ensures forall g :: g in old(heap.handles) && g !in old(heap.owner) ==>
              g in heap.handles && g !in heap.owner && heap.Tree(g) == old(heap.Tree(g))
  {
    var right := heap.NewInt(b);
    h := heap.NewBinary(op, l, right);
    heap.Discard(right);
  }

  /** `Expression(op, a, b)`: a binary node over temporaries `Expression(a)` and `Expression(b)`, then destroyed. */
  method MakeBinary(heap: Heap, op: string, a: int, b: int) returns (h: HandleId)
    requires heap.Valid()
    modifies heap
    ensures heap.Valid() && h in heap.handles && h !in heap.owner && h !in old(heap.handles)
    ensures heap.Tree(h) == Binary(op, Const(a), Const(b))
    ensures forall g :: g in old(heap.handles) && g !in old(heap.owner) ==>
              g in heap.handles && g !in heap.owner && heap.Tree(g) == old(heap.Tree(g))
  {
    var left := heap.NewInt(a);
    h := MakeBinaryConst(heap, op, left, b);
    heap.Discard(left);
  }

  /** `Expression("*", Expression("-", 5), Expression("+", 3, 4))`, its temporaries destroyed. */
  method MakeSample(heap: Heap) returns (t: HandleId)
    requires heap.Valid()
    modifies heap
    ensures heap.Valid() && t in heap.handles && t !in heap.owner
    ensures heap.Tree(t) == Sample()
  {
    var negated := MakeNegation(heap, 5);
    var sum := MakeBinary(heap, "+", 3, 4);
    t := heap.NewBinary("*", negated, sum);
    heap.Discard(sum);
    heap.Discard(negated);
  }

  /** `t = Expression(op, t, t)`: a temporary binary node over `t` twice, assigned to `t`, then destroyed. */
  method SelfApply(heap: Heap, op: string, t: HandleId)
    requires heap.Valid() && t in heap.handles && t !in heap.owner
    modifies heap
    ensures heap.Valid() && t in heap.handles && t !in heap.owner
    ensures heap.Tree(t) == Binary(op, old(heap.Tree(t)), old(heap.Tree(t)))
    // `t` is on a fresh binary node whose two members share `t`'s old node, which stays
    // live with one user more: `t`'s reference went, the two members' references came
    ensures heap.handles[t] == old(heap.nextNode)
    ensures heap.nodes[heap.handles[t]] ==
              NodeCell(BinaryNode(op, old(heap.nextHandle), old(heap.nextHandle) + 1), 1, false)
    ensures heap.handles[old(heap.nextHandle)] == old(heap.handles[t])
    ensures heap.handles[old(heap.nextHandle) + 1] == old(heap.handles[t])
    ensures heap.nodes[old(heap.handles[t])] ==
              old(heap.nodes[heap.handles[t]]).(use := old(heap.nodes[heap.handles[t]].use) + 1)
  {
    ghost var o, n, x := heap.handles[t], heap.nextNode, heap.nextHandle;
    ghost var c := heap.nodes[o];
    assert !c.freed && c.use == Count(heap.handles, o) && c.use >= 1;
    var temporary := heap.NewBinary(op, t, t);
    assert heap.nodes[o] == c.(use := c.use + 2) && heap.nodes[n].use == 1 && o != n;
    ghost var ns1, hs1 := heap.nodes, heap.handles;
    ReassignShared(ns1, hs1, t, temporary);
    heap.Assign(t, temporary);
    assert heap.nodes[o] == c.(use := c.use + 1) && heap.nodes[n].use == 2;
    ghost var ns2, hs2 := heap.nodes, heap.handles;
    DropShared(ns2, hs2, temporary);
    heap.Discard(temporary);
  }

  /**
   The demonstration program: it builds `(-5)*(3+4)` from temporaries, prints and
   evaluates it, then assigns to it its own square, and prints and evaluates it again.
   */
  method Demonstration() returns (first: string, firstValue: Result<int>, second: string, secondValue: Result<int>)
    ensures first == "((-5)*(3+4))" && firstValue == Success(-35)
    ensures second == "(((-5)*(3+4))*((-5)*(3+4)))" && secondValue == Success(1225)
  {
    var heap := new Heap();
    var t := MakeSample(heap);
    SamplePrints();
    SampleValues();
    first, firstValue := heap.Show(t), heap.Evaluate(t);
    SelfApply(heap, "*", t);
    SquarePrints();
    second, secondValue := heap.Show(t), heap.Evaluate(t);
  }
}
