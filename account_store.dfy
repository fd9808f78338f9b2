/**
 * The memory that AccountAVLTree's pointers lead into.  Every `struct Account`
 * (Code.cpp:63-77) ever allocated is an entry of a store; an `Account*` is
 * either null or the index of an entry.  Writing a field through a pointer
 * replaces that entry, so a write is seen by every pointer to the same struct.
 *
 * `Represents(h, p, t)` says that following pointers from `p` in store `h`
 * spells out the value tree `t` of AccountTree, and `Unshared` says that no
 * struct is reached twice, so the pointers form a tree and not a DAG.
 */
module AccountStore {
  import opened Transactions
  import opened AccountTree

  /** An `Account*`: nullptr, or the index of a struct in the store. */
  datatype Pointer = Null | Ref(addr: nat)

  /** `struct Account`: the record fields, the two child pointers and the height. */
  datatype Account = Account(data: AccountData, left: Pointer, right: Pointer, height: int)

  /** `p` points into the store (or is null). */
  predicate InStore(h: seq<Account>, p: Pointer)
  {
    p.Ref? ==> p.addr < |h|
  }

  /** Following pointers from `p` in `h` yields the tree `t`: records and height fields included. */
  ghost predicate Represents(h: seq<Account>, p: Pointer, t: Tree)
    decreases t
  {
    match t
    case Leaf => p == Null
    case Node(l, a, r, ht) =>
      && p.Ref? && p.addr < |h|
      && h[p.addr].data == a && h[p.addr].height == ht
      && Represents(h, h[p.addr].left, l) && Represents(h, h[p.addr].right, r)
  }

  /** The indices of the structs the subtree at `p` is made of. */
  ghost function Footprint(h: seq<Account>, p: Pointer, t: Tree): (f: set<nat>)
    requires Represents(h, p, t)
    ensures forall i :: i in f ==> i < |h|
    decreases t
  {
    match t
    case Leaf => {}
    case Node(l, _, r, _) => {p.addr} + Footprint(h, h[p.addr].left, l) + Footprint(h, h[p.addr].right, r)
  }

  /** No struct is reached twice: the two subtrees of every node share no struct and do not contain the node. */
  ghost predicate Unshared(h: seq<Account>, p: Pointer, t: Tree)
    requires Represents(h, p, t)
    decreases t
  {
    match t
    case Leaf => true
    case Node(l, _, r, _) =>
      var fl, fr := Footprint(h, h[p.addr].left, l), Footprint(h, h[p.addr].right, r);
      && p.addr !in fl && p.addr !in fr && fl !! fr
      && Unshared(h, h[p.addr].left, l) && Unshared(h, h[p.addr].right, r)
  }

  /** `p` is the root of a pointer tree that spells out `t`. */
  ghost predicate Holds(h: seq<Account>, p: Pointer, t: Tree)
  {
    Represents(h, p, t) && Unshared(h, p, t)
  }

  /** A null pointer spells out the empty tree and nothing else. */
  lemma NullHolds(h: seq<Account>, p: Pointer, t: Tree)
    requires Represents(h, p, t)
    ensures p == Null <==> t == Leaf
    ensures InStore(h, p)
  {
  }

  /** A node of a pointer tree: its struct holds the node's record, height and
      child pointers, and the children are pointer trees of their own, disjoint
      from each other and from the node. */
  lemma Parts(h: seq<Account>, p: Pointer, t: Tree)
    requires Holds(h, p, t) && t.Node?
    ensures p.Ref? && p.addr < |h|
    ensures var n := h[p.addr];
      && n.data == t.acct && n.height == t.height
      && Holds(h, n.left, t.left) && Holds(h, n.right, t.right)
      && var fl, fr := Footprint(h, n.left, t.left), Footprint(h, n.right, t.right);
      && Footprint(h, p, t) == {p.addr} + fl + fr
      && p.addr !in fl && p.addr !in fr && fl !! fr
  {
  }

  /** The converse of Parts: a struct over two disjoint pointer trees not containing it. */
  lemma Assemble(h: seq<Account>, p: Pointer, l: Tree, r: Tree)
    requires p.Ref? && p.addr < |h|
    requires Holds(h, h[p.addr].left, l) && Holds(h, h[p.addr].right, r)
    requires var fl, fr := Footprint(h, h[p.addr].left, l), Footprint(h, h[p.addr].right, r);
      p.addr !in fl && p.addr !in fr && fl !! fr
    ensures Holds(h, p, Node(l, h[p.addr].data, r, h[p.addr].height))
    ensures Footprint(h, p, Node(l, h[p.addr].data, r, h[p.addr].height))
         == {p.addr} + Footprint(h, h[p.addr].left, l) + Footprint(h, h[p.addr].right, r)
  {
  }

  /** A pointer tree is not affected by writes to structs outside its footprint. */
  lemma {:induction false} Frame(h: seq<Account>, h': seq<Account>, p: Pointer, t: Tree)
    requires Holds(h, p, t)
    requires forall i :: i in Footprint(h, p, t) ==> i < |h'| && h'[i] == h[i]
    ensures Holds(h', p, t) && Footprint(h', p, t) == Footprint(h, p, t)
    decreases t
  {
    match t
    case Leaf =>
    case Node(l, _, r, _) =>
      Frame(h, h', h[p.addr].left, l);
      Frame(h, h', h[p.addr].right, r);
  }

  // ---------------------------------------------------------------------------
  // What a pointer operation may change

  /** No struct of `h0` outside `f` was changed in `h`, and nothing was freed:
      `h` is `h0` with structs of `f` rewritten and new structs appended. */
  ghost predicate Kept(h0: seq<Account>, h: seq<Account>, f: set<nat>)
  {
    |h0| <= |h| && forall i :: 0 <= i < |h0| && i !in f ==> h[i] == h0[i]
  }

  /** Every struct of `g` is one of `f` or was allocated after the first `n`. */
  ghost predicate Within(g: set<nat>, f: set<nat>, n: nat)
  {
    forall i :: i in g ==> i in f || n <= i
  }

  /** The pointer tree at `q` in `h`, spelling `u`, was made from the one at
      `p` in `h0`, spelling `t`: no struct outside the old subtree changed, and
      the new subtree is made of old structs and newly allocated ones. */
  ghost predicate Replaced(h0: seq<Account>, p: Pointer, t: Tree, h: seq<Account>, q: Pointer, u: Tree)
  {
    && Holds(h0, p, t) && Holds(h, q, u)
    && Kept(h0, h, Footprint(h0, p, t))
    && Within(Footprint(h, q, u), Footprint(h0, p, t), |h0|)
  }

  lemma ReplacedTrans(h0: seq<Account>, p: Pointer, t: Tree, h1: seq<Account>, q: Pointer, u: Tree,
                      h2: seq<Account>, s: Pointer, v: Tree)
    requires Replaced(h0, p, t, h1, q, u) && Replaced(h1, q, u, h2, s, v)
    ensures Replaced(h0, p, t, h2, s, v)
  {
  }

  /** Rewriting the fields of a node's own struct keeps its children. */
  lemma Overwrite(h: seq<Account>, p: Pointer, t: Tree, a: AccountData, ht: int)
    requires Holds(h, p, t) && t.Node?
    ensures p.Ref? && p.addr < |h|
    ensures var h' := h[p.addr := Account(a, h[p.addr].left, h[p.addr].right, ht)];
      Replaced(h, p, t, h', p, Node(t.left, a, t.right, ht))
  {
    Parts(h, p, t);
    var h' := h[p.addr := Account(a, h[p.addr].left, h[p.addr].right, ht)];
    Frame(h, h', h[p.addr].left, t.left);
    Frame(h, h', h[p.addr].right, t.right);
    Assemble(h', p, t.left, t.right);
  }

  /** `node->left = c` after `c` was made from the old left subtree by an
      operation that kept everything outside that subtree. */
  lemma RelinkLeft(h0: seq<Account>, h1: seq<Account>, p: Pointer, t: Tree, c: Pointer, ct: Tree)
    requires Holds(h0, p, t) && t.Node? && p.Ref? && p.addr < |h0|
    requires Replaced(h0, h0[p.addr].left, t.left, h1, c, ct)
    ensures p.addr < |h1|
    ensures Replaced(h0, p, t, h1[p.addr := h1[p.addr].(left := c)], p, Node(ct, t.acct, t.right, t.height))
  {
    Parts(h0, p, t);
    var h := h1[p.addr := h1[p.addr].(left := c)];
    Frame(h1, h, c, ct);
    Frame(h0, h, h0[p.addr].right, t.right);
    Assemble(h, p, ct, t.right);
  }

  /** `node->right = c`: the mirror image of RelinkLeft. */
  lemma RelinkRight(h0: seq<Account>, h1: seq<Account>, p: Pointer, t: Tree, c: Pointer, ct: Tree)
    requires Holds(h0, p, t) && t.Node? && p.Ref? && p.addr < |h0|
    requires Replaced(h0, h0[p.addr].right, t.right, h1, c, ct)
    ensures p.addr < |h1|
    ensures Replaced(h0, p, t, h1[p.addr := h1[p.addr].(right := c)], p, Node(t.left, t.acct, ct, t.height))
  {
    Parts(h0, p, t);
    var h := h1[p.addr := h1[p.addr].(right := c)];
    Frame(h1, h, c, ct);
    Frame(h0, h, h0[p.addr].left, t.left);
    Assemble(h, p, t.left, ct);
  }

  /** `*root = *temp` for the only child `temp` of `root`: the node's struct
      becomes a copy of the child's, so the node now spells out the child's subtree. */
  lemma CopyChild(h: seq<Account>, p: Pointer, t: Tree, q: Pointer, c: Tree)
    requires Holds(h, p, t) && t.Node? && p.Ref? && p.addr < |h| && c.Node?
    requires (q == h[p.addr].left && c == t.left && t.right.Leaf?) || (q == h[p.addr].right && c == t.right && t.left.Leaf?)
    ensures q.Ref? && q.addr < |h|
    ensures Replaced(h, p, t, h[p.addr := h[q.addr]], p, c)
  {
    Parts(h, p, t);
    Parts(h, q, c);
    var h' := h[p.addr := h[q.addr]];
    Frame(h, h', h[q.addr].left, c.left);
    Frame(h, h', h[q.addr].right, c.right);
    Assemble(h', p, c.left, c.right);
  }

  /** After rotateRight's four field writes (Code.cpp:97-101) the subtree at
      the old left child is the rotated tree, made of the same structs. */
  lemma RotatedRight(h0: seq<Account>, h: seq<Account>, y: Pointer, t: Tree)
    requires Holds(h0, y, t) && t.Node? && t.left.Node?
    requires y.Ref? && y.addr < |h0| && var x := h0[y.addr].left; x.Ref? && x.addr < |h0|
    requires var x := h0[y.addr].left;
      && |h| == |h0|
      && (forall i :: 0 <= i < |h| && i != x.addr && i != y.addr ==> h[i] == h0[i])
      && h[y.addr] == h0[y.addr].(left := h0[x.addr].right, height := Max(Height(t.left.right), Height(t.right)) + 1)
      && h[x.addr] == h0[x.addr].(right := y, height := Max(Height(t.left.left), h[y.addr].height) + 1)
    ensures Holds(h, h0[y.addr].left, AccountTree.RotateRight(t))
    ensures Footprint(h, h0[y.addr].left, AccountTree.RotateRight(t)) == Footprint(h0, y, t)
    ensures Replaced(h0, y, t, h, h0[y.addr].left, AccountTree.RotateRight(t))
  {
    var x := h0[y.addr].left;
    Parts(h0, y, t);
    Parts(h0, x, t.left);
    var a, b, c := h0[x.addr].left, h0[x.addr].right, h0[y.addr].right;
    Frame(h0, h, a, t.left.left);
    Frame(h0, h, b, t.left.right);
    Frame(h0, h, c, t.right);
    var y' := MakeNode(t.left.right, t.acct, t.right);
    assert Holds(h, y, y');
  }

  /** The mirror image of RotatedRight, for rotateLeft (Code.cpp:110-114). */
  lemma RotatedLeft(h0: seq<Account>, h: seq<Account>, x: Pointer, t: Tree)
    requires Holds(h0, x, t) && t.Node? && t.right.Node?
    requires x.Ref? && x.addr < |h0| && var y := h0[x.addr].right; y.Ref? && y.addr < |h0|
    requires var y := h0[x.addr].right;
      && |h| == |h0|
      && (forall i :: 0 <= i < |h| && i != x.addr && i != y.addr ==> h[i] == h0[i])
      && h[x.addr] == h0[x.addr].(right := h0[y.addr].left, height := Max(Height(t.left), Height(t.right.left)) + 1)
      && h[y.addr] == h0[y.addr].(left := x, height := Max(h[x.addr].height, Height(t.right.right)) + 1)
    ensures Holds(h, h0[x.addr].right, AccountTree.RotateLeft(t))
    ensures Footprint(h, h0[x.addr].right, AccountTree.RotateLeft(t)) == Footprint(h0, x, t)
    ensures Replaced(h0, x, t, h, h0[x.addr].right, AccountTree.RotateLeft(t))
  {
    var y := h0[x.addr].right;
    Parts(h0, x, t);
    Parts(h0, y, t.right);
    var a, b, c := h0[x.addr].left, h0[y.addr].left, h0[y.addr].right;
    Frame(h0, h, a, t.left);
    Frame(h0, h, b, t.right.left);
    Frame(h0, h, c, t.right.right);
    var x' := MakeNode(t.left, t.acct, t.right.left);
    assert Holds(h, x, x');
  }

  // ---------------------------------------------------------------------------
  // A queue of pointers to disjoint subtrees (applyInterest, Code.cpp:301-312)

  /** Each queued pointer spells out the tree queued beside it, and no struct
      belongs to two queued subtrees. */
  ghost predicate Forest(h: seq<Account>, q: seq<Pointer>, qt: seq<Tree>)
    decreases |q|, 0
  {
    && |q| == |qt|
    && (q != [] ==>
          && Holds(h, q[0], qt[0]) && Forest(h, q[1..], qt[1..])
          && Footprint(h, q[0], qt[0]) !! Pending(h, q[1..], qt[1..]))
  }

  /** The structs of all queued subtrees. */
  ghost function Pending(h: seq<Account>, q: seq<Pointer>, qt: seq<Tree>): set<nat>
    requires Forest(h, q, qt)
    decreases |q|, 1
  {
    if q == [] then {} else Footprint(h, q[0], qt[0]) + Pending(h, q[1..], qt[1..])
  }

  /** Queuing a subtree disjoint from the queued ones keeps a forest. */
  lemma {:induction false} ForestPush(h: seq<Account>, q: seq<Pointer>, qt: seq<Tree>, p: Pointer, t: Tree)
    requires Forest(h, q, qt) && Holds(h, p, t) && Footprint(h, p, t) !! Pending(h, q, qt)
    ensures Forest(h, q + [p], qt + [t])
    ensures Pending(h, q + [p], qt + [t]) == Pending(h, q, qt) + Footprint(h, p, t)
    decreases |q|
  {
    if q == [] {
      assert q + [p] == [p] && qt + [t] == [t];
      assert Forest(h, [p][1..], [t][1..]);
    } else {
      assert (q + [p])[1..] == q[1..] + [p] && (qt + [t])[1..] == qt[1..] + [t];
      ForestPush(h, q[1..], qt[1..], p, t);
    }
  }
}
