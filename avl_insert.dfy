/**
 * AccountAVLTree::insert (Code.cpp:119-149) on the value model: descend by
 * account number, create the account at the empty spot, recompute heights on the
 * way back up and rotate where a node leans by two.  A key that is already
 * present leaves the tree exactly as it was.
 */
module AvlInsert {
  import opened Transactions
  import opened AccountTree

  /** The state of a node right after Code.cpp:123-130 inserted `k` into one child
      of an AVL node and recomputed the node's height: both children are AVL trees,
      the node is ordered, and if it leans by two, the child on the heavy side leans
      towards the side `k` went to. */
  ghost predicate InsertShape(n: Tree, k: int)
  {
    && n.Node? && Ordered(n) && HeightsOk(n)
    && Avl(n.left) && Avl(n.right)
    && -2 <= BalanceFactor(n) <= 2
    && (BalanceFactor(n) == 2 ==>
          && n.left.Node?
          && ((k < Key(n.left) && BalanceFactor(n.left) == 1) || (k > Key(n.left) && BalanceFactor(n.left) == -1)))
    && (BalanceFactor(n) == -2 ==>
          && n.right.Node?
          && ((k > Key(n.right) && BalanceFactor(n.right) == -1) || (k < Key(n.right) && BalanceFactor(n.right) == 1)))
  }

  /** The balancing step of insert (Code.cpp:132-148): the four rotation cases,
      chosen by the balance factor and by where `k` lies relative to the heavy child. */
  function InsertRebalance(n: Tree, k: int): (r: Tree)
    requires InsertShape(n, k)
    ensures Avl(r) && r.Node?
    ensures InOrder(r) == InOrder(n) && Keys(r) == Keys(n) && Accounts(r) == Accounts(n)
    ensures -1 <= BalanceFactor(n) <= 1 ==> r == n
    ensures !(-1 <= BalanceFactor(n) <= 1) ==> Height(r) == Height(n) - 1
  {
    var bf := BalanceFactor(n);
    if bf > 1 && k < Key(n.left) then
      RotateRightRestores(n);
      RotateRight(n)
    else if bf < -1 && k > Key(n.right) then
      RotateLeftRestores(n);
      RotateLeft(n)
    else if bf > 1 && k > Key(n.left) then
      RotateLeftRightRestores(n);
      RotateRight(n.(left := RotateLeft(n.left)))
    else if bf < -1 && k < Key(n.right) then
      RotateRightLeftRestores(n);
      RotateLeft(n.(right := RotateRight(n.right)))
    else
      n
  }

  /** The contract of insert on `t` for the new record `na`, as one predicate. */
  ghost predicate InsertPost(t: Tree, k: int, na: AccountData, r: Tree)
  {
    && Avl(r) && r.Node?
    && Keys(r) == Keys(t) + {k}
    && Accounts(r) == (if k in Keys(t) then Accounts(t) else Accounts(t)[k := na])
    && (k in Keys(t) ==> r == t)
    && Height(t) <= Height(r) <= Height(t) + 1
    && (Height(r) == Height(t) + 1 && t.Node? ==>
          (k < Key(r) && BalanceFactor(r) == 1) || (k > Key(r) && BalanceFactor(r) == -1))
  }

  /** insert: on an AVL tree the result is an AVL tree holding the old records and,
      if `k` was absent, the new account under `k`; a present key changes nothing.
      The height grows by at most one, and when it grows the root leans towards `k`. */
  function Insert(t: Tree, k: int, name: string, initialBalance: int, pin: string): (r: Tree)
    requires Avl(t)
    ensures Avl(r) && r.Node?
    ensures Keys(r) == Keys(t) + {k}
    ensures Accounts(r) == if k in Keys(t) then Accounts(t) else Accounts(t)[k := NewAccount(k, name, initialBalance, pin)]
    ensures k in Keys(t) ==> r == t
    ensures Height(t) <= Height(r) <= Height(t) + 1
    ensures Height(r) == Height(t) + 1 && t.Node? ==>
              (k < Key(r) && BalanceFactor(r) == 1) || (k > Key(r) && BalanceFactor(r) == -1)
    decreases t
  {
    match t
    case Leaf => Node(Leaf, NewAccount(k, name, initialBalance, pin), Leaf, 1)
    case Node(l, a, rt, _) =>
      if k < a.accountNumber then
        var l' := Insert(l, k, name, initialBalance, pin);
        InsertedLeft(t, k, NewAccount(k, name, initialBalance, pin), l');
        InsertRebalance(MakeNode(l', a, rt), k)
      else if k > a.accountNumber then
        var r' := Insert(rt, k, name, initialBalance, pin);
        InsertedRight(t, k, NewAccount(k, name, initialBalance, pin), r');
        InsertRebalance(MakeNode(l, a, r'), k)
      else
        t
  }

  /** Insert's contract carries over from the left child to the node. */
  lemma InsertedLeft(t: Tree, k: int, na: AccountData, l': Tree)
    requires Avl(t) && t.Node? && k < Key(t) && na.accountNumber == k
    requires InsertPost(t.left, k, na, l')
    ensures InsertShape(MakeNode(l', t.acct, t.right), k)
    ensures InsertPost(t, k, na, InsertRebalance(MakeNode(l', t.acct, t.right), k))
  {
    var n := MakeNode(l', t.acct, t.right);
    InsertedLeftShape(t, k, na, l');
    var r := InsertRebalance(n, k);
    assert Keys(r) == Keys(t) + {k};
    if k !in Keys(t) {
      NewKeyAccounts(t, n, k, na);
    } else {
      assert k in Keys(t.left);
      assert n == t;
    }
    InsertedGrowth(t, n, r, k);
  }

  lemma InsertedLeftShape(t: Tree, k: int, na: AccountData, l': Tree)
    requires Avl(t) && t.Node? && k < Key(t) && na.accountNumber == k
    requires InsertPost(t.left, k, na, l')
    ensures InsertShape(MakeNode(l', t.acct, t.right), k)
  {
    var n := MakeNode(l', t.acct, t.right);
    HeightNonNegative(t.left);
    HeightNonNegative(t.right);
    assert Ordered(n) by {
      assert forall j :: j in Keys(l') ==> j < Key(t);
    }
  }

  /** The step insert takes at a node when `k` goes left (Code.cpp:123-124, 130-148). */
  lemma InsertLeftStep(t: Tree, k: int, name: string, initialBalance: int, pin: string)
    requires Avl(t) && t.Node? && k < Key(t)
    ensures InsertShape(MakeNode(Insert(t.left, k, name, initialBalance, pin), t.acct, t.right), k)
    ensures Insert(t, k, name, initialBalance, pin)
         == InsertRebalance(MakeNode(Insert(t.left, k, name, initialBalance, pin), t.acct, t.right), k)
  {
    InsertedLeftShape(t, k, NewAccount(k, name, initialBalance, pin), Insert(t.left, k, name, initialBalance, pin));
  }

  /** The step insert takes at a node when `k` goes right (Code.cpp:125-126, 130-148). */
  lemma InsertRightStep(t: Tree, k: int, name: string, initialBalance: int, pin: string)
    requires Avl(t) && t.Node? && k > Key(t)
    ensures InsertShape(MakeNode(t.left, t.acct, Insert(t.right, k, name, initialBalance, pin)), k)
    ensures Insert(t, k, name, initialBalance, pin)
         == InsertRebalance(MakeNode(t.left, t.acct, Insert(t.right, k, name, initialBalance, pin)), k)
  {
    InsertedRightShape(t, k, NewAccount(k, name, initialBalance, pin), Insert(t.right, k, name, initialBalance, pin));
  }

  /** Insert's contract carries over from the right child to the node. */
  lemma InsertedRight(t: Tree, k: int, na: AccountData, r': Tree)
    requires Avl(t) && t.Node? && k > Key(t) && na.accountNumber == k
    requires InsertPost(t.right, k, na, r')
    ensures InsertShape(MakeNode(t.left, t.acct, r'), k)
    ensures InsertPost(t, k, na, InsertRebalance(MakeNode(t.left, t.acct, r'), k))
  {
    var n := MakeNode(t.left, t.acct, r');
    InsertedRightShape(t, k, na, r');
    var r := InsertRebalance(n, k);
    assert Keys(r) == Keys(t) + {k};
    if k !in Keys(t) {
      NewKeyAccounts(t, n, k, na);
    } else {
      assert k in Keys(t.right);
      assert n == t;
    }
    InsertedGrowth(t, n, r, k);
  }

  lemma InsertedRightShape(t: Tree, k: int, na: AccountData, r': Tree)
    requires Avl(t) && t.Node? && k > Key(t) && na.accountNumber == k
    requires InsertPost(t.right, k, na, r')
    ensures InsertShape(MakeNode(t.left, t.acct, r'), k)
  {
    var n := MakeNode(t.left, t.acct, r');
    HeightNonNegative(t.left);
    HeightNonNegative(t.right);
    assert Ordered(n) by {
      assert forall j :: j in Keys(r') ==> Key(t) < j;
    }
  }

  /** How the height of the rebalanced node compares with the node before insertion. */
  lemma InsertedGrowth(t: Tree, n: Tree, r: Tree, k: int)
    requires Avl(t) && t.Node? && k != Key(t)
    requires InsertShape(n, k) && r == InsertRebalance(n, k)
    requires n.acct == t.acct
    requires k < Key(t) ==> n.right == t.right && Height(t.left) <= Height(n.left) <= Height(t.left) + 1
    requires k > Key(t) ==> n.left == t.left && Height(t.right) <= Height(n.right) <= Height(t.right) + 1
    ensures Height(t) <= Height(r) <= Height(t) + 1
    ensures Height(r) == Height(t) + 1 ==>
              (k < Key(r) && BalanceFactor(r) == 1) || (k > Key(r) && BalanceFactor(r) == -1)
  {
    HeightNonNegative(t.left);
    HeightNonNegative(t.right);
  }

  /** Adding `na` under a fresh key below one child adds it to the node's records. */
  lemma NewKeyAccounts(t: Tree, n: Tree, k: int, na: AccountData)
    requires Ordered(t) && t.Node? && n.Node? && k !in Keys(t) && n.acct == t.acct
    requires (n.left == t.left && Accounts(n.right) == Accounts(t.right)[k := na] && k > Key(t))
          || (n.right == t.right && Accounts(n.left) == Accounts(t.left)[k := na] && k < Key(t))
    ensures Accounts(n) == Accounts(t)[k := na]
  {
    var p := Key(t);
    var ml, mr := Accounts(t.left), Accounts(t.right);
    assert Accounts(n) == (Accounts(n.left) + Accounts(n.right))[p := t.acct];
    assert Accounts(t) == (ml + mr)[p := t.acct];
    if k > p {
      NodeMapUpdateRight(ml, mr, p, t.acct, k, na);
    } else {
      assert k !in mr;
      NodeMapUpdateLeft(ml, mr, p, t.acct, k, na);
    }
  }
}
