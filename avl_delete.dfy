/**
 * AccountAVLTree::deleteNode (Code.cpp:157-206) on the value model.  A node with
 * at most one child is replaced by that child (`*root = *temp` copies the whole
 * child node); a node with two children takes over the account number, holder
 * name, balance and history of the leftmost record of its right subtree, keeps
 * its own PIN, and that record is then deleted from the right subtree.  On the
 * way back up heights are recomputed and a node leaning by two is rotated,
 * choosing the rotation by the balance factor of the heavy child.
 */
module AvlDelete {
  import opened Transactions
  import opened AccountTree
  import opened AccountQueries

  /** A node after one of its subtrees lost one level of height or none:
      ordered, heights maintained, AVL children, leaning by at most two. */
  ghost predicate DeleteShape(n: Tree)
  {
    && n.Node? && Ordered(n) && HeightsOk(n)
    && Avl(n.left) && Avl(n.right)
    && -2 <= BalanceFactor(n) <= 2
  }

  /** The balancing step of deleteNode (Code.cpp:189-203). */
  function DeleteRebalance(n: Tree): (r: Tree)
    requires DeleteShape(n)
    ensures Avl(r) && r.Node?
    ensures InOrder(r) == InOrder(n) && Keys(r) == Keys(n) && Accounts(r) == Accounts(n)
    ensures -1 <= BalanceFactor(n) <= 1 ==> r == n
    ensures Height(n) - 1 <= Height(r) <= Height(n)
  {
    HeightNonNegative(n.left);
    HeightNonNegative(n.right);
    var bf := BalanceFactor(n);
    if bf > 1 && BalanceFactor(n.left) >= 0 then
      RotateRightRestores(n);
      RotateRight(n)
    else if bf > 1 && BalanceFactor(n.left) < 0 then
      RotateLeftRightRestores(n);
      RotateRight(n.(left := RotateLeft(n.left)))
    else if bf < -1 && BalanceFactor(n.right) <= 0 then
      RotateLeftRestores(n);
      RotateLeft(n)
    else if bf < -1 && BalanceFactor(n.right) > 0 then
      RotateRightLeftRestores(n);
      RotateLeft(n.(right := RotateRight(n.right)))
    else
      n
  }

  /** The record the node holding `k` ends up with in the two-child case
      (Code.cpp:175-179): the successor's number, name, balance and history
      with the deleted account's PIN. */
  function Successor(deleted: AccountData, m: AccountData): (a: AccountData)
    ensures a == m.(pin := deleted.pin)
  {
    deleted.(accountNumber := m.accountNumber, accountHolderName := m.accountHolderName,
             balance := m.balance, history := m.history)
  }

  /** The records deleteNode leaves behind.  An absent key changes nothing; a
      node holding `k` with at most one child drops record `k`; a node with two
      children drops record `k`, and the successor record keeps its number, name,
      balance and history but takes over the PIN of the deleted account. */
  ghost function AccountsAfterDelete(t: Tree, k: int): map<int, AccountData>
  {
    var s := Search(t, k);
    if s.Leaf? then Accounts(t)
    else if s.left.Leaf? || s.right.Leaf? then Accounts(t) - {k}
    else
      var m := MinAccount(s.right);
      (Accounts(t) - {k})[m.accountNumber := Successor(s.acct, m)]
  }

  /** The contract of deleteNode, as one predicate. */
  ghost predicate DeletePost(t: Tree, k: int, r: Tree)
  {
    && Avl(r)
    && Keys(r) == Keys(t) - {k}
    && Accounts(r) == AccountsAfterDelete(t, k)
    && (k !in Keys(t) ==> r == t)
    && Height(t) - 1 <= Height(r) <= Height(t)
  }

  /** deleteNode: on an AVL tree the result is an AVL tree without key `k`, whose
      records are those of AccountsAfterDelete; an absent key leaves the tree as
      it was, and the height drops by at most one. */
  function Delete(t: Tree, k: int): (r: Tree)
    requires Avl(t)
    ensures Avl(r)
    ensures Keys(r) == Keys(t) - {k}
    ensures Accounts(r) == AccountsAfterDelete(t, k)
    ensures k !in Keys(t) ==> r == t
    ensures Height(t) - 1 <= Height(r) <= Height(t)
    decreases t
  {
    match t
    case Leaf => Leaf
    case Node(l, a, rt, _) =>
      if k < a.accountNumber then
        var l' := Delete(l, k);
        DeletedLeft(t, k, l');
        DeleteRebalance(MakeNode(l', a, rt))
      else if k > a.accountNumber then
        var r' := Delete(rt, k);
        DeletedRight(t, k, r');
        DeleteRebalance(MakeNode(l, a, r'))
      else if l.Leaf? || rt.Leaf? then
        var child := if l.Node? then l else rt;
        DeletedRoot(t, k);
        if child.Leaf? then Leaf else DeleteRebalance(MakeNode(child.left, child.acct, child.right))
      else
        var m := MinAccount(rt);
        var r' := Delete(rt, m.accountNumber);
        DeletedSuccessor(t, k, r');
        DeleteRebalance(MakeNode(l, Successor(a, m), r'))
  }

  /** The step deleteNode takes at a node when `k` goes left (Code.cpp:161-162, 185-203). */
  lemma DeleteLeftStep(t: Tree, k: int)
    requires Avl(t) && t.Node? && k < Key(t)
    ensures DeleteShape(MakeNode(Delete(t.left, k), t.acct, t.right))
    ensures Delete(t, k) == DeleteRebalance(MakeNode(Delete(t.left, k), t.acct, t.right))
  {
    var l' := Delete(t.left, k);
    HeightNonNegative(t.left);
    HeightNonNegative(t.right);
    HeightNonNegative(l');
    assert Ordered(MakeNode(l', t.acct, t.right)) by {
      assert forall j :: j in Keys(l') ==> j < Key(t);
    }
  }

  /** The step deleteNode takes at a node when `k` goes right (Code.cpp:163-164, 185-203). */
  lemma DeleteRightStep(t: Tree, k: int)
    requires Avl(t) && t.Node? && k > Key(t)
    ensures DeleteShape(MakeNode(t.left, t.acct, Delete(t.right, k)))
    ensures Delete(t, k) == DeleteRebalance(MakeNode(t.left, t.acct, Delete(t.right, k)))
  {
    var r' := Delete(t.right, k);
    HeightNonNegative(t.left);
    HeightNonNegative(t.right);
    HeightNonNegative(r');
    assert Ordered(MakeNode(t.left, t.acct, r')) by {
      assert forall j :: j in Keys(r') ==> Key(t) < j;
    }
  }

  /** The step deleteNode takes at the node holding `k` when it lacks a child
      (Code.cpp:167-173, 182-203). */
  lemma DeleteChildStep(t: Tree, k: int)
    requires Avl(t) && t.Node? && k == Key(t) && (t.left.Leaf? || t.right.Leaf?)
    ensures var child := if t.left.Node? then t.left else t.right;
      && (child.Node? ==> DeleteShape(MakeNode(child.left, child.acct, child.right)))
      && Delete(t, k) == if child.Leaf? then Leaf else DeleteRebalance(MakeNode(child.left, child.acct, child.right))
  {
    var child := if t.left.Node? then t.left else t.right;
    if child.Node? {
      assert Avl(child);
      MakeNodeOfHeightsOk(child);
    }
  }

  /** The step deleteNode takes at the node holding `k` when it has two children
      (Code.cpp:174-180, 185-203). */
  lemma DeleteSuccessorStep(t: Tree, k: int)
    requires Avl(t) && t.Node? && k == Key(t) && t.left.Node? && t.right.Node?
    ensures var m := MinAccount(t.right);
      && DeleteShape(MakeNode(t.left, Successor(t.acct, m), Delete(t.right, m.accountNumber)))
      && Delete(t, k) == DeleteRebalance(MakeNode(t.left, Successor(t.acct, m), Delete(t.right, m.accountNumber)))
  {
    SuccessorShape(t, Delete(t.right, MinAccount(t.right).accountNumber));
  }

  /** Delete's contract carries over from the left child to the node. */
  lemma DeletedLeft(t: Tree, k: int, l': Tree)
    requires Avl(t) && t.Node? && k < Key(t)
    requires DeletePost(t.left, k, l')
    ensures DeleteShape(MakeNode(l', t.acct, t.right))
    ensures DeletePost(t, k, DeleteRebalance(MakeNode(l', t.acct, t.right)))
  {
    var n := MakeNode(l', t.acct, t.right);
    HeightNonNegative(t.left);
    HeightNonNegative(t.right);
    HeightNonNegative(l');
    assert Ordered(n) by {
      assert forall j :: j in Keys(l') ==> j < Key(t);
    }
    assert k !in Keys(t.right);
    DropLeftKey(Keys(t.left), Keys(t.right), Key(t), k);
    if k !in Keys(t) {
      assert l' == t.left;
      MakeNodeOfHeightsOk(t);
    } else {
      DeletedBelowAccounts(t, n, k);
    }
  }

  /** Delete's contract carries over from the right child to the node. */
  lemma DeletedRight(t: Tree, k: int, r': Tree)
    requires Avl(t) && t.Node? && k > Key(t)
    requires DeletePost(t.right, k, r')
    ensures DeleteShape(MakeNode(t.left, t.acct, r'))
    ensures DeletePost(t, k, DeleteRebalance(MakeNode(t.left, t.acct, r')))
  {
    var n := MakeNode(t.left, t.acct, r');
    HeightNonNegative(t.left);
    HeightNonNegative(t.right);
    HeightNonNegative(r');
    assert Ordered(n) by {
      assert forall j :: j in Keys(r') ==> Key(t) < j;
    }
    assert k !in Keys(t.left);
    DropRightKey(Keys(t.left), Keys(t.right), Key(t), k);
    if k !in Keys(t) {
      assert r' == t.right;
      MakeNodeOfHeightsOk(t);
    } else {
      DeletedBelowAccounts(t, n, k);
    }
  }

  /** Dropping a key from the left keys drops it from the node's keys. */
  lemma DropLeftKey(l: set<int>, r: set<int>, p: int, k: int)
    requires k != p && k !in r
    ensures (l - {k}) + {p} + r == l + {p} + r - {k}
  {
  }

  /** Dropping a key from the right keys drops it from the node's keys. */
  lemma DropRightKey(l: set<int>, r: set<int>, p: int, k: int)
    requires k != p && k !in l
    ensures l + {p} + (r - {k}) == l + {p} + r - {k}
  {
  }

  /** Deleting a present key below one child: the node's records follow the
      child's. */
  lemma DeletedBelowAccounts(t: Tree, n: Tree, k: int)
    requires Ordered(t) && t.Node? && n.Node? && n.acct == t.acct && k in Keys(t) && k != Key(t)
    requires k < Key(t) ==> n.right == t.right && Accounts(n.left) == AccountsAfterDelete(t.left, k)
    requires k > Key(t) ==> n.left == t.left && Accounts(n.right) == AccountsAfterDelete(t.right, k)
    ensures Accounts(n) == AccountsAfterDelete(t, k)
  {
    var p := Key(t);
    var ml, mr := Accounts(t.left), Accounts(t.right);
    var nl, nr := Accounts(n.left), Accounts(n.right);
    var side := if k < p then t.left else t.right;
    var s := Search(t, k);
    assert s == Search(side, k);
    assert Accounts(n) == (nl + nr)[p := t.acct];
    assert Accounts(t) == (ml + mr)[p := t.acct];
    assert k in Keys(side) && Ordered(side);
    if s.Node? && s.left.Node? && s.right.Node? {
      var m := MinAccount(s.right);
      assert Keys(s.right) <= Keys(s) <= Keys(side);
      assert m.accountNumber in Keys(side);
      SubtreeChange(t, n, k, Some(Successor(s.acct, m)), m.accountNumber);
    } else {
      SubtreeChange(t, n, k, None, k);
    }
  }

  datatype Option<T> = None | Some(value: T)

  /** The record map `m` without `k`, and with `replacement` stored under `j` if there is one. */
  function Changed(m: map<int, AccountData>, k: int, replacement: Option<AccountData>, j: int): map<int, AccountData>
  {
    if replacement.Some? then (m - {k})[j := replacement.value] else m - {k}
  }

  /** Removing `k` from one side's records, and possibly replacing the record
      under `j` on that side, does the same to the node's records. */
  lemma SubtreeChange(t: Tree, n: Tree, k: int, replacement: Option<AccountData>, j: int)
    requires Ordered(t) && t.Node? && n.Node? && n.acct == t.acct && k != Key(t)
    requires k < Key(t) ==>
               && n.right == t.right && j in Keys(t.left) + {k}
               && Accounts(n.left) == Changed(Accounts(t.left), k, replacement, j)
    requires k > Key(t) ==>
               && n.left == t.left && j in Keys(t.right) + {k}
               && Accounts(n.right) == Changed(Accounts(t.right), k, replacement, j)
    ensures Accounts(n) == Changed(Accounts(t), k, replacement, j)
  {
    var p := Key(t);
    assert Accounts(n) == (Accounts(n.left) + Accounts(n.right))[p := t.acct];
    assert Accounts(t) == (Accounts(t.left) + Accounts(t.right))[p := t.acct];
    if k < p {
      ChangedLeft(Accounts(t.left), Accounts(t.right), Accounts(n.left), p, t.acct, k, replacement, j);
    } else {
      ChangedRight(Accounts(t.left), Accounts(t.right), Accounts(n.right), p, t.acct, k, replacement, j);
    }
  }

  /** A change confined to the left map carries over to the node's map. */
  lemma ChangedLeft(ml: map<int, AccountData>, mr: map<int, AccountData>, nl: map<int, AccountData>,
                    p: int, a: AccountData, k: int, replacement: Option<AccountData>, j: int)
    requires k !in mr && j !in mr && k != p && j != p
    requires nl == Changed(ml, k, replacement, j)
    ensures (nl + mr)[p := a] == Changed((ml + mr)[p := a], k, replacement, j)
  {
    var lhs, rhs := (nl + mr)[p := a], Changed((ml + mr)[p := a], k, replacement, j);
    assert lhs.Keys == rhs.Keys;
    forall x | x in lhs.Keys
      ensures lhs[x] == rhs[x]
    {
      if x in mr && x != p {
        assert lhs[x] == mr[x];
      }
    }
  }

  /** A change confined to the right map carries over to the node's map. */
  lemma ChangedRight(ml: map<int, AccountData>, mr: map<int, AccountData>, nr: map<int, AccountData>,
                     p: int, a: AccountData, k: int, replacement: Option<AccountData>, j: int)
    requires k !in ml && j !in ml && k != p && j != p
    requires nr == Changed(mr, k, replacement, j)
    ensures (ml + nr)[p := a] == Changed((ml + mr)[p := a], k, replacement, j)
  {
    var lhs, rhs := (ml + nr)[p := a], Changed((ml + mr)[p := a], k, replacement, j);
    assert lhs.Keys == rhs.Keys;
    forall x | x in lhs.Keys
      ensures lhs[x] == rhs[x]
    {
      if x != p && x in nr {
        assert lhs[x] == nr[x];
      } else if x != p {
        assert lhs[x] == ml[x];
      }
    }
  }

  /** The node holding `k` with at most one child gives way to that child. */
  lemma DeletedRoot(t: Tree, k: int)
    requires Avl(t) && t.Node? && k == Key(t) && (t.left.Leaf? || t.right.Leaf?)
    ensures var child := if t.left.Node? then t.left else t.right;
      && (child.Node? ==> DeleteShape(MakeNode(child.left, child.acct, child.right)))
      && DeletePost(t, k, if child.Leaf? then Leaf else DeleteRebalance(MakeNode(child.left, child.acct, child.right)))
  {
    var child := if t.left.Node? then t.left else t.right;
    ChildRecords(t, k);
    ChildHeight(t);
    if child.Node? {
      MakeNodeOfHeightsOk(child);
      assert DeleteShape(child);
    }
  }

  /** The only child of the node holding `k` holds all the other records. */
  lemma ChildRecords(t: Tree, k: int)
    requires Ordered(t) && t.Node? && k == Key(t) && (t.left.Leaf? || t.right.Leaf?)
    ensures var child := if t.left.Node? then t.left else t.right;
      Keys(child) == Keys(t) - {k} && Accounts(child) == AccountsAfterDelete(t, k)
  {
    var child := if t.left.Node? then t.left else t.right;
    RootRecordDropped(t, k);
    assert k !in Keys(child);
    DropOnlyRecord(Accounts(t.left), Accounts(t.right), k, t.acct);
  }

  /** A node map over one empty side, without its own key, is the other side's map. */
  lemma DropOnlyRecord(ml: map<int, AccountData>, mr: map<int, AccountData>, k: int, a: AccountData)
    requires k !in ml && k !in mr && (ml == map[] || mr == map[])
    ensures (ml + mr)[k := a] - {k} == (if ml == map[] then mr else ml)
  {
    var lhs := (ml + mr)[k := a] - {k};
    if ml == map[] {
      assert lhs.Keys == mr.Keys;
    } else {
      assert lhs.Keys == ml.Keys;
    }
  }

  /** Deleting the key of a node with at most one child drops just that record. */
  lemma RootRecordDropped(t: Tree, k: int)
    requires t.Node? && k == Key(t) && (t.left.Leaf? || t.right.Leaf?)
    ensures AccountsAfterDelete(t, k) == Accounts(t) - {k}
  {
    assert Search(t, k) == t;
  }

  /** The only child of an AVL node is AVL and one level lower. */
  lemma ChildHeight(t: Tree)
    requires Avl(t) && t.Node? && (t.left.Leaf? || t.right.Leaf?)
    ensures var child := if t.left.Node? then t.left else t.right;
      Avl(child) && Height(child) == Height(t) - 1
  {
    HeightNonNegative(t.left);
    HeightNonNegative(t.right);
  }

  /** The two-child case: the successor moves up and is deleted below. */
  lemma DeletedSuccessor(t: Tree, k: int, r': Tree)
    requires Avl(t) && t.Node? && k == Key(t) && t.left.Node? && t.right.Node?
    requires DeletePost(t.right, MinAccount(t.right).accountNumber, r')
    ensures DeleteShape(MakeNode(t.left, Successor(t.acct, MinAccount(t.right)), r'))
    ensures DeletePost(t, k, DeleteRebalance(MakeNode(t.left, Successor(t.acct, MinAccount(t.right)), r')))
  {
    var m := MinAccount(t.right);
    var mk := m.accountNumber;
    var n := MakeNode(t.left, Successor(t.acct, m), r');
    SuccessorShape(t, r');
    var r := DeleteRebalance(n);
    assert Keys(r) == Keys(t) - {k};
    assert Search(t, k) == t;
    assert AccountsAfterDelete(t.right, mk) == Accounts(t.right) - {mk};
    assert mk !in Keys(t.left) && k !in Keys(t.left) + Keys(t.right);
    SuccessorAccounts(t, m, n);
  }

  lemma SuccessorShape(t: Tree, r': Tree)
    requires Avl(t) && t.Node? && t.left.Node? && t.right.Node?
    requires DeletePost(t.right, MinAccount(t.right).accountNumber, r')
    ensures DeleteShape(MakeNode(t.left, Successor(t.acct, MinAccount(t.right)), r'))
    ensures Keys(MakeNode(t.left, Successor(t.acct, MinAccount(t.right)), r')) == Keys(t) - {Key(t)}
  {
    var m := MinAccount(t.right);
    HeightNonNegative(t.left);
    HeightNonNegative(t.right);
    HeightNonNegative(r');
    SuccessorOrdered(t, r');
    assert Key(t) !in Keys(t.left) + Keys(t.right);
    assert m.accountNumber in Keys(t.right);
    assert Avl(t.left) && HeightsOk(t) && Balanced(t);
    SwapKey(Keys(t.left), Keys(t.right), Key(t), m.accountNumber);
  }

  /** Replacing the node's key by a key of the right side and dropping that key there. */
  lemma SwapKey(l: set<int>, r: set<int>, k: int, mk: int)
    requires mk in r && k !in l && k !in r
    ensures l + {mk} + (r - {mk}) == l + {k} + r - {k}
  {
  }

  /** The successor's number sits between the left keys and the remaining right keys. */
  lemma SuccessorOrdered(t: Tree, r': Tree)
    requires Ordered(t) && t.Node? && t.right.Node? && Ordered(r')
    requires Keys(r') == Keys(t.right) - {MinAccount(t.right).accountNumber}
    ensures Ordered(MakeNode(t.left, Successor(t.acct, MinAccount(t.right)), r'))
  {
    var mk := MinAccount(t.right).accountNumber;
    assert mk in Keys(t.right);
    assert forall j :: j in Keys(t.left) ==> j < Key(t) < mk;
    forall j | j in Keys(r')
      ensures mk < j
    {
      assert j in Keys(t.right) && j != mk;
    }
  }

  lemma SuccessorAccounts(t: Tree, m: AccountData, n: Tree)
    requires t.Node? && n.Node? && n.left == t.left
    requires m.accountNumber in Keys(t.right) && m.accountNumber !in Keys(t.left)
    requires Key(t) !in Keys(t.left) + Keys(t.right)
    requires n.acct == Successor(t.acct, m) && Accounts(n.right) == Accounts(t.right) - {m.accountNumber}
    ensures Accounts(n) == (Accounts(t) - {Key(t)})[m.accountNumber := Successor(t.acct, m)]
  {
    var p, mk := Key(t), m.accountNumber;
    var ml, mr := Accounts(t.left), Accounts(t.right);
    assert Accounts(n) == (ml + (mr - {mk}))[mk := n.acct];
    assert Accounts(t) == (ml + mr)[p := t.acct];
    SuccessorMap(ml, mr, p, t.acct, mk, n.acct);
  }

  /** Dropping the node's key and moving the successor record up gives the
      same map as building the node over the right map without the successor. */
  lemma SuccessorMap(ml: map<int, AccountData>, mr: map<int, AccountData>, p: int, a: AccountData, mk: int, c: AccountData)
    requires mk in mr && mk !in ml && p !in ml && p !in mr
    ensures (ml + (mr - {mk}))[mk := c] == ((ml + mr)[p := a] - {p})[mk := c]
  {
    var lhs, rhs := (ml + (mr - {mk}))[mk := c], ((ml + mr)[p := a] - {p})[mk := c];
    assert lhs.Keys == ml.Keys + mr.Keys == rhs.Keys;
    forall x | x in lhs.Keys
      ensures lhs[x] == rhs[x]
    {
      if x != mk && x in mr {
        assert lhs[x] == mr[x] && rhs[x] == mr[x];
      } else if x != mk {
        assert lhs[x] == ml[x] && rhs[x] == ml[x];
      }
    }
  }
}
