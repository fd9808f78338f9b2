/**
 * The value model of the account index: an AVL tree of account records keyed by
 * account number (Code.cpp:63-117).  Each node stores its own height, as the
 * source's `Account::height` does; the invariants below say when that field and
 * the ordering are right.
 */
module AccountTree {
  import opened Transactions

  /** The record fields of `struct Account`; `history` is the value of its TransactionStack, newest first. */
  datatype AccountData = AccountData(
    accountNumber: int,
    accountHolderName: string,
    balance: int,
    pin: string,
    history: seq<Transaction>)

  /** What the `Account` constructor (Code.cpp:74-76) stores: an empty history. */
  function NewAccount(accNum: int, name: string, initialBalance: int, pin: string): (a: AccountData)
    ensures a.accountNumber == accNum && a.accountHolderName == name
    ensures a.balance == initialBalance && a.pin == pin && a.history == []
  {
    AccountData(accNum, name, initialBalance, pin, [])
  }

  /** A subtree: `Leaf` is a null pointer; `height` is the stored height field. */
  datatype Tree = Leaf | Node(left: Tree, acct: AccountData, right: Tree, height: int)

  function Max(a: int, b: int): int
  {
    if a < b then b else a
  }

  /** getHeight (Code.cpp:85-87): 0 for a null pointer, otherwise the stored
      field; HeightIsDepth says what that field holds. */
  function Height(t: Tree): int
  {
    if t.Leaf? then 0 else t.height
  }

  /** getBalanceFactor (Code.cpp:89-91): the left height minus the right
      height, 0 for a null pointer; within {-1, 0, 1} wherever the tree is balanced. */
  function BalanceFactor(t: Tree): (bf: int)
    ensures t.Leaf? ==> bf == 0
    ensures Balanced(t) ==> -1 <= bf <= 1
  {
    if t.Leaf? then 0 else Height(t.left) - Height(t.right)
  }

  /** A node whose height field is recomputed from its children, as every
      `x->height = max(getHeight(x->left), getHeight(x->right)) + 1` does. */
  function MakeNode(l: Tree, a: AccountData, r: Tree): Tree
  {
    Node(l, a, r, Max(Height(l), Height(r)) + 1)
  }

  function Key(t: Tree): int
    requires t.Node?
  {
    t.acct.accountNumber
  }

  // ---------------------------------------------------------------------------
  // Abstract views of a tree

  ghost function Keys(t: Tree): set<int>
  {
    match t
    case Leaf => {}
    case Node(l, a, r, _) => Keys(l) + {a.accountNumber} + Keys(r)
  }

  /** The records stored in the tree, by account number. */
  ghost function Accounts(t: Tree): (m: map<int, AccountData>)
    ensures m.Keys == Keys(t)
  {
    match t
    case Leaf => map[]
    case Node(l, a, r, _) => (Accounts(l) + Accounts(r))[a.accountNumber := a]
  }

  /** The records in in-order (left subtree, node, right subtree). */
  ghost function InOrder(t: Tree): seq<AccountData>
  {
    match t
    case Leaf => []
    case Node(l, a, r, _) => InOrder(l) + [a] + InOrder(r)
  }

  /** The real height of the tree, independent of the stored fields. */
  ghost function Depth(t: Tree): nat
  {
    match t
    case Leaf => 0
    case Node(l, _, r, _) => 1 + (if Depth(l) < Depth(r) then Depth(r) else Depth(l))
  }

  // ---------------------------------------------------------------------------
  // Invariants

  /** Binary-search-tree ordering: left keys < node key < right keys, everywhere. */
  ghost predicate Ordered(t: Tree)
  {
    match t
    case Leaf => true
    case Node(l, a, r, _) =>
      && Ordered(l) && Ordered(r)
      && (forall k :: k in Keys(l) ==> k < a.accountNumber)
      && (forall k :: k in Keys(r) ==> a.accountNumber < k)
  }

  /** Every stored height is 1 + the larger stored height of the children (a missing child counts 0). */
  ghost predicate HeightsOk(t: Tree)
  {
    match t
    case Leaf => true
    case Node(l, _, r, h) => h == Max(Height(l), Height(r)) + 1 && HeightsOk(l) && HeightsOk(r)
  }

  /** Every balance factor is in {-1, 0, 1}. */
  ghost predicate Balanced(t: Tree)
  {
    match t
    case Leaf => true
    case Node(l, _, r, _) => -1 <= Height(l) - Height(r) <= 1 && Balanced(l) && Balanced(r)
  }

  ghost predicate Avl(t: Tree)
  {
    Ordered(t) && HeightsOk(t) && Balanced(t)
  }

  // ---------------------------------------------------------------------------
  // Basic facts

  /** Where the height fields are maintained they hold the real height. */
  lemma {:induction false} HeightIsDepth(t: Tree)
    requires HeightsOk(t)
    ensures Height(t) == Depth(t)
  {
    if t.Node? {
      HeightIsDepth(t.left);
      HeightIsDepth(t.right);
    }
  }

  lemma {:induction false} HeightNonNegative(t: Tree)
    requires HeightsOk(t)
    ensures Height(t) >= 0
    ensures t.Node? <==> Height(t) > 0
  {
    if t.Node? {
      HeightNonNegative(t.left);
      HeightNonNegative(t.right);
    }
  }

  /** A node with maintained children is unchanged by recomputing its height. */
  lemma MakeNodeOfHeightsOk(t: Tree)
    requires t.Node? && HeightsOk(t)
    ensures MakeNode(t.left, t.acct, t.right) == t
  {
  }

  /** Strictly ascending account numbers. */
  ghost predicate Ascending(s: seq<AccountData>)
  {
    forall i, j :: 0 <= i < j < |s| ==> s[i].accountNumber < s[j].accountNumber
  }

  lemma AscendingJoin(l: seq<AccountData>, a: AccountData, r: seq<AccountData>)
    requires Ascending(l) && Ascending(r)
    requires forall i :: 0 <= i < |l| ==> l[i].accountNumber < a.accountNumber
    requires forall i :: 0 <= i < |r| ==> a.accountNumber < r[i].accountNumber
    ensures Ascending(l + [a] + r)
  {
    var s := l + [a] + r;
    forall i, j | 0 <= i < j < |s|
      ensures s[i].accountNumber < s[j].accountNumber
    {
      if j < |l| {
        assert s[i] == l[i] && s[j] == l[j];
      } else if j == |l| {
        assert s[i] == l[i] && s[j] == a;
      } else if i > |l| {
        assert s[i] == r[i - |l| - 1] && s[j] == r[j - |l| - 1];
      } else if i == |l| {
        assert s[i] == a && s[j] == r[j - |l| - 1];
      } else {
        assert s[i] == l[i] && s[j] == r[j - |l| - 1];
      }
    }
  }

  /** The listing holds exactly the tree's keys, one record per key: every listed
      record carries a key, every key is listed, and there are as many records as keys. */
  lemma {:induction false} InOrderKeys(t: Tree)
    requires Ordered(t)
    ensures forall i :: 0 <= i < |InOrder(t)| ==> InOrder(t)[i].accountNumber in Keys(t)
    ensures forall k :: k in Keys(t) ==> exists i :: 0 <= i < |InOrder(t)| && InOrder(t)[i].accountNumber == k
    ensures |InOrder(t)| == |Keys(t)|
  {
    InOrderMembers(t);
    InOrderCovers(t);
  }

  /** Every listed record carries a key, and the listing is as long as the key set. */
  lemma {:induction false} InOrderMembers(t: Tree)
    requires Ordered(t)
    ensures forall i :: 0 <= i < |InOrder(t)| ==> InOrder(t)[i].accountNumber in Keys(t)
    ensures |InOrder(t)| == |Keys(t)|
  {
    match t
    case Leaf =>
    case Node(l, a, r, _) =>
      InOrderMembers(l);
      InOrderMembers(r);
      var s := InOrder(t);
      forall i | 0 <= i < |s|
        ensures s[i].accountNumber in Keys(t)
      {
        if i < |InOrder(l)| {
          assert s[i] == InOrder(l)[i];
        } else if i > |InOrder(l)| {
          assert s[i] == InOrder(r)[i - |InOrder(l)| - 1];
        }
      }
      assert Keys(l) !! Keys(r) by {
        forall k | k in Keys(l) ensures k !in Keys(r) {
          assert k < a.accountNumber;
        }
      }
      assert a.accountNumber !in Keys(l) + Keys(r);
  }

  /** Every key of the tree is listed. */
  lemma {:induction false} InOrderCovers(t: Tree)
    ensures forall k :: k in Keys(t) ==> exists i :: 0 <= i < |InOrder(t)| && InOrder(t)[i].accountNumber == k
  {
    match t
    case Leaf =>
    case Node(l, a, r, _) =>
      InOrderCovers(l);
      InOrderCovers(r);
      var s := InOrder(t);
      var n := |InOrder(l)|;
      forall k | k in Keys(t)
        ensures exists i :: 0 <= i < |s| && s[i].accountNumber == k
      {
        if k in Keys(l) {
          var i :| 0 <= i < n && InOrder(l)[i].accountNumber == k;
          assert s[i] == InOrder(l)[i];
        } else if k == a.accountNumber {
          assert s[n] == a;
        } else {
          assert k in Keys(r);
          var i :| 0 <= i < |InOrder(r)| && InOrder(r)[i].accountNumber == k;
          assert s[n + 1 + i] == InOrder(r)[i];
        }
      }
      assert forall k :: k in Keys(t) ==> exists i :: 0 <= i < |InOrder(t)| && InOrder(t)[i].accountNumber == k;
  }

  /** inOrderTraversal (Code.cpp:208-214) lists an ordered tree in strictly ascending account number. */
  lemma {:induction false} InOrderAscending(t: Tree)
    requires Ordered(t)
    ensures Ascending(InOrder(t))
  {
    match t
    case Leaf =>
    case Node(l, a, r, _) =>
      InOrderAscending(l);
      InOrderAscending(r);
      InOrderMembers(l);
      InOrderMembers(r);
      AscendingJoin(InOrder(l), a, InOrder(r));
  }

  /** Each listed record is the one the tree stores under its account number. */
  lemma {:induction false} InOrderRecords(t: Tree)
    requires Ordered(t)
    ensures forall i :: 0 <= i < |InOrder(t)| ==>
              InOrder(t)[i].accountNumber in Accounts(t) && Accounts(t)[InOrder(t)[i].accountNumber] == InOrder(t)[i]
  {
    match t
    case Leaf =>
    case Node(l, a, r, _) =>
      InOrderRecords(l);
      InOrderRecords(r);
      InOrderMembers(l);
      InOrderMembers(r);
      var s := InOrder(t);
      assert Accounts(t) == (Accounts(l) + Accounts(r))[a.accountNumber := a];
      forall i | 0 <= i < |s|
        ensures s[i].accountNumber in Accounts(t) && Accounts(t)[s[i].accountNumber] == s[i]
      {
        if i < |InOrder(l)| {
          var x := InOrder(l)[i];
          assert s[i] == x && x.accountNumber in Keys(l);
          assert x.accountNumber !in Keys(r) && x.accountNumber != a.accountNumber;
          NodeMapLeft(Accounts(l), Accounts(r), a.accountNumber, a, x.accountNumber);
        } else if i > |InOrder(l)| {
          var x := InOrder(r)[i - |InOrder(l)| - 1];
          assert s[i] == x && x.accountNumber in Keys(r);
          NodeMapRight(Accounts(l), Accounts(r), a.accountNumber, a, x.accountNumber);
        }
      }
  }

  // ---------------------------------------------------------------------------
  // The record map of a node, (left + right)[key := record], under local changes

  /** Rewriting a key of the left map rewrites the node's map. */
  lemma NodeMapUpdateLeft(ml: map<int, AccountData>, mr: map<int, AccountData>, p: int, a: AccountData, k: int, b: AccountData)
    requires k !in mr && k != p
    ensures (ml[k := b] + mr)[p := a] == (ml + mr)[p := a][k := b]
  {
    var lhs, rhs := (ml[k := b] + mr)[p := a], (ml + mr)[p := a][k := b];
    assert lhs.Keys == rhs.Keys;
    forall x | x in lhs.Keys
      ensures lhs[x] == rhs[x]
    {
      if x != p && x != k && x in mr {
        assert lhs[x] == mr[x];
      }
    }
  }

  /** Rewriting a key of the right map rewrites the node's map. */
  lemma NodeMapUpdateRight(ml: map<int, AccountData>, mr: map<int, AccountData>, p: int, a: AccountData, k: int, b: AccountData)
    requires k != p
    ensures (ml + mr[k := b])[p := a] == (ml + mr)[p := a][k := b]
  {
    var lhs, rhs := (ml + mr[k := b])[p := a], (ml + mr)[p := a][k := b];
    assert lhs.Keys == rhs.Keys;
    forall x | x in lhs.Keys
      ensures lhs[x] == rhs[x]
    {
      if x != p && x != k && x in mr {
        assert lhs[x] == mr[x];
      }
    }
  }

  /** A key of the left map only, other than the node's, keeps its record in the node's map. */
  lemma NodeMapLeft(ml: map<int, AccountData>, mr: map<int, AccountData>, p: int, a: AccountData, x: int)
    requires x in ml && x !in mr && x != p
    ensures x in (ml + mr)[p := a] && (ml + mr)[p := a][x] == ml[x]
  {
  }

  /** A key of the right map, other than the node's, keeps its record in the node's map. */
  lemma NodeMapRight(ml: map<int, AccountData>, mr: map<int, AccountData>, p: int, a: AccountData, x: int)
    requires x in mr && x != p
    ensures x in (ml + mr)[p := a] && (ml + mr)[p := a][x] == mr[x]
  {
  }

  /** The two rotation shapes build the same map. */
  lemma RotationMap(ma: map<int, AccountData>, mb: map<int, AccountData>, mc: map<int, AccountData>,
                    p: AccountData, q: AccountData)
    requires p.accountNumber != q.accountNumber && p.accountNumber !in mc
    ensures (ma + (mb + mc)[q.accountNumber := q])[p.accountNumber := p]
            == ((ma + mb)[p.accountNumber := p] + mc)[q.accountNumber := q]
  {
    var pk, qk := p.accountNumber, q.accountNumber;
    var ml := (ma + (mb + mc)[qk := q])[pk := p];
    var mh := ((ma + mb)[pk := p] + mc)[qk := q];
    assert ml.Keys == mh.Keys;
    forall k | k in ml.Keys
      ensures ml[k] == mh[k]
    {
      if k == qk {
      } else if k == pk {
      } else if k in mc {
        assert ml[k] == mc[k];
      } else if k in mb {
        assert ml[k] == mb[k];
      } else {
        assert ml[k] == ma[k];
      }
    }
  }

  // ---------------------------------------------------------------------------
  // Rotations (Code.cpp:93-117)

  /** rotateRight: the left child x is promoted; its right subtree T2 becomes y's
      left subtree; y's height is recomputed before x's. */
  function RotateRight(y: Tree): (x: Tree)
    requires y.Node? && y.left.Node?
    ensures x.Node? && x.right.Node?
    ensures InOrder(x) == InOrder(y)
    ensures Keys(x) == Keys(y)
    ensures Ordered(y) ==> Ordered(x) && Accounts(x) == Accounts(y)
    ensures HeightsOk(y.left.left) && HeightsOk(y.left.right) && HeightsOk(y.right) ==> HeightsOk(x)
  {
    var lx := y.left;
    var y' := MakeNode(lx.right, y.acct, y.right);
    var x := MakeNode(lx.left, lx.acct, y');
    RotationShapes(lx.left, lx.acct, lx.right, y.acct, y.right, y'.height, x.height, y.height, lx.height);
    x
  }

  /** rotateLeft: the mirror image of rotateRight. */
  function RotateLeft(x: Tree): (y: Tree)
    requires x.Node? && x.right.Node?
    ensures y.Node? && y.left.Node?
    ensures InOrder(y) == InOrder(x)
    ensures Keys(y) == Keys(x)
    ensures Ordered(x) ==> Ordered(y) && Accounts(y) == Accounts(x)
    ensures HeightsOk(x.left) && HeightsOk(x.right.left) && HeightsOk(x.right.right) ==> HeightsOk(y)
  {
    var ry := x.right;
    var x' := MakeNode(x.left, x.acct, ry.left);
    var y := MakeNode(x', ry.acct, ry.right);
    RotationShapes(x.left, x.acct, ry.left, ry.acct, ry.right, ry.height, x.height, y.height, x'.height);
    y
  }

  /** The two shapes a rotation moves between are ordered together, whatever their height fields. */
  lemma RotationShapes(a: Tree, p: AccountData, b: Tree, q: AccountData, c: Tree, h1: int, h2: int, h3: int, h4: int)
    ensures Ordered(Node(a, p, Node(b, q, c, h1), h2)) <==> Ordered(Node(Node(a, p, b, h4), q, c, h3))
    ensures Ordered(Node(a, p, Node(b, q, c, h1), h2)) ==>
              Accounts(Node(a, p, Node(b, q, c, h1), h2)) == Accounts(Node(Node(a, p, b, h4), q, c, h3))
  {
    var bc := Node(b, q, c, h1);
    var ab := Node(a, p, b, h4);
    var lo := Node(a, p, bc, h2);
    var hi := Node(ab, q, c, h3);
    var pk, qk := p.accountNumber, q.accountNumber;
    assert Keys(bc) == Keys(b) + {qk} + Keys(c);
    assert Keys(ab) == Keys(a) + {pk} + Keys(b);
    if Ordered(lo) {
      assert Ordered(a) && Ordered(bc);
      assert Ordered(b) && Ordered(c);
      assert qk in Keys(bc);
      assert pk < qk;
      assert Ordered(ab);
      assert forall k :: k in Keys(ab) ==> k < qk;
      assert Ordered(hi);
      RotationAccounts(a, p, b, q, c, h1, h2, h3, h4);
    }
    if Ordered(hi) {
      assert Ordered(ab) && Ordered(c);
      assert Ordered(a) && Ordered(b);
      assert pk in Keys(ab);
      assert pk < qk;
      assert Ordered(bc);
      assert forall k :: k in Keys(bc) ==> pk < k;
      assert Ordered(lo);
    }
  }

  lemma RotationAccounts(a: Tree, p: AccountData, b: Tree, q: AccountData, c: Tree, h1: int, h2: int, h3: int, h4: int)
    requires p.accountNumber != q.accountNumber && p.accountNumber !in Keys(c)
    ensures Accounts(Node(a, p, Node(b, q, c, h1), h2)) == Accounts(Node(Node(a, p, b, h4), q, c, h3))
  {
    var bc, ab := Node(b, q, c, h1), Node(a, p, b, h4);
    assert Accounts(Node(a, p, bc, h2)) == (Accounts(a) + Accounts(bc))[p.accountNumber := p];
    assert Accounts(bc) == (Accounts(b) + Accounts(c))[q.accountNumber := q];
    assert Accounts(Node(ab, q, c, h3)) == (Accounts(ab) + Accounts(c))[q.accountNumber := q];
    assert Accounts(ab) == (Accounts(a) + Accounts(b))[p.accountNumber := p];
    RotationMap(Accounts(a), Accounts(b), Accounts(c), p, q);
  }

  // ---------------------------------------------------------------------------
  // What the rebalancing rotations achieve on a node that leans by two

  /** Single right rotation of a node whose left side is two higher and leans left or not at all. */
  lemma RotateRightRestores(n: Tree)
    requires n.Node? && n.left.Node?
    requires Avl(n.left) && Avl(n.right)
    requires Height(n.left) == Height(n.right) + 2
    requires BalanceFactor(n.left) == 0 || BalanceFactor(n.left) == 1
    ensures HeightsOk(RotateRight(n)) && Balanced(RotateRight(n))
    ensures Height(RotateRight(n)) == Height(n.right) + (if BalanceFactor(n.left) == 0 then 3 else 2)
  {
    var lx := n.left;
    HeightNonNegative(lx.left);
    HeightNonNegative(lx.right);
    HeightNonNegative(n.right);
  }

  /** Mirror image of RotateRightRestores. */
  lemma RotateLeftRestores(n: Tree)
    requires n.Node? && n.right.Node?
    requires Avl(n.left) && Avl(n.right)
    requires Height(n.right) == Height(n.left) + 2
    requires BalanceFactor(n.right) == 0 || BalanceFactor(n.right) == -1
    ensures HeightsOk(RotateLeft(n)) && Balanced(RotateLeft(n))
    ensures Height(RotateLeft(n)) == Height(n.left) + (if BalanceFactor(n.right) == 0 then 3 else 2)
  {
    var ry := n.right;
    HeightNonNegative(ry.left);
    HeightNonNegative(ry.right);
    HeightNonNegative(n.left);
  }

  /** Left-right double rotation of a node whose left side is two higher and leans right. */
  lemma RotateLeftRightRestores(n: Tree)
    requires n.Node? && n.left.Node?
    requires Avl(n.left) && Avl(n.right)
    requires Height(n.left) == Height(n.right) + 2
    requires BalanceFactor(n.left) == -1
    ensures n.left.right.Node?
    ensures HeightsOk(RotateRight(n.(left := RotateLeft(n.left))))
    ensures Balanced(RotateRight(n.(left := RotateLeft(n.left))))
    ensures Height(RotateRight(n.(left := RotateLeft(n.left)))) == Height(n.right) + 2
  {
    var lx := n.left;
    HeightNonNegative(lx.left);
    HeightNonNegative(lx.right);
    HeightNonNegative(n.right);
    var m := lx.right;
    HeightNonNegative(m.left);
    HeightNonNegative(m.right);
    assert Balanced(m) && Balanced(m.left) && Balanced(m.right) && Balanced(lx.left);
    var a := MakeNode(lx.left, lx.acct, m.left);
    var b := MakeNode(m.right, n.acct, n.right);
    assert RotateLeft(lx) == MakeNode(a, m.acct, m.right);
    assert RotateRight(n.(left := RotateLeft(lx))) == MakeNode(a, m.acct, b);
    assert Balanced(a) && Balanced(b);
  }

  /** Mirror image of RotateLeftRightRestores. */
  lemma RotateRightLeftRestores(n: Tree)
    requires n.Node? && n.right.Node?
    requires Avl(n.left) && Avl(n.right)
    requires Height(n.right) == Height(n.left) + 2
    requires BalanceFactor(n.right) == 1
    ensures n.right.left.Node?
    ensures HeightsOk(RotateLeft(n.(right := RotateRight(n.right))))
    ensures Balanced(RotateLeft(n.(right := RotateRight(n.right))))
    ensures Height(RotateLeft(n.(right := RotateRight(n.right)))) == Height(n.left) + 2
  {
    var ry := n.right;
    HeightNonNegative(ry.left);
    HeightNonNegative(ry.right);
    HeightNonNegative(n.left);
    var m := ry.left;
    HeightNonNegative(m.left);
    HeightNonNegative(m.right);
    assert Balanced(m) && Balanced(m.left) && Balanced(m.right) && Balanced(ry.right);
    var a := MakeNode(n.left, n.acct, m.left);
    var b := MakeNode(m.right, ry.acct, ry.right);
    assert RotateRight(ry) == MakeNode(m.left, m.acct, b);
    assert RotateLeft(n.(right := RotateRight(ry))) == MakeNode(a, m.acct, b);
    assert Balanced(a) && Balanced(b);
  }
}
