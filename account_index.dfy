/**
 * class AccountAVLTree (Code.cpp:80-322) on pointers.  The structs live in the
 * store `nodes` (see AccountStore) and `root` points at the top one.
 * The ghost `Model` is the value tree the pointers spell out.  Each private
 * operation is proved to turn the subtree it is given into what the matching
 * function of AvlInsert, AvlDelete, AccountQueries or AccountUpdates computes,
 * and to leave every struct outside that subtree alone.
 */
module AccountIndex {
  import opened Transactions
  import opened AccountTree
  import opened AccountStore
  import AccountQueries
  import AvlInsert
  import AvlDelete
  import AccountUpdates

  class AccountAVLTree {
    /** Every struct allocated so far; `Ref(i)` points at `nodes[i]`. */
    var nodes: seq<Account>
    var root: Pointer
    /** The accounts the pointers from `root` spell out. */
    ghost var Model: Tree

    ghost predicate Valid()
      reads this
    {
      Holds(nodes, root, Model) && Avl(Model)
    }

    /** AccountAVLTree(): the empty index. */
    constructor ()
      ensures Valid() && Model == Leaf
    {
      nodes := [];
      root := Null;
      Model := Leaf;
    }

    // -------------------------------------------------------------------------
    // Utilities (Code.cpp:85-117)

    /** getHeight: the stored height of a node, 0 for nullptr; on a pointer tree
        it is the height of the subtree. */
    function GetHeight(node: Pointer): (h: int)
      reads this
      requires InStore(nodes, node)
      ensures forall t :: Represents(nodes, node, t) ==> h == Height(t)
    {
      if node == Null then 0 else nodes[node.addr].height
    }

    /** getBalanceFactor: left height minus right height, 0 for nullptr. */
    function GetBalanceFactor(node: Pointer): (bf: int)
      reads this
      requires InStore(nodes, node)
      requires node.Ref? ==> InStore(nodes, nodes[node.addr].left) && InStore(nodes, nodes[node.addr].right)
      ensures forall t :: Represents(nodes, node, t) ==> bf == BalanceFactor(t)
    {
      if node == Null then 0 else GetHeight(nodes[node.addr].left) - GetHeight(nodes[node.addr].right)
    }

    /** rotateRight: turns the subtree at `y` into AccountTree.RotateRight of it
        by rewriting the two structs involved, and returns the new top `x`. */
    method RotateRight(y: Pointer, ghost t: Tree) returns (x: Pointer)
      requires Holds(nodes, y, t) && t.Node? && t.left.Node?
      modifies this`nodes
      ensures Replaced(old(nodes), y, t, nodes, x, AccountTree.RotateRight(t)) && |nodes| == old(|nodes|)
    {
      ghost var h0 := nodes;
      Parts(nodes, y, t);
      x := nodes[y.addr].left;
      Parts(nodes, x, t.left);
      var t2 := nodes[x.addr].right;
      nodes := nodes[x.addr := nodes[x.addr].(right := y)];
      nodes := nodes[y.addr := nodes[y.addr].(left := t2)];
      nodes := nodes[y.addr := nodes[y.addr].(height := Max(GetHeight(nodes[y.addr].left), GetHeight(nodes[y.addr].right)) + 1)];
      nodes := nodes[x.addr := nodes[x.addr].(height := Max(GetHeight(nodes[x.addr].left), GetHeight(nodes[x.addr].right)) + 1)];
      RotatedRight(h0, nodes, y, t);
    }

    /** rotateLeft: the mirror image of rotateRight. */
    method RotateLeft(x: Pointer, ghost t: Tree) returns (y: Pointer)
      requires Holds(nodes, x, t) && t.Node? && t.right.Node?
      modifies this`nodes
      ensures Replaced(old(nodes), x, t, nodes, y, AccountTree.RotateLeft(t)) && |nodes| == old(|nodes|)
    {
      ghost var h0 := nodes;
      Parts(nodes, x, t);
      y := nodes[x.addr].right;
      Parts(nodes, y, t.right);
      var t2 := nodes[y.addr].left;
      nodes := nodes[y.addr := nodes[y.addr].(left := x)];
      nodes := nodes[x.addr := nodes[x.addr].(right := t2)];
      nodes := nodes[x.addr := nodes[x.addr].(height := Max(GetHeight(nodes[x.addr].left), GetHeight(nodes[x.addr].right)) + 1)];
      nodes := nodes[y.addr := nodes[y.addr].(height := Max(GetHeight(nodes[y.addr].left), GetHeight(nodes[y.addr].right)) + 1)];
      RotatedLeft(h0, nodes, x, t);
    }

    /** `node->left = rotateLeft(node->left); return rotateRight(node);`
        (Code.cpp:139-140, 193-194): the left-right double rotation. */
    method RotateLeftRight(node: Pointer, ghost n: Tree) returns (r: Pointer)
      requires Holds(nodes, node, n) && n.Node? && n.left.Node? && n.left.right.Node?
      modifies this`nodes
      ensures Replaced(old(nodes), node, n, nodes, r, AccountTree.RotateRight(n.(left := AccountTree.RotateLeft(n.left))))
      ensures |nodes| == old(|nodes|)
    {
      ghost var h0 := nodes;
      Parts(nodes, node, n);
      ghost var l' := AccountTree.RotateLeft(n.left);
      var l := RotateLeft(nodes[node.addr].left, n.left);
      RelinkLeft(h0, nodes, node, n, l, l');
      nodes := nodes[node.addr := nodes[node.addr].(left := l)];
      ghost var h1 := nodes;
      r := RotateRight(node, n.(left := l'));
      ReplacedTrans(h0, node, n, h1, node, n.(left := l'), nodes, r, AccountTree.RotateRight(n.(left := l')));
    }

    /** `node->right = rotateRight(node->right); return rotateLeft(node);`
        (Code.cpp:143-144, 199-200): the right-left double rotation. */
    method RotateRightLeft(node: Pointer, ghost n: Tree) returns (r: Pointer)
      requires Holds(nodes, node, n) && n.Node? && n.right.Node? && n.right.left.Node?
      modifies this`nodes
      ensures Replaced(old(nodes), node, n, nodes, r, AccountTree.RotateLeft(n.(right := AccountTree.RotateRight(n.right))))
      ensures |nodes| == old(|nodes|)
    {
      ghost var h0 := nodes;
      Parts(nodes, node, n);
      ghost var r' := AccountTree.RotateRight(n.right);
      var rr := RotateRight(nodes[node.addr].right, n.right);
      RelinkRight(h0, nodes, node, n, rr, r');
      nodes := nodes[node.addr := nodes[node.addr].(right := rr)];
      ghost var h1 := nodes;
      r := RotateLeft(node, n.(right := r'));
      ReplacedTrans(h0, node, n, h1, node, n.(right := r'), nodes, r, AccountTree.RotateLeft(n.(right := r')));
    }

    // -------------------------------------------------------------------------
    // insert (Code.cpp:119-149)

    /** insert: returns the pointer tree of AvlInsert.Insert on the subtree at
        `node`.  It allocates one struct, for a new account number only, and
        rewrites only structs of the old subtree. */
    method Insert(node: Pointer, ghost t: Tree, accNum: int, name: string, initialBalance: int, pin: string) returns (r: Pointer)
      requires Holds(nodes, node, t) && Avl(t)
      modifies this`nodes
      ensures Replaced(old(nodes), node, t, nodes, r, AvlInsert.Insert(t, accNum, name, initialBalance, pin))
      ensures |nodes| == old(|nodes|) + (if accNum in Keys(t) then 0 else 1)
      decreases t
    {
      if node == Null {
        r := Ref(|nodes|);
        nodes := nodes + [Account(NewAccount(accNum, name, initialBalance, pin), Null, Null, 1)];
        assert Holds(nodes, r, Node(Leaf, NewAccount(accNum, name, initialBalance, pin), Leaf, 1));
        return;
      }
      ghost var h0 := nodes;
      Parts(nodes, node, t);
      ghost var n: Tree;
      if accNum < nodes[node.addr].data.accountNumber {
        ghost var l' := AvlInsert.Insert(t.left, accNum, name, initialBalance, pin);
        var l := Insert(nodes[node.addr].left, t.left, accNum, name, initialBalance, pin);
        RelinkLeft(h0, nodes, node, t, l, l');
        nodes := nodes[node.addr := nodes[node.addr].(left := l)];
        n := Node(l', t.acct, t.right, t.height);
        AvlInsert.InsertLeftStep(t, accNum, name, initialBalance, pin);
      } else if accNum > nodes[node.addr].data.accountNumber {
        ghost var r' := AvlInsert.Insert(t.right, accNum, name, initialBalance, pin);
        var rr := Insert(nodes[node.addr].right, t.right, accNum, name, initialBalance, pin);
        RelinkRight(h0, nodes, node, t, rr, r');
        nodes := nodes[node.addr := nodes[node.addr].(right := rr)];
        n := Node(t.left, t.acct, r', t.height);
        AvlInsert.InsertRightStep(t, accNum, name, initialBalance, pin);
      } else {
        // a duplicate account number is not inserted
        return node;
      }
      ghost var h1 := nodes;
      r := BalanceAfterInsert(node, n, accNum);
      ReplacedTrans(h0, node, t, h1, node, n, nodes, r, AvlInsert.InsertRebalance(MakeNode(n.left, n.acct, n.right), accNum));
    }

    /** The tail of insert (Code.cpp:130-148): recompute the node's height, then
        rotate as AvlInsert.InsertRebalance does, reusing the same structs. */
    method BalanceAfterInsert(node: Pointer, ghost n0: Tree, accNum: int) returns (r: Pointer)
      requires Holds(nodes, node, n0) && n0.Node? && AvlInsert.InsertShape(MakeNode(n0.left, n0.acct, n0.right), accNum)
      modifies this`nodes
      ensures Replaced(old(nodes), node, n0, nodes, r, AvlInsert.InsertRebalance(MakeNode(n0.left, n0.acct, n0.right), accNum))
      ensures |nodes| == old(|nodes|)
    {
      ghost var h0 := nodes;
      ghost var n := MakeNode(n0.left, n0.acct, n0.right);
      Parts(nodes, node, n0);
      nodes := nodes[node.addr := nodes[node.addr].(height := Max(GetHeight(nodes[node.addr].left), GetHeight(nodes[node.addr].right)) + 1)];
      Overwrite(h0, node, n0, n.acct, n.height);
      ghost var h1 := nodes;
      Parts(nodes, node, n);
      var balanceFactor := GetBalanceFactor(node);
      if balanceFactor > 1 && accNum < nodes[nodes[node.addr].left.addr].data.accountNumber {
        r := RotateRight(node, n);
      } else if balanceFactor < -1 && accNum > nodes[nodes[node.addr].right.addr].data.accountNumber {
        r := RotateLeft(node, n);
      } else if balanceFactor > 1 && accNum > nodes[nodes[node.addr].left.addr].data.accountNumber {
        RotateLeftRightRestores(n);
        r := RotateLeftRight(node, n);
      } else if balanceFactor < -1 && accNum < nodes[nodes[node.addr].right.addr].data.accountNumber {
        RotateRightLeftRestores(n);
        r := RotateRightLeft(node, n);
      } else {
        r := node;
      }
      ReplacedTrans(h0, node, n0, h1, node, n, nodes, r, AvlInsert.InsertRebalance(n, accNum));
    }

    // -------------------------------------------------------------------------
    // findMin and deleteNode (Code.cpp:151-206)

    /** findMin: follows left pointers from `node` to the struct that holds
        MinAccount(t), the record with the least account number of the subtree. */
    method FindMin(node: Pointer, ghost t: Tree) returns (m: Pointer)
      requires Holds(nodes, node, t) && t.Node?
      ensures m.Ref? && m.addr in Footprint(nodes, node, t)
      ensures nodes[m.addr].data == AccountQueries.MinAccount(t)
    {
      m := node;
      ghost var s := t;
      Parts(nodes, m, s);
      while nodes[m.addr].left != Null
        invariant Holds(nodes, m, s) && s.Node? && m.Ref? && m.addr < |nodes|
        invariant AccountQueries.MinAccount(s) == AccountQueries.MinAccount(t)
        invariant Footprint(nodes, m, s) <= Footprint(nodes, node, t)
        decreases s
      {
        Parts(nodes, m, s);
        m := nodes[m.addr].left;
        s := s.left;
        Parts(nodes, m, s);
      }
      Parts(nodes, m, s);
    }

    /** deleteNode: returns the pointer tree of AvlDelete.Delete on the subtree
        at `node`.  It allocates nothing and rewrites only structs of the old
        subtree; the structs it unlinks stay in the store. */
    method DeleteNode(node: Pointer, ghost t: Tree, accNum: int) returns (r: Pointer)
      requires Holds(nodes, node, t) && Avl(t)
      modifies this`nodes
      ensures Replaced(old(nodes), node, t, nodes, r, AvlDelete.Delete(t, accNum)) && |nodes| == old(|nodes|)
      decreases t
    {
      if node == Null {
        return node;
      }
      ghost var h0 := nodes;
      Parts(nodes, node, t);
      ghost var n: Tree;
      if accNum < nodes[node.addr].data.accountNumber {
        ghost var l' := AvlDelete.Delete(t.left, accNum);
        var l := DeleteNode(nodes[node.addr].left, t.left, accNum);
        RelinkLeft(h0, nodes, node, t, l, l');
        nodes := nodes[node.addr := nodes[node.addr].(left := l)];
        n := Node(l', t.acct, t.right, t.height);
        AvlDelete.DeleteLeftStep(t, accNum);
      } else if accNum > nodes[node.addr].data.accountNumber {
        ghost var r' := AvlDelete.Delete(t.right, accNum);
        var rr := DeleteNode(nodes[node.addr].right, t.right, accNum);
        RelinkRight(h0, nodes, node, t, rr, r');
        nodes := nodes[node.addr := nodes[node.addr].(right := rr)];
        n := Node(t.left, t.acct, r', t.height);
        AvlDelete.DeleteRightStep(t, accNum);
      } else if nodes[node.addr].left == Null || nodes[node.addr].right == Null {
        var temp := if nodes[node.addr].left != Null then nodes[node.addr].left else nodes[node.addr].right;
        AvlDelete.DeleteChildStep(t, accNum);
        if temp == Null {
          // `root = nullptr`: the leaf's struct is released
          return Null;
        }
        // `*root = *temp`: the node's struct becomes a copy of its only child's
        ghost var c := if t.left.Node? then t.left else t.right;
        CopyChild(h0, node, t, temp, c);
        nodes := nodes[node.addr := nodes[temp.addr]];
        n := c;
      } else {
        var temp := FindMin(nodes[node.addr].right, t.right);
        ghost var mn := AccountQueries.MinAccount(t.right);
        ghost var t1 := Node(t.left, AvlDelete.Successor(t.acct, mn), t.right, t.height);
        var m := nodes[temp.addr].data;
        // number, holder name, balance and history are copied; the PIN stays
        nodes := nodes[node.addr := nodes[node.addr].(data := nodes[node.addr].data.(
          accountNumber := m.accountNumber, accountHolderName := m.accountHolderName,
          balance := m.balance, history := m.history))];
        Overwrite(h0, node, t, t1.acct, t.height);
        ghost var h1 := nodes;
        Parts(nodes, node, t1);
        ghost var r' := AvlDelete.Delete(t.right, mn.accountNumber);
        var rr := DeleteNode(nodes[node.addr].right, t.right, m.accountNumber);
        RelinkRight(h1, nodes, node, t1, rr, r');
        nodes := nodes[node.addr := nodes[node.addr].(right := rr)];
        n := Node(t.left, t1.acct, r', t.height);
        ReplacedTrans(h0, node, t, h1, node, t1, nodes, node, n);
        AvlDelete.DeleteSuccessorStep(t, accNum);
      }
      ghost var h2 := nodes;
      r := BalanceAfterDelete(node, n);
      ReplacedTrans(h0, node, t, h2, node, n, nodes, r, AvlDelete.DeleteRebalance(MakeNode(n.left, n.acct, n.right)));
    }

    /** The tail of deleteNode (Code.cpp:185-203): recompute the node's height,
        then rotate as AvlDelete.DeleteRebalance does, reusing the same structs. */
    method BalanceAfterDelete(node: Pointer, ghost n0: Tree) returns (r: Pointer)
      requires Holds(nodes, node, n0) && n0.Node? && AvlDelete.DeleteShape(MakeNode(n0.left, n0.acct, n0.right))
      modifies this`nodes
      ensures Replaced(old(nodes), node, n0, nodes, r, AvlDelete.DeleteRebalance(MakeNode(n0.left, n0.acct, n0.right)))
      ensures |nodes| == old(|nodes|)
    {
      ghost var h0 := nodes;
      ghost var n := MakeNode(n0.left, n0.acct, n0.right);
      Parts(nodes, node, n0);
      nodes := nodes[node.addr := nodes[node.addr].(height := Max(GetHeight(nodes[node.addr].left), GetHeight(nodes[node.addr].right)) + 1)];
      Overwrite(h0, node, n0, n.acct, n.height);
      ghost var h1 := nodes;
      Parts(nodes, node, n);
      HeightNonNegative(n.left);
      HeightNonNegative(n.right);
      var balanceFactor := GetBalanceFactor(node);
      if balanceFactor > 1 {
        Parts(nodes, nodes[node.addr].left, n.left);
      } else if balanceFactor < -1 {
        Parts(nodes, nodes[node.addr].right, n.right);
      }
      if balanceFactor > 1 && GetBalanceFactor(nodes[node.addr].left) >= 0 {
        r := RotateRight(node, n);
      } else if balanceFactor > 1 && GetBalanceFactor(nodes[node.addr].left) < 0 {
        RotateLeftRightRestores(n);
        r := RotateLeftRight(node, n);
      } else if balanceFactor < -1 && GetBalanceFactor(nodes[node.addr].right) <= 0 {
        r := RotateLeft(node, n);
      } else if balanceFactor < -1 && GetBalanceFactor(nodes[node.addr].right) > 0 {
        RotateRightLeftRestores(n);
        r := RotateRightLeft(node, n);
      } else {
        r := node;
      }
      ReplacedTrans(h0, node, n0, h1, node, n, nodes, r, AvlDelete.DeleteRebalance(n));
    }

    // -------------------------------------------------------------------------
    // The read-only traversals (Code.cpp:208-214, 226-230)

    /** inOrderTraversal: the rows it prints, left subtree first; they are the
        rows of AccountQueries.Listing. */
    method InOrderTraversal(node: Pointer, ghost t: Tree) returns (rows: seq<AccountQueries.Row>)
      requires Represents(nodes, node, t)
      ensures rows == AccountQueries.Listing(t)
      decreases t
    {
      if node == Null {
        return [];
      }
      var left := InOrderTraversal(nodes[node.addr].left, t.left);
      var d := nodes[node.addr].data;
      var right := InOrderTraversal(nodes[node.addr].right, t.right);
      rows := left + [AccountQueries.RowOf(d)] + right;
    }

    /** calculateTotalFunds: the sum of the balances of every record of the
        subtree, in in-order sequence (the sum does not depend on the shape). */
    function CalculateTotalFunds(node: Pointer, ghost t: Tree): (total: int)
      reads this
      requires Represents(nodes, node, t)
      ensures total == AccountQueries.TotalFunds(t)
      ensures total == AccountQueries.SumBalances(InOrder(t))
      decreases t
    {
      if node == Null then 0
      else nodes[node.addr].data.balance
           + CalculateTotalFunds(nodes[node.addr].left, t.left)
           + CalculateTotalFunds(nodes[node.addr].right, t.right)
    }

    // -------------------------------------------------------------------------
    // The public interface (Code.cpp:251-275)

    /** createAccount: insert at the root; a number already present changes nothing. */
    method CreateAccount(accNum: int, name: string, initialBalance: int, pin: string)
      requires Valid()
      modifies this
      ensures Valid() && Model == AvlInsert.Insert(old(Model), accNum, name, initialBalance, pin)
    {
      root := Insert(root, Model, accNum, name, initialBalance, pin);
      Model := AvlInsert.Insert(Model, accNum, name, initialBalance, pin);
    }

    /** deleteAccount: delete at the root; an absent number changes nothing. */
    method DeleteAccount(accNum: int)
      requires Valid()
      modifies this
      ensures Valid() && Model == AvlDelete.Delete(old(Model), accNum)
    {
      root := DeleteNode(root, Model, accNum);
      Model := AvlDelete.Delete(Model, accNum);
    }

    /** displayAccounts: one row per stored account, in strictly ascending
        account number, each showing the stored record. */
    method DisplayAccounts() returns (rows: seq<AccountQueries.Row>)
      requires Valid()
      ensures rows == AccountQueries.Listing(Model)
      ensures forall i, j :: 0 <= i < j < |rows| ==> rows[i].accountNumber < rows[j].accountNumber
      ensures forall i :: 0 <= i < |rows| ==>
                rows[i].accountNumber in Accounts(Model) && rows[i] == AccountQueries.RowOf(Accounts(Model)[rows[i].accountNumber])
      ensures forall k :: k in Keys(Model) ==> exists i :: 0 <= i < |rows| && rows[i].accountNumber == k
    {
      rows := InOrderTraversal(root, Model);
      AccountQueries.ListingIsAccounts(Model);
    }

    /** searchAccount: the pointer to the struct holding `accNum`, or nullptr
        exactly when no account has that number. */
    function SearchAccount(accNum: int): (p: Pointer)
      reads this
      requires Valid()
      ensures p == Null <==> accNum !in Keys(Model)
      ensures p != Null ==> p.addr < |nodes| && nodes[p.addr].data == Accounts(Model)[accNum]
    {
      Search(nodes, root, Model, accNum)
    }

    /** getTotalFunds: the sum of the balances of all accounts. */
    function GetTotalFunds(): (total: int)
      reads this
      requires Valid()
      ensures total == AccountQueries.SumBalances(InOrder(Model))
    {
      CalculateTotalFunds(root, Model)
    }

    /** The field writes `main` makes through a pointer searchAccount returned
        (Code.cpp:381-382, 405-406, 438-442), as one record update: the index
        changes as AccountUpdates.UpdateAt says and every pointer searchAccount
        returns stays what it was. */
    method SetRecord(p: Pointer, b: AccountData)
      requires Valid() && p != Null && p == SearchAccount(b.accountNumber)
      modifies this`nodes, this`Model
      ensures Valid() && Model == AccountUpdates.UpdateAt(old(Model), b.accountNumber, b)
      ensures nodes == old(nodes)[p.addr := old(nodes)[p.addr].(data := b)]
      ensures forall j :: SearchAccount(j) == old(SearchAccount(j))
    {
      WriteThrough(nodes, root, Model, b.accountNumber, b);
      AccountUpdates.UpdateAtEffect(Model, b.accountNumber, b);
      nodes := nodes[p.addr := nodes[p.addr].(data := b)];
      Model := AccountUpdates.UpdateAt(Model, b.accountNumber, b);
    }

    /** loadFromFileHelper once the file is parsed into records: insert each
        record at the root in file order, so the index becomes Loaded of the old one. */
    method LoadRecords(records: seq<Record>)
      requires Valid()
      modifies this
      ensures Valid() && Model == Loaded(old(Model), records)
    {
      var i := 0;
      while i < |records|
        invariant 0 <= i <= |records|
        invariant Valid() && Model == Loaded(old(Model), records[..i])
      {
        var r := records[i];
        CreateAccount(r.accountNumber, r.name, r.balance, r.pin);
        assert records[..i + 1][..i] == records[..i];
        i := i + 1;
      }
      assert records[..i] == records;
    }

    // -------------------------------------------------------------------------
    // applyInterest (Code.cpp:299-314)

    /** applyInterest: visits the structs breadth-first with a queue of pointers
        (nullptr entries are queued and skipped) and rewrites each record as
        AccountUpdates.Interest does; the index then spells out WithInterest of
        the old one.  `grow` and `interestOn` stand for `balance * (1 + rate / 100)`
        and `balance * rate / 100`, and `timestamp` for getCurrentTimestamp(). */
    method ApplyInterest(grow: int -> int, interestOn: int -> int, timestamp: string)
      requires Valid()
      modifies this`nodes, this`Model
      ensures Valid()
      ensures Model == AccountUpdates.WithInterest(old(Model), grow, interestOn, timestamp)
      ensures |nodes| == old(|nodes|)
    {
      ghost var h0 := nodes;
      ghost var all := Footprint(nodes, root, Model);
      var q := [root];
      ghost var qt := [Model];
      ghost var done: set<nat> := {};
      assert Forest(h0, q, qt) by {
        assert q[1..] == [] && qt[1..] == [];
        assert Forest(h0, q[1..], qt[1..]) && Pending(h0, q[1..], qt[1..]) == {};
      }
      assert Visiting(h0, nodes, q, qt, done, all, grow, interestOn, timestamp);
      while q != []
        invariant Visiting(h0, nodes, q, qt, done, all, grow, interestOn, timestamp)
        invariant Model == old(Model)
        decreases all - done, |q|
      {
        var current := q[0];
        if current == Null {
          VisitNull(h0, nodes, q, qt, done, all, grow, interestOn, timestamp);
          q, qt := q[1..], qt[1..];
        } else {
          VisitNode(h0, nodes, q, qt, done, all, grow, interestOn, timestamp);
          ghost var ct := qt[0];
          q, qt := q[1..], qt[1..];
          nodes := nodes[current.addr := nodes[current.addr].(data := nodes[current.addr].data.(
            balance := grow(nodes[current.addr].data.balance)))];
          nodes := nodes[current.addr := nodes[current.addr].(data := nodes[current.addr].data.(
            history := [Transaction(Kind.Interest, interestOn(nodes[current.addr].data.balance), timestamp)]
                       + nodes[current.addr].data.history))];
          done := done + {current.addr};
          q, qt := q + [nodes[current.addr].left], qt + [ct.left];
          q, qt := q + [nodes[current.addr].right], qt + [ct.right];
        }
      }
      VisitedAll(h0, nodes, done, all, grow, interestOn, timestamp);
      InterestApplied(h0, nodes, root, Model, grow, interestOn, timestamp);
      AccountUpdates.InterestShape(Model, grow, interestOn, timestamp);
      Model := AccountUpdates.WithInterest(Model, grow, interestOn, timestamp);
    }
  }

  /** One line of the accounts file as loadFromFileHelper reads it: number,
      holder name, balance and PIN. */
  datatype Record = Record(accountNumber: int, name: string, balance: int, pin: string)

  /** The account numbers of a run of records. */
  ghost function Numbers(rs: seq<Record>): set<int>
    decreases |rs|
  {
    if rs == [] then {} else Numbers(rs[..|rs| - 1]) + {rs[|rs| - 1].accountNumber}
  }

  /** Whether the index stores, under the number of `r`, the account `r` opens. */
  ghost predicate NewRecord(u: Tree, r: Record)
  {
    r.accountNumber in Accounts(u) && Accounts(u)[r.accountNumber] == NewAccount(r.accountNumber, r.name, r.balance, r.pin)
  }

  /** The index after inserting `rs` in order, a left fold of insert; it stays AVL. */
  function Loaded(t: Tree, rs: seq<Record>): (u: Tree)
    requires Avl(t)
    ensures Avl(u)
    decreases |rs|
  {
    if rs == [] then t
    else
      var r := rs[|rs| - 1];
      AvlInsert.Insert(Loaded(t, rs[..|rs| - 1]), r.accountNumber, r.name, r.balance, r.pin)
  }

  /** Loading gains exactly the numbers of the records and keeps every record
      the index had; a number new to the index gets the account of the first
      record carrying it, since later ones are duplicates insert ignores. */
  lemma {:induction false} LoadedEffect(t: Tree, rs: seq<Record>)
    requires Avl(t)
    ensures Keys(Loaded(t, rs)) == Keys(t) + Numbers(rs)
    ensures forall k :: k in Keys(t) ==> Accounts(Loaded(t, rs))[k] == Accounts(t)[k]
    ensures forall i :: 0 <= i < |rs| && rs[i].accountNumber !in Keys(t) && rs[i].accountNumber !in Numbers(rs[..i]) ==>
              NewRecord(Loaded(t, rs), rs[i])
    decreases |rs|
  {
    if rs != [] {
      var r := rs[|rs| - 1];
      var before := rs[..|rs| - 1];
      LoadedEffect(t, before);
      forall i | 0 <= i < |rs| && rs[i].accountNumber !in Keys(t) && rs[i].accountNumber !in Numbers(rs[..i])
        ensures NewRecord(Loaded(t, rs), rs[i])
      {
        LoadedStep(t, rs, i);
      }
    }
  }

  /** One record of LoadedEffect's last clause, given the clauses for the records before the last. */
  lemma LoadedStep(t: Tree, rs: seq<Record>, i: int)
    requires Avl(t) && 0 <= i < |rs|
    requires rs[i].accountNumber !in Keys(t) && rs[i].accountNumber !in Numbers(rs[..i])
    requires var before := rs[..|rs| - 1];
      && Keys(Loaded(t, before)) == Keys(t) + Numbers(before)
      && forall i :: 0 <= i < |before| && before[i].accountNumber !in Keys(t) && before[i].accountNumber !in Numbers(before[..i]) ==>
           NewRecord(Loaded(t, before), before[i])
    ensures NewRecord(Loaded(t, rs), rs[i])
  {
    var before := rs[..|rs| - 1];
    var r := rs[|rs| - 1];
    if i < |before| {
      assert before[i] == rs[i] && before[..i] == rs[..i];
      InsertKeeps(Loaded(t, before), r, rs[i]);
    } else {
      assert rs[..i] == before;
      InsertAdds(Loaded(t, before), r);
    }
  }

  /** Inserting a record keeps an account that was stored (a duplicate number changes nothing). */
  lemma InsertKeeps(u: Tree, r: Record, q: Record)
    requires Avl(u) && NewRecord(u, q)
    ensures NewRecord(AvlInsert.Insert(u, r.accountNumber, r.name, r.balance, r.pin), q)
  {
  }

  /** Inserting a record under a new number stores the account it opens. */
  lemma InsertAdds(u: Tree, r: Record)
    requires Avl(u) && r.accountNumber !in Keys(u)
    ensures NewRecord(AvlInsert.Insert(u, r.accountNumber, r.name, r.balance, r.pin), r)
  {
  }

  /** search (Code.cpp:216-224): follows the search path for `accNum` from
      `node` through the store `h` and returns the pointer to the struct holding
      it, or nullptr; it points at the subtree AccountQueries.Search finds. */
  function Search(h: seq<Account>, node: Pointer, ghost t: Tree, accNum: int): (s: Pointer)
    requires Represents(h, node, t)
    ensures Represents(h, s, AccountQueries.Search(t, accNum))
    decreases t
  {
    if node == Null || h[node.addr].data.accountNumber == accNum then node
    else if accNum < h[node.addr].data.accountNumber then Search(h, h[node.addr].left, t.left, accNum)
    else Search(h, h[node.addr].right, t.right, accNum)
  }

  /** A found struct belongs to the subtree searched. */
  lemma {:induction false} SearchInside(h: seq<Account>, node: Pointer, t: Tree, accNum: int)
    requires Represents(h, node, t) && Search(h, node, t, accNum) != Null
    ensures Search(h, node, t, accNum).addr in Footprint(h, node, t)
    decreases t
  {
    var n := h[node.addr];
    if n.data.accountNumber != accNum {
      if accNum < n.data.accountNumber {
        SearchInside(h, n.left, t.left, accNum);
      } else {
        SearchInside(h, n.right, t.right, accNum);
      }
    }
  }

  /** Search reads only the structs of the subtree it searches. */
  lemma {:induction false} SearchFrame(h: seq<Account>, h': seq<Account>, node: Pointer, t: Tree)
    requires Holds(h, node, t)
    requires forall i :: i in Footprint(h, node, t) ==> i < |h'| && h'[i] == h[i]
    ensures Holds(h', node, t) && Footprint(h', node, t) == Footprint(h, node, t)
    ensures forall j :: Search(h', node, t, j) == Search(h, node, t, j)
    decreases t
  {
    Frame(h, h', node, t);
    if t.Node? {
      Parts(h, node, t);
      SearchFrame(h, h', h[node.addr].left, t.left);
      SearchFrame(h, h', h[node.addr].right, t.right);
    }
  }

  /** Writing a record with the same account number through the pointer search
      returned changes the tree as AccountUpdates.UpdateAt does, keeps every
      struct in place, and leaves every search result as it was. */
  lemma {:induction false} WriteThrough(h: seq<Account>, node: Pointer, t: Tree, k: int, b: AccountData)
    requires Holds(h, node, t) && Search(h, node, t, k) != Null && b.accountNumber == k
    ensures Search(h, node, t, k).addr < |h|
    ensures var p := Search(h, node, t, k);
      var h' := h[p.addr := h[p.addr].(data := b)];
      && Holds(h', node, AccountUpdates.UpdateAt(t, k, b))
      && Footprint(h', node, AccountUpdates.UpdateAt(t, k, b)) == Footprint(h, node, t)
      && forall j :: Search(h', node, AccountUpdates.UpdateAt(t, k, b), j) == Search(h, node, t, j)
    decreases t
  {
    Parts(h, node, t);
    SearchInside(h, node, t, k);
    var n := h[node.addr];
    var p := Search(h, node, t, k);
    var h' := h[p.addr := h[p.addr].(data := b)];
    var u := AccountUpdates.UpdateAt(t, k, b);
    if n.data.accountNumber == k {
      SearchFrame(h, h', n.left, t.left);
      SearchFrame(h, h', n.right, t.right);
      Assemble(h', node, t.left, t.right);
    } else if k < n.data.accountNumber {
      WriteThrough(h, n.left, t.left, k, b);
      SearchInside(h, n.left, t.left, k);
      SearchFrame(h, h', n.right, t.right);
      Assemble(h', node, u.left, t.right);
    } else {
      WriteThrough(h, n.right, t.right, k, b);
      SearchInside(h, n.right, t.right, k);
      SearchFrame(h, h', n.left, t.left);
      Assemble(h', node, t.left, u.right);
    }
  }

  /** A struct after applyInterest has rewritten its record. */
  function Bumped(n: Account, grow: int -> int, interestOn: int -> int, timestamp: string): Account
  {
    n.(data := AccountUpdates.Interest(n.data, grow, interestOn, timestamp))
  }

  /** The loop invariant of applyInterest: the queue holds disjoint subtrees of
      the original store `h0` that, with the structs already `done`, make up all
      of it, and exactly the `done` structs have been rewritten. */
  ghost predicate Visiting(h0: seq<Account>, h: seq<Account>, q: seq<Pointer>, qt: seq<Tree>, done: set<nat>, all: set<nat>,
                           grow: int -> int, interestOn: int -> int, timestamp: string)
  {
    && |h| == |h0| && Forest(h0, q, qt)
    && Pending(h0, q, qt) !! done && Pending(h0, q, qt) + done == all
    && forall i :: 0 <= i < |h| ==> h[i] == if i in done then Bumped(h0[i], grow, interestOn, timestamp) else h0[i]
  }

  /** Popping nullptr from the queue changes nothing else. */
  lemma VisitNull(h0: seq<Account>, h: seq<Account>, q: seq<Pointer>, qt: seq<Tree>, done: set<nat>, all: set<nat>,
                  grow: int -> int, interestOn: int -> int, timestamp: string)
    requires Visiting(h0, h, q, qt, done, all, grow, interestOn, timestamp) && q != [] && q[0] == Null
    ensures Visiting(h0, h, q[1..], qt[1..], done, all, grow, interestOn, timestamp)
  {
  }

  /** Popping a node: its struct is still the original one and not yet done;
      rewriting it and queuing its two children keeps the invariant. */
  lemma VisitNode(h0: seq<Account>, h: seq<Account>, q: seq<Pointer>, qt: seq<Tree>, done: set<nat>, all: set<nat>,
                  grow: int -> int, interestOn: int -> int, timestamp: string)
    requires Visiting(h0, h, q, qt, done, all, grow, interestOn, timestamp) && q != [] && q[0] != Null
    ensures q[0].addr < |h| && h[q[0].addr] == h0[q[0].addr] && qt[0].Node?
    ensures q[0].addr in all && q[0].addr !in done
    ensures var c := q[0].addr;
      Visiting(h0, h[c := Bumped(h0[c], grow, interestOn, timestamp)],
               q[1..] + [h0[c].left] + [h0[c].right], qt[1..] + [qt[0].left] + [qt[0].right],
               done + {c}, all, grow, interestOn, timestamp)
  {
    var c := q[0].addr;
    Parts(h0, q[0], qt[0]);
    ForestPush(h0, q[1..], qt[1..], h0[c].left, qt[0].left);
    ForestPush(h0, q[1..] + [h0[c].left], qt[1..] + [qt[0].left], h0[c].right, qt[0].right);
  }

  /** With the queue empty every struct of the original tree is done. */
  lemma VisitedAll(h0: seq<Account>, h: seq<Account>, done: set<nat>, all: set<nat>,
                   grow: int -> int, interestOn: int -> int, timestamp: string)
    requires Visiting(h0, h, [], [], done, all, grow, interestOn, timestamp)
    requires forall i :: i in all ==> i < |h0|
    ensures |h| == |h0| && forall i :: i in all ==> i < |h| && h[i] == Bumped(h0[i], grow, interestOn, timestamp)
  {
    assert done == all;
  }

  /** Rewriting every struct of a pointer tree with Interest yields the pointer
      tree of WithInterest, over the same structs. */
  lemma {:induction false} InterestApplied(h0: seq<Account>, h: seq<Account>, p: Pointer, t: Tree,
                                           grow: int -> int, interestOn: int -> int, timestamp: string)
    requires Holds(h0, p, t) && |h| == |h0|
    requires forall i :: i in Footprint(h0, p, t) ==> h[i] == Bumped(h0[i], grow, interestOn, timestamp)
    ensures Holds(h, p, AccountUpdates.WithInterest(t, grow, interestOn, timestamp))
    ensures Footprint(h, p, AccountUpdates.WithInterest(t, grow, interestOn, timestamp)) == Footprint(h0, p, t)
    decreases t
  {
    match t
    case Leaf =>
    case Node(l, _, r, _) =>
      Parts(h0, p, t);
      InterestApplied(h0, h, h0[p.addr].left, l, grow, interestOn, timestamp);
      InterestApplied(h0, h, h0[p.addr].right, r, grow, interestOn, timestamp);
  }
}
