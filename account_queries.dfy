/**
 * The read-only traversals of AccountAVLTree on the value model: exact-key
 * search (Code.cpp:216-224), the leftmost record findMin stops at
 * (Code.cpp:151-155), the in-order listing displayAccounts prints
 * (Code.cpp:208-214) and the recursive sum of balances (Code.cpp:226-230).
 */
module AccountQueries {
  import opened Transactions
  import opened AccountTree

  /** search: the subtree whose root carries `k`, found by following the
      search-tree path, or `Leaf` (the null pointer) when the path runs out.
      On an ordered tree it finds `k` exactly when `k` is stored, and what it
      finds is the record the tree stores under `k`. */
  function Search(t: Tree, k: int): (s: Tree)
    ensures s.Node? ==> Key(s) == k
    ensures Ordered(t) ==> (s.Node? <==> k in Keys(t))
    ensures Ordered(t) && s.Node? ==> Accounts(t)[k] == s.acct
    ensures Ordered(t) ==> Ordered(s) && Keys(s) <= Keys(t)
    ensures Avl(t) ==> Avl(s)
  {
    match t
    case Leaf => Leaf
    case Node(l, a, r, _) =>
      if a.accountNumber == k then t
      else if k < a.accountNumber then Search(l, k)
      else Search(r, k)
  }

  /** The record findMin reaches by following left pointers: on an ordered tree
      it is the stored record with the least account number, and the node that
      holds it has no left child. */
  function MinAccount(t: Tree): (m: AccountData)
    requires t.Node?
    ensures Ordered(t) ==> m.accountNumber in Keys(t) && Accounts(t)[m.accountNumber] == m
    ensures Ordered(t) ==> forall j :: j in Keys(t) ==> m.accountNumber <= j
    ensures Ordered(t) ==> Search(t, m.accountNumber).Node? && Search(t, m.accountNumber).left.Leaf?
  {
    if t.left.Leaf? then t.acct else MinAccount(t.left)
  }

  /** One line of displayAccounts: account number, holder name and balance. */
  datatype Row = Row(accountNumber: int, accountHolderName: string, balance: int)

  function RowOf(a: AccountData): Row
  {
    Row(a.accountNumber, a.accountHolderName, a.balance)
  }

  /** inOrderTraversal: the rows in the order they are printed. */
  ghost function Listing(t: Tree): (rows: seq<Row>)
    ensures |rows| == |InOrder(t)|
  {
    match t
    case Leaf => []
    case Node(l, a, r, _) => Listing(l) + [RowOf(a)] + Listing(r)
  }

  /** The listing is the in-order sequence of records, one row per record. */
  lemma {:induction false} ListingRows(t: Tree)
    ensures forall i :: 0 <= i < |Listing(t)| ==> Listing(t)[i] == RowOf(InOrder(t)[i])
  {
    match t
    case Leaf =>
    case Node(l, a, r, _) =>
      ListingRows(l);
      ListingRows(r);
      var s, q := Listing(t), InOrder(t);
      forall i | 0 <= i < |s|
        ensures s[i] == RowOf(q[i])
      {
        if i < |Listing(l)| {
          assert s[i] == Listing(l)[i] && q[i] == InOrder(l)[i];
        } else if i > |Listing(l)| {
          assert s[i] == Listing(r)[i - |Listing(l)| - 1] && q[i] == InOrder(r)[i - |Listing(l)| - 1];
        }
      }
  }

  /** On an ordered tree displayAccounts lists every stored account exactly once,
      in strictly ascending account number, each row showing the stored record. */
  lemma ListingIsAccounts(t: Tree)
    requires Ordered(t)
    ensures forall i, j :: 0 <= i < j < |Listing(t)| ==> Listing(t)[i].accountNumber < Listing(t)[j].accountNumber
    ensures forall i :: 0 <= i < |Listing(t)| ==>
              Listing(t)[i].accountNumber in Accounts(t) && Listing(t)[i] == RowOf(Accounts(t)[Listing(t)[i].accountNumber])
    ensures forall k :: k in Keys(t) ==> exists i :: 0 <= i < |Listing(t)| && Listing(t)[i].accountNumber == k
  {
    ListingRows(t);
    InOrderAscending(t);
    InOrderRecords(t);
    ListingCovers(t);
    var s, q := Listing(t), InOrder(t);
    forall i, j | 0 <= i < j < |s|
      ensures s[i].accountNumber < s[j].accountNumber
    {
      assert s[i] == RowOf(q[i]) && s[j] == RowOf(q[j]);
    }
    forall i | 0 <= i < |s|
      ensures s[i].accountNumber in Accounts(t) && s[i] == RowOf(Accounts(t)[s[i].accountNumber])
    {
      assert s[i] == RowOf(q[i]);
    }
  }

  /** Every key of the tree has a row in the listing. */
  lemma {:induction false} ListingCovers(t: Tree)
    ensures forall k :: k in Keys(t) ==> exists i :: 0 <= i < |Listing(t)| && Listing(t)[i].accountNumber == k
  {
    match t
    case Leaf =>
    case Node(l, a, r, _) =>
      ListingCovers(l);
      ListingCovers(r);
      var s := Listing(t);
      var n := |Listing(l)|;
      forall k | k in Keys(t)
        ensures exists i :: 0 <= i < |Listing(t)| && Listing(t)[i].accountNumber == k
      {
        if k in Keys(l) {
          var i :| 0 <= i < n && Listing(l)[i].accountNumber == k;
          assert s[i] == Listing(l)[i];
          assert s[i].accountNumber == k;
        } else if k == a.accountNumber {
          assert s[n] == RowOf(a);
          assert s[n].accountNumber == k;
        } else {
          assert k in Keys(r);
          var i :| 0 <= i < |Listing(r)| && Listing(r)[i].accountNumber == k;
          assert s[n + 1 + i] == Listing(r)[i];
          assert s[n + 1 + i].accountNumber == k;
        }
      }
      assert forall k :: k in Keys(t) ==> exists i :: 0 <= i < |Listing(t)| && Listing(t)[i].accountNumber == k;
  }

  /** calculateTotalFunds: the node's balance plus the totals of both subtrees,
      which is the sum of the balances over the in-order listing, so any
      rearrangement that keeps the in-order sequence (a rotation) keeps it. */
  function TotalFunds(t: Tree): (total: int)
    ensures total == SumBalances(InOrder(t))
  {
    match t
    case Leaf => 0
    case Node(l, a, r, _) =>
      SumBalancesConcat(InOrder(l) + [a], InOrder(r));
      SumBalancesConcat(InOrder(l), [a]);
      assert SumBalances([a]) == a.balance;
      a.balance + TotalFunds(l) + TotalFunds(r)
  }

  /** The sum of the balances of a sequence of records. */
  function SumBalances(s: seq<AccountData>): int
  {
    if s == [] then 0 else s[0].balance + SumBalances(s[1..])
  }

  lemma {:induction false} SumBalancesConcat(a: seq<AccountData>, b: seq<AccountData>)
    ensures SumBalances(a + b) == SumBalances(a) + SumBalances(b)
  {
    if a != [] {
      assert (a + b)[1..] == a[1..] + b;
      SumBalancesConcat(a[1..], b);
    } else {
      assert a + b == b;
    }
  }
}
