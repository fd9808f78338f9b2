/**
 * Changes to account records that leave the tree's links alone: the deposit,
 * withdraw and transfer steps of the menu (Code.cpp:381-382, 405-407, 438-443),
 * which write through the pointer searchAccount returns, and applyInterest
 * (Code.cpp:299-314), which rewrites every record.
 */
module AccountUpdates {
  import opened Transactions
  import opened AccountTree
  import opened AccountQueries

  /** The tree with the record on the search path for `k` replaced by `b`: what
      writing through the pointer `search(root, k)` does.  Links and heights stay. */
  function UpdateAt(t: Tree, k: int, b: AccountData): (u: Tree)
    ensures Height(u) == Height(t)
    ensures HeightsOk(u) == HeightsOk(t) && Balanced(u) == Balanced(t)
  {
    match t
    case Leaf => Leaf
    case Node(l, a, r, h) =>
      if a.accountNumber == k then Node(l, b, r, h)
      else if k < a.accountNumber then Node(UpdateAt(l, k, b), a, r, h)
      else Node(l, a, UpdateAt(r, k, b), h)
  }

  /** Replacing the stored record under `k` by one with the same number keeps the
      index AVL with the same keys, changes that record only, and changes the
      total by the change of its balance. */
  lemma {:induction false} UpdateAtEffect(t: Tree, k: int, b: AccountData)
    requires Avl(t) && k in Keys(t) && b.accountNumber == k
    ensures var u := UpdateAt(t, k, b);
      && Avl(u) && Keys(u) == Keys(t)
      && Accounts(u) == Accounts(t)[k := b]
      && TotalFunds(u) == TotalFunds(t) - Accounts(t)[k].balance + b.balance
  {
    match t
    case Node(l, a, r, h) =>
      var u := UpdateAt(t, k, b);
      if k == a.accountNumber {
        assert Accounts(u) == Accounts(t)[k := b];
      } else if k < a.accountNumber {
        UpdateAtEffect(l, k, b);
        assert k !in Keys(r);
        UpdateAtLeft(t, k, b);
      } else {
        UpdateAtEffect(r, k, b);
        UpdateAtRight(t, k, b);
      }
  }

  lemma UpdateAtLeft(t: Tree, k: int, b: AccountData)
    requires Ordered(t) && t.Node? && k < Key(t) && k in Keys(t.left) && b.accountNumber == k
    requires Accounts(UpdateAt(t.left, k, b)) == Accounts(t.left)[k := b]
    requires Keys(UpdateAt(t.left, k, b)) == Keys(t.left)
    ensures Accounts(UpdateAt(t, k, b)) == Accounts(t)[k := b]
  {
    var p := Key(t);
    var ml, mr := Accounts(t.left), Accounts(t.right);
    assert Accounts(UpdateAt(t, k, b)) == (ml[k := b] + mr)[p := t.acct];
    assert Accounts(t) == (ml + mr)[p := t.acct];
    assert k !in mr;
    NodeMapUpdateLeft(ml, mr, p, t.acct, k, b);
  }

  lemma UpdateAtRight(t: Tree, k: int, b: AccountData)
    requires Ordered(t) && t.Node? && k > Key(t) && k in Keys(t.right) && b.accountNumber == k
    requires Accounts(UpdateAt(t.right, k, b)) == Accounts(t.right)[k := b]
    requires Keys(UpdateAt(t.right, k, b)) == Keys(t.right)
    ensures Accounts(UpdateAt(t, k, b)) == Accounts(t)[k := b]
  {
    var p := Key(t);
    var ml, mr := Accounts(t.left), Accounts(t.right);
    assert Accounts(UpdateAt(t, k, b)) == (ml + mr[k := b])[p := t.acct];
    assert Accounts(t) == (ml + mr)[p := t.acct];
    NodeMapUpdateRight(ml, mr, p, t.acct, k, b);
  }

  // ---------------------------------------------------------------------------
  // The record-level steps of the menu

  /** Credit `amount` and log `kind` (deposit and the receiving half of a transfer). */
  function Credit(a: AccountData, amount: int, kind: Kind, timestamp: string): (b: AccountData)
    ensures b.accountNumber == a.accountNumber && b.pin == a.pin && b.accountHolderName == a.accountHolderName
    ensures b.balance == a.balance + amount
    ensures b.history == [Transaction(kind, amount, timestamp)] + a.history
  {
    a.(balance := a.balance + amount, history := [Transaction(kind, amount, timestamp)] + a.history)
  }

  /** Debit `amount` and log `kind` (withdraw and the sending half of a transfer). */
  function Debit(a: AccountData, amount: int, kind: Kind, timestamp: string): (b: AccountData)
    ensures b.accountNumber == a.accountNumber && b.pin == a.pin && b.accountHolderName == a.accountHolderName
    ensures b.balance == a.balance - amount
    ensures b.history == [Transaction(kind, amount, timestamp)] + a.history
  {
    a.(balance := a.balance - amount, history := [Transaction(kind, amount, timestamp)] + a.history)
  }

  /** What a menu operation on the account index can come to. */
  datatype Outcome = Done(tree: Tree) | AccountNotFound | InsufficientBalance

  /** Deposit (Code.cpp:372-389): an unknown account is reported; otherwise the
      balance grows by `amount` (the source does not check its sign, so a
      deposit is never refused for it) and a "Deposit" entry is pushed.  Links
      and height fields are left alone. */
  function Deposit(t: Tree, k: int, amount: int, timestamp: string): (o: Outcome)
    ensures !o.InsufficientBalance?
    ensures o.Done? ==> Height(o.tree) == Height(t)
    ensures o.Done? ==> HeightsOk(o.tree) == HeightsOk(t) && Balanced(o.tree) == Balanced(t)
  {
    var s := Search(t, k);
    if s.Leaf? then AccountNotFound
    else Done(UpdateAt(t, k, Credit(s.acct, amount, Kind.Deposit, timestamp)))
  }

  /** Withdraw (Code.cpp:393-416): an unknown account is reported, an amount
      above the balance is refused, otherwise the balance drops and a
      "Withdraw" entry is pushed.  Links and height fields are left alone. */
  function Withdraw(t: Tree, k: int, amount: int, timestamp: string): (o: Outcome)
    ensures o.Done? ==> Height(o.tree) == Height(t)
    ensures o.Done? ==> HeightsOk(o.tree) == HeightsOk(t) && Balanced(o.tree) == Balanced(t)
  {
    var s := Search(t, k);
    if s.Leaf? then AccountNotFound
    else if amount > s.acct.balance then InsufficientBalance
    else Done(UpdateAt(t, k, Debit(s.acct, amount, Kind.Withdraw, timestamp)))
  }

  /** Transfer (Code.cpp:420-456): both accounts are looked up first; both must
      exist and the sender must hold at least `amount`.  The sender is debited
      with a "Transfer Out" entry, then the receiver, as it now stands, is
      credited with a "Transfer In" entry; when both numbers are the same, both
      steps land on the one account.  The clock is read once for each entry
      (Code.cpp:440 and 443), so the two entries get their own timestamps. */
  function Transfer(t: Tree, from: int, to: int, amount: int, tsOut: string, tsIn: string): (o: Outcome)
    ensures o.Done? ==> Height(o.tree) == Height(t)
    ensures o.Done? ==> HeightsOk(o.tree) == HeightsOk(t) && Balanced(o.tree) == Balanced(t)
  {
    var s, r := Search(t, from), Search(t, to);
    if s.Leaf? || r.Leaf? then AccountNotFound
    else if amount > s.acct.balance then InsufficientBalance
    else
      var d := Debit(s.acct, amount, TransferOut, tsOut);
      // `toAccount` is the node `fromAccount` is when the numbers agree, and then sees the debit
      var receiver := if to == from then d else r.acct;
      Done(UpdateAt(UpdateAt(t, from, d), to, Credit(receiver, amount, TransferIn, tsIn)))
  }

  /** A deposit into a stored account keeps the index AVL, changes only that
      record, and adds `amount` to the bank's total; an unknown account is reported. */
  lemma DepositEffect(t: Tree, k: int, amount: int, ts: string)
    requires Avl(t)
    ensures Deposit(t, k, amount, ts).AccountNotFound? <==> k !in Keys(t)
    ensures Deposit(t, k, amount, ts).Done? ==>
              var u := Deposit(t, k, amount, ts).tree;
              && Avl(u) && Keys(u) == Keys(t)
              && Accounts(u) == Accounts(t)[k := Credit(Accounts(t)[k], amount, Kind.Deposit, ts)]
              && TotalFunds(u) == TotalFunds(t) + amount
  {
    if k in Keys(t) {
      AccountsNumbered(t, k);
      UpdateAtEffect(t, k, Credit(Accounts(t)[k], amount, Kind.Deposit, ts));
    }
  }

  /** A withdrawal from an unknown account or of more than the balance is
      refused; one that goes ahead keeps the index AVL, changes only that record,
      takes `amount` from the total and leaves the balance non-negative. */
  lemma WithdrawEffect(t: Tree, k: int, amount: int, ts: string)
    requires Avl(t)
    ensures Withdraw(t, k, amount, ts).AccountNotFound? <==> k !in Keys(t)
    ensures Withdraw(t, k, amount, ts).InsufficientBalance? <==>
              k in Keys(t) && amount > Accounts(t)[k].balance
    ensures Withdraw(t, k, amount, ts).Done? ==>
              var u := Withdraw(t, k, amount, ts).tree;
              && Avl(u) && Keys(u) == Keys(t)
              && Accounts(u) == Accounts(t)[k := Debit(Accounts(t)[k], amount, Kind.Withdraw, ts)]
              && TotalFunds(u) == TotalFunds(t) - amount
              && Accounts(u)[k].balance >= 0
  {
    if k in Keys(t) && amount <= Accounts(t)[k].balance {
      AccountsNumbered(t, k);
      UpdateAtEffect(t, k, Debit(Accounts(t)[k], amount, Kind.Withdraw, ts));
    }
  }

  /** A transfer from or to an unknown account is reported, and one of more than
      the sender's balance is refused. */
  lemma TransferRefused(t: Tree, from: int, to: int, amount: int, tsOut: string, tsIn: string)
    requires Avl(t)
    ensures Transfer(t, from, to, amount, tsOut, tsIn).AccountNotFound? <==> from !in Keys(t) || to !in Keys(t)
    ensures Transfer(t, from, to, amount, tsOut, tsIn).InsufficientBalance? <==>
              from in Keys(t) && to in Keys(t) && amount > Accounts(t)[from].balance
  {
  }

  /** A transfer between two different stored accounts with enough funds keeps
      the index AVL with the same keys and keeps the bank's total; the sender is
      debited ("Transfer Out"), the receiver credited ("Transfer In"), and no
      other record changes. */
  lemma TransferBetween(t: Tree, from: int, to: int, amount: int, tsOut: string, tsIn: string)
    requires Avl(t) && from in Keys(t) && to in Keys(t) && from != to && amount <= Accounts(t)[from].balance
    ensures Transfer(t, from, to, amount, tsOut, tsIn).Done?
    ensures var u := Transfer(t, from, to, amount, tsOut, tsIn).tree;
      && Avl(u) && Keys(u) == Keys(t) && TotalFunds(u) == TotalFunds(t)
      && Accounts(u) == Accounts(t)[from := Debit(Accounts(t)[from], amount, TransferOut, tsOut)]
                                   [to := Credit(Accounts(t)[to], amount, TransferIn, tsIn)]
  {
    var d := Debit(Accounts(t)[from], amount, TransferOut, tsOut);
    var c := Credit(Accounts(t)[to], amount, TransferIn, tsIn);
    AccountsNumbered(t, from);
    AccountsNumbered(t, to);
    var t1 := UpdateAt(t, from, d);
    UpdateAtEffect(t, from, d);
    assert Accounts(t1)[to] == Accounts(t)[to];
    UpdateAtEffect(t1, to, c);
    assert Transfer(t, from, to, amount, tsOut, tsIn) == Done(UpdateAt(t1, to, c));
  }

  /** A transfer from a stored account to itself with enough funds applies both
      steps to the one record: its balance is back where it was (SelfTransfer)
      and the total is kept. */
  lemma TransferToSelf(t: Tree, k: int, amount: int, tsOut: string, tsIn: string)
    requires Avl(t) && k in Keys(t) && amount <= Accounts(t)[k].balance
    ensures Transfer(t, k, k, amount, tsOut, tsIn).Done?
    ensures var u := Transfer(t, k, k, amount, tsOut, tsIn).tree;
      && Avl(u) && Keys(u) == Keys(t) && TotalFunds(u) == TotalFunds(t)
      && Accounts(u) == Accounts(t)[k := Credit(Debit(Accounts(t)[k], amount, TransferOut, tsOut), amount, TransferIn, tsIn)]
  {
    var d := Debit(Accounts(t)[k], amount, TransferOut, tsOut);
    var c := Credit(d, amount, TransferIn, tsIn);
    AccountsNumbered(t, k);
    UpdateTwice(t, k, d, c);
    UpdateAtEffect(t, k, c);
    assert Transfer(t, k, k, amount, tsOut, tsIn) == Done(UpdateAt(t, k, c));
  }

  /** Writing twice through the pointer to the same record leaves only the second write. */
  lemma {:induction false} UpdateTwice(t: Tree, k: int, d: AccountData, c: AccountData)
    requires d.accountNumber == k
    ensures UpdateAt(UpdateAt(t, k, d), k, c) == UpdateAt(t, k, c)
  {
    match t
    case Leaf =>
    case Node(l, a, r, h) =>
      if a.accountNumber != k {
        UpdateTwice(l, k, d, c);
        UpdateTwice(r, k, d, c);
      }
  }

  /** A transfer to oneself leaves the balance as it was and pushes "Transfer Out"
      and then "Transfer In" on the account's history. */
  lemma SelfTransfer(a: AccountData, amount: int, tsOut: string, tsIn: string)
    ensures Credit(Debit(a, amount, TransferOut, tsOut), amount, TransferIn, tsIn).balance == a.balance
    ensures Credit(Debit(a, amount, TransferOut, tsOut), amount, TransferIn, tsIn).history ==
              [Transaction(TransferIn, amount, tsIn), Transaction(TransferOut, amount, tsOut)] + a.history
  {
    assert [Transaction(TransferIn, amount, tsIn)] + ([Transaction(TransferOut, amount, tsOut)] + a.history) ==
           [Transaction(TransferIn, amount, tsIn), Transaction(TransferOut, amount, tsOut)] + a.history;
  }

  /** Every record is stored under its own account number. */
  lemma {:induction false} AccountsNumbered(t: Tree, k: int)
    requires k in Keys(t)
    ensures Accounts(t)[k].accountNumber == k
  {
    match t
    case Node(l, a, r, _) =>
      if k == a.accountNumber {
      } else if k in Keys(r) {
        AccountsNumbered(r, k);
      } else {
        AccountsNumbered(l, k);
      }
  }

  // ---------------------------------------------------------------------------
  // applyInterest

  /** What applyInterest does to one record (Code.cpp:307-308): the balance
      becomes `grow(balance)`, and the "Interest" entry logged is computed by
      `interestOn` from that already updated balance. */
  function Interest(a: AccountData, grow: int -> int, interestOn: int -> int, timestamp: string): (b: AccountData)
    ensures b.accountNumber == a.accountNumber && b.pin == a.pin && b.accountHolderName == a.accountHolderName
    ensures b.balance == grow(a.balance)
    ensures b.history == [Transaction(Kind.Interest, interestOn(b.balance), timestamp)] + a.history
  {
    a.(balance := grow(a.balance),
       history := [Transaction(Kind.Interest, interestOn(grow(a.balance)), timestamp)] + a.history)
  }

  /** Every record of the tree after applyInterest; links and height fields stay. */
  function WithInterest(t: Tree, grow: int -> int, interestOn: int -> int, timestamp: string): (u: Tree)
    ensures Height(u) == Height(t)
    ensures HeightsOk(u) == HeightsOk(t) && Balanced(u) == Balanced(t)
  {
    match t
    case Leaf => Leaf
    case Node(l, a, r, h) =>
      Node(WithInterest(l, grow, interestOn, timestamp), Interest(a, grow, interestOn, timestamp),
           WithInterest(r, grow, interestOn, timestamp), h)
  }

  /** applyInterest keeps the keys and the ordering (the heights: WithInterest). */
  lemma {:induction false} InterestShape(t: Tree, grow: int -> int, interestOn: int -> int, ts: string)
    ensures Keys(WithInterest(t, grow, interestOn, ts)) == Keys(t)
    ensures Ordered(t) ==> Ordered(WithInterest(t, grow, interestOn, ts))
  {
    match t
    case Leaf =>
    case Node(l, a, r, h) =>
      InterestShape(l, grow, interestOn, ts);
      InterestShape(r, grow, interestOn, ts);
  }

  /** After applyInterest the account stored under `k` has had its balance
      grown and exactly one "Interest" entry pushed on its history. */
  lemma {:induction false} InterestAccounts(t: Tree, k: int, grow: int -> int, interestOn: int -> int, ts: string)
    requires k in Keys(t)
    ensures k in Accounts(WithInterest(t, grow, interestOn, ts))
    ensures Accounts(WithInterest(t, grow, interestOn, ts))[k] == Interest(Accounts(t)[k], grow, interestOn, ts)
  {
    match t
    case Node(l, a, r, h) =>
      InterestShape(l, grow, interestOn, ts);
      InterestShape(r, grow, interestOn, ts);
      var nl, nr := Accounts(WithInterest(l, grow, interestOn, ts)), Accounts(WithInterest(r, grow, interestOn, ts));
      assert Accounts(WithInterest(t, grow, interestOn, ts)) == (nl + nr)[a.accountNumber := Interest(a, grow, interestOn, ts)];
      if k == a.accountNumber {
      } else if k in Keys(r) {
        InterestAccounts(r, k, grow, interestOn, ts);
      } else {
        InterestAccounts(l, k, grow, interestOn, ts);
        assert k !in nr;
      }
  }
}
