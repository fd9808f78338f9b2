/**
 * The per-account transaction history: a stack of transactions kept as a
 * singly linked list whose top is the most recent entry (Code.cpp:14-61).
 */
module Transactions {

  /** The `type` string of a transaction.  The source writes the labels
      "Deposit", "Withdraw", "Transfer Out", "Transfer In" and "Interest". */
  datatype Kind = Deposit | Withdraw | TransferOut | TransferIn | Interest

  /** A transaction; `amount` is modelled as an integer (cents). */
  datatype Transaction = Transaction(kind: Kind, amount: int, timestamp: string)

  /** The label the source stores in `Transaction::type`. */
  function Label(k: Kind): (s: string)
    ensures |s| > 0
  {
    match k
    case Deposit => "Deposit"
    case Withdraw => "Withdraw"
    case TransferOut => "Transfer Out"
    case TransferIn => "Transfer In"
    case Interest => "Interest"
  }

  /** The labels are pairwise distinct, so a history entry's kind can be read back from its label. */
  lemma LabelInjective(a: Kind, b: Kind)
    ensures Label(a) == Label(b) ==> a == b
  {
    if a != b {
      match a
      case Deposit => assert Label(a)[0] == 'D';
      case Withdraw => assert Label(a)[0] == 'W';
      case TransferOut => assert Label(a)[9] == 'O';
      case TransferIn => assert Label(a)[9] == 'I';
      case Interest => assert Label(a)[0] == 'I';
    }
  }

  /** One cell of the linked list: `Transaction` together with its `next` pointer. */
  class TransactionNode {
    const entry: Transaction
    var next: TransactionNode?
    ghost var Contents: seq<Transaction>
    ghost var Repr: set<TransactionNode>

    ghost predicate Valid()
      reads this, Repr
      decreases Repr
    {
      && this in Repr
      && |Contents| > 0 && Contents[0] == entry
      && (next == null ==> Contents == [entry] && Repr == {this})
      && (next != null ==>
            && next in Repr && this !in next.Repr && Repr == {this} + next.Repr
            && next.Valid()
            && Contents == [entry] + next.Contents)
    }

    constructor (entry: Transaction, next: TransactionNode?)
      requires next != null ==> next.Valid()
      ensures Valid() && this.entry == entry && this.next == next
      ensures next == null ==> Contents == [entry] && Repr == {this}
      ensures next != null ==> Contents == [entry] + next.Contents && Repr == {this} + next.Repr
    {
      this.entry := entry;
      this.next := next;
      if next == null {
        Contents := [entry];
        Repr := {this};
      } else {
        Contents := [entry] + next.Contents;
        Repr := {this} + next.Repr;
      }
    }
  }

  /** The contents of the list starting at `n`, newest first. */
  ghost function ContentsOf(n: TransactionNode?): seq<Transaction>
    reads n
  {
    if n == null then [] else n.Contents
  }

  class TransactionStack {
    var top: TransactionNode?
    /** The entries, most recent first. */
    ghost var Contents: seq<Transaction>
    ghost var Repr: set<object>

    ghost predicate Valid()
      reads this, Repr
    {
      && this in Repr
      && (top == null ==> Contents == [])
      && (top != null ==>
            && top in Repr && top.Repr <= Repr && top.Valid()
            && Contents == top.Contents)
    }

    constructor ()
      ensures Valid() && fresh(Repr) && Contents == []
    {
      top := null;
      Contents := [];
      Repr := {this};
    }

    /** push (Code.cpp:40-44): the new transaction becomes the top; the earlier
        entries follow it unchanged and in their old order. */
    method Push(kind: Kind, amount: int, timestamp: string)
      requires Valid()
      modifies this
      ensures Valid() && fresh(Repr - old(Repr))
      ensures Contents == [Transaction(kind, amount, timestamp)] + old(Contents)
    {
      var t := new TransactionNode(Transaction(kind, amount, timestamp), top);
      top := t;
      Repr := Repr + t.Repr;
      Contents := t.Contents;
    }

    /** displayHistory (Code.cpp:46-52): walks the list from the top and returns
        the entries in the order it shows them. */
    method DisplayHistory() returns (shown: seq<Transaction>)
      requires Valid()
      ensures shown == Contents
    {
      shown := [];
      var temp := top;
      while temp != null
        invariant temp != null ==> temp in Repr && temp.Repr <= Repr && temp.Valid()
        invariant shown + ContentsOf(temp) == Contents
        decreases if temp == null then {} else temp.Repr
      {
        var next := temp.next;
        assert temp.Contents == [temp.entry] + ContentsOf(next);
        assert next != null ==> next.Valid() && next.Repr < temp.Repr;
        shown := shown + [temp.entry];
        temp := next;
      }
    }
  }

  /** A client of the stack: after two pushes the display starts with the second
      transaction, then the first, then whatever was there before. */
  method PushTwiceShowsNewestFirst(s: TransactionStack, a: Transaction, b: Transaction)
    returns (shown: seq<Transaction>)
    requires s.Valid()
    modifies s
    ensures shown == [b, a] + old(s.Contents)
  {
    s.Push(a.kind, a.amount, a.timestamp);
    s.Push(b.kind, b.amount, b.timestamp);
    shown := s.DisplayHistory();
  }
}
