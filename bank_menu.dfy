/**
 * The three menu choices of `main` that change an account through the pointer
 * searchAccount returns: deposit (Code.cpp:367-391), withdraw (Code.cpp:392-418)
 * and transfer (Code.cpp:419-456).  The console dialogue becomes parameters
 * (the numbers, the PIN typed in, the amount, the timestamp) and a reply saying
 * which message `main` prints.  Each is proved to do to the account index what
 * the value-level operation of AccountUpdates does, whose effect on the records
 * and on the bank's total is proved there.
 */
module BankMenu {
  import opened Transactions
  import opened AccountTree
  import opened AccountStore
  import opened AccountUpdates
  import AccountQueries
  import opened AccountIndex

  /** The message `main` prints after a deposit, withdrawal or transfer. */
  datatype Reply = Succeeded | NotFound | InvalidPin | Insufficient

  /** The message for an outcome of the PIN-free operation. */
  function ReplyOf(o: Outcome): Reply
  {
    match o
    case Done(_) => Succeeded
    case AccountNotFound => NotFound
    case InsufficientBalance => Insufficient
  }

  /** The index an outcome leaves: the new tree, or the old one when refused. */
  function After(t: Tree, o: Outcome): Tree
  {
    if o.Done? then o.tree else t
  }

  /** Whether `main` stops at the PIN: the account exists and the PIN typed in
      is not its PIN. */
  ghost predicate PinRefused(t: Tree, k: int, enteredPin: string)
  {
    k in Keys(t) && enteredPin != Accounts(t)[k].pin
  }

  /** Menu choice 2: look the account up, check the PIN, add `amount` to the
      balance and push a "Deposit" entry. */
  method Deposit(accounts: AccountAVLTree, accNum: int, enteredPin: string, amount: int, timestamp: string)
    returns (reply: Reply)
    requires accounts.Valid()
    modifies accounts`nodes, accounts`Model
    ensures accounts.Valid()
    ensures PinRefused(old(accounts.Model), accNum, enteredPin) ==>
              reply == InvalidPin && accounts.Model == old(accounts.Model)
    ensures !PinRefused(old(accounts.Model), accNum, enteredPin) ==>
              var o := AccountUpdates.Deposit(old(accounts.Model), accNum, amount, timestamp);
              reply == ReplyOf(o) && accounts.Model == After(old(accounts.Model), o)
  {
    ghost var t := accounts.Model;
    var account := accounts.SearchAccount(accNum);
    if account == Null {
      return NotFound;
    }
    var a := accounts.nodes[account.addr].data;
    if enteredPin != a.pin {
      return InvalidPin;
    }
    AccountsNumbered(t, accNum);
    accounts.SetRecord(account, Credit(a, amount, Kind.Deposit, timestamp));
    reply := Succeeded;
  }

  /** Menu choice 3: look the account up, check the PIN, refuse an amount above
      the balance, otherwise take it off and push a "Withdraw" entry. */
  method Withdraw(accounts: AccountAVLTree, accNum: int, enteredPin: string, amount: int, timestamp: string)
    returns (reply: Reply)
    requires accounts.Valid()
    modifies accounts`nodes, accounts`Model
    ensures accounts.Valid()
    ensures PinRefused(old(accounts.Model), accNum, enteredPin) ==>
              reply == InvalidPin && accounts.Model == old(accounts.Model)
    ensures !PinRefused(old(accounts.Model), accNum, enteredPin) ==>
              var o := AccountUpdates.Withdraw(old(accounts.Model), accNum, amount, timestamp);
              reply == ReplyOf(o) && accounts.Model == After(old(accounts.Model), o)
  {
    ghost var t := accounts.Model;
    var account := accounts.SearchAccount(accNum);
    if account == Null {
      return NotFound;
    }
    var a := accounts.nodes[account.addr].data;
    if enteredPin != a.pin {
      return InvalidPin;
    }
    if amount > a.balance {
      return Insufficient;
    }
    AccountsNumbered(t, accNum);
    accounts.SetRecord(account, Debit(a, amount, Kind.Withdraw, timestamp));
    reply := Succeeded;
  }

  /** Menu choice 4: look both accounts up, check the sender's PIN and balance,
      then debit the sender ("Transfer Out") and credit the receiver ("Transfer
      In") through the two pointers; when the numbers agree the pointers are the
      same and the credit sees the debit.  `tsOut` and `tsIn` are the two clock
      reads of Code.cpp:440 and 443. */
  method Transfer(accounts: AccountAVLTree, fromAccNum: int, toAccNum: int, enteredPin: string,
                  amount: int, tsOut: string, tsIn: string)
    returns (reply: Reply)
    requires accounts.Valid()
    modifies accounts`nodes, accounts`Model
    ensures accounts.Valid()
    ensures toAccNum in Keys(old(accounts.Model)) && PinRefused(old(accounts.Model), fromAccNum, enteredPin) ==>
              reply == InvalidPin && accounts.Model == old(accounts.Model)
    ensures !(toAccNum in Keys(old(accounts.Model)) && PinRefused(old(accounts.Model), fromAccNum, enteredPin)) ==>
              var o := AccountUpdates.Transfer(old(accounts.Model), fromAccNum, toAccNum, amount, tsOut, tsIn);
              reply == ReplyOf(o) && accounts.Model == After(old(accounts.Model), o)
  {
    ghost var t := accounts.Model;
    var fromAccount := accounts.SearchAccount(fromAccNum);
    var toAccount := accounts.SearchAccount(toAccNum);
    if fromAccount == Null || toAccount == Null {
      return NotFound;
    }
    var a := accounts.nodes[fromAccount.addr].data;
    if enteredPin != a.pin {
      return InvalidPin;
    }
    if amount > a.balance {
      return Insufficient;
    }
    AccountsNumbered(t, fromAccNum);
    AccountsNumbered(t, toAccNum);
    var d := Debit(a, amount, TransferOut, tsOut);
    accounts.SetRecord(fromAccount, d);
    ghost var t1 := accounts.Model;
    UpdateAtEffect(t, fromAccNum, d);
    var receiver := accounts.nodes[toAccount.addr].data;
    assert receiver == (if toAccNum == fromAccNum then d else Accounts(t)[toAccNum]);
    accounts.SetRecord(toAccount, Credit(receiver, amount, TransferIn, tsIn));
    reply := Succeeded;
  }
}
