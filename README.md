# BankingApp account index, modelled in Dafny

This project models the core of the BankingApp program (`Code.cpp`).

- **`AccountAVLTree`** is an AVL tree of accounts keyed by account number. It has:
  - rotations, and insert with rebalancing (a duplicate number changes nothing);
  - findMin, and delete by splicing or successor copy, followed by rebalancing;
  - exact-key search, the in-order listing and the recursive total of balances;
  - the breadth-first `applyInterest` loop.
- **`TransactionStack`** is the per-account history. It is a linked stack whose top is the newest entry.
  In the tree, each record keeps that history as the value of its stack (`AccountData.history`). `TransactionStack.Push` ensures `Contents() == [t] + old(Contents())`. `Credit`, `Debit` and `Interest` ensure `history == [entry] + a.history`, the same prepend.
- **`main`'s account steps** are deposit, withdraw and transfer, each done through the pointer `searchAccount` returns.

The model has two layers.

- **Value layer.** An inductive `Tree` (modules `AccountTree`, `AccountQueries`, `AvlInsert`, `AvlDelete`, `AccountUpdates`) states what every operation does to the records:
  - BST ordering, maintained height fields and balance factors in {-1, 0, 1} (`Avl`);
  - the key set and the map from account number to record (`Keys`, `Accounts`);
  - the in-order sequence (`InOrder`).
- **Pointer layer.** Module `AccountStore` holds the `Account` structs in a store (`seq<Account>`). A pointer is an index into it or `Null`, and a field write replaces one struct. `Holds(h, p, t)` says pointer `p` spells out tree `t` with no struct shared. Class `AccountIndex.AccountAVLTree` runs the source's algorithms on the store, write by write:
  - `rotateRight`/`rotateLeft` rewire two pointers and recompute the demoted node's height before the promoted one's;
  - `insert`/`deleteNode` relink a child and recompute the height on the way back up;
  - `*root = *temp` copies a whole struct;
  - the successor copy writes four fields;
  - `findMin` is a `while` loop and `applyInterest` a queue loop.

  Each method is proved against the value layer: the pointer it returns spells out the value operation's result. Only structs of the old subtree, or new ones, have changed (`Replaced`). `BankMenu` runs the three menu steps on the class.

The source's quirks are reproduced and stated in contracts:

- **Two-child delete keeps the old PIN.** The node takes over the successor's number, name, balance and history but keeps the deleted account's PIN (`AvlDelete.Successor`, `AvlDelete.AccountsAfterDelete`). So after deleting account `k`, the successor account answers to `k`'s PIN.
- **One-child delete copies the whole node.** The node is overwritten with its child, height and child pointers included (`AccountStore.CopyChild`).
- **Interest is logged from the new balance.** The logged amount is computed from the balance after the increase (`AccountUpdates.Interest`, `interestOn(grow(balance))`).
- **Duplicate insert is silent.** Inserting a number already present returns the tree unchanged, and `createAccount` prints success regardless (`AvlInsert.Insert`: `k in Keys(t) ==> r == t`).
- **A self-transfer sees its own debit.** When sender and receiver numbers agree, both pointers are the same struct. The credit therefore applies to the already debited record (`AccountUpdates.Transfer`, `TransferToSelf`).

## Model

| member | source | states |
|---|---|---|
| Transactions.LabelInjective | Code.cpp:382-443 | the five type labels written into the history are pairwise distinct |
| Transactions.TransactionNode.constructor | Code.cpp:21 | a new list cell holds its transaction and links to the given rest of the list |
| Transactions.TransactionStack.constructor | Code.cpp:30 | a new stack is empty |
| Transactions.TransactionStack.Push | Code.cpp:40-44 | the new transaction becomes the top; the earlier entries follow unchanged and in order |
| Transactions.TransactionStack.DisplayHistory | Code.cpp:46-52 | the walk from the top shows exactly the stack's contents, newest first |
| Transactions.PushTwiceShowsNewestFirst | Code.cpp:40-52 | after pushing a then b the display shows b, a, then the older entries |
| AccountTree.HeightIsDepth | Code.cpp:85-87 | where heights are maintained, the stored height is the real height of the subtree |
| AccountTree.HeightNonNegative | Code.cpp:85-87 | a maintained height is never negative and is positive exactly for a non-empty subtree |
| AccountTree.NewAccount | Code.cpp:74-76 | a new account holds the given number, name, balance and PIN and an empty history |
| AccountTree.Height | Code.cpp:85-87 | the stored height field, 0 for null; HeightIsDepth says what the field holds |
| AccountTree.BalanceFactor | Code.cpp:89-91 | the left height minus the right height, 0 for null; within -1 to 1 wherever the tree is balanced |
| AccountTree.InOrderKeys | Code.cpp:208-214 | every in-order record carries a key of the tree, every key is listed, and there are as many records as keys |
| AccountTree.InOrderCovers | Code.cpp:208-214 | every key of the tree appears in the in-order sequence |
| AccountTree.InOrderAscending | Code.cpp:208-214 | on an ordered tree the in-order sequence has strictly ascending account numbers |
| AccountTree.InOrderRecords | Code.cpp:208-214 | each in-order record is the record the tree stores under its number |
| AccountTree.RotateRight | Code.cpp:93-104 | a right rotation keeps the in-order sequence, the keys, the ordering and the records; heights stay maintained |
| AccountTree.RotateLeft | Code.cpp:106-117 | a left rotation keeps the in-order sequence, the keys, the ordering and the records; heights stay maintained |
| AccountTree.RotationShapes | Code.cpp:93-117 | the two shapes a rotation moves between are ordered together and hold the same records |
| AccountTree.RotationAccounts | Code.cpp:93-117 | the two rotation shapes map every account number to the same record |
| AccountTree.RotateRightRestores | Code.cpp:192-193 | a right rotation of a node two higher on the left, leaning left or not at all, gives a balanced node of known height |
| AccountTree.RotateLeftRestores | Code.cpp:198-199 | the mirror image, for a node two higher on the right |
| AccountTree.RotateLeftRightRestores | Code.cpp:194-197 | a left-right double rotation of a node whose left child leans right gives a balanced node one level lower |
| AccountTree.RotateRightLeftRestores | Code.cpp:200-203 | the mirror image of the left-right case |
| AccountQueries.Search | Code.cpp:216-224 | on an ordered tree the path finds a node exactly when the key is stored, and that node holds the stored record |
| AccountQueries.MinAccount | Code.cpp:151-155 | the leftmost record has the least key of the subtree and its node has no left child |
| AccountQueries.Listing | Code.cpp:208-214 | one printed row per record |
| AccountQueries.ListingRows | Code.cpp:208-214 | row i shows the number, name and balance of the i-th in-order record |
| AccountQueries.ListingIsAccounts | Code.cpp:208-214 | on an ordered tree the rows are strictly ascending, each shows the stored record, and every stored account has a row |
| AccountQueries.ListingCovers | Code.cpp:208-214 | every key of the tree has a row |
| AccountQueries.SumBalancesConcat | Code.cpp:226-230 | the sum of balances splits over concatenation |
| AccountQueries.TotalFunds | Code.cpp:226-230 | the recursive total equals the sum of balances over the in-order records, so a rearrangement that keeps the in-order sequence keeps the total |
| AvlInsert.InsertRebalance | Code.cpp:130-148 | after an insert below and the height write `MakeNode` (Code.cpp:130), the four rotation cases give an AVL node with the same records, one level lower when a rotation was needed |
| AvlInsert.Insert | Code.cpp:119-149 | on an AVL tree the result is AVL; keys gain exactly the new number; a new number maps to the new account; a present number leaves the tree unchanged; height grows by at most one |
| AvlInsert.InsertedLeft | Code.cpp:123-148 | insert's contract carries over from the left child to the node |
| AvlInsert.InsertedRight | Code.cpp:125-148 | insert's contract carries over from the right child to the node |
| AvlInsert.InsertedGrowth | Code.cpp:130-148 | when an insert below raises the node by one, the root leans towards the new key |
| AvlInsert.NewKeyAccounts | Code.cpp:119-126 | a node whose one child gained record k gains exactly record k |
| AvlInsert.InsertLeftStep | Code.cpp:123-124 | insert going left leaves a node the rebalancing step accepts, and the result is that step |
| AvlInsert.InsertRightStep | Code.cpp:125-126 | insert going right leaves a node the rebalancing step accepts, and the result is that step |
| AvlDelete.DeleteRebalance | Code.cpp:187-205 | after a delete below and the height write `MakeNode` (Code.cpp:187), the four cases chosen by the heavy child's balance factor give an AVL node with the same records, at most one level lower |
| AvlDelete.Successor | Code.cpp:175-179 | the surviving record is the successor's with the deleted account's PIN |
| AvlDelete.Delete | Code.cpp:157-206 | on an AVL tree the result is AVL; keys lose exactly the number; the records are AccountsAfterDelete's; an absent number leaves the tree unchanged; height drops by at most one |
| AvlDelete.DeletedLeft | Code.cpp:161-162 | delete's contract carries over from the left child to the node |
| AvlDelete.DeletedRight | Code.cpp:163-164 | delete's contract carries over from the right child to the node |
| AvlDelete.DeletedRoot | Code.cpp:166-173 | a node with at most one child is replaced by that child (or nothing), which holds all other records |
| AvlDelete.ChildRecords | Code.cpp:166-172 | the only child of the node holding k has all keys but k and all records the delete keeps |
| AvlDelete.ChildHeight | Code.cpp:166-172 | the only child of an AVL node is AVL and exactly one level lower |
| AvlDelete.SuccessorOrdered | Code.cpp:174-180 | the successor's number lies above every left key and below every key left in the right subtree |
| AvlDelete.DeletedSuccessor | Code.cpp:174-181 | the successor copy followed by deleting the successor from the right subtree meets delete's contract |
| AvlDelete.SuccessorShape | Code.cpp:174-181 | after the successor copy the node is ordered and has lost exactly the deleted key |
| AvlDelete.SuccessorAccounts | Code.cpp:174-181 | after the successor copy the records are the old ones without k, with the successor carrying the deleted PIN |
| AvlDelete.DeletedBelowAccounts | Code.cpp:161-164 | a delete below changes the node's records as AccountsAfterDelete says |
| AvlDelete.SubtreeChange | Code.cpp:161-164 | dropping or replacing a record in one child does the same to the node's records |
| AvlDelete.DeleteLeftStep | Code.cpp:161-162 | delete going left leaves a node the rebalancing step accepts, and the result is that step |
| AvlDelete.DeleteRightStep | Code.cpp:163-164 | delete going right leaves a node the rebalancing step accepts, and the result is that step |
| AvlDelete.DeleteChildStep | Code.cpp:166-173 | deleting a node with at most one child gives nothing or the rebalanced child |
| AvlDelete.DeleteSuccessorStep | Code.cpp:174-181 | deleting a node with two children gives the rebalanced successor copy |
| AccountUpdates.UpdateAt | Code.cpp:381-382 | rewriting the record at a key keeps the root's height; the stored heights are maintained, and balanced, exactly when the old tree's were |
| AccountUpdates.UpdateAtEffect | Code.cpp:381-382 | on an AVL tree, rewriting the stored record k keeps the tree AVL with the same keys, changes only record k, and moves the total by the balance difference |
| AccountUpdates.UpdateAtLeft | Code.cpp:381-382 | a rewrite in the left child rewrites the node's record map at k |
| AccountUpdates.UpdateAtRight | Code.cpp:381-382 | a rewrite in the right child rewrites the node's record map at k |
| AccountUpdates.Credit | Code.cpp:381-382 | the balance grows by the amount and one entry is pushed; number, name and PIN stay |
| AccountUpdates.Debit | Code.cpp:405-407 | the balance drops by the amount and one entry is pushed; number, name and PIN stay |
| AccountUpdates.Deposit | Code.cpp:372-389 | a deposit is never refused for its amount; a completed one keeps the root's height and keeps the stored heights maintained and balanced exactly when they were (records and total: DepositEffect) |
| AccountUpdates.Withdraw | Code.cpp:397-416 | a completed withdrawal keeps the root's height and keeps the stored heights maintained and balanced exactly when they were (guards, records and total: WithdrawEffect) |
| AccountUpdates.Transfer | Code.cpp:431-454 | a completed transfer keeps the root's height and keeps the stored heights maintained and balanced exactly when they were; the two entries carry the two clock reads (guards, records and total: TransferRefused, TransferBetween, TransferToSelf) |
| AccountUpdates.DepositEffect | Code.cpp:374-389 | an unknown account is reported; otherwise only that record is credited and the total grows by the amount |
| AccountUpdates.WithdrawEffect | Code.cpp:397-416 | unknown and over-balance withdrawals are refused (both directions); otherwise only that record is debited, the total drops by the amount and the balance stays non-negative |
| AccountUpdates.TransferRefused | Code.cpp:432-454 | a transfer is reported not found exactly when either account is missing, and refused exactly when the sender holds too little |
| AccountUpdates.TransferBetween | Code.cpp:438-443 | between two stored accounts: AVL and keys kept, total kept, sender debited, receiver credited, nothing else changed |
| AccountUpdates.TransferToSelf | Code.cpp:438-443 | to the same account: both steps land on the one record and the total is kept |
| AccountUpdates.UpdateTwice | Code.cpp:438-443 | two writes through the same pointer leave only the second |
| AccountUpdates.SelfTransfer | Code.cpp:438-443 | a debit and an equal credit of one record restore its balance and push "Transfer Out" then "Transfer In", each with its own timestamp |
| AccountUpdates.AccountsNumbered | Code.cpp:64-65 | the record stored under k carries number k |
| AccountUpdates.Interest | Code.cpp:307-308 | the balance becomes grow(balance) and one Interest entry, computed from the new balance, is pushed |
| AccountUpdates.WithInterest | Code.cpp:299-312 | rewriting every record keeps the root's height; the stored heights are maintained, and balanced, exactly when the old tree's were |
| AccountUpdates.InterestShape | Code.cpp:299-312 | applying interest keeps the keys and the ordering |
| AccountUpdates.InterestAccounts | Code.cpp:299-312 | every stored record receives exactly one interest step |
| AccountStore.Footprint | Code.cpp:70-72 | the structs a subtree occupies are all in the store |
| AccountStore.NullHolds | Code.cpp:85-87 | a pointer spells out the empty tree exactly when it is null |
| AccountStore.Parts | Code.cpp:70-72 | a non-null pointer's children spell out the subtrees, with disjoint footprints |
| AccountStore.Assemble | Code.cpp:70-72 | a struct over two disjoint subtrees spells out the node |
| AccountStore.Frame | Code.cpp:70-72 | a subtree is unaffected by writes outside its footprint |
| AccountStore.ReplacedTrans | Code.cpp:119-206 | two replacements of a subtree in a row are one replacement |
| AccountStore.Overwrite | Code.cpp:130 | writing a node's record and height keeps its children and replaces the subtree by the rewritten node |
| AccountStore.RelinkLeft | Code.cpp:124 | storing the rebuilt left child's pointer replaces the subtree by the node over the new left subtree |
| AccountStore.RelinkRight | Code.cpp:126 | storing the rebuilt right child's pointer replaces the subtree by the node over the new right subtree |
| AccountStore.CopyChild | Code.cpp:172 | copying the only child's struct over the node replaces the subtree by the child subtree |
| AccountStore.RotatedRight | Code.cpp:93-104 | the four writes of rotateRight make the left child's pointer spell out RotateRight of the subtree |
| AccountStore.RotatedLeft | Code.cpp:106-117 | the four writes of rotateLeft make the right child's pointer spell out RotateLeft of the subtree |
| AccountStore.ForestPush | Code.cpp:309-310 | queuing a subtree disjoint from the queued ones keeps the queue a forest of disjoint subtrees |
| AccountIndex.AccountAVLTree.constructor | Code.cpp:251 | the index starts empty and valid |
| AccountIndex.AccountAVLTree.GetHeight | Code.cpp:85-87 | the stored height of the pointed-to subtree, 0 for null |
| AccountIndex.AccountAVLTree.GetBalanceFactor | Code.cpp:89-91 | the balance factor of the pointed-to subtree, 0 for null |
| AccountIndex.AccountAVLTree.RotateRight | Code.cpp:93-104 | the in-place right rotation yields RotateRight of the subtree at the returned pointer |
| AccountIndex.AccountAVLTree.RotateLeft | Code.cpp:106-117 | the in-place left rotation yields RotateLeft of the subtree at the returned pointer |
| AccountIndex.AccountAVLTree.RotateLeftRight | Code.cpp:139-141 | rotating the left child left and then the node right yields the value double rotation |
| AccountIndex.AccountAVLTree.RotateRightLeft | Code.cpp:143-145 | rotating the right child right and then the node left yields the value double rotation |
| AccountIndex.AccountAVLTree.Insert | Code.cpp:119-149 | the returned pointer spells out AvlInsert.Insert of the subtree; exactly one struct is allocated when the number is new and none otherwise, and only structs of the subtree changed |
| AccountIndex.AccountAVLTree.BalanceAfterInsert | Code.cpp:130-148 | the height write and the rotation cases yield InsertRebalance of the node |
| AccountIndex.AccountAVLTree.FindMin | Code.cpp:151-155 | the loop stops at a struct of the subtree holding its least record |
| AccountIndex.AccountAVLTree.DeleteNode | Code.cpp:157-206 | the returned pointer spells out AvlDelete.Delete of the subtree; only its structs changed |
| AccountIndex.AccountAVLTree.BalanceAfterDelete | Code.cpp:184-205 | the height write and the rotation cases yield DeleteRebalance of the node |
| AccountIndex.AccountAVLTree.InOrderTraversal | Code.cpp:208-214 | the rows printed are the listing of the subtree |
| AccountIndex.AccountAVLTree.CalculateTotalFunds | Code.cpp:226-230 | the recursion over the store sums the balances of all in-order records of the subtree |
| AccountIndex.AccountAVLTree.CreateAccount | Code.cpp:253-256 | the index becomes AvlInsert.Insert of the old one and stays valid |
| AccountIndex.AccountAVLTree.DeleteAccount | Code.cpp:258-261 | the index becomes AvlDelete.Delete of the old one and stays valid |
| AccountIndex.AccountAVLTree.DisplayAccounts | Code.cpp:263-267 | one row per stored account, strictly ascending by number, each showing the stored record |
| AccountIndex.AccountAVLTree.SearchAccount | Code.cpp:269-271 | null exactly when the number is not stored; otherwise it points at the stored record |
| AccountIndex.AccountAVLTree.GetTotalFunds | Code.cpp:273-275 | the sum of the balances of all accounts |
| AccountIndex.AccountAVLTree.SetRecord | Code.cpp:438-443 | a write through the searched pointer rewrites exactly that record in the index and leaves every search result as it was |
| AccountIndex.AccountAVLTree.LoadRecords | Code.cpp:241-248 | inserting the records in file order makes the index Loaded of the old one |
| AccountIndex.AccountAVLTree.ApplyInterest | Code.cpp:299-314 | the queue loop applies interest to every record exactly once: the index becomes WithInterest of the old one |
| AccountIndex.Search | Code.cpp:216-224 | the pointer path through the store reaches the subtree AccountQueries.Search finds |
| AccountIndex.SearchInside | Code.cpp:216-224 | a found struct belongs to the subtree searched |
| AccountIndex.SearchFrame | Code.cpp:216-224 | search results depend only on the structs of the subtree |
| AccountIndex.WriteThrough | Code.cpp:381-382 | writing a record through the searched pointer makes the store spell out UpdateAt of the tree, with the same search results |
| AccountIndex.Loaded | Code.cpp:245-246 | folding insert over records keeps the index AVL |
| AccountIndex.LoadedEffect | Code.cpp:245-246 | loading adds exactly the records' numbers, keeps old records, and a new number gets the account of its first record |
| AccountIndex.LoadedStep | Code.cpp:245-246 | the last clause of LoadedEffect for one record, from the clause before the last record |
| AccountIndex.VisitNull | Code.cpp:306 | dequeuing a null pointer keeps the loop invariant |
| AccountIndex.VisitNode | Code.cpp:306-310 | rewriting a dequeued struct and queuing its children keeps the loop invariant |
| AccountIndex.VisitedAll | Code.cpp:303 | an empty queue means every struct of the tree has been rewritten exactly once |
| AccountIndex.InterestApplied | Code.cpp:299-312 | once every struct is rewritten, the store spells out WithInterest of the tree |
| BankMenu.Deposit | Code.cpp:368-391 | unknown account, wrong PIN (no change) or the deposit of AccountUpdates.Deposit done through the pointer |
| BankMenu.Withdraw | Code.cpp:392-419 | unknown account, wrong PIN, insufficient balance (no change) or the withdrawal of AccountUpdates.Withdraw |
| BankMenu.Transfer | Code.cpp:420-456 | either account unknown, wrong sender PIN, insufficient balance (no change) or the transfer of AccountUpdates.Transfer, with the credit seeing the debit when the accounts coincide |

## Left out

- Console I/O: every `cout`, the menu loop and the `cin` validation in `main` (Code.cpp:325-511). The three menu steps take their inputs as parameters and return which message would be printed.
- File persistence (`saveToFile`, `loadFromFile` and their helpers, Code.cpp:54-60, 232-248, 277-297) is stream I/O. Only the insert fold over already parsed records is modelled (`LoadRecords`, `Loaded`). The saver writes comma-separated lines with history lines between them, while the loader reads whitespace-separated fields; how those lines would actually parse is not modelled.
- `getCurrentTimestamp` (Code.cpp:316-321) reads the wall clock. The timestamp is a string parameter.
- AccountIndex.AccountAVLTree.ApplyInterest: uses one timestamp for the whole pass, while the source reads the clock once per account.
- Floating point: balances and amounts are integers (for example cents). The interest arithmetic `balance * (1 + rate / 100)` and `balance * rate / 100` is abstracted into the functions `grow` and `interestOn`, so rounding is not modelled.
- Memory management: `new`/`delete` and the `TransactionStack` destructor (Code.cpp:32-38). Deleted structs stay in the store unreferenced.
- The shallow copies of a `TransactionStack` in `*root = *temp` and `root->history = temp->history` (Code.cpp:172, 179) share one linked list between two structs, one of which is then freed. Histories are modelled as values (`seq<Transaction>`, newest first), so this sharing and its dangling pointers are not captured.
- AvlInsert.Insert: requires an AVL tree. The source relies on the same invariant: on a tree that is not AVL its rotations can dereference a null child.
- AvlDelete.Delete: requires an AVL tree because its contract needs one: the result is AVL and at most one level lower. Every call passes the index, which starts empty and stays AVL, so no caller is excluded.
- AccountIndex.AccountAVLTree.Insert: requires the subtree to be AVL, as the value insert does.
- AccountIndex.AccountAVLTree.DeleteNode: requires the subtree to be AVL, as the value delete does.
- Pointers are indices into a store of structs rather than machine addresses. The private `search` is a function over that store, and the two field writes `main` makes through an account pointer (balance, then history push) are one record write, `SetRecord`.
- Manager menu options 1 to 4 (Code.cpp:461-497) only call `getTotalFunds`, `displayAccounts` and `applyInterest`, which are modelled, and `saveToFile`, which is left out with the rest of file persistence above.
