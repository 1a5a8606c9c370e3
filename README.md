# AMCEpoll in Dafny

AMCEpoll is a small event reactor for Linux written in C. A reactor (`struct AMCEpoll`) owns:

- an epoll descriptor;
- a registry that maps an event key (`fd_<n>`, `sig_<n>`, `tm_<address>`) to an event.

Timeout events are scheduled in a timeout chain, through helpers that are not part of this model.

Events come in three variants, each with its own create / attach / detach / invoke / destroy functions:

- file-descriptor events;
- signal events, carried into the loop by a self-pipe;
- timeout events.

The main loop waits on epoll, translates each ready code, runs the user callback, and detaches and destroys one-shot events. Two libraries sit underneath:

- `utilRbTree.c` is a red-black tree keyed by 64-bit values, with ten ordered-traversal modes and cooperative abort.
- `utilTimeout.c` is a timeout chain made of two indexes: deadline to due objects, and object to deadline.

Beside them, `AMCDns.c` builds DNS queries: the header and question encoding of sections 4.1.1, 4.1.2 and 4.1.4 of RFC 1035.

## How the model is organised

The model follows the C file by file:

| file | models |
|---|---|
| `rb_error.dfy` | `_rb_err` |
| `rb_core.dfy`, `rb_insert.dfy`, `rb_delete.dfy`, `rb_traverse.dfy`, `rb_tree.dfy` | `utilRbTree.c` |
| `ordered_map.dfy` | the ordered-map view of the tree used by the timeout chain |
| `timespec.dfy`, `timeout.dfy` | `utilTimeout.c` |
| `ep_common.dfy` | `epCommon.c` and `include/epCommon.h` |
| `event.dfy` | the event and reactor records |
| `ev_fd.dfy`, `ev_signal.dfy`, `ev_timeout.dfy` | `epEventFd.c`, `epEventSignal.c`, `epEventTimeout.c` |
| `fd_io.dfy`, `reactor.dfy` | `AMCEpoll.c` |
| `dns.dfy` | `AMCDns.c` |

**The red-black tree.** Tree nodes are a `Tree` datatype. A node pointer with its parent chain is a zipper (`Zip`: a focus and a `Path` of parent frames), so `node->parent` is `Up`. Rotations, the insert fixup and the six delete cases are functions on zippers. The tree object (`UtilRbTree`) is a class with the root, the count and the status bits. Its search, insert and delete are methods with loops, proved against the in-order item sequence:

- insert is `InsertSorted`;
- a leaf delete is `RemoveAt`;
- a two-child delete is `SwapDelete`.

The traversal modes of `_check_tree_children` are one recursive function, `Traverse`.

**The timeout chain.** It is a value `Chain` of two maps. Each internal operation (`_add_new_object`, `_set_object`, `_del_object`) is a specification function, plus a method of the `TimeoutChain` class that performs the same steps on its fields.

**Events and the reactor.** Events and the reactor are classes whose fields the operations update. System calls, the registry's results and `malloc` appear as parameters that give their results.

**DNS.** The request writer works in place on a 1480-byte `array<Byte>`, pass by pass. It is proved against `QName`, the label form of a name, which reads back through `DecodeName`.

**Following the code.** Where the code does something other than what its comments describe, the model follows the code:

- `utilTimeout_MinimumSleepMilisecs` truncates to whole milliseconds rather than rounding up.
- `utilTimeout_SetObject` does not remove a rescheduled object from its old deadline (`Timeout.SetObjMoveLost`).
- `utilTimeout_DelObject` of an unscheduled object reports object-not-found rather than succeeding.
- `AMCEpoll_LoopExit` sets a flag the main loop never reads.
- `_dispatch_main_loop` waits a fixed 1000 ms rather than for the earliest timeout.
- `AMCEpoll_New` does not initialise any timeout chain. `struct AMCEpoll` (include/epCommon.h:70-76) has no timeout chain field; `Base.chain` is the model's own stand-in for the chain the timeout helpers use, and it starts uninitialised.
- The tree's public operations (`utilRbTree_Init`, `_rb_insert_node`, `utilRbTree_CheckObjects`, `utilRbTree_AbortCheck`) return `_rb_err`'s result as written (`RbErrAsWritten`), so an invalid argument comes back as +22. `RbErr` is the corrected normalisation of the Findings.
- `AMCDns.c`'s request builder is modelled alongside the reactor.

The lemmas that record the timeout chain's behaviour as written are `AddNewSharedDeadlineLost`, `SetObjMoveLost`, `SetObjHeadTail` and `DelObjInterior`. `RbTree.SwapDeleteMovesObject` does the same for the tree's two-child delete, which moves only the key. `RbTraverse.IncGreaterSkipsGrandchild` and `RbTraverse.DecLowerSkipsGrandchild` do it for the pruned traversal modes.

**Constants not in the headers shown.** Some constants are not defined in the headers that are part of this model. They are fixed in `errno.dfy` and at the top of the modules that use them:

- the Linux errno and epoll values;
- the `RB_ERR_*` codes, from 10000 in the order of `utilRbTree_StrError`;
- the `AMC_EP_ERR_*` codes, from 20000;
- `EP_EVENT_SIGNAL` = 1 << 10;
- the `RbStatus_*` bits 1, 2 and 4;
- the `RbCheck_t` order of the `switch` in `_check_tree_children`.

## Model

| member | source | states |
|---|---|---|
| RbError.RbErrAsWritten | src/utilRbTree.c:119-141 | `_rb_err` as written: zero gives 0 with errno 0. A system code from 2 to 9999, of either sign, comes back positive with its negation in errno. |
| RbError.RbErrAsWrittenEinval | src/utilRbTree.c:136-139 | As written, EINVAL normalises to +22 with errno -22, and -EINVAL also comes back positive. |
| RbError.RbErrAsWrittenHidesFailure | src/utilRbTree.c:1238-1242 | As written, the ENOSYS of the unimplemented stubs is neither negative nor zero, so a caller testing `< 0` takes the failure for success. |
| RbError.RbErr | src/utilRbTree.c:119-141 | `_rb_err` as intended: the result is zero exactly for zero and negative otherwise. A system code gives minus its absolute value, with that absolute value in errno. A library code gives minus its absolute value, with errno EPERM. |
| RbError.RbErrNormal | src/utilRbTree.c:126-128 | The corrected normalisation ignores the argument's sign and is idempotent. |
| RbError.RbErrDiffers | src/utilRbTree.c:136-139 | The as-written and corrected versions differ on exactly the codes 2..9999. |
| EpCommon.HaveIntrsetMeans | include/epCommon.h:81 | `BITS_HAVE_INTRSET(a, b)` holds exactly when `a & b` is non-zero. |
| EpCommon.HaveIntrsetSymmetric | include/epCommon.h:81 | The intersection test is symmetric and never holds with an empty mask. |
| EpCommon.AllSetAnySet | include/epCommon.h:79-80 | "All set" of a non-empty mask implies "any set". The empty mask is all set and never any set. |
| EpCommon.EpErr | src/epCommon.c:42-61 | `ep_err`: zero gives 0 with errno 0. Any other code gives minus its absolute value, with that absolute value in errno, or EPERM from the library range on. |
| EpCommon.EpErrNormal | src/epCommon.c:42-61 | `ep_err` ignores the sign, is idempotent, and returns zero exactly for zero. |
| EpCommon.ReturnErr | src/epEventFd.c:38-49 | `_RETURN_ERR` always returns a negative value: minus the code's absolute value with that absolute value in errno, and -1 with errno untouched for zero. |
| EpCommon.ReturnErrAgrees | src/epCommon.c:42-61 | For a non-zero code below the library range, `_RETURN_ERR` and `ep_err` report the same result and errno. |
| EpCommon.Digits | src/epEventFd.c:188-193 | `%d` of a non-negative value is a non-empty run of decimal digits. |
| EpCommon.KeyText | src/epEventFd.c:188-193 | `snprintf` into a 32-byte key with size `buffLen - 1` keeps a prefix of at most 30 characters. |
| EpCommon.DigitsLength | src/epEventFd.c:188-193 | A value below 10^w prints in at most w digits. |
| EpCommon.DigitsInjective | src/epEventFd.c:188-193 | Different non-negative values print differently. |
| EpCommon.DecimalInjective | src/epEventFd.c:188-193 | Different integers print differently, signs included. |
| EpCommon.DecimalLength | src/epEventFd.c:188-193 | A value of absolute value below 10^w prints in at most w + 1 characters. |
| EpCommon.PrefixedInjective | src/epEventSignal.c:362-367 | A key prefix followed by a number determines the number. |
| EpCommon.CIntKeysWhole | src/epEventSignal.c:362-367 | `fd_<n>` and `sig_<n>` keys of a C int are never truncated. |
| EpCommon.KeysIdentify | src/epEventFd.c:188-193 | Distinct descriptors or signals never share a key. |
| EpCommon.SignedAddr | src/epEventTimeout.c:70-75 | `%ld` of an address prints the signed 64-bit value congruent to it. |
| EpCommon.TimeoutKeysIdentify | src/epEventTimeout.c:70-75 | A `tm_` key is never truncated, and distinct addresses get distinct keys. |
| EpCommon.KeyKindsDiffer | src/epEventTimeout.c:70-75 | Fd, signal and timeout keys never collide. |
| RbCore.Up | src/utilRbTree.c:257-277 | Moving to `node->parent` keeps the whole tree and shortens the path to the root by one. |
| RbCore.Left | src/utilRbTree.c:257-277 | Moving to `node->left` keeps the whole tree and focuses on the left child. |
| RbCore.Right | src/utilRbTree.c:257-277 | Moving to `node->right` keeps the whole tree and focuses on the right child. |
| RbCore.RotateLeft | src/utilRbTree.c:298-343 | A left rotation keeps the node's place and puts a node with a left child there. |
| RbCore.RotateRight | src/utilRbTree.c:347-387 | A right rotation keeps the node's place and puts a node with a right child there. |
| RbCore.RotateLeftItems | src/utilRbTree.c:298-343 | A left rotation keeps the whole tree's in-order key/object sequence. |
| RbCore.RotateRightItems | src/utilRbTree.c:347-387 | A right rotation keeps the whole tree's in-order key/object sequence. |
| RbCore.RotateLeftAtRoot | src/utilRbTree.c:298-343 | Rotating the root left makes its right child the new root, with the old root as its left child taking over the middle subtree. |
| RbCore.RotateRightAtRoot | src/utilRbTree.c:347-387 | The mirror image for a right rotation at the root. |
| RbCore.RotateBelowRoot | src/utilRbTree.c:298-343 | Rotating a non-root node leaves every frame above it unchanged. |
| RbCore.OrderedItems | src/utilRbTree.c:189-208 | In a search tree every left item has a smaller key and every right item a larger key than the node. |
| RbCore.RBBlackCounts | src/utilRbTree.c:391-453 | Equal black heights at every node mean every root-to-leaf path has the same black count. |
| RbInsert.InsertFixupItems | src/utilRbTree.c:391-453 | The insert fixup only recolours and rotates: the in-order items are unchanged. |
| RbInsert.StraightenInsertItems | src/utilRbTree.c:414-432 | Straightening a zig-zag keeps the items. |
| RbInsert.RotateGrandparentItems | src/utilRbTree.c:434-450 | The grandparent rotation keeps the items. |
| RbInsert.RecolorUncleItems | src/utilRbTree.c:404-411 | The red-uncle recolouring keeps the items. |
| RbInsert.NewLeafFixInv | src/utilRbTree.c:457-521 | A red leaf hung in a red-black tree violates at most "red parent", the fixup's precondition. |
| RbInsert.RecolorUncleRB | src/utilRbTree.c:404-411 | After a red-uncle recolouring, the grandparent satisfies the fixup's precondition. |
| RbInsert.RotateGrandparentRB | src/utilRbTree.c:412-451 | The black-uncle cases end in a red-black tree. |
| RbInsert.InsertFixupRB | src/utilRbTree.c:391-453 | From that precondition the fixup returns a red-black tree: black root, no red-red edge, equal black heights. |
| RbInsert.InsertFixupRoot | src/utilRbTree.c:391-453 | Under a black root the fixup leaves the root black. |
| RbInsert.RootTopBlack | src/utilRbTree.c:391-453 | A black root guarantees a grandparent whenever the parent is red. |
| RbDelete.Case1Items | src/utilRbTree.c:697-707 | A delete rebalance that ends keeps the in-order items. |
| RbDelete.Case2Items | src/utilRbTree.c:672-693 | The red-sibling case keeps the items. |
| RbDelete.Case3Items | src/utilRbTree.c:635-668 | The black-parent, all-black-sibling case keeps the items. |
| RbDelete.Case4Items | src/utilRbTree.c:598-631 | The red-parent, all-black-sibling case keeps the items. |
| RbDelete.Case5Items | src/utilRbTree.c:546-594 | The sibling rotation keeps the items. |
| RbDelete.Case6Items | src/utilRbTree.c:525-542 | The final parent rotation keeps the items. |
| RbDelete.Case1Root | src/utilRbTree.c:697-707 | A rebalance that ends leaves a black root black. |
| RbDelete.Case2Root | src/utilRbTree.c:672-693 | Case 2 keeps a black root. |
| RbDelete.Case3Root | src/utilRbTree.c:635-668 | Case 3 keeps a black root. |
| RbDelete.Case4Root | src/utilRbTree.c:598-631 | Case 4 keeps a black root. |
| RbDelete.Case5Root | src/utilRbTree.c:546-594 | Case 5 keeps a black root. |
| RbDelete.Case6Root | src/utilRbTree.c:525-542 | Case 6 keeps a black root. |
| RbDelete.DeleteSingleItems | src/utilRbTree.c:743-769 | Unlinking a node with at most one child removes exactly its pair from the in-order sequence. |
| RbDelete.DeleteSingleRoot | src/utilRbTree.c:712-734 | Unlinking keeps a black root black. |
| RbTraverse.TraverseSound | src/utilRbTree.c:826-1120 | Every pair a traversal visits is in the tree and satisfies the mode's pivot relation. |
| RbTraverse.PresetAbortVisitsNothing | src/utilRbTree.c:826-836 | With AbortCheck already set, no callback fires. |
| RbTraverse.OrderedSides | src/utilRbTree.c:840-884 | In walk direction, the near subtree's keys precede the node and the far subtree's keys follow it. |
| RbTraverse.TraverseOrder | src/utilRbTree.c:840-1120 | On a search tree, Inc modes visit ascending keys and Dec modes descending keys. |
| RbTraverse.NeverAborts | src/utilRbTree.c:826-836 | A callback that never aborts never leaves AbortCheck set. |
| RbTraverse.TraverseAbort | src/utilRbTree.c:826-1120 | The visits are a prefix of the non-aborting run's visits. AbortCheck is set exactly when the last visited callback set it, and no earlier one did. A run that is not aborted visits everything the non-aborting run does. |
| RbTraverse.WalkOrderMembers | src/utilRbTree.c:840-884 | The walk order of either direction lists exactly the tree's items. |
| RbTraverse.StopAtMissMonotone | src/utilRbTree.c:888-946 | In the stop-at-miss modes, once a key fails the pivot every later key in walk order fails it too. |
| RbTraverse.TraverseComplete | src/utilRbTree.c:840-946 | Without an abort, IncAll, DecAll, IncLower(Equal) and DecGreater(Equal) visit exactly the qualifying pairs, in walk order. |
| RbTraverse.IncGreaterSkipsGrandchild | src/utilRbTree.c:1068-1092 | IncGreater with pivot 6 on the tree 10 / (5, red 7) / 15 misses 7: the pruned modes can skip qualifying keys. |
| RbTraverse.DecLowerSkipsGrandchild | src/utilRbTree.c:950-975 | The mirror case: DecLower with pivot 13 misses 12. |
| RbTree.InsertSortedSplit | src/utilRbTree.c:457-521 | Inserting a pair whose key lies between two sorted halves puts it between them. |
| RbTree.WithoutAt | src/utilRbTree.c:738-815 | In an increasing key sequence, removing a key is removing its position. |
| RbTree.SwapDeleteMovesObject | src/utilRbTree.c:776-779 | A two-child delete trades only keys, so the successor's key ends up with the deleted node's object and the successor's pair is gone. |
| RbTree.DescendStep | src/utilRbTree.c:189-208 | One step of the search descent keeps the key's membership: left when smaller, right when larger, found when equal. |
| RbTree.SameKeySameItem | src/utilRbTree.c:189-208 | A search tree holds at most one pair per key. |
| RbTree.FindMinLeaf | src/utilRbTree.c:281-288 | Following left children reaches the node with no left child that holds the subtree's first in-order pair. |
| RbTree.UtilRbTree.constructor | src/utilRbTree.c:1180-1188 | A freshly allocated tree has status 0, no nodes and count 0. |
| RbTree.UtilRbTree.Search | src/utilRbTree.c:189-208 | The node found holds the key. On a search tree a node is found exactly when the key is present. |
| RbTree.UtilRbTree.InsertNode | src/utilRbTree.c:457-521 | A present key changes nothing: 0 for the same pair, an insert conflict otherwise. A failed allocation changes nothing and reports `_rb_err(ENOMEM)` as written, which is +12. Otherwise the in-order pairs become `InsertSorted(old, pair)`, the count grows by one, search order and a black root are kept, and a red-black tree stays red-black. |
| RbTree.UtilRbTree.DeleteNode | src/utilRbTree.c:738-815 | Unless it crashes, the count drops by one and the keys lose exactly the deleted key. A node with at most one child removes its own position. A two-child node gets `SwapDelete`. A crash leaves the tree as it was. |
| RbTree.SlotItems | src/utilRbTree.c:457-521 | A red leaf hung in an empty slot and fixed up lands between the pairs before and after that slot. |
| RbTree.InsertAtSlot | src/utilRbTree.c:457-521 | Inserting at the search slot keeps search order, adds exactly the new pair and grows the size by one. |
| RbTree.InsertAtSlotColors | src/utilRbTree.c:457-521 | Inserting at the slot keeps the root black, and a red-black tree red-black. |
| RbTree.SwapTargetItems | src/utilRbTree.c:776-779 | Unlinking the successor after the key swap leaves exactly the pairs `SwapDelete` describes. |
| RbTree.DeleteKeys | src/utilRbTree.c:738-815 | Both kinds of delete leave the old keys without the deleted one, still increasing. |
| RbTree.InsertOrdered | src/utilRbTree.c:457-521 | Placing a pair between smaller and larger keys keeps the tree a search tree. |
| RbTree.Init | src/utilRbTree.c:1211-1226 | NULL gives `_rb_err(EINVAL)` as written (+22, errno -22). A tree already initialised is refused untouched. Otherwise the tree becomes empty with status InitOK and reports 0 with errno untouched. |
| RbTree.New | src/utilRbTree.c:1180-1188 | A tree is returned exactly when allocation succeeds, empty and initialised. |
| RbTree.GetObject | src/utilRbTree.c:1246-1261 | NULL gives EINVAL. On a search tree the object returned is the one stored under the key, or NULL when the key is absent. |
| RbTree.CheckRefusal | src/utilRbTree.c:1274-1300 | `utilRbTree_CheckObjects` walks exactly when the tree, mode and callback are valid, the tree is initialised and no check is running. |
| RbTree.AbortRefusal | src/utilRbTree.c:1304-1318 | `utilRbTree_AbortCheck` succeeds exactly when the tree is initialised and being checked. |
| RbTree.CheckingGuards | src/utilRbTree.c:1274-1318 | During a check, an abort succeeds and a nested check is refused as recursive. After the check, an abort is refused as not-checking, InitOK is kept and AbortCheck is cleared. |
| RbTree.CheckObjects | src/utilRbTree.c:1274-1300 | A refusal reports `_rb_err` of its error as written (an invalid argument gives +22) with no visits. Otherwise the visits are the mode's `Traverse`, the status returns with IsChecking and AbortCheck cleared, and the tree is unchanged. |
| RbTree.AbortCheck | src/utilRbTree.c:1304-1318 | The refusals through `_rb_err` as written (NULL gives +22), or the AbortCheck bit set and 0 returned with errno untouched; the tree is unchanged. |
| OrderedMap.LeastOf | src/utilTimeout.c:556-587 | Every non-empty key set has a least element. |
| OrderedMap.FindMinimum | src/utilTimeout.c:556-587 | The entry with the least key, and nothing exactly for an empty map. |
| OrderedMap.SetData | src/utilTimeout.c:139-151 | A successful store maps the key to the value and keeps every other entry. A failed store changes nothing. |
| OrderedMap.FindMinimumAfterSet | src/utilTimeout.c:556-587 | Adding a key above the minimum leaves the minimum entry unchanged. |
| Timespec.KeyFromTimespec | src/utilTimeout.c:77-83 | The key's upper word is the seconds mod 2^32 and its lower word the nanoseconds mod 2^32. |
| Timespec.TimespecFromKey | src/utilTimeout.c:87-93 | The key splits into seconds and nanoseconds below 2^32 that recombine to it. |
| Timespec.UnpackPack | src/utilTimeout.c:77-93 | A timespec whose fields fit 32 bits survives a key round trip. |
| Timespec.PackUnpack | src/utilTimeout.c:77-93 | Every key survives the opposite round trip. |
| Timespec.KeyZero | src/utilTimeout.c:77-83 | A key is zero exactly when both fields are multiples of 2^32. For a normal 32-bit time that means the zero time. |
| Timespec.Comp | src/utilTimeout.c:335-355 | `_timespec_comp` returns -1, 0 or 1. It is 0 exactly for equal times, and negative exactly when the left time comes first, seconds before nanoseconds. |
| Timespec.CompAntisymmetric | src/utilTimeout.c:335-355 | Swapping the arguments negates the comparison. |
| Timespec.CompInstants | src/utilTimeout.c:335-355 | On normal times the comparison is the order of the instants. |
| Timespec.KeyOrder | src/utilTimeout.c:77-83 | On keyable times, key order is `_timespec_comp` order, so the deadline index is sorted by time. |
| Timespec.Sub | src/utilTimeout.c:359-375 | `_timespec_sub` gives the exact difference of the two instants. |
| Timespec.SubAlwaysBorrows | src/utilTimeout.c:359-375 | As written both branches borrow: the difference is normal exactly when a borrow was needed. |
| Timespec.FromMillis | src/utilTimeout.c:379-394 | A non-positive count gives the zero time. A positive one gives its whole seconds and remainder as a normal time of exactly that many milliseconds. |
| Timespec.ToMillis | src/utilTimeout.c:398-401 | For non-negative nanoseconds, the floor of the instant in milliseconds. |
| Timespec.MillisRoundTrip | src/utilTimeout.c:379-401 | A positive millisecond count survives the conversion to a timespec and back. |
| Timespec.SleepFloor | src/utilTimeout.c:607-637 | For a deadline at or after now, the borrowed difference converts to the floor of the milliseconds between them. |
| Timespec.Deadline | src/utilTimeout.c:482-491 | On normal inputs the carried sum is normal and is exactly now plus the interval. |
| Timespec.DeadlineAfter | src/utilTimeout.c:482-491 | A positive interval puts the deadline after now. |
| Timeout.ObjectIndexExact | src/utilTimeout.c:509-529 | In a coherent chain, the object index holds an object exactly when some bucket lists it. |
| Timeout.AddNewFresh | src/utilTimeout.c:131-154 | A new object at a fresh deadline returns 0. Both indexes gain exactly its entries, and the chain stays coherent. |
| Timeout.AddNewRollback | src/utilTimeout.c:139-151 | At a fresh deadline, a failing store returns negative and leaves both indexes as they were. |
| Timeout.AddNewSharedDeadlineLost | src/utilTimeout.c:155-183 | At a deadline that already has a bucket, the call returns 0, yet the object is in no bucket and has no deadline. |
| Timeout.SetObjMoveLost | src/utilTimeout.c:204-251 | Moving a lone object records the new deadline but creates no bucket for it. The old bucket still lists the object, so the chain is no longer coherent. |
| Timeout.SetObjHeadTail | src/utilTimeout.c:210-221 | Moving the head of a longer bucket stores the rest of that bucket under the new deadline. The entry left under the old deadline is not rewritten; the model keeps it as its old value. |
| Timeout.DelObjNotFound | src/utilTimeout.c:266-270 | Deleting an unscheduled object reports object-not-found and changes nothing. |
| Timeout.DelObjHead | src/utilTimeout.c:279-299 | Deleting a bucket head returns 0, unschedules exactly that object and keeps the chain coherent. |
| Timeout.DelObjInterior | src/utilTimeout.c:300-320 | Outside the head, deletion returns, with 0, only when the object is the third entry of its bucket. Otherwise it crashes or never returns. |
| Timeout.TimeoutChain.AddNewObject | src/utilTimeout.c:123-184 | The chain's new state and the result are those of `AddNew`. |
| Timeout.TimeoutChain.SetObjectTime | src/utilTimeout.c:188-252 | The chain's new state and the result are those of `SetObj`. |
| Timeout.TimeoutChain.DelObjectTime | src/utilTimeout.c:256-323 | The chain's new state and the result are those of `DelObj`. |
| Timeout.Init | src/utilTimeout.c:412-444 | NULL gives EINVAL. An initialised chain is refused unchanged. Otherwise the result is negative exactly when a map fails to initialise, and the chain stays uninitialised; when both initialise the chain is initialised and empty and the second map's result is returned as it is, positive or not. |
| Timeout.Clean | src/utilTimeout.c:448-462 | NULL gives EINVAL. Otherwise only the initialised flag is cleared. |
| Timeout.SetObject | src/utilTimeout.c:466-505 | The NULL and not-initialised refusals. A zero interval hands over to `utilTimeout_DelObject`: a NULL event gives EINVAL with the chain unchanged, any other is deleted. Any other interval schedules the event at `Deadline(now, interval)`. |
| Timeout.ObjectExists | src/utilTimeout.c:509-529 | True exactly for a non-NULL chain and object, with the object in the object index. |
| Timeout.DelObject | src/utilTimeout.c:533-552 | The NULL and not-initialised refusals leave the chain. Otherwise the step is `DelObj`. |
| Timeout.GetSmallestTime | src/utilTimeout.c:556-587 | Success exactly for an initialised non-empty chain. It then gives the earliest deadline, no later than any other, and the head of its bucket. |
| Timeout.MinimumSleepMilisecs | src/utilTimeout.c:607-637 | -1 with nothing scheduled. 0 once the earliest deadline has passed. Otherwise the floor of the milliseconds until it. |
| Timeout.CompareTime | src/utilTimeout.c:641-648 | 0 when either side is NULL. Otherwise it has the sign of `_timespec_comp` and is zero exactly for equal times. |
| EpEvent.Event.constructor | src/epEvent.c:45-46 | A zero-filled event at its address, with no variant. |
| EpEvent.Base.constructor | src/AMCEpoll.c:180-226 | A reactor with status 0 and an empty registry. |
| EpEvent.Base.Lookup | src/epEventFd.c:287-311 | The event registered under the key, found exactly when the key is registered. |
| EpEvent.Base.Attach | src/epEventFd.c:197-221 | A successful registration maps the key to the event. A failed one changes nothing. |
| EpEvent.Base.Detach | src/epEventFd.c:337-363 | A successful removal drops exactly the key. A failed one changes nothing. |
| EpEvent.UserCall | src/epEventFd.c:380-394 | The callback receives the event's descriptor and the code given. |
| EpEvent.Destroy | src/epEventFd.c:367-376 | NULL gives EINVAL. Otherwise the release's result with errno untouched, after a FREE notice to the user exactly when the event asked for one. |
| EvFd.EpollCodeFromAmc | src/epEventFd.c:65-92 | Each epoll bit is set exactly when its AMC request is. ONESHOT is set exactly without PERSIST. No other bit appears. |
| EvFd.AmcCodeFromEpoll | src/epEventFd.c:96-109 | READ comes from IN or PRI, WRITE from OUT, and ERROR from ERR or HUP. Nothing else appears. |
| EvFd.TranslationRoundTrip | src/epEventFd.c:65-109 | Translating to epoll and back keeps exactly a mask's read, write and error requests. |
| EvFd.CheckEventsIsFileEvent | src/epEventFd.c:174-184 | The validity check and `epEventFd_IsFileEvent` accept the same masks. |
| EvFd.Create | src/epEventFd.c:245-283 | NULL exactly for a negative descriptor, a NULL callback, a mask without read or write (all EINVAL), or a failed allocation. Otherwise the fields are set and the key is `fd_<fd>`. |
| EvFd.AddFdEvent | src/epEventFd.c:197-221 | Registration, then the epoll add. A failed add removes the registration again, except when that unchecked removal itself fails, which leaves the event registered. Errors are returned negated. |
| EvFd.AddToBase | src/epEventFd.c:287-311 | NULL gives EINVAL. An absent key leads to `_add_fd_event`, with its rollback case. The same event leads to the epoll modify. A different event gives EEXIST. |
| EvFd.DetachResult | src/epEventFd.c:337-363 | Success only for the registered event with both calls succeeding. ENOENT for any other event. |
| EvFd.DetachFromBase | src/epEventFd.c:337-363 | ENOENT unless the event is registered under its key. A failed epoll delete keeps it registered. Otherwise the registry removal decides. |
| EvFd.InvokeCallback | src/epEventFd.c:380-394 | EINVAL without a reactor, an event or a code. Otherwise the callback runs, with the translated code, exactly when that code meets the event's mask. |
| EvSignal.SignalEpollCode | src/epEventSignal.c:384-399 | Always IN, ERR and HUP. ONESHOT exactly without PERSIST. Nothing else. |
| EvSignal.SignalEpollCodeOnlyPersist | src/epEventSignal.c:384-399 | Only the PERSIST bit of a signal mask affects its epoll code. |
| EvSignal.AmcCodeFromSignalEpoll | src/epEventSignal.c:403-413 | Exactly one bit: ERROR on an error or hang-up, SIGNAL otherwise. |
| EvSignal.CheckSigEventCodeIsSignalEvent | src/epEventSignal.c:371-380 | The validity check and `epEventSignal_IsSignalEvent` agree. |
| EvSignal.SignalGateOpen | src/epEventSignal.c:637-661 | A valid signal event's callback always runs when its pipe is readable without error. |
| EvSignal.ClaimSlot | src/epEventSignal.c:215-275 | The slot is taken for the write end exactly when it is free or already this pipe's and the handler installs. Another holder gives EEXIST. A failed install frees the slot. |
| EvSignal.Add | src/epEventSignal.c:215-275 | Success exactly when the pipe opens and the slot is claimed, leaving the pipe's ends in the event and the write end in the slot. A failure is negative, closes the pipe, and keeps or frees the slot but never takes another holder's. |
| EvSignal.ReAdd | src/epEventSignal.c:306-351 | Without a pipe it is `Add`. With one, the pipe stays, and success means the slot is claimed again for the write end. |
| EvSignal.Del | src/epEventSignal.c:279-302 | The slot is freed only if it holds this event's write end. An open pipe is closed. -1 only for a failed restore of the default action. |
| EvSignal.AddThenDel | src/epEventSignal.c:215-302 | Releasing right after a successful add frees the slot and closes the pipe. |
| EvSignal.DelKeepsOtherHolder | src/epEventSignal.c:279-302 | A release never frees a slot another pipe holds. |
| EvSignal.DelIdempotent | src/epEventSignal.c:279-302 | Releasing twice leaves the same state as releasing once. |
| EvSignal.AddEventStep | src/epEventSignal.c:417-446 | Success exactly when registration, add and epoll add all succeed. A failed epoll add releases the pipe. A failed registration changes nothing. |
| EvSignal.ModEventStep | src/epEventSignal.c:450-471 | Success exactly when re-add and epoll modify succeed. A failed modify releases the slot and the pipe. |
| EvSignal.DelEventStep | src/epEventSignal.c:475-488 | The state after the double release is that of one release. |
| EvSignal.EpollSignalDel | src/epEventSignal.c:138-156 | Only an open read end is removed from the epoll set; only that removal can fail. |
| EvSignal.SignalTable.constructor | src/epEventSignal.c:82-84 | The static table: zero-filled and not initialised. |
| EvSignal.SignalTable.Handler | src/epEventSignal.c:167-177 | A delivery of a signal in 1..64 is written to its slot's descriptor exactly when that slot holds one. |
| EvSignal.SignalTable.InitGlobals | src/epEventSignal.c:181-187 | The first call sets every slot to -1, so no handler writes anywhere. Later calls change nothing. |
| EvSignal.SignalAdd | src/epEventSignal.c:215-275 | The table slot and the event's pipe change as `Add` says, and nothing else. |
| EvSignal.SignalReAdd | src/epEventSignal.c:306-351 | The table slot and the event's pipe change as `ReAdd` says, and nothing else. |
| EvSignal.SignalDel | src/epEventSignal.c:279-302 | The table slot and the event's pipe change as `Del` says, and nothing else. |
| EvSignal.AddSignalEvent | src/epEventSignal.c:417-446 | The state follows `AddEventStep`, and the registry gains the event exactly when registration succeeded. |
| EvSignal.ModSignalEvent | src/epEventSignal.c:450-471 | The state follows `ModEventStep`. |
| EvSignal.DelSignalEvent | src/epEventSignal.c:475-488 | The state follows `DelEventStep`, and the epoll delete is never issued. |
| EvSignal.Create | src/epEventSignal.c:499-543 | NULL for a signal outside 1..64, a NULL callback or a mask without SIGNAL (EINVAL), or a failed allocation. Otherwise the event has the signal as descriptor, no pipe and key `sig_<n>`, and the table is initialised. |
| EvSignal.AddToBase | src/epEventSignal.c:547-570 | NULL gives EINVAL. An absent key leads to the add step. The same event leads to the modify step. A different event gives EEXIST. A success leaves the slot holding the event's write end. |
| EvSignal.DetachFromBase | src/epEventSignal.c:596-621 | ENOENT unless registered. Otherwise the delete step, then the registry removal only when that succeeds. |
| EvSignal.InvokeCallback | src/epEventSignal.c:637-661 | EINVAL without a reactor, an event or a code. Otherwise the pipe is drained while reads return data, and the callback runs exactly when the translated code meets the mask. |
| EvTimeout.TimeoutMasksDisjoint | src/epEventTimeout.c:53-66 | A valid timeout mask is neither a file mask nor a signal mask, and carries TIMEOUT. |
| EvTimeout.Create | src/epEventTimeout.c:85-125 | NULL for a descriptor >= 0, a NULL callback or an invalid mask (EINVAL), or a failed allocation. Otherwise fd -1, no epoll code, the timeout stored and key `tm_<address>`. |
| EvTimeout.AddToBase | src/epEventTimeout.c:129-156 | Any registered key, even this event's own, gives object-exists. Otherwise the event is registered and then scheduled at now plus its timeout, or deleted from the chain for a zero interval. |
| EvTimeout.PositiveTimeoutScheduled | src/epEventTimeout.c:129-156 | A positive timeout below 2^32 s has a non-zero interval key, so it is scheduled. |
| EvTimeout.WholeWordTimeoutUnscheduled | src/utilTimeout.c:77-83 | A timeout of exactly 2^32 s has key zero and would be taken for no timeout. |
| EvTimeout.NonPositiveTimeoutNotScheduled | src/epEventTimeout.c:129-156 | A non-positive timeout goes to the delete path and reports object-not-found for an unscheduled event. |
| EvTimeout.DetachFromBase | src/epEventTimeout.c:182-208 | Object-not-found unless registered. A failed removal is returned as is. Otherwise the key leaves the registry and the address leaves the chain. |
| EvTimeout.InvokeCallback | src/epEventTimeout.c:225-234 | With a reactor and an event, the callback always runs with exactly TIMEOUT. Otherwise EINVAL. |
| FdIo.Moved | src/AMCEpoll.c:453-508 | A call moves at most the bytes asked for. |
| FdIo.ReadFrom | src/AMCEpoll.c:453-508 | The read loop gives -1 or a count between what was already read and the request. |
| FdIo.WriteFrom | src/AMCEpoll.c:512-553 | The write loop gives a count between what was already written and the request, or -1 only when nothing was written. |
| FdIo.ReadDropsProgress | src/AMCEpoll.c:453-553 | For any partial transfer followed by a hard error, the read loop gives -1 while the write loop keeps the partial count. |
| FdIo.Read | src/AMCEpoll.c:453-508 | EBADF for a negative descriptor, EINVAL for a NULL buffer, 0 for an empty request, otherwise the read loop's result. |
| FdIo.Write | src/AMCEpoll.c:512-553 | The same guards, otherwise the write loop's result. |
| Reactor.EntryRegistry | src/AMCEpoll.c:136-152 | One ready slot only removes registry entries and never changes the event of a kept key. |
| Reactor.FlattenStep | src/AMCEpoll.c:115-156 | The slots of one more wait come after those of the earlier waits. |
| Reactor.LoopEndsMeans | src/AMCEpoll.c:101-169 | The main loop returns exactly when some wait fails fatally. It then returns negative after the first such wait, and it never crashes. |
| Reactor.FirstFatal | src/AMCEpoll.c:115-156 | The first fatal wait: every wait before it is EINTR or ready slots. |
| Reactor.FirstFatalIsFirst | src/AMCEpoll.c:115-156 | A fatal wait with no fatal wait before it is the first one. |
| Reactor.ReadyRegistryShrinks | src/AMCEpoll.c:136-152 | Handling ready slots only removes entries, keeping the event of every key left. |
| Reactor.ReadyRegistryAppend | src/AMCEpoll.c:136-152 | Handling `a + b` is handling `a`, then `b`. |
| Reactor.ReadyCallsAppend | src/AMCEpoll.c:136-152 | The calls of `a + b` are those of `a`, then those of `b`. |
| Reactor.PersistentStays | src/AMCEpoll.c:146-150 | A registered PERSIST event stays registered under its key, whatever fires. |
| Reactor.OneShotGone | src/AMCEpoll.c:146-150 | A one-shot event that fires while registered, with a successful detach, is no longer registered. |
| Reactor.FailedDetachKeepsEvent | src/AMCEpoll.c:146-150 | A one-shot event whose detach fails is still destroyed (the FREE notice is given) while it stays registered. |
| Reactor.FreeNoticeOnlyOneShot | src/AMCEpoll.c:146-150 | A FREE notice goes only to a one-shot event that asked for one. |
| Reactor.NullSlotSkipped | src/AMCEpoll.c:141 | A slot with a NULL data pointer changes nothing and makes no call. |
| Reactor.HandleEntry | src/AMCEpoll.c:138-150 | One slot's registry change and calls are `EntryRegistry` and `EntryCalls`. |
| Reactor.HandleRound | src/AMCEpoll.c:136-152 | The `for` loop's registry and calls are those of the slots in order. |
| Reactor.HandleWait | src/AMCEpoll.c:116-153 | It stops exactly on a fatal wait, which also sets EPOLL_ERROR. Otherwise the slots are handled as `ReadyRegistry` and `ReadyCalls` say. |
| Reactor.DispatchMainLoop | src/AMCEpoll.c:101-169 | The loop ends as `LoopEnds` says, with the registry and calls of every slot of the waits made. |
| Reactor.Dispatch | src/AMCEpoll.c:382-394 | NULL gives EINVAL. An empty registry returns 0 at once. Otherwise the main loop runs. |
| Reactor.LoopExit | src/AMCEpoll.c:398-407 | NULL gives EINVAL. Otherwise SHOULD_EXIT is set and 0 returned. |
| Reactor.New | src/AMCEpoll.c:180-226 | NULL exactly for a zero buffer size (EINVAL) or a failed allocation, `epoll_create` or registry. A positive epoll descriptor is closed on the registry failure. Otherwise an empty reactor, whose stand-in timeout chain is uninitialised. |
| Reactor.NewFileEvent | src/AMCEpoll.c:289-309 | Signal and timeout masks and non-file masks give NULL. A file mask gives `epEventFd_Create`'s result. |
| Reactor.FreeEvent | src/AMCEpoll.c:313-325 | Only a file-descriptor event is destroyed, giving the release's result and the FREE notice it asked for. Anything else gives EINVAL. |
| Reactor.AddEvent | src/AMCEpoll.c:329-343 | Only a file-descriptor event is attached, by `epEventFd_AddToBase`; a failed epoll add whose rollback fails leaves it registered. Anything else gives EINVAL with the registry unchanged. |
| Reactor.DelEvent | src/AMCEpoll.c:347-364 | EINVAL for NULL or a variant-less event. Otherwise the variant's detach decides the result and the new state. |
| Reactor.DelAndFreeEvent | src/AMCEpoll.c:368-378 | The detach's result, unless it returned 0; then the event is also freed and the free's result is returned. |
| Dns.Be16 | src/AMCDns.c:273-278 | Two bytes, high first, holding the value mod 2^16. |
| Dns.TypeClass | src/AMCDns.c:349-358 | QTYPE, then QCLASS Internet (0, 1). |
| Dns.TypeRoundTrip | src/AMCDns.c:349-352 | A 16-bit type reads back from its bytes. A is 1 and AAAA is 28. |
| Dns.OrIsForcedBits | src/AMCDns.c:341-346 | `0xC000 OR v` sets the two top bits and keeps v's low fourteen bits. |
| Dns.ComprVal | src/AMCDns.c:341-346 | The pointer word is 0xC000 plus the offset's low fourteen bits. |
| Dns.PointerRoundTrip | src/AMCDns.c:341-346 | The pointer's top bits are 11 and the rest reads back as the offset's low fourteen bits, or the offset itself below 2^14. |
| Dns.EncodeFromLength | src/AMCDns.c:298-337 | The label form of a name is two bytes longer than it. |
| Dns.QNameLength | src/AMCDns.c:298-337 | QNAME takes the name's length plus two. The loop's advance is at most that, and exactly that when no label reaches 256 characters. |
| Dns.AdvanceOneLabel | src/AMCDns.c:298-337 | Without dots, the advance is the length as a `uint8_t`, plus two. |
| Dns.LongLabelWraps | src/AMCDns.c:298-337 | A 256-character label advances the buffer by two bytes only: its length byte wraps to 0. |
| Dns.DecodeEncodeFrom | src/AMCDns.c:298-337 | The labels written for the rest of a name read back as the current label followed by that rest. |
| Dns.DecodeQName | src/AMCDns.c:298-337 | A valid name's QNAME (section 3.1 of RFC 1035) reads back as the name. |
| Dns.ValidFromShort | src/AMCDns.c:298-337 | A valid name has labels shorter than 256 characters and no NUL, so the name loop writes it without wrapping. |
| Dns.Put16 | src/AMCDns.c:273-278 | Two bytes at the position hold `Be16(v)`; everything else is unchanged. |
| Dns.WriteName | src/AMCDns.c:298-337 | The name loop moves the buffer by the name's advance. With short labels it writes exactly the QNAME there, and it leaves the bytes around the name's room unchanged. |
| Dns.PutTypeClass | src/AMCDns.c:349-358 | Four bytes at the position hold `TypeClass`; everything else is unchanged. |
| Dns.AppendReqData | src/AMCDns.c:292-365 | A NULL name writes the pointer and the type/class (6 bytes). A name writes its labels and the type/class, and with short labels exactly QNAME + type + class. The start is reported when asked. |
| Dns.GenReqFlags | src/AMCDns.c:282-287 | A query: the standard-query opcode, QR and every other flag clear. |
| Dns.ReplyCode | src/AMCDns.c:369-372 | The flags' low four bits. |
| Dns.ReplyCodeField | src/AMCDns.c:369-372 | The reply code is RCODE whatever the fields above hold. |
| Dns.RequestReplyCode | src/AMCDns.c:282-287 | A query's own flags carry the reply code 0. |
| Dns.ByteToChar | src/AMCDns.c:134-156 | '!'..0x7F as themselves, a space as a space, anything else as '.'. |
| Dns.ByteToCharKeeps | src/AMCDns.c:134-156 | A shown byte is itself exactly in 0x20..0x7F, and everything shown lies there. |
| Dns.Header | src/AMCDns.c:403-414 | Twelve bytes: ID 0x1234, the query flags, QDCOUNT 2, and zero answer, authority and additional counts. |
| Dns.PutHeader | src/AMCDns.c:403-414 | The buffer starts with `Header()`. |
| Dns.Inet4Send | src/AMCDns.c:382-440 | The packet has the request's length. With short labels it is the header, an A question and an AAAA question with the full name. The result is 0 with errno untouched, or `RETURN_ERR` of `sendto`'s errno. |
| Dns.RequestNameDecodes | src/AMCDns.c:382-426 | For a valid name, the request `_dns_INET4_send` builds has the full form, and its first question's name reads back as the domain. |
| Dns.RejectedRequest | src/AMCDns.c:463-468 | On the refusal path a NULL domain crashes in `strlen`. Otherwise the result is negative and errno holds ENAMETOOLONG for a domain over 255 bytes, EINVAL for any other. |
| Dns.WriteRequest | src/AMCDns.c:458-484 | A refused argument check is `RejectedRequest`. IPv4 is `_dns_INET4_send`: the packet has the request's length and, with short labels, is exactly the header, an A question and an AAAA question with the full name. IPv6 is ENOSYS, and any other family is EFAULT, each with the errno `RETURN_ERR` sets. |
| Dns.LongDomainOverflows | src/AMCDns.c:460-468 | A domain of more than 728 bytes that passes the argument check needs more than the 1480-byte buffer, although the length check would have refused it. |
| Dns.ShortWithin | src/AMCDns.c:298-337 | In a name of at most 255 bytes no label reaches 256 characters. |
| Dns.WriteRequestChecked | src/AMCDns.c:458-484 | With the length check first: a domain over 255 bytes gives ENAMETOOLONG, and other refusals give EINVAL. An IPv4 request fits the buffer and is exactly header + A question + AAAA question. IPv6 gives ENOSYS and other families EFAULT. |

## Left out

- System calls are parameters that give their results, not calls: `epoll_create`, `epoll_ctl`, `epoll_wait`, `read`, `write`, `pipe`, `sigaction`, `close`, `sendto`, `clock_gettime` and `malloc`. They are never performed.
- Concurrency is not modelled. That covers the signal mutex (`_LOCKED` functions) and the asynchronous delivery of signals. `_signal_handler` is modelled only as the slot lookup, `SignalTable.Handler`.
- `AMCEpoll_Free`, `AMCEpoll_MakeNonBlock` and `AMCEpoll_MakeCloseOnExec` are only thin wrappers around `close`/`fcntl` and the registry's destructor, with no logic of their own.
- `utilLog.c`, the debug dumps (`_dump_data` apart from `_byte_to_char`) and the `Debug` functions of `utilTimeout.c` only produce output.
- `utilRbTree_StrError` is a table of messages; the codes it lists fix the `RB_ERR_*` values.
- The stubs `utilRbTree_Destory`, `utilRbTree_Clean`, `utilRbTree_SetObject` and `utilRbTree_DrainObject` do nothing beyond what `RbErrAsWrittenHidesFailure` states.
- The `cAssocArray` registry is not part of this model. It is a `map` from key to event whose insertions and removals take their results as parameters.
- The `utilRbTree_GetData`, `SetData`, `DelData` and `FindMinimum` calls of the timeout chain are not in the tree file shown, so they are modelled as an ordered `map` (`OrderedMap`).
- `epEventIntnl_AttachToTimeoutChain`, `epEventIntnl_DetachFromTimeoutChain`, `epCommon_EventCodeEpollToAmc` and `epCommon_InvokeCallback` are not part of this model. They are taken to be `utilTimeout_SetObject` / `utilTimeout_DelObject` on the event's address, `EvFd.AmcCodeFromEpoll`, and an ungated user call.
- EpEvent.Destroy: `epEventIntnl_InvokeUserFreeCallback` and `epEventIntnl_FreeEmptyEvent` are not part of this model. The first helper's body is not in the sources; the model assumes it notifies exactly the events whose mask has EP_EVENT_FREE; `Reactor.FreeNoticeOnlyOneShot` and `Reactor.FailedDetachKeepsEvent` rest on that. The second's result is a parameter of `Destroy`.
- User callbacks have no effect on the reactor in the model. A C callback may call `AMCEpoll_AddEvent`, `AMCEpoll_DelEvent` or `AMCEpoll_LoopExit`; `Reactor.PersistentStays` and `Reactor.EntryRegistry` hold only for callbacks that do not.
- `Base.chain`: `struct AMCEpoll` has no timeout chain. The chain that `epEventIntnl_AttachToTimeoutChain` and `epEventIntnl_DetachFromTimeoutChain` use is not part of this model, and `Base.chain` stands for it.
- Timeout.SetObjHeadTail: `_set_object` frees the bucket's second node (utilTimeout.c:219), so the record still stored under the old deadline keeps a `next` into freed memory, and the nodes from the third on are shared with the new bucket. Buckets are values here: the freed node and the sharing are not represented, the old bucket is kept as its old value, and a later head removal from it promotes the second entry where the C code would read freed memory.
- Freed records are not tracked. A destroyed event is not marked dead, so a use after free is not detected.
- The epoll wait buffer's size limit is not modelled: a wait gives any number of ready slots.
- The address and port in the `sockaddr` and the bytes `sendto` sends are not modelled; the model returns the packet it builds instead.
- RbTree.UtilRbTree.InsertNode, RbTree.UtilRbTree.DeleteNode: the pointer-level rewiring is not modelled. The tree is a value, and aliasing of nodes is not represented.
- RbTree.UtilRbTree.DeleteNode: red-black balance after a delete is not claimed. Only order, the key set, the count and a black root are stated; the deletion cases can reach `exit(1)` or a NULL sibling, which is modelled as a crash.
- RbTraverse.TraverseComplete: completeness is not claimed for the pruned modes IncGreater, IncGreaterEqual, DecLower and DecLowerEqual; the two counterexample lemmas show that they can miss keys.
- Dns.WriteName: the 63-byte label limit `DNS_DOMAIN_PART_LEN_MAX` is never checked in the code, and the model does not check it either. The written bytes are stated only for names whose labels are shorter than 256 characters.
- Dns.ComprVal: the `|` on `uint16_t` is written as a sum, which `Dns.OrIsForcedBits` shows is equal.
- Dns.Inet4Send, Dns.WriteRequest: these require the request to fit the 1480-byte buffer. The C code writes past the buffer when it does not; see Findings.
- EvSignal.SignalAdd, EvSignal.AddToBase, EvSignal.DetachFromBase and the other signal operations require the event's signal to lie in 1..64. `epEventSignal_Create` guarantees this, and the C code would index outside its table otherwise.
- Reactor.NewFileEvent, EvFd.Create, EvSignal.Create, EvTimeout.Create: these require the new record's address to be a non-zero 64-bit value.
- Timespec.KeyFromTimespec: `time_t` and `long` are unbounded integers, and only the 32-bit packing into the key is reduced modulo 2^32.
- Timeout: no corrected version of the bucket handling is given. The lemmas record the code as written.

## Findings

| source | as written | input that shows it | evidently intended | confidence | as-written member | corrected member |
|---|---|---|---|---|---|---|
| src/utilRbTree.c:136-139 | `_rb_err` returns a system error code positive (`return err` after `err = -err`) and sets errno to its negation | `utilRbTree_Init(NULL)`: `_rb_err(EINVAL)` returns 22 and sets errno to -22 | return `-err` with `errno = err`, as `ep_err` does | not executed | RbError.RbErrAsWritten | RbError.RbErr |
| src/AMCDns.c:460-468 | the domain length is measured only after the argument check has refused the call, so an accepted domain is never measured; `_dns_INET4_send` then writes two questions into a 1480-byte buffer | a 729-byte domain of one-letter labels (`a.a.a…`) with a positive descriptor and an IPv4 address needs 12 + 2 × 735 = 1482 bytes | refuse any domain over 255 bytes before building the request | not executed | Dns.LongDomainOverflows | Dns.WriteRequestChecked |

