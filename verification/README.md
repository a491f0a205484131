# A verified model of nyat

nyat is a terminal mail client. Its state is a stack of replicas of mailboxes: the server's
or the disk's mailbox, the worker's tables about it, the store of the interface, and the list
on the screen with its cursor. This project models the code that keeps these replicas
together, and a few self-contained algorithms beside it, and proves what each is for.

| file | what it models |
|---|---|
| `WorkerProtocol.dfy` | the two queues between interface and worker, with callbacks by message id |
| `UidStore.dfy`, `MaildirMove.dfy`, `StorePosts.dfy`, `MoveRuns.dfy`, `MoveSuccess.dfy` | uids of maildir keys, copying and removing files, what the store posts to move messages, all runs of moves over them, and moves, copies and deletions that nothing disturbs |
| `StableSorting.dfy`, `MultiKeySort.dfy`, `SearchOrder.dfy` | sorting by several criteria; putting search results in order |
| `ImapSequence.dfy` | the map from IMAP sequence numbers to uids under EXPUNGE |
| `StoreContents.dfy`, `StoreCursor.dfy`, `StoreFetch.dfy`, `MessageStore.dfy` | the message store and the message list: contents, cursor and marks, pending fetches, and the objects themselves |
| `Text.dfy`, `Wrapping.dfy` | wrapping and quoting text |
| `TabOrder.dfy`, `Tabs.dfy`, `TabIdentity.dfy` | tabs, their selection history and pinning |
| `MessageFormat.dfy`, `PrintfReading.dfy`, `FormatValues.dfy` | compiling the message-list format for Go's printf, what printf makes of it, and which values of the message it shows |
| `Bindings.dfy` | key bindings and the decision on a key |
| `MimeParts.dfy` | part numbers of MIME messages |
| `Collections.dfy` | options and a few facts about sequences |

The objects whose methods update fields are classes; each method is proved equal to a
function of the old state, and the lemmas are about that function and about runs of it. A
run is a list of events; `Exec` gives the state after it, or none if some event could not
happen, and steps of different threads interleave freely. Where a run cuts a method into
steps, the steps are proved to come to what the method does
(`MoveRuns.CopyActionIsCopyAll`, `MoveRuns.DeleteActionIsDeleteAll`).

Some things one would expect are not true of the code. Each is stated with its exact
condition, and with an instance in which it fails:

- deleting messages all behind the cursor can move the selection
  (`StoreCursor.DeletionBehindCursor`; `StoreCursor.SelectionJumps`);
- the index of the search result follows the cursor only forwards by one: on a step back
  the result three before it is looked at (`StoreCursor.FollowsRightlyIff`;
  `StoreCursor.GoingBackLosesResult`);
- wrapText is not idempotent, and does not leave quoted text alone, on lines that end in a
  carriage return (`Wrapping.WrapIdempotentIff`, `Wrapping.WrapLeavesQuotedIff`;
  `Wrapping.CarriageReturnsMatter`);
- unpinning a tab restores what the other pinned tabs remember only if none of them
  remembered the neighbouring place (`TabIdentity.PinThenUnpin`;
  `TabIdentity.NeighbouringSlotIsLost`);
- a `%v` for a sender without a name leaves a stray percent sign
  (`PrintfReading.ReadAsWritten`; `PrintfReading.NamelessIsMisread`), a `%Z` with a width
  gets a digit too many, and a verb without meaning loses its prefix
  (`FormatValues.PrintsAsAsked`; `PrintfReading.SizedIsMisprinted`);
- deleting with a list that names a foreign uid loses the last listed message
  (`StoreContents.PresizedCopy`; `StoreContents.ForeignUidCostsOne`);
- after a wrap of the 32-bit uid counter a uid can change the key it names
  (`UidStore.InsertKeepsNames`; `UidStore.WrapRenames`);
- the IMAP worker's own deletions are handled past the channel its updates wait in; the
  sequence map survives one overtaking an update exactly if both are of the same number
  (`ImapSequence.OvertakingIff`; `ImapSequence.OvertakingReportsTheWrongOne`,
  `ImapSequence.OvertakingPanics`);
- a FETCH that overtakes updates is filed rightly only if all of them are of later messages
  (`ImapSequence.FetchKeepsIff`);
- the sequence map is wrong after a switch to another folder unless it was too short for
  it or happens to agree with it, and no update was waiting (`ImapSequence.SwitchKeepsIff`;
  `ImapSequence.FolderSwitchKeepsStaleEntries`);
- the IMAP worker indexes out of range when it is told of a message that arrived after the
  last listing (`ImapSequence.PanicIff`);
- replacing a pinned tab other than the last of them puts an unpinned one among them
  (`TabIdentity.ReplaceKeepsPinsRightIff`);
- the two bounded queues can leave both threads waiting to send
  (`WorkerProtocol.DeadlockIff`; `WorkerProtocol.DeadlockReachable`).

## Model

| member | source | states |
|---|---|---|
| WorkerProtocol.Worker.PostAction | worker/types/worker.go:39-54 | The action joins the queue under a fresh id, and its callback, if any, is the one entry of the table that changes |
| WorkerProtocol.Worker.ProcessMessage | worker/types/worker.go:73-89 | Exactly the callback of the action a message answers is called, with that message, and it leaves the table exactly at Done |
| WorkerProtocol.Worker.ProcessAction | worker/types/worker.go:91-107 | The same for the worker's side of the table |
| WorkerProtocol.TakeDelivers | worker/types/worker.go:73-89 | In every reachable state the table leads the next message to the callback its action was posted with |
| WorkerProtocol.Delivery | worker/types/worker.go:39-107 | For every interleaving, with posting cut after the id is drawn and again before the callback is registered, and ids drawn by any number of worker threads sent in any order: the calls made are those of the responses taken so far, each to its own action's callback, in posted order; the queue holds the rest; nothing follows a Done |
| WorkerProtocol.PerAction | worker/types/worker.go:73-89 | The calls of one action's callback are that action's responses in order and no others |
| WorkerProtocol.DrainedIsComplete | worker/types/worker.go:56-89 | Once the queue is empty every callback has seen all responses to its action: none is lost |
| WorkerProtocol.TableTracksOpenActions | worker/types/worker.go:45-51 | Between steps a callback is in the table if and only if its action has one and has not been answered with Done |
| WorkerProtocol.DeadlockIff | worker/types/worker.go:39-71 | With the worker inside a send neither side has a step if and only if both queues are full and the interface thread waits to send too |
| WorkerProtocol.DeadlockReachable | worker/types/worker.go:24-32 | A run comes to that |
| UidStore.Store.GetOrInsert | lib/uidstore/uidstore.go:33-43 | The key's uid, a new one drawn from the shared counter only if it has none, and the whole new table |
| UidStore.Store.RemoveUid | lib/uidstore/uidstore.go:54-62 | Both directions of the entry go, and nothing else |
| UidStore.InsertKeepsNames | lib/uidstore/uidstore.go:33-43 | All uids keep naming their keys, and the two maps stay inverse, if and only if the number handed out is not in use |
| UidStore.WrapRenames | lib/uidstore/uidstore.go:33-43 | An instance: a counter that has come round gives the first uid a second key |
| UidStore.RemoveKeepsInverse | lib/uidstore/uidstore.go:54-62 | Removing keeps the maps inverse, drops the uid, and renames nothing |
| MaildirMove.Container.CopyAll | worker/maildir/container.go:138-156 | The single copies up to the first that fails; success if and only if every copy works; then each message lies in the destination under a name of its own; whatever fails, no file disappears |
| MaildirMove.Container.DeleteAll | worker/maildir/container.go:123-136 | The single removals up to the first that fails; what is reported removed is a prefix of what was asked, the whole exactly without failure, and exactly those files of that directory are gone |
| MoveRuns.CopiesTakeOver | lib/msgstore.go:316-343 | When a copy is Done every mail is still held by a file that nothing has released, its copy if need be, unless the user has deleted that too |
| MoveRuns.RunKeeps | worker/maildir/worker.go:57-71 | Over every run of moves, copies, deletions, folders created and opened, scans and failures at any point: every file the worker is or will be told to delete is one a finished copy has released or the user has named |
| MoveRuns.Conservation | lib/msgstore.go:316-343 | Every mail present at any moment of any run is in some directory at its end, unless the user deleted a file of it when no other was left but such as were deleted or moved away |
| MoveRuns.CondemnedByUser | lib/msgstore.go:289-298 | That exception needs a file of the mail named by the user's own deletion |
| MoveRuns.SourceOrDestination | worker/maildir/worker.go:537-553 | A file once in a directory is still there, or the user named that very file, or a finished move has copied it and the copy is in the destination, unless moved on or itself named |
| MoveRuns.FileStays | worker/maildir/worker.go:450-468 | A file disappears only if a finished copy has released it or the user has named it |
| MoveSuccess.MoveSucceeds | lib/msgstore.go:316-343 | A move nothing disturbs, of different messages that are there, with no file operation failing: the destination, existing or not, is created first if so asked, then the copies and the deletion follow, and it ends with nothing left to do, each file gone from its directory and a copy of it in the destination |
| MoveSuccess.PostedActions | lib/msgstore.go:316-343 | Whatever else is queued, a move or copy that is asked to create its destination queues the creation before the copy, and only a move's copy has a deletion waiting for its reply |
| MoveSuccess.CopySucceedsAlone | lib/msgstore.go:300-314 | The same of a copy: every message has its copy in the destination, created first if so asked, and no directory has lost a file |
| MoveSuccess.DeleteSucceedsAlone | lib/msgstore.go:289-298 | A deletion nothing disturbs removes exactly these files of the folder |
| MoveRuns.CopyActionIsCopyAll | worker/maildir/worker.go:537-553 | The worker's steps of a copy action, whatever each comes to, leave the files CopyAll leaves and answer with its result |
| MoveRuns.DeleteActionIsDeleteAll | worker/maildir/worker.go:450-468 | The same of a deletion and DeleteAll |
| StableSorting.StableSortCharacterised | worker/lib/sort.go:145-153 | A list is the stable sort if and only if it is sorted and each class of equals is in its old order |
| StableSorting.SortTwice | worker/lib/sort.go:15-50 | Sorting stably by one order and then by another is one stable sort by the second order refined by the first |
| StableSorting.SortDecorated | worker/lib/sort.go:118-133 | Sorting values paired with their keys is sorting the values by their keys |
| MultiKeySort.CriterionOrder | worker/lib/sort.go:64-153 | Every comparator, reversed or not, is a strict weak order |
| MultiKeySort.SortByCriterion | worker/lib/sort.go:21-49 | One pass leaves the same messages in the order of its criterion, or the opposite one, and those it does not tell apart as they were |
| MultiKeySort.PassesAreOneSort | worker/lib/sort.go:12-62 | The passes from the last criterion to the first give the one stable sort by the lexicographic order of all criteria, and nothing else meets that description |
| MultiKeySort.ReversedUidAt | worker/lib/sort.go:51-61 | The k-th uid returned is that of the k-th message from the end |
| MultiKeySort.OrderMeans | worker/lib/sort.go:12-62 | One message may stand before another if and only if by the first criterion its date, arrival or size is no later or larger, it has the flag if the other has, its first name or address is no later in the dictionary with missing ones last, or its subject without prefixes is no later; turned around if reversed; and by the next criterion if they tie |
| MultiKeySort.Sort | worker/lib/sort.go:12-62 | The same messages end up in that order, those that tie under all criteria as they were, and the uids are theirs from last to first; it faults if and only if a criterion reads the envelope of a message that has none |
| SearchOrder.SortBy | lib/sort/sort.go:62-72 | The result is a permutation ascending in the position in the other list, with absent uids read as position zero |
| SearchOrder.DeterminedIff | lib/sort/sort.go:62-72 | The unstable sort leaves just one possible result if and only if at most one sorted uid reads as position zero |
| SearchOrder.OutcomeIsFilter | lib/sort/sort.go:62-72 | For duplicate-free uids contained in a duplicate-free list every possible result is that list restricted to them |
| SearchOrder.SearchResults | lib/msgstore.go:524-534 | Search results come in an order the sort may give, which is the store's own order for distinct uids of the store |
| ImapSequence.ImapWorker.HandleDeleteMessages | worker/imap/flags.go:10-45 | The map shrinks by the numbers one after the other, the uids at those places are reported unless the command fails, and an index out of range stops it |
| ImapSequence.ImapWorker.HandleExpungeUpdate | worker/imap/worker.go:236-243 | One entry goes and its uid is reported |
| ImapSequence.ImapWorker.HandleFetchDirectoryContents | worker/imap/open.go:27-73 | The uids are turned around in place if the server sorted them, and the map is made anew only if it is too short |
| ImapSequence.MapFollowsServer | worker/imap/flags.go:21-44 | Over every run of lagging updates, the worker's own deletions, failing ones among them, fetches, listings and changes of folder, none of which overtakes an update it must not: every entry is unknown or the uid at its place; what was told of each dropped message is its uid, unknown, or nothing; and the uids reported are all those dropped if and only if none was unknown and none swallowed by a failing command |
| ImapSequence.BatchKeeps | worker/imap/flags.go:24-31 | The deletion loop goes out of range if and only if a number names a message beyond the map; otherwise it reports the uids dropped or zeros and leaves the map agreeing |
| ImapSequence.FetchKeepsIff | worker/imap/fetch.go:158-200 | A FETCH response handled while updates wait keeps the map right if and only if all of them are of later messages |
| ImapSequence.OvertakingIff | worker/imap/flags.go:21-44 | On a loaded map the worker's own deletion of one message and the update it overtook, both handled, leave the server's mailbox if and only if the numbers are the same; and the worker goes out of range if and only if the update was of the last message |
| ImapSequence.DeleteKeepsIff | worker/imap/flags.go:21-44 | Whatever is loaded, the deletion keeps map, numbers and reports in step if and only if the numbers are the same |
| ImapSequence.OvertakingReportsTheWrongOne | worker/imap/worker.go:236-243 | An instance: a message that exists is reported deleted |
| ImapSequence.OvertakingPanics | worker/imap/worker.go:236-243 | An instance: the worker goes out of range though every arrival was listed |
| ImapSequence.BatchReportsDropped | worker/imap/flags.go:24-31 | For a batch of valid numbers the loop reports the uids section 7.4.1 of RFC 3501 removes, one by one, and leaves the map agreeing with the mailbox |
| ImapSequence.PanicIff | worker/imap/worker.go:236-243 | After every run in order, handling an update, fetching or deleting goes out of range if and only if a number names one of the messages that arrived since the last listing |
| ImapSequence.ListedNeverPanics | worker/imap/open.go:64-66 | A run in order that lists the folder, with no update waiting, after each arrival before it handles, fetches or deletes anything never goes out of range |
| ImapSequence.SamePositionIff | worker/imap/fetch.go:158-200 | While numbers are pending a FETCH number means the same message on both sides if and only if all of them are greater |
| ImapSequence.SwitchKeepsIff | worker/imap/open.go:64-66 | Opening and listing another folder leaves the map right if and only if no update was waiting and it was too short for the folder or agrees with it |
| ImapSequence.SwitchedReport | worker/imap/worker.go:236-243 | Otherwise the next EXPUNGE is reported under the uid the previous folder had at that place, or as unknown, which is right if and only if the entry is the new uid |
| ImapSequence.FolderSwitchKeepsStaleEntries | worker/imap/open.go:64-66 | An instance: a folder of three messages followed by one of two |
| StoreContents.PresizedCopy | lib/msgstore.go:229-260 | No slot of the new list stays unfilled; it is all the kept uids if and only if the deleted list has no duplicates and names only listed uids |
| StoreContents.ForeignUidCostsOne | lib/msgstore.go:229-260 | An instance: deleting a uid that is not listed |
| StoreContents.UpdateKeeps | lib/msgstore.go:171-270 | Update keeps the list duplicate-free and covered by entries about their own uid; after deletions the list is a prefix of the order-preserving filter |
| StoreContents.RunKeeps | lib/msgstore.go:171-270 | The same over every run of messages with duplicate-free listings |
| StoreContents.NothingForgotten | lib/msgstore.go:153-169 | No message of the worker makes the store forget an envelope, a structure or a size of a message still there |
| StoreContents.LatestWins | lib/msgstore.go:153-169 | However messages come, a message that stays listed has the flags and labels it was last reported with, and its envelope, structure, size and date as last reported by a message that had a value for it; one that nothing is said about is as it was |
| StoreContents.Forgets | lib/msgstore.go:177-260 | A deletion takes exactly the reported uids out of the entries, those being deleted and the search results; a listing forgets what it does not list |
| StoreContents.ResultsKeepOrder | lib/msgstore.go:252-258 | The search results left by a deletion keep their order |
| StoreContents.DeletionKeepsOrder | lib/msgstore.go:239-250 | Survivors of a deletion keep their order |
| StoreCursor.RepeatEffect | lib/msgstore.go:466-504 | After one or more cursor movements in visual mode exactly the interval between anchor and cursor is marked, whatever was marked before |
| StoreCursor.VisualMarks | lib/msgstore.go:379-504 | Over every run of toggling, moving, selecting by index, marking, unmarking, arrivals and deletions the marks of visual mode are exactly that interval, whatever path the cursor took |
| StoreCursor.MarkedIff | lib/msgstore.go:466-490 | Uid by uid: in visual mode a uid is marked if and only if it stands from the anchor to the cursor, on either side |
| StoreCursor.OneMark | lib/msgstore.go:391-420 | Outside visual mode marking, unmarking and toggling change the mark of one message, and toggling twice none; in visual mode only unmarking does anything, and it ends the mode without marks |
| StoreCursor.ToggledMarks | lib/msgstore.go:434-446 | Visual mode begins with the selected message as anchor and only mark, and ends keeping the marks |
| StoreCursor.ResultIndexMoves | lib/msgstore.go:492-514 | After a movement by delta the result index has moved by delta if and only if the cursor is on result number 2 * delta - 1 from it |
| StoreCursor.FollowsRightlyIff | lib/msgstore.go:492-514 | For every state the index follows the cursor onto the result delta further, and only then, if and only if delta is 1 |
| StoreCursor.GoingBackLosesResult | lib/msgstore.go:520-522 | An instance: a step back onto the newer of two results leaves the index on the older |
| StoreCursor.AnchorDeleted | lib/msgstore.go:466-490 | Deleting the anchor leaves visual mode with nothing marked |
| StoreCursor.SelectKeeps | lib/msgstore.go:379-388 | Selecting by index puts the cursor on a message if and only if the index is not past the end, and faults if and only if it is and visual mode is on |
| StoreCursor.SelectIs | lib/msgstore.go:379-388 | The message selected is that at the index counted from the end, the first one for a negative index, and the marks follow |
| StoreCursor.ListingKeepsSelectionIff | widgets/msglist.go:269-294 | After any listing the selected message stays selected if and only if the new list has it where the cursor lands |
| StoreCursor.ListingKeepsIndexIff | widgets/msglist.go:269-294 | For a list that has not become shorter: if and only if the message is at its old index |
| StoreCursor.ArrivalKeepsSelection | widgets/msglist.go:269-294 | Messages appended to the list leave the same message selected |
| StoreCursor.DeletionKeepsSelectionIff | widgets/msglist.go:269-294 | A surviving selected message stays selected if and only if the steps back land nearer the end by the number of messages deleted behind it |
| StoreCursor.DeletionBehindCursor | widgets/msglist.go:269-294 | If all k deleted messages of n lie behind the cursor the selection stays if and only if the cursor was at most n - k or exactly k |
| StoreCursor.SelectionJumps | lib/msgstore.go:492-504 | An instance in which the selection moves |
| StoreFetch.CollectNew | lib/msgstore.go:108-124 | A call requests, once each, exactly the uids wanted and not yet pending |
| StoreFetch.RunKeeps | lib/msgstore.go:108-137 | Over every run: a uid with a callback is pending and holds exactly one, no callback fires twice, and requests and arrivals of each uid balance |
| StoreFetch.CallbackFate | lib/msgstore.go:108-137 | Over every run, for every callback and uid: given for a uid not awaited, it waits, has run exactly once with the message, or was dropped, as the first answer or error after it decides; no other callback waits for the uid or runs with its message |
| StoreFetch.HeaderCallbackRuns | lib/msgstore.go:208-216 | Over every run of header requests and answers: a callback given for a uid not awaited is kept and has run exactly once for each awaited answer since; no other runs |
| StoreFetch.CollectKeeps | lib/msgstore.go:116-122 | The callback list of a uid is never longer than one: the appending branch is not reached |
| StoreFetch.FailedStaysPending | lib/msgstore.go:128-134 | After a failed fetch a uid is never requested again until its message comes |
| MessageStore.Store.FetchFull | lib/msgstore.go:108-137 | The pending set, the callbacks and the request posted, as the pure account says |
| MessageStore.Store.FetchHeaders | lib/msgstore.go:84-106 | The pending set, the callbacks and the request posted for headers |
| MessageStore.Store.Update | lib/msgstore.go:171-270 | For every message of the worker the new contents, list, marks, awaited bodies and headers with their callbacks, new-mail notices, the listing asked for on a change of the folder, and the two flags that follow |
| MessageStore.Store.CopyKept | lib/msgstore.go:239-250 | The pre-sized slice ends up with the kept uids cut to size or padded with zeros |
| MessageStore.Store.ToggleVisualMark | lib/msgstore.go:434-446 | Visual mode starts at the selected message alone, or ends keeping the marks |
| MessageStore.Store.Select | lib/msgstore.go:379-388 | Cursor and marks after selecting by index, or the fault |
| MessageStore.Store.Unmark | lib/msgstore.go:400-407 | In visual mode the mode is left with nothing marked; otherwise the one mark goes |
| MessageStore.Store.NextPrev | lib/msgstore.go:492-514 | Cursor, marks, and the index of the search result that follows the cursor |
| MessageStore.Store.VisualStartIdx | lib/msgstore.go:606-613 | The first index of the anchor, or -1 if and only if it is not listed |
| MessageStore.Store.Copy | lib/msgstore.go:300-314 | Directory and copy are posted with the caller's callback and none that deletes |
| MessageStore.Store.Move | lib/msgstore.go:316-343 | The uids are marked deleted, the copy is posted with a callback that knows them, and no deletion, and the update handlers run: the posts the runs of moves start from |
| MessageStore.Store.OnCopyReply | lib/msgstore.go:330-340 | What the callback posts on a reply is what the runs of moves post on it; the caller is told at once if and only if it is an error |
| MessageStore.List.StoreUpdate | widgets/msglist.go:269-294 | The cursor moves once for every message gained or lost, and the count follows unless the list is empty |
| MessageStore.List.OnMessage | widgets/msglist.go:269-294 | A listing or a deletion takes store and list together to the state the cursor lemmas are about |
| Wrapping.WrapLine | lib/templates/template.go:76-97 | The text built by the loop is the rendering of the greedy breaking |
| Wrapping.LineLenIsBytes | lib/templates/template.go:83-95 | The length the loop keeps track of is the byte length of the line |
| Wrapping.WrapOptimal | lib/templates/template.go:76-97 | For every width the lines hold the words in order, each fits or is one word, and no other such breaking has fewer lines |
| Wrapping.GreedyStaysAhead | lib/templates/template.go:76-97 | Against any other breaking the greedy one has fewer lines, or as many and a last line no longer |
| Wrapping.WrapKeepsWords | lib/templates/template.go:76-97 | The wrapped text has the words of the text |
| Wrapping.WrapText | lib/templates/template.go:99-118 | Line by line: empty and quoted lines are kept, others wrapped, after CR LF and trailing newlines are dealt with |
| Wrapping.WrappedTextFits | lib/templates/template.go:99-118 | Every line of the wrapped text is a line kept whole, fits the width, or is one word |
| Wrapping.PiecesFit | lib/templates/template.go:76-118 | A line not kept whole is broken into lines that fit or are one word, as few as any breaking of its words |
| Wrapping.Quote | lib/templates/template.go:121-137 | Every line gets its marker, empty ones without a space |
| Wrapping.WrapIdempotentIff | lib/templates/template.go:99-118 | Wrapping twice is wrapping once if and only if no line kept whole ends in a carriage return |
| Wrapping.WrapLeavesQuotedIff | lib/templates/template.go:99-137 | wrapText(quote(t), w) is quote(t), at every width, if and only if no line of t ends in a carriage return |
| Wrapping.WithoutCarriageReturns | lib/templates/template.go:99-137 | Both laws for all texts without carriage returns |
| Wrapping.CarriageReturnsMatter | lib/templates/template.go:99-137 | Instances in which each law fails, at every width |
| Wrapping.UnquoteUndoesQuote | lib/templates/template.go:121-137 | Taking the markers off gives the text back up to line ends and trailing newlines |
| Tabs.Window.Remove | lib/ui/tab.go:73-101 | The first tab with that content goes; order, selection and history afterwards |
| Tabs.Window.RemoveHistory | lib/ui/tab.go:264-280 | The history is filtered, shifted and collapsed |
| Tabs.Window.Replace | lib/ui/tab.go:103-119 | The first tab with that content gives way to a new one, which is selected |
| Tabs.Window.MoveTab | lib/ui/tab.go:147-186 | The order, the selection and every history index after a move |
| Tabs.Window.PinTab | lib/ui/tab.go:188-211 | The slots, the order, the selection and the history after pinning |
| Tabs.Window.UnpinTab | lib/ui/tab.go:213-232 | The same after unpinning |
| TabIdentity.MoveKeepsIdentity | lib/ui/tab.go:147-186 | A move is a permutation; the moved tab is where asked, the others keep their order, and selection and history name the same tabs |
| TabIdentity.CloseOther | lib/ui/tab.go:73-101 | Closing another tab keeps the selected one; the history, as tabs, is filtered and its adjacent repeats collapsed |
| TabIdentity.CollapseIs | lib/ui/tab.go:264-280 | Collapsing leaves no repeat beside its equal and nothing else changed: dropping one of two equal neighbours first makes no difference |
| TabIdentity.SelectingRemembers | lib/ui/tab.go:121-136 | Selecting takes an index past the end for the last tab and remembers the tab left |
| TabIdentity.CloseSelected | lib/ui/tab.go:73-101 | Closing the selected tab selects the one visited last before it; the index is in range if and only if there is one or the closed tab was not the last in order; in the history the tab gone back to gives way to the one that took the closed tab's place, if that is another |
| TabIdentity.ReplaceIdentity | lib/ui/tab.go:103-119 | The new tab is selected, stands where the old one stood, in the history too, and the tab selected before enters the history if it is another |
| TabIdentity.ReplaceKeepsPinsRightIff | lib/ui/tab.go:103-119 | The pinned tabs stay in front if and only if none but the last of them is replaced |
| TabIdentity.PinKeepsPinsRight | lib/ui/tab.go:188-211 | Pinning keeps the pinned tabs in front and slots non-negative |
| TabIdentity.UnpinKeepsPinsRight | lib/ui/tab.go:213-232 | So does unpinning |
| TabIdentity.MoveKeepsPinsRightIff | lib/ui/tab.go:147-186 | So does a move if and only if the tab stays on its side |
| TabIdentity.PinThenUnpin | lib/ui/tab.go:188-232 | Pinning and unpinning restores order, pins, selection and history; the other tabs' slots if and only if none was the next one |
| TabIdentity.NeighbouringSlotIsLost | lib/ui/tab.go:201-205 | An instance in which another tab's slot is not restored |
| TabIdentity.RunKeepsNames | lib/ui/tab.go:50-232 | Over every run of adding, closing, replacing, selecting, moving anywhere, pinning and unpinning, tabs stay different, history entries name tabs, and the selection is at most one past the last |
| TabIdentity.StepKeepsPinsRightIff | lib/ui/tab.go:50-232 | A step puts a pinned tab behind others if and only if it moves a tab across their end or replaces one of them other than the last |
| TabIdentity.RunKeepsPinsRight | lib/ui/tab.go:50-232 | Over every run without such a move the pinned tabs stay in front and slots non-negative |
| MessageFormat.FindVerb | lib/format/format.go:71-95 | Where the verb of a directive is, or that the format ends before it, or that the source indexes past the end |
| MessageFormat.ParseMessageFormat | lib/format/format.go:50-375 | The output string and the arguments are those of the pieces of the format, left to right, and the first failure decides |
| PrintfReading.FlagsAreHarmless | lib/format/format.go:71-95 | Taking zeros for flags, as printf does, ends a directive's prefix where the source ends it |
| PrintfReading.VerbsAreProper | lib/format/format.go:98-366 | Every verb emits an operand of the kind of its argument, and nothing if and only if it is %v and the sender has no name |
| PrintfReading.ReadAsWritten | lib/format/format.go:50-375 | printf reads the output as the source format says, directive by directive, if and only if no %v meets a nameless sender |
| PrintfReading.NamelessIsMisread | lib/format/format.go:284-290 | An instance: %v alone for a sender without a name |
| PrintfReading.OperandsMatch | lib/format/format.go:50-375 | Otherwise exactly as many operands are taken as there are arguments, the n-th of the kind of the n-th argument |
| PrintfReading.RendersAsWritten | lib/format/format.go:50-375 | However operands are printed, printing the output gives the meaning of the source format if and only if no %Z is sized and no verb without meaning has a prefix |
| PrintfReading.SizedIsMisprinted | lib/format/format.go:326-366 | Instances: a %Z and a verb without meaning, each with a width |
| FormatValues.VerbBehindPrefix | lib/format/format.go:71-95 | The verb stands behind the longest text that is at most one flag, digits, and perhaps a point and digits; without one the scan fails, as an error if at most a flag is left |
| FormatValues.VerbMeans | lib/format/format.go:98-366 | Each verb fails if and only if the message has not what it needs, and otherwise is an escape, itself, nothing for a nameless %v, or an operand showing one value of the message, said of the message itself: subject, id, first sender's address, domain or first name, recipients as a comma list, flag letters by what each says, date or question marks, and so on |
| FormatValues.CompilesIff | lib/format/format.go:50-375 | A format compiles if and only if the account's address parses, every directive is complete, and the message has what its verbs need |
| FormatValues.ArgumentsAreValues | lib/format/format.go:50-375 | The arguments are, in order, the values the directives ask for, one for each that takes an operand |
| FormatValues.PrintsAsAsked | lib/format/format.go:50-375 | However operands are printed, printing the compiled format gives the source format with each directive replaced by the value it asks for, if and only if no %Z has a width or precision and no verb without meaning a prefix; a %v is taken to meet a sender with a name |
| Bindings.KeyBindings.GetBinding | config/bindings.go:62-93 | The first binding equal to the input; otherwise incomplete if and only if one properly extends it |
| Bindings.CharactersDiffer | config/bindings.go:72-80 | Of two bindings of one character each the key pressed finds the one with its character, and none with another |
| Bindings.NamedKeysIgnoreCharacters | config/bindings.go:72-80 | A key that is not a character is told from others by its code alone |
| Bindings.MergeBindings | config/bindings.go:47-55 | All bindings in order; ex key and globals of the first group |
| Bindings.Keyboard.Event | widgets/nyat.go:219-285 | The two searches decide as one search in the merged list when globals are let in; pending keys are kept if and only if the search is incomplete |
| Bindings.LookupInBoth | widgets/nyat.go:236-257 | The answer for two lists one after the other from the answers for each |
| Bindings.ReachableIff | config/bindings.go:62-93 | Typing a binding's keys fires it and nothing before it if and only if no binding is a beginning of them and none earlier equals them |
| MimeParts.FindsFirstPlaintext | lib/structure_helpers.go:9-23 | The path found is the first in preorder to a plain text through multiparts, none if and only if there is none, and PartAtIndex of it is that part |
| MimeParts.ParseEntityStructure | worker/lib/parse.go:66-103 | The structure of an entity with its parameters, with an error in any header, part or boundary failing the whole |
| MimeParts.FetchEntityPart | worker/lib/parse.go:23-46 | The part an index leads to, or the reader's error |
| MimeParts.NamesWhatIsFetched | models/models.go:92-122 | PartAtIndex on the structure names what fetching reads, at every index, but for the extra 1 accepted below a part without parts |
| MimeParts.StructureDescribes | worker/lib/parse.go:57-103 | Wherever an index leads, the structure there has the entity's types as its content type is split, its parameters, description, encoding and disposition, and as many parts |
| MimeParts.MajorAndMinor | worker/lib/parse.go:57-64 | Two names with one slash between them are the two types of the structure |
| MimeParts.PlaintextIsFetched | lib/structure_helpers.go:9-23 | The plain text found is fetched by its path as an entity of content type text/plain, the first in preorder; nothing is found if and only if there is none |

## Left out

- Drawing, mouse, terminal, composer, SMTP, notmuch, OAuth, PGP and sockets: no hard invariants, or foreign code.
- Network, files and clocks: mailboxes are maps and sequences, and each copy, removal, EXPUNGE or fetch may fail as an event or a parameter says.
- Reading a part's body, and the reader's own parsing of MIME: an entity is given as the tree its reader yields, with a flag for a reader that breaks off.
- Dates, address parsing and lower-casing: parameters, or values already in the library's form. Strings are taken to be valid UTF-8 except in formats, which are bytes.
- MultiKeySort.Sort: the library's sort.SliceStable is represented by a method with its contract, and so is the unstable sort.Slice of SearchOrder.SortBy.
- WorkerProtocol.Delivery: says nothing of liveness; a full queue simply cannot be posted to (WorkerProtocol.DeadlockIff). Actions the worker posts from its own thread are outside the single interface thread the protocol assumes.
- MoveRuns.Conservation: assumes fewer than 2^32 uids have been drawn, since later uids may be reused (UidStore.InsertKeepsNames says when that matters). Removing a directory, and programs that delete files, are not events of its runs.
- ImapSequence.MapFollowsServer: for runs in which nothing overtakes an update it must not; the lemmas ending in Iff say of each such step when it does harm. A deletion of several messages that overtakes several updates has no condition of its own. Flag updates, which share the channel, are only the method HandleMessageUpdate.
- StoreCursor.VisualMarks: filtering is off, and listings only append or follow deletions, since a reordered list of the same length leaves the marks as they were; switching filters on and off, jumping to a search result, and scrolling are not modelled.
- StoreFetch.CallbackFate: callbacks do not call back into the store.
- MessageStore.Store: the deletions and flags of messages are values in maps; sharing of one message record between maps is not modelled.
- Tabs.Window: a tab is a value with an identity in a sequence, not a shared pointer.
- FormatValues.PrintsAsAsked: rests on PrintfReading.RendersAsWritten and leaves out what that does.
- PrintfReading.RendersAsWritten: printf's refusal of widths over a million is not modelled, and reading stops at widths taken from the arguments. Where a nameless %v leaves a stray percent sign nothing is said of the rendering.
- Bindings.Keyboard.Event: stops where the bound strokes would be fed back in, because a binding may expand to itself; dialogs and focused widgets take keys before it.
- MimeParts.FindsFirstPlaintext: FindFirstNonMultipart, which returns the parent of the part it finds, is not modelled.
- Parsing of sort criteria, key names, configuration and commands: easy members.
