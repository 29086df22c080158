# Client state of an iRODS installation: a Dafny model

The web client (`clients/web`) and the two desktop clients (`nt/iExp`, `nt/inQ`) of iRODS keep
copies of what the catalog holds: grids of metadata, navigation histories, trees, lists, dialogs,
and blocks of bytes handed to other programs. This project models the code that edits those copies
and proves how they relate to something simpler: the batch a grid sends reproduces the grid, the
ring of visits is an unbounded history seen through a window, an encoded state is decoded to itself,
the explorer's mirrors show the same children, a guarded move loses nothing.

Objects with handlers are classes whose methods change their fields. What a method leaves behind is
stated as a function of the state before, and the theorems about runs are stated on those functions.
Calls to the catalog, the browser and the registry are small steps that either have their stated
effect or have none; which of them fail is fixed beforehand by the number of the call, so that a loop
cannot claim a failure that did not happen.

What the functions themselves compute is said again in elementary terms, without naming them, by the
lemmas whose names end in `Exactly`: which rows a batch is made of, which part of a text is read, which
entry of a list goes, where an item ends.

| file | component |
|---|---|
| `MetadataGrid.dfy` | the metadata grid of the web client and its Save batch |
| `TextCodec.dfy`, `HistoryManager.dfy`, `HistoryTexts.dfy`, `HistoryLaws.dfy` | the browser history manager: `escape` and `unescape` (Annex B.2 of ECMA-262), location text, storage field, poll; how any text is read, and what it promises for its own |
| `BrowserNavigation.dfy` | the re-entrant chain of history, grid and tree |
| `VisitHistory.dfy` | the ten-slot Back and Forward ring |
| `Explorer.dfy`, `ExplorerEffects.dfy`, `ExplorerLaws.dfy`, `ListPane.dfy`, `TreeControl.dfy` | the explorer: tree items, cached children, document lists, what each operation does to them and how they agree; rows of the right pane, recursive node deletion |
| `GuardedMove.dfy` | moving buffered items behind the descendant guard |
| `PagedQuery.dfy` | the paging loops of searches and listings |
| `MetadataDialog.dfy`, `QueryBuilder.dfy`, `LoginProfiles.dfy` | dialogs that mirror a store |
| `DragOut.dfy` | the two-pass file list and the drag list records |
| `Replies.dfy` | loops of calls that stop at the first one that fails |
| `Sequences.dfy`, `Strings.dfy` | shared facts about sequences; trimming |

## What the proofs found

Several properties one would expect of the code hold only under a condition. The code is modelled as
it is, and the condition is proved exact wherever the model states it as an equivalence.

- Save refuses a grid in which a removed row has the name of a surviving one, so an attribute cannot
  be replaced by removing its row and adding another of that name (`ReplacementRefused`). It accepts
  exactly the grids in which no new, edited or removed row has the name of another row that is not
  removed (`AcceptedExactly`). A multi-valued attribute that is left alone does not stand in the way
  (`LoadedAccepted`, `AddedRowSaved`); where untouched rows have distinct names, acceptance is
  "surviving names distinct, and no removed name survives" (`DistinctNamesAccepted`).
- A click on a tree node goes to its path exactly if the node is neither selected nor the path the
  history module holds, or the path is shown already (`ClickExactly`); after a visit and its poll every
  other node can be clicked (`ClickAfterVisit`).
- After a navigation, pressing Back before the next poll leaves the history module at another path
  than grid and tree (`BackBeforePollDisagrees`), and if only the length of the session history
  changed the poll resets the page to its initial path (`BackBeforePollResets`). Agreement after a
  poll holds exactly if the poll notifies the module or grid and module agree already
  (`PollAgreesExactly`).
- When the user does not travel between a navigation and its poll, module, grid and tree agree after
  every poll exactly if they agreed at the start and the location was not one printed for another path
  than the one shown (`AgreesFromExactly`). Every first visit agrees so, at any location
  (`FreshPageExactly`); a page with stored states does exactly if its module starts in the state that
  grid and tree show (`OpenedAgreesExactly`). An opened page always shows the path of a printed
  location (`OpenedShowsLocation`), but a page reset as above can be at a location printed for another
  path (`ResetHidesLocation`), and then going to that path goes unnoticed by the poll
  (`IgnoredNavigation`).
- The location agrees as well exactly if it also asked for the path shown at the start
  (`SettlesFromExactly`). A first visit at no location or a printed one starts so (`FreshPageIdle`), but
  not one at a location typed by hand in which two parts differ, because the bookmark reads the first
  and the poll the last (`TypedPageOutOfStep`). A page that comes back with its stored states starts so
  exactly if it was left in the state its location asks for (`ReopenedExactly`, `ReopenedBareExactly`):
  left before a poll, it comes back with grid and module apart, and the call that should repair this
  compares the module with itself (`LeftBeforePoll`).
- A navigation that leaves the location unchanged survives a poll that sees another length of the
  session history exactly if the visit recorded for that length, or the initial state where none is,
  is the state navigated to (`NavigateThenPollExactly`).
- The storage field restores all states exactly if no current state contains a bar, with or
  without a list of visits (`StorageRoundTripExactly`), and the visits exactly if none contains a bar
  or a comma (`VisitsRoundTripExactly`). As long as only navigations write locations both hold
  (`EveryRunRestores`); a location typed by hand can break them.
- Right after its registration a module is found under its name exactly if `escape` leaves that
  name unchanged (`NavigableExactly`): it is filed under the encoded name and looked up under the
  plain one. In the end a name is found exactly if some accepted name is encoded to it
  (`FoundExactly`), which may be the name of another module (`NameOfAnother`).
- After ten wraps of the ring the lower bound of Back is outside 0 to 9 and Back never ends
  (`BackEndsExactly`, `TenWrapsReached`).
- Renaming a collection in the list records the old path with the new name appended, in the document,
  the cache and the tree; the catalog and the row of the list have another path
  (`RecordedPathIsWrong`, `RenameCollKeepsRowsExactly`). Deleting that row afterwards leaves the
  collection in the document (`RenameThenDelete`).
- A rename or deletion in the tree searches the cache of the parent by path. The mirrors still agree
  exactly if the item was the first of its siblings with that path, for a rename to another path
  (`RenameKeepsMirrorExactly`), or if the siblings up to it show the same, for a deletion
  (`DeleteKeepsMirrorExactly`); a second upload of the same folder makes a sibling that is not
  (`UploadTwiceDuplicates`).
- The descendant test compares characters: besides every descendant it refuses siblings whose name
  starts with the name of the source (`GuardRefusesExactly`).
- A file name search that finds nothing keeps the rows of the search before, a metadata search
  always keeps them, and the failure of a page after the first is not reported (`QueryFilename`,
  `QueryMetadata`). The result is complete exactly if no page request failed (`ObtainedExactly`).
- A Modify in the metadata dialog whose deletion succeeded and whose addition was refused leaves a row
  the catalog no longer has (`RowsMatchStore`).
- Removing a login profile leaves its text among those new profiles are compared with. From any
  removal on, of the last row too, some profile can be entered twice, and never before
  (`DuplicatesExactly`); after the removal of another row it can be the last profile itself
  (`DuplicateAfterRemove`).
- The drag-out file list is cut at the first item whose path and name are both empty
  (`ReadBack`, `ReadBackExactly`).

## Model

| member | source | states |
|---|---|---|
| MetadataGrid.Grid.Load | clients/web/browse.js:989-995 | loading shows one unmarked row for each stored entry, in order, and numbers new rows from zero |
| MetadataGrid.Grid.Edit | clients/web/browse.js:761-780 | an edit of a removed row is cancelled, and an existing row is marked edited exactly when its value changed; a new row never is |
| MetadataGrid.Grid.AddRow | clients/web/browse.js:806-818 | a numbered new row comes first, the counter advances, all other rows stay |
| MetadataGrid.Grid.Remove | clients/web/browse.js:827-858 | removing a new row drops it; removing an existing row marks it, and removing it again unmarks it |
| MetadataGrid.Grid.Save | clients/web/browse.js:878-946 | refuses exactly the grids with a clash and reports the first one; otherwise the request is all deletions by id followed by all additions, in row order |
| MetadataGrid.SaveReproducesGrid | clients/web/browse.js:885-946 | an accepted batch applies without failure to the catalog the grid was loaded from, and leaves exactly the multiset of triples of the rows not marked removed |
| MetadataGrid.EverySaveIsFaithful | clients/web/browse.js:761-780 | after every run of edits, additions, removals, sortings, reloads and saves from a loaded catalog, an accepted Save leaves the catalog with the surviving triples, and reloading shows exactly those |
| MetadataGrid.StepKeepsValid | clients/web/browse.js:806-859 | every command keeps the grid a description of the catalog: each entry has its row, and an unedited existing row shows its entry |
| MetadataGrid.RunKeepsValid | clients/web/browse.js:806-946 | the description survives every run |
| MetadataGrid.SaveStep | clients/web/browse.js:948-975 | one accepted Save followed by the reload gives a catalog and a grid with the multiset of triples that survived |
| MetadataGrid.DeletionsApply | clients/web/browse.js:933-936 | deletions by distinct existing ids all succeed and remove exactly the entries with those ids |
| MetadataGrid.InsertionsApply | clients/web/browse.js:938-946 | additions of new and pairwise different names all succeed |
| MetadataGrid.AcceptedExactly | clients/web/browse.js:909-930 | for every grid, Save accepts if and only if no row that is new, edited or removed has the name of another row that is not removed |
| MetadataGrid.LoadedAccepted | clients/web/browse.js:909-930 | every grid just loaded is accepted, also where entries share a name |
| MetadataGrid.AddedRowSaved | clients/web/browse.js:806-946 | a row added to any loaded grid can be saved if and only if no entry has its name, and the request is that one addition |
| MetadataGrid.DistinctNamesAccepted | clients/web/browse.js:909-930 | where untouched rows have distinct names, acceptance is that surviving names are distinct and no removed row shares its name with a surviving one |
| MetadataGrid.BatchDeletes | clients/web/browse.js:881-936 | the request first deletes, in row order and by their ids, exactly the stored rows that are removed or edited |
| MetadataGrid.BatchAdds | clients/web/browse.js:881-946 | and then adds, in row order, the triples of exactly the new rows and the edited ones that are not removed |
| MetadataGrid.SurvivorsExactly | clients/web/browse.js:881-946 | the surviving triples are those of the rows not marked removed, each as often as there are such rows |
| MetadataGrid.SaveKeepsUntouched | clients/web/browse.js:881-946 | after an accepted Save an entry is still there under its id if and only if its row was untouched |
| MetadataGrid.OpExactly | clients/web/browse.js:933-946 | the catalog carries out a deletion if and only if it has the id and then loses that one entry, and an addition if and only if it has not the triple and then gains it |
| MetadataGrid.EditedExactly | clients/web/browse.js:761-780 | an edit sets its own column and leaves the others, unless the row is removed or a name or value is blank; a stored row is marked exactly if it changed |
| MetadataGrid.RemovedExactly | clients/web/browse.js:827-858 | a new row disappears; a stored row is marked, all else stays, and a second removal restores the grid |
| MetadataGrid.FreshNamesDiffer | clients/web/browse.js:806-818 | rows added under different numbers have different names |
| MetadataGrid.ReplacementRefused | clients/web/browse.js:909-930 | removing a row and adding another of its name is refused although the surviving names would be distinct |
| TextCodec.UnescapeEscape | clients/web/history-experimental-min-2.2.2.js:37-42 | decoding an encoded text gives it back, for every sequence of 16-bit code units |
| TextCodec.EscapeAlphabet | clients/web/history-experimental-min-2.2.2.js:37 | an encoded text consists of unreserved characters and percent signs |
| TextCodec.EscapeFixed | clients/web/history-experimental-min-2.2.2.js:28 | encoding leaves a text unchanged if and only if all its characters are unreserved |
| TextCodec.SplitJoin | clients/web/history-experimental-min-2.2.2.js:10-18 | splitting a joined text gives the parts back when no part contains the separator |
| TextCodec.JoinSplit | clients/web/history-experimental-min-2.2.2.js:10-18 | joining the parts of a split gives the text back, always |
| TextCodec.UnreservedExactly | clients/web/history-experimental-min-2.2.2.js:28 | the characters that encoding copies are letters, digits and the seven marks |
| TextCodec.EscapeForm | clients/web/history-experimental-min-2.2.2.js:28 | any other character becomes a percent sign and two upper-case hexadecimal digits, or a percent sign, u and four |
| TextCodec.HexExactly | clients/web/history-experimental-min-2.2.2.js:42 | decoding reads hexadecimal digits in either case |
| TextCodec.MalformedCopied | clients/web/history-experimental-min-2.2.2.js:42 | a percent sign that begins neither form is copied, and decoding goes on behind it |
| HistoryManager.Manager.Register | clients/web/history-experimental-min-2.2.2.js:25-29 | fails for a blank or taken name or after initialization; otherwise files the encoded name with its encoded state as initial and current one |
| HistoryManager.Manager.Navigate | clients/web/history-experimental-min-2.2.2.js:34-39 | throws before readiness or for an unknown name; otherwise prints all current states with the new one, and records visit and storage field where the browser needs it, without changing any module |
| HistoryManager.Manager.StoreStates | clients/web/history-experimental-min-2.2.2.js:10-11 | the storage field is initial states, current states and, where kept, visits, separated by bars |
| HistoryManager.Manager.ParseRequests | clients/web/history-experimental-min-2.2.2.js:18 | the last well-formed part of each name counts, parts without exactly one equals sign are ignored |
| HistoryManager.Manager.HandleStateChange | clients/web/history-experimental-min-2.2.2.js:16-19 | each module takes the state asked for, or its initial one if none or an empty one is asked for, and is notified unless it already holds the state asked for |
| HistoryManager.Manager.Initialize | clients/web/history-experimental-min-2.2.2.js:20-23 | restores states and visits from the storage field and starts the poll from the location then seen |
| HistoryManager.Manager.RestoreInitials | clients/web/history-experimental-min-2.2.2.js:20 | each module takes the last initial state stored for it under exactly one equals sign and otherwise keeps its own |
| HistoryManager.Manager.RestoreCurrents | clients/web/history-experimental-min-2.2.2.js:21 | each module takes the last current state stored for it under at least one equals sign and otherwise keeps its own |
| HistoryManager.Manager.Poll | clients/web/history-experimental-min-2.2.2.js:23 | a tick without change does nothing; a changed location is handled and stored; a changed length alone hands on the recorded visit of that length |
| HistoryManager.Manager.GetCurrentState | clients/web/history-experimental-min-2.2.2.js:39-42 | the decoded state of the module of that name, or an error exactly if the storage field is not ready or there is none |
| HistoryManager.Manager.GetBookmarkedState | clients/web/history-experimental-min-2.2.2.js:42-44 | the decoded value of the first well-formed part of that name in a location |
| HistoryTexts.RegisteredExactly | clients/web/history-experimental-min-2.2.2.js:25-29 | an accepted registration leaves exactly one entry of the encoded name, both of whose states decode to the initial state, and the entries of other names as they were |
| HistoryTexts.RegisteredReads | clients/web/history-experimental-min-2.2.2.js:25-42 | a module registered under unreserved characters is found, and after initialization with an empty storage field its current state reads as the initial state given |
| HistoryTexts.LastValueExactly | clients/web/history-experimental-min-2.2.2.js:18-21 | a name is given a value by the last part that is the name, an equals sign and the value, which for stored current states a second equals sign may end |
| HistoryTexts.BookmarkedExactly | clients/web/history-experimental-min-2.2.2.js:42-44 | the bookmark decodes the value of the first such part, and there is none without such a part |
| HistoryTexts.AskedExactly | clients/web/history-experimental-min-2.2.2.js:16-19 | a module takes the non-empty state a location gives it and is notified exactly if it did not hold it; without one it is notified and takes its initial state |
| HistoryTexts.NoticesExactly | clients/web/history-experimental-min-2.2.2.js:16-19 | exactly the modules notified are called, in order, each once with its decoded state |
| HistoryTexts.RestoredExactly | clients/web/history-experimental-min-2.2.2.js:20-21 | a storage field without a bar restores nothing; otherwise the first two parts decide each module's two states, and a state not given stays |
| HistoryTexts.RestoredVisitsExactly | clients/web/history-experimental-min-2.2.2.js:22 | the third part, cut at commas, is the list of visits; without one the list stays |
| HistoryTexts.PrintedForTwo | clients/web/history-experimental-min-2.2.2.js:10-38 | the location and the storage field of two modules and two visits, spelled out with their separators |
| HistoryTexts.SetVisitExactly | clients/web/history-experimental-min-2.2.2.js:37-38 | a visit is filed under the length of the session history, and every other place reads as before |
| HistoryTexts.RecordedVisitPolled | clients/web/history-experimental-min-2.2.2.js:23 | a poll that sees only a changed length hands on the visit recorded one place before it, and a changed location is handed on itself |
| HistoryLaws.NavigationDelivers | clients/web/history-experimental-min-2.2.2.js:34-39 | the location written for a module, when parsed, gives that module exactly the original non-empty state over arbitrary characters, leaves all others alone, and notifies that module alone and only if its state changed |
| HistoryLaws.NavigationHandled | clients/web/history-experimental-min-2.2.2.js:16-19 | without assuming non-empty states: each module ends with the state printed for it, or its initial one if that was empty, and who is notified |
| HistoryLaws.NavigateThenPollExactly | clients/web/history-experimental-min-2.2.2.js:23 | after navigating and polling, the module holds the state if the location changed; otherwise if and only if it held the state already or, when the history length changed, the visit recorded for that length or else the initial state is that state |
| HistoryLaws.HandlingSettles | clients/web/history-experimental-min-2.2.2.js:16-19 | after handling a location every module is in the state the location asks for |
| HistoryLaws.SettledHoldsState | clients/web/history-experimental-min-2.2.2.js:23 | a module settled on the location of a navigation holds the state navigated to |
| HistoryLaws.NavigableExactly | clients/web/history-experimental-min-2.2.2.js:26-36 | in every manager that accepts it, a module can be looked up by its name right after its registration if and only if encoding leaves the name unchanged |
| HistoryLaws.FoundExactly | clients/web/history-experimental-min-2.2.2.js:26-36 | after any attempts to register, a name is found if and only if some accepted name is encoded to it |
| HistoryLaws.StatesOfLast | clients/web/history-experimental-min-2.2.2.js:25-29 | after any attempts to register, both states of an entry decode to the initial state of the last registration accepted for its name |
| HistoryLaws.NameOfAnother | clients/web/history-experimental-min-2.2.2.js:26-36 | a registered name that encoding changes may still be found, under the entry of another module |
| HistoryLaws.StorageRoundTrip | clients/web/history-experimental-min-2.2.2.js:10-22 | re-initializing from the storage field restores every initial and current state, whatever the modules held after the reload and whatever visits are stored |
| HistoryLaws.StorageRoundTripExactly | clients/web/history-experimental-min-2.2.2.js:10-22 | with or without a list of visits, the round trip holds if and only if no current state contains a bar |
| HistoryLaws.VisitsRoundTrip | clients/web/history-experimental-min-2.2.2.js:11-22 | recorded visits without bars and commas are found again at their places, holes as empty texts, and none is added |
| HistoryLaws.VisitsRoundTripExactly | clients/web/history-experimental-min-2.2.2.js:11-22 | all visits come back at their places if and only if none contains a bar or a comma |
| HistoryLaws.EveryRunRestores | clients/web/history-experimental-min-2.2.2.js:10-38 | in every run of registrations, navigations, returns to written locations and reloads, all states and all visits survive a reload |
| HistoryLaws.NavigationTextStorable | clients/web/history-experimental-min-2.2.2.js:37-38 | a location written by a navigation contains neither a bar nor a comma, so it can be stored as a visit |
| HistoryLaws.EveryRunWellFormed | clients/web/history-experimental-min-2.2.2.js:16-29 | in every run of registrations, reloads from any text and handled locations of any text, names stay distinct and states free of the separators that matter |
| HistoryLaws.RegisterKeepsWellFormed | clients/web/history-experimental-min-2.2.2.js:25-29 | registering keeps names distinct and separators out of them |
| HistoryLaws.HandleKeepsWellFormed | clients/web/history-experimental-min-2.2.2.js:16-19 | handling any location keeps equals signs and ampersands out of current states |
| HistoryLaws.RestoreKeepsWellFormed | clients/web/history-experimental-min-2.2.2.js:20-21 | restoring from any text keeps modules well formed |
| BrowserNavigation.Page.constructor | clients/web/browse.php:39-75 | grid and tree open at the bookmarked path or else the fallback, the module with the states of the storage field, and the closing call to go to the module's own state changes nothing |
| BrowserNavigation.Page.AllGoTo | clients/web/browse.js:1541-1558 | the re-entrant chain ends, and its effect is the navigation, grid, tree and selection in order, exactly if the path differs from the history state |
| BrowserNavigation.Page.GridGoTo | clients/web/browse.js:1560-1573 | a new path is shown in grid and tree; the call coming back through the tree does not repeat it |
| BrowserNavigation.Page.TreeGoTo | clients/web/browse.js:1575-1596 | the tree takes the path, within an account by selection and across accounts by rendering anew, and a node of the path ends selected |
| BrowserNavigation.TreeSelects | clients/web/browse.js:1575-1596 | a new path selects its node; without one the selection stays if the path has the same text before its first slash, and is lost otherwise |
| BrowserNavigation.WentToSelects | clients/web/browse.js:1541-1596 | so does going to a path, which leaves the selection alone exactly where nothing is updated |
| BrowserNavigation.AccountExactly | clients/web/browse.js:1579-1580 | the account is the text before the first slash, and empty without one |
| BrowserNavigation.Page.ClickNode | clients/web/browse.js:1715-1723 | selecting a known node that is not selected goes to its path |
| BrowserNavigation.ClickExactly | clients/web/browse.js:1715-1723 | a click ends at the path of the node if and only if that is shown already, or the node exists, is not selected, and is not held by the history module; the node then is selected |
| BrowserNavigation.ClickAfterVisit | clients/web/browse.js:1541-1723 | from a settled page, after going to a node and polling, that node is selected and a click on any other goes there |
| BrowserNavigation.Page.Poll | clients/web/history-experimental-min-2.2.2.js:23 | a changed location or history length is handled and shown in the grid |
| BrowserNavigation.PolledExactly | clients/web/history-experimental-min-2.2.2.js:23 | a poll changes no history entry; it takes over the state asked for, or the initial one if only the length changed, and shows it exactly if it notifies |
| BrowserNavigation.WentToShows | clients/web/browse.js:1541-1596 | going to a path ends with grid and tree at it and the window showing it, unless the history module holds it already |
| BrowserNavigation.GridAndTreeAgree | clients/web/browse.js:1560-1596 | in every interleaving of navigations, selections, travels through the session history and polls, grid and tree paths are equal between top-level calls |
| BrowserNavigation.PollAgreesExactly | clients/web/history-experimental-min-2.2.2.js:23 | after a poll history state, grid and tree agree if and only if it notified the module or grid and module agreed before |
| BrowserNavigation.OrderlyStep | clients/web/browse.js:1541-1723 | a step that does not travel while a navigation is unpolled keeps the page idle or pending, and a poll settles it |
| BrowserNavigation.EveryPollSettles | clients/web/browse.php:53-58 | from an idle or pending page, after every such run a poll leaves history state, grid, tree and location in agreement |
| BrowserNavigation.SettlesFromExactly | clients/web/browse.php:39-75 | a page whose poll has just begun settles at the polls of all such runs if and only if state, grid and tree agree and the location asks for the state |
| BrowserNavigation.EveryPollAgrees | clients/web/browse.php:53-58 | from a page that agrees and whose location is not printed for another path, each poll of such a run leaves history state, grid and tree in agreement, whatever the location asks for |
| BrowserNavigation.AgreesFromExactly | clients/web/browse.php:39-75 | a page whose poll has just begun agrees at the polls of all such runs if and only if it agrees at the start and its location is not the one printed for another path |
| BrowserNavigation.OpenedAgreesExactly | clients/web/browse.php:39-75 | a page opened at any location with any stored states agrees at the polls of all such runs if and only if its module starts in the state grid and tree show |
| BrowserNavigation.OpenedShowsLocation | clients/web/browse.php:39-42 | a page opened at the location printed for a path shows that path |
| BrowserNavigation.OpenedExactly | clients/web/browse.php:39-75 | a page opens at the decoded value of the first part of the location for the module, or at the fallback if that is empty or missing |
| BrowserNavigation.FreshPageExactly | clients/web/browse.php:39-57 | a page opened without stored states agrees at every location; it is in step with the location if and only if its last part for the module is missing, empty, or decodes to the path opened |
| BrowserNavigation.FreshPageIdle | clients/web/browse.php:39-57 | for instance at no location or at one that was printed |
| BrowserNavigation.TypedPageOutOfStep | clients/web/browse.php:39-57 | at a location with two differing parts for the module it is not: the first part is shown, the last is asked for |
| BrowserNavigation.ReopenedExactly | clients/web/browse.php:60-71 | a page that comes back at a printed location starts in agreement if and only if it was left in the state of that location |
| BrowserNavigation.ReopenedBareExactly | clients/web/browse.php:60-71 | one that comes back without a location, if and only if its state and its initial state are the path it opens with |
| BrowserNavigation.StorableExactly | clients/web/history-experimental-min-2.2.2.js:10-11 | the states of a page survive storing when none holds one of the separators |
| BrowserNavigation.LeftBeforePoll | clients/web/browse.php:60-71 | a page left between a navigation and its poll, with its states stored, comes back with grid and history state apart, and polling changes nothing |
| BrowserNavigation.IgnoredNavigation | clients/web/browse.js:1541-1558 | from agreement at a location that asks for another path, going to that path leaves history state and grid apart and the way back is ignored |
| BrowserNavigation.ResetHidesLocation | clients/web/history-experimental-min-2.2.2.js:23 | such a page is reached by pressing Back before the poll of a navigation that lengthened the session history, unless the initial path is the one of the location |
| BrowserNavigation.OneVisit | clients/web/browse.js:1541-1558 | one navigation and a poll from the start lead to a settled page at the end of its session history |
| BrowserNavigation.TwoVisitsAndBack | clients/web/browse.js:1541-1558 | two navigations and a step back, each polled, lead to a settled page one entry before the end, so that both failures of pressing Back too early are reached |
| BrowserNavigation.BackBeforePollDisagrees | clients/web/browse.js:1541-1558 | travelling back between a navigation and its poll leaves the module at one path and grid and tree at another, whatever the paths |
| BrowserNavigation.BackBeforePollResets | clients/web/history-experimental-min-2.2.2.js:23 | when only the history length changed, the poll takes the page to its initial path, not the one shown |
| BrowserNavigation.LocationTextExact | clients/web/history-experimental-min-2.2.2.js:37-38 | a navigation of the one module writes a text that determines the path and is not empty |
| BrowserNavigation.PrintedAsks | clients/web/history-experimental-min-2.2.2.js:16-43 | the text written for a path is bookmarked as that path, asks for it when parsed, and notifies a module in another state |
| BrowserNavigation.HandlingIsExact | clients/web/history-experimental-min-2.2.2.js:16-19 | for every location text, written by a navigation or by hand, the page ends in the module state the history manager computes, and a notice hands the grid its path |
| VisitHistory.Document.SetCurrentNode | nt/inQ/InquisitorDoc.cpp:447-473 | a new node goes to the next slot, wrapping from the tenth to the first and only then moving the lower bound; nothing happens for the current node or none |
| VisitHistory.Document.OnBack | nt/inQ/InquisitorDoc.cpp:137-148 | unless at the lower bound, steps to the slot before, wrapping, and shows its node |
| VisitHistory.Document.OnForward | nt/inQ/InquisitorDoc.cpp:150-160 | unless at the upper bound, steps to the slot after, wrapping, and shows its node |
| VisitHistory.Document.Forget | nt/inQ/InquisitorDoc.cpp:521-531 | deletion and refresh reset the three indices and leave the slots |
| VisitHistory.VisitRefines | nt/inQ/InquisitorDoc.cpp:447-473 | recording a visit keeps the slots from first to last the newest visits of the ideal history, oldest first, with the cursor at the last |
| VisitHistory.BackRefines | nt/inQ/InquisitorDoc.cpp:137-148 | an enabled Back is the ideal Back, and Forward undoes it |
| VisitHistory.ForwardRefines | nt/inQ/InquisitorDoc.cpp:150-160 | Forward is enabled exactly if the ideal history has a later visit, is the ideal Forward, and Back undoes it |
| VisitHistory.EveryRunRefines | nt/inQ/InquisitorDoc.cpp:137-160 | in every run from a new document with fewer than ten wraps since the last reset, the retained slots are a contiguous suffix of an unbounded history and the cursor is inside it |
| VisitHistory.RunRefines | nt/inQ/InquisitorDoc.cpp:137-473 | the same from every state that refines an ideal history |
| VisitHistory.BackEndsExactly | nt/inQ/InquisitorDoc.cpp:137-148 | nine times Back reaches the end of the history if and only if fewer than ten wraps happened; after ten, ten times Back is where it began |
| VisitHistory.NoHistoryFits | nt/inQ/InquisitorDoc.cpp:463-467 | after ten wraps no ideal history describes the ring |
| VisitHistory.TenWrapsReached | nt/inQ/InquisitorDoc.cpp:463-467 | there is a run from a new document that reaches the tenth wrap |
| VisitHistory.RunOnlyRecorded | nt/inQ/InquisitorDoc.cpp:521-531 | in every run the slots between the bounds hold only nodes recorded since the last reset, never a leftover |
| VisitHistory.ButtonsShowRecorded | nt/inQ/InquisitorDoc.cpp:137-160 | in every run, with any number of wraps, an enabled Back or Forward shows a node recorded since the last reset, and the cursor is -1 or within 0 to 9 |
| Explorer.Frame.OnSelchanged | nt/iExp/LeftView.cpp:303-356 | selecting a queried item copies its cached children to the document; selecting another refreshes it |
| Explorer.Frame.RefreshDisp | nt/iExp/LeftView.cpp:2043-2119 | a refresh replaces lists, cache and child items by the answers of the catalog, and stops where a query fails |
| ExplorerEffects.RefreshExactly | nt/iExp/LeftView.cpp:2043-2119 | after a successful refresh the lists, the cache and the child items of the selected item are the answer of the catalog; after a failed one everything but what the first query replaced is as before |
| ExplorerEffects.SelectExactly | nt/iExp/LeftView.cpp:303-356 | selecting a queried item shows its cache and changes no tree item; selecting another shows the answer of the catalog |
| ExplorerEffects.RunShowsAnswer | nt/iExp/LeftView.cpp:303-545 | in every run, right after a refresh, a tree rename or the selection of an item not queried, everything shows the answer of the catalog, and right after any other selection the lists are the cache |
| ExplorerEffects.LastAnswerEdited | nt/iExp/LeftView.cpp:788-1829 | in every run from an answer on, until something else is selected or asked for, lists and cache are that answer with the additions, deletions and renames made since, one after the other |
| ExplorerEffects.RefreshOtherEffect | nt/iExp/LeftView.cpp:2043-2119 | a refresh of another item fills that item and the lists with its answer |
| ExplorerEffects.AsideUntouched | nt/iExp/LeftView.cpp:2043-2119 | an operation on one item leaves every item that is neither above nor below it as it was |
| ExplorerEffects.AboveUntouched | nt/iExp/LeftView.cpp:2043-2119 | of an item above it only the child on the way to it changes |
| Explorer.Frame.OnNewCollection | nt/iExp/LeftView.cpp:788-845 | appends the same collection, under the trimmed name, to tree, cache and list; a blank name changes nothing |
| Strings.TrimExactly | nt/iExp/LeftView.cpp:788-845 | trimming cuts blanks only, at both ends, and leaves none there |
| ExplorerEffects.NewCollectionExactly | nt/iExp/LeftView.cpp:788-845 | list, cache and child items end with the new collection at its path, and all else of the item and the document is as before |
| Explorer.Frame.OnUploadFolder | nt/iExp/LeftView.cpp:1749-1787 | appends an item for the folder whether or not one is there |
| ExplorerEffects.UploadFolderExactly | nt/iExp/LeftView.cpp:1749-1787 | the same for a folder, which is listed only where the list shows the collection |
| Explorer.Frame.OnUploadFiles | nt/iExp/LeftView.cpp:1789-1829 | appends exactly the uploaded replicas not cached yet, in order, to cache and list |
| ExplorerEffects.UploadFilesExactly | nt/iExp/LeftView.cpp:1789-1829 | the old objects come first, then in order exactly the uploaded files whose name and replica number were neither cached nor uploaded before; every uploaded file is cached afterwards |
| Explorer.Frame.DeleteOneColl | nt/iExp/InquisitorDoc.cpp:1605-1621 | drops the first entry of that path from list, cache and child items |
| Explorer.Frame.DeleteOneObj | nt/iExp/InquisitorDoc.cpp:1623-1638 | drops the first entry of that name, parent and replica from list and cache |
| Explorer.Frame.ChangeOneCollName | nt/iExp/InquisitorDoc.cpp:1640-1658 | renames the first entry of that path in list, cache and child items, all to the same recorded path |
| Explorer.Frame.ChangeOneDataName | nt/iExp/InquisitorDoc.cpp:1677-1690 | renames all entries of the old name in list and cache |
| ExplorerEffects.FirstCollExactly | nt/iExp/InquisitorDoc.cpp:1605-1658 | of several collections of one path only the first is dropped, or takes the new path and name |
| ExplorerEffects.FirstKidExactly | nt/iExp/InquisitorDoc.cpp:1605-1658 | and so for the child items, which keep their children |
| ExplorerEffects.FirstObjExactly | nt/iExp/InquisitorDoc.cpp:1623-1638 | of several objects of one name, parent and replica number only the first is dropped |
| ExplorerEffects.RenameObjsExactly | nt/iExp/InquisitorDoc.cpp:1677-1690 | every object of the old name takes the new one and no other object changes |
| ExplorerEffects.ListDeleteExactly | nt/iExp/InquisitorDoc.cpp:1605-1638 | a deletion in the list touches exactly the copies of the one kind in list, cache and child items |
| ExplorerEffects.ListRenameExactly | nt/iExp/InquisitorDoc.cpp:1640-1690 | a rename in the list touches exactly those, and the path recorded is the old one with the new name appended |
| Explorer.Frame.OnRename | nt/iExp/LeftView.cpp:420-492 | a tree rename changes the item and the first entry of its path in the parent's cache, and refreshes the item |
| ExplorerEffects.TreeRenameExactly | nt/iExp/LeftView.cpp:420-492 | the item ends with the new name, the path below its parent and the answer of the refresh; its siblings stay, and the parent's cache changes at the first collection of the old path |
| Explorer.Frame.OnDelete | nt/iExp/LeftView.cpp:494-545 | a tree deletion removes the item and the first entry of its path in the parent's cache; then the next item is selected |
| ExplorerEffects.TreeDeleteExactly | nt/iExp/LeftView.cpp:494-545 | exactly the item and the first collection of its path in the parent's cache are gone |
| Explorer.CopyExactly | nt/iExp/irodsWinCollection.h:38-57 | a copy equals its source if and only if the target had no children |
| ExplorerLaws.RefreshRepairs | nt/iExp/LeftView.cpp:2043-2119 | from any state a successful refresh makes lists, cache and child items of the selected item agree, and the whole frame if the tree agreed |
| ExplorerLaws.EveryRunAgrees | nt/iExp/LeftView.cpp:303-2119 | after every run of successful operations from a fresh frame, in which tree renames and tree deletions are of items that are the first of their path, the document lists are the cached children of the selected item, and every queried item mirrors its cached collections in name, path and order |
| ExplorerLaws.StepAgrees | nt/iExp/LeftView.cpp:788-1980 | each enabled operation keeps the agreement |
| ExplorerLaws.RenameKeepsMirrorExactly | nt/iExp/LeftView.cpp:460-492 | after a tree rename to another path the parent mirrors its cache if and only if the item was the first of its path |
| ExplorerLaws.DeleteKeepsMirrorExactly | nt/iExp/LeftView.cpp:520-545 | after a tree deletion the parent mirrors its cache if and only if the entry dropped and all up to the item show the same |
| ExplorerLaws.UploadTwiceDuplicates | nt/iExp/LeftView.cpp:1749-1787 | uploading a folder twice makes an item that is not the first of its path |
| ExplorerLaws.HalfRefreshExactly | nt/iExp/LeftView.cpp:2056-2075 | when the second query of a refresh fails, agreement is kept if and only if the first brought no change |
| ExplorerLaws.RefreshOtherExactly | nt/iExp/LeftView.cpp:1982-2041 | refreshing an item elsewhere in the tree overwrites the document lists: agreement is kept if and only if both have the same children |
| ExplorerLaws.RecordedPathIsWrong | nt/iExp/InquisitorDoc.cpp:1646-1650 | the path recorded by a rename in the list is never the path in the catalog |
| ExplorerLaws.ParentExactly | nt/iExp/irodsWinUtils.cpp:1020-1024 | the parent of a path with a name appended is that path, and a text without a slash has the empty parent |
| ListPane.View.UpdateRlist | nt/iExp/InquisitorView.cpp:2646-2665 | the rows become copies of the entries of both lists, collections first |
| ListPane.View.OnDelete | nt/iExp/InquisitorView.cpp:784-888 | deleting a selection bottom up removes exactly the topmost selected rows whose calls the catalog granted, and stops early only at a refused call |
| ListPane.View.OnRename | nt/iExp/InquisitorView.cpp:689-782 | a collection row takes the catalog's path and its entry the recorded one; an object rename reaches all rows and entries of that name |
| ListPane.RenamedCollExactly | nt/iExp/InquisitorView.cpp:730-743 | the row of a collection ends beside its siblings, at the path of its parent with the new name; the first entry of its path ends below the old path, and nothing else changes |
| ListPane.RenamedObjExactly | nt/iExp/InquisitorView.cpp:744-768 | renaming an object renames the rows and entries of that name and no others |
| ListPane.View.InsertOneColl | nt/iExp/InquisitorDoc.cpp:1462-1470 | a new collection is appended to list and rows |
| ListPane.View.InsertOneDataobj | nt/iExp/InquisitorDoc.cpp:1472-1479 | a new object is appended to list and rows |
| ListPane.DeleteKeepsRowsExactly | nt/iExp/InquisitorDoc.cpp:1605-1638 | deleting a row keeps rows and lists equal up to order if and only if the first entry with its key is equal to it |
| ListPane.DeletedExactly | nt/iExp/InquisitorView.cpp:826-882 | the row goes, and with it the first entry of its path, or of its name, parent and replica number |
| ListPane.DeleteSelectionKeepsSound | nt/iExp/InquisitorView.cpp:784-888 | with distinct keys, rows and lists agree after every prefix of a deletion |
| ListPane.RenameCollKeepsRowsExactly | nt/iExp/InquisitorView.cpp:730-743 | renaming a collection keeps rows and lists equal if and only if its path was empty and its entry the first of it |
| ListPane.RenameThenDelete | nt/iExp/InquisitorView.cpp:730-743 | a collection renamed and then deleted in the list loses its row and keeps its entry, for every name the catalog had free |
| ListPane.RenameObjKeepsRows | nt/iExp/InquisitorView.cpp:745-767 | renaming an object keeps rows and lists equal up to order |
| ListPane.InsertKeepsOrderExactly | nt/iExp/InquisitorView.cpp:2726-2736 | a new collection's row stands where a refresh puts it if and only if no object is listed |
| ListPane.RunKeepsSound | nt/iExp/InquisitorDoc.cpp:1455-1690 | in every run of refreshes, insertions, deletions with refusals and object renames, rows and lists are permutations of each other and keys stay distinct |
| ListPane.FilledSoundExactly | nt/iExp/InquisitorDoc.cpp:1605-1638 | rows just filled agree with the lists, and are a sound start if and only if no two children have the same key |
| TreeControl.Tree.DeleteOneNode | nt/iExp/LeftView.cpp:1713-1731 | deletion ends although the first child is fetched anew each time, removes exactly the subtree, takes the item off its parent and releases the objects of the subtree in order |
| TreeControl.Tree.DeleteKids | nt/iExp/LeftView.cpp:1733-1747 | removes exactly the subtrees below an item and keeps the item |
| TreeControl.Tree.DeleteItem | nt/iExp/LeftView.cpp:1730 | the control removes a childless item and takes it off its parent |
| TreeControl.DroppedExactly | nt/iExp/LeftView.cpp:1730 | wherever an item stands among its siblings, its parent's child list loses that one place |
| TreeControl.WithoutExactly | nt/iExp/LeftView.cpp:1727-1747 | all other items stay as they are |
| TreeControl.ReleasedOnce | nt/iExp/LeftView.cpp:1727-1730 | no object is released twice, no null is released, and the objects released are exactly those of the removed items |
| TreeControl.ReleasedFromBelow | nt/iExp/LeftView.cpp:1724-1747 | the objects are released from below: every item before its parent, the item itself last |
| TreeControl.SubtreeClosed | nt/iExp/LeftView.cpp:1733-1747 | the children of every deleted item are deleted as well |
| GuardedMove.CheckWithBuffer | nt/iExp/InquisitorDoc.cpp:1900-1915 | no relation is reported if and only if no buffered path is a prefix of the destination; a reported relation is true |
| Replies.ProceedExact | nt/iExp/InquisitorDoc.cpp:1948-1985 | a loop of calls that stops at the first failure has made all calls before it successfully, each from the state the one before left, and its own call fails |
| Replies.ProceedContinues | nt/iExp/InquisitorDoc.cpp:1948-1985 | two such loops, the second started where the first has finished, are one loop over both |
| Replies.ObeyingExact | nt/iExp/InquisitorView.cpp:826-882 | a loop whose calls fail only where they are refused takes in exactly the items whose calls are granted in a row |
| GuardedMove.MoveEach | nt/iExp/InquisitorDoc.cpp:1948-1985 | a loop over items ends at the first item whose call the server fails, in the catalog its answers led to, and has made exactly the calls up to there |
| GuardedMove.MoveBuffered | nt/iExp/InquisitorDoc.cpp:1917-1990 | does nothing, and calls nothing, on an empty buffer or if and only if the guard refuses; otherwise one run over collections then objects, finished if and only if no call failed |
| GuardedMove.Server.MoveObjects | nt/iExp/irodsWinUtils.cpp:1098-1138 | one call either leaves the catalog of the answer or changes nothing |
| GuardedMove.MovedExactly | nt/iExp/irodsWinUtils.cpp:1098-1138 | a move takes everything at or below the source below the destination, under the name of the source, and leaves all else; nothing is lost |
| GuardedMove.AnsweringIsHonest | nt/iExp/irodsWinUtils.cpp:1098-1138 | a server that refuses any calls and otherwise moves everything at and below the item, where that is possible, answers honestly |
| GuardedMove.MoveKeepsValid | nt/iExp/irodsWinUtils.cpp:1098-1138 | a move to a place outside the source keeps paths unique and every parent present, and keeps the destination |
| GuardedMove.DestinationKeptExactly | nt/iExp/InquisitorDoc.cpp:1930-1942 | a move keeps the destination at its path if and only if that is not at or below the source, which is what the guard is for |
| GuardedMove.GuardSeesDescendants | nt/iExp/irodsWinUtils.cpp:1785-1797 | the prefix test refuses every true descendant and the source itself |
| GuardedMove.GuardRefusesExactly | nt/iExp/irodsWinUtils.cpp:1785-1797 | the test refuses exactly the paths whose names agree with the source's up to its last, which need only be a prefix |
| GuardedMove.NoFaultsExactly | nt/iExp/InquisitorDoc.cpp:1917-1990 | a catalog has no faults if and only if its paths are unique and parent-closed, the destination is in place, and every item is filed under its identifier as at the start |
| GuardedMove.StepsKeep | nt/iExp/InquisitorDoc.cpp:1948-1985 | for honest answers, a loop over items the destination is not below keeps the catalog valid, the destination in place and every item filed under its identifier, and stops early only at a failed call |
| GuardedMove.AdmittedMoveIsSafe | nt/iExp/InquisitorDoc.cpp:1900-1990 | once the guard admits a move, whichever calls the server fails, the catalog stays parent-closed with unique paths, the destination keeps its path, no collection or object is lost, and the run stops early only at a failed call |
| GuardedMove.AdmittedMovePlaces | nt/iExp/InquisitorDoc.cpp:1917-1990 | after an admitted move of different children of one collection, whichever call fails first, every collection and object is where the moves made put it |
| GuardedMove.PlacedExactly | nt/iExp/irodsWinUtils.cpp:1098-1138 | that is: what was at or below a moved item is at the same place below the destination, and everything else is where it was |
| GuardedMove.PlacedInNames | nt/iExp/InquisitorDoc.cpp:1917-1990 | the same for the whole catalog, by the names along each path |
| GuardedMove.UnrefusedMoveCompletes | nt/iExp/InquisitorDoc.cpp:1917-1990 | an admitted move of siblings that exist, to places that are free, comes to its end if the server refuses none of its calls |
| PagedQuery.Catalog.NextPage | nt/iExp/irodsWinUtils.cpp:131-143 | a request fails exactly where the catalog fails it; else a page is the next rows up to the page size and carries a continuation exactly if it is full; past the end there are no rows |
| PagedQuery.ObtainedExactly | nt/iExp/irodsWinUtils.cpp:145-180 | what such a loop obtains is everything if and only if no page request failed; else it is the full pages before the failed request |
| PagedQuery.CollectPages | nt/iExp/irodsWinUtils.cpp:145-180 | the two arrays receive the same rows, in order, exactly as many as can be obtained |
| PagedQuery.QueryFilename | nt/iExp/irodsWinUtils.cpp:128-184 | fails exactly if the first request fails; else arrays and total are the rows obtained, and the total is the length of the arrays if and only if there was a row or the arrays were empty |
| PagedQuery.QueryMetadata | nt/iExp/irodsWinUtils.cpp:241-308 | the rows obtained follow those already in the arrays; the total is the length if and only if there were none |
| PagedQuery.ListChildren | nt/iExp/irodsWinUtils.cpp:442-580 | a listing replaces the array by the contributions of the rows obtained, and keeps it if and only if the first request fails |
| PagedQuery.GetChildObjs | nt/iExp/irodsWinUtils.cpp:409-580 | row by row the objects listed have the name of the row and the parent asked for, as many as rows obtained |
| PagedQuery.GetChildCollections | nt/iExp/irodsWinUtils.cpp:670-793 | the children are those of the paths obtained, without blank ones and the parent |
| PagedQuery.PlainListing | nt/iExp/irodsWinUtils.cpp:744-768 | paths in the catalog's own form are listed completely, in order, each with the name after its last slash |
| PagedQuery.LastNameExact | nt/iExp/irodsWinUtils.cpp:1014-1018 | the name of a path is the text after its last slash, or the whole text without one |
| PagedQuery.ParentNotListed | nt/iExp/irodsWinUtils.cpp:744-768 | the parent itself is no child, with whatever blanks around it |
| PagedQuery.BlankNotListed | nt/iExp/irodsWinUtils.cpp:744-768 | and neither is a blank path, with or without a final slash |
| MetadataDialog.Dialog.AddMetadata | nt/iExp/MetadataDlg.cpp:304-346 | if and only if attribute and value are not blank, the call is granted and the triple is new, the trimmed triple is added to catalog, arrays and list; else nothing changes |
| MetadataDialog.Dialog.DeleteMetadata | nt/iExp/MetadataDlg.cpp:348-395 | list, arrays and catalog end as the run of deletions from the highest selected row down leaves them |
| MetadataDialog.DeletesTopmost | nt/iExp/MetadataDlg.cpp:348-395 | that run removes exactly the topmost selected rows from the list and their triples from the catalog, as far as it comes |
| MetadataDialog.DeletesUntilRefused | nt/iExp/MetadataDlg.cpp:348-395 | it stops early only at a call that is refused or asks for a triple no longer stored, and all calls before were granted |
| MetadataDialog.DeletesAsRun | nt/iExp/MetadataDlg.cpp:348-395 | it is a run of the single deletions that the accounting of rows and triples is about |
| MetadataDialog.Dialog.ModifyMetadata | nt/iExp/MetadataDlg.cpp:253-302 | if and only if both calls are granted the remembered triple is replaced in catalog and row; a refused addition leaves it deleted in the catalog only |
| MetadataDialog.Dialog.SelectTab | nt/iExp/MetadataDlg.cpp:471-533 | modifying and viewing remember the one selected row; any other selection falls back to deleting |
| MetadataDialog.StepAccounted | nt/iExp/MetadataDlg.cpp:253-395 | each event keeps the rows equal, as a multiset, to the stored triples and the lost ones, and the remembered triple that of its row or no longer stored |
| MetadataDialog.RunAccounted | nt/iExp/MetadataDlg.cpp:253-395 | what is lost in a run is exactly the triples of half-failed modifications |
| MetadataDialog.RowsMatchStore | nt/iExp/MetadataDlg.cpp:253-395 | after every run from a freshly loaded dialog the rows are the stored triples together with those of half-failed modifications |
| QueryBuilder.Dialog.OnQueryAdd | nt/iExp/Query.cpp:82-126 | one leaf is put at its place, the others keep their order |
| QueryBuilder.ParsedExactly | nt/iExp/Query.cpp:82-126 | each of the twelve operator texts is read as its operator and no other text is read |
| QueryBuilder.InsertedExactly | nt/iExp/Query.cpp:82-126 | the condition stands at its place, and without it the list is as before |
| QueryBuilder.Dialog.OnQueryAnd | nt/iExp/Query.cpp:248-282 | two or more selected conditions are replaced by one joining them from the left; fewer change nothing |
| QueryBuilder.FoldedExactly | nt/iExp/Query.cpp:258-271 | joining one more condition puts all before it into the left part |
| QueryBuilder.Dialog.OnQueryRemove | nt/iExp/Query.cpp:223-246 | exactly the selected conditions go, the others keep their order |
| QueryBuilder.UnpickedExactly | nt/iExp/Query.cpp:223-246 | the conditions left are those at the places not selected, in their order |
| QueryBuilder.HoldsExactly | nt/iExp/Query.cpp:258-271 | a condition holds of a record if and only if each of its leaves does, however they were joined |
| QueryBuilder.FoldedCount | nt/iExp/Query.cpp:258-271 | folding from the left conserves the multiset of leaves |
| QueryBuilder.StepCount | nt/iExp/Query.cpp:82-282 | joining conserves the leaves in the list; adding and removing account for theirs |
| QueryBuilder.RunCount | nt/iExp/Query.cpp:82-282 | in every run the leaves in the list are those added less those removed, each counted |
| QueryBuilder.Dialog.OnOK | nt/iExp/Query.cpp:195-217 | a query is accepted if and only if one condition is left, and after any run that led to the list it holds of a record if and only if every leaf added more often than removed does |
| QueryBuilder.AcceptedQueryExactly | nt/iExp/Query.cpp:195-217 | the query accepted after any run holds of a record if and only if every leaf added more often than removed does |
| DragOut.LayOut | nt/inQ/InquisitorDoc.cpp:1280-1321 | the second pass writes path and name of every item, each with a zero, one byte less than the first pass reserved, and never out of bounds |
| DragOut.CountBytes | nt/inQ/InquisitorDoc.cpp:1276-1293 | the first pass counts exactly one byte more than the second writes |
| DragOut.ReadBack | nt/inQ/InquisitorDoc.cpp:1302-1321 | splitting the block on zeros gives path and name of every item before the first whose path and name are both empty, in order |
| DragOut.ReadBackExactly | nt/inQ/InquisitorDoc.cpp:1302-1321 | it gives all items if and only if there is no such item |
| DragOut.BlockSizeExact | nt/iExp/InquisitorView.cpp:1750-1768 | the size formula of the drag list is the number of bytes written |
| DragOut.ReadRecord | nt/inQ/InquisitorDoc.cpp:1169-1233 | a record in the layout of replica number, type, cut flag, name and path is recovered, and reading goes on at the next record |
| DragOut.ReadBlock | nt/inQ/InquisitorDoc.cpp:1138-1235 | for every non-empty list of records the reader ends at the zero terminator with all records in order |
| DragOut.FindLookup | nt/inQ/InquisitorDoc.cpp:1195-1214 | what is looked up is the path from its second inner slash on, or from the only one; a path without an inner slash sets nothing |
| DragOut.FourBytesRoundTrip | nt/inQ/InquisitorDoc.cpp:1138-1139 | a replica number below 2 to the 32 survives its four bytes |
| DragOut.FourBytesOrder | nt/inQ/InquisitorDoc.cpp:1138-1139 | the lowest byte of a replica number comes first |
| DragOut.RecordExactly | nt/iExp/InquisitorView.cpp:1770-1810 | a record is replica number, type, cut flag, name and path, each text with a zero |
| DragOut.LookupExactly | nt/inQ/InquisitorDoc.cpp:1195-1214 | of two slashes after the first character or more the second counts, of one that, and of none nothing |
| LoginProfiles.Dialog.constructor | nt/iExp/Login.cpp:85-96 | whatever the registry holds, the rows are slots 1 to the latest in order, a missing one as empty, with their texts remembered |
| LoginProfiles.Dialog.OnLoginNew | nt/iExp/Login.cpp:255-311 | slots and rows grow by the profile unless a remembered text within the number of rows equals its text; slots 1 to the latest remain the rows, and no slot above the latest appears |
| LoginProfiles.TextTellsFields | nt/iExp/Login.cpp:255-311 | profiles that differ in one field have different texts |
| LoginProfiles.Dialog.OnLoginRemove | nt/iExp/Login.cpp:313-394 | the shift drops exactly the removed entry, no slot above the latest appears, and the remembered texts never become fewer than the rows |
| LoginProfiles.NewIsExact | nt/iExp/Login.cpp:266-310 | while texts match rows, a profile is refused if and only if a row has its text; an accepted one keeps the match if and only if no text is left over or the next one left is its own |
| LoginProfiles.RemoveKeepsTextsExactly | nt/iExp/Login.cpp:313-394 | after a removal the texts still match the rows if and only if the last row was removed |
| LoginProfiles.DuplicateAfterRemove | nt/iExp/Login.cpp:255-394 | removing any row but the last lets the last profile be entered a second time |
| LoginProfiles.EnteredTwiceExactly | nt/iExp/Login.cpp:266-310 | in every state, some profile can be entered twice in a row if and only if more texts are remembered than there are rows |
| LoginProfiles.DuplicatesExactly | nt/iExp/Login.cpp:255-394 | in every run from a dialog opened on profiles with distinct texts, some profile can then be entered twice if and only if a row was removed; until then texts match rows and stay distinct |

## Left out

- Preloading and lazy upload of the file system client: only described in prose.
- Windows, menus, progress bars, drag highlighting, HTML and Ext widgets: user interface only. The texts of messages are not modelled, the conditions under which they appear are.
- Network failure of a Save after part of its batch was applied: the model carries out the batch up to the first instruction the catalog refuses, and for the grids of every run there is none.
- MetadataGrid.Grid.Save: does not model the encoding of the batch as JSON text.
- HistoryManager.Manager: the branch for Internet Explorer with its hidden frame, the check of argument types, and names such as those of array methods that a JavaScript array finds without registration are not modelled.
- BrowserNavigation.Page.Poll: does not consult a list of visited states, because the browser that keeps one reports the length of its session history in a way of its own; HistoryManager.Manager.Poll models that list.
- BrowserNavigation.Page: the tree knows a fixed set of nodes and selects at once; a selection that arrives later is a click event of its own. The limit browsers put on the length of the session history is not modelled.
- Explorer.Frame: each item of a list selection is one event here, the loop over the selection is ListPane.View.OnDelete. Copying by drag and drop into another item is RefreshOther and not part of the coherent runs, since it breaks agreement.
- ListPane.View: the display mode of search results, in which the document is not updated, is not modelled.
- The contents of an uploaded folder and the other fields of collections and objects: carried along, not interpreted.
- PagedQuery: a first page is followed by later ones only in the loops that carry the continuation index; the advanced search, the resource lists, user metadata and pending rules do not. Answers without the columns asked for, and mounted collections, are not modelled.
- MetadataDialog.Dialog: the layout of the tabs and the viewer for long values are not modelled.
- QueryBuilder.Dialog: the place the list control gives a new condition is a parameter; texts longer than the buffers are not cut; an operator text that is none of the twelve leaves the operator of a leaf open; joining is assumed to succeed, since on a failure the source goes on with an unset result.
- DragOut.FindLookup: for a path without an inner slash the source goes on with the pointer of the record before, or none at all; the model says only that nothing was set. The lookup of the node itself is not modelled.
- DragOutDownload, which asks the server for the files: not part of this model.
- The DefaultResource field of a login profile, which a removal does not shift.
- ActiveX wrappers, resource ids, mime tables, page shells and library tests: no hard property.
