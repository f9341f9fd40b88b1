# Verified models of QDAcity's core algorithms

This project models, in Dafny, the parts of QDAcity that hold real algorithms or state, and
proves what they are for.

- **Realtime document service** (`SlateModel`, `RangeToPaths`, `CodingRemoval`, `CodingExactness`,
  `CodingContiguity`, `CodingRuns`, `DocumentService`, `LockSafety`, `HandlerSections`,
  `SerialisedEdits`, `TextSafety`, `CodingSafety`, `CodingIds`, `AcquireLoop`). Handlers on many
  servers edit one text document under a Redis lock with a time to live, with a Redis cache and a
  backend. The protocol is a state machine with one step for each Redis command and each backend
  request; GET and DEL of a release, and GET and PEXPIRE of a refresh, are separate steps. A
  document is its text nodes in document order, each a sequence of characters with a set of marks.
  A client's operations are applied as they come: marks, text and nodes.
- **Squire tree algorithms** (`Dom`, `MergeInlines`, `SplitTree`, `CursorReady`, `SplitConserves`,
  `FixCursorPlaces`, `RangeStart`, `ExtractContents`, `TreeWalker`, `UndoHistory`). The document
  tree is a rose tree; content is the sequence of characters and leaf elements, each with the
  elements around it. A boundary of a range is a node and an offset; a node that the code holds on
  to is followed through the tree. The TreeWalker is a subset of section 6.2 of the WHATWG DOM
  Standard.
- **Code-system tree** (`CodeTree`, `CodeStore`, `CodeDeletion`, `CodeTreeSafety`). The
  parent/child relation is stored twice, in `parentID` and in `subCodesIDs`; a code system is a
  tree when both tell the same story about one tree.
- **Translation files and the scrambler** (`TextLines`, `TranslationFormat`, `TranslationReading`,
  `TranslationRoundTrip`, `Scramble`). The printer, the tokenizer and the parser of the
  localization build, and the function that makes scrambled messages.

Code that works step by step is a method with its loop, proved against a function or a
property; the walker, the editor's history, the datastore and the translation file are
classes whose methods state their whole new state. Theorems about those functions are lemmas.

`dafny verify dfyconfig.toml` checks the whole project.

## Where the code and its comments disagree

The model follows the code.

- `refresh` is documented to reject when another server has the lock
  (`realtime-service/src/utils/DocumentLock.js:114`), but the rejected promise is not returned, so
  it resolves. `RefreshGet` goes on to the upload in that case; safety comes from timing.
- A comment says that no split is needed when the text before the selection is empty
  (`realtime-service/src/syncService/DocumentHandler.js:392`). That is so unless the coding
  reaches over the empty text node: `ContiguousExactlyWithoutGap` says exactly when, and
  `GapExample` is a document in which a coding is left in two pieces.
- The lock value is the server's name, and the catch blocks release even when acquire failed. Two
  handlers of one server and a third handler are enough to have two handlers in their critical
  sections: `ExclusiveExactlyWithoutThirdParty`.
- The handler that adds a coding applies whatever operations a client sends
  (`realtime-service/src/syncService/DocumentHandler.js:317-322`), those that change the text
  included. `TextSurvivesExactly` says when the text survives all the same.
- `getAndIncrCodingId` (`src/com/qdacity/endpoint/ProjectEndpoint.java:246-270`) reads the counter
  and writes it back without a transaction, so two calls can get one id: `AnswersDifferExactly`
  says exactly when they do not, `OverlapExample` shows two that do.
- A removal of a code that throws half-way, because a sub-code is missing, listed twice or below
  itself, has deleted part of the subtree, has logged the code as deleted and has taken it out of
  its parent's list, but leaves the code: `RemoveAccounts`.
- `extractContentsOfRange` splits at the end first, in order to leave the start alone. Where empty
  text nodes cannot be focused (`war/components/Squire/squire-raw.js:354-362`) the end's split may
  take nodes from the front of the start's container, or take the container itself:
  `ExtractContents` says exactly when the fragment is what lies between the ends, and exactly when
  the call throws. The only caller that gives a common ancestor, and so the only one that this can
  reach, is `modifyBlocks` (`war/components/Squire/squire-raw.js:3209`), which gives the body
  after it has widened the range to whole blocks and moved its ends up the tree.
- Scrambling twice is the identity on more than the balanced texts, and not on all texts:
  `ScrambledTwiceExactly`.
- The build compares messages with what comes back from the printed template
  (`war/gulpfile.js:151-170`). Every description line comes back with one more leading space and a
  last entry with an empty message does not come back: `RoundTripExactly`.

## Model

| member | source | states |
|---|---|---|
| `SlateModel.ApplyOperations` | realtime-service/src/syncService/DocumentHandler.js:317-322 | the change object is updated operation by operation: add, remove and set mark, insert and remove text, and insert, remove, split, merge and move node on text nodes, whichever of these a client sends; an operation on an unknown path makes the whole call throw |
| `SlateModel.MarksApplied` | realtime-service/src/syncService/DocumentHandler.js:479-523 | the mark operations of a removal go through the same loop and do there what they do to marks |
| `SlateModel.AppliesExactly` | realtime-service/src/syncService/DocumentHandler.js:317-322 | which operations throw: those with a path to no text node, and merging the first node |
| `SlateModel.TextInserted` | realtime-service/src/syncService/DocumentHandler.js:317-322 | character by character: an inserted text stands at its offset, with its marks, and nothing else changes but its place |
| `SlateModel.TextRemoved` | realtime-service/src/syncService/DocumentHandler.js:317-322 | character by character: exactly the characters from the offset on, as many as the length, are gone |
| `SlateModel.NodeInserted` | realtime-service/src/syncService/DocumentHandler.js:317-322 | an inserted node is at its path, and removing it restores the document |
| `SlateModel.NodeSplit` | realtime-service/src/syncService/DocumentHandler.js:317-322 | a node is cut at the position, and merging the halves restores the document |
| `SlateModel.NodesMerged` | realtime-service/src/syncService/DocumentHandler.js:317-322 | two nodes become one, and splitting where they met restores the document |
| `SlateModel.NodeMoved` | realtime-service/src/syncService/DocumentHandler.js:317-322 | a node is at its new path, the others keep their order, and moving it back restores the document |
| `SlateModel.MarkSet` | realtime-service/src/syncService/DocumentHandler.js:317-322 | exactly the characters of the interval that have the mark get the other one for it |
| `SlateModel.ApplyAllPointwise` | realtime-service/src/utils/SlateUtils.js:167-177 | operations computed on the original value stay valid while they are applied one after another: none fails, the shape stays, and each character ends as the operations make it on its own |
| `RangeToPaths.Compute` | realtime-service/src/utils/SlateUtils.js:68-106 | the do-while loop terminates; it succeeds exactly when the start node is not behind the end node, with the spans of the nodes in between |
| `RangeToPaths.SpansInOrder` | realtime-service/src/utils/SlateUtils.js:73-103 | every text node from start to end is visited once, in document order |
| `RangeToPaths.SpansCoverRange` | realtime-service/src/utils/SlateUtils.js:79-102 | clipped to the nodes, the spans are disjoint and together exactly the characters of the range, although the first one overshoots |
| `RangeToPaths.FindCodingEnd` | realtime-service/src/utils/SlateUtils.js:193-207 | the first character without the coding id, or none exactly when all have it |
| `CodingRemoval.ScanRun` | realtime-service/src/syncService/DocumentHandler.js:406-442 | the while loop over the text nodes finds the run end |
| `CodingRemoval.RunIsMaximal` | realtime-service/src/syncService/DocumentHandler.js:403-442 | every character from the selection end to the run end has the coding id and the next one has not; empty texts are passed through |
| `CodingRemoval.ParamsProperties` | realtime-service/src/syncService/DocumentHandler.js:356-468 | one parameter set for each coding; a coding is split exactly when the character before the selection carries it and the run behind is not empty, and its copy differs in the new id only |
| `CodingRemoval.PrevCharExactly` | realtime-service/src/syncService/DocumentHandler.js:373-395 | no character is found before the selection exactly at the start of the document, at the start of a node behind an empty one, and at an offset behind the node; otherwise it is the one before in the node or the last one of the node before |
| `CodingExactness.SplitsExactly` | realtime-service/src/syncService/DocumentHandler.js:373-422 | a coding is split exactly when it is on the character right before the selection and not missing on the one right behind it |
| `CodingExactness.RemovalFailsExactly` | realtime-service/src/syncService/DocumentHandler.js:470-490 | the computation throws exactly when a coding has to be split and its request for an id has failed, or when there is one to remove and the end node lies before the start node |
| `CodingExactness.RunIsInRun` | realtime-service/src/syncService/DocumentHandler.js:373-442 | the computed run is the run said without the algorithm: the coding is on the character right before the selection and on every character from the selection end up to here |
| `CodingExactness.RemovalMarks` | realtime-service/src/syncService/DocumentHandler.js:479-523 | all operations apply, the text stays, and every character ends with exactly the promised marks, wherever the list of marks at the range comes from |
| `CodingExactness.RemovalIsExact` | realtime-service/src/syncService/DocumentHandler.js:343-524 | nothing changes before the range; inside it exactly the codings of the code go; behind it a removed coding gives way to its renamed copy on exactly its maximal run and everything else stays |
| `CodingContiguity.PrevCharIsNearest` | realtime-service/src/syncService/DocumentHandler.js:373-395 | when there is a character before the selection that no empty node hides, the one that is looked up is the nearest one before it |
| `CodingContiguity.ContiguousExactlyWithoutGap` | realtime-service/src/syncService/DocumentHandler.js:373-442 | when every coding id is on one contiguous run before the removal, it is so afterwards exactly unless an empty text node before the selection hides a coding that reaches across the selection |
| `CodingContiguity.IdsStillNameCodings` | realtime-service/src/syncService/DocumentHandler.js:356-470 | one removal with ids that are new to the document: a coding id still stands for one coding afterwards; where new ids come from is `CodingIds` |
| `CodingContiguity.GapExample` | realtime-service/src/syncService/DocumentHandler.js:376-395 | a document and selection in which the removal leaves one coding in two pieces |
| `CodingRuns.RemoveStep` | realtime-service/src/syncService/DocumentHandler.js:343-524 | a removal whose ids have not been used before keeps every coding id a used one that names one coding, and keeps codings contiguous exactly unless it meets the gap |
| `CodingRuns.AddedMarks` | war/assets/js/pages/coding-editor/Documents/DocumentsView.jsx:256-275 | a new coding put on a range is on exactly the characters of the range, and no other mark changes |
| `CodingRuns.CodingsStaySound` | realtime-service/src/syncService/DocumentHandler.js:343-524 | over every run of removals and new codings, one after another, in which no removal meets a gap, every coding id stands for one coding on one contiguous run of characters; the ids that the edits bring differ from each other and from those in the first document, in whatever order they were given |
| `CodingSafety.HandlerServes` | war/assets/js/pages/coding-editor/Documents/DocumentsView.jsx:256-275 | the operations for a new coding, computed on the client's copy, do on the document that the handler reads what they would do if computed there |
| `CodingSafety.CodingStep` | realtime-service/src/syncService/DocumentHandler.js:52-147 | a step of the protocol keeps every document around sound exactly unless it is an edit that meets the gap |
| `CodingSafety.CodingsSoundExactly` | realtime-service/src/syncService/DocumentHandler.js:52-147 | both handlers put into the protocol, with new ids: in every run, timely or not, whatever fails, expires or overtakes, all documents in the backend, in the cache and in the handlers' hands have each coding id naming one coding on one contiguous run of characters, exactly when no edit of the run meets the gap |
| `CodingIds.AnswersDifferExactly` | src/com/qdacity/endpoint/ProjectEndpoint.java:246-270 | over every run of calls, each reading and then writing the counter, some failing in between: the answers all differ exactly when no two of the answered calls overlap, and then are above the counter's first value, and the counter has gone up by one for each |
| `CodingIds.CounterGivesNewIds` | src/com/qdacity/endpoint/ProjectEndpoint.java:246-270 | so without overlapping calls the ids of the handlers are new in the sense of `CodingSafety.CodingsSoundExactly`, in whatever order the handlers use them |
| `CodingIds.OverlapExample` | src/com/qdacity/endpoint/ProjectEndpoint.java:262-268 | two overlapping calls that get the same id |
| `AcquireLoop.Acquire` | realtime-service/src/utils/DocumentLock.js:78-108 | at least one and at most max(1, ceil(timeout / waitTime)) SET attempts, none but the first once the timeout has passed; resolves exactly when one of them created the entry |
| `LockSafety.MutualExclusionFromTimeBounds` | realtime-service/src/utils/DocumentLock.js:78-171 | in every timely run in which no release of a handler without the lock met a sibling's entry: one handler at most is between acquire and release, its own entry outlives its section, and nobody deletes or extends another's entry |
| `LockSafety.ExclusiveExactlyWithoutThirdParty` | realtime-service/src/syncService/DocumentHandler.js:85-86 | every timely run keeps the handlers apart exactly when there are not three handlers with two of them on one server |
| `LockSafety.ThirdPartyBreaksExclusion` | realtime-service/src/syncService/DocumentHandler.js:141-142 | the run in which a handler that did not get the lock deletes its sibling's entry and a third one gets in |
| `HandlerSections.WholeSection` | realtime-service/src/syncService/DocumentHandler.js:64-83 | from every reached state with a free lock a handler can go through its section; the whole state afterwards: its edit, applied to the cached document if there is one, is in the backend and acknowledged, and the lock is free |
| `HandlerSections.AbortedSection` | realtime-service/src/syncService/DocumentHandler.js:85-86 | wherever the section fails, at the read, the edit, the GET or PEXPIRE of the refresh or the upload: the whole state afterwards, not acknowledged, the backend as before, the lock free |
| `HandlerSections.GivesUp` | realtime-service/src/syncService/DocumentHandler.js:141-142 | a handler that is refused the lock takes away an entry that names its server and no other |
| `HandlerSections.UploadsWithoutLock` | realtime-service/src/utils/DocumentLock.js:120-145 | a handler whose lock is another server's uploads all the same and leaves the entry |
| `HandlerSections.ExtendsNothing` | realtime-service/src/utils/DocumentLock.js:127-134 | a refresh that finds the entry gone fails, and nothing is deleted |
| `HandlerSections.EndsWithRelease` | realtime-service/src/utils/DocumentLock.js:155-170 | over every step: a handler ends exactly at a GET of its release that fails or finds no entry of its server, or at the DEL |
| `HandlerSections.NextAfterExpiry` | realtime-service/src/utils/DocumentLock.js:78-108 | an entry that nobody frees keeps others waiting until its time to live is over, and no longer |
| `HandlerSections.LivesForAMinute` | realtime-service/src/utils/DocumentLock.js:6-53 | a lock that is set or refreshed lives for 61000 milliseconds |
| `SerialisedEdits.SerialisedExactlyWhenHarmless` | realtime-service/src/syncService/DocumentHandler.js:238-261 | a step that keeps the handlers apart keeps the edits serialised exactly when it is not a harmful failure: a store that fails over another cached document, or a refresh or upload that fails with the cache ahead of the backend |
| `SerialisedEdits.BackendStep` | realtime-service/src/syncService/DocumentHandler.js:199-261 | whatever fails, the next backend document is the replay of the acknowledged edits in lock order |
| `SerialisedEdits.SerialisedRun` | realtime-service/src/utils/DocumentCache.js:47-92 | exclusive runs without a harmful failure stay serialised in every state; the cache may expire at any step |
| `SerialisedEdits.EditsAreSerialised` | realtime-service/src/syncService/DocumentHandler.js:52-147 | in every timely run in which no release of a handler without the lock has met an entry of its server, and without a harmful failure: the backend holds the initial document with each acknowledged edit applied exactly once in the order of lock acquisition, and between critical sections the cache is empty or agrees with it |
| `SerialisedEdits.EditsAreSerialisedWithoutThirdParty` | realtime-service/src/syncService/DocumentHandler.js:85-86 | the same from the configuration: it holds in all those runs when there are not three handlers with two of them on one server |
| `SerialisedEdits.SoundExactlyWithoutStaleRead` | realtime-service/src/syncService/DocumentHandler.js:199-261 | whatever fails: a step that keeps the handlers apart keeps the backend the replay of the acknowledged edits, and the edit under way made on it, exactly when it does not read a cached document that is not the backend's |
| `SerialisedEdits.EditsAddUpWithoutStaleRead` | realtime-service/src/utils/DocumentCache.js:47-92 | in every timely run without such a release, whatever store, refresh or upload fails, no acknowledged edit is lost as long as no handler has read a stale cache |
| `SerialisedEdits.FailedStoreLosesEdit` | realtime-service/src/syncService/DocumentHandler.js:240-244 | when the second of three stores fails, all three edits are acknowledged and the second is lost |
| `TextSafety.SilentExactly` | realtime-service/src/syncService/DocumentHandler.js:317-322 | an operation, of the nine kinds in the model, keeps the texts of every document it applies to exactly when it is a mark operation, inserts or removes nothing, or moves a text to where it is |
| `TextSafety.LoudChanges` | realtime-service/src/syncService/DocumentHandler.js:317-322 | for every other operation of these kinds a document whose texts it changes |
| `TextSafety.RemovalKeepsText` | realtime-service/src/syncService/DocumentHandler.js:343-524 | the handler that takes a code off keeps the text, whatever document, range, code and ids it is given |
| `TextSafety.TextSurvivesExactly` | realtime-service/src/syncService/DocumentHandler.js:52-147 | the handlers put into the protocol: every document in every run, timely or not, whatever fails, expires or overtakes, has the original text exactly when each handler alone keeps the text of the initial document |
| `TextSafety.TextNeverChanges` | realtime-service/src/syncService/DocumentHandler.js:52-67 | so it is when every operation that the clients send leaves text alone |
| `MergeInlines.JoinedContent` | war/components/Squire/squire-raw.js:538-544 | joining two alike neighbours keeps their content in order |
| `MergeInlines.MergeTracks` | war/components/Squire/squire-raw.js:510-545 | the boundary updates made before two neighbours are joined keep the boundary at its place in the flattened content |
| `MergeInlines.ReplaceTracks` | war/components/Squire/squire-raw.js:546-552 | merging inside one child keeps a boundary anywhere in the parent at its place |
| `MergeInlines.PutBack` | war/components/Squire/squire-raw.js:547-550 | the stack of fragments comes back in left-to-right order, across chains of merges |
| `MergeInlines.MergeInlines` | war/components/Squire/squire-raw.js:499-554 | terminates; keeps the content, both range ends at their place; nowhere afterwards are two neighbouring texts, or two neighbouring inline elements of the same name, class and style other than BR, IMG and INPUT; changes nothing in a tree without any, so it is idempotent |
| `MergeInlines.CanMergeExactly` | war/components/Squire/squire-raw.js:203-210 | which neighbours are joined: texts, and elements with an inline name that is no leaf name and the same name, class and style |
| `Dom.KindsExactly` | war/components/Squire/squire-raw.js:172-219 | which elements are leaves and which are inline |
| `SplitTree.PlaceCuts` | war/components/Squire/squire-raw.js:448-458 | every place of a tree cuts what the tree shows in two |
| `SplitTree.FixCursorVisible` | war/components/Squire/squire-raw.js:332-402 | on an element below the body, fixCursor changes nothing but line breaks, empty texts and zero-width spaces |
| `CursorReady.BlockFixed` | war/components/Squire/squire-raw.js:390-400 | a block with a BR below it stays; any other gets exactly one, as the last child of the last block at its end |
| `CursorReady.InlineFixed` | war/components/Squire/squire-raw.js:354-370 | an inline element loses its leading empty texts in WebKit, and gets a zero-width space there or an empty text elsewhere when nothing is left |
| `CursorReady.HalvesReady` | war/components/Squire/squire-raw.js:470-484 | both halves of an element that one round of split goes through can take the cursor: a block has a BR below it, an inline element a child, in WebKit not an empty text first |
| `CursorReady.SplitReady` | war/components/Squire/squire-raw.js:448-497 | after the whole split all elements that it has cut, and all their clones, can take the cursor |
| `SplitTree.SplitAtKeepsPlace` | war/components/Squire/squire-raw.js:470-494 | one level of splitting puts exactly what was before the place before the new boundary, and the rest behind it |
| `SplitTree.Split` | war/components/Squire/squire-raw.js:448-497 | terminates, one level a round; the stop node shows what it showed, its children before the result what was before the place, those from the result on what was behind it; a node that the caller holds on to is followed to its new path, or is found to be out of the tree |
| `SplitConserves.SidesKept` | war/components/Squire/squire-raw.js:448-497 | line breaks included: the stop node's children before the result hold exactly what was before the place, in order and in the same formatting, those from it on what was behind it, each with only fixers put in |
| `SplitConserves.NothingLost` | war/components/Squire/squire-raw.js:448-497 | so everything that was in the stop node is in it after the split |
| `SplitConserves.PaddedShows` | war/components/Squire/squire-raw.js:332-402 | putting in fixers does not change what is shown |
| `FixCursorPlaces.FixCursorPlace` | war/components/Squire/squire-raw.js:354-384 | every place of an element below the body goes with the empty texts that fixCursor takes from its front; what is before it and what is behind it stays there, line breaks included, with only fixers put in |
| `RangeStart.FollowHolds` | war/components/Squire/squire-raw.js:470-494 | one level of splitting: the followed path leads to the same node |
| `RangeStart.FollowEndsExactly` | war/components/Squire/squire-raw.js:354-362 | a node that is held on to is out of the tree exactly when it is, or is in, an empty text at the front of one half of an inline element, in WebKit |
| `RangeStart.SplitFixes` | war/components/Squire/squire-raw.js:470-494 | one level of the end's split is a fixCursor on the right border of the tree up to the end |
| `RangeStart.FixCarries` | war/components/Squire/squire-raw.js:470-494 | such a fixCursor carries the start on: what is before and behind it is what was before and behind the place that is as many children further on as its container loses |
| `RangeStart.StartFollowed` | war/components/Squire/squire-raw.js:731-732 | the whole split of the end, at every depth: the start's container is out of the tree exactly when it is, or is in, an empty text that is taken from the front; otherwise the start is not behind the cut, and what is before it and between it and the cut is, line breaks included, what was before the place it has come to mean and between that and the end |
| `SplitTree.SplitUpTop` | war/components/Squire/squire-raw.js:482-494 | of the stop node's children only the one on the path becomes two, so the end node is still there after the start is split |
| `ExtractContents.MoveOut` | war/components/Squire/squire-raw.js:736-741 | the loop moves exactly the nodes from the start node up to the end node, in order |
| `ExtractContents.CloseSeam` | war/components/Squire/squire-raw.js:743-758 | two texts that meet at the seam become one and the range goes to where they met; otherwise nothing changes |
| `ExtractContents.RootKeeps` | war/components/Squire/squire-raw.js:760-763 | the last fixCursor, also on a body, keeps what is shown, and the range follows removed empty texts and a replaced line break |
| `ExtractContents.RootPads` | war/components/Squire/squire-raw.js:760-763 | and loses nothing but a line break at the front of a body: otherwise it puts in fixers only |
| `ExtractContents.RootReady` | war/components/Squire/squire-raw.js:345-353 | the common ancestor can take the cursor; a body begins with a block, a new one when it was empty or began with a BR |
| `ExtractContents.ExtractContents` | war/components/Squire/squire-raw.js:717-767 | throws exactly when the end's split has dropped the start's container; otherwise before the start ++ extracted ++ behind the end is the original, with the range at the seam, exactly when the start stays; for the place that the start has come to mean that is always so, and each of the three runs has exactly its content, line breaks included, with only fixers put in; the last fixCursor may replace a line break at the front of a body |
| `ExtractContents.StaysWithBreaks` | war/components/Squire/squire-raw.js:731-741 | when not even a line break lies between the start and the place that it has come to mean, the three runs are those of the given start |
| `ExtractContents.StaysWithoutDropping` | war/components/Squire/squire-raw.js:354-362 | where empty text nodes can be focused, every start stays |
| `ExtractContents.StaysBelowDefaultCommon` | war/components/Squire/squire-raw.js:725-728 | below the common ancestor that is taken when the caller gives none, every start stays in every browser |
| `ExtractContents.StartDrifts` | war/components/Squire/squire-raw.js:354-362 | in WebKit, extracting "a" from an element with a leading empty text gives nothing when the start is an offset into the element |
| `ExtractContents.StartHolds` | war/components/Squire/squire-raw.js:731-741 | and gives the right letter when the start is in the text behind the empty one, although the element loses the empty one |
| `ExtractContents.StartThrows` | war/components/Squire/squire-raw.js:731-732 | and throws when the start is in the empty text itself |
| `TreeWalker.NextIsPreOrder` | war/components/Squire/squire-raw.js:94-101 | one forward step leads from each node to the next one in pre-order, and from the last one nowhere |
| `TreeWalker.PreviousIsPreOrder` | war/components/Squire/squire-raw.js:121-134 | one backward step leads to the entry before in pre-order, and from the root nowhere |
| `TreeWalker.NextBackIsReversePostOrder` | war/components/Squire/squire-raw.js:152-159 | one step of previousPONode leads to the next entry of the reverse post-order |
| `TreeWalker.PreviousUndoesNext` | war/components/Squire/squire-raw.js:87-142 | previous undoes next |
| `TreeWalker.PreviousReversesNext` | war/components/Squire/squire-raw.js:87-142 | from the accepted node that nextNode reaches, the last accepted node before is the one it came from |
| `TreeWalker.EveryNodeListed` | war/components/Squire/squire-raw.js:87-112 | the pre-order lists every node of the tree |
| `TreeWalker.NodesListedOnce` | war/components/Squire/squire-raw.js:87-112 | and none of them twice |
| `TreeWalker.EveryNodeInPostOrder` | war/components/Squire/squire-raw.js:145-170 | the post-order lists every node as well |
| `TreeWalker.PostOrderOnce` | war/components/Squire/squire-raw.js:145-170 | and none of them twice |
| `TreeWalker.BackAndForth` | war/components/Squire/squire-raw.js:87-142 | the accepted nodes before a place, turned round, followed by those from it on are all accepted nodes |
| `TreeWalker.Walker.StepForward` | war/components/Squire/squire-raw.js:94-101 | the inner search of nextNode ends at the next node of the tree |
| `TreeWalker.Walker.StepBackward` | war/components/Squire/squire-raw.js:121-134 | the inner search of previousNode ends at the node before |
| `TreeWalker.Walker.StepBackwardPO` | war/components/Squire/squire-raw.js:152-159 | the inner search of previousPONode ends at the node before in post-order |
| `TreeWalker.Walker.NextNode` | war/components/Squire/squire-raw.js:87-112 | moves to the first accepted node behind the current one in pre-order; null, and no move, exactly when there is none |
| `TreeWalker.Walker.PreviousNode` | war/components/Squire/squire-raw.js:114-142 | moves to the last accepted node before the current one in pre-order, or returns null |
| `TreeWalker.Walker.PreviousPONode` | war/components/Squire/squire-raw.js:145-170 | moves to the first accepted node behind the current one in reverse post-order, or returns null |
| `TreeWalker.Walker.Drain` | war/components/Squire/squire-raw.js:87-112 | from the root, repeated nextNode gives exactly the accepted nodes below the root in pre-order, then null |
| `TreeWalker.Walker.DrainPrevious` | war/components/Squire/squire-raw.js:114-142 | from wherever the walker stands, repeated previousNode gives exactly the accepted nodes before it in pre-order, the last one first, then null |
| `TreeWalker.Walker.DrainBack` | war/components/Squire/squire-raw.js:145-170 | from the root, repeated previousPONode gives exactly the accepted nodes below the root in reverse post-order, then null |
| `TreeWalker.ShownExactly` | war/components/Squire/squire-raw.js:62-75 | which nodes are shown: the bit of the mask for each node type, and the filter |
| `TreeWalker.DrainGives` | war/components/Squire/squire-raw.js:87-170 | a drain gives a node exactly when it is listed and shown |
| `TreeWalker.AllFromPicks` | war/components/Squire/squire-raw.js:87-170 | and in the order of the list |
| `UndoHistory.RedosRestore` | war/components/Squire/squire-raw.js:2762-2803 | n undos go back n recorded states and n redos restore the document, its past and its future |
| `UndoHistory.UndosPast` | war/components/Squire/squire-raw.js:2762-2782 | n undos shorten the past by n and show the document recorded there |
| `UndoHistory.EditUndone` | war/components/Squire/squire-raw.js:2724-2803 | an edit of a saved document can be undone and redone, and ends what could be redone before |
| `UndoHistory.UndoneRedone` | war/components/Squire/squire-raw.js:2762-2803 | undo after redo restores the document, its past and its future |
| `UndoHistory.Editor.SetHTML` | war/components/Squire/squire-raw.js:3489-3499 | the history is the new document alone: no past, no future, 0 <= index < length |
| `UndoHistory.Editor.DocWasChanged` | war/components/Squire/squire-raw.js:2724-2737 | a notification is swallowed once after the editor's own change; otherwise the undo state ends and the event says that undo is possible and redo is not |
| `UndoHistory.Editor.RecordUndoState` | war/components/Squire/squire-raw.js:2740-2760 | recording outside an undo state cuts off the future and saves the document behind the index; inside it changes nothing; the history is the same with its present saved |
| `UndoHistory.Editor.Undo` | war/components/Squire/squire-raw.js:2762-2782 | array, index and flag do what undo does to past, present and future, and the event's flags are right |
| `UndoHistory.Editor.Redo` | war/components/Squire/squire-raw.js:2784-2803 | the same for redo |
| `UndoHistory.Editor.EditDocument` | war/components/Squire/squire-raw.js:2724-2737 | a notified edit drops the future; a swallowed one keeps the invariant exactly when there was nothing to save or nothing changed |
| `UndoHistory.SwallowedEdit` | war/components/Squire/squire-raw.js:2724-2737 | setHTML leaves its own change to be notified; an edit notified together with it is in no undo state and breaks the invariant |
| `UndoHistory.Editor.Run` | war/components/Squire/squire-raw.js:2724-2803 | over every run of edits, recordings, undos and redos the editor follows the history |
| `CodeTree.TreeMeans` | src/com/qdacity/endpoint/CodeEndpoint.java:477-486 | what being a tree means for the stored fields: every code but the root is listed exactly once, in the sub-code list of the code its parentID names |
| `CodeTree.ClosedIsUnreachable` | src/com/qdacity/endpoint/CodeEndpoint.java:473-483 | codes whose parents are all among themselves are in no tree from the root |
| `CodeTreeSafety.RelocateKeepsTreeExactly` | src/com/qdacity/endpoint/CodeEndpoint.java:462-516 | relocation to an existing code of the system keeps the tree exactly when the new parent is neither the code nor below it, and then moves the whole subtree; otherwise the subtree is a cycle cut off from the root |
| `CodeTreeSafety.RelocateWrites` | src/com/qdacity/endpoint/CodeEndpoint.java:462-516 | what a relocation writes: the code's parent, the lists of both parents, one log entry with the old parent; names and everything else stay |
| `CodeTreeSafety.RelocateToNowhere` | src/com/qdacity/endpoint/CodeEndpoint.java:474-485 | a missing new parent throws after the old parent was saved: the tree survives exactly when the code is the root |
| `CodeDeletion.EndsExactly` | src/com/qdacity/endpoint/CodeEndpoint.java:518-545 | in any system, tree or not: removeSubCodes comes to its end exactly when a tree of existing codes, none of them twice, hangs from the code by the sub-code lists and is not higher than the calls can be nested |
| `CodeDeletion.SweepAccounts` | src/com/qdacity/endpoint/CodeEndpoint.java:518-545 | however far it gets: the codes that have gone are those that have been logged, each once, and no other code has changed |
| `CodeTreeSafety.RemoveIsExact` | src/com/qdacity/endpoint/CodeEndpoint.java:404-459 | removal in a tree deletes exactly the code and its descendants, logs each of them once and nothing else, and leaves the tree without that subtree, so without dangling sub-code ids |
| `CodeTreeSafety.RemoveEnds` | src/com/qdacity/endpoint/CodeEndpoint.java:404-459 | in a tree it comes to its end exactly when the subtree is not higher than the calls can be nested |
| `CodeTreeSafety.RemoveAccounts` | src/com/qdacity/endpoint/CodeEndpoint.java:404-459 | removal in any system: the code goes exactly when the recursion comes to its end, as said above; otherwise the code is logged as deleted, is forgotten by its parent, and stays |
| `CodeTreeSafety.InsertKeepsTreeExactly` | src/com/qdacity/endpoint/CodeEndpoint.java:81-143 | insertion under an existing code keeps the tree exactly when the caller's code names that code of the same system as its parent and comes without sub-codes |
| `CodeTreeSafety.InsertWrites` | src/com/qdacity/endpoint/CodeEndpoint.java:81-143 | what an insertion writes: the caller's code as it came under the next id, that id as one more sub-code of the parent, the counter, one log entry, and nothing else |
| `CodeTreeSafety.InsertNowhere` | src/com/qdacity/endpoint/CodeEndpoint.java:96-112 | an insertion under a missing code uses up an id and does nothing else |
| `CodeTreeSafety.ServeIds` | src/com/qdacity/endpoint/CodeSystemEndpoint.java:225-238 | whatever is requested, ids stay at most maxCodeID, the counter never goes down, and a new code gets the next id |
| `CodeTreeSafety.GoneStaysGone` | src/com/qdacity/endpoint/CodeSystemEndpoint.java:225-238 | over every run of requests, a code that has gone never comes back under its id |
| `CodeTreeSafety.RunIds` | src/com/qdacity/endpoint/CodeSystemEndpoint.java:181-201 | over every run of requests ids are bounded by maxCodeID and the counters only grow |
| `CodeTreeSafety.RunTrees` | src/com/qdacity/endpoint/CodeEndpoint.java:81-545 | over every run of requests that the theorems above allow, every code system is a tree, or empty after its root was removed |
| `CodeTreeSafety.CloneIsIndependent` | src/com/qdacity/endpoint/CodeSystemEndpoint.java:261-300 | a clone has the same ids, parents, sub-code lists and counter, and over every run each of the two systems stays what was cloned as long as no request writes that system itself |
| `CodeStore.Datastore.InsertCodeSystem` | src/com/qdacity/endpoint/CodeSystemEndpoint.java:138-169 | a new system holds the root with id 1 and counts from 1 |
| `CodeStore.Datastore.UpdateCodeSystem` | src/com/qdacity/endpoint/CodeSystemEndpoint.java:182-201 | the caller's maxCodeID is not taken over |
| `CodeStore.Datastore.GetAndIncrCodeId` | src/com/qdacity/endpoint/CodeSystemEndpoint.java:225-238 | the counter goes up by one and the new value is the id |
| `CodeStore.Datastore.InsertCode` | src/com/qdacity/endpoint/CodeEndpoint.java:81-143 | the whole new state; the counter goes up even when the parent does not exist |
| `CodeStore.Datastore.RelocateCode` | src/com/qdacity/endpoint/CodeEndpoint.java:462-497 | the whole new state, with the old parent changed even when the new one does not exist |
| `CodeStore.Datastore.RemoveSubCodes` | src/com/qdacity/endpoint/CodeEndpoint.java:518-545 | on any stored codes: deletes what hangs below the code, children before their parents, and logs each deletion; stops where a sub-code does not exist or the calls are nested too deep, with what is deleted by then gone |
| `CodeStore.Datastore.RemoveCode` | src/com/qdacity/endpoint/CodeEndpoint.java:404-459 | the whole new state and log, on any stored codes, also when the recursion throws |
| `CodeStore.Datastore.CloneCodeSystem` | src/com/qdacity/endpoint/CodeSystemEndpoint.java:261-300 | in whatever order the codes are read, the copy holds exactly the same codes and counter |
| `TranslationFormat.Tokenize` | localization/translationFile/format.js:43-69 | the line loop with its state gives the tokens of the lines, or fails on a line that fits no rule |
| `TranslationFormat.Parse` | localization/translationFile/format.js:3-41 | the token loop gathers the messages; an empty message at the very end is dropped |
| `TranslationFormat.TranslationFile.Source` | localization/translationFile/index.js:4-26 | the content is made once, is the print of all messages, and is kept |
| `TranslationFormat.TranslationFile.GetMessageIdents` | localization/translationFile/index.js:32-36 | the messages are read once and kept; after a syntax error nothing is kept |
| `TextLines.SplitUnlines` | localization/translationFile/index.js:34 | splitting at line breaks undoes ending every line with one |
| `TextLines.SplitBreaksExactly` | localization/translationFile/index.js:11-13 | splitting for the print: the lines and the breaks between them make up the text, each break a line feed with the carriage returns beside it |
| `TranslationReading.ReadFailsExactly` | localization/translationFile/format.js:46-67 | reading fails exactly when the text has a line that is not blank and starts with no number sign, word character or white space |
| `TranslationReading.TokensExactly` | localization/translationFile/format.js:43-69 | the tokens of any other text, line by line: what a line says depends on whether an entry has begun before it and whether its line had an equals sign |
| `TranslationReading.GroupFed` | localization/translationFile/format.js:3-36 | for all tokens: comments and keys, and the values behind them, are one message; the keys make one id, comments and values are lines |
| `TranslationReading.EndsExactly` | localization/translationFile/format.js:38-41 | at the end comments and keys without a value are lost, and so is an empty last message |
| `TranslationReading.IdentifierMeans` | localization/translationFile/index.js:10 | of an id the first equals sign is left out |
| `TranslationReading.SimplePrint` | localization/translationFile/index.js:14-20 | the print of an entry without line breaks |
| `TranslationRoundTrip.EntryPrinted` | localization/translationFile/index.js:10-23 | the printed entry is its comment lines, its key line and its tabbed lines |
| `TranslationRoundTrip.EntryTokenized` | localization/translationFile/format.js:46-67 | from any state, the lines of an entry become its comments, its key and its values that are not blank |
| `TranslationRoundTrip.EntryFed` | localization/translationFile/format.js:5-36 | the tokens of an entry finish the entry before and rebuild this one |
| `TranslationRoundTrip.PrintedReadsBack` | war/gulpfile.js:151-170 | for every list of entries whose ids can be keys: parsing the printed file gives each entry in its place, with what printing and parsing make of its id, message and description, except for a last entry whose message comes back empty |
| `TranslationRoundTrip.CanonicalExactly` | localization/translationFile/format.js:50-64 | a message comes back as it was exactly when it has no carriage return at a line break, no leading space and no blank continuation line |
| `TranslationRoundTrip.FaithfulExactly` | localization/translationFile/index.js:11-13 | an entry changes in nothing but the leading space of its description lines exactly when, besides, its id has no equals sign and no trailing space |
| `TranslationRoundTrip.RoundTripExactly` | war/gulpfile.js:151-170 | the round trip gives the same entries with one leading space in each description line exactly when every entry is such and the last message is not empty |
| `Scramble.ScrambleIdent` | localization/webpack/util.js:6-24 | the in-place loop over the parts and the reversal; without a key the value stays |
| `Scramble.PartsMean` | localization/webpack/util.js:8 | every text splits into texts without braces and single braces in turn, which concatenate to it |
| `Scramble.PartsOfConcat` | localization/webpack/util.js:8 | and in only one way |
| `Scramble.ScrambledTwiceExactly` | localization/webpack/util.js:6-24 | scrambling twice gives any text back exactly when each text between its braces is outside braces both from the left and from the right, or inside from both, or a palindrome |
| `Scramble.ScrambledTwice` | localization/webpack/util.js:6-24 | so it does on balanced texts, and the scrambled text is balanced |
| `Scramble.EveryPartMirrored` | localization/webpack/util.js:10-23 | in a balanced text each part goes to the mirrored place: texts outside braces are turned round, texts inside stay as they are, braces change sides |
| `Scramble.EveryPartScrambled` | localization/webpack/util.js:10-23 | in any text each part goes to the mirrored place; a text is turned round exactly when never before in front of it less braces were open |
| `Scramble.SameLength` | localization/webpack/util.js:6-24 | the length stays, for every text |
| `Scramble.UnbalancedStays` | localization/webpack/util.js:14-18 | a text with an unclosed brace on which scrambling twice is not the identity |

## Left out

- `HandlerSections.WholeSection`: that a handler gets on at all is not promised; the sections are runs that can happen.
- `SerialisedEdits.EditsAreSerialised`: HTML and JSON serialization of documents is taken to be undone by deserialization, so the model passes documents.
- `SerialisedEdits.EditsAreSerialised`: a failed upload is taken to leave the backend as it was; a request that is carried out and then answered with an error is not modelled.
- `DocumentService.Do`: each handler releases once; an exception in `handleApiResponse`, after the release, would release a second time.
- `SlateModel.ApplyOperations`: operations on nodes above the text nodes, and those that set nodes, the value or the selection, are not modelled; neither is Slate joining neighbouring texts afterwards.
- `SerialisedEdits.SoundExactlyWithoutStaleRead`: stated step by step and for all runs without a stale read; in a run with one, what the following handlers make of it is left open.
- `LockSafety.MutualExclusionFromTimeBounds`: clocks of Redis and the handlers are one clock; the time bounds are assumptions about the runs.
- `AcquireLoop.Acquire`: waitTime is positive and each delay lasts at least that long.
- `CodingContiguity.ContiguousExactlyWithoutGap`: marks with the same coding id are taken to be equal, which `CodingContiguity.IdsStillNameCodings` shows removals keep.
- `CodingSafety.CodingsSoundExactly`: the coding without an id that `DocumentsView.jsx` sends when its request for one fails is not modelled, nor are edits of the text by other operations.
- `SplitTree.Split`: its cut is stated up to line breaks and zero-width spaces, since fixCursor adds some (`SplitConserves.SidesKept` has the line breaks); places inside leaf elements, a text node as stop node, the identity of cloned nodes and the numbering of split ordered lists are not modelled.
- `SplitTree.FixCursorVisible`: a body is treated in `ExtractContents.RootKeeps`; the text fixer of old browsers is not modelled.
- `ExtractContents.ExtractContents`: the fixers of Internet Explorer before 11 and Presto are not modelled; a BR is taken to hold no nodes.
- `ExtractContents.ExtractContents`: the default block put into an empty body is a DIV without attributes.
- `MergeInlines.MergeInlines`: `areAlike` ignores the attributes of a coding, so nothing is said about them.
- `CodeTreeSafety.ServeIds`: requests are served one after another; getAndIncrCodeId reads and writes its counter without a transaction, too, and what overlapping calls do is shown for coding ids only (`CodingIds.AnswersDifferExactly`).
- `CodeStore.Datastore.UpdateCodeSystem`: the other fields that a caller sends are not modelled.
- `CodeTreeSafety.CloneIsIndependent`: codes are values, so an object shared between a code and its copy would not show.
- `UndoHistory.Editor.SetHTML`: the cleaning of the HTML and the cursor fixing are not modelled; a document is its HTML.
- `UndoHistory.Editor.Run`: the editor's own change is taken to be notified before the next action; `UndoHistory.SwallowedEdit` shows what happens otherwise.
- `CodeStore.Datastore.InsertCode`: codes are keyed by system and code id; the datastore's own keys, relationship codes and code book entries are not modelled.
- `TranslationRoundTrip.RoundTripExactly`: entries whose printed id does not start with a word character, or holds an equals sign or a line break, are not covered; white space is the space, the tab, the line feed and the carriage return.
- Trees of nodes are values; a node that the code holds on to is an id in `MergeInlines` and a path that is followed in `SplitTree` and `ExtractContents`. Parent pointers, live child lists and aliasing between nodes are not modelled; comment nodes appear in the TreeWalker only.
- Redis, socket.io, the Google API client, authorization and logging are plumbing around the steps modelled here.
- `updateCode` overwrites tree fields with what the caller sends, and `removeCodeSystem` leaves the codes behind; no tree property rests on them.
- The rest of Squire (keys, clipboard, focus, block formatting), the Babel plugin and the other endpoints are not modelled.
