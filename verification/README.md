# Tender response platform: a verified model

This project models the part of a tender response platform that decides what may leave the building: how a document is
cut into chunks and indexed, how requirements are extracted from it and registered, how answers are grounded and
saved, how people sign them off, and when a submission may be exported. It is written in Dafny and proves what each
step keeps, what every run of them guarantees, and, where the code does less than its comments say, exactly how far
the guarantee reaches.

## How it is laid out

| file | component |
|---|---|
| `PyText.dfy`, `Sorting.dfy` | the string operations and the stable sort the code leans on |
| `Proposals.dfy` | proposal rows, the guards a write must pass, the effect each write has |
| `Lifecycle.dfy` | whole runs of the table: invariants, version chains, sign-off |
| `Decisions.dfy` | which calls are open to whom, and what a refused caller is told |
| `Interleaving.dfy` | sessions that read now and commit later; refinement to sequential runs |
| `ProposalRepository.dfy` | the repository and services as classes whose columns are assigned in place |
| `ExportGate.dfy` | progress, the export gate, the bundle, and marking it exported |
| `TextSplit.dfy`, `Chunker.dfy` | the structure-aware chunker |
| `Indexing.dfy` | replacing a document in the vector index under retries, and reading it back |
| `Extraction.dfy`, `Registration.dfy` | windows, the first-wins fold, and registration into the proposal table |
| `Grounding.dfy`, `Answering.dfy` | citation mapping, verification, confidence, and the answer chain |

The proposal table has two levels. On the first a run is a list of whole calls and `Lifecycle.State` is the table after
them. On the second a call is a read step followed later by a commit that the database guards with the version it read
and with the partial unique index; any number of sessions interleave and any of them may vanish.
`Interleaving.InterleavingsAreSequential` shows that every such execution is a run of the first level, so everything
proved of runs holds of it; `Interleaving.EveryRunIsAnInterleaving` is the converse. `Answering.NothingShipsWithoutEvidenceOrAName` puts the two ends together, over runs that come
with a record of the request behind each generation: whatever a response document holds was approved by a named owner
or bid manager on that exact text, with citations that quote chunks its own recorded request supplied, or with a
written note.

Loops that update variables are methods with invariants, each tied to a specification function about which the lemmas
speak. Row keys come from a counter, times are integers, and one tenant is fixed throughout. A transaction's row locks
are folded into its commit step: an UPDATE either finds the version it read or the session aborts.

## Where the code does less than its comments or its documentation say

- Rejection is meant to force the text to move. No single call undoes it (`Lifecycle.NoCallSignsOffARejectedRow`), but
  two reviews do, exactly when there is a text to approve (`Lifecycle.RejectionCanBeReversed`); every sign-off after a
  rejection went through such a reopening (`Lifecycle.RejectionMustBeReopened`).
- Superseding does not bump `version`, so the version guard alone does not stop two regenerations of one requirement;
  the unique index does. `Interleaving.FirstCommitWins` says exactly which pairs of sessions exclude each other. A
  superseded row can still be written, after which version order need not be chain order
  (`Lifecycle.SupersededRowCatchesUp` is a run); `Lifecycle.OrderIsKeptIff` says exactly which calls keep it.
- Export collects and marks in two transactions, and what was shipped and what the exported row says can differ
  (`ExportGate.ExportRace`); `ExportGate.ExportMatchesIff` says exactly when they agree.
- The gate counts and lists in separate statements, each with its own snapshot, so an approval revoked in between lets a
  bundle through without a mandatory requirement (`ExportGate.CollectRace`);
  `ExportGate.EveryMandatoryRequirementShips` says exactly when it does not. What the bundle does hold is signed off
  either way.
- Registration with overwrite off is meant never to discard a drafted answer, but it asks for the current version twice.
  A draft that turns up between the two SELECTs is superseded by an empty placeholder
  (`Registration.RegistrationRace`); `Registration.LateRegistrationIsAtomic` says exactly when registering among other
  sessions is the same as registering at commit time.
- The matrix is complete exactly up to the listing's limit of 10,000 rows (`ExportGate.MatrixCompleteIffWithinLimit`),
  and reading a document back exactly up to 4,000 chunks (`Indexing.ReadBackIsTheDocument`).
- An oversized run that opens with the separator it is split on does not come back from its parts
  (`TextSplit.SplitReconstructs`), though a carried tail may happen to repeat the separator
  (`TextSplit.CarriedTailsCanSupplyTheStop`); an oversized table without parseable rows loses sentence separators
  (`Chunker.RowlessTableIsKeptIff`); one whose only row is its header disappears
  (`Chunker.TableVanishesIffHeaderOnly`, `Chunker.TableIsKeptIff`); a row too long for the ceiling makes its part too
  long (`Chunker.PartsFitIffRowsFit`). All but the second of these names are equivalences.
- Deterministic point ids do not make ingestion idempotent by themselves: it converges in every interleaving exactly
  when all attempts parsed the same chunks (`Indexing.ConvergesIffBytesAgree`; `DifferentBytesLeaveStalePoints` is an
  input).
- No mandatory item is meant to drop out, but an optional item listed first under the same reference hides it
  (`Registration.OptionalHidesMandatory`); `Registration.NoMandatoryItemDropsOutIff` says exactly when none does.
- A claim that spans two uncited blocks counts as supported, and an answer made of one can be VERIFIED
  (`Grounding.SpanningClaimIsVerified`). For a pattern of cited and uncited blocks this is excluded exactly when no two
  neighbouring text blocks are uncited (`Grounding.UncitedClaimsAreFlaggedIffApart`); for one list of texts it can also be
  excluded by accident, when the joined text happens to occur in a third uncited block
  (`Grounding.NeighboursCanBeHarmless`).
- A declared gap is not treated as an abstention when a citation was rejected, because rejections are looked at first
  (`Answering.AnswerShape`).

## Model

| member | source | states |
|---|---|---|
| `Lifecycle.Reachable` | backend/app/db/models/proposal.py:78-107 | In every reachable table the CHECK constraints hold, each requirement has at most one current row, every link points to an older row of the same requirement, and every row hangs off its requirement's current row |
| `Lifecycle.Footprint` | backend/app/db/repositories/proposals.py:263-323 | One call leaves every row alone except the one it names, the one it supersedes or the approved ones it ships, and only an accepted generation adds a row |
| `Lifecycle.RowAdvances` | backend/app/db/repositories/proposals.py:282-319 | Between any two states of any run a row keeps its birth, its version never falls, equal versions mean equal rows but for the current flag, and a superseded row never becomes current again |
| `Lifecycle.VersionNamesPayload` | backend/app/db/models/proposal.py:199 | Optimistic locking is sound: a row id and a version name one payload for the whole run, in either order of observation |
| `Lifecycle.FreshDecisionSeesWhatItWasShown` | backend/app/services/review_service.py:287-293 | A decision or edit that passes the freshness check acts on exactly the row its caller was shown |
| `Lifecycle.VersionChain` | backend/app/db/repositories/proposals.py:133-179 | A requirement with any row has exactly one current row, and following the links from it terminates and meets every row of that requirement exactly once |
| `Lifecycle.ChainFollowsLinks` | backend/app/db/repositories/proposals.py:137-143 | A chain descends link by link to a first version, within one workspace and reference |
| `Lifecycle.BirthIsPermanent` | backend/app/db/repositories/proposals.py:296-313 | The requirement, the generated text, the citations and the link of a row are never rewritten by any later call |
| `Lifecycle.BornOfAGeneration` | backend/app/db/repositories/proposals.py:98-179 | Every row was inserted by one accepted generation for its own requirement |
| `Lifecycle.ExportedIsFrozen` | backend/app/services/review_service.py:96-110 | Once a row is exported no later run changes its text, citations, reviewer, notes or version |
| `Lifecycle.ApprovalIsVouched` | backend/app/services/review_service.py:178-222 | As long as no later review or edit of the row is accepted, the row names the approver and time, ships the text the approver saw, and carries citations or the approver's note |
| `Lifecycle.SignedOffIffApproved` | backend/app/services/review_service.py:53-96 | A row is approved or exported if and only if the last accepted human call on it was an approval |
| `Lifecycle.SignOff` | backend/app/services/review_service.py:306-359 | Behind every approved or exported row of every run stands one accepted approval by an owner or bid manager, on a non-blank text equal to the one it ships, with citations or an acknowledged written note |
| `Lifecycle.HumanWrittenException` | backend/app/services/review_service.py:328-359 | A row born without text and citations is signed off only with a non-blank human edit, which is what ships, and a non-blank note given with an acknowledgement |
| `Lifecycle.AssignmentIsExplicit` | backend/app/db/repositories/proposals.py:288-289 | A row is assigned to an SME only by an accepted review that named that SME |
| `Lifecycle.SmeActsOnlyWhenAssigned` | backend/app/services/review_service.py:306-325 | An SME never approves or rejects, and acts on a row only after an accepted review assigned it to them |
| `Lifecycle.EscalationHandsOver` | backend/app/services/review_service.py:70-82 | After an escalation the named SME, and only that SME among SMEs, may edit the answer and may give it back for review, but may not decide on it; two equivalences |
| `Lifecycle.SupersededRowCatchesUp` | backend/app/db/repositories/proposals.py:209-226 | A run of three accepted calls (generate, regenerate, edit the superseded row) after which the row and its successor have the same version, so `history` order is not chain order |
| `Lifecycle.HistoryIsChainOrderIff` | backend/app/db/repositories/proposals.py:209-226 | Newest version first is the order of the chain from every row if and only if every row outranks the one it replaced |
| `Lifecycle.OrderIsKeptIff` | backend/app/db/repositories/proposals.py:139-146 | An accepted call of any kind keeps that order if and only if it does not raise a superseded row, by review, edit or export, to the version of a successor one ahead of it that it leaves alone |
| `Lifecycle.ReplacedIsNotCurrent` | backend/app/db/repositories/proposals.py:139-146 | A row that has been replaced is not current |
| `Lifecycle.CurrentWritesKeepOrder` | backend/app/db/repositories/proposals.py:33-47 | A run whose reviews, edits and exports all hit rows that were current keeps the order |
| `Lifecycle.RejectionCanBeReversed` | backend/app/services/review_service.py:83-88 | Two reviews and no edit can take a rejected answer to approval if and only if it has a non-blank final text; the first reopens it and the text does not move |
| `Lifecycle.NoCallSignsOffARejectedRow` | backend/app/services/review_service.py:83-88 | No single call of any kind, by anyone, takes a rejected row to sign-off |
| `Lifecycle.RejectionMustBeReopened` | backend/app/services/review_service.py:83-88 | In every run, a rejected row with another status later was reopened in between by an accepted move to PENDING_REVIEW or NEEDS_SME |
| `Decisions.ApprovableIff` | backend/app/services/review_service.py:53-96 | Some single review approves a row if and only if its final text is not blank and its status is DRAFT, PENDING_REVIEW or NEEDS_SME |
| `Decisions.MovableIff` | backend/app/services/review_service.py:53-96 | Some single review moves a row to REJECTED, PENDING_REVIEW or NEEDS_SME if and only if it has another status than that and is not exported; no review leads to any other status |
| `Decisions.OwnerReviewAcceptedIff` | backend/app/services/review_service.py:287-359 | An owner's review goes through if and only if it is fresh and its move is open, and, to approve, the final text is not blank and there are citations or an acknowledgement with a written note |
| `Decisions.OwnerEditAcceptedIff` | backend/app/services/review_service.py:96-110 | An owner's edit goes through if and only if it is fresh and the row is not exported |
| `Decisions.RolesCompared` | backend/app/services/review_service.py:306-325 | A bid manager gets the verdict an owner gets, a viewer is always refused, and an SME is let through exactly where an owner would be, on a row assigned to them and not to decide |
| `Decisions.RefusalsComeInOrder` | backend/app/services/review_service.py:178-283 | Which refusal a caller is told, each as an equivalence: missing row, stale version with both versions, closed move, role |
| `Decisions.UngroundedReasons` | backend/app/services/review_service.py:328-359 | Which of the three reasons refuses an approval that is fresh, open and permitted, each as an equivalence |
| `Decisions.GenerationAcceptedIff` | backend/app/db/models/proposal.py:89-107 | The CHECK constraints take a generation if and only if its scores are missing or in the unit interval, an abstention has a reason and no text, and it is not born approved |
| `Decisions.EditLeaves` | backend/app/db/repositories/proposals.py:296-319 | An accepted edit keeps the generated text and the SME; an approval is taken back with its reviewer and time, any other status stands |
| `Decisions.FinalTextIs` | backend/app/db/models/proposal.py:201-204 | The text that ships is the edit, or, when that is missing or empty, the generated answer |
| `Interleaving.CommitIsAtomic` | backend/app/services/review_service.py:202-233 | A commit whose version guards and index pass has exactly the effect of the whole call run at commit time, and that call is accepted then |
| `Interleaving.DecisionCommitsIffStillValid` | backend/app/services/review_service.py:235-283 | A pending review or edit commits if and only if the whole call would be accepted at that moment; otherwise the call would report a version conflict |
| `Interleaving.RegenerationCommitsIffUndisturbed` | backend/app/db/repositories/proposals.py:133-179 | A pending regeneration commits if and only if the version it means to replace is still the current one and unchanged, or there still is none |
| `Interleaving.InterleavingsAreSequential` | backend/app/db/models/proposal.py:78-84 | Every interleaving of reads, commits and crashes leaves the table that the committed calls leave when run whole in commit order, each accepted; an aborted session changes nothing |
| `Interleaving.UncontendedCallTakesEffect` | backend/app/db/repositories/proposals.py:98-179 | A call that would be accepted, of any kind, begun and committed with nobody in between, commits, has its full effect and leaves the other sessions as they were |
| `Interleaving.EveryRunIsAnInterleaving` | backend/app/db/repositories/proposals.py:98-179 | The converse of the refinement: every run of accepted calls is the committed history of some interleaving that ends in the same table with nobody pending, an export committing the rows of its list that were approved |
| `Interleaving.OtherSessionsUntouched` | backend/app/db/repositories/proposals.py:98-179 | No step of a session begins, ends or changes what another session holds |
| `Interleaving.ConcurrentSignOff` | backend/app/services/review_service.py:306-359 | The sign-off invariant holds of every row of every interleaving |
| `Interleaving.FirstCommitWins` | backend/app/db/models/proposal.py:196-199 | Of two sessions both able to commit, the second still commits after the first if and only if they do not conflict: the first wrote a row the second holds, or both regenerate one requirement. A decision therefore survives a regeneration that supersedes its row; a conflicting commit changes nothing |
| `Interleaving.FirstRegenerationWins` | backend/app/db/repositories/proposals.py:133-151 | Of two sessions regenerating one requirement the second aborts although no version was bumped |
| `ProposalRepository.GeneratedProposal.constructor` | backend/app/db/repositories/proposals.py:149-178 | A new version starts unreviewed, current and linked to its predecessor |
| `ProposalRepository.GeneratedProposal.TouchReviewed` | backend/app/db/repositories/proposals.py:263-289 | The columns a review assigns, in place; notes and SME only when given |
| `ProposalRepository.GeneratedProposal.StoreEdit` | backend/app/db/repositories/proposals.py:296-319 | An edit keeps the generated original, bumps the version and clears the sign-off of an approved row |
| `ProposalRepository.GeneratedProposal.Ship` | backend/app/services/export_service.py:239-244 | Marking moves the status and the version and nothing else |
| `ProposalRepository.Repository.GetCurrent` | backend/app/db/repositories/proposals.py:19-31 | The row found is the current one of the requirement, and none is found only when there is none |
| `ProposalRepository.Repository.SaveGeneration` | backend/app/db/repositories/proposals.py:98-179 | In place: the outcome and the new table are those of the whole generation call, and the unique index still holds |
| `ProposalRepository.Repository.ApplyAction` | backend/app/services/review_service.py:178-233 | In place: the outcome and the new table are those of the whole review call, refusals included |
| `ProposalRepository.Repository.ApplyEdit` | backend/app/services/review_service.py:235-283 | In place: the outcome and the new table are those of the whole edit call, refusals included |
| `ProposalRepository.Repository.MarkExported` | backend/app/services/export_service.py:220-244 | The loop ships exactly the listed rows that are still approved |
| `ProposalRepository.Repository.RegisterRequirements` | backend/app/services/requirement_service.py:137-175 | The registration loop leaves the table and both counters of the registration function, with overwrite on or off |
| `ProposalRepository.Repository.CountApproved` | backend/app/db/repositories/proposals.py:236-261 | Signed off and total over current mandatory rows |
| `ProposalRepository.Repository.ListCurrent` | backend/app/db/repositories/proposals.py:181-207 | The page of current rows by reference that limit and offset select, and the number of current rows |
| `ProposalRepository.Repository.BlockingRefs` | backend/app/services/export_service.py:197-218 | The references named are the first ten outstanding mandatory ones |
| `ProposalRepository.Repository.Collect` | backend/app/services/export_service.py:139-195 | The gate runs before the bundle is built, with the same refusals and the same rows and ids to mark |
| `ProposalRepository.FirstIsUnique` | backend/app/services/export_service.py:211-212 | Because references are distinct, the order of a listing is determined |
| `ExportGate.GateOpensIffReady` | backend/app/services/review_service.py:158-175 | The gate opens if and only if progress reports ready, that is, there is a mandatory row and every one is signed off |
| `ExportGate.ProgressCounts` | backend/app/services/review_service.py:158-175 | Progress counts the current mandatory rows, those signed off and those outstanding, the last being exactly the current mandatory rows neither approved nor exported |
| `ExportGate.OpensAcrossIff` | backend/app/services/export_service.py:154-179 | With the two counts read at different moments, the gate opens if and only if the earlier total is not zero and the later approved count reaches it; a refusal gives the difference of those counts and the first ten references outstanding when they are listed |
| `ExportGate.RefusalNamesBlockers` | backend/app/services/export_service.py:172-179 | A refusal counts exactly the outstanding mandatory rows and names the first ten of their references in order, all when fewer, none twice |
| `ExportGate.OrderedMembers` | backend/app/db/repositories/proposals.py:196-204 | A listing holds each selected row exactly once |
| `ExportGate.OrderedInOrder` | backend/app/db/repositories/proposals.py:196-204 | A listing is in reference order |
| `ExportGate.PageHolds` | backend/app/db/repositories/proposals.py:181-207 | Position i of a page is position offset + i of the whole listing, and the page is full unless the listing ends |
| `ExportGate.ListSourceDocuments` | backend/app/services/export_service.py:273-285 | The loop collects the source documents function |
| `ExportGate.SourceDocumentsMembers` | backend/app/services/export_service.py:273-285 | A name is listed if and only if it is not empty and some citation carries it |
| `ExportGate.SourceDocumentsDistinct` | backend/app/services/export_service.py:273-285 | No name is listed twice |
| `ExportGate.SourceDocumentsInOrder` | backend/app/services/export_service.py:273-285 | Names stand in first-cited order: citing more never disturbs those already listed |
| `ExportGate.RowIsAnsweredIffSignedOff` | backend/app/services/export_service.py:247-260 | A row carries text if and only if it is signed off, and then its final text |
| `ExportGate.ResponseIsExactlySignedOff` | backend/app/exports/models.py:61-69 | On every reachable table the response rows of a bundle are exactly the listed signed-off rows, in order |
| `ExportGate.BundleTells` | backend/app/services/export_service.py:247-270 | Row i of the matrix tells, column by column, of the i-th row listed: requirement, mandatory flag, section, status, reviewer and time, citation count, source names, confidence, and whether the text that ships differs from the generated one; the rows to mark are the listed approved ones |
| `ExportGate.MatrixTextIsSignedOff` | backend/app/services/export_service.py:247-260 | A matrix row shows text exactly when its row is signed off |
| `ExportGate.ShippedTextWasApproved` | backend/app/services/export_service.py:154-195 | Each shipped text equals the text an owner or bid manager approved in one accepted call, and the row names that person |
| `ExportGate.MatrixInOrder` | backend/app/db/repositories/proposals.py:196-204 | The matrix is in reference order and names no requirement twice |
| `ExportGate.MatrixCompleteIffWithinLimit` | backend/app/services/export_service.py:181 | The matrix has one row per current requirement if and only if they number at most 10,000 |
| `ExportGate.EveryMandatoryRequirementShips` | backend/app/services/export_service.py:154-182 | With the total, the approved count and the listing read at three moments: within the limit an open gate ships every mandatory row of the listing, if and only if the gate would have opened on that listing's moment alone or nothing was mandatory then; read at one moment it always does |
| `ExportGate.RowShipsIffSignedOff` | backend/app/services/export_service.py:182-195 | Within the limit the response holds a current row, with its final text, if and only if the row is signed off |
| `ExportGate.AnsweredRowsHaveContent` | backend/app/exports/models.py:41-69 | The response document holds exactly the rows whose text has a character that is not whitespace |
| `ExportGate.CollectRace` | backend/app/services/export_service.py:154-182 | From any run with an open gate: an edit that revokes an approval between count and listing lets the bundle through without that mandatory row |
| `ExportGate.MarkingKeepsCounts` | backend/app/db/repositories/proposals.py:228-261 | Marking any set of rows changes neither count nor listing |
| `ExportGate.MarkingKeepsTheGateOpen` | backend/app/services/export_service.py:109-112 | Collect followed at once by mark keeps the counts and the gate, and a second collect yields the same rows with nothing left to mark |
| `ExportGate.ExportRace` | backend/app/services/export_service.py:97-112 | An edit and a new approval between collecting and marking leave an exported row whose text is not the one shipped |
| `ExportGate.ExportMatchesIff` | backend/app/services/export_service.py:97-112 | The exported row is the collected row, shipped, if and only if its version had not moved when it was marked, or had moved by one and the row was already exported |
| `ExportGate.UntouchedRowExportsShippedText` | backend/app/services/export_service.py:220-244 | A row whose version has not moved since it was collected is exported with the shipped text and its approver |
| `TextSplit.SplitJoins` | backend/app/ingestion/chunking/semantic_chunker.py:294 | Splitting on a separator and joining gives the text back |
| `TextSplit.PiecesHoldNoSeparator` | backend/app/ingestion/chunking/semantic_chunker.py:294 | No piece holds the separator |
| `TextSplit.SplitOn` | backend/app/ingestion/chunking/semantic_chunker.py:292-304 | The loop over the pieces computes the stripped parts, the last one only if it is not blank |
| `TextSplit.RecursiveSplit` | backend/app/ingestion/chunking/semantic_chunker.py:278-309 | The first separator that yields more than one part is used, else the text is cut hard |
| `TextSplit.MostSemanticSeparator` | backend/app/ingestion/chunking/semantic_chunker.py:62-64 | No separator of a more semantic level than the chosen one (paragraph, line, sentence, clause, comma, word) would have given two parts, and a hard cut means that none of them would |
| `TextSplit.HierarchyIsComplete` | backend/app/ingestion/chunking/semantic_chunker.py:62-64 | The hierarchy holds exactly the separators of those levels, Arabic ones included, in the order of their levels |
| `TextSplit.SplitReconstructs` | backend/app/ingestion/chunking/semantic_chunker.py:289-309 | Dropping from each unstripped part the tail carried into it and concatenating gives back the text less the separators it opens with; so the text itself if and only if it does not open with the chosen separator |
| `TextSplit.EveryPartOpensWithTheTailBefore` | backend/app/ingestion/chunking/semantic_chunker.py:297-300 | Each part after the first opens with the tail of the one before |
| `TextSplit.HardCutKeepsTheText` | backend/app/ingestion/chunking/semantic_chunker.py:308-309 | Hard cuts keep the text if and only if the overlap is at most the size |
| `TextSplit.CutLengths` | backend/app/ingestion/chunking/semantic_chunker.py:294-302 | No part outgrows the larger of the size and overlap plus separator plus longest piece, and none is closed while the longest piece would still have fitted |
| `TextSplit.PartLengths` | backend/app/ingestion/chunking/semantic_chunker.py:278-309 | The bound of each path: that one for separators, the size itself for hard cuts |
| `TextSplit.SeparatedPartsAreTrim` | backend/app/ingestion/chunking/semantic_chunker.py:303-306 | Returned separator parts are strips of raw parts, begin and end on content and are never blank |
| `TextSplit.NoPartIsEmpty` | backend/app/ingestion/chunking/semantic_chunker.py:303-309 | No returned part of a non-empty text is empty |
| `TextSplit.PlainSplitKeepsContent` | backend/app/ingestion/chunking/semantic_chunker.py:196 | Without overlap the content survives if and only if the chosen separator is whitespace |
| `TextSplit.SalvageSurvives` | backend/app/ingestion/chunking/semantic_chunker.py:278-309 | For every text, size and overlap: the returned parts hold, in order, the content of the text less the separators it opens with (with an overlap), of its pieces (without), or of the whole text (hard cuts) |
| `TextSplit.SalvagedWholeIff` | backend/app/ingestion/chunking/semantic_chunker.py:289-306 | What is sure to survive of a trimmed text, whatever its carried tails happen to repeat, is all of its content if and only if it does not open with its separator |
| `TextSplit.CarriedTailsCanSupplyTheStop` | backend/app/ingestion/chunking/semantic_chunker.py:297-302 | A text split on the separator it opens with: rebuilding its parts loses the separator, and yet the parts hold the whole text because a carried tail repeats it |
| `Chunker.ChunkElements` | backend/app/ingestion/chunking/semantic_chunker.py:95-147 | The loop with its buffer and flushes, the merge and the renumbering compute the chunks of the segments |
| `Chunker.SegmentsPartitionTheContent` | backend/app/ingestion/chunking/semantic_chunker.py:115-142 | Runs and tables concatenate to the input minus headers and footers |
| `Chunker.SegmentsAreWellCut` | backend/app/ingestion/chunking/semantic_chunker.py:127-140 | Only the first element of a run may be a heading or clause opener, a run is short of the size until its last element, and one run follows another only when full or when the next is opened by a heading or clause |
| `Chunker.TotalCounts` | backend/app/ingestion/chunking/semantic_chunker.py:139 | The size that closes a run is the number of characters of its elements, without the joins |
| `Chunker.RunTextOfMore` | backend/app/ingestion/chunking/semantic_chunker.py:243 | A further element stands in the run's text behind a blank line, or, without text, not at all |
| `Chunker.RunChunksSay` | backend/app/ingestion/chunking/semantic_chunker.py:239-275 | Chunk i of a run holds part i of its text and embeds its normalisation; kind, page and section come from the run, and only the first part opens a clause |
| `Chunker.WholeTableSays` | backend/app/ingestion/chunking/semantic_chunker.py:149-172 | A table within the ceiling is one chunk that stores the markup, or the text when there is none, and embeds the normalised text |
| `Chunker.TablePartsSay` | backend/app/ingestion/chunking/semantic_chunker.py:182-225 | A part of a split table embeds its own markup without tags, normalised, and without parseable rows part i of the text |
| `Chunker.PageIsTheFirstCitable` | backend/app/ingestion/chunking/semantic_chunker.py:247-254 | The page is that of the first element with a page and more than twenty characters, else the first element's |
| `Chunker.Flush` | backend/app/ingestion/chunking/semantic_chunker.py:110-113 | Flushing emits exactly the buffered run |
| `Chunker.SplitTableByRows` | backend/app/ingestion/chunking/semantic_chunker.py:179-236 | The loop over the rows computes the row groups behind a repeated header, or the character split when there are no rows |
| `Chunker.TablePartsCarryEveryRow` | backend/app/ingestion/chunking/semantic_chunker.py:199-233 | The parts carry every data row once and in order behind the header, none is empty, two or more rows fit the ceiling, and no part could have taken the next row |
| `Chunker.TableVanishesIffHeaderOnly` | backend/app/ingestion/chunking/semantic_chunker.py:199-233 | An oversized table yields no chunk if and only if its header is its only row |
| `Chunker.PartsFitIffRowsFit` | backend/app/ingestion/chunking/semantic_chunker.py:227-232 | Every part is within the ceiling, tags aside, if and only if every row fits beside the header |
| `Chunker.MergeUndersized` | backend/app/ingestion/chunking/semantic_chunker.py:312-348 | The loop that pops and appends computes the merge function |
| `Chunker.MergeIsAFixpoint` | backend/app/ingestion/chunking/semantic_chunker.py:312-348 | One pass leaves no mergeable pair, so a second changes nothing; a list is unchanged if and only if no adjacent pair is mergeable |
| `Chunker.ClustersAreContiguous` | backend/app/ingestion/chunking/semantic_chunker.py:325-347 | Merging cuts the chunks into contiguous clusters, none lost or reordered |
| `Chunker.MergeJoinsClusters` | backend/app/ingestion/chunking/semantic_chunker.py:325-347 | Each merged chunk is the join of one cluster |
| `Chunker.ClustersAreCoherent` | backend/app/ingestion/chunking/semantic_chunker.py:326-333 | Nothing is joined across a table or a page, nor a clause opener onto an earlier chunk, nor onto a chunk that has reached the minimum |
| `Chunker.CollapseFirst` | backend/app/ingestion/chunking/semantic_chunker.py:335-346 | A merged chunk keeps the page, position and clause flag of its first chunk and the kind of its last |
| `Chunker.CollapseSection` | backend/app/ingestion/chunking/semantic_chunker.py:341 | A merged chunk is filed under the first section one of its chunks names |
| `Chunker.MergeKeepsContent` | backend/app/ingestion/chunking/semantic_chunker.py:335-337 | Merging keeps all text in order, whitespace at the seams aside |
| `Chunker.ClusterTextIsTheJoin` | backend/app/ingestion/chunking/semantic_chunker.py:337 | Chunks that begin and end on content are joined to the character, a blank line at each seam |
| `Chunker.MergeKeepsEmbeddedText` | backend/app/ingestion/chunking/semantic_chunker.py:336 | Merging keeps everything that is embedded, in order, up to whitespace at the seams |
| `Chunker.ClusterEmbedsTheJoin` | backend/app/ingestion/chunking/semantic_chunker.py:336 | The embedded text of a merged chunk is the join, by blank lines, of the embedded texts of its cluster |
| `Chunker.NeighboursStandApart` | backend/app/ingestion/chunking/semantic_chunker.py:327-334 | After merging, two neighbours stand apart for one of the reasons the rule names: enough text, a table, a clause opener, another page |
| `Chunker.ClauseOpensAChunk` | backend/app/ingestion/chunking/semantic_chunker.py:83-87 | A chunk that opens a clause is the first of its cluster, and the merged chunk opens a clause too |
| `Chunker.TablesAreAtomic` | backend/app/ingestion/chunking/semantic_chunker.py:122-125 | The table chunks of the result are exactly those of the input's tables, in order, and a table within the ceiling is one chunk holding its whole body |
| `Chunker.ChunksKeepTheText` | backend/app/ingestion/chunking/semantic_chunker.py:95-147 | Of a document kept by its segments' chunks, the final chunks hold the text exactly, each piece once, if and only if each segment's own chunks do |
| `Chunker.WholeIsExact` | backend/app/ingestion/chunking/semantic_chunker.py:158-172 | A run or table within its limit is held exactly by its own chunks |
| `Chunker.ChunksHoldWhatSurvives` | backend/app/ingestion/chunking/semantic_chunker.py:95-147 | For every document, oversized runs and tables included, the returned chunks hold in order the content of everything that survives in its segments |
| `Chunker.NothingIsLost` | backend/app/ingestion/chunking/semantic_chunker.py:95-147 | When every segment is kept by its own chunks, the final chunks hold the content of the whole document in order, through merging and across all segments |
| `Chunker.RunSurvivesIff` | backend/app/ingestion/chunking/semantic_chunker.py:243-256 | What is sure to survive of a run is all of it if and only if it is not split on the separator it opens with |
| `Chunker.RunIsKept` | backend/app/ingestion/chunking/semantic_chunker.py:243-256 | The emitted chunks of a run that is not split on the separator it opens with hold all of its content in order |
| `Chunker.TableIsKeptIff` | backend/app/ingestion/chunking/semantic_chunker.py:158-233 | The emitted chunks of a table with nothing but whitespace outside its tags and rows hold all of its text in order if and only if it is within the ceiling or has a row beside its header |
| `Chunker.RowlessTableIsKeptIff` | backend/app/ingestion/chunking/semantic_chunker.py:182-197 | The emitted chunks of an oversized table stored as text, without parseable rows, hold all of it if and only if the separator chosen for it is whitespace |
| `Chunker.TablePartsHold` | backend/app/ingestion/chunking/semantic_chunker.py:199-233 | The parts of a split table hold, in order, the markup of the whole: its tags, its header and every row |
| `Chunker.OrdinaryDocumentsLoseNothing` | backend/app/ingestion/chunking/semantic_chunker.py:95-147 | A document loses nothing when no run opens with the separator it is split on and every oversized table has nothing outside its rows and a row beside its header, or no rows and a text split on whitespace |
| `Chunker.RunReconstructs` | backend/app/ingestion/chunking/semantic_chunker.py:243-256 | The unstripped parts of an oversized run give it back whole unless it opens with the separator it was split on, which a whitespace separator never does |
| `Chunker.IngestionReadsBack` | backend/app/ingestion/pipeline.py:143-189 | Retried and crashing ingestions of one upload, interleaved with those of other documents: if the last deleter completed, reading the document back gives all that can be read of its chunks, in order, if and only if they number at most 4,000, and exactly 4,000 of them beyond that; chunks that all have text come back each with its original text, index, page and section |
| `Indexing.VectorIndex.Upsert` | backend/app/ingestion/pipeline.py:247-259 | Batched upserting equals one upsert of all points |
| `Indexing.VectorIndex.Replace` | backend/app/ingestion/pipeline.py:165-177 | Delete, build the points, upsert in batches: the document's points are replaced |
| `Indexing.PutSlice` | backend/app/ingestion/pipeline.py:235-240 | Upserting a slice of an attempt's points changes exactly the ids of those chunk indexes |
| `Indexing.IndexConverges` | backend/app/ingestion/pipeline.py:165-177 | Any interleaving of any attempts, crashing anywhere: if the last deleter completed and uploads since used the same bytes, the index holds exactly the points for chunk indexes 0 to n - 1 |
| `Indexing.RetriesShareBytes` | backend/app/ingestion/pipeline.py:165-169 | Retries of one upload satisfy that condition |
| `Indexing.AttemptAloneCompletes` | backend/app/ingestion/pipeline.py:165-189 | An attempt left alone gets to delete, upsert all of its points and become ready, so no law of completed runs is empty |
| `Indexing.CrashLeavesAnyPrefix` | backend/app/ingestion/pipeline.py:247-259 | A worker may die with any part of the current batch applied, and exactly that part stays |
| `Indexing.BatchIsNext` | backend/app/ingestion/pipeline.py:247-259 | An upsert writes exactly the next 128 points, or what is left of them |
| `Indexing.EmptyParseDeletesNothing` | backend/app/ingestion/pipeline.py:143-147 | An attempt that parsed no chunks fails before it deletes anything |
| `Indexing.NoStalePoints` | backend/app/ingestion/pipeline.py:165-169 | Even when the last deleter crashed, no stale point of the document remains |
| `Indexing.OthersUntouched` | backend/app/ingestion/pipeline.py:261-268 | A step of an attempt never touches a point of another document |
| `Indexing.UnrelatedRunsTouchNothing` | backend/app/ingestion/pipeline.py:261-268 | A run in which no attempt works on a document leaves its points as they were |
| `Indexing.DifferentBytesLeaveStalePoints` | backend/app/ingestion/pipeline.py:193-240 | An input: an older attempt of two chunks leaves its second point behind a newer attempt of one chunk that completed |
| `Indexing.ConvergesIffBytesAgree` | backend/app/ingestion/pipeline.py:165-240 | From every index, in every interleaving with crashes, runs whose last deleter completed leave the document as that attempt parsed it if and only if all attempts on the document parsed the same chunks |
| `Indexing.LateUpsertsSurvive` | backend/app/ingestion/pipeline.py:247-259 | For any two attempts there is a run in which one completes after the last delete and the other's points all survive |
| `Indexing.RunsAreIsolated` | backend/app/ingestion/pipeline.py:261-268 | In every run a document's points and attempts fare exactly as in the run of its own attempts' steps alone |
| `Indexing.LoadChunks` | backend/app/services/requirement_service.py:192-244 | The scroll loop with its fallback to the normalised text, its skipping of empty points, its ceiling, the sort and the cut |
| `Indexing.ReadSays` | backend/app/services/requirement_service.py:219-232 | A point is read by its original text, one without by its normalised text, one without either not at all |
| `Indexing.ReadInPlace` | backend/app/services/requirement_service.py:219-232 | Points that have original text are read in order, one by one: that text, chunk index, page and section |
| `Indexing.ReadBackIsTheDocument` | backend/app/services/requirement_service.py:208-244 | Reading an indexed document back gives all that can be read of its chunks, in order, whatever order the store pages them in, if and only if they number at most 4,000; beyond that exactly 4,000 of them |
| `Extraction.BuildWindows` | backend/app/rag/chains/extract_requirements.py:324-346 | The loop computes the window slices |
| `Extraction.WindowsWellCut` | backend/app/rag/chains/extract_requirements.py:324-346 | Windows are contiguous slices from first chunk to last, each beginning with the last chunk of the one before and reaching further; three or more chunks fit the limit; a window closes only when the next chunk would overflow it |
| `Extraction.AdjacentChunksShareAWindow` | backend/app/rag/chains/extract_requirements.py:56-60 | Every two adjacent chunks occur together in some window |
| `Extraction.NoChunkInThreeWindows` | backend/app/rag/chains/extract_requirements.py:335-338 | No chunk occurs in three windows |
| `Extraction.EveryItemAccountedFor` | backend/app/rag/chains/extract_requirements.py:226-278 | Filed, dropped and repeated items add up to all items, and the filed keys are distinct |
| `Extraction.FiledEntriesAreFinal` | backend/app/rag/chains/extract_requirements.py:262-266 | A filed entry never changes, and keys keep their order of filing |
| `Extraction.FateIs` | backend/app/rag/chains/extract_requirements.py:226-264 | An item is dropped if and only if it lacks a text, a span or a place in its window, in that order of reasons; else it is filed or repeats a key filed earlier |
| `Extraction.FiledSaysWhatWasProposed` | backend/app/rag/chains/extract_requirements.py:262-278 | Column by column, a filed entry says what was proposed, at the place its span was located; it is mandatory if and only if the model said so or a modal marker occurs in its span or text |
| `Extraction.LocatedIff` | backend/app/rag/chains/extract_requirements.py:356-383 | A span is located if and only if its normalised text is not empty and occurs in the window's; then at the first chunk that holds it, or at the first of the window when no single chunk does |
| `Extraction.SameKeyIff` | backend/app/rag/chains/extract_requirements.py:416-417 | Two items share a key if and only if their normalised references are equal and their normalised texts agree on the first 200 characters, for references without a bar |
| `Extraction.EntryHasAnOrigin` | backend/app/rag/chains/extract_requirements.py:262-278 | Each entry was filed by the first item with its key |
| `Extraction.RepeatsPointBack` | backend/app/rag/chains/extract_requirements.py:262-264 | A repeat repeats an item filed earlier |
| `Extraction.FiledIsAnchored` | backend/app/rag/chains/extract_requirements.py:356-383 | A filed entry's normalised span occurs in its window's text and its anchor is a chunk of that window |
| `Extraction.EveryRequirementIsInTheDocument` | backend/app/rag/chains/extract_requirements.py:181-224 | Over the windows of a document, every filed requirement quotes one window of it and is anchored to one of its chunks |
| `Extraction.OrderIsTotalPreorder` | backend/app/rag/chains/extract_requirements.py:420-430 | Page, then chunk, then reference orders all requirements |
| `Extraction.OrderReads` | backend/app/rag/chains/extract_requirements.py:420-430 | A smaller page comes first, then a smaller chunk index, then a smaller reference; what has no page or chunk comes last |
| `Sorting.SortedIsStable` | backend/app/rag/chains/extract_requirements.py:213 | Sorting keeps tied elements in the order they had |
| `Extraction.Run` | backend/app/rag/chains/extract_requirements.py:181-224 | The result is a permutation of the filed entries sorted by page, chunk and reference, tied entries in the order of filing, with the drops beside it |
| `Registration.RegistrationIsARun` | backend/app/services/requirement_service.py:137-175 | Registration is a run of accepted generations, with overwrite on or off, so all laws of runs hold across it |
| `Registration.RegistrationOnlyAdds` | backend/app/services/requirement_service.py:141-149 | With overwrite off every earlier row is untouched, and a requirement has a current row if and only if it had one or is listed |
| `Registration.RegistrationCounts` | backend/app/db/repositories/proposals.py:236-261 | The approved count stands and the mandatory total rises by the number of new references whose first listing is mandatory |
| `Registration.RegistrationAccounting` | backend/app/services/requirement_service.py:137-175 | Created and skipped add up to the list, each listed reference ends with exactly one current row, earlier rows are untouched |
| `Registration.NewRequirementClosesTheGate` | backend/app/services/export_service.py:154-179 | A newly registered mandatory requirement closes the export gate |
| `Registration.CurrentNeverVanishes` | backend/app/db/repositories/proposals.py:133-179 | A requirement that has a current row has one for the rest of the run |
| `Registration.LateRegistrationIsAtomic` | backend/app/services/requirement_service.py:137-175 | A registration that gets through while other sessions commit, each iteration with its two SELECTs, has the effect and tallies of registering at commit time if and only if overwrite is on or no requirement turned up between the two SELECTs of its iteration |
| `Registration.LateRegistrationIsARun` | backend/app/services/requirement_service.py:137-175 | Whatever its SELECTs saw, a registration either aborts whole or leaves the table a run of accepted inserts leaves, with created and skipped adding up to the list |
| `Registration.QuietRegistrationCommits` | backend/app/services/requirement_service.py:137-175 | A registration during which no other session commits gets through, repeated references included, with the table and tallies of the registration function |
| `Registration.RegistrationRace` | backend/app/services/requirement_service.py:142-152 | An input with overwrite off: a draft committed between the two SELECTs of an iteration is superseded by an empty placeholder, where registering afterwards would have skipped it |
| `Registration.LateStepCommitsIff` | backend/app/db/repositories/proposals.py:133-179 | An iteration gets through if and only if it skips, or the version its second SELECT found is still the current one and unchanged since the session first read it, or there was none and still is none |
| `Registration.FirstListedStands` | backend/app/services/requirement_service.py:141-149 | Under a new reference the requirement listed first is the one that stands |
| `Registration.NewReferenceStartsUnanswered` | backend/app/services/requirement_service.py:152-174 | A new reference starts as version 1, a draft with the wording of the requirement listed first under it and no answer text, citation or predecessor |
| `Registration.RegisteredRowIsUnanswered` | backend/app/services/requirement_service.py:152-174 | A registered row carries the requirement's own text, section and mandatory flag, and neither answer, citations, scores nor a reason |
| `Registration.NoMandatoryItemDropsOutIff` | backend/app/rag/chains/extract_requirements.py:65-69 | Of a document read into any workspace the export gate counts every mandatory reference if and only if each was counted before or, being new, is listed as mandatory first |
| `Registration.CountedAsBefore` | backend/app/services/requirement_service.py:141-149 | A reference the workspace already had is counted exactly as it was before |
| `Registration.OptionalHidesMandatory` | backend/app/services/requirement_service.py:141-149 | An input: an optional item listed first hides a mandatory one with the same reference from the gate |
| `Grounding.MapCitations` | backend/app/rag/grounding/citation_mapper.py:39-119 | Both loops compute text, citations, uncited segments and rejections of the mapping function |
| `Grounding.ResolvesOnlyToSupplied` | backend/app/rag/grounding/citation_mapper.py:122-156 | A citation resolves if and only if it has text and names a supplied source, or names none and its index is in range; to a chunk of that source, or to the chunk at that index |
| `Grounding.RejectedIffUnresolved` | backend/app/rag/grounding/citation_mapper.py:109-112 | The validation backstop is unreachable: a citation is rejected if and only if it does not resolve |
| `Grounding.EveryCitationAccountedFor` | backend/app/rag/grounding/citation_mapper.py:72-112 | Kept, repeated and rejected citations add up to all of them |
| `Grounding.KeptAreEvidenced` | backend/app/rag/grounding/citation_mapper.py:85-107 | Every kept citation is built from a supplied chunk that the API's own citation names, by source or else by that chunk's index, and quotes its words |
| `Grounding.KeptCitationsSay` | backend/app/rag/grounding/citation_mapper.py:85-107 | Column by column, a kept citation says what the chunk its API citation means says: ids, document name and section, the page unless below 1, the score clamped to the unit interval, and the stripped quoted words |
| `Grounding.KeptIffFirstOfItsPassage` | backend/app/rag/grounding/citation_mapper.py:76-112 | A citation is kept if and only if it resolves and no earlier one resolves to the same chunk with the same first 120 characters; it is a repeat if one does, and rejected if it does not resolve |
| `Grounding.KeptInCitedOrder` | backend/app/rag/grounding/citation_mapper.py:72-112 | Citations are kept in the order they are made |
| `Grounding.KeptAreDistinct` | backend/app/rag/grounding/citation_mapper.py:82-87 | No two kept citations share chunk and opening words |
| `Grounding.SeenMeansKept` | backend/app/rag/grounding/citation_mapper.py:82-87 | A repeat repeats a passage that is kept |
| `Grounding.UnsupportedShorter` | backend/app/rag/grounding/verifier.py:165-172 | The unsupported sentences are exactly the claims found in one uncited segment |
| `Grounding.ReportIsWellFormed` | backend/app/rag/grounding/verifier.py:60-153 | Coverage is a share, supported and unsupported add up to the claims, and an abstention is a declared gap without rejections |
| `Grounding.VerifiedMeansCovered` | backend/app/rag/grounding/verifier.py:60-153 | VERIFIED if and only if nothing is rejected, something is kept, no gap is declared and the supported share reaches the threshold; an answer without claims passes only a threshold of zero |
| `Grounding.PartialIff` | backend/app/rag/grounding/verifier.py:60-153 | An answer that gets as far as its claims is PARTIAL if and only if it is cited and some, but less than the required share, of its claims is supported |
| `Grounding.ReportedCoverageIsShare` | backend/app/rag/grounding/verifier.py:60-153 | The reported coverage times the number of claims is the number supported, and 0 without claims |
| `Grounding.UnscoredReports` | backend/app/rag/grounding/verifier.py:60-153 | What is reported of an answer that does not get that far: the verdict, coverage and violation flag of a rejection, an empty answer, a declared gap and a half-declared one |
| `Grounding.SpanningClaimIsVerified` | backend/app/rag/grounding/verifier.py:60-172 | Blocks as the API may return them whose mapped answer is VERIFIED with coverage 1 although its only claim lies wholly in two uncited blocks |
| `Grounding.UncitedClaimsAreFlaggedIffApart` | backend/app/rag/grounding/verifier.py:156-172 | Every answer with a given pattern of cited and uncited text blocks has all claims of at least 25 characters made in uncited text alone held against it if and only if no two neighbouring text blocks are uncited |
| `Grounding.NeighboursCanBeHarmless` | backend/app/rag/grounding/verifier.py:165-172 | For a single list of texts the pattern's condition is not necessary: two uncited neighbours whose joined text is a third uncited block hide nothing |
| `Grounding.ConfidenceInUnit` | backend/app/rag/grounding/verifier.py:175-199 | Confidence is between 0 and 1 |
| `Grounding.ConfidenceIsMonotone` | backend/app/rag/grounding/verifier.py:175-199 | For a fixed verdict confidence never falls as coverage or retrieval score rises |
| `Grounding.ConfidenceIsWeighed` | backend/app/rag/grounding/verifier.py:175-199 | Retrieval weighs 0.55 and coverage 0.45, PARTIAL keeps 0.7 of that, UNVERIFIED a quarter of the coverage, an abstention nothing |
| `Grounding.ScoresAreClamped` | backend/app/rag/grounding/verifier.py:175-199 | Retrieval scores beyond the unit interval count as its ends |
| `Grounding.WeakerVerdictScoresLower` | backend/app/rag/grounding/verifier.py:175-199 | On the same evidence a weaker verdict never scores higher |
| `Answering.AnswerShape` | backend/app/rag/chains/answer_requirement.py:108-213 | The chain declines, with a reason and neither text nor citations, exactly when nothing was found, the best score is below the threshold or a gap is declared with no citation rejected; else it hands over a draft that passed the gate and cites the supplied chunks the API named |
| `Answering.AnswerSays` | backend/app/rag/chains/answer_requirement.py:271-302 | Every result is filed under its own requirement, and a draft stores its own report's coverage as coverage and its confidence as confidence |
| `Answering.ReasonNamesTheGate` | backend/app/rag/chains/answer_requirement.py:108-213 | The stored reason names the gate that stopped the chain |
| `Answering.AnswersAreAlwaysStored` | backend/app/rag/chains/answer_requirement.py:271-302 | No result of the chain violates a CHECK constraint |
| `Answering.NothingShipsWithoutEvidenceOrAName` | backend/app/services/export_service.py:154-195 | Every row of a response document was approved by a named owner or bid manager on that text, after it was inserted at a position of the run whose recorded request passed the threshold and supplied every cited chunk; or it has no citation and was vouched for in writing |

## Left out

- PostgreSQL, Qdrant, Redis, S3 and the model and embedding services: only their contracts are kept (version-guarded UPDATE, partial unique index, upsert by id, delete by document). A version conflict is modelled as an abort; isolation levels below that are not.
- Registration.LateRegister: the SELECTs of every iteration are interleaved one by one, but all writes of the transaction go in together at its commit; row locks taken on the way are not modelled.
- Proposals.NewRow: language, model and prompt identifiers, token counts, retrieved chunk ids, the grounding verdict and trace ids are not columns of the model.
- Chunker.Chunk: bounding boxes, language and metadata are not carried; normalisation, the clause and row patterns and tag removal are arbitrary functions, as is sentence splitting in `Grounding.Verify`.
- Chunker.RunIsKept: gives a sufficient condition; whether the chunks of a run that opens with its separator hold it all the same depends on what the carried tails repeat, and only `SplitReconstructs` is exact about such a run.
- Chunker.RunReconstructs: is about parts before they are stripped and merged; what the returned chunks keep of a run is in `ChunksHoldWhatSurvives`.
- Indexing.ReadBackIsTheDocument: past 4,000 chunks it does not say which 4,000 come back, since the code keeps whichever the store paged out first.
- Indexing.PointId: `uuid5` is taken to be injective, and the digest behind synthetic references to be any function.
- Extraction.DedupeKey: is not injective, so two different items may share a key, and two filed requirements a reference; registration then skips or supersedes the second.
- Answering.Recorded: fixes one evidence threshold for all runs of the chain, as its callers do; an override per call is left out.
- Grounding.Confidence: is over the reals, without the final rounding to four places; so are coverage and the threshold.
- Answering.Abstention: reason texts that embed scores are fixed strings.
- ExportGate.ToRow: the approver's id stands for the display name looked up beside it.
- The text that tells an empty workspace from one without mandatory requirements, the review queue, `history` as a query, export rendering and file names.
- Soft deletion of proposals and user deletion: no code path performs them on proposals.
- Authentication, rate limiting, row-level security, the job queue and its time limits, request validation, pagination other than the two caps above, and the frontend.
