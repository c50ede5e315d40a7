# Verified model of the agent platform's hard core

This project models six parts of the platform and proves what they are there for. All
statements are for all inputs, all runs or all interleavings.

* **Commercial truth.** A Markdown price list is split into lines and scanned for pipe tables
  (`Lines`, `PipeRows`, `MarkdownTables`), rows become acquisition rows, fact candidates and
  review issues (`PriceAcquisition`, `AcquisitionLaws`, `CandidateLaws`), facts from several
  sources are grouped by identity, conflicts are found and settled by policy (`CommercialTruth`,
  `ResolutionLaws`), a retrieval surface is emitted (`RetrievalSurface`) and reported on
  (`TruthReview`), and price queries are answered over published facts (`PriceKnowledge`,
  `LookupLaws`, `QueryNormalization`). `Text` holds the string operations, `Seqs` the list
  comprehensions.
* **Runtime guards.** Thread slots and the request window as protocols over a shared cache,
  one atomic step per cache call, with any number of messages in flight (`ThreadSlots`,
  `RateWindow`, on `Runs`), and the guard methods as one caller runs them (`RuntimeGuards`).
* **Evidence planning.** Ranking by source authority (`StableSort`, `SourceAuthority`) and the
  decision whether an answer may be given (`EvidencePlan`, `EvidenceLaws`).
* **Technical incidents.** Failure counting and ticket creation over whole conversations
  (`TechnicalIncidents`).
* **Message routing** between agent and manager (`Routing`).
* **Language detection and vote** (`LanguagePolicy`).

Code that updates state or lists in loops is a class or a method with loop invariants, proved
equal to a specification function; the laws are lemmas about those functions.

What a pure operation answers is also stated apart from its definition, by positions in its
inputs and by the words of names and values: `LookupLaws` for a price lookup, `CandidateLaws` for
an acquisition, `ResolutionLaws` for identities, signatures and policies, and `EvidenceLaws` for
the preferred item and the whole decision.

Statements about interleaved slot and rate checks assume a real cache that neither fails nor
expires keys during the run and a fixed limit; the lock is a parameter where it matters. What a
failing cache call leaves behind is stated for the guard methods one caller runs.

Properties one might expect that the code does not have in general, each with its exact
condition and a case in which it fails:

* the limit bounds the admitted threads of every run if and only if messages take the thread
  lock (`ThreadSlots.LockIsEssential`);
* under the lock nobody is refused a slot if and only if the threads with a message in flight never
  outnumber the limit (`ThreadSlots.RefusalIffCrowded`); one more and all of them can be refused
  (`ThreadSlots.MutualRefusal`);
* a refused acquisition leaves the cache as it was if and only if the thread has a slot key, or
  `exists` or `sadd` failed, or `set` failed and the thread was in the active set before, or no call failed
  and it was not (`RuntimeGuards.RefusalCleanIff`, `RuntimeGuards.LeftoverMemberRemoved`);
* a refused thread gets in on its next attempt if and only if it had a slot key, or a call after
  `set` failed and left it one, or there is room for it; with a slot key it gets in uncounted
  (`RuntimeGuards.RetryAdmittedIff`);
* a number bounds the allowed requests of any sixty seconds if and only if it is at least twice the
  limit (`RateWindow.RateSpanIff`);
* a price query may be replaced by its normal form if and only if no two effective filters ask for
  different values of one slot (`QueryNormalization.InterchangeableIffConsistent`,
  `QueryNormalization.SpellingsConflict`);
* adding evidence keeps READY if and only if review of contradictions is not requested or the
  useful items do not contradict each other (`EvidencePlan.MoreEvidence`,
  `EvidencePlan.ContradictionBlocks`);
* LLM reasoning leaves the decision alone if and only if some item is authoritative, a
  clarification is outstanding, or there is no evidence (`EvidencePlan.LlmIrrelevantIff`); on LLM
  reasoning alone it changes the decision on the evidence (`EvidencePlan.OnlyLlm`);
* what the graph is asked is independent of the session cache if and only if every message meets an
  active thread or a manual one with its manager in the database
  (`Routing.ConversationIgnoresCacheIff`), and a message is stored exactly once if and only if it does
  not meet a closed or unknown thread with a session naming no chat (`Routing.RecordedOnceIff`,
  `Routing.ClosedThreadRecordsTwice`);
* an assigned thread's notice is the one the database asks for if and only if the cached session is gone,
  or leads to the same chat and user, or neither names a chat and nobody is notified
  (`Routing.RecipientCurrentIff`, `Routing.OtherManagerNotified`);
* a thread gets at most one incident ticket if and only if no turn could open one after another
  could with none on record (`TechnicalIncidents.OneTicketIff`, `TechnicalIncidents.LostSaveDuplicates`);
  `TechnicalIncidents.RunExact` gives the number of tickets of any run.

## Model

| member | source | states |
|---|---|---|
| Text.NormalizeValueIdempotent | src/domain/commercial/pricing.py:145-146 | normalising a slot value twice is normalising it once |
| Text.NormalizeNameIdempotent | src/domain/commercial/pricing.py:141-142 | normalising a slot name twice is normalising it once |
| Text.NormalizeValueEmpty | src/domain/commercial/pricing.py:145-146 | a normalised value is empty exactly for blank text |
| Text.SameNormalValueIff | src/domain/commercial/pricing.py:145-146 | two values normalise alike if and only if they have the same words up to case |
| Text.SameNormalNameIff | src/domain/commercial/pricing.py:141-142 | two slot names normalise alike if and only if they have the same words up to case and underscores |
| PipeRows.ParsedClean | src/infrastructure/commercial_price/markdown_acquisition_adapter.py:284-295 | parsed cells are trimmed and pipe-free, at least one has text |
| PipeRows.RowIff | src/infrastructure/commercial_price/markdown_acquisition_adapter.py:284-295 | a line is a table row if and only if it holds a pipe and a character that is neither a pipe nor white space |
| PipeRows.ParseLine | src/infrastructure/commercial_price/markdown_acquisition_adapter.py:285-295 | any line written as cells with any spacing between pipes, with or without outer pipes, gives those cells trimmed |
| PipeRows.ParseRendered | src/infrastructure/commercial_price/markdown_acquisition_adapter.py:284-295 | a row of trimmed pipe-free cells with some text, printed with or without its leading and trailing pipe and with any white space around, reads back if and only if every empty outer cell has its pipe and a single cell has one; so two cells or more with text at both ends do in all four forms |
| PipeRows.ParseRenderParse | src/infrastructure/commercial_price/markdown_acquisition_adapter.py:284-295 | for any table line, printing the parsed cells and parsing again changes nothing |
| PipeRows.PipeFreeIsNoRow | src/infrastructure/commercial_price/markdown_acquisition_adapter.py:285-287 | a line without a pipe is no table line |
| PipeRows.DelimiterCellShape | src/infrastructure/commercial_price/markdown_acquisition_adapter.py:298-301 | a cell is a delimiter exactly when it is an optional colon, at least three hyphens, an optional colon |
| PipeRows.SeparatorRowIff | src/infrastructure/commercial_price/markdown_acquisition_adapter.py:298-301 | a row of parsed cells is a delimiter row exactly when every cell has that shape |
| PipeRows.FitRow | src/infrastructure/commercial_price/markdown_acquisition_adapter.py:262-264 | padding a short row and cutting a long one gives the header's width, with the row's own cells where it has them and empty ones elsewhere |
| PipeRows.FitRowFixed | src/infrastructure/commercial_price/markdown_acquisition_adapter.py:262-264 | fitting changes nothing exactly for a row of the header's width, and nothing the second time |
| MarkdownTables.TablesFromLines | src/infrastructure/commercial_price/markdown_acquisition_adapter.py:247-281 | the nested scanning loops terminate and compute the scan function |
| MarkdownTables.ScanIsCover | src/infrastructure/commercial_price/markdown_acquisition_adapter.py:247-281 | for arbitrary lines: maximal tables, disjoint increasing spans, and every header/separator/row triple's first line is covered, also behind a header without rows |
| MarkdownTables.CoverUnique | src/infrastructure/commercial_price/markdown_acquisition_adapter.py:247-281 | only one list of tables has those properties |
| MarkdownTables.ScanCharacterised | src/infrastructure/commercial_price/markdown_acquisition_adapter.py:247-281 | a list of tables is the scan of a text if and only if it is its cover |
| MarkdownTables.ScannedTableClean | src/infrastructure/commercial_price/markdown_acquisition_adapter.py:247-295 | every scanned table is rectangular, with trimmed pipe-free cells and at least one row |
| MarkdownTables.ScanInvertsRender | src/infrastructure/commercial_price/markdown_acquisition_adapter.py:247-301 | scanning a printed document returns exactly the printed tables with headers, fitted rows and start lines, for any delimiter rows, ragged rows, outer pipes present or not, and any preamble |
| MarkdownTables.TextInvertsPrint | src/infrastructure/commercial_price/markdown_acquisition_adapter.py:247-301 | and so does splitting and scanning the printed text, character by character, with any line ends, when no cell contains a line break |
| MarkdownTables.PrintsWithLineFeeds | src/infrastructure/commercial_price/markdown_acquisition_adapter.py:247-301 | every such document without line breaks in its cells has a text, the one with line feeds |
| Lines.SplitJoined | src/infrastructure/commercial_price/markdown_acquisition_adapter.py:248 | splitting gives back any break-free lines joined with any line ends, a carriage return with its line feed counting as one |
| Lines.JoinSplit | src/infrastructure/commercial_price/markdown_acquisition_adapter.py:248 | and every text is its lines joined with some line ends |
| PriceAcquisition.ReadColumnRoles | src/infrastructure/commercial_price/markdown_acquisition_adapter.py:304-326 | the roles of the recognised columns in order; raises exactly when a recognised column has a blank name, whatever the others are called |
| PriceAcquisition.ReadFields | src/infrastructure/commercial_price/markdown_acquisition_adapter.py:391-418 | the loop maps the filled-in columns in order; a role is listed with a value exactly when a column of that role has that text, and every field names the row |
| PriceAcquisition.FieldOrigin | src/infrastructure/commercial_price/markdown_acquisition_adapter.py:391-418 | a field is listed if and only if it is read from a recognised column with text in the row |
| PriceAcquisition.CollectTables | src/infrastructure/commercial_price/markdown_acquisition_adapter.py:238-244 | the tables of all units in order |
| PriceAcquisition.AcquireRow | src/infrastructure/commercial_price/markdown_acquisition_adapter.py:176-223 | one row extends the lists by its share: the row, its fields, and its fact or an issue |
| PriceAcquisition.AcquireTable | src/infrastructure/commercial_price/markdown_acquisition_adapter.py:137-223 | one table extends the lists by its column roles, table issues and the shares of its rows, or raises |
| PriceAcquisition.Acquire | src/infrastructure/commercial_price/markdown_acquisition_adapter.py:106-235 | the whole acquisition is the concatenation of all shares, or raises |
| PriceAcquisition.TablesHaveRows | src/infrastructure/commercial_price/markdown_acquisition_adapter.py:238-281 | every collected table has a data row and comes from one of the units |
| PriceAcquisition.QuotesConcat | src/infrastructure/commercial_price/markdown_acquisition_adapter.py:635-639 | wherever quoted parts are divided, a bar stands between the two joined halves |
| AcquisitionLaws.FactValid | src/domain/commercial/price_acquisition.py:187-206 | a candidate made from a row meets every demand of the candidate constructor, needs review, and refers to that row and its unit |
| AcquisitionLaws.RowShares | src/infrastructure/commercial_price/markdown_acquisition_adapter.py:176-223 | each data row gives one acquisition row and exactly one of a candidate or an issue naming it |
| AcquisitionLaws.RowsAccountedFor | src/infrastructure/commercial_price/markdown_acquisition_adapter.py:106-235 | whenever acquire returns, rows are those named by candidates plus those named by row-level issues, with multiplicity |
| AcquisitionLaws.ResultGrounded | src/domain/commercial/price_acquisition.py:250-275 | whenever acquire returns, units belong to the document, rows and roles name its units, and candidates are valid and refer to a row and unit of the result |
| AcquisitionLaws.RowsComplete | src/infrastructure/commercial_price/markdown_acquisition_adapter.py:137-223 | the acquisition rows are the data rows of all tables of all units, one each and in order |
| CandidateLaws.CellRead | src/infrastructure/commercial_price/markdown_acquisition_adapter.py:344-388 | a row keeps its place in the table; read under a header it gives that header's cell, or that of the last column of the same name |
| CandidateLaws.FactIs | src/infrastructure/commercial_price/markdown_acquisition_adapter.py:421-494 | the fact made from a row is the expected one: item, price and unit are the cells of the first columns of those roles, an empty unit cell is "item", without a unit column the price text tells; project, document, row and quote are the job's and the row's, without variant, aliases and conditions |
| CandidateLaws.ResultExact | src/infrastructure/commercial_price/markdown_acquisition_adapter.py:106-235 | a result contains exactly the recognised columns and missing-column issues of each table's header, and the fields and the expected candidate or else the issue of each row; without a table one issue naming nothing |
| CandidateLaws.RowAnswered | src/infrastructure/commercial_price/markdown_acquisition_adapter.py:176-223 | every row of every table has its expected candidate, or else its issue, in the result |
| CandidateLaws.PrintedRowsAcquired | src/infrastructure/commercial_price/markdown_acquisition_adapter.py:106-301 | end to end: acquiring a printed text yields row for row the rows of the printed tables |
| CandidateLaws.PrintedFactAcquired | src/infrastructure/commercial_price/markdown_acquisition_adapter.py:106-494 | end to end: every printed row gives the candidate expected of its printed cells, or else the row's issue |
| AcquisitionLaws.EachRowOnce | src/infrastructure/commercial_price/markdown_acquisition_adapter.py:176-223 | with distinct units and collision-free row ids, each row is named by exactly one candidate or issue |
| AcquisitionLaws.AcquisitionReturns | src/infrastructure/commercial_price/markdown_acquisition_adapter.py:106-235 | acquire returns if and only if the document id is not blank, the units belong to it, all columns are named and no price that is read raises |
| AcquisitionLaws.IngestionExact | src/application/services/commercial_price_ingestion_service.py:65-96 | every candidate that is not rejected gives one review fact, in order, carrying all it says |
| AcquisitionLaws.AcquiredIngested | src/application/services/commercial_price_ingestion_service.py:65-96 | of an acquisition just made, that is every candidate |
| AcquisitionLaws.IngestionInvisible | src/application/services/commercial_price_ingestion_service.py:65-96 | interleaving the review facts of any acquisition result into any facts leaves every lookup unchanged |
| PriceKnowledge.LookupGrounded | src/domain/commercial/price_knowledge.py:316-376 | every fact in an answer is published, of the project and item, and agrees with the filters unless a slot is missing |
| PriceKnowledge.LookupResultValid | src/domain/commercial/price_knowledge.py:287-307 | every lookup result meets the result constructor's invariants |
| PriceKnowledge.UnpublishedInvisible | src/domain/commercial/price_knowledge.py:310-376 | interleaving any unpublished facts leaves every lookup unchanged |
| LookupLaws.NamedIff | src/domain/commercial/price_knowledge.py:239-247 | a fact is matched if and only if the query has words and they are those of its name or of an alias |
| LookupLaws.AgreesIff | src/domain/commercial/price_knowledge.py:249-258 | filters match if and only if each that names a slot and a value has that value as the last one given to the slot in the fact's variant |
| LookupLaws.MissingExact | src/domain/commercial/price_knowledge.py:331-340 | the missing slots are the required ones that are named and not given by a filter, in order |
| LookupLaws.LookupFacts | src/domain/commercial/price_knowledge.py:316-376 | the facts of every answer by position: nothing speaks, all that speak with the slots to ask for, or exactly those that speak and fit, in order and with multiplicity |
| LookupLaws.LookupDecides | src/domain/commercial/price_knowledge.py:316-376 | with no slot missing: not found iff none fits, conflict iff two positions do, for the manager iff exactly one does and it is on request, answerable iff exactly one does and it is not |
| QueryNormalization.NormalizedSameAnswer | src/domain/commercial/price_knowledge.py:239-376 | with consistent filters, the normalised query has the same decision, facts and missing slots |
| QueryNormalization.ConflictingFiltersDiffer | src/domain/commercial/price_knowledge.py:249-258 | with inconsistent filters a fact exists that answers the normal form and not the query |
| QueryNormalization.SpellingsConflict | src/domain/commercial/pricing.py:141-146 | two spellings of one slot with two values are different keys and inconsistent filters |
| QueryNormalization.SizesConflict | src/domain/commercial/price_knowledge.py:249-258 | a dictionary with distinct keys and inconsistent filters exists |
| QueryNormalization.InterchangeableIffConsistent | src/domain/commercial/price_knowledge.py:239-376 | a query and its normal form answer alike over all valid facts if and only if the filters are consistent |
| QueryNormalization.DistinctSlotsConsistent | src/domain/commercial/price_knowledge.py:249-258 | filters are consistent when no two keys normalise to one slot |
| CommercialTruth.GroupByIdentity | src/domain/commercial/commercial_truth.py:286-288 | the dictionary holds each identity's snapshots, in order, under keys in order of first appearance |
| CommercialTruth.DetectConflicts | src/domain/commercial/commercial_truth.py:283-301 | the grouping loops compute the list of conflict groups |
| CommercialTruth.ConflictsPairwise | src/domain/commercial/commercial_truth.py:283-301 | an identity is reported if and only if two of its snapshots differ in signature, with all its snapshots |
| CommercialTruth.ConflictsDistinct | src/domain/commercial/commercial_truth.py:283-301 | no identity is reported twice |
| CommercialTruth.ResolveByNewerSource | src/domain/commercial/commercial_truth.py:382-420 | the dating loop computes the resolution by newest source, error cases included |
| CommercialTruth.ResolvedIffUnanimous | src/domain/commercial/commercial_truth.py:304-433 | a conflict is resolved if and only if all snapshots of maximal rank or date agree; the selected one is maximal |
| CommercialTruth.ResolveOrderFree | src/domain/commercial/commercial_truth.py:304-433 | resolution status and selected value depend only on which snapshots are there |
| CommercialTruth.PermutationInvariant | src/domain/commercial/commercial_truth.py:283-433 | permuting the input keeps conflicted identities, resolution status and selected value |
| ResolutionLaws.HigherAuthorityExact | src/domain/commercial/commercial_truth.py:259-379 | under higher authority the first snapshot of the highest authority present is selected if all of that authority agree, live above primary above supporting above unknown, a stated authority before the source kind's; otherwise it is a tie |
| ResolutionLaws.NewerSourceExact | src/domain/commercial/commercial_truth.py:382-420 | under newer source the first of the latest dated snapshots is selected if they agree, undated ones never; without a date none is |
| ResolutionLaws.ManualReviewExact | src/domain/commercial/commercial_truth.py:304-314 | left to a person nothing is selected |
| ResolutionLaws.SameIdentityIff | src/domain/commercial/commercial_truth.py:104-111 | two facts share an identity if and only if project, words of item and unit, and the variants' last values per slot are the same |
| ResolutionLaws.SameSignatureIff | src/domain/commercial/commercial_truth.py:136-146 | two facts share a signature if and only if kind, amount, range, words of the price text and the stated conditions, counted, are the same |
| RetrievalSurface.SurfaceFacts | src/domain/commercial/commercial_truth.py:323-350 | the loops compute the surface function |
| RetrievalSurface.SelectWinners | src/domain/commercial/commercial_truth.py:341-348 | one published winner per conflict the policy settles, in order |
| RetrievalSurface.DedupeFactsById | src/domain/commercial/commercial_truth.py:436-442 | the loop over seen ids computes the deduplication function |
| RetrievalSurface.DedupeExact | src/domain/commercial/commercial_truth.py:436-442 | of every id exactly the first fact is kept, once, in the order in which the ids first appear |
| RetrievalSurface.SurfaceCoherent | src/domain/commercial/commercial_truth.py:323-350 | for any snapshots and policy, two surface facts of one identity have one value signature |
| RetrievalSurface.SurfaceLookupConflict | src/domain/commercial/price_knowledge.py:349-361 | a lookup conflict over the surface never involves two values of one identity |
| RetrievalSurface.SurfaceExact | src/domain/commercial/commercial_truth.py:323-350 | with distinct ids the surface is the published facts of unconflicted identities followed by the published winners, without duplicates |
| RetrievalSurface.SurfaceMembership | src/domain/commercial/commercial_truth.py:323-350 | a snapshot's fact is on the surface if and only if it is published and undisputed or the selected winner; unpublished facts count as disputing |
| RetrievalSurface.UnresolvedWithheld | src/domain/commercial/commercial_truth.py:341-348 | nothing about an identity whose conflict is unresolved is on the surface, duplicate ids or not |
| TruthReview.SurfaceReviewsAgree | src/application/services/commercial_truth_review_service.py:165-176 | the surface reviews are those of the surface facts, one each, in order, all eligible |
| TruthReview.ReportCounts | src/application/services/commercial_truth_review_service.py:149-163 | resolved and unresolved add up to the conflicts, and the surface size is undisputed published facts plus settled conflicts |
| TruthReview.OptionsOnSurface | src/application/services/commercial_truth_review_service.py:328-368 | an option of a reported conflict is on the surface if and only if it is the selected one and eligible |
| TruthReview.FactsDescribed | src/application/services/commercial_truth_review_service.py:46-67 | one review per fact, in order, with the fact's names, its source's id, eligible iff published |
| TruthReview.SnapshotsExact | src/application/services/commercial_truth_review_service.py:328-378 | each fact is compared with the source of its document, or an undated unknown one |
| TruthReview.ConflictsReported | src/application/services/commercial_truth_review_service.py:98-122 | one conflict review per conflict, in order, with the outcome the policy gives and an option per snapshot |
| TruthReview.CountsExact | src/application/services/commercial_truth_review_service.py:153-163 | the resolved and unresolved counts are those of the conflicts the policy settles and of the others |
| ThreadSlots.RunKeeps | src/application/services/project_runtime_guards.py:62-111 | in every interleaving every state keeps the lock, active set, slot keys and bound in step with the workers |
| ThreadSlots.SlotsSafe | src/application/orchestration/client_message_service.py:102-115 | under the lock: admitted threads are active and within the limit, nobody finds its slot already there, and an idle cache is empty |
| ThreadSlots.LockIsEssential | src/application/orchestration/client_message_service.py:102-115 | at every limit: the limit bounds the admitted threads of every run if and only if the lock is taken |
| ThreadSlots.ReleaseWindow | src/application/services/project_runtime_guards.py:104-111 | without the lock a message entering between the two calls of a release is admitted and not active |
| ThreadSlots.RefusedIff | src/application/services/project_runtime_guards.py:80-92 | in every run a worker's count refuses it if and only if more threads than the limit then stand between joining and leaving the active set |
| ThreadSlots.RefusalIffCrowded | src/application/services/project_runtime_guards.py:80-92 | under the lock no message is ever refused if and only if the threads in flight never outnumber the limit |
| ThreadSlots.MutualRefusal | src/application/services/project_runtime_guards.py:80-92 | at every limit, one message more than the limit in flight is enough for all of them to be refused |
| RateWindow.WindowBound | src/application/services/project_runtime_guards.py:37-51 | a window never allows more than the limit, whatever is still under way |
| RateWindow.RateExact | src/application/services/project_runtime_guards.py:37-51 | in every interleaving of n checks on one window exactly min(n, limit) are allowed |
| RateWindow.RateSpan | src/application/services/project_runtime_guards.py:45-51 | any sixty seconds of request times hold at most twice the limit of allowed requests |
| RateWindow.RateSpanIff | src/application/services/project_runtime_guards.py:45-51 | and no smaller bound holds: a number bounds them in all runs if and only if it is at least twice the limit |
| RuntimeGuards.ProjectRuntimeGuards.AllowRequest | src/application/services/project_runtime_guards.py:37-60 | counts the request in its minute and allows it within the limit; no limit allows without counting; a failing cache call refuses |
| RuntimeGuards.ProjectRuntimeGuards.TryAcquireThreadSlot | src/application/services/project_runtime_guards.py:62-102 | answer and cache after an acquisition, whichever cache call fails; refusals over the limit are rolled back |
| RuntimeGuards.ProjectRuntimeGuards.ReleaseThreadSlot | src/application/services/project_runtime_guards.py:104-121 | removes the thread from the active set and then its slot key, nothing else, as far as the cache calls succeed |
| RuntimeGuards.ProjectRuntimeGuards.ProcessLocked | src/application/orchestration/client_message_service.py:283-316 | rate check, then acquire, process, release: answer, counters and slot entries, whichever cache calls fail |
| RuntimeGuards.ServedCleanly | src/application/orchestration/client_message_service.py:300-316 | while nothing fails a message leaves nothing of its thread in the cache and touches no other thread, processed or refused |
| RuntimeGuards.RefusalCleanIff | src/application/services/project_runtime_guards.py:70-102 | for any cache, any limit and any failing call: exactly when a refusal leaves the cache as it was |
| RuntimeGuards.LeftoverMemberRemoved | src/application/services/project_runtime_guards.py:80-92 | a failing `set` leaves the thread active without a slot key, and the next refusal, with nothing failing, takes it out again |
| RuntimeGuards.RetryAdmittedIff | src/application/services/project_runtime_guards.py:70-102 | exactly when a refused thread gets in on its next attempt: it has a slot key by then, from before or left by a call failing after `set`, or there is room; with a slot key it is not counted |
| RuntimeGuards.AloneIsMethod | src/application/services/project_runtime_guards.py:62-92 | the acquisition method is the protocol's steps run without interruption |
| RuntimeGuards.AloneServed | src/application/orchestration/client_message_service.py:297-316 | a message the rate check lets through runs undisturbed through acquisition, processing and release as one call of the methods does, and lets go of the lock |
| RuntimeGuards.RateRefusedLeaves | src/application/orchestration/client_message_service.py:297-298 | a message the rate check refuses leaves at once, with no slot touched |
| RuntimeGuards.RateAloneIsMethod | src/application/services/project_runtime_guards.py:37-51 | the rate check method is the window protocol's steps run without interruption |
| StableSort.SortCorrect | src/domain/runtime/source_authority.py:96-102 | sorting gives a descending permutation with equal keys in their original order |
| StableSort.StableSortUnique | src/domain/runtime/source_authority.py:96-102 | there is only one stable descending arrangement |
| SourceAuthority.HasContentConflict | src/domain/runtime/source_authority.py:130-141 | the dictionary of contents finds a conflict if and only if two items share a normalised key and differ in normalised content |
| SourceAuthority.SelectionPartitions | src/domain/runtime/source_authority.py:79-127 | preferred followed by rejected is a stable, lexicographically descending permutation of the authoritative items |
| SourceAuthority.SelectionUnique | src/domain/runtime/source_authority.py:79-127 | and no other arrangement is |
| SourceAuthority.ConflictFlag | src/domain/runtime/source_authority.py:105-127 | the conflict flag is the pairwise contradiction of authoritative items |
| EvidenceLaws.PreferredIsFirstBest | src/domain/runtime/source_authority.py:14-50 | the preferred item is the first that no evidence outranks: by source type from manager override down to user message, within one type by freshness from live to stale, within one freshness by confidence |
| EvidenceLaws.SelectionOrdered | src/domain/runtime/source_authority.py:96-127 | no rejected item outranks one listed before it |
| EvidenceLaws.SelectionFields | src/domain/runtime/source_authority.py:72-141 | what else a selection says: conflict, review and reason from two items under one key with different words, and the answer without evidence |
| EvidencePlan.CollectSatisfied | src/domain/runtime/evidence_plan.py:274-284 | the loop with its duplicate check computes the list of satisfied items |
| EvidencePlan.SatisfiedExact | src/domain/runtime/evidence_plan.py:274-284 | that list holds exactly the items that meet some need, each once, in order of first appearance |
| EvidencePlan.CollectMissingSlots | src/domain/runtime/evidence_plan.py:149-156 | the nested loops compute the list of missing slots |
| EvidencePlan.MissingSlotsExact | src/domain/runtime/evidence_plan.py:149-156 | that list holds every missing slot of every need, each once |
| EvidencePlan.StatusCorrect | src/domain/runtime/evidence_plan.py:162-242 | the status, as a property of which needs are met and which items are there |
| EvidenceLaws.ClarificationExact | src/domain/runtime/evidence_plan.py:162-184 | a clarification is asked for iff a need is one, listing those needs in order and every missing slot once |
| EvidenceLaws.NoEvidenceExact | src/domain/runtime/evidence_plan.py:186-197 | with LLM reasoning only the decision is a review, whatever the needs |
| EvidenceLaws.UnmetExact | src/domain/runtime/evidence_plan.py:199-216 | otherwise unmet needs are listed in order, for review iff one of them needs live evidence |
| EvidenceLaws.MetExact | src/domain/runtime/evidence_plan.py:199-242 | with every need met the decision rests on an item that meets one and that no such item outranks; review iff asked for and two such items say different things |
| EvidenceLaws.NoNeeds | src/domain/runtime/evidence_plan.py:218-242 | a plan without needs never answers |
| EvidencePlan.PermutationInvariant | src/domain/runtime/evidence_plan.py:162-242 | the order of the evidence never matters for the status |
| EvidencePlan.ReadyMeans | src/domain/runtime/evidence_plan.py:186-242 | READY: every need is met by an authoritative item, fresh where required, and the preferred item meets a need and ranks highest among those that do |
| EvidencePlan.MoreEvidence | src/domain/runtime/evidence_plan.py:186-242 | added evidence keeps READY if and only if review is not requested or useful items do not contradict |
| EvidencePlan.ContradictionBlocks | src/domain/runtime/evidence_plan.py:215-227 | under requested review, of two contradicting items that answer a query one alone is READY and both are not |
| EvidencePlan.MoreEvidenceCanBlock | src/domain/runtime/evidence_plan.py:215-227 | such items, and so a READY decision that added evidence takes back, exist |
| EvidencePlan.MoreEvidenceRanksHigher | src/domain/runtime/evidence_plan.py:215-242 | added evidence never lowers the rank of the preferred item, also when it turns READY into a review |
| EvidencePlan.LlmIrrelevant | src/domain/runtime/evidence.py:121-128 | with an authoritative item, dropping LLM reasoning leaves the whole decision unchanged |
| EvidencePlan.LlmIrrelevantIff | src/domain/runtime/evidence_plan.py:186-197 | exactly when dropping LLM reasoning leaves the decision unchanged |
| EvidencePlan.OnlyLlm | src/domain/runtime/evidence_plan.py:186-197 | on LLM reasoning alone, dropping it changes the decision taken once no clarification is outstanding |
| EvidencePlan.PriceAnswerReadyIff | src/domain/runtime/evidence_plan.py:75-138 | a price answer goes out if and only if nothing is to be clarified, a fitting item exists and no requested review is due |
| EvidencePlan.PriceAnswerGrounded | src/domain/runtime/evidence_plan.py:75-138 | a price answer rests on the highest-ranking fitting item: fresh operational data where the intent needs it, the price list otherwise |
| EvidenceLaws.AvailabilityPrefersCrm | src/domain/runtime/evidence_plan.py:97-112 | an availability answer rests on the CRM whenever it has fresh evidence |
| EvidenceLaws.PriceClarification | src/domain/runtime/evidence_plan.py:84-95 | a price query asks for clarification iff slots are missing or it is ambiguous, and for exactly those slots |
| TechnicalIncidents.ThreadRuntime.RunTurn | src/agent/nodes/persist.py:71-130 | one turn through the graph: at most one failure is counted, and a ticket is opened when two have piled up and none is recorded |
| TechnicalIncidents.RunAll | src/agent/nodes/load_state.py:92-94 | running turns on a new thread does what the ledger says |
| TechnicalIncidents.Accounting | src/agent/nodes/policy_engine.py:124-141 | with every save succeeding the count is the number of failing turns, and there is one ticket exactly if some turn from the second failing one on could open it |
| TechnicalIncidents.TicketOnce | src/domain/runtime/persistence.py:280-286 | at most one ticket, none before the second failing turn, and one as soon as the call works after it |
| TechnicalIncidents.RunExact | src/agent/nodes/persist.py:71-141 | for any run, whatever fails: the count is the saved failing turns, and the tickets are those of the turns that could open one while none was on record |
| TechnicalIncidents.OneTicketIff | src/agent/nodes/persist.py:71-141 | at most one ticket if and only if no turn could open one after another could with none on record |
| TechnicalIncidents.TicketsByLoss | src/agent/nodes/persist.py:71-141 | the tickets of any run are one for each ticket-opening turn whose save was lost, plus the one on record if there is one |
| TechnicalIncidents.LostSaveDuplicates | src/agent/nodes/persist.py:127-141 | one lost save can lead to a second ticket |
| Routing.SessionRoundTripIff | src/domain/project_plane/manager_assignments.py:91-134 | a stored session reads back if and only if it names somebody and its chat id is not empty |
| Routing.ParseSessionExact | src/domain/project_plane/manager_assignments.py:91-134 | what any value of the session key is read as |
| Routing.ClientMessageService.ClearStaleManagerSession | src/application/orchestration/client_message_service.py:467-487 | on an active thread a parsed session is deleted and dropped, otherwise nothing changes |
| Routing.ClientMessageService.TryRedirectToManager | src/application/orchestration/client_message_service.py:380-441 | hands off, stores and notifies exactly when assignment, status and session say so |
| Routing.ClientMessageService.ProcessWithThreadSlot | src/application/orchestration/client_message_service.py:344-378 | exactly one of graph or handoff, the stored messages, the notice and the session afterwards |
| Routing.ClientMessageService.ProcessAll | src/application/orchestration/client_message_service.py:344-487 | a whole conversation stores and asks what the specification says, whatever the session key holds each time |
| Routing.CacheIrrelevantIff | src/application/orchestration/client_message_service.py:380-487 | active threads always reach the graph, manual ones with a manager never, and on no others is routing independent of the session |
| Routing.RecipientCurrentIff | src/application/orchestration/client_message_service.py:404-441 | the notice of an assigned thread is the database's if and only if the session is gone, or leads to the same chat and user, or neither names a chat |
| Routing.AssignedNotified | src/application/orchestration/client_message_service.py:443-510 | without a session the manager in the database is notified, in the chat it has there |
| Routing.OtherManagerNotified | src/application/orchestration/client_message_service.py:388-430 | on an assigned thread a session of any other chat gets the message sent there |
| Routing.ExpiryUnnoticed | src/application/orchestration/client_message_service.py:443-465 | a session written for the assigned manager can expire without any visible difference |
| Routing.RecordedOnceIff | src/application/orchestration/client_message_service.py:413-441 | messages are stored exactly once and in order if and only if none meets a closed or unknown thread with a session naming no chat |
| Routing.ClosedThreadRecordsTwice | src/application/orchestration/client_message_service.py:413-441 | on a closed thread a session with a user and no chat stores the message twice |
| Routing.ConversationIgnoresCacheIff | src/application/orchestration/client_message_service.py:380-487 | over a conversation the graph's inputs are independent of the session key if and only if every thread read is active or assigned |
| LanguagePolicy.DetectionExact | src/domain/runtime/language_policy.py:99-139 | Russian exactly for three or more Cyrillic letters in the majority (from six letters on: a majority); a Latin language exactly for at least six letters with a 65% share |
| LanguagePolicy.LatinExact | src/domain/runtime/language_policy.py:124-139 | German and Spanish, each by two diacritics and more than the other has, or failing the other's by two stop words and more than any other has |
| LanguagePolicy.DetectionSymmetric | src/domain/runtime/language_policy.py:126-139 | exchanging German and Spanish signals exchanges the answers, so the order of the tests favours neither |
| LanguagePolicy.DominantLanguage | src/domain/runtime/language_policy.py:142-164 | returns a language if and only if it holds at least 66% of the votes that name one |
| LanguagePolicy.WinnerExact | src/domain/runtime/language_policy.py:152-164 | the tie check is implied by the share check |
| LanguagePolicy.DominanceOrderFree | src/domain/runtime/language_policy.py:142-164 | the vote does not depend on the order of the texts |

## Left out

- Role markers of headers, amount extraction and decimal parsing, units read from a price text, and the hashed row and candidate ids: parameters of the acquisition adapter; `EachRowOnce` states the injectivity of row ids it needs; ids and units are not blank by their type.
- Texts of the review report: value and source texts, titles, dates, kinds and units of its entries.
- Per-cell records, normalised cells, confidences and metadata of acquisition rows: copied, never decided on.
- Unicode case folding: lower and upper case cover ASCII and Russian letters.
- Decimal equality: amounts are compared by their text, as the signatures do.
- Sorted tuples in identities and signatures: modelled as sets and multisets.
- Key expiry, the null cache, lock time-outs and crashed workers, and cache failures in interleaved runs: outside the assumptions of the slot and window statements.
- The `expire` calls on slot keys and the active set: they change nothing while keys do not expire.
- The policy package: its decision is arbitrary in every turn.
- Incident notifications, failure stage and error fields, events and memory writes of a turn: they do not feed back into the count or the flag; a missing ticket tool acts as a ticket call that raises.
- Threads or projects without an id in the incident step: no ticket is opened for them.
- Choosing or creating the thread, splitting a message into questions and joining the responses: the graph is asked once per message.
- Counting letters and stop words by regular expressions: detection starts from the counts.
- Shares are compared as exact fractions instead of floating-point quotients.
- Confidences are real numbers, dates are integers; mixed naive and aware dates and NaN are not modelled.
- A caller-supplied authority policy, and the free-text reasons and echoed queries of results.
- HTTP, Telegram, SQL, LLM calls, prompts, settings, migrations and the frontend.
