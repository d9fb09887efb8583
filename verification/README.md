# Millrace: validation and publication, modelled and proved

Millrace copies a retail source database into a warehouse. It streams change events into
snapshots, validates a candidate against the source history, and publishes it by swapping
views. This project models the parts of that which decide whether published data can be trusted,
and proves what they guarantee. It has four machines and a layer above them.

**Publication.** Two services implement one register, the last validated dataset. On DuckDB a
promotion is one transaction (`DuckDb`, `DuckDbPromotion`, `DuckDbTheorems`). On Snowflake it is a
sequence of statements over a connection with autocommit off (`Snowflake`, `SnowflakePromotion`,
`SnowflakeSafety`, `SnowflakeTheorems`, `SnowflakeLiveBatch`). The services are classes over a gateway
or a connection that is given a number of steps to live, so every crash point of every call is covered; a DDL
statement is two steps, the implicit commit and its effect. `PublicationRefinement` shows when the
two services are indistinguishable.

**Reconstruction.** `SourceHistory` models a source table with its capture triggers and the as-of
queries; `CdcState` and `CdcTheorems` the latest-wins fold over change events; `SparkSnapshot` the
window that computes the same thing; `Schemas`, `Parser` and `ParserTheorems` the reading of
Debezium messages; `RowSchemas` spells out the row schemas. `BatchControl` says which batches can be
written under; `Agreement` and `Discipline` relate the accounts.

**The gate.** `Decimals`, `DecimalText`, `Bytes` and `DebeziumDecimal` model Python's decimals with
their 28-digit context; `DecimalFields` what the parser's decoding makes of a message. `Canonical` models
canonical texts, checksums, counts and aggregates; `Gate` the checks and the fail-closed report; `SnapshotReaders` what readers do to rows. `Framing`,
`Reconciliation`, `Totals`, `SumOrder`, `Extremes`, `Redundancy`, `GateTheorems` and `GateCompleteness` say
what a report means; `CellTheorems`, `GroupTheorems` and `GateMeaning` say it in terms of values and rows.

**Comparison and storage.** `Comparison`, `ComparisonTheorems` and `CheckNames` cover validating several
warehouses against one source; `Storage` the object keys of the silver layer.

**The whole path.** `Pipeline` interleaves validations, re-validations, comparisons, promotions
and crashes; `EndToEnd` follows the data from the change log to the live views.

## How the model speaks

- An exception is a `None`, a `Refused` or an `Interrupted`. A reader that raises is `None`.
- SHA-256, UTF-8, NFC, base64, the text `json.dumps` writes, `str.strip`, and whether
  `Decimal` reads a JSON string are given functions. `Faithful` assumes of SHA-256 and UTF-8
  that different inputs have different outputs (`FaithfulLibrariesExist`: this can be met); `Injective`
  assumes it of UTF-8, and `TellsApart` of the texts of `json.dumps`.
- Timestamps are UTC microseconds and dates are day numbers; their canonical texts show these numbers.
- Batches of runs are positive, as `RunContext` demands (`src/millrace/contracts.py:29-30`); reports and
  audit rows may carry any number.
- Names are ASCII. On Snowflake they are upper-cased, relations and batch columns included. DuckDB ignores
  case: schemas and views are compared in lower case, and an undotted name is in `main`, which every
  database has. A name of three parts is taken to name a schema of another, attached database, never one
  of the current database, and no schema is taken to be called like a database.
- A DuckDB database starts with a given set of schemas: the control schema the call ensures beforehand,
  and any created earlier.
- The control schema is taken to differ, in any letter case, from the analytics schema and from its
  `_staging` name. The configuration accepts otherwise, but then replacing, swapping or dropping a schema
  would take the control tables along.
- Promotions are serialised: there is one writer, as the deployment assumes.
- Methods carry the loops and the state changes of the source and are proved equal to specification
  functions; the theorems are about those functions.

## What the proofs found

- On Snowflake the early return for an already published run neither repairs the views nor removes a
  leftover staging schema. After a crash following the swap of another run, promoting the published
  run again succeeds and leaves the other run live (`PromotedRunIsLiveExactlyWhen`;
  `PublishedRunIsStranded` is such a run).
- The live batch on Snowflake is not monotone, only the recorded one is (`PublishedIsForever`). A call
  keeps it exactly when its run is already published or not of a smaller batch, and it can be lowered
  exactly while it is above 1 and no published row carries it (`LiveBatchKeptExactlyWhen`,
  `LiveBatchCanBeLoweredExactlyWhen`; `LiveBatchDrops` is a run that lowers it). The class comment's
  claim that the record lags the views and never leads them is the invariant proved in `CrashSafety`.
- A pending row left at another batch blocks its run on Snowflake but not on DuckDB
  (`VerdictsDifferExactlyWhen`; `StalePendingDivides` is such a run).
- The configuration rejects repeated view names, but staged names are the upper-cased last parts,
  which may still collide, as may names on DuckDB that differ in case (`ViewSetComplete` of either
  service); a publication is then missing from the live views (`CollidingNamesLoseAView`).
- DuckDB creates the schemas of the publications' names, but not that of the status view. A promotion
  completes exactly when the analytics schema is `main`, already exists, or a publication has it, and
  only then do the two services answer alike (`DuckDbCompletesExactlyWhen`, `AnswersAgreeExactlyWhen`).
- The configuration does not ask partitions or aggregates of an entity for different names. Where names
  repeat, a comparison between engines holds fewer checks than the reports (`ReportNamesUniqueExactlyWhen`).
- The change stream and the history agree at every cutoff only if deletes are stamped; the triggers
  do not enforce it (`CdcAgreesWithHistoryExactlyWhenStamped`, `UnstampedRunDisagrees`).
- Gate soundness does not need distinct keys, insensitivity to row order does (`EntityIsSound`,
  `RepeatedKeysReadInOrder`).
- `docs/data-quality.md:22-25` and `:42-44` promise scale-independent texts and exact aggregates. The
  code rounds to 28 significant digits in `normalize`, in every addition and in `scaleb`. Texts are
  faithful and decoding is exact exactly up to 28 significant digits (`CanonicalTextExactExactlyWhen`,
  `DecodingIsExactExactlyWhen`; `LongDecimalsCollide` and `TwelveBytesLoseDigits` are failures beyond),
  and sums are exact exactly while every partial sum is that short (`PartialSumsExactExactlyWhen`).
  Beyond, a sum depends on the order of the rows, and a correct candidate can fail its aggregate check
  (`SumDependsOnOrder`, `PermutedCandidateFails`).
- `docs/data-quality.md:15` describes checksums as aggregates of row hashes and `:26` Booleans as `true`
  and `false`. The code hashes all rows in key order and writes `B:1` and `B:0`; the model follows the code.

## Model

| member | source | states |
|---|---|---|
| Snowflake.Gateway.Execute | src/millrace/validation/publication.py:222-230 | one statement on a connection with autocommit off: DDL first commits what is pending, then takes effect, and the connection may stop between the two or before either; the call reports whether the statement completed |
| SnowflakePromotion.SnowflakePromotionService.Promote | src/millrace/validation/publication.py:167-230 | the call does exactly what the specification of a promotion says, for every point at which the connection stops: report gate, control tables, audit gate, newer-batch gate, other-batch gate, resumption, build, swap, record |
| SnowflakePromotion.SnowflakePromotionService.BuildStagedViews | src/millrace/validation/publication.py:232-260 | the staging schema is replaced and filled, one view per publication and the status view last |
| SnowflakePromotion.SnowflakePromotionService.Publish | src/millrace/validation/publication.py:203-230 | after the gates: a pending row unless one exists, the staged views, then swap and record; `Promoted` only if every statement completed |
| SnowflakePromotion.SnowflakePromotionService.SwapAndRecord | src/millrace/validation/publication.py:213-230 | analytics schema, swap, status update, drop of the staging schema and commit, in that order |
| SnowflakePromotion.SnowflakeAuditWriter.RecordValidation | src/millrace/validation/audit.py:124-172 | the control objects are ensured, the run's audit row is merged and the work is committed |
| SnowflakeTheorems.CrashSafety | src/millrace/validation/publication.py:142-230 | after every sequence of promotions, audit writes and closed connections, each stopped anywhere: the live schema is absent, empty, or the complete view set of one (run, batch) that was recorded as passed and whose promotion found its audit row saying passed at that batch; at most one publication row per run; no durably published batch above the live one |
| SnowflakeTheorems.LiveChangesOnlyWhenAuthorised | src/millrace/validation/publication.py:167-216 | from any reachable state the live schema changes only to the promoted run's whole view set, and only if the report passed and matches, the audit row says passed at that batch, and nothing newer is published |
| SnowflakeTheorems.PublishedIsForever | src/millrace/validation/publication.py:179-188 | a durably published row survives every later event, stopped anywhere |
| SnowflakeTheorems.Resumption | src/millrace/validation/publication.py:191-230 | from every reachable state an uninterrupted call is accepted if and only if the control tables allow it; a run not yet published ends live and recorded with staging gone, and repeating the call changes nothing; a refused or repeated call changes nothing |
| SnowflakeTheorems.PromotedRunIsLiveExactlyWhen | src/millrace/validation/publication.py:200-201 | an accepted uninterrupted call leaves its run live if and only if the run was not yet recorded as published or is live already: the early return does not repair the views |
| SnowflakeTheorems.PendingRowsNeverBlock | src/millrace/validation/publication.py:179-188 | pending rows of other runs have no influence on any gate |
| SnowflakeTheorems.StoppedAfterSwap | src/millrace/validation/publication.py:142-154 | stopped between swap and status update, the run's views are live while its row is still pending |
| SnowflakeTheorems.LiveBatchCanDrop | src/millrace/validation/publication.py:142-154 | from any warehouse whose gates let both through: after a stop between swap and status update a smaller batch is accepted, and the live batch goes down |
| SnowflakeLiveBatch.LiveBatchKeptExactlyWhen | src/millrace/validation/publication.py:191-230 | from every reachable state an accepted uninterrupted call keeps the live batch if and only if its run is already recorded as published or its batch is not smaller |
| SnowflakeLiveBatch.LiveBatchCanBeLoweredExactlyWhen | src/millrace/validation/publication.py:179-188 | whatever happens next, the live batch can still be lowered if and only if no durably published row carries it and it is not batch 1 |
| SnowflakeLiveBatch.UnrecordedRunCanBeLowered | src/millrace/contracts.py:29-30 | from an empty warehouse: a run stopped after its swap is live and unrecorded, and can be lowered if and only if it is not batch 1, the first a run can have |
| SnowflakeLiveBatch.LiveBatchDrops | src/millrace/validation/publication.py:142-154 | from an empty warehouse: two validated runs, the larger one stopped after its swap, the smaller one promoted, and the live batch has dropped |
| SnowflakeLiveBatch.PublishedRunIsStranded | src/millrace/validation/publication.py:200-201 | from an empty warehouse: a run is published, another stops after its swap, and promoting the first again is accepted, changes nothing and leaves the other run live |
| SnowflakeLiveBatch.CollidingNamesLoseAView | src/millrace/validation/publication.py:234-244 | from an empty warehouse: with two view names that share their last part a promotion succeeds and the live schema does not show the first publication |
| SnowflakeTheorems.ViewSetComplete | src/millrace/validation/publication.py:234-244 | the swapped-in schema shows every configured publication if and only if publications that share the upper-cased last part of their name select, in any letter case, the same relation by the same batch column, and none is called like the status view |
| SnowflakeTheorems.ViewSetNamesItsRun | src/millrace/validation/publication.py:240-243 | view sets tell which run and batch they belong to if and only if some publication is not named like the status view |
| SnowflakeTheorems.GatesExactly | src/millrace/validation/publication.py:171-201 | the gates let a run through if and only if its audit row matches, no larger batch is published, and its own rows carry its batch; otherwise they say which of these fails first; they find it already published if and only if a published row of it exists |
| Models.ReportDecides | src/millrace/validation/publication.py:29-33 | gate 1 of both services lets a report through if and only if it passed and is this run's at this batch, whatever its checks, and says of the others which of the two it is |
| SnowflakeTheorems.AcceptedExactlyWhen | src/millrace/validation/publication.py:167-201 | from every reachable state, with any report, an uninterrupted promotion is accepted if and only if the report passed and is this run's at this batch and the control tables allow it; any other report is refused with its reason before anything is touched |
| SnowflakeSafety.ReachableSafe | src/millrace/validation/publication.py:167-230 | the invariant behind crash safety holds in every reachable state, with the run the live schema belongs to |
| SnowflakeSafety.BeforeSwapSafe | src/millrace/validation/publication.py:203-213 | a stop anywhere before the swap leaves live schema and published rows alone; getting there leaves the whole view set in staging |
| DuckDb.Connection.Execute | src/millrace/validation/publication.py:85-123 | one statement inside or outside a transaction: it acts on the open transaction if there is one and on the database otherwise, or fails and changes nothing |
| DuckDbPromotion.PromotionService.Promote | src/millrace/validation/publication.py:46-127 | the call does exactly what the specification of a promotion says, for every statement that can fail, with rollback on every exception |
| DuckDbPromotion.PromotionService.InTransaction | src/millrace/validation/publication.py:51-124 | gates, views, publication row, status view and commit inside the transaction; a repeated run commits and changes nothing |
| DuckDbPromotion.PromotionService.ExecutePublish | src/millrace/validation/publication.py:85-123 | one view per publication, its schema created first when the name is dotted, then the publication row and the status view |
| DuckDbPromotion.DuckDbAuditWriter.RecordValidation | src/millrace/validation/audit.py:66-90 | the control objects are ensured and the run's audit row inserted or replaced |
| DuckDbTheorems.AllOrNothing | src/millrace/validation/publication.py:46-127 | a promotion cut short by any statement, the commit included, changes nothing; of a completed one the whole resulting database is given: one more row, every view replaced, the schemas of the publications added, the audit rows as before, and an audit row that authorised it |
| DuckDbTheorems.ViewsAgree | src/millrace/validation/publication.py:46-127 | over every run of events: no view at all, or all views show one run at the largest published batch, which was recorded as passed and whose promotion found its audit row saying so; a run is published at most once |
| DuckDbTheorems.LiveBatchNeverDrops | src/millrace/validation/publication.py:62-70 | the largest published batch never decreases |
| DuckDbTheorems.StatusShowsTheLiveRunFirst | src/millrace/validation/publication.py:107-123 | with strictly increasing publication times the first row of current_validation_status is the run the views show |
| DuckDbTheorems.ViewSetComplete | src/millrace/validation/publication.py:85-97 | the views show every configured publication if and only if publications whose names differ at most in letter case, or in a spelt-out `main`, select the same relation by the same batch column, and none is called like the status view |
| DuckDbTheorems.GatesExactly | src/millrace/validation/publication.py:51-82 | what the gates of the transaction answer, each answer given as a condition on audit rows and publication rows |
| PublicationRefinement.NamesIgnoreCase | src/millrace/validation/publication.py:85-97 | views are kept apart by letters and not by case, and an undotted name is one of the schema `main` |
| PublicationRefinement.StatusViewsShareTheirName | src/millrace/validation/publication.py:107-123 | the status view has one name on both services |
| PublicationRefinement.VerdictsDifferExactlyWhen | src/millrace/validation/publication.py:72-82 | the gates of the two services differ if and only if the run has a pending row at another batch and is otherwise acceptable; Snowflake then refuses |
| PublicationRefinement.StalePendingDivides | src/millrace/validation/publication.py:191-201 | from empty databases, for every run and any two of its batches: validated at one, abandoned after the pending insert, validated at the other and promoted, the run is refused by Snowflake and promoted by DuckDB |
| PublicationRefinement.WholeCall | src/millrace/validation/publication.py:142-154 | an uninterrupted call is answered alike by both services and leaves them agreeing on live run and published rows, whatever schemas the DuckDB database already has, the analytics schema being one of them or of the publications' |
| PublicationRefinement.StoppedCall | src/millrace/validation/publication.py:203-213 | a call that stops before the swap, and does not commit on DuckDB, leaves them agreeing |
| PublicationRefinement.SnowflakeRefinesDuckDb | src/millrace/validation/publication.py:142-230 | from a DuckDB database with any given schemas, for every sequence of calls whose failures precede the swap, and run ids that determine the batch, both services end with the same live run and the same published rows, pending rows aside |
| PublicationRefinement.SameAnswers | src/millrace/validation/publication.py:142-230 | and every uninterrupted call on the way got the same answer from both |
| PublicationRefinement.DuckDbCompletesExactlyWhen | src/millrace/validation/publication.py:107-123 | an uninterrupted DuckDB call gets the verdict of its gates if and only if that verdict is not to promote, or the analytics schema, in any letter case, is the main schema, exists, or is created by a publication |
| PublicationRefinement.AnswersAgreeExactlyWhen | src/millrace/validation/publication.py:107-123 | the two services answer every uninterrupted call alike if and only if the analytics schema, in any letter case, is the main schema of the DuckDB database, exists in it, or is created by a publication |
| PublicationRefinement.DuckDbAcceptsExactlyWhen | src/millrace/validation/publication.py:46-127 | with any report, an uninterrupted DuckDB promotion is accepted if and only if the report passed and is this run's at this batch, the control tables allow it, and the run is already recorded or the status view has its schema; any other report is refused with its reason |
| Models.UpsertThenRead | src/millrace/validation/audit.py:144-157 | after a validation is recorded, reading its run gives that row and reading another run gives what it gave before |
| Models.UpsertRows | src/millrace/validation/audit.py:144-157 | and the table then holds that row of the run only, with the rows of other runs as they were |
| Models.PutViewsLookup | src/millrace/validation/publication.py:234-243 | after the views are put, a name shows the last of the publications stored under it, or what it showed before if there is none |
| CdcState.DeduplicateEvents | src/millrace/streaming/state.py:23-36 | the winners of the keys, listed in strictly ascending key order |
| CdcState.BuildCurrentState | src/millrace/streaming/state.py:39-60 | exactly the records of the keys whose winner is not a delete, in strictly ascending key order |
| CdcTheorems.LatestIsMaximal | src/millrace/streaming/state.py:29-35 | a key has a winner if and only if some event within the cutoff has it, and no such event is ordered after the winner |
| CdcTheorems.DeliveryDoesNotMatter | src/millrace/streaming/state.py:23-36 | any order of delivery and any replays give the same winners and the same state |
| CdcTheorems.WinnersOrderedAlike | src/millrace/streaming/state.py:63-73 | even when different events share an order, two deliveries pick winners of equal order |
| CdcTheorems.IncrementalDeduplication | src/millrace/streaming/state.py:23-36 | deduplicating a part first and adding the rest gives exactly the list that deduplicating everything gives |
| CdcTheorems.StateIsReplay | src/millrace/streaming/state.py:39-60 | the state equals applying the events within the cutoff one at a time, in event order, as upsert or delete |
| CdcState.OrderIsTotal | src/millrace/streaming/state.py:63-73 | the event order is a strict order whose ties are the events equal in all five components |
| CdcState.OrderIsLexicographic | src/millrace/streaming/state.py:63-73 | an event is later if and only if, where lsn, transaction order, partition and offset first differ, it has the larger number, or, at one place, the larger payload text |
| CdcState.CanonicalKeyDecides | src/millrace/streaming/state.py:19-20 | canonical keys are equal if and only if entity and key text are |
| CdcTheorems.NoCutoffTakesAll | src/millrace/streaming/state.py:30-31 | without a cutoff every event counts |
| Orders.TextBelowExactlyWhen | src/millrace/streaming/state.py:36-36 | texts are ordered by their first different character, a prefix first |
| SparkSnapshot.SnapshotIsStateExactlyWhen | src/millrace/streaming/spark_job.py:309-334 | however the window breaks ties: filter, rank 1 and the delete filter agree with build_current_state on a key if and only if its winner is a delete or has a row |
| SparkSnapshot.SnapshotIsCurrentState | src/millrace/streaming/spark_job.py:309-334 | over events the parser accepted the snapshot is the state build_current_state gives, key by key |
| SparkSnapshot.WindowPicksTheWinner | src/millrace/streaming/spark_job.py:325-333 | the row ranked 1 for a key is the winner of that key |
| SourceHistory.SourceTable.ActiveBatchId | infra/postgres/01_schema.sql:189-220 | the configured batch if it is set, a number and loading; an exception otherwise |
| SourceHistory.SourceTable.CaptureRow | infra/postgres/01_schema.sql:247-268 | one history row with the active batch, unless there is none or a written row carries another batch |
| SourceHistory.SourceTable.InsertRow | infra/postgres/01_schema.sql:247-268 | the mutation, its history row and its log record happen together or not at all |
| SourceHistory.SourceTable.UpdateRow | infra/postgres/01_schema.sql:247-268 | likewise; an update that matches no row does nothing |
| SourceHistory.SourceTable.DeleteRow | infra/postgres/01_schema.sql:247-268 | likewise; the history row carries the active batch whatever batch the deleted row carries |
| Agreement.RunConsistent | infra/postgres/01_schema.sql:247-268 | in every run history rows and log records pair up, ids grow, every log record saw the row its predecessors left, and the last record of a key gives its row |
| Agreement.NewestIsLast | src/millrace/validation/readers.py:40-54 | with batches loaded in order, ROW_NUMBER() = 1 by batch and history id is the last mutation of the key within the cutoff |
| Agreement.CdcAgreesWithHistoryExactlyWhenStamped | src/millrace/validation/readers.py:36-63 | for every run with batches in order and every delivery of its events: the reconstructed state equals the as-of rows of the history at every cutoff if and only if every delete removed a row stamped with the deleting batch; with positive batches, positive cutoffs already decide it |
| Agreement.UnstampedDisagrees | src/millrace/streaming/parser.py:136-138 | an unstamped delete: as of the old batch the change stream has lost the row and the history still shows it |
| Agreement.TombstonesAreTheMissingKeys | src/millrace/validation/readers.py:79-102 | the tombstone reader returns exactly the keys touched by the cutoff that the reconstructed state does not hold |
| Agreement.ClosedCutoffIsStable | src/millrace/validation/readers.py:52-53 | mutations of later batches do not change an as-of reading |
| BatchControl.InsertAcceptedExactlyWhen | infra/postgres/01_schema.sql:255-259 | an insert is accepted if and only if its key is new, the session is set to the batch the row carries, and that batch is loading |
| BatchControl.UpdateAcceptedExactlyWhen | infra/postgres/01_schema.sql:255-259 | likewise an update that hits a row |
| BatchControl.DeleteAcceptedExactlyWhen | infra/postgres/01_schema.sql:255-266 | a delete that hits a row is accepted if and only if the session is set to a loading batch |
| BatchControl.NoRowNoTrigger | infra/postgres/01_schema.sql:247-268 | an update or delete that hits no row is accepted whatever the session is set to, and does nothing |
| BatchControl.CommandsWriteUnderLoading | infra/postgres/01_schema.sql:210-216 | a command changes table, history or log only while the session's batch is loading, and the history row it adds carries that batch |
| BatchControl.ClosedBatchesStand | src/millrace/validation/readers.py:52-53 | once no batch up to a cutoff is loading any more, no sequence of commands moves the as-of rows or the tombstones at that cutoff |
| BatchControl.LateInsertIsRejected | infra/postgres/01_schema.sql:210-216 | a concrete run: an insert under a completed batch raises and leaves everything as it was |
| Agreement.HistoryIsAppendOnly | infra/postgres/01_schema.sql:222-245 | history only grows, and history ids grow with it |
| Discipline.StampedExactlyWhenDisciplined | infra/postgres/01_schema.sql:255-259 | all deletes are stamped if and only if every DELETE statement that hits a row hits one already carrying the active batch |
| Discipline.StampThenDelete | infra/postgres/02_seed.sql:132-142 | an update that stamps the row with the active batch, followed by its delete, keeps that discipline |
| Discipline.UnstampedRunDisagrees | src/millrace/streaming/parser.py:136-138 | a concrete run, accepted by the triggers, after which stream and history disagree about batch 1 |
| DecimalFields.RowDecoded | src/millrace/streaming/parser.py:242-276 | a decoded row has the fields of the original; a field that some field schema describes as a decimal, and that holds base64 text of some bytes, becomes a text denoting those bytes at the scale the last such schema says, as a number or in digits, exactly if that has at most 28 significant digits; every other field is unchanged |
| DecimalFields.ImagesDecoded | src/millrace/streaming/parser.py:214-239 | decoding an envelope changes at most `before` and `after`, and an image exactly when it is an object and the first schema entry of its name lists field schemas; it is then the decoded row |
| DecimalFields.EventDecoded | src/millrace/streaming/parser.py:54-77 | the row of an accepted event is the image of its message: decoded when the message carries field schemas for it, unchanged otherwise |
| Parser.NumbersAreRead | src/millrace/streaming/parser.py:293-305 | a whole number is read alike as a JSON number and as its digits, with any zeros in front |
| Parser.OthersAreNotRead | src/millrace/streaming/parser.py:293-305 | a negative number, an empty text, a text with a non-digit, and anything that is neither number nor text are not read |
| Parser.WholeNumberRead | src/millrace/streaming/parser.py:293-305 | what a field is read as, if and only if it says that number, the positive reader asking for at least 1 |
| ParserTheorems.AcceptedEventsAreComplete | src/millrace/streaming/parser.py:66-169 | an accepted event has a row that fits its schema, a message key equal to the row key, a batch of at least 1 and a non-negative position |
| ParserTheorems.AcceptedExactlyWhen | src/millrace/streaming/parser.py:66-169 | a normalized envelope is accepted if and only if operation, image, source position, batch and the two keys are as required |
| ParserTheorems.MessageReadExactlyWhen | src/millrace/streaming/parser.py:23-169 | a whole message becomes an event if and only if its topic names an entity and its payload holds an acceptable envelope, and a tombstone, with its key, if and only if it has no payload and its key is one of the entity; anything else is malformed |
| ParserTheorems.FirstUnmetDemand | src/millrace/streaming/parser.py:66-145 | a rejected envelope gets the reason of the first of eight demands it does not meet, the demands stated in terms of its fields |
| ParserTheorems.WhyMalformed | src/millrace/streaming/parser.py:30-63 | before that: an unknown topic, a payload that is no JSON object, one without an envelope, a missing or foreign key without a payload |
| ParserTheorems.EventPosition | src/millrace/streaming/parser.py:97-105 | the event carries the Kafka place of its message and the source position; its batch is the row's own if usable and the source block's otherwise, its transaction order the collection's if positive, else the total one, else 0 |
| ParserTheorems.EventIsTheEnvelopes | src/millrace/streaming/parser.py:77-169 | operation, images, key and the two texts of the event are those of the envelope |
| ParserTheorems.PayloadTextDecides | src/millrace/streaming/state.py:64-72 | two events have one payload text if and only if operation and both images are equal |
| ParserTheorems.WrappingPlaysNoPart | src/millrace/streaming/parser.py:195-211 | a document is read alike with and without a schema wrapper, as value and as key; a wrapper without an object holds nothing |
| ParserTheorems.EveryLiveKeyHasARecord | src/millrace/streaming/state.py:45-60 | over parsed events the state holds a record for exactly the keys whose latest event is not a delete: the row-is-None skip never fires |
| ParserTheorems.ParsedChange | src/millrace/streaming/parser.py:77-169 | an accepted message that describes a change becomes the event the agreement theorem assumes, with the batch of the old row for a delete |
| ParserTheorems.ParsedStreamAgreesExactlyWhenStamped | src/millrace/streaming/parser.py:66-169 | messages in log order, parsed and delivered in any way, reconstruct the as-of history at every cutoff, or at every cutoff a run can have, if and only if every delete is stamped |
| Schemas.KeyOfKey | src/millrace/streaming/schemas.py:42-46 | a found key holds key values of the row only, and finding the key of a key gives it back |
| Schemas.TopicNamesEntity | src/millrace/streaming/schemas.py:185-190 | a topic names an entity if and only if its last part, in any case, is the entity's table name, with anything or nothing in front |
| Schemas.TableNamesEntity | src/millrace/streaming/schemas.py:185-190 | a table name, in lower or upper case, names its entity |
| Models.CasesFold | src/millrace/streaming/schemas.py:186-186 | upper- and lower-casing change nothing but the case, and each undoes the other |
| RowSchemas.CustomerRow | src/millrace/streaming/schemas.py:81-105 | which JSON objects are rows of customers, field by field, and what their key is |
| RowSchemas.ProductRow | src/millrace/streaming/schemas.py:106-132 | the same of products |
| RowSchemas.OrderRow | src/millrace/streaming/schemas.py:133-155 | the same of orders |
| RowSchemas.OrderItemRow | src/millrace/streaming/schemas.py:156-180 | the same of order items, whose key is order_id and line_number together |
| Decimals.RoundExactExactlyWhen | src/millrace/validation/canonical.py:152-152 | the decimal context keeps a value if and only if it has at most 28 significant digits |
| Decimals.HalfEvenIsNearest | src/millrace/validation/canonical.py:152-152 | rounding goes to the nearest number of the kept digits, to the even one of two equally near |
| Decimals.StripDecides | src/millrace/validation/canonical.py:152-152 | removing trailing zeros gives one form per number, zero aside |
| DecimalText.FixedReads | src/millrace/validation/canonical.py:155-155 | a fixed-point text reads back as the number it was made from |
| DecimalText.CanonicalTextDecides | src/millrace/validation/canonical.py:143-155 | two decimals have one canonical text if and only if rounding to the context gives them one value |
| DecimalText.CanonicalTextIsFaithful | src/millrace/validation/canonical.py:143-155 | up to 28 significant digits the text is equal if and only if the numbers are, whatever scales, trailing zeros or signs of zero |
| DecimalText.CanonicalTextReads | src/millrace/validation/canonical.py:143-155 | the text parses back to the rounded value |
| DecimalText.CanonicalTextExactExactlyWhen | src/millrace/validation/canonical.py:143-155 | the text denotes the number itself if and only if the number has at most 28 significant digits |
| DecimalText.LongDecimalsCollide | src/millrace/validation/canonical.py:152-152 | beyond 28 digits different numbers share a text: any 28 digits read alike when followed by 00 and by 01 |
| Bytes.SignedRoundTrip | src/millrace/streaming/parser.py:275-275 | two's complement in any sufficient width decodes what it encodes |
| DebeziumDecimal.DecodingIsExact | src/millrace/streaming/parser.py:268-276 | for up to 11 bytes the text denotes unscaled * 10^-scale exactly, with exactly `scale` fraction digits |
| DebeziumDecimal.DecodingIsExactExactlyWhen | src/millrace/streaming/parser.py:268-276 | for any number of bytes the text denotes unscaled * 10^-scale if and only if that number has at most 28 significant digits |
| DebeziumDecimal.DecodingInvertsEncoding | src/millrace/streaming/parser.py:268-276 | decoding inverts encoding in any width of up to 11 bytes, so sign-extension bytes do not matter |
| DebeziumDecimal.PriceDecodes | tests/unit/streaming/test_parser.py:150-198 | the bytes of 1995 and of its negative read 19.95 and -19.95 at scale 2 |
| DebeziumDecimal.SignBytesDoNotMatter | src/millrace/streaming/parser.py:275-276 | bytes that repeat the sign in front do not change the decoded text |
| DebeziumDecimal.DecodedValuesCanonicaliseAlike | src/millrace/validation/canonical.py:143-155 | two decoded columns have one canonical text if and only if they are one number, whatever their bytes and scales |
| DebeziumDecimal.TwelveBytesLoseDigits | src/millrace/streaming/parser.py:276-276 | 12 bytes can be too many: at every scale the text decoded from 2^95 - 1 denotes another number |
| Canonical.ColumnChecksum | src/millrace/validation/canonical.py:52-64 | the digest of the framed texts of the rows in key order, or an exception if any text or frame fails |
| Canonical.GroupedCounts | src/millrace/validation/canonical.py:67-75 | how often each display key occurs |
| Canonical.AggregateValues | src/millrace/validation/canonical.py:78-108 | per group the canonical text of its aggregate, or an exception if any fails |
| CellTheorems.TextExistsExactlyWhen | src/millrace/validation/canonical.py:16-41 | exactly the values a column can hold have a canonical text, and only NULL has that of NULL |
| CellTheorems.TextDecidesValue | src/millrace/validation/canonical.py:16-41 | two values of one column have one canonical text if and only if they are one value: texts with one NFC form, one day, one instant, one truth value, one integer, decimals that round to one number, or both NULL |
| CellTheorems.RowDecides | src/millrace/validation/canonical.py:111-112 | two rows have the same canonical texts if and only if they hold the same value in every column |
| CellTheorems.OneRelationExactlyWhenPaired | src/millrace/validation/service.py:157-174 | two sides are one canonical relation if and only if their rows can be paired off so that paired rows hold the same value in every column |
| GroupTheorems.GroupedTogetherExactlyWhen | src/millrace/validation/canonical.py:115-116 | two rows are counted together if and only if they hold the same value in every grouping column: over one column always, over several when no text holds a bar |
| GroupTheorems.JoinDecides | src/millrace/validation/canonical.py:115-116 | over several columns display keys are equal if and only if all the texts are, when none holds a bar |
| GroupTheorems.OneColumnKey | src/millrace/validation/canonical.py:115-116 | over one column the display key is the canonical text of the cell |
| GroupTheorems.CountsMean | src/millrace/validation/canonical.py:67-75 | counts exist if and only if every cell has a text, and give, for one column or texts without bars, for all texts by column the number of rows with them, and nothing else |
| GroupTheorems.AggregatesMean | src/millrace/validation/canonical.py:84-107 | the aggregate reported for a group is that of the values of exactly the rows with the group's texts, and groups without rows are not reported |
| GroupTheorems.OneGroupOfAll | src/millrace/validation/canonical.py:86-87 | without grouping columns there is one group, of all the values |
| GroupTheorems.OnlyNullsAggregateToNull | src/millrace/validation/canonical.py:92-94 | NULLs alone have the aggregate NULL, and nothing else has it |
| Framing.FramesAreInjective | src/millrace/validation/canonical.py:119-122 | no two lists of texts give one length-prefixed byte stream |
| Framing.ChecksumDecides | src/millrace/validation/canonical.py:52-64 | equal checksums mean equally many rows that, sorted by key, agree in key and cell |
| Framing.AlikeChecksums | src/millrace/validation/canonical.py:52-64 | rows that agree in key and cell have equal checksums |
| Framing.ChecksumExactlyWhen | src/millrace/validation/canonical.py:52-64 | a column has a checksum if and only if every row has canonical texts for its key and its cell, each of less than 2^64 bytes |
| Totals.TotalIsExact | src/millrace/validation/canonical.py:95-98 | a sum of any length is exact while its total magnitude is below 10^28 units of some 10^e |
| SumOrder.PartialSumsExactExactlyWhen | src/millrace/validation/canonical.py:95-98 | every partial sum is the exact one if and only if every exact partial sum has at most 28 significant digits |
| SumOrder.SumDependsOnOrder | src/millrace/validation/canonical.py:95-98 | for every q of 28 digits 10q, 1 and -10q sum to 0, and to 1 with the 1 last |
| SumOrder.PermutedCandidateFails | src/millrace/validation/service.py:175-186 | a candidate that holds the source's rows in another order fails its aggregate check on such a sum |
| Extremes.NumberDecidesText | src/millrace/validation/canonical.py:16-41 | values of one non-text column have one canonical text if and only if they are one number |
| Extremes.ExtremeByTexts | src/millrace/validation/canonical.py:101-104 | the canonical text of the minimum or maximum depends only on the multiset of texts |
| Extremes.ComparableExactlyWhen | src/millrace/validation/canonical.py:101-104 | which two values compare, and how |
| Redundancy.SumMeans | src/millrace/validation/canonical.py:95-100 | the text of a sum reads back as the exact sum of the group |
| Redundancy.ExtremeMeans | src/millrace/validation/canonical.py:101-104 | the text of a minimum or maximum is that of a value of the group which no other is beyond |
| Redundancy.AgreeingCounts | src/millrace/validation/canonical.py:67-75 | rows that agree column by column have equal grouped counts |
| Redundancy.AgreeingAggregates | src/millrace/validation/canonical.py:78-108 | and equal minima, maxima and, while they fit 28 digits, sums |
| Gate.CompareEntity | src/millrace/validation/service.py:127-187 | all checks of one entity, in order, or an exception if any cannot be computed |
| Gate.Validate | src/millrace/validation/service.py:54-100 | one report over all entities; an exception leaves one failing check for its entity; passed only if there are checks and all pass |
| Gate.PartitionChecks | src/millrace/validation/service.py:209-227 | one check per partition, comparing grouped counts of source and candidate |
| Gate.ChecksumChecks | src/millrace/validation/service.py:157-174 | one check per column, comparing checksums of source and candidate |
| Gate.AggregateChecks | src/millrace/validation/service.py:175-186 | one check per aggregate, comparing the groups' texts |
| GroupTheorems.PartitionPassesExactlyWhen | src/millrace/validation/service.py:209-227 | a partition check passes if and only if every cell on both sides has a text and all texts, by column, occur equally often on both: over one column always, over several when no text holds a bar |
| GateTheorems.DeleteCheckDecides | src/millrace/validation/service.py:190-206 | the delete check exists if and only if all keys are readable, passes if and only if no candidate row has the key of a tombstone, and shows the keys that are in both |
| GateTheorems.FirstChecksDecide | src/millrace/validation/service.py:134-152 | the presence check passes if and only if empty tables are allowed or both sides have rows, the count check if and only if they have equally many; what they show are the numbers of rows |
| Reconciliation.ChecksumsDecideTheRelation | src/millrace/validation/service.py:157-174 | with distinct canonical keys all checksums agree if and only if source and candidate are one relation of canonical values |
| GateTheorems.EntityIsSound | src/millrace/validation/service.py:127-187 | passing checks mean that both sides are readable throughout and one canonical relation, and that no tombstone survives, without assuming distinct keys |
| GateTheorems.GateIsSound | src/millrace/validation/service.py:54-100 | a passed report means this of every configured entity, all of it actually fetched |
| GateMeaning.PassedReportMeansSameData | src/millrace/validation/service.py:54-100 | a passed report means of every configured entity that source and candidate rows pair off with the same value in every column |
| GateMeaning.WrongCellNeverPasses | src/millrace/validation/service.py:54-100 | a candidate row under the key of a source row, the only one of its key, with another value in some column: no report over it is passed |
| GateMeaning.WrongTextNeverPasses | src/millrace/validation/canonical.py:22-22 | in particular a text cell with another NFC form |
| GateMeaning.ReportPassesExactlyWhen | src/millrace/validation/service.py:75-75 | a report is passed if and only if there are entities and every check of every one of them passes, the check that stands for an exception included |
| GateTheorems.UnreadableNeverPasses | src/millrace/validation/service.py:108-125 | a raising reader, or a missing tombstone reader, never yields a passed report |
| GateTheorems.ChecksumsSubsumeTheRest | src/millrace/validation/service.py:134-187 | when all checksums pass, row count, partition counts and aggregates are computed and pass |
| GateCompleteness.EntityDecides | src/millrace/validation/service.py:127-187 | over checkable rows all checks of an entity pass if and only if it is reconciled |
| GateCompleteness.GateDecides | src/millrace/validation/service.py:54-100 | over checkable rows a report is passed if and only if every entity is reconciled |
| GateCompleteness.PermutationPasses | src/millrace/validation/service.py:127-187 | any permutation of a checkable, non-empty source passes every check |
| GateCompleteness.FaultIsLocalised | tests/e2e/test_published_stack.py:219-223 | candidate and source differ in one column only, which no key, partition or aggregate mentions, if and only if the failing checks are exactly that column's checksum |
| GateCompleteness.RepeatedKeysReadInOrder | src/millrace/validation/canonical.py:59-59 | distinct canonical keys are needed: two rows with one key and different cells give different checksums in the two orders |
| SnapshotReaders.CoercionIsLossless | src/millrace/validation/readers.py:160-168 | a value with a canonical text is not coerced, and a coerced value is the same number |
| SnapshotReaders.CoercedExactlyWhen | src/millrace/validation/readers.py:160-168 | a decimal in an integer column becomes readable if and only if it is whole, a number in a Boolean column if and only if it is 0 or 1, and then as false or true; nothing else changes |
| SnapshotReaders.UniqueKeysExactlyWhen | src/millrace/validation/readers.py:171-174 | the readers accept rows if and only if no business key repeats, whatever its types |
| SnapshotReaders.UniqueKeysAreDistinct | src/millrace/validation/readers.py:171-174 | with integer keys the readers accept rows if and only if no canonical key repeats |
| Comparison.CachingReader.Fetch | src/millrace/validation/comparison.py:25-43 | the remembered rows if there are any, else what the wrapped reader gives, remembered unless it raises |
| Comparison.CheckEntity | src/millrace/validation/service.py:56-74 | one entity of one target over the caching readers, fetch by fetch |
| Comparison.RunTargets | src/millrace/validation/__main__.py:171-193 | the reports of all targets, validated in turn over shared caches |
| Comparison.CompareReports | src/millrace/validation/comparison.py:46-107 | the disagreements between the reports, and whether all passed and none disagrees |
| ComparisonTheorems.ComparisonDecides | src/millrace/validation/comparison.py:46-107 | a comparison passes if and only if every report passed and, of every entity and check name, all targets have a last check or none has, with the same verdict, expected value and actual value |
| ComparisonTheorems.DisagreementsMean | src/millrace/validation/comparison.py:54-107 | a missing disagreement names exactly the targets without the check, a differing one what each target says when all have it |
| ComparisonTheorems.TargetOrderPlaysNoPart | src/millrace/validation/comparison.py:53-55 | the order of the targets does not matter |
| ComparisonTheorems.EveryCheckIsCompared | src/millrace/validation/comparison.py:54-57 | with unique check names every check of a report is compared |
| ComparisonTheorems.AsManyAsChecks | src/millrace/validation/comparison.py:54-57 | the comparison holds as many checks as a report if and only if their names are unique |
| CheckNames.ReportNamesUniqueExactlyWhen | src/millrace/validation/models.py:59-113 | the check names of a target's report are unique, and as many are compared, if and only if for every entity the checks could not be run, or the partitions and the aggregates have names of their own; the configuration does not ask for that |
| ComparisonTheorems.ExpectedNeverDiffers | src/millrace/validation/comparison.py:13-43 | however the source changes between reads, two targets have equal expected values and one set of tombstones for every entity both could read |
| ComparisonTheorems.PassedTargetsHoldOneRelation | src/millrace/validation/comparison.py:13-43 | when their reports pass, two warehouses are readable throughout and hold one canonical relation per entity |
| Pipeline.LiveIsVouchedOnSnowflake | src/millrace/validation/__main__.py:138-201 | in every interleaving of validations, comparisons, promotions and crashes, what is live was found readable throughout and reconciled, entity by entity, by an earlier validation of that run at that batch |
| Pipeline.LiveIsVouchedOnDuckDb | src/millrace/validation/__main__.py:138-201 | the same on DuckDB |
| Pipeline.FailedValidationRevokes | src/millrace/validation/audit.py:124-172 | on Snowflake: once a failed re-validation is recorded, no promotion of the run at that batch is accepted and no live view changes to it, until a later validation of it passes |
| Pipeline.FailedValidationRevokesOnDuckDb | src/millrace/validation/audit.py:66-90 | on DuckDB: once a failed re-validation is recorded, every promotion of the run at that batch is refused or interrupted and changes nothing, until a later validation of it passes |
| Pipeline.ValidatedRunGoesLive | src/millrace/validation/__main__.py:138-201 | on Snowflake, from every state of the pipeline: a run whose own validation passed, with nothing newer published and no row of it at another batch, goes live |
| Pipeline.ValidatedRunGoesLiveOnDuckDb | src/millrace/validation/__main__.py:138-201 | on DuckDB likewise, where the status view has its schema |
| Pipeline.ComparisonsLeaveNoTrace | src/millrace/validation/__main__.py:67-79 | audit rows, publication rows and views are what they would be had no comparison been run |
| EndToEnd.LiveIsTheReplayedStream | src/millrace/validation/publication.py:167-230 | under stamped deletes, when the source was read after the last loading batch up to the cutoff had closed, what is live on Snowflake was validated, readable throughout, to be the relation that replaying the change stream gives, in any order and with any replays |
| EndToEnd.LiveIsTheReplayedStreamOnDuckDb | src/millrace/validation/publication.py:46-127 | the same of what is live on DuckDB |
| Storage.QuotingIsInvertible | src/millrace/streaming/storage.py:10-14 | percent-encoding is undone by decoding |
| Storage.QuotedByteIs | src/millrace/streaming/storage.py:14-14 | letters, digits and the four marks stand for themselves, every other byte becomes a percent sign and two hexadecimal digits |
| Storage.ComponentDecides | src/millrace/streaming/storage.py:10-14 | a text has a path component if and only if stripping leaves something of it, and components are equal if and only if the stripped texts are |
| Storage.ListingFindsItsOwn | src/millrace/warehouse/snowflake_target.py:220-225 | an object of one run and entity begins with the listing prefix of another if and only if stripped run id and entity are equal |

## Left out

- DuckDB names qualified with the name of their own database, and its temporary and system catalogs.
- A relation template that spells out one run's candidate schema instead of its placeholder: views are told apart by template and run.
- SQL text, drivers, Spark, Kafka, S3, Airflow, the command line and settings: statements and queries are modelled by their relational effect only.
- Queries do not fail on their own: a connection that dies is seen by the next statement. A missing audit table reads as an empty one.
- `publication_runs.published_at` on Snowflake, and so the order of the status view there: it is set at the pending insert, and nothing is claimed about its first row.
- Concurrent promoters: the code assumes one writer.
- Tables other than the one modelled, foreign keys and cascades: a cascaded delete is a delete of its own; a primary key that changes in an update is not modelled.
- Reader configurations without a sequence column or without a deleted column in the as-of query; the gate does model entities without delete checks.
- Floating point columns, ISO texts given as dates or timestamps, and a timestamp given for a date column.
- Decimal texts with a plus sign, without a digit on either side of the point, with surrounding spaces or with underscores, which `Decimal` reads and `ReadFixed` does not.
- Decimal texts with exponents, decimals at the limits of the exponent range, and non-finite values inside a minimum or maximum, where the model raises and Python may return a finite value; the column's checksum raises in both.
- Unicode case folding and digits: identifiers, topics and digit strings are ASCII.
- Multi-column display keys are joined with `|` as in the code; they tell groups apart when no text contains a bar (`JoinDecides`), and nothing is claimed when one does.
- Minima and maxima over text columns: NFC does not preserve order, so checksums do not subsume them.
- The `actual` value of the delete check is kept as the set of key tuples, not as sorted joined texts; result dictionaries and the list of disagreements are maps, so their order is not modelled.
- Check error texts, parser error details, report files, metrics, `source_timestamp_ms` and `raw_payload`.
- The event-date partition filter of backfills, Kafka offsets and checkpoints, bronze and dead-letter paths.
- ParserTheorems.ParsedChange: takes key-preserving changes whose key text is the row's, because the triggers' mutations are modelled as key-preserving.
- The typed parsing of `row_json` in the Spark job; the snapshot row keeps the event's row.
