# LandVault: verified models of its stateful core

A Dafny model of the parts of the repository whose correctness is hard to see from
the code, with machine-checked proofs. `dafny verify dfyconfig.toml` checks
everything.

**The audit log** (`CanonicalJson`, `JsonReader`, `CanonicalMeaning`,
`CanonicalReading`, `CanonicalSpelling`, `AuditChain`, `ChainVerifier`,
`AuditStorage`, `AuditProtocol`, `AuditLinks`, `AuditGuarantees`, `AuditRecords`,
`AuditCoupling`, `UnitOfWork`, `RequestContext`).
Entries are sealed by a hash of their canonical JSON text and linked to a
predecessor. The iterative, memoised verifier is proved equal to an inductive
specification, with a linear step bound. Writers are a system of atomic steps: any
number of requests read the last hash, stage rows, write eagerly, commit or roll
back, in any order. Every reachable committed log passes the verifier, and a
request's audit rows share the fate of its changes.

**The supersession lineage** (`Lineage`, `LineageStatements`, `LineageChains`,
`LineageTransactions`, `AttributionTable`). A trigger walks the ancestry of each row
of a multi-row INSERT while later rows, and so the targets of pointers, are still
missing. No cycle can appear at any moment, and the table is a disjoint union of
finite linear chains; both hold for statements one after another and for
transactions that interleave.

**The rate limiter** (`RateLimiter`, `RateLimitMiddleware`). The pruned deque decides
as a recount of all admissions would, and bounds the admissions in every window.

**The preview refresh** (`Refresh`). Single flight, coalescing, no lost wake-up.

**The stored trust score** (`TrustScore`). A cached column kept by six handlers.

**The policy registry** (`Policies`, `PolicyRegistry`, `TenantGuarantees`,
`PolicyAnswers`). Stable priority order, first decision wins, tenant isolation.

## What the proofs turned up

Where the code is not what its comments or an obvious reading suggest, the model
follows the code and the proofs say where the property ends.

- Escapes work on UTF-16 code units, so a Python string that spells an astral
  character as two surrogates has the same text as the character itself.
  `CanonicalSpelling.TextSharedIffRespellable` is the exact condition for a whole
  document, and `AuditChain.UndetectedForgeryIff` for a tampered entry: such a
  respelling is the one change that needs no digest collision.
- The tamper results do not assume a collision-free digest: they exhibit the two
  texts on which it would have had to collide.
- The verifier accepts an entry that itself carries the genesis hash, whatever its
  predecessor. The results on closure and deletion account for such an entry.
- The committed log verifies when every entry id is 32 lowercase hexadecimal digits.
  `audit` takes a caller's id as it is; any other spelling (a hyphenated UUID, say)
  breaks the whole log, in every run, short of a digest collision.
- The 10000-pointer bound fails closed but does not bound lineages. A single
  statement that lists its rows newest first builds a lineage of any length, because
  each row points at one that is not there yet. From 10000 rows on, its head can
  never be corrected, by any later command.
- A client that waits exactly the advertised `Retry-After` is admitted if and only
  if less than a second of the window was left. One second later it always is.
- A scan that throws loses the call it was to serve, and leaves a queued one with
  nothing in flight. The first failure of a run always does; a later one is harmless
  only when it was the follow-up of a flag that an earlier failure had left set.
  `Refresh.RestIsUpToDateIff` is the exact condition. Once a later scan has completed
  and none is in flight, all is up to date again.
- An empty status string is written but not acted on, so the stored trust score can
  go stale; `TrustScore.MakesStale` is the exact condition.
- Cross-tenant denial holds for extra policies of priority above 10. In general the
  policies ahead of the tenant policy speak first, and they include those of
  priority 10 registered before the defaults.
- If a policy takes a default policy's id before the defaults are registered,
  `authorize` raises on every request until the registry is reset.

## Model

| member | source | states |
|---|---|---|
| CanonicalReading.EscapeUnitPrefix | backend/app/kernel/audit.py:40-54 | Escapes inside JSON strings form a prefix code: an escape followed by any text determines both. |
| CanonicalReading.DigitsDenote | backend/app/kernel/audit.py:40-54 | Printing an integer's digits and reading them back is the identity. |
| CanonicalReading.PrintPrefix | backend/app/kernel/audit.py:40-54 | The text of any nested document, followed by anything that may follow a value, determines the document and what follows. |
| CanonicalReading.PrintInjective | backend/app/kernel/audit.py:40-54 | Two sorted and escaped documents with one text are the same document. |
| CanonicalReading.PrintedReads | backend/app/kernel/audit.py:40-54 | A reader written from the JSON grammar reads the text of any document, whatever may follow it, back as that document. |
| CanonicalReading.CanonicalTextReads | backend/app/kernel/audit.py:40-54 | The canonical text of any document is one JSON value without whitespace and nothing else; it reads back as the document if and only if no astral character in it is spelled as two surrogates, and then the keys of every dictionary ascend by code point. |
| CanonicalReading.EscapeIsShortest | backend/app/kernel/audit.py:40-54 | Of all ways to write a code unit inside a string, with lower-case hexadecimal digits, the text uses the one shortest. |
| CanonicalReading.NumberTextIsUnique | backend/app/kernel/audit.py:40-54 | There is no other way to write an integer than the text's, except minus zero. |
| CanonicalReading.UnitsDecode | backend/app/kernel/audit.py:40-54 | Decoding the UTF-16 code units of a string without split pairs gives the string back. |
| CanonicalReading.LessIsCodePointOrder | backend/app/kernel/audit.py:52 | The order of keys is, in both directions, the order by code point, a proper prefix first. |
| CanonicalMeaning.SortIsSorted | backend/app/kernel/audit.py:52 | `sort_keys` yields strictly increasing keys, with the same members. |
| CanonicalMeaning.SortedUnique | backend/app/kernel/audit.py:52 | A strictly sorted member list is determined by its members, so the order of insertion is forgotten. |
| CanonicalMeaning.MeaningFixesWire | backend/app/kernel/audit.py:40-54 | Documents that are equal up to the order of dictionary keys, at any nesting, are written out the same. |
| CanonicalSpelling.OneKeySuffices | backend/app/kernel/audit.py:52-53 | If the sorted keys of a dictionary can be respelled together and stay sorted, some single key can be respelled between its neighbours. |
| CanonicalSpelling.WireFixesMeaning | backend/app/kernel/audit.py:40-54 | A document that cannot be respelled in place is determined, up to key order, by its written form, among all documents. |
| CanonicalSpelling.TextSharedIffRespellable | backend/app/kernel/audit.py:40-54 | Exact condition on a whole document: another document has its text if and only if some string value in it is ambiguous, or some key has another spelling that sorts between the same neighbours. |
| CanonicalSpelling.CanonicalTextIdentifiesValue | backend/app/kernel/audit.py:40-54 | If one of two documents cannot be respelled, their texts are equal if and only if they are equal up to key order, whatever the other one holds. |
| CanonicalSpelling.PlainIsNotRespellable | backend/app/kernel/audit.py:40-54 | A document without ambiguous strings, lone surrogates allowed, cannot be respelled. |
| CanonicalSpelling.StringTextShared | backend/app/kernel/audit.py:40-54 | A string shares its text with another string if and only if it holds an astral code point or a surrogate pair spelled as two code points. |
| CanonicalSpelling.SurrogatePairCollides | backend/app/kernel/audit.py:40-54 | A concrete pair of different strings with one canonical text. |
| AuditChain.DocumentMeaning | backend/app/kernel/audit.py:40-51 | The hashed documents of two entries are equal if and only if all nine hashed fields are, payloads compared as dictionaries. |
| AuditChain.DocumentValue | backend/app/kernel/audit.py:40-51 | The hashed document is the dictionary of the nine fields, each under its name. |
| AuditChain.HashedTextReads | backend/app/kernel/audit.py:28-55 | The hash of an entry is the digest of a text that reads as exactly those nine fields, with ascending keys. |
| AuditChain.GenesisIsZeros | backend/app/kernel/audit.py:21 | The genesis hash is 64 zero digits. |
| AuditChain.SameContentSameHash | backend/app/kernel/audit.py:71-82 | Entries with equal hashed content recompute to the same hash under any digest, whatever the payload's key order. |
| AuditChain.SameTextIffSameFieldWires | backend/app/kernel/audit.py:40-54 | Two entries have one canonical text if and only if each of the nine fields is written the same. |
| AuditChain.DifferentContentCollides | backend/app/kernel/audit.py:28-55 | If an entry of which nothing can be respelled shares its hash with any entry of different content, the digest has collided on their two texts. |
| AuditChain.TamperingIsDetected | backend/app/kernel/audit.py:244-246 | Changing any hashed field of an entry in any way while keeping its stored hash breaks an intact snapshot, or exhibits a digest collision, unless the original entry can be respelled; nothing is asked of the forged one. |
| AuditChain.UndetectedForgeryIff | backend/app/kernel/audit.py:28-82 | The condition is exact: an entry of an intact snapshot can be replaced unnoticed, without a collision, if and only if some hashed field of it, or some string or key of its payload, can be respelled. |
| AuditChain.SubSnapshotIntactIffClosed | backend/app/kernel/audit.py:215-252 | A sub-snapshot of an intact snapshot, in any order, is intact if and only if it is closed under predecessors. |
| AuditChain.OrderIsIrrelevant | backend/app/kernel/audit.py:227-230 | The verdict is the same for every order of the entries. |
| AuditChain.DeletionDetectedIffReferenced | backend/app/kernel/audit.py:224-227 | Deleting one entry goes unnoticed if and only if no other entry still needs it. |
| ChainVerifier.WalkSharesFate | backend/app/kernel/audit.py:290-291 | Every entry of a backward walk reaches genesis if and only if the walk's end does, which justifies the memo. |
| ChainVerifier.CycleNeverReaches | backend/app/kernel/audit.py:279-281 | A walk that comes back to itself never reaches genesis, in any number of steps. |
| ChainVerifier.Walk | backend/app/kernel/audit.py:269-288 | The loop ends on every snapshot, cyclic ones included, with the specification's verdict; it walks no entry twice and none that is remembered. |
| ChainVerifier.Remember | backend/app/kernel/audit.py:290-291 | Exactly the walk's entries are recorded, all with the walk's verdict, and older records stay. |
| ChainVerifier.ReachesGenesis | backend/app/kernel/audit.py:255-292 | Returns whether the predecessor chain reaches genesis; every memo entry stays right; turns of the loop are paid for by entries newly walked, plus one. |
| ChainVerifier.IndexByHash | backend/app/kernel/audit.py:234-242 | Succeeds if and only if stored hashes are pairwise distinct, and then indexes the whole snapshot. |
| ChainVerifier.AllRecompute | backend/app/kernel/audit.py:244-246 | True if and only if every entry recomputes to its stored hash. |
| ChainVerifier.AllReachGenesis | backend/app/kernel/audit.py:248-252 | True if and only if every predecessor chain reaches genesis; entries walked are distinct, turns are at most two per entry. |
| ChainVerifier.VerifyChain | backend/app/kernel/audit.py:215-252 | True if and only if the snapshot is intact; over the whole pass no entry is walked twice and the loop turns at most 2V times. |
| AuditStorage.HexRoundTrip | backend/app/kernel/audit_postgres.py:107-114 | Parsing hexadecimal digits and printing as many is the identity. |
| AuditStorage.NumberRoundTrip | backend/app/kernel/audit_postgres.py:107-114 | Printing a number that fits and parsing it is the identity. |
| AuditStorage.EntrySurvivesIffHexId | backend/app/kernel/audit_postgres.py:44-62 | Writing an entry and reading it back preserves every hashed field if and only if its id is 32 lowercase hexadecimal digits. |
| AuditStorage.HexIdShowsInText | backend/app/kernel/audit_postgres.py:107-114 | An entry whose id reads as 32 hexadecimal digits never shares its text with one whose id does not, whatever the other fields hold. |
| AuditStorage.SealSurvivesIffHexId | backend/app/kernel/audit_postgres.py:101-126 | After the round trip the entry still recomputes to its stored hash when its id has that form, and otherwise only on a digest collision. |
| AuditRecords.NewRowCarries | backend/app/kernel/audit.py:154-176 | A new row records its call field by field and column by column, after the hash that was read, sealed over exactly these fields. |
| AuditRecords.ScopeIsTheTenants | backend/app/kernel/uow.py:83-89 | The scope is the caller's own tenant exactly for a caller with a tenant who is neither anonymous nor a super admin; any other gets the cross-tenant flag. |
| AuditLinks.TidyWeave | backend/app/kernel/audit_postgres.py:78-92 | Two continuations of one log that share no hash can be committed one after the other without leaving a dangling predecessor. |
| AuditLinks.LastHashIsKnown | backend/app/kernel/audit_postgres.py:94-99 | The last hash is genesis or the hash of a visible row, whichever row has the latest timestamp and however ties fall. |
| AuditLinks.CommittedIsLinked | backend/app/kernel/uow.py:90-95 | Committing one session keeps the linked invariant for the log, for every other open session's view and for every pending read. |
| AuditLinks.StepKeepsLinked | backend/app/kernel/audit_postgres.py:64-99 | Every step of every writer keeps hashes distinct and every predecessor earlier in the log or in the writer's own session. |
| AuditLinks.RunKeepsLinked | backend/app/kernel/audit_postgres.py:64-99 | So does every run, from the empty table, under every interleaving. |
| AuditGuarantees.RunKeepsGenuine | backend/app/kernel/audit.py:130-176 | In every run every row, committed or staged, is a sealed entry written as a record. |
| AuditGuarantees.TidyLogIsIntact | backend/app/kernel/audit_postgres.py:101-126 | Reading back a log with the run invariant gives an intact snapshot if and only if every seal survives: the id is 32 lowercase hexadecimal digits, or the digest has collided on that entry. |
| AuditGuarantees.CommittedLogVerifiesIff | backend/app/kernel/audit_postgres.py:64-126 | Under every interleaving of eager and staged audits, commits and rollbacks, the committed log read back in any order verifies if and only if every seal survives. |
| AuditGuarantees.CommittedLogAlwaysVerifies | backend/app/kernel/audit_postgres.py:64-99 | Under every interleaving of eager and staged audits, commits and rollbacks, the committed log read back in any order is intact, given ids of 32 lowercase hexadecimal digits. |
| AuditGuarantees.OtherIdsBreakTheLog | backend/app/kernel/audit_postgres.py:44-62 | A committed row with any other id makes the log, read back in any order, fail in every run, or the digest has collided. |
| AuditGuarantees.AnyIdCanBeCommitted | backend/app/kernel/audit.py:151 | Every id a caller gives can get into the committed log, and that log has only hexadecimal ids if and only if the given one is. |
| AuditGuarantees.HyphenatedIdBreaksTheLog | backend/app/kernel/audit_postgres.py:107-114 | A concrete run: one eager audit under a hyphenated UUID commits a log that does not verify, short of a collision on that entry. |
| AuditRecords.EveryRowIsCalledFor | backend/app/kernel/audit_postgres.py:64-99 | In every run each row, committed or pending, records field by field the call of some audit step of the run, after a hash that the same audit's read returned. |
| AuditRecords.LatestIsRead | backend/app/kernel/audit_postgres.py:94-99 | Among rows with increasing timestamps the last one's hash is what is read. |
| AuditRecords.AuditsInOrderFormOneChain | backend/app/kernel/audit_postgres.py:94-99 | Audits made one after another with increasing timestamps form a single chain, each entry's predecessor being the entry right before it. |
| AuditCoupling.SessionsHoldTheirSteps | backend/app/kernel/uow.py:64-98 | In every run a session holds, while open and when it ends, exactly the rows of its staging steps and the changes of its writing steps. |
| AuditCoupling.EagerRowsAreKept | backend/app/kernel/audit_postgres.py:147-150 | In every run the eager rows are exactly those of the eager appends, in order. |
| AuditCoupling.SessionSharesOneFate | backend/app/kernel/uow.py:90-98 | From any coupled state, read off its steps alone: after a return or an HTTP error exactly the rows a session staged and the changes it wrote are durable; after a crash, or before its end, none of either. |
| AuditCoupling.RowsShareTheFateOfChanges | backend/app/kernel/uow.py:64-98 | The same for all sessions of every run at once; besides, exactly the rows of eager audits are durable, whatever became of the requests that made them, and every open session runs under the scope of the context it began with. |
| AuditCoupling.AppendHereBreaksCoupling | backend/app/kernel/uow.py:21-31 | Binding the request's own session as the audit store would clear its scope and make its changes survive a crash. |
| AuditCoupling.ExecConcat | backend/app/kernel/audit_postgres.py:64-99 | Runs compose: executing two sequences of steps in turn is executing their concatenation. |
| UnitOfWork.Backend.Await | backend/app/kernel/audit_postgres.py:144-158 | While a session awaits, others may take any steps that are possible; that is a run of the protocol and leaves the session's own rows, changes and read alone. |
| UnitOfWork.AnyRunMayHappen | backend/app/kernel/audit_postgres.py:144-158 | Any run of other sessions is a possible outcome of waiting, so what holds after waiting holds under every interleaving. |
| UnitOfWork.Backend.LastHash | backend/app/kernel/audit_postgres.py:94-99 | Returns the hash of a visible row with the greatest timestamp, or genesis if there is none. |
| UnitOfWork.Backend.Flush | backend/app/kernel/audit_postgres.py:91-92 | Adds the row to the session's own view if its hash is unused anywhere, and otherwise changes nothing. |
| UnitOfWork.Backend.AuditStaged | backend/app/kernel/audit_postgres.py:161-209 | Reads the last hash of the session's own view, lets others take any steps, and flushes a row that records the call field by field after what was read; it fails only on a hash that is then taken and commits nothing. |
| UnitOfWork.Backend.AppendAndCommit | backend/app/kernel/audit_postgres.py:147-150 | The row is durable at once, or refused for a hash that is taken; no open session changes. |
| UnitOfWork.Backend.Audit | backend/app/kernel/audit.py:179-212 | Reads the committed log's last hash, lets others take any steps, and makes durable a row that records the call field by field after what was read; it fails only on a hash that is then taken. |
| UnitOfWork.Backend.Finish | backend/app/kernel/uow.py:90-98 | A return and an HTTP error make the session's rows and changes durable, anything else drops them; a step of the protocol. |
| UnitOfWork.OneMoreDone | backend/app/kernel/uow.py:90-91 | One more action of a handler adds its change, its staged row or its eager row to what the session and the log already hold, and nothing else. |
| UnitOfWork.Backend.StagedStep | backend/app/kernel/audit_postgres.py:161-209 | A staged audit adds to its session exactly the row sealed after the last hash that the session saw, or adds nothing because that row's hash is taken. |
| UnitOfWork.Backend.EagerStep | backend/app/kernel/audit_postgres.py:147-154 | An eager audit puts the row sealed after the last committed hash it saw into the log, or fails because that row's hash is taken; its caller's session is untouched. |
| UnitOfWork.Backend.RunHandler | backend/app/kernel/uow.py:90-91 | A handler's body, with others at work around and inside every action: the session holds exactly the rows and changes of the actions that went through, their eager rows are in the log, all queries see the scope set at the start, and the body stops early only at an audit whose row's hash is taken. |
| UnitOfWork.EndsLeavingBehind | backend/app/kernel/uow.py:90-98 | At the end of a kept session every change, staged audit and eager audit of its handler is recorded; after a crash the log and the changes hold nothing of the session. |
| UnitOfWork.Backend.GetDbSession | backend/app/kernel/uow.py:64-98 | A whole request, interleaved with any number of others: after a return or an HTTP error every action of the handler is recorded, its session's share in order and nothing else of it; after a crash nothing of the session is, and the eager audits that went through are; every query sees the caller's scope; only an audit whose row's hash is taken turns another ending into a crash. |
| Lineage.AncestryOfFullLineage | backend/migrations/versions/0014_evidence_actor_attributions.py:332-342 | The recursive query visits a whole lineage in order, cut off exactly at the bound. |
| Lineage.VerdictOnFullLineage | backend/migrations/versions/0014_evidence_actor_attributions.py:340-361 | The verdict, error included, read off the whole lineage: a cycle if the row's own id is among its first 10000 pointers, else too deep if it has that many, else pass. |
| Lineage.TriggerPassesExactly | backend/migrations/versions/0014_evidence_actor_attributions.py:332-361 | The trigger passes a superseding row if and only if its whole unbounded lineage stops in fewer than 10000 pointers without the row's own id. |
| Lineage.ClosingRowIsRejected | backend/migrations/versions/0014_evidence_actor_attributions.py:344-361 | A row that would close a loop of any length, also beyond the bound, is rejected. |
| Lineage.PassingRowKeepsAcyclic | backend/migrations/versions/0014_evidence_actor_attributions.py:309-374 | A row that passes closes no loop in the pointer graph, whatever rows are missing. |
| LineageStatements.NoCycleAtAnyMoment | backend/migrations/versions/0014_evidence_actor_attributions.py:309-374 | After any history, and after any number of rows of a further statement in any order, the pointer graph is acyclic. |
| LineageStatements.TableIsLinked | backend/migrations/versions/0014_evidence_actor_attributions.py:213-225 | Between statements the graph is acyclic, each row is superseded at most once and every pointer resolves. |
| LineageStatements.StatementAcceptedIff | backend/migrations/versions/0014_evidence_actor_attributions.py:213-441 | A statement is accepted if and only if each row in turn has a new id, is its evidence's and its principal's tenant's, supersedes nothing or the end of a lineage of fewer than 10000 rows that nothing else supersedes, and in the end all pointers resolve; it then adds exactly its rows. |
| LineageStatements.OtherTenantsRowIsRefused | backend/migrations/versions/0014_evidence_actor_attributions.py:379-441 | A statement with a row whose evidence or principal is unknown or another tenant's changes nothing. |
| LineageStatements.StoredRowsAreVetted | backend/migrations/versions/0014_evidence_actor_attributions.py:379-441 | Every stored row was inserted while its evidence, and its principal if it has one, were known and of the row's own tenant. |
| LineageStatements.RowsAreForever | backend/migrations/versions/0014_evidence_actor_attributions.py:299-305 | A row once stored stays as it is after any further commands. |
| LineageChains.ChainThrough | backend/migrations/versions/0014_evidence_actor_attributions.py:213-225 | Through every row there is a whole chain from a head to a root; the walks to both ends terminate. |
| LineageChains.ChainsAreDisjoint | backend/migrations/versions/0014_evidence_actor_attributions.py:220-222 | Chains that share a row are the same chain. |
| LineageChains.HeadsEqualRoots | backend/migrations/versions/0014_evidence_actor_attributions.py:220-222 | There are as many heads as roots. |
| LineageChains.TableIsChains | backend/migrations/versions/0014_evidence_actor_attributions.py:213-225 | After any history the table is a disjoint union of finite linear chains, each row in exactly one, with as many heads as roots. |
| LineageChains.HeadCorrectableIffShort | backend/migrations/versions/0014_evidence_actor_attributions.py:356-361 | The trigger lets a chain's head be superseded if and only if the chain has fewer than 10000 rows. |
| LineageChains.LongChainIsFinal | backend/migrations/versions/0014_evidence_actor_attributions.py:356-361 | A chain of at least 10000 rows is the same chain, with the same head, after any further commands. |
| LineageChains.OneStatementBuildsAnyLength | backend/migrations/versions/0014_evidence_actor_attributions.py:332-361 | One newest-first statement builds a chain of any length; from 10000 rows on no later command ever gives it another head. |
| LineageTransactions.JoinIsAcyclic | backend/migrations/versions/0014_evidence_actor_attributions.py:213-225 | Rows of one transaction close no loop with committed rows whose foreign keys resolve, wherever their own pointers lead. |
| LineageTransactions.StepKeepsSound | backend/migrations/versions/0014_evidence_actor_attributions.py:309-374 | Every step of every transaction keeps all views acyclic, superseded once and apart, and committed foreign keys resolved. |
| LineageTransactions.NoTransactionSeesACycle | backend/migrations/versions/0014_evidence_actor_attributions.py:309-374 | However transactions interleave, no view ever holds a cycle or a row superseded twice, also in the middle of a statement while others commit. |
| LineageTransactions.CommittedTableIsChains | backend/migrations/versions/0014_evidence_actor_attributions.py:213-225 | However transactions interleave, the committed table is a disjoint union of finite linear chains at every moment. |
| LineageTransactions.CommittedRowsAreForever | backend/migrations/versions/0014_evidence_actor_attributions.py:299-305 | Committed rows stay as they are, whatever any transaction does afterwards. |
| LineageTransactions.RowInsertsIff | backend/migrations/versions/0014_evidence_actor_attributions.py:309-441 | A row goes into a transaction if and only if it fits the transaction's own view and no other transaction holds its id or its target. |
| LineageTransactions.OneStatementCommitsIff | backend/migrations/versions/0014_evidence_actor_attributions.py:213-441 | A transaction alone in the database that runs one statement can commit if and only if the statement is accepted, and commits what it stores. |
| LineageTransactions.CommittedRowsAreVetted | backend/migrations/versions/0014_evidence_actor_attributions.py:379-441 | However transactions interleave, every committed row was inserted while its evidence and principal were known and of the row's own tenant. |
| AttributionTable.Attributions.InsertEachRow | backend/migrations/versions/0014_evidence_actor_attributions.py:309-374 | Rows go in one after the other, each checked against those before it, up to the first refused one. |
| AttributionTable.Attributions.InsertStatement | backend/migrations/versions/0014_evidence_actor_attributions.py:213-225 | A statement is accepted if and only if all rows pass in turn and all foreign keys resolve at the end, and otherwise nothing changes. |
| AttributionTable.RefusedRowRefusesStatement | backend/migrations/versions/0014_evidence_actor_attributions.py:309-374 | One refused row refuses its whole statement, whatever rows follow it. |
| AttributionTable.Attributions.ResolveActiveHead | backend/app/contexts/evidence/application/attribution_service.py:197-215 | From any row the forward walk finds the head of its chain if the head is fewer than 10000 rows away, and otherwise reports that it did not terminate. |
| RateLimiter.AnyWindowIsBounded | backend/app/kernel/security/http_hardening.py:111-129 | In a throttled history at most `max_requests` admissions lie in any closed interval of the window's length, wherever it starts. |
| RateLimiter.SinceSince | backend/app/kernel/security/http_hardening.py:111-113 | Pruning again with a later cutoff is pruning the full history once. |
| RateLimiter.RetryAfterIsInRange | backend/app/kernel/security/http_hardening.py:115-127 | `Retry-After` lies between 1 and the window's length. |
| RateLimiter.LaterPassesIff | backend/app/kernel/security/http_hardening.py:111-114 | With no admission in between, a later request passes if and only if the oldest counted one has left the window. |
| RateLimiter.RetryASecondLaterPasses | backend/app/kernel/security/http_hardening.py:115-127 | A retry at least one second after the advertised time always passes. |
| RateLimiter.RetryOnTimePassesIff | backend/app/kernel/security/http_hardening.py:115-127 | A retry at exactly the advertised time passes if and only if less than a second of the window was left. |
| RateLimiter.RetryIsNotLate | backend/app/kernel/security/http_hardening.py:115-127 | Unless the advertised time is the minimum of one second, the window is still full one second before it. |
| RateLimiter.FullIsARecount | backend/app/kernel/security/http_hardening.py:111-114 | The window is full if and only if the admissions counted between its closed ends have reached the limit. |
| RateLimiter.DeployedLimits | backend/app/kernel/security/http_hardening.py:77-99 | The deployed limits in numbers, for each of the four path prefixes. |
| RateLimiter.OtherPathsAreUnlimited | backend/app/kernel/security/http_hardening.py:95-99 | No other path is limited. |
| RateLimiter.RateLimitsAreWellFormed | backend/app/kernel/security/http_hardening.py:77-84 | In the deployed table no prefix starts or ends with another. |
| RateLimiter.OneRuleMatches | backend/app/kernel/security/http_hardening.py:95-99 | At most one rule matches a path, so the table's order is irrelevant. |
| RateLimiter.KeysDiffer | backend/app/kernel/security/http_hardening.py:108 | A key determines its client and its rule, whatever characters the client address holds. |
| RateLimitMiddleware.RateLimitMiddleware.Prune | backend/app/kernel/security/http_hardening.py:112-113 | The pop loop leaves exactly the times at or after the cutoff. |
| RateLimitMiddleware.RateLimitMiddleware.Decide | backend/app/kernel/security/http_hardening.py:111-129 | From a deque pruned any time before, the decision is that of a recount of the full history, and the deque refines the new history. |
| RateLimitMiddleware.RateLimitMiddleware.Account | backend/app/kernel/security/http_hardening.py:108-129 | Deciding under a key updates that key's deque and history only. |
| RateLimitMiddleware.RateLimitMiddleware.Serve | backend/app/kernel/security/http_hardening.py:109-130 | A request under a key is turned away, with its `Retry-After`, if and only if a recount finds the window full, and admitted otherwise. |
| RateLimitMiddleware.RateLimitMiddleware.Dispatch | backend/app/kernel/security/http_hardening.py:101-130 | A request is rejected if and only if a recount of the admissions under its key finds the window full; the deque is the history within the window, sorted and within the limit; other keys are untouched; `Retry-After` is in range. |
| RateLimitMiddleware.AdmissionsAreBounded | backend/app/kernel/security/http_hardening.py:101-130 | In every reachable state, the admissions under a key in any closed interval of its window's length are within its limit. |
| RateLimitMiddleware.DeployedAdmissionsAreBounded | backend/app/kernel/security/http_hardening.py:77-130 | The deployed limiter admits per client in any 60 seconds at most 10 logins, 5 registrations, 30 refreshes and 5 invitation acceptances. |
| Refresh.StepKeepsSound | artifacts/mockup-sandbox/mockupPreviewPlugin.ts:82-111 | Every step keeps single flight, the accounting of calls and the no-lost-wake-up invariant. |
| Refresh.RunIsSound | artifacts/mockup-sandbox/mockupPreviewPlugin.ts:79-111 | In every run at most one scan is in flight, calls are started, queued or absorbed, and scans never outnumber calls. |
| Refresh.RestIsUpToDate | artifacts/mockup-sandbox/mockupPreviewPlugin.ts:82-111 | In every run, however many scans have failed before: whenever nothing is in flight and the scan that ended last did not fail, nothing is queued and the source comes from a scan begun at or after the last call. |
| Refresh.RestIsUpToDateIff | artifacts/mockup-sandbox/mockupPreviewPlugin.ts:82-111 | Exactly which runs at rest are up to date: those whose last scan completed, and those that end in a call from rest, its completed scan, and a failed follow-up. |
| Refresh.FirstFailureLosesACall | artifacts/mockup-sandbox/mockupPreviewPlugin.ts:100-108 | The first failing scan of a run always leaves a call unserved. |
| Refresh.LaterFailureMayBeHarmless | artifacts/mockup-sandbox/mockupPreviewPlugin.ts:100-108 | A concrete run that ends in a failed scan and is up to date: the follow-up was asked for by a flag left over from an earlier failure. |
| Refresh.FailedScanLosesTheQueuedCall | artifacts/mockup-sandbox/mockupPreviewPlugin.ts:100-108 | From any state with a scan in flight, a call followed by a failing scan is left queued and unserved. |
| Refresh.BurstCausesOneFollowUp | artifacts/mockup-sandbox/mockupPreviewPlugin.ts:83-108 | Any number of calls during one scan causes exactly one follow-up scan, and none causes none. |
| Refresh.QuietRunEnds | artifacts/mockup-sandbox/mockupPreviewPlugin.ts:104-108 | Once calls stop, at most two scans are left before rest. |
| Refresh.ChainReturnsWhetherChanged | artifacts/mockup-sandbox/mockupPreviewPlugin.ts:104-110 | The call that began a chain returns true if and only if some scan of the chain changed the source; on false the source is what it was. |
| Refresh.Preview.Refresh | artifacts/mockup-sandbox/mockupPreviewPlugin.ts:82-89 | A call starts a scan if and only if none is in flight, and otherwise queues; the variables follow the state machine. |
| Refresh.Preview.ScanCompletes | artifacts/mockup-sandbox/mockupPreviewPlugin.ts:90-110 | A finished scan stores its source, and either starts the queued follow-up or returns the verdict of the whole chain. |
| Refresh.Preview.ScanThrows | artifacts/mockup-sandbox/mockupPreviewPlugin.ts:100-102 | A throwing scan only clears the in-flight flag. |
| Refresh.ReturnAll | artifacts/mockup-sandbox/mockupPreviewPlugin.ts:104-110 | The suspended calls, returning innermost first, combine to whether any of them saw a change. |
| TrustScore.ScoreInRange | artifacts/api-server/src/routes/parcels.ts:25-35 | The score is within 0 and 100 before any clamping. |
| TrustScore.ScoreIsMonotone | artifacts/api-server/src/routes/parcels.ts:25-35 | More verified evidence never lowers the score, and raises it exactly until the fifth item. |
| TrustScore.ScoresByStatus | artifacts/api-server/src/routes/parcels.ts:25-35 | A pending parcel starts at 10, registration is worth 40 more, a dispute costs 10, any other status counts as pending; each of the first four verified items is worth 12, and all of them 50 at most. |
| TrustScore.RequestChangesRows | artifacts/api-server/src/routes/parcels.ts:174-268 | What each request does to statuses and evidence: the status given is the one stored, new rows start pending, deletions cascade, and every other row stays. |
| TrustScore.RequestKeepsConsistentIff | artifacts/api-server/src/routes/parcels.ts:231-238 | Any one request keeps every stored score equal to a recount if and only if it is not an empty status written over one that counted. |
| TrustScore.ScoresAlwaysAgree | artifacts/api-server/src/routes/evidence.ts:30-47 | After every sequence of requests with non-empty statuses each stored score is the formula on the current status and the recounted verified evidence. |
| TrustScore.Api.ComputeTrustScore | artifacts/api-server/src/routes/parcels.ts:25-35 | Computes the score in closed form; the clamps never bind. |
| TrustScore.Api.RecalcTrustScore | artifacts/api-server/src/routes/evidence.ts:30-47 | The second copy of the formula stores the same score, for one parcel only. |
| TrustScore.Api.CreateParcel | artifacts/api-server/src/routes/parcels.ts:96-142 | Creating a parcel is the corresponding request on the store. |
| TrustScore.Api.UpdateParcel | artifacts/api-server/src/routes/parcels.ts:174-268 | Updating a parcel is the corresponding request on the store, with its answers for a missing parcel and for an update without fields. |
| TrustScore.Api.DeleteParcelById | artifacts/api-server/src/routes/parcels.ts:271-286 | Deleting a parcel is the corresponding request, with the cascade to its evidence. |
| TrustScore.Api.AddEvidence | artifacts/api-server/src/routes/evidence.ts:68-102 | Adding evidence is the corresponding request; it starts unverified and no score changes. |
| TrustScore.Api.UpdateEvidence | artifacts/api-server/src/routes/evidence.ts:105-141 | Updating evidence is the corresponding request; the score is recomputed only for a non-empty status. |
| TrustScore.Api.DeleteEvidenceById | artifacts/api-server/src/routes/evidence.ts:144-162 | Deleting evidence is the corresponding request, recount included. |
| Policies.InsertIsStable | backend/app/kernel/authorization/policies.py:35-41 | A new policy goes behind all of its own priority and moves none of the others. |
| Policies.SortedIsDetermined | backend/app/kernel/authorization/policies.py:35-41 | A sorted registry is determined by its policies of each priority, in order. |
| Policies.RegistryIsStableSort | backend/app/kernel/authorization/policies.py:35-41 | After any registrations the registry is id-unique and the stable priority sort of the registration order. |
| Policies.RegistrationOrderIsIrrelevant | backend/app/kernel/authorization/pdp.py:29-43 | With distinct priorities every order of registration gives the same decision on every request. |
| TenantGuarantees.AllRegisterIff | backend/app/kernel/authorization/policies.py:35-41 | A list of policies with distinct ids is registered completely if and only if none of the ids is taken. |
| TenantGuarantees.AuthorizeRaisesIff | backend/app/kernel/authorization/policies.py:130-165 | `authorize` raises if and only if the defaults are yet to be registered and some policy holds a default id. |
| TenantGuarantees.RaisingPersists | backend/app/kernel/authorization/policies.py:130-165 | Once it has raised it raises on every further request until a reset. |
| TenantGuarantees.TakenIdRaises | backend/app/kernel/authorization/policies.py:130-165 | Any policy registered under any default id before the first request makes every request raise. |
| TenantGuarantees.SuperAdminIdTaken | backend/app/kernel/authorization/policies.py:130-165 | A concrete input on which `authorize` raises. |
| TenantGuarantees.RunIsArranged | backend/app/kernel/authorization/policies.py:35-41 | After any history the registry is the policies ahead of the tenant policy, the tenant policy, and policies of priority at least 10, in this order. |
| TenantGuarantees.CrossTenantAnswer | backend/app/kernel/authorization/pdp.py:29-43 | The answer to an explicit cross-tenant request after any history, at any priorities: the first decision of a policy ahead of the tenant policy (of lower priority, or of priority 10 and registered before it), and else the tenant policy's denial. |
| TenantGuarantees.DenialStands | backend/app/kernel/authorization/policies.py:98-110 | The denial stands if every policy ahead of the tenant policy defers. |
| TenantGuarantees.CrossTenantIsNeverPermitted | backend/app/kernel/authorization/policies.py:98-110 | Whatever policies of priority above 10 are registered and whenever, crashing ones included, an explicit cross-tenant request is denied by the tenant policy if the defaults are registered or no default id is taken, and otherwise raises. |
| TenantGuarantees.PriorityTenComesFirst | backend/app/kernel/authorization/policies.py:130-165 | The bound is exact: any policy of priority 10 or less, registered before the defaults, has the first word on every request. |
| PolicyAnswers.AnswerIsTheFirstWord | backend/app/kernel/authorization/pdp.py:29-43 | After any history a request is denied if every policy defers, and otherwise answered by the first policy that does not, a crash counting as a denial. |
| PolicyAnswers.PermitsComeFromPolicies | backend/app/kernel/authorization/pdp.py:29-43 | Nothing is permitted unless some policy has permitted it and every policy before it deferred. |
| PolicyAnswers.OnlyDefaultsAsked | backend/app/kernel/authorization/policies.py:130-165 | With no extra policies, the five defaults are asked by ascending priority. |
| PolicyAnswers.DefaultsPermitIff | backend/app/kernel/authorization/policies.py:57-124 | Under the defaults alone a request is permitted if and only if the caller is a super admin, or anonymous with a whitelisted action, or neither with an action on its own record that names no other tenant or country. |
| PolicyRegistry.PolicyList.RegisterPolicy | backend/app/kernel/authorization/policies.py:35-41 | Refuses a taken id and changes nothing; otherwise keeps order and uniqueness and appends within the policy's priority. |
| PolicyRegistry.PolicyList.ResetPolicies | backend/app/kernel/authorization/policies.py:48-52 | Clears the list and the flag. |
| PolicyRegistry.PolicyList.RegisterDefaultPolicies | backend/app/kernel/authorization/policies.py:130-165 | Idempotent; a taken id stops it half way with what was registered before still there. |
| PolicyRegistry.PolicyList.AuthorizeRequest | backend/app/kernel/authorization/pdp.py:22-43 | The loop over the copied list answers with the first decision in priority order; a policy that raises denies, and so does a list that never decides. |

## Left out

- SHA-256, JWT and random ids: the digest, entry ids, timestamps and fallback UUIDs are parameters.
- Floating-point numbers in payloads; JSON covers null, booleans, integers, strings, lists and string-keyed dictionaries.
- Database internals. A session sees committed rows and its own; UNIQUE on the hash is checked against committed and pending rows alike, so waiting for another transaction's outcome is not modelled.
- The primary key on audit ids: an insert that fails for a reused id is not among the refusals of an audit row.
- The exact round trip of timestamps and of payload values through the database is assumed.
- Row-level security during the lineage walk: the trigger sees every row that its transaction sees. Savepoints inside a transaction.
- CHECK constraints on roles, kinds and actor shape, which look at one row only.
- Changes by others between two lookups of `_resolve_active_head`: the forward walk sees one table.
- Failed directory or file writes in `refresh`, which leave the source in memory ahead of the file.
- Interleaving of the Express handlers, request validation, and every column but status, score and an evidence row's parcel.
- Rounding of the monotonic clock: times are real numbers.
- Reasons and obligations of policy decisions, and logging.
- `correct_attribution`, other services and repositories, other migrations, security headers, the user interface and generated clients: plumbing or easy members.
