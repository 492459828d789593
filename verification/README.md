# ProxyPulse: a verified model

ProxyPulse discovers public proxies, validates them through their own sockets, keeps a rolling pool of the good ones in a
SQL table, and serves that pool. This project models the parts of it whose correctness spans several functions and proves
what those parts promise, for every input, every order of events and every run.

`dafny verify dfyconfig.toml` checks the whole project.

## What is modelled

**The rolling pool** (`PoolTable`, `Listing`, `Ranking`, `RepositoryRules`, `Repository`, `PoolRules`, `PoolManagement`,
`RefreshCycle`). The `proxies` table is a map from row ids to rows; each `run` and each `batch` is one atomic write. Between
two writes the process may die, and a write may be reported as failed whether or not it took effect. The counters of a row
are a fast form of its validation log, which is kept as ghost state because retention pruning deletes it. The main results:
in every reachable state the counters are what the log says, and one completed cycle, after any history of completed,
failed and dead ones, ends in a settled pool whose members are proven by their logs and whose public read finds exactly the
reported number. Where each claimed row ends is part of the theorem about a cycle: answered rows have the status planned
from their latest answer; an unanswered row stays `pending` and is `new` after the sweeps, even if it had been active,
unless the service stage looked at it because of an older pass and the last verdict vouches for it; and claims found at the
start of the cycle stay until the sweeps. One writer is assumed, as the code itself assumes.

**The byte stream, HTTP bodies and SOCKS5** (`Bytes`, `ByteStream`, `HttpFraming`, `HttpReader`, `Socks`). `StreamBuffer` is
a class; the peer's bytes arrive in segments of any size, with an end, errors and timeouts at any moment. Readers are proved
against functions of the whole wire, so no result depends on segmentation, and exactly when the end is signalled matters is
part of the statements. The framing results hold for any function that reads size lines; the code's own rule is shown to
read every size line of section 7.1 of RFC 9112, so they hold for every message laid out as that section says.

**Proxy entries** (`Text`, `ProxyEntry`, `ProxyRoundTrip`, `ProxyForms`, `ProxyList`). The parser with every refusal, the printer, and the
list parser's loop. Percent-decoding is an arbitrary function; case folding is that of ASCII.

**Polite probing** (`TokenBuckets`, `CircuitBreakers`, `Probing`, `PoliteChecker`). Calls come one at a time, the clock moves
forward by arbitrary amounts, and a sleep advances it at least as far as asked. A ghost log of probes carries the promises
about whole runs; which gate holds a single check back is decided exactly. Times and tokens are real numbers.

**Queue, concurrent map, retry, scheduler** (`JobLedger`, `MemoryQueues`, `ConcurrentMap`, `Retry`, `Scheduling`). Code
between two awaits is one atomic step, and the steps are interleaved arbitrarily.

**Robots patterns, the discovery merge, scoring** (`Regex`, `Robots`, `DiscoveryMerge`, `DiscoveryService`, `Scoring`).

## Where the code and its documentation disagree

The model follows the code.

- `[ipv6]:port` is documented as an entry (shared/src/proxy.ts:199), but anything that starts with a bracket is refused as
  structured data (`BareBracketsRefused`). `host:port` is documented too, but a host name of at most sixteen characters that
  starts with a letter is read as a scheme and refused; `HostAndPort` gives the exact condition.
- docs/ARCHITECTURE.md:45-47 says claims of an abandoned run are released when the next cycle starts. In the code no stage
  before the sweeps releases one (`Stages`), and the sweeps that end the cycle release them all (`ClaimsEndAsNew`,
  worker/src/pool/manager.ts:257-259); `ForeignClaimWaits` has a table with such a claim.
- `decidePath` settles a tie between an allow and a disallow rule as disallow; section 2.2.2 of RFC 9309 says allow.
- SOCKS5 requests for domain names lack the length octet of section 5 of RFC 1928; `RequestRoundTrip` says that the request
  is understood if and only if the target is an address. A success reply is taken for whole after four octets if its address
  type is none of RFC 1928's; `StandardByType` says exactly when a reply taken is one of section 6.
- The checker says it never throws, but its `direct` parameter may: `Check` rejects if and only if every gate up to the bucket
  lets it through, a policy has to be fetched and the fetch is rejected, and the token is then spent
  (`RejectionPassesThrough`). Only a `direct` other than the shipped one does that, because worker/src/net/direct-fetch.ts
  turns failures into values.
- A chunked read can stop after a chunk although later chunks are buffered, because the end was signalled by then
  (`EarlyEndLosesAChunk`); and a body delimited by the close of the connection is empty when the end came with the head.
- A candidate cap or an entry limit below one still lets one entry through, because the limit is looked at after an entry
  was taken.

## Model

| member | source | states |
|---|---|---|
| `PoolTable.TrailingRun` | db/src/repositories/proxies.ts:300-357 | the failure counter is the length of the run of failures the log ends with, and the last pass is the check right before that run |
| `PoolTable.LastPassIsLatest` | db/src/repositories/proxies.ts:300-357 | with checks logged in time order the last pass is the latest pass, and there is one exactly if the log has a pass |
| `PoolTable.RowsHoldLatestPass` | db/src/repositories/proxies.ts:300-357 | while logs are in time order every row of a faithful table holds the time of its latest pass, or none exactly if it never passed |
| `PoolTable.RecordedTimely` | db/src/repositories/proxies.ts:300-357 | outcomes planned no earlier than anything logged keep every log in time order |
| `PoolTable.PairsNeverSplit` | db/src/repositories/proxies.ts:340-357 | batches of twice the chunk size hold whole insert-and-update pairs, so no crash can separate a log entry from its counters |
| `PoolTable.OddChunksSplitPairs` | db/src/repositories/proxies.ts:340-357 | with any odd batch size, once the outcomes fill a batch, the first batch ends between an insert and its update, and a table left there is not faithful: the doubling is needed |
| `PoolTable.RecordedKeepsFaithful` | db/src/repositories/proxies.ts:300-357 | a batch of consistent outcomes leaves every counter equal to what its log says |
| `PoolTable.PlannedRowUpdated` | db/src/repositories/proxies.ts:300-357 | every outcome of a batch is applied to the row it was planned from |
| `PoolTable.OtherRowKept` | db/src/repositories/proxies.ts:300-357 | a batch changes no row it has no outcome for |
| `PoolTable.SweepKeepsFaithful` | db/src/repositories/proxies.ts:403-444 | status sweeps leave the counters in step with the log |
| `Common.Chunked` | db/src/repositories/proxies.ts:709-714 | chunks put together are the list, and none is empty or too long |
| `RepositoryRules.FirstByKeyMeans` | db/src/repositories/proxies.ts:125-129 | each key is kept once, by the first candidate that lists it |
| `RepositoryRules.UpsertKnown` | db/src/repositories/proxies.ts:146-177 | upserting a key the table knows touches its row, revives it when dead, keeps its history and leaves the rest alone |
| `RepositoryRules.UpsertNew` | db/src/repositories/proxies.ts:146-177 | upserting an unknown key adds one blank row and keeps keys unique |
| `Repository.ProxiesRepository.UpsertCandidates` | db/src/repositories/proxies.ts:120-181 | rows whose key was found are seen in this cycle, new again if dead and otherwise as they were, the others unchanged, and every further row is blank and one of the candidates; the number inserted is by how much the table grew; wherever the call stops, whole batches have been upserted and nothing of the next, and no log changes but for the empty ones of new rows |
| `RepositoryRules.QueueIsDistinct` | db/src/repositories/proxies.ts:200-242 | the three parts of the validation queue never share a row |
| `Repository.ProxiesRepository.SelectValidationQueue` | db/src/repositories/proxies.ts:200-242 | the queue is the oldest new rows, then the benched rows that wait longest for a check, then the members that wait longest of those not checked since the cutoff, each part as long as its limit admits, without repeats and only rows that can be claimed |
| `RepositoryRules.QueueInTurn` | db/src/repositories/proxies.ts:200-242 | so for the queue any table gives: each entry of a part has as many rows of its kind before it as its place says, in terms of ids and times of the last check |
| `Repository.ProxiesRepository.MarkPending` | db/src/repositories/proxies.ts:245-253 | exactly the claimable rows named become pending for this cycle; wherever the call stops, those of whole chunks and no others |
| `Repository.ProxiesRepository.ReleaseOrphanedPending` | db/src/repositories/proxies.ts:256-262 | the cycle's own claims go back to new, and are counted |
| `Repository.ProxiesRepository.ReleaseForeignPending` | db/src/repositories/proxies.ts:269-276 | claims of other cycles, or of none, go back to new, and are counted |
| `Repository.ProxiesRepository.PersistValidationOutcomes` | db/src/repositories/proxies.ts:300-357 | wherever the call stops whole chunks of outcomes have been recorded and nothing of the next, so table and log stay in step |
| `Repository.ProxiesRepository.PersistServiceOutcomes` | db/src/repositories/proxies.ts:359-400 | verdicts are applied in order, counters, log and rows without a verdict stay as they are; wherever the call stops, whole chunks of verdicts have been applied and nothing of the next |
| `RepositoryRules.LastVerdictShows` | db/src/repositories/proxies.ts:359-400 | a row shows the last verdict about it in its service columns, score and status, and is otherwise as it was |
| `Repository.ProxiesRepository.ExpireStale` | db/src/repositories/proxies.ts:403-413 | exactly the members without a pass since the cutoff are dead and unreachable, all else is as it was |
| `Repository.ProxiesRepository.QuarantineFailures` | db/src/repositories/proxies.ts:416-424 | exactly the members at or over the failure threshold are quarantined, all else is as it was |
| `RepositoryRules.CapacityKeepsTheBest` | db/src/repositories/proxies.ts:426-443 | the capacity sweep leaves exactly the cap; of a row it keeps and one it demotes the kept one ranks higher on score then latency, or equally and has the higher id |
| `Repository.ProxiesRepository.EnforcePoolCapacity` | db/src/repositories/proxies.ts:426-443 | exactly the overflow is quarantined and counted, all else is as it was |
| `RepositoryRules.PagesCoverThePool` | db/src/repositories/proxies.ts:446-503 | for every page size the pages list every eligible row exactly once, in rank order |
| `Repository.ProxiesRepository.ReadPool` | db/src/repositories/proxies.ts:446-503 | no entry of a page ranks strictly below a later one on score then latency, equals come by id, and rows that passed the service come first if it is preferred; each entry has as many eligible rows before it as its place and the offset say, no entry that fits is missing, and the total is the number of eligible rows |
| `RepositoryRules.LaterPagesGoLater` | db/src/repositories/proxies.ts:446-503 | whatever two pages of a query, every entry of the later one goes after every entry of the earlier one in that same order |
| `Repository.ProxiesRepository.PruneHistory` | db/src/repositories/proxies.ts:657-692 | exactly the dead rows that never passed and were not seen since the cutoff are forgotten, nothing else changes |
| `PoolRules.PlanIsConsistent` | worker/src/pool/manager.ts:87-189 | a plan made from current rows and one answer per row counts on from each row's own failures and names each row once |
| `PoolManagement.PoolManager.PlanValidation` | worker/src/pool/manager.ts:87-189 | one planned write per answer about a known row, in order, with the tally that counts them; a pass is active if and only if its score is sufficient and benched otherwise; a failure at the threshold is dead if and only if the row never passed and failed three times the threshold, and benched otherwise; below it members and benched rows stay and any other row is new |
| `PoolRules.PlanShowsAnswers` | worker/src/pool/manager.ts:87-189 | each planned write, applied to its row, shows the answer it came from in every column: counters moved on, times, status, and the score the row then has by its own columns |
| `PoolManagement.PoolManager.PlanService` | worker/src/pool/manager.ts:193-238 | one planned write per verdict about a known row, in order; its score is that of the row with the verdict, blended with the quality; a pass makes the row a member, any other verdict keeps its status, and none evicts |
| `PoolRules.ServicePlanShowsVerdicts` | worker/src/pool/manager.ts:193-238 | the same for any verdicts about any rows, in row and verdict columns |
| `PoolRules.ServiceStageKeepsMembers` | worker/src/pool/manager.ts:193-238 | the service stage evicts no member, however its verdicts repeat |
| `PoolRules.SweepsSettle` | worker/src/pool/manager.ts:241-271 | from any table whatever, the sweeps leave no claim, at most the cap of members, each below the failure threshold with a pass inside the TTL, and those are the best of the healthy ones, of equals those with higher ids |
| `PoolRules.SweepsAddUp` | worker/src/pool/manager.ts:241-271 | each member that left is counted by exactly one sweep, each claim by exactly one release |
| `PoolManagement.PoolManager.Finalize` | worker/src/pool/manager.ts:241-271 | the same for the calls themselves, when all of them get through; the pool size reported is the number of members |
| `PoolRules.ClaimsEndAsNew` | worker/src/pool/manager.ts:241-271 | every claim the sweeps find, whoever made it, ends as new |
| `PoolRules.MembersAreProven` | worker/src/pool/manager.ts:241-271 | each member of a settled pool has a logged pass inside the TTL followed by fewer failures than the threshold |
| `PoolRules.SettledPoolIsReadable` | worker/src/pool/manager.ts:241-270 | an unfiltered read at the time of the sweeps finds exactly the pool |
| `RefreshCycle.CollectReplies` | worker/src/pipeline/cycle.ts:247-275 | each queued row that was answered has exactly its latest answer, however jobs are retried |
| `RefreshCycle.ClaimedUnlessAnswered` | worker/src/pipeline/cycle.ts:241-288 | after the writes a queued row nobody answered about is as the queue found it but claimed, and an answered one shows the latest answer in every column |
| `RefreshCycle.ValidationStage` | worker/src/pipeline/cycle.ts:241-288 | claim, validate, plan and persist: the table ends as the claim followed by the planned writes, a row is pending exactly if unanswered and shows its latest answer otherwise; wherever it stops the table is faithful, no logged check is lost, time order is kept, and earlier claims are still there |
| `RefreshCycle.SelectCandidates` | worker/src/pipeline/cycle.ts:293-314 | the rows the service stage looks at: of the queued rows that passed validation with a sufficient score but not the service those of highest score, and in what the budget leaves the members with an old verdict by score then latency, without repeats |
| `RefreshCycle.ServiceStage` | worker/src/pipeline/cycle.ts:290-378 | within the budget and on rows that are due the verdicts are written as planned, and every member of the pool stays one; wherever it stops, rows neither queued nor active are as they were |
| `RefreshCycle.VerdictsDecide` | worker/src/pool/manager.ts:193-238 | a row the service stage looked at becomes active exactly if the last verdict about it is a pass, be it claimed or not; every other row keeps its status |
| `RefreshCycle.Stages` | worker/src/pipeline/cycle.ts:205-378 | the queue is the one the upserted table gives and the rows looked at are the selection of the validated one; a queued row whose latest answer is a pass with a sufficient score is active when the sweeps start, and after any other pass benched unless the last verdict vouches for it; an unanswered one is vouched for and active or claimed; and wherever the stages stop, every claim found at the start is still there |
| `RefreshCycle.PassesDecide` | worker/src/pipeline/cycle.ts:205-378 | for every run of the stages, in terms of the latest answer and the score alone: which passes are members when the sweeps start |
| `RefreshCycle.ForeignClaimWaits` | worker/src/pool/manager.ts:257-259 | a sound table with the claim of an abandoned cycle, which is pending in every table the stages can leave and new after the sweeps |
| `RefreshCycle.PruningKeepsSettled` | worker/src/pipeline/cycle.ts:459-471 | retention leaves a settled pool settled |
| `RefreshCycle.RunCycle` | worker/src/pipeline/cycle.ts:184-456 | a completed cycle ends settled and reports the size of the pool; what it leaves is the sweeps' work on the table its stages left, where every pass with a sufficient score is a member and every claim found at the start and every unanswered row not vouched for is new; a failed one whose last call got through leaves no claim of its own; no cycle rewrites the log of a row it keeps |
| `RefreshCycle.Operate` | worker/src/pipeline/cycle.ts:184-456 | after any mix of completed, failed and dead cycles one completed cycle settles the pool, every member is proven by its log, and a read then finds the reported number; if the clock never stepped back between plans, every row holds the time of its latest pass |
| `ByteStream.StreamBuffer.OnData` | worker/src/net/stream-buffer.ts:49-76 | bytes are appended in order, exactly the waiters that can be satisfied are settled, the others keep their order |
| `ByteStream.StreamBuffer.OnEnd` | worker/src/net/stream-buffer.ts:54-76 | the end settles every waiter and keeps the buffered bytes |
| `ByteStream.StreamBuffer.OnError` | worker/src/net/stream-buffer.ts:59-76 | an error rejects every waiter and keeps the buffered bytes |
| `ByteStream.SignalKeepsValid` | worker/src/net/stream-buffer.ts:64-81 | after a signal no satisfiable waiter is left, none of those left was settled |
| `ByteStream.StreamBuffer.Wait` | worker/src/net/stream-buffer.ts:113-131 | whoever else waits and whatever happens meanwhile, a fulfilled wait means enough bytes or that no more will come; it is rejected with a socket error only on a failed stream and by a timeout only if the bytes were not there and the end was not signalled at the call; no byte is lost, repeated or moved, and the other waits are pending or settled for a reason that stands |
| `ByteStream.StreamBuffer.Take` | worker/src/net/stream-buffer.ts:137-146 | taken bytes and remaining bytes together are the bytes there were, in order |
| `ByteStream.StreamBuffer.Drain` | worker/src/net/stream-buffer.ts:148-152 | everything buffered is taken, what is still to come stays |
| `ByteStream.StreamBuffer.Detach` | worker/src/net/stream-buffer.ts:158-170 | handing the socket over rejects every waiter and keeps the buffered bytes |
| `ByteStream.Operate` | worker/src/net/stream-buffer.ts:31-170 | over any run of arrivals, ends, errors, timeouts, waits and reads, what was taken followed by what is buffered is the initial bytes followed by those received |
| `Bytes.FoundInPrefix` | worker/src/net/http-response.ts:40-52 | what is found in the bytes received so far is what would be found in all of them |
| `HttpReader.ReadLine` | worker/src/net/http-response.ts:40-52 | the next line of the wire, under every segmentation; a protocol error only if there is none within the limit, a closed connection only if the end came first, a socket error only on a failed stream, a timeout only if the line was not buffered |
| `HttpReader.ReadExactly` | worker/src/net/http-response.ts:54-61 | the next bytes of the wire, fewer only if it ends first; a failure only of the stream, or a timeout if they were not buffered |
| `HttpReader.ReadChunkedBody` | worker/src/net/http-response.ts:63-96 | body, truncation and rest are a function of the wire, the cap and the moment of the end; it never reports a closed connection for bytes that are there, a socket error only on a failed stream, and a timeout only if not all was buffered |
| `HttpFraming.SizeLineReads` | worker/src/net/http-response.ts:73-75 | every size line of section 7.1 of RFC 9112, hexadecimal digits with optional blanks and extensions, is read as its number |
| `HttpFraming.WrittenSizeReads` | worker/src/net/http-response.ts:73-75 | every number written in hexadecimal, followed by nothing or by `;` and anything, reads back |
| `HttpFraming.LeadInIgnored` | worker/src/net/http-response.ts:73-75 | white space, a plus sign and `0x` before the digits make no difference, which RFC 9112 does not allow |
| `HttpFraming.MalformedRefused` | worker/src/net/http-response.ts:73-75 | a size line that starts, after white space, with something that is neither sign nor hexadecimal digit is malformed |
| `HttpFraming.DecodedIsPrefix` | worker/src/net/http-response.ts:63-96 | whenever the end comes, what is returned is a prefix of the payloads and within the cap |
| `HttpReader.ReadAnyChunked` | worker/src/net/http-response.ts:63-96 | the same for the reader, on arbitrary bytes and segments |
| `HttpFraming.PayloadOfCutWire` | worker/src/net/http-response.ts:63-96 | a connection cut anywhere carries a prefix of the payload of the whole wire |
| `HttpFraming.StandardIsGood` | worker/src/net/http-response.ts:63-96 | a message laid out as section 7.1 of RFC 9112 says, with lines within the limit, is well formed for the code's rule |
| `HttpFraming.MessageIsClean` | worker/src/net/http-response.ts:63-96 | a message that is well formed for the rule that reads size lines never causes a protocol error |
| `HttpFraming.MessageReadBack` | worker/src/net/http-response.ts:63-96 | what reading an encoded message gives is exactly the chunks delivered before the cap or the end stops it |
| `HttpFraming.BeyondMessage` | worker/src/net/http-response.ts:63-96 | where reading an encoded message ends: right after its trailers, whatever follows |
| `HttpFraming.DeliveredAll` | worker/src/net/http-response.ts:63-96 | all chunks are delivered if and only if the payload fits and the end is not signalled before the last chunk is reached |
| `HttpFraming.EarlyEndLosesAChunk` | worker/src/net/http-response.ts:63-96 | a message of two chunks of which only the first comes through, not marked truncated |
| `HttpReader.ReadMessage` | worker/src/net/http-response.ts:63-96 | for any rule that reads size lines, reading a message well formed for it can fail only by the connection, and not at all if the message is buffered and the stream does not fail; if it fits and the end is late enough the whole payload is returned and what follows the trailers stays buffered |
| `HttpReader.ReadStandardMessage` | worker/src/net/http-response.ts:63-96 | the same for the code's own rule and every message of section 7.1 of RFC 9112 |
| `HttpReader.ReadUntilEnd` | worker/src/net/http-response.ts:98-122 | the first bytes up to the cap, truncated if and only if there were more, under every segmentation; a failure only of the stream |
| `HttpReader.ReadHead` | worker/src/net/http-response.ts:124-140 | the head up to the first empty line, which is consumed too; an error only without one or over the limit; a head that is buffered is returned unless the stream fails |
| `HttpReader.ReadHttpResponse` | worker/src/net/http-response.ts:124-195 | for each framing the head asks for, exactly which bytes are body, however they were split, and when a body delimited by the close comes back empty; a response that is buffered is returned unless the stream fails |
| `Socks.RequestRoundTrip` | worker/src/net/socks.ts:34-54 | the server understands the request as the target that was meant if and only if the target is an address |
| `Socks.StandardRequestReads` | worker/src/net/socks.ts:34-54 | a server reads back every target, names included, from the request of section 4 of RFC 1928 |
| `Socks.RequestIsStandardBut` | worker/src/net/socks.ts:34-103 | the client's request is that request, but for the length octet of a name, which it leaves out |
| `Socks.NameWithoutLength` | worker/src/net/socks.ts:100-103 | a name for which the request is not understood |
| `Socks.GreetingOffers` | worker/src/net/socks.ts:63-65 | a server reads the greeting as the offer that was meant: user and password exactly if both are given, and no authentication always |
| `Socks.CredentialsRoundTrip` | worker/src/net/socks.ts:85-88 | a server that follows RFC 1929 reads back user and password as they were given, as long as each fits its length octet |
| `Socks.ReadReply` | worker/src/net/socks.ts:105-133 | unless the connection fails, success exactly if the front of the wire is accepted, and then as many bytes were taken as its address type says, or all there are; every refusal is the one the octets call for; on a stream that has not ended success is one whole reply, one of section 6 of RFC 1928 if and only if its type and reserved octet are |
| `Socks.StandardByType` | worker/src/net/socks.ts:105-133 | a reply taken for success is one of section 6 of RFC 1928 if and only if its address type is IPv4, name or IPv6 and its reserved octet zero |
| `Socks.UnknownTypeAccepted` | worker/src/net/socks.ts:120-122 | a reply of another type that is taken |
| `Socks.Socks5Connect` | worker/src/net/socks.ts:58-134 | a successful handshake takes exactly one server handshake off the stream, leaves the rest, and sent greeting, chosen credentials and request; it fails only by the connection, an overlong name, or what the server answered, and the reply is one of RFC 1928 exactly by its type and reserved octet; with the handshake buffered only the answers decide |
| `ProxyRoundTrip.AcceptedIsCanonical` | shared/src/proxy.ts:201-381 | every accepted entry without credentials is in canonical form |
| `ProxyRoundTrip.ReadBack` | shared/src/proxy.ts:408-414 | a printed entry parses back to itself, whatever the options |
| `ProxyRoundTrip.ReadBackExactly` | shared/src/proxy.ts:201-205 | for accepted entries without credentials the printed line reads back if and only if it is within the limit |
| `ProxyRoundTrip.HostAndPort` | shared/src/proxy.ts:193-234 | `host:port` is accepted if and only if the line fits and the name does not read as a scheme, and gives that host and port with the hinted protocol, else the fallback, else http |
| `ProxyRoundTrip.ProtocolOf` | shared/src/proxy.ts:207-234 | an accepted entry has the protocol its scheme names by the documented words in either case, and without a scheme the hint's, else the fallback's, else http |
| `ProxyRoundTrip.SchemeDecided` | shared/src/proxy.ts:207-234 | when an entry has a scheme, which words are schemes of which protocol, and when it is refused for one |
| `ProxyForms.HostSpacePort` | shared/src/proxy.ts:193-300 | `host port` gives exactly that proxy for every host name |
| `ProxyForms.UserAtHost` | shared/src/proxy.ts:193-381 | `user:pass@host:port`, with or without a scheme, gives that host, port, user and password after decoding, or is refused for its credentials exactly if a decoded one is empty, too long, not printable or holds a separator |
| `ProxyForms.HostThenUser` | shared/src/proxy.ts:193-381 | the same for `host:port:user:pass` and `host:port:user:pass:cc`, with the country in capitals |
| `ProxyForms.BadPortReported` | shared/src/proxy.ts:193-381 | a host with a colon and nothing after it is refused for its missing port, and with anything but a number from 1 to 65535 for an invalid one |
| `ProxyRoundTrip.BareBracketsRefused` | shared/src/proxy.ts:101-109 | an entry that starts with a bracket is never accepted |
| `ProxyRoundTrip.ShortFormsRefused` | shared/src/proxy.ts:193-234 | one entry of each kind that is refused |
| `ProxyList.ParseProxyList` | shared/src/proxy.ts:457-526 | the loop with its key set reads a list as the fold over its lines does; every entry kept comes from a line that parses to it with the protocol of the last label line above it, else of the hint, else of the fallback, if it names none |
| `ProxyList.LabelsClassified` | shared/src/proxy.ts:482-495 | which lines are labels of which protocol, by the letters and digits of the line |
| `ProxyList.EntriesClassified` | shared/src/proxy.ts:470-500 | which lines are read as entries and which are skipped, by their characters: what could be an endpoint is never skipped |
| `ProxyList.LabelledEntry` | shared/src/proxy.ts:457-526 | for every protocol, a label of it on one line and a host and port on the next give exactly that proxy with that protocol |
| `ProxyList.NamesAreLabels` | shared/src/proxy.ts:111-119 | the name of every protocol is a label of it |
| `ProxyList.SocksSection` | shared/src/proxy.ts:457-526 | the text of a SOCKS5 label and one address |
| `ProxyList.ReadLinesKeep` | shared/src/proxy.ts:509-516 | no two entries of a list share a key |
| `ProxyList.FirstIsKept` | shared/src/proxy.ts:501-516 | entries are only appended, and every accepted line's key is among them |
| `ProxyList.EveryLineAccounted` | shared/src/proxy.ts:470-517 | every line with text is kept, refused, a duplicate or skipped exactly once, unless the list was full |
| `ProxyList.LimitRespected` | shared/src/proxy.ts:516 | a list is full exactly at its limit, which is at least one |
| `ProxyList.ListReadsBack` | shared/src/proxy.ts:408-526 | any list without credentials, printed one entry per line, reads back as the same entries in order with nothing refused, repeated or skipped, if each line fits |
| `TokenBuckets.TokenBucket.TryTake` | shared/src/concurrency.ts:174-194 | refill and grant as functions of the bucket and the clock reading |
| `TokenBuckets.TokenBucket.Available` | shared/src/concurrency.ts:182-185 | looking at the bucket refills it and takes nothing |
| `TokenBuckets.StretchIsBounded` | shared/src/concurrency.ts:161-194 | over any run, also when the clock steps back, tokens stay between none and the capacity, time is the largest reading, and grants are paid for by what was there and flowed in |
| `TokenBuckets.GrantedWithin` | shared/src/concurrency.ts:161-194 | over any stretch of any run at most the capacity and the flow between the largest readings is granted |
| `TokenBuckets.StretchIsHonoured` | shared/src/concurrency.ts:161-194 | nothing is lost but what a full bucket cannot hold: over any stretch, what was granted and what is left make up what was there and flowed in, or at least a full bucket |
| `TokenBuckets.RefusedOnlyWhenSpent` | shared/src/concurrency.ts:161-194 | a call for no more than the capacity is refused only if what flowed in was spent to less than the call |
| `CircuitBreakers.CounterIsWorstStretch` | services/crunchyroll/src/scorer.ts:109-121 | the counter is the worst of all stretches that end now, a failure counting one and a success minus two, or zero |
| `CircuitBreakers.CounterTestsHistory` | services/crunchyroll/src/scorer.ts:116-120 | the counter is at a threshold exactly if some stretch is |
| `CircuitBreakers.ServiceCircuitBreaker.Record` | services/crunchyroll/src/scorer.ts:109-121 | a failure opens the breaker exactly when some stretch since the last opening is as bad as the threshold; when a success closes it early |
| `Probing.WaitsRespected` | services/crunchyroll/src/checker.ts:247-248 | no probe starts inside a pause or an open interval an earlier probe caused |
| `Probing.AskedWaitsRespected` | services/crunchyroll/src/checker.ts:247-248 | for every run, reply by reply: after a blocked verdict without a wait of its own the next probe starts at least 60,000 ms later, after a wait that was asked for at least that long later, up to 300,000 ms |
| `Probing.TripsOnBadStretch` | services/crunchyroll/src/checker.ts:276-305 | for every run, in numbers: the breaker trips exactly on a reply that counts against the service and ends a stretch since the last trip where failures outweigh twice the successes by 25, and no probe starts for two minutes after |
| `Probing.TripsOnHistory` | services/crunchyroll/src/checker.ts:276-305 | every probe's reply reaches the breaker, which trips exactly on history since its last trip |
| `Probing.SpacingKept` | services/crunchyroll/src/checker.ts:261-263 | each probe starts at least the spacing then in force after the one before |
| `Probing.StretchOfProbes` | services/crunchyroll/src/checker.ts:251 | probes are bounded by the bucket's capacity and rate over any stretch |
| `Probing.ProbesAfter` | services/crunchyroll/src/checker.ts:85-86 | probes after any given one are bounded by the capacity and the flow between the two starts |
| `PoliteChecker.CrunchyrollChecker.RunsArePolite` | services/crunchyroll/src/checker.ts:233-341 | every run of a checker is polite in all these senses and stays within the cycle's budget |
| `PoliteChecker.CrunchyrollChecker.ProbesPerMinute` | services/crunchyroll/src/checker.ts:83-86 | every run makes at most the configured number of probes in any minute beyond a full bucket |
| `PoliteChecker.CrunchyrollChecker.WaitsHeeded` | services/crunchyroll/src/checker.ts:247-248 | every run of a checker heeds the waits asked for, in milliseconds |
| `PoliteChecker.CrunchyrollChecker.BeginCycle` | services/crunchyroll/src/checker.ts:95-105 | only the budget starts afresh |
| `PoliteChecker.CrunchyrollChecker.EnsureRobots` | services/crunchyroll/src/checker.ts:183-230 | a policy is fetched exactly when none that is fresh is remembered and robots.txt is respected; what is then remembered; the spacing never falls below the configured one nor the crawl delay of a policy that allows |
| `PoliteChecker.CrunchyrollChecker.Check` | services/crunchyroll/src/checker.ts:233-341 | each way a check can end happens if and only if all gates before let it through and its own gate does not, by the clock readings; a probe is made exactly if all do; the token is spent exactly if the bucket was asked and had one; a reply that asks for a wait, or is blocked without asking, leaves the cooldown at least that far beyond the probe's start, and any other reply leaves it alone |
| `PoliteChecker.RejectionPassesThrough` | services/crunchyroll/src/checker.ts:196-199 | the first check of any enabled checker that respects robots.txt ends in the rejection of its fetch, with the token spent |
| `JobLedger.EveryJobIsSomewhere` | worker/src/queue/memory-queue.ts:39-118 | accepted jobs are queued, in flight, processed, dropped or cleared, each in exactly one place |
| `MemoryQueues.MemoryQueue.Conserved` | worker/src/queue/memory-queue.ts:39-118 | the count of accepted jobs adds up, and a job sent at attempt one is delivered at most `maxAttempts` times |
| `MemoryQueues.MemoryQueue.Send` | worker/src/queue/memory-queue.ts:39-51 | a well-formed job is accepted exactly if there is room, on its first attempt unless it says otherwise |
| `MemoryQueues.MemoryQueue.Splice` | worker/src/queue/memory-queue.ts:72 | the oldest jobs change hands, and each counts one delivery |
| `MemoryQueues.MemoryQueue.Settle` | worker/src/queue/memory-queue.ts:84-109 | the retries go back to the tail while there is room, all else is processed or dropped, and the remaining work shrinks by at least the batch |
| `JobLedger.RetriesMean` | worker/src/queue/memory-queue.ts:84-103 | retried are exactly the failed jobs with attempts left, on their next attempt |
| `MemoryQueues.MemoryQueue.Close` | worker/src/queue/memory-queue.ts:117-119 | the backlog is cleared and nothing else changes |
| `MemoryQueues.MemoryQueue.Consume` | worker/src/queue/memory-queue.ts:60-115 | with finitely many sends meanwhile, draining ends for every pattern of failures; a whole first batch is handed out before an abort is looked at; it stops only on an empty queue, a spent budget, or after the first round that finds the signal aborted |
| `MemoryQueues.MemoryQueue.SendAndDrain` | worker/src/pipeline/cycle.ts:248-275 | with two attempts each, a budget of twice the jobs leaves the queue empty unless the signal is aborted |
| `ConcurrentMap.MapWithConcurrency` | shared/src/concurrency.ts:116-155 | in every interleaving each index is claimed once and in order, exactly those claimed before the abort have their worker started, every slot is filled from its own item or by the abort, and no more are in flight than there are runners: as many as the limit says, one for a limit below one, and no more than items |
| `Retry.AttemptWithRetry` | shared/src/concurrency.ts:80-108 | attempts stop at the first success, the first final error or the cap, and the errors are those of the failed attempts; an abort ends them at the first look at the signal that finds it, before an attempt or in a wait, and no sooner |
| `Scheduling.StaysOrderly` | worker/src/pipeline/scheduler.ts:93-194 | which events keep a run orderly: single flight, nothing armed and no timer-driven cycle after a stop |
| `Scheduling.RefreshScheduler.Start` | worker/src/pipeline/scheduler.ts:81-91 | the first timer is set after one and a half seconds, or after the interval with its jitter but no less than five |
| `Scheduling.RefreshScheduler.ScheduleNext` | worker/src/pipeline/scheduler.ts:93-108 | replaces the timer, unless stopping, after at least a second |
| `Scheduling.RefreshScheduler.RunOnce` | worker/src/pipeline/scheduler.ts:111-142 | a cycle begins exactly if none is in flight |
| `Scheduling.RefreshScheduler.Settle` | worker/src/pipeline/scheduler.ts:122-141 | every cycle that ends is counted once, as completed or failed |
| `Scheduling.RefreshScheduler.Continue` | worker/src/pipeline/scheduler.ts:101-106 | exactly which callers set the next timer, after what is left of the interval but at least five seconds |
| `Scheduling.RefreshScheduler.TriggerNow` | worker/src/pipeline/scheduler.ts:145-154 | starts a cycle with no timer armed, or does nothing |
| `Scheduling.RefreshScheduler.Stop` | worker/src/pipeline/scheduler.ts:174-194 | clears the timer for good and leaves the cycle in flight alone; returns once it is over or the grace period is, and whatever happens meanwhile no timer is armed again |
| `Scheduling.RefreshScheduler.Operate` | worker/src/pipeline/scheduler.ts:81-194 | in any order of events at most one cycle is in flight and one timer armed, endings are counted, stopping is final, and until then something always leads to the next cycle |
| `Regex.LiteralsMatch` | shared/src/robots.ts:91-98 | literal tokens match exactly their own text |
| `Robots.TranslationReadsBack` | shared/src/robots.ts:94-96 | the two replacement passes read back as one token for each character of the pattern |
| `Robots.MatchesWhatItMeans` | shared/src/robots.ts:91-98 | for every pattern and path, the expression matches exactly if the path decomposes into the literals with gaps, up to a `$` after which nothing can follow |
| `Robots.PlainPatterns` | shared/src/robots.ts:91-98 | the same for patterns whose only `$` is final |
| `Robots.DecidePath` | shared/src/robots.ts:100-115 | allowed if and only if some matching allow rule is longer than every matching disallow rule, or no disallow rule matches |
| `Robots.OrderDoesNotMatter` | shared/src/robots.ts:100-115 | order and repetition of rules make no difference |
| `DiscoveryMerge.KeptAreFirst` | worker/src/discovery/service.ts:153-185 | candidates have distinct keys, each from the first source that lists it, none missing below the cap; and exactly when the cap holds |
| `DiscoveryMerge.Merge` | worker/src/discovery/service.ts:153-185 | the merge loop keeps exactly those, attributes each to that source, and entries seen are candidates plus duplicates |
| `DiscoveryService.Run` | worker/src/discovery/service.ts:80-185 | candidates, attribution and every total depend on what the sources list and their order, not on which fetch finishes first |
| `Scoring.ScoreMonotone` | shared/src/scoring.ts:92-184 | a proxy no worse in pass ratio, latency, freshness, failures, service verdict and block never scores lower, with or without checks |
| `Scoring.LatencyNeverHelps` | shared/src/scoring.ts:92-100 | a larger positive latency never scores better |
| `Scoring.PenaltyGrows` | shared/src/scoring.ts:143-152 | more consecutive failures or a block never lower the penalty |
| `Scoring.WeightsCount` | shared/src/scoring.ts:154-170 | raising one factor raises the weighted sum by its own weight, for each of the five, and nothing else counts |
| `Scoring.ScoreIsNearest` | shared/src/scoring.ts:154-171 | the score of a passing proxy is the integer nearest to the weighted mean in points less the penalty, and none below zero |
| `Scoring.LatencyIsLinear` | shared/src/scoring.ts:92-100 | between the ideal and the largest latency the factor falls in a straight line from one to zero |
| `Scoring.ReliabilityIsShare` | shared/src/scoring.ts:111-118 | reliability times the checks is the passes |
| `Scoring.PenaltyIs` | shared/src/scoring.ts:143-152 | half the points for the first failure in a row and all for each further one, up to 40; 25 more for a block, up to 60 |
| `Scoring.ShippedScores` | shared/src/scoring.ts:32-44 | three scores under the shipped weights |
| `Scoring.CombineMonotone` | shared/src/scoring.ts:264-274 | the combined score is monotone in both inputs |
| `Scoring.CombineIdentity` | shared/src/scoring.ts:264-274 | without a verdict an integer score is returned unchanged |
| `Scoring.CombineIsMean` | shared/src/scoring.ts:264-274 | with a verdict the combined score is the integer nearest to the mean of connectivity and quality by the weight |
| `Scoring.PassNeverRanksBelowFailure` | services/crunchyroll/src/scorer.ts:41-73 | however slow, a passing probe never ranks a proxy below a failed or blocked one |
| `Scoring.PassQuality` | services/crunchyroll/src/scorer.ts:41-73 | between 399 and 5000 ms a pass loses a fifth in a straight line, and a fortieth for each of up to four failures |
| `Scoring.OtherQualities` | services/crunchyroll/src/scorer.ts:41-73 | what the other verdicts are worth, which is less than any pass |

## Left out

- The SQL engine, the libSQL client and migrations: the meaning of each statement is modelled, not its text. Ties that SQL
  leaves open in `ORDER BY` are settled by id.
- Table columns for notes, protocol, country and credentials (the pool read's filters on them are arbitrary), and the
  `service_results` and `refresh_cycles` tables. Times are integers, sizes are unbounded.
- Several workers on one table: one writer is assumed, as in db/src/repositories/proxies.ts:264-268.
- `handleExternalJob` (worker/src/pipeline/cycle.ts:479): its service plan uses a row read before the validation write.
- Sockets, TLS, DNS, `fetch`, timers and the real clock: events and a clock of arbitrary steps stand for them.
- HttpReader.ReadHttpResponse: which framing a head asks for, by its status line and header fields, is a parameter
  (`framingOf`, an arbitrary function of the head); a declared length is a natural number.
- The SOCKS4 client and the request side of HTTP.
- HttpFraming.SizeLineReads: sizes are unbounded integers; `parseInt` rounds those a double cannot hold, up to infinity.
- Percent-decoding, Unicode case folding and the bits of the key hash: arbitrary functions, ASCII folding, and keys as text.
- `strictCredentials`, the message texts of refusals, and which of several reasons a malformed list of colon-separated fields is
  refused for.
- TokenBucket.take: a loop of refill and sleep that ends only as the clock allows.
- PoliteChecker.CrunchyrollChecker.Check: one call at a time, as the pipeline makes them; overlapping calls are not modelled.
- parseRobots: grouping lines by user agent; the checker treats the policy it yields as arbitrary.
- The delays between retries, progress callbacks, logging, redaction and report texts.
- CloudflareQueue: delivery depends on a server that is not part of this model. Two consumers of one `MemoryQueue` at a time
  are covered step by step (`Untouched`), not as one loop.
- The HTTP API, views, configuration, IP classification and the remaining read-only statistics: only easy members.
