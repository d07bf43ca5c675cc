# FizzBuzz service: a Dafny model

The service streams generalized FizzBuzz as a JSON array, knows the exact size of a response before it generates one,
and keeps exact statistics, in memory or shared between replicas through Redis. This project models those four parts
and proves what they promise. `dafny verify dfyconfig.toml` checks everything.

- **Generator and stream** (`Bytes`, `Options`, `Decimal`, `Utf8`, `JsonText`, `Rule`, `JsonReader`, `Generator`, `Stream`).
  `Rule.Response` is the specification: the JSON array of the four-branch rule, with strings escaped as in section 7 of
  RFC 8259 and the HTML-safe escapes. A reader that knows nothing of the printer gets the list of the rule back. The
  segment loop, the ASCII counter, the resumable buffer filler, the patched and reused chunk of the periodic path and
  both writers are methods over arrays. `WriteJSON` delivers exactly `Response` to a reliable writer and an exact prefix
  to any other one.
- **Size and limits** (`Arithmetic`, `Size`, `Validation`). Euclid's loop, the capped lcm and inclusion-exclusion per
  decimal band compute the length of those same bytes, in int64. The binary search returns the exact largest limit.
- **Statistics** (`SetSums`, `Stats`; `Member`, `Replicas`, `Protocol`, `Runs`, `RedisStore`, `Refinement`). The in-memory counter is
  a class that agrees with the multiplicity in the history of hits. The Redis store is a transition system: any number
  of replicas, every critical section and every script one step, messages delivered late, repeatedly or never. An
  inductive invariant gives conservation over all runs. `RedisStore` has the same critical sections and scripts as
  methods with loops, each equal to the function that the transition system uses, and `Refinement` shows that every call
  of `Flush` is a path of it.
- **Admission and page** (`Admission`, `Tokenizer`). The in-flight counter under any interleaving, and the page's byte
  reader, which is the parser for the printer above.

Where the code and its own words disagree, the model follows the code:

- `server.go:94-95` and `server.go:110` (a shutdown loses no hits, a client sees its own hits) hold for a successful
  flush if and only if no batch is outstanding at its start, or nothing was recorded since that batch was built
  (`Runs.FlushCovers`). Otherwise the flush only retries the retained batch: `Runs.OneFlushIsNotEnough` is such a run,
  and `Runs.TwoFlushesSuffice` says that a second flush is enough. Under the condition the hits stay
  (`Runs.CoveredHitsStay`) and the client sees them (`Runs.WinnerIncludesOwnHits`), in every run.
- An answer of `Top` with no winner and no error does not always mean that nothing was counted, because its two reads
  are one pipeline and not one transaction: `Runs.EmptyAnswerAfterHits` is such a run. The two reads are as good as one
  if and only if the store does not saturate between them (`Runs.TwoReadsAreOneIff`); an empty answer then means that
  no hit was in the store at either read (`Runs.NothingMeansNone`).
- The page marks correct elements as wrong for some requests. `Tokenizer.NoneWrongIffAgrees` has the exact condition on
  the request: no replaced element reads as its own number or starts with a byte order mark, and str1 and str2 differ if
  some element is a multiple of int2 only.

## Model

| member | source | states |
|---|---|---|
| Decimal.TextLength | internal/fizzbuzz/size.go:86-103 | a number between two powers of ten has exactly that many digits, so a decimal band has one width |
| Decimal.IncrementText | internal/fizzbuzz/write.go:32-46 | the carry from the right turns the text of v into the text of v + 1, for every v, also when a digit is added |
| Decimal.TouchedPotential | internal/fizzbuzz/write.go:32-46 | 9 times the digits that one increment writes, plus the new digit sum, is 10 plus the old digit sum |
| Decimal.AmortisedCost | internal/fizzbuzz/doc.go:22-28 | from lo to hi, 9 times all digits written plus the final digit sum is 10 times the increments plus the initial digit sum |
| Decimal.AmortisedCostFromOne | internal/fizzbuzz/doc.go:27-28 | counting up from 1 writes at most 10/9 digits for each increment |
| Utf8.EncodedIsRune | internal/fizzbuzz/params.go:73-83 | the UTF-8 encoding of every Unicode scalar value, in one to four bytes, is accepted as one rune, whatever follows it |
| Utf8.RuneIsEncoded | internal/fizzbuzz/params.go:73-83 | everything accepted as a rune is the encoding of a scalar value: no surrogate, no overlong form, nothing above U+10FFFF |
| Utf8.EncodeInjective | internal/fizzbuzz/params.go:73-83 | different scalar values have different encodings |
| Utf8.ValidIffEncoded | internal/fizzbuzz/params.go:73-83 | a string is valid exactly when it encodes a list of scalar values |
| JsonText.EscapeIsSafe | internal/fizzbuzz/size.go:26-43 | for every string, the literal has no control character, no < > & and no raw U+2028 or U+2029 |
| JsonText.EscapedIffNeeded | internal/fizzbuzz/size.go:26-43 | a valid string is its own literal if and only if it has none of these, no quote and no backslash: nothing else is escaped |
| JsonText.ShortEscapes | internal/fizzbuzz/size.go:41-43 | the short forms of the two-character escapes |
| JsonText.HexEscapes | internal/fizzbuzz/size.go:41-43 | every other control character and < > & in \u00xx form with lower-case digits |
| JsonText.SeparatorEscapes | internal/fizzbuzz/size.go:41-43 | U+2028 and U+2029 as \u2028 and \u2029 |
| JsonText.InvalidEscapes | internal/fizzbuzz/size.go:41-43 | a byte that starts no rune becomes \ufffd |
| JsonText.EscapePlain | internal/fizzbuzz/size.go:28-40 | printable ASCII without the special characters is its own escape, which justifies the fast path |
| JsonText.EscapeConcat | internal/fizzbuzz/size.go:28-49 | the escape of str1+str2 is the two escapes one after the other, for valid UTF-8 |
| JsonText.EscapeInsideQuotes | internal/fizzbuzz/size.go:38-48 | an escaped string has no bare quote and no backslash without a following byte |
| JsonText.ClosingQuote | web/app.js:168-179 | the first bare quote ends a literal: the text before it and the rest after it are determined |
| JsonText.UnescapeEscape | web/app.js:157 | parsing an escaped valid string gives the string back |
| Rule.PieceEncodes | internal/fizzbuzz/fizzbuzz_test.go:17-32 | every encoded element of a plan is the comma and the quoted string of the four-branch rule |
| Rule.ResponseIsBody | internal/fizzbuzz/fizzbuzz_test.go:17-40 | the elements with their leading commas, with the first comma as bracket, are the marshalled reference list |
| Rule.Classic | internal/fizzbuzz/fizzbuzz_test.go:48-58 | the documented example: the list for 3, 5, "fizz", "buzz" up to 16 |
| JsonReader.ReadsQuote | internal/fizzbuzz/size.go:26-49 | a reader of JSON strings gets the string back, with whatever follows it |
| JsonReader.ReadsMarshal | internal/fizzbuzz/fizzbuzz_test.go:34-40 | a reader of JSON arrays gets back every marshalled list of valid strings |
| JsonReader.ReadsResponse | internal/fizzbuzz/fizzbuzz_test.go:17-46 | a client that parses the response has the list of the rule, brackets, commas and escapes included |
| Rule.Plan.BodySplit | internal/fizzbuzz/write.go:67-83 | the bytes of lo..hi are those of lo..mid and mid+1..hi, for every cut |
| Arithmetic.Gcd | internal/fizzbuzz/size.go:51-56 | the loop returns a common divisor that is an integer combination of both numbers |
| Arithmetic.CommonDivisorDividesGcd | internal/fizzbuzz/size.go:51-56 | every common divisor divides that result, so it is the greatest |
| Arithmetic.CommonMultiple | internal/fizzbuzz/size.go:58-66 | every common multiple of a and b is a multiple of (a/g)*b |
| Arithmetic.DivideBound | internal/fizzbuzz/size.go:58-59 | the test a/g > limit/b is exactly (a/g)*b > limit, with no product formed |
| Arithmetic.LcmCapped | internal/fizzbuzz/size.go:58-66 | the result is at most the limit, and i in 1..limit is a multiple of both if and only if it is a multiple of a result that is not 0 |
| Arithmetic.MultiplesCount | internal/fizzbuzz/size.go:68-74 | the quotient is the number of multiples of m in 1..x, and 0 for m = 0 |
| Size.AppendElem | internal/fizzbuzz/size.go:28-49 | both paths append a comma and the same JSON literal of the joined parts |
| Size.EncodeAll | internal/fizzbuzz/size.go:18-24 | the slices of the one buffer are the three encoded replacements |
| Size.NewPlan | internal/fizzbuzz/size.go:16-26 | the plan has the encoded strings of the request and the capped lcm of its divisors |
| Size.ClosedForm | internal/fizzbuzz/size.go:82-95 | inclusion-exclusion with the capped lcm counts each of the four classes of lo..hi exactly |
| Size.BodyLength | internal/fizzbuzz/size.go:78-84 | the length of the generated bytes is the sum over the classes plus the bytes of the plain numbers |
| Size.BandBytes | internal/fizzbuzz/size.go:92-95 | in one decimal band the plain numbers take digits + 3 bytes each |
| Size.ReplacedBytes | internal/fizzbuzz/size.go:82-84 | the three products fit int64 and add up to all bytes that are not plain numbers |
| Size.RangeBytes | internal/fizzbuzz/size.go:76-104 | the band loop returns the exact length of the elements, keeps int64 in range, and runs once per decimal band up to hi |
| Size.SizeNeverOverflows | internal/fizzbuzz/size.go:82-112 | with a limit below 2^32 and encoded elements below 2^31 bytes the size is an int64 for all divisors, and so is the size rounded up to whole MiB |
| Size.ShortStringsFit | internal/fizzbuzz/size.go:28-49 | strings whose worst escape stays below 2^31 bytes have such elements |
| Size.JSONSize | internal/fizzbuzz/size.go:106-112 | the result is the length of the marshalled reference, and 2 for a limit below 1 |
| Validation.ResponseMonotone | internal/fizzbuzz/params.go:64-65 | a larger limit gives a strictly longer response, although every probe has its own lcm |
| Validation.LargestLimit | internal/fizzbuzz/params.go:64-71 | a limit up to p.Limit fits if and only if it is at most the result; with k probes, 2^(k-1) is at most p.Limit, which is 24 probes at the default maximum |
| Validation.ValidateStr | internal/fizzbuzz/params.go:73-83 | accepts exactly the strings that are not empty, short enough and valid UTF-8, with the exact reason otherwise |
| Validation.Validate | internal/fizzbuzz/params.go:35-62 | accepts exactly the requests in range whose response fits; otherwise the first field in order that is wrong, with its reason, or the size in whole MiB, never equal to the maximum, and the largest limit that fits; for every request whose rounded size is an int64 |
| Validation.ShortElementsSupported | internal/fizzbuzz/params.go:52-55 | with a MAX_LIMIT that the configuration accepts, every request with encoded elements below 2^31 bytes is one of these |
| Validation.ShortStringsSupported | internal/fizzbuzz/params.go:20-20 | a MAX_STR_BYTES below about 179 million, such as the default, makes every request one of these |
| Validation.GuaranteedStringsFit | internal/fizzbuzz/fizzbuzz_test.go:289-291 | with the defaults, strings of 23 bytes together after escaping fit at every limit |
| Validation.GuaranteeIsTight | internal/fizzbuzz/fizzbuzz_test.go:278-286 | 24 bytes do not fit for int1 = int2 = 1 at the maximum limit |
| Generator.DecimalCounter.Set | internal/fizzbuzz/write.go:22-30 | the window shows the framed text of v |
| Generator.DecimalCounter.Carry | internal/fizzbuzz/write.go:33-37 | the in-place carry loop leaves the digits before k alone and the carried zeros after it |
| Generator.DecimalCounter.Inc | internal/fizzbuzz/write.go:32-46 | the window shows v + 1, and the digits written are those of the cost lemmas |
| Generator.DecimalCounter.WindowIsNumber | internal/fizzbuzz/write.go:73 | the copied window is the complete encoded element |
| Generator.NextAfter | internal/fizzbuzz/write.go:85-99 | i is a multiple exactly when it is the tracked next one, and the next one after it is reached by one addition |
| Generator.FirstNext | internal/fizzbuzz/write.go:57-58 | the start formula is the least multiple at or after lo |
| Generator.PieceFits | internal/fizzbuzz/write.go:63-65 | no element is longer than maxElem |
| Generator.FillEnd | internal/fizzbuzz/write.go:67-83 | a fill with i <= hi and pos <= stop passes at least one element, and never goes beyond hi |
| Generator.FillsResume | internal/fizzbuzz/write.go:67-83 | for every sequence of stop values the outputs together are the elements in order, and every fill makes progress |
| Generator.Gen.constructor | internal/fizzbuzz/write.go:55-61 | the counter and both next multiples start in agreement with lo |
| Generator.Gen.CostSoFar | internal/fizzbuzz/doc.go:27-28 | the digits that the generator's own counter has written satisfy the cost identity; from element 1 that is at most 10/9 for each element so far |
| Generator.Gen.Advance | internal/fizzbuzz/write.go:74-75 | the counter follows the element number, and what it has written is the sum of the increments since lo |
| Generator.Gen.Event | internal/fizzbuzz/write.go:85-103 | at the nearer of the two next multiples it returns the element of the rule and stays consistent, with int64 additions |
| Generator.Gen.FillNumbers | internal/fizzbuzz/write.go:72-76 | the inner loop emits the run of plain numbers before the next multiple |
| Generator.Gen.Fill | internal/fizzbuzz/write.go:67-83 | the buffer has exactly the elements from the old i to the new i - 1 after its old prefix, stops at FillEnd, writes nothing beyond stop + maxElem and leaves the rest alone |
| Stream.PoolSuffices | internal/fizzbuzz/write.go:13-13 | with strings of at most 1024 bytes the pooled buffer is long enough |
| Stream.Writer.Write | internal/fizzbuzz/write.go:138-142 | a writer accepts a prefix, all of it unless it fails |
| Stream.WriteBuffer | internal/fizzbuzz/write.go:130-138 | one write of the general path, with both brackets in place |
| Stream.WriteGeneral | internal/fizzbuzz/write.go:119-144 | for any writer the accepted bytes are a prefix of the whole response and its length is returned; all of it without an error, and no call after an error |
| Stream.PieceRepeats | internal/fizzbuzz/write.go:147-149 | when a divisor is 1 the elements repeat every max(a, b) |
| Stream.BodyOfPeriods | internal/fizzbuzz/write.go:147-149 | the whole body is n/P copies of the first period and a rest that is a byte prefix of a period |
| Stream.FillsPeriod | internal/fizzbuzz/write.go:156 | one fill with stop pb emits the whole period |
| Stream.PeriodChunk | internal/fizzbuzz/write.go:151-159 | the chunk holds at least one period and exactly k copies |
| Stream.Emit | internal/fizzbuzz/write.go:162-174 | the bracket is patched in for the first write and taken out again, and an empty slice writes nothing |
| Stream.WritePeriods | internal/fizzbuzz/write.go:175-183 | the loop and the leftover write all full periods, with the chunk unchanged afterwards |
| Stream.PartialPeriod | internal/fizzbuzz/write.go:184-186 | the last slice of the chunk is the partial period |
| Stream.WritePeriodic | internal/fizzbuzz/write.go:147-189 | the same delivery as the general path, byte for byte |
| Stream.WriteJSON | internal/fizzbuzz/write.go:110-145 | any writer gets an exact prefix of the marshalled reference, the count is its length, and without an error it is the whole |
| SetSums.SumInsert | stats.go:76-84 | the charge of a set grows by exactly the charge of a new element |
| Stats.CostStep | stats.go:76-84 | one more request adds 48 bytes if it is new, and the prefix bytes if its prefix is new |
| Stats.CostIgnoresOrder | stats.go:43-45 | the cost, and with it saturation, does not depend on the order of the hits |
| Stats.PackInjective | stats.go:73 | the packed key determines the prefix ID and the limit |
| Stats.IdFits | stats.go:68-72 | under the configured budget the number of prefixes stays below 2^32, so an ID never wraps |
| Stats.KeyInjective | stats.go:49-51 | different requests have different keys, and no key is 0 |
| Stats.DenseExtend | stats.go:68-72 | prefix IDs stay dense and distinct when a prefix is added |
| Stats.CountedIffSeen | stats.go:74 | a key is in the map exactly when its request is in the history, with its multiplicity |
| Stats.LeaderUnique | stats.go:92-94 | the leader, its count and the hit that made it leader are determined by the history |
| Stats.LeadStep | stats.go:92-99 | only the request of the call can take the lead, and on a tie the leader stays |
| Stats.Counter.Admit | stats.go:68-89 | admitted exactly when the distinct requests fit, with maps, key and count in agreement with the history |
| Stats.Counter.Record | stats.go:62-101 | the counter stays exact, is saturated exactly when the cost of the whole history exceeds the budget, and reports the change once |
| Stats.Counter.GetTop | stats.go:105-112 | unavailable exactly when saturated, else the leader of the history |
| Stats.Replay | stats.go:62-112 | after any history the answer is the request with the most hits that reached that number first, or unavailable exactly when the cost exceeds the budget; with no history it is empty |
| Member.LocalCostBelowShared | redis_store.go:98-101 | a pending key costs less in a replica than as a member in Redis |
| Member.ReadsMember | redis_store.go:186-212 | reading a member as Top does gives back the request, field by field |
| Member.MemberInjective | redis_store.go:186-190 | different requests have different JSON members |
| Replicas.RecordKeepsLocal | redis_store.go:98-121 | the local charge is the sum over the pending keys, within the budget, and a new overflow happens exactly when the keys with the new one exceed it |
| Replicas.HitCountedIff | redis_store.go:102-121 | a hit adds one to its own pending count exactly when the replica has not overflowed and the keys with it fit; no other count changes |
| Replicas.LocalBytesAre | redis_store.go:17-22 | the local charge is 128 bytes for each key and the bytes of its strings |
| Replicas.SharedBytesAre | redis_store.go:190-190 | the charge in Redis is 128 bytes for each member and its length |
| Replicas.BuildKeepsLocal | redis_store.go:166-193 | a new batch holds exactly all unacknowledged hits and has the next number |
| Replicas.AckKeepsLocal | redis_store.go:152-163 | an acknowledgement removes exactly the sent hits and releases the charge of the settled keys |
| Replicas.ResetIsNew | redis_store.go:131-139 | after the saturating flush the replica is like new, except that its batch numbers go on |
| Replicas.ResetCountsAgain | redis_store.go:131-139 | a reset replica counts the next hit again, unless that hit alone exceeds the budget |
| Replicas.ApplyKeepsStore | redis_store.go:38-54 | a new batch is applied completely, or saturates the store exactly when the members with it exceed the budget; the used bytes are the cost of the members, within the budget |
| Replicas.ReplyMeans | redis_store.go:34-37 | the reply is 1 exactly when the store was saturated, 2 exactly when this call saturated it, and else 0 |
| Protocol.StartCovers | redis_store.go:142-148 | a retained batch covers all recorded hits exactly when every pending hit was sent |
| Protocol.RecordStep | redis_store.go:102-121 | a hit that arrives at any time, also between batch and reply, keeps the replica's share of the store |
| Protocol.AckStep | redis_store.go:148-163 | acknowledging keeps the share, because the batch is applied |
| Protocol.DeliverStep | redis_store.go:38-54 | the first delivery of the outstanding batch adds exactly its hits to the share |
| Protocol.RepeatedDelivery | redis_store.go:31-35 | a late or repeated delivery changes nothing in the store |
| Protocol.StepInv | redis_store.go:102-193 | every step of every replica, script and timeout keeps the whole invariant |
| Runs.RecordedAreCalls | redis_store.go:102-121 | the recorded hits of a replica are the calls of Record in the run, except the ones after which it has overflowed |
| Runs.CallsArriveAnyTime | redis_store.go:31-35 | every call that was sent can arrive at any later state of the run, any number of times |
| Runs.Conservation | redis_store.go:123-164 | in every run below saturation the shared count of a request is the sum over the replicas of recorded hits, minus unacknowledged ones, plus the applied outstanding batch |
| Runs.QuietMeansExact | redis_store.go:123-125 | when nothing is pending, Redis has every recorded hit exactly once |
| Runs.SaturationIsJustified | redis_store.go:44-47 | the store saturates only if the cost of the offered requests exceeds the budget, and until then charges exactly its members |
| Runs.OverflowIsJustified | redis_store.go:98-101 | a replica overflows only if Redis would exceed the budget with the same requests |
| Runs.SaturationIsPermanent | redis_store.go:38-60 | once saturated, the store stays saturated and no member ever reappears |
| Runs.SaturationReportedOnce | redis_store.go:44-47 | after a call that reports the saturation, every call in the run reports an already saturated store |
| Runs.SaturationIsReported | redis_store.go:44-60 | a saturated store was saturated by a call that replied 2, or for a replica that overflowed |
| Runs.ResetReplicaCounts | redis_store.go:131-139 | in every run, the next hit of a replica after its reset is pending and recorded, unless it alone exceeds the budget |
| Runs.BudgetBoundsKeys | redis_store.go:17-18 | in every run the budget bounds 128 bytes for each key plus its text, in every replica and in Redis |
| Runs.FlushCovers | redis_store.go:125-164 | a successful flush leaves every earlier hit of its replica in the store, or the store saturated, if and only if no batch was outstanding or nothing was recorded since it was built |
| Runs.CoveredHitsStay | redis_store.go:123-164 | every hit recorded before a successful flush with no outstanding batch, or with nothing recorded since it was built, is in the store at every later moment of the run, until saturation |
| Runs.CountsGrow | redis_store.go:38-54 | the count of a request never falls in a run, until saturation removes all counts |
| Runs.TwoFlushesSuffice | redis_store.go:123-164 | two consecutive successful flushes always cover the hits before the first one |
| Runs.OneFlushIsNotEnough | server.go:110-114 | a run in which a flush succeeds and an earlier hit is not in the store |
| Runs.WinnerIsExact | redis_store.go:195-213 | a winner has the maximum applied count at the second read, whatever happened between the reads |
| Runs.WinnerIncludesOwnHits | server.go:110-122 | a client sees its own hits: after such a flush, with anything happening in between and between the reads, a winner has at least as many hits as the replica had recorded of any request |
| Runs.TwoReadsAreOneIff | redis_store.go:195-213 | the two reads answer as one atomic read at the second moment if and only if the store did not saturate between them |
| Runs.NothingMeansNone | redis_store.go:196-207 | an empty answer means that no hit was in the store at the first read or the second, unless it saturated between the two; one atomic read excludes that |
| Runs.EmptyAnswerAfterHits | redis_store.go:196-207 | a run in which hits are in the store at the first read and the answer is empty with no error |
| RedisStore.Redis.Charge | redis_store.go:41-44 | the budget loop adds the cost of exactly the new members |
| RedisStore.Redis.FlushScript | redis_store.go:34-54 | the script with its loops is the atomic step of the protocol; it replies 1 exactly when the store was saturated and 2 exactly when it saturates it |
| RedisStore.Redis.SaturateScript | redis_store.go:56-60 | saturates and deletes the counts, and keeps the sequence numbers |
| RedisStore.Redis.Highest | redis_store.go:198-207 | a member with the highest count, or none if there is no member |
| RedisStore.ApplyTwice | redis_store.go:31-35 | applying a batch twice is applying it once |
| RedisStore.ReplicaStore.Record | redis_store.go:102-121 | the method is the Record step, and reports overflow once |
| RedisStore.ReplicaStore.BuildBatch | redis_store.go:166-193 | the loop over the pending keys is the batch step |
| RedisStore.ReplicaStore.TakeReply | redis_store.go:152-163 | the loop over the pending keys is the acknowledge step |
| RedisStore.ReplicaStore.CallFlush | redis_store.go:148-151 | over a network that loses and repeats calls, a reply means that the batch is applied once; over a reliable one the reply arrives |
| RedisStore.ReplicaStore.Flush | redis_store.go:123-164 | a retained batch is retried unchanged, an error keeps it, success settles it, and the saturating branch leaves an empty replica that has not overflowed; over a reliable network there is no error, and saturation is reported exactly by the call that caused it |
| RedisStore.CleanFlushSendsAll | redis_store.go:123-125 | a successful flush with no outstanding batch leaves nothing pending and moves every pending hit into the store once |
| RedisStore.ReadTop | redis_store.go:195-213 | unavailable exactly when saturated, empty exactly when no member exists, else a member with the highest count; over a reliable network never an error |
| RedisStore.FlushThenTop | server.go:110-122 | with no outstanding batch, a winner has at least the shared and the local hits of every request; over a reliable network it always answers |
| Refinement.FlushIsPath | redis_store.go:123-164 | whatever one call of Flush does, with lost calls or replies or a retained batch, is a path of the transition system, and it ends with a timeout exactly when it fails |
| Refinement.SaturatingFlushIsPath | redis_store.go:131-139 | so is the saturating branch, in its success and both its failures |
| Admission.StepInv | server.go:64-70 | every atomic action keeps the counter equal to the sizes inside and the streaming sizes within the maximum |
| Admission.RunInv | server.go:64-70 | under any interleaving the admitted bytes never exceed the maximum, and the counter is 0 when all are gone |
| Admission.AdmittedIffItFits | server.go:64-70 | in every interleaving a response is admitted if and only if it fit the maximum with all that were present when it added its size |
| Admission.AloneIsAdmitted | config.go:87-88 | a response within the configured maximum is admitted when it is alone |
| Admission.Server.AddSize | server.go:64 | the shared counter and the handler's own sum move together |
| Admission.Server.Admits | server.go:64-69 | admits exactly when the sum that its own add returned is at most the maximum |
| Admission.Server.Subtract | server.go:65-70 | the size is taken back once |
| Tokenizer.ChunkingIsIrrelevant | web/app.js:165-180 | any cut of the response into chunks gives the same final state |
| Tokenizer.InsideReads | web/app.js:167-178 | inside quotes every byte of a literal lands in the buffer, and the digit state is that of the text |
| Tokenizer.EscapeDigits | web/app.js:143-150 | escaping neither adds nor hides digit strings, so the number test on the wire is the one on the string |
| Tokenizer.BomEscape | web/app.js:157 | dropping a byte order mark and unescaping commute |
| Tokenizer.EndClassifies | web/app.js:151-163 | the category of a literal in terms of the string it encodes |
| Tokenizer.CountsTally | web/app.js:161-162 | the five counters are the numbers of elements in each category |
| Tokenizer.ReadsResponse | web/app.js:136-181 | reading a whole response gives the categories of its first n elements, with no exception |
| Tokenizer.CategoryIsRight | web/app.js:151-161 | an element gets the category of the rule if and only if the request agrees at that element |
| Tokenizer.WrongAreDisagreements | web/app.js:151-161 | the number of wrong elements is the number of elements at which the request does not agree |
| Tokenizer.NoneWrongIffAgrees | web/app.js:151-161 | the page finds no wrong element if and only if the request agrees at all of them |
| Tokenizer.DigitStringMisread | web/app.js:155 | a request whose string is the number that it replaces is misread |
| Tokenizer.EqualStringsMisread | web/app.js:158 | a request with the same string twice is misread |
| Tokenizer.MarkMisread | web/app.js:157-158 | a request whose string starts with a byte order mark is misread |
| Tokenizer.OrdinaryStringsAgree | web/app.js:136-181 | for different strings, each with a non-digit and no mark, every chunking reads back exactly the rule, element by element: 3 for both, 1 for int1 only, 2 for int2 only, else 0 |
| Tokenizer.Reader.PushByte | web/app.js:143-150 | the growing buffer keeps its bytes when it doubles |
| Tokenizer.Reader.EndElement | web/app.js:151-163 | one element is classified and noted in the map |
| Tokenizer.Reader.Chunk | web/app.js:165-180 | the loop over a chunk is the byte-by-byte reading, and stops after n elements |

## Left out

- HTTP routing, parameter parsing, QUERY bodies, deadlines, metrics, logging and shutdown timing: input and output wiring.
- Redis and go-redis inside: each script is one atomic step, and connection retries are repeated deliveries.
- The 24 h expiry of sequence keys, deleted keys and lost Redis data (redis_store.go:25-29, 62-64): conservation assumes that the store keeps its keys.
- A replica that stops for good: it is a replica that takes no more steps, and its pending hits stay out of the store.
- Which member `Top` shows on a tie: any member with the highest score.
- uint64 hit counts, the int64 batch number and float64 scores above 2^53: unbounded numbers.
- Escaping of strings that are not valid UTF-8: modelled for the printer, but the round trips need the validation of `Validate`. Surrogate escapes are not part of the JSON reader, because the printer never writes them.
- JavaScript numbers: `num` is an exact number here. It is only compared with element counts up to 4,000,000, where doubles agree.
- Heap sizes: `allocSize` is any function, and 152 and 48 are the constants of the code. Cloned strings have no meaning on values.
- `sync.Pool`: the pooled buffer is an array of any length with any contents.
- Stream.WriteJSON: limits up to (2^63-1)/2, because beyond that the next multiples leave int64; the configuration allows less than 2^32.
- Size.JSONSize: sizes above 2^63-1 wrap around in the code and are left out; `Size.SizeNeverOverflows` shows that encoded elements below 2^31 bytes have none.
- Validation.Validate: accepted strings so long that the size, rounded up to MiB, leaves int64. config.go has no upper bound on MAX_STR_BYTES; the condition is on the request, and `Validation.ShortElementsSupported` says when it holds.
- RedisStore.ReplicaStore.Flush: one call with nothing between its critical sections; every interleaving is in `Protocol` and `Runs`.
- RedisStore.ReplicaStore.CallFlush: deliveries before the call returns, with no other replica in between; later ones are steps of `Protocol`.
- RedisStore.FlushThenTop: the sequential case, in which a winner includes the shared hits too; `Runs.WinnerIncludesOwnHits` has any activity in between.
- The drawing, layout and forms of web/app.js, the load tests, the chart and the container: nothing to prove.
