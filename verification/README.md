# Verified model of the public-inbox search helper and converters

A Dafny model of the parts of public-inbox that change state in intricate ways, with proofs of what they
promise. `dafny verify dfyconfig.toml` checks all of it.

- `Khashl`, `KhashTable`, `KhashRuns`: the open-addressing hash table. `Table` is a class over a key array
  and a flag array, with the in-place kick-out rehash and backward-shift deletion; `entries` is the map it
  stands for. The lemmas of `Khashl` work on the arrays' contents as sequences.
- `Argv`, `SrchCache`: NUL-framed requests, and the cache of open databases built on that table, under its
  file-descriptor budget.
- `Supervisor`: the prefork supervisor as a state machine and as a class.
- `ConvertModel`, `Convert`, `ConvertBytes`, `ConvertReads`, `ConvertPlaces`: the v1 to v2 history converter,
  as a transformation of fast-export commands, as a pass over bytes, the proof that the two agree, that the
  converted bytes read back as the converted commands, and what stands for each command in its place.
- `Calendar`, `DateParse`, `Rfc2822`, `ZoneWords`, `ObsDate`, `IsoDate`, `NumDate`, `Doubles`, `DateColumn`:
  calendar arithmetic, the greedy date parser, what it reads exactly, the cast to double, and date range columns.
- `Output`, `Merge`, `Writev`: partial writes, flush and rewind, several writers under one lock.
- `TermScan`, `TermLength`, `Roots`, `DumpRoots`: sorted term scans, the presized root table of `dump_roots`,
  and the lines it sends for a list of documents.
- `Mboxrd`: quoting around the editor.
- `Bits`, `Strings`: 32-bit arithmetic and byte strings.

What the surrounding system decides is a parameter or a free choice: hash functions are arbitrary, `write`
and `writev` take any prefix or fail, `fork` returns any pid no unreaped child has, the clock, `gmtime_r`
for raw timestamps, `mktime` and the way `%Y` writes a year outside 1000-9999 come from an environment value.

Some promises turned out not to hold as stated, and the model follows the code:

- A `data 0` block makes the converter copy the rest of the stream unread, because `read_all` takes length 0
  as "read to end of file". The one-file layout of the v2 format documentation then fails for every message
  added afterwards, and only then (`ConvertModel.LayoutIff`).
- SIGTTIN resizes the pid table to `nworker + 1` slots although scans go up to the high-water mark, and empties
  slot `nworker` even if a child is in it (`Supervisor.TtinKeepsInvIff`).
- The zone -0001 is the date parser's own mark for "no zone", a month named in a comment after the zone
  replaces the month, and AM or PM there moves the hour (`Rfc2822.ParsesExactlyIff`).
- A two-digit year of 10-69 makes the parser refuse a date-time (`ObsDate.ShortYearIff`), and of the named zones
  of section 4.3 of RFC 2822 it does not know UT and the military ones but Z (`ObsDate.NamedZoneIff`).
- A commit stamp `@n +hhmm` whose n starts with a 9 is no date below nine digits (`NumDate.HeaderIff`).
- The digits at the end of a `-A` prefix are not all split off when nothing comes before them
  (`TermLength.ExtractsTrailing`).
- Dates more than ten days ahead are refused only when the time of day comes before the date
  (`IsoDate.FutureRefusedIff`), and may then be read with day and month exchanged (`IsoDate.TimeFirstParses`).
- Range ends are compared as doubles, so past 2^53 a range can select a neighbour of its end
  (`DateColumn.RangeExactIff`).
- A single date is meant to select a day, but 86400 is added to the decimal column: too much for a day, too
  little for a second (`DateColumn.FieldExactIff`).
- A worker whose write fails inside a line leaves a part of it in the pipe, and the other workers go on
  (`Merge.IntactIff`).

## Model

| member | source | states |
|---|---|---|
| `Bits.MaskWraps` | lib/PublicInbox/khashl.h:104-107 | masking the next index with 2^b - 1 wraps exactly at the last bucket |
| `Bits.PowerOfTwoTest` | lib/PublicInbox/khashl.h:120 | x & (x - 1) is zero exactly when x is a power of two |
| `Khashl.Home` | lib/PublicInbox/khashl.h:57 | the home bucket of any 32-bit hash lies in the table, for every bucket width |
| `Khashl.HomeIsTopBits` | lib/PublicInbox/khashl.h:57 | the home bucket is the number spelled by the top bits of the hash times 0x9e3779b9, modulo 2^32 |
| `Khashl.LoadIs` | lib/PublicInbox/khashl.h:123 | the load threshold is exactly three quarters of the buckets |
| `KhashTable.BucketBits` | lib/PublicInbox/khashl.h:118-122 | the shift loop finds the smallest width of at least 2 bits whose buckets cover the request |
| `KhashTable.GrowthBits` | lib/PublicInbox/khashl.h:160-165 | asking for one bucket more than a full table has doubles it (or starts it at 4), within 2^31 buckets, and leaves room for the put |
| `Khashl.ProbeMiss` | lib/PublicInbox/khashl.h:105-110 | a probe that met only other keys up to a free slot proves the key is not stored anywhere |
| `Khashl.Insert` | lib/PublicInbox/khashl.h:172-176 | filling the first free slot of a probe keeps the probe invariant, the one-copy rule and the load bound |
| `Khashl.RehashStart` | lib/PublicInbox/khashl.h:124-130 | an empty new bitmap beside the old table is a sound start of the in-place rehash |
| `Khashl.RehashLift` | lib/PublicInbox/khashl.h:133-135 | taking a bucket out of the old table leaves both tables together holding exactly the rest |
| `Khashl.RehashPlace` | lib/PublicInbox/khashl.h:138-146 | writing the bucket in hand to a slot free in both tables keeps the new table's probe invariant and loses nothing |
| `Khashl.RehashKick` | lib/PublicInbox/khashl.h:138-143 | kicking out the old tenant of a slot swaps it with the bucket in hand: nothing lost, nothing doubled, one old bucket fewer |
| `Khashl.RehashRound` | lib/PublicInbox/khashl.h:136-148 | every round of the kick-out loop keeps old and new table disjoint and complete, and shrinks the old one unless the chain ends |
| `Khashl.RehashEnd` | lib/PublicInbox/khashl.h:150-154 | when the old bitmap is empty, the first 2^bits slots alone satisfy the whole table invariant for the new size |
| `KhashTable.FirstFree` | lib/PublicInbox/khashl.h:138-139 | the innermost scan ends at a free slot with every slot from the home bucket to it used |
| `KhashTable.Table.Place` | lib/PublicInbox/khashl.h:137-147 | one round writes the bucket to the first free slot of its new probe and reports the tenant it kicked out |
| `KhashTable.Table.Relocate` | lib/PublicInbox/khashl.h:136-148 | the kick-out chain terminates with every bucket of the map in one of the two tables and no old slot newly used |
| `KhashTable.Table.Move` | lib/PublicInbox/khashl.h:133-148 | moving old bucket j empties its old slot and keeps the stored map |
| `KhashTable.Table.MoveAll` | lib/PublicInbox/khashl.h:131-149 | after the outer loop no slot of the old bitmap is used and the map is the same |
| `KhashTable.Table.Rehash` | lib/PublicInbox/khashl.h:124-154 | growing, shrinking or same-size rehash keeps entries and count and ends in a valid table of the new size |
| `KhashTable.Table.Resize` | lib/PublicInbox/khashl.h:116-155 | entries and count are kept; the new width is the smallest that covers the request, unless the entries would exceed its load, and then the table is untouched |
| `KhashTable.Table.Scan` | lib/PublicInbox/khashl.h:105-109 | the probe loop stops at the key or at a free slot having passed only other used buckets, and its `i == last` exit is unreachable |
| `KhashTable.Table.Probe` | lib/PublicInbox/khashl.h:167-171 | in a valid table the slot the probe ends at is used if and only if the key is stored, and then holds that key |
| `KhashTable.Table.Get` | lib/PublicInbox/khashl.h:100-111 | returns an index below kh_end if and only if the key is in the map, and then the bucket with its value |
| `KhashTable.Table.Put` | lib/PublicInbox/khashl.h:158-179 | absent is 1 exactly when the key was absent, the map gains just that entry or is unchanged, the index holds the key, and nothing is reallocated while fewer than three quarters of the buckets are used |
| `KhashTable.Table.ProbeAndInsert` | lib/PublicInbox/khashl.h:166-178 | the part after the rehash check: inserts once or leaves the present entry untouched |
| `KhashTable.Table.SetVal` | lib/PublicInbox/khashl.h:387 | assigning through kh_val changes the value of that one entry |
| `KhashTable.Table.Store` | lib/PublicInbox/xh_cidx.h:275-279 | put followed by the value assignment is map assignment |
| `KhashTable.Table.Each` | lib/PublicInbox/khashl.h:469-475 | iteration visits every entry exactly once |
| `KhashTable.Table.Clear` | lib/PublicInbox/khashl.h:91-97 | the table becomes empty without being reallocated |
| `Khashl.ShiftMove` | lib/PublicInbox/khashl.h:190-194 | moving bucket j into the hole keeps every stored entry and every probe path, and the hole is now at j |
| `Khashl.ShiftSkip` | lib/PublicInbox/khashl.h:190-193 | the four-way comparison is false only for buckets that do not need the hole, across wrap-around too |
| `Khashl.ShiftEnd` | lib/PublicInbox/khashl.h:191-197 | when the scan meets a free slot, freeing the hole leaves a valid table |
| `KhashTable.Table.ShiftBack` | lib/PublicInbox/khashl.h:189-195 | the backward-shift loop terminates, never by meeting its own hole, at a hole that can be freed |
| `KhashTable.Table.Del` | lib/PublicInbox/khashl.h:184-199 | deleting an occupied bucket removes exactly that key from the map; every other entry is kept and the invariant with it |
| `KhashRuns.ApplyPut` | lib/PublicInbox/khashl.h:322-334 | put and put-with-assignment on plain keys are the map operations |
| `KhashRuns.ApplyDel` | lib/PublicInbox/khashl.h:322-323 | get followed by del removes the plain key if it was there and says whether it was |
| `KhashRuns.ApplyGet` | lib/PublicInbox/khashl.h:332 | get on a plain key is map lookup |
| `KhashRuns.Replay` | lib/PublicInbox/khashl.h:80-334 | every run of put, get, del, resize and clear from the empty table, of any length, answers as a mathematical map does and ends with its size: for every hash function, in the plain set and map forms as in the cached-hash ones |
| `KhashRuns.LatestStored` | lib/PublicInbox/khashl.h:322-334 | after a run a key has the value stored last, by an assignment or by a put that found nothing, unless it was removed since |
| `Argv.Split` | lib/PublicInbox/xap_helper.h:223-240 | the pieces found, NUL-terminated and joined, are the buffer; their count is below the limit; it aborts exactly on bad framing or when the limit is reached; nothing is written past the limit |
| `Argv.JoinInjective` | lib/PublicInbox/xap_helper.h:228-236 | NUL framing is uniquely decodable |
| `Argv.EncodeIsJoin` | lib/PublicInbox/xap_helper.h:802-833 | the cache key is the NUL framing of its option letters and arguments |
| `Argv.EncodeInjective` | lib/PublicInbox/xap_helper.h:784-846 | two requests have the same cache key if and only if their ordered -d and -Q arguments are the same |
| `Argv.DirCountIs` | lib/PublicInbox/xap_helper.h:798-801 | a request has as many shards as -d options; -Q options do not count |
| `SrchCache.KeyedLookup` | lib/PublicInbox/xap_helper.h:135-147 | looking up the encoded key finds the object cached for that option list and no other |
| `SrchCache.EntriesBounded` | lib/PublicInbox/xap_helper.h:698-700 | the charged descriptors bound the number of cached entries |
| `SrchCache.AdmitKeepsBudget` | lib/PublicInbox/xap_helper.h:698-704 | the charge covers all cached entries, and exceeds the limit only while nothing but the newest entry is cached; kept by hits, overflow eviction and retry eviction |
| `SrchCache.AdmitCharges` | lib/PublicInbox/xap_helper.h:698-704 | in the sum over all cached entries the charge is exact after an overflow and while databases open at once, and a request within the budget that opens at once evicts nothing |
| `SrchCache.AdmitExactly` | lib/PublicInbox/xap_helper.h:690-737 | a hit changes nothing; a miss is charged 8 for each -d and nothing for -Q, alone if that would exceed the limit; it is all that stays cached after an overflow or a first failure, else it is added |
| `SrchCache.ReplyExactly` | lib/PublicInbox/xap_helper.h:842-856 | a request aborts if and only if none of its options is a -d; otherwise it is a hit, ends the process, or is served new |
| `SrchCache.CachedIff` | lib/PublicInbox/xap_helper.h:642-661 | over a run: an option list is cached if and only if it was requested and no later request was a miss that overflowed the limit or did not open at once |
| `SrchCache.Cache.FreeAll` | lib/PublicInbox/xap_helper.h:646-653 | frees each cached object but the kept one exactly once, each while live |
| `SrchCache.Cache.Renew` | lib/PublicInbox/xap_helper.h:642-661 | afterwards only the kept object is live and cached; its put reports absent |
| `SrchCache.Cache.PutOrReuse` | lib/PublicInbox/xap_helper.h:845-853 | a hit returns the cached object and frees the new one; a miss caches the new one; live objects are the cached ones |
| `SrchCache.Cache.Init` | lib/PublicInbox/xap_helper.h:690-737 | the charge and the surviving entries after overflow, first-failure eviction and retry; a second failure frees everything |
| `SrchCache.Cache.Serve` | lib/PublicInbox/xap_helper.h:842-856 | hit, miss, abort or exit exactly as the options and the opening prescribe, with the charge and the cached entries afterwards in numbers of -d options; live objects equal cached objects and the budget holds |
| `SrchCache.Run` | lib/PublicInbox/xap_helper.h:764-871 | over every run of requests each answer is the object the cache model prescribes, the budget holds, and at exit no object is left allocated |
| `SrchCache.LimitFits` | lib/PublicInbox/xap_helper.h:698-704 | any descriptor limit below 12 * 2^30 keeps every run within the hash table's capacity |
| `Supervisor.Prefork.InsertPid` | lib/PublicInbox/xap_helper.h:977-981 | fills an empty slot; the assertion is a precondition every caller meets |
| `Supervisor.Prefork.StartWorkers` | lib/PublicInbox/xap_helper.h:1007-1017 | every empty wanted slot gets the forked pid, every other slot is untouched |
| `Supervisor.Prefork.Reaped` | lib/PublicInbox/xap_helper.h:1071-1090 | the reaped child's slot is emptied, no-input ends the helper, otherwise wanted workers are restarted; an unknown pid changes no slot; the invariant is kept |
| `Supervisor.Prefork.SigTtin` | lib/PublicInbox/xap_helper.h:1123-1140 | if alive, below 65535 workers and resized: one wanted worker more in a table of exactly that many slots, the new slot and every empty one get the forked pids, the others keep theirs, and the children gain exactly those; otherwise nothing changes |
| `Supervisor.Prefork.SigTtou` | lib/PublicInbox/xap_helper.h:1142-1153 | one wanted worker fewer, never below one; nothing at all once the helper is ending; SIGTERM goes to each child outside the wanted slots exactly once and to nobody else |
| `Supervisor.SurplusChildren` | lib/PublicInbox/xap_helper.h:1148-1152 | the pids in the slots from nworker to the high-water mark are exactly the children outside the wanted slots, each once |
| `Supervisor.Prefork.LivingWorkers` | lib/PublicInbox/xap_helper.h:1155-1164 | counts exactly the unreaped children |
| `Supervisor.TtinAddsOne` | lib/PublicInbox/xap_helper.h:1123-1140 | SIGTTIN slot by slot: what it adds, what it keeps, and when it does nothing |
| `Supervisor.TtouDropsOne` | lib/PublicInbox/xap_helper.h:1142-1147 | SIGTTOU changes only the number of wanted workers, by one, and not while the helper is ending |
| `Supervisor.ReapEmptiesSlot` | lib/PublicInbox/xap_helper.h:1071-1090 | a reaped child leaves its slot; while the helper lives every empty wanted slot then gets the forked pid and the others keep theirs; a pid in no slot changes no slot |
| `Supervisor.StartKeepsInv` | lib/PublicInbox/xap_helper.h:988-1017 | starting workers keeps each unreaped child in exactly one slot |
| `Supervisor.ReapKeepsInv` | lib/PublicInbox/xap_helper.h:1071-1090 | reaping keeps each unreaped child in exactly one slot below the high-water mark, loses no other child, and ends the helper exactly on a no-input exit |
| `Supervisor.TtinKeepsInvIff` | lib/PublicInbox/xap_helper.h:1123-1140 | SIGTTIN keeps the invariant if and only if it is ignored, or nworker + 1 reaches the high-water mark and slot nworker is empty |
| `Supervisor.TtinCanLoseAChild` | lib/PublicInbox/xap_helper.h:1123-1153 | with two workers, SIGTTOU then SIGTTIN before the surplus worker is reaped overwrites its pid |
| `Supervisor.StepKeepsInv` | lib/PublicInbox/xap_helper.h:1181-1200 | an event keeps the invariant if and only if it is not a SIGTTIN that is acted on while unsafe |
| `Supervisor.ShutdownStep` | lib/PublicInbox/xap_helper.h:1084-1089 | once shutdown has begun no event starts a worker and each reaped child leaves for good |
| `Supervisor.StaysFull` | lib/PublicInbox/xap_helper.h:1007-1015 | while the helper lives and fork succeeds no event leaves a wanted slot empty, not even an unsafe SIGTTIN |
| `Supervisor.LoopEnds` | lib/PublicInbox/xap_helper.h:1181 | the loop condition fails exactly when the helper is ending and no child is left |
| `Supervisor.RunsAreSafeIff` | lib/PublicInbox/xap_helper.h:1166-1201 | in a run from the first start_workers on, the invariant holds in every state if and only if no SIGTTIN acted on is unsafe; nothing is assumed of the states |
| `Supervisor.ShutdownLasts` | lib/PublicInbox/xap_helper.h:1181-1200 | from the start of shutdown on, whatever signals follow, it stays, no worker is started, and the children only decrease, by exactly the reaped ones |
| `Supervisor.RunsAreSafe` | lib/PublicInbox/xap_helper.h:1166-1201 | in every run without an unsafe SIGTTIN: the invariant holds in every state, shutdown is permanent between any two states, children decrease during it by exactly the reaped ones, and the loop guard fails exactly when none is left |
| `ConvertModel.ConvertsHistory` | script/public-inbox-convert:144-165 | without empty data blocks %D is the replayed v1 tree, the `undeleted path` exit is taken exactly on histories that delete what is not there, and after every command the v2 tree is the blob of the latest change as m or d |
| `ConvertModel.RecordShows` | script/public-inbox-convert:148-163 | recording a change leaves exactly one file in the tree, with the blob of that change |
| `ConvertModel.LayoutKept` | script/public-inbox-convert:135-168 | no message added after an empty data block: the one-file layout holds after every command |
| `ConvertModel.LayoutBroken` | script/public-inbox-convert:140-143 | a message added after an empty data block lands in the v2 tree under its v1 path |
| `ConvertModel.LayoutIff` | lib/PublicInbox/IO.pm:79-94 | the one-file layout holds throughout if and only if no message is added after an empty data block, whose length 0 means `read to end of file` |
| `ConvertModel.EmptyMessageExample` | script/public-inbox-convert:140-143 | an empty commit message is enough to break the layout |
| `ConvertModel.PayloadsCopied` | script/public-inbox-convert:140-143 | every payload is copied once and in order for every replayable stream, whatever the payload looks like, empty ones included |
| `ConvertModel.BlobsConserved` | Documentation/public-inbox-v2-format.pod:79-90 | for every blob, times recorded as m = times recorded as d + live v1 paths holding it + times overwritten |
| `ConvertModel.BalancedIff` | script/public-inbox-convert:145-163 | added minus deleted equals the live v1 tree if and only if no live path was overwritten |
| `ConvertModel.OverwriteExample` | script/public-inbox-convert:145-154 | two messages at one path leave the first neither deleted nor live |
| `Convert.DataDigits` | script/public-inbox-convert:140 | the longest run of digits after a leading `data `, and nothing on any other line |
| `Convert.ReadRound` | script/public-inbox-convert:135-168 | one turn of the reading loop is one round of the specification, advancing the input |
| `Convert.Convert` | script/public-inbox-convert:135-168 | the loop computes the specified pass over the whole text, fatal and end cases included; what that pass does with each command is `ConvertPlaces.OutputPlaces` and, on bytes, `ConvertPlaces.TextPlaces` |
| `ConvertBytes.ModifyMatches` | script/public-inbox-convert:145-146 | the M pattern recovers mark and path of any rendered change |
| `ConvertBytes.DeleteMatches` | script/public-inbox-convert:155 | the D pattern recovers the path of any rendered deletion |
| `ConvertBytes.DataImage` | script/public-inbox-convert:140-143 | a rendered data block is consumed by length for any payload bytes |
| `ConvertBytes.RoundImage` | script/public-inbox-convert:135-168 | one round reads exactly one rendered command and does what the model does |
| `ConvertBytes.ConvertsText` | script/public-inbox-convert:126-168 | converting the text of any well-formed command stream gives the text of the converted commands |
| `ConvertReads.ReadsBack` | script/public-inbox-convert:135-168 | reading rendered commands back, payloads by length, gives the same commands |
| `ConvertReads.RenderInjective` | script/public-inbox-convert:135-168 | two streams have the same text if and only if they are the same stream |
| `ConvertReads.OutputReads` | script/public-inbox-convert:126-168 | the converted bytes, read back, are exactly the commands of the model |
| `ConvertReads.TextPayloads` | script/public-inbox-convert:140-143 | on bytes: the payloads of the output are those of the input, once and in order |
| `ConvertReads.TextLayoutIff` | Documentation/public-inbox-v2-format.pod:79-90 | on bytes: the tree of the converted text has the one-file layout after every command if and only if no message is added after an empty data block |
| `ConvertPlaces.LineIs` | script/public-inbox-convert:135 | the first line ends with the first newline or with the text |
| `ConvertPlaces.V1PathIs` | script/public-inbox-convert:145 | a v1 path is two characters of 0123456789abcdef, a slash and 38 more |
| `ConvertPlaces.ModifyPattern` | script/public-inbox-convert:145-146 | the M pattern matches a line with this mark and path if and only if the line is that text followed by anything |
| `ConvertPlaces.DeletePattern` | script/public-inbox-convert:155 | the D pattern matches a line with this path if and only if the line is that text followed by anything |
| `ConvertPlaces.ShortPayloadFatal` | lib/PublicInbox/IO.pm:86-90 | a payload that the input does not have in full is fatal, and only its header is printed |
| `ConvertPlaces.OutputPlaces` | script/public-inbox-convert:126-168 | of any stream read so far every command is in the output once, in its place and order: as itself, or, a change to a v1 path inside a commit, as the record of its blob as m or d, after removing the other file if the latest change left it; and there is nothing else |
| `ConvertPlaces.EndsAt` | script/public-inbox-convert:155-166 | a run ends exactly at a done line or at a deletion of a path that is not live, and prints nothing after |
| `ConvertPlaces.NothingLost` | script/public-inbox-convert:135-168 | the commands of the output of a replayable v1 stream that are no file changes are exactly those of the input up to done, once and in order; between them each record stands where the change was |
| `ConvertPlaces.TextPlaces` | script/public-inbox-convert:135-168 | the same on bytes, for the commands read back from the converted text |
| `Calendar.NextDayNumber` | lib/PublicInbox/approxidate.h:28-47 | the closed form grows by one from each day to the next, leap days included |
| `Calendar.DayNumberCounts` | lib/PublicInbox/approxidate.h:28-47 | the closed form equals the day-by-day Gregorian count through 2099 |
| `Calendar.DateOfDayNumber` | lib/PublicInbox/approxidate.h:28-47 | and every date of 1970-2099 is the one its number counts to |
| `Calendar.TmToTimeInvertsGmTime` | lib/PublicInbox/approxidate.h:28-47 | tm_to_time_t inverts the calendar breakdown of every instant of 1970-2099 |
| `Calendar.WeekdayAdvances` | lib/PublicInbox/approxidate.h:158-164 | the breakdown has the epoch on a Thursday and each day a weekday later |
| `Calendar.ColumnsFollowTime` | lib/PublicInbox/xh_date.h:48-57 | the time column orders instants as time does; the day column is equal within a UTC day and orders days |
| `Calendar.ColumnsAreExact` | lib/PublicInbox/xh_date.h:77-83 | columns of the years 1000-9999 are positive and below 2^53 |
| `DateParse.MatchStringIs` | lib/PublicInbox/approxidate.h:118-132 | the length of the longest common prefix without regard to case, or 0 if the word goes on behind it |
| `DateParse.MatchAlpha` | lib/PublicInbox/approxidate.h:146-197 | a word always advances the cursor, and neither reads nor moves past the terminator |
| `DateParse.MatchMultiNumber` | lib/PublicInbox/approxidate.h:242-302 | three-number forms neither read nor move past the terminator |
| `DateParse.MatchDigit` | lib/PublicInbox/approxidate.h:324-417 | numbers neither read nor move past the terminator |
| `DateParse.MatchTz` | lib/PublicInbox/approxidate.h:419-454 | zones neither read nor move past the terminator |
| `DateParse.Token` | lib/PublicInbox/approxidate.h:514-535 | every step of the scan advances by at least one and never passes the terminator, on every text |
| `DateParse.ParseDateBasic` | lib/PublicInbox/approxidate.h:487-548 | the loop computes the specified scan and conclusion, and terminates; what they read is stated by the rows of `Rfc2822`, `ObsDate`, `IsoDate` and `NumDate` |
| `Rfc2822.NamesOfStandard` | lib/PublicInbox/approxidate.h:49-57 | the month and weekday tables start with the names Jan to Dec and Sun to Sat of RFC 2822, in that order |
| `Rfc2822.MonthToken` | lib/PublicInbox/approxidate.h:150-156 | each of the month names Jan to Dec of RFC 2822, as a word of its own, sets the month it names and is consumed whole |
| `Rfc2822.WeekdayToken` | lib/PublicInbox/approxidate.h:158-164 | each of the day names Sun to Sat, as a word of its own, is read as that day, matches no month and is consumed whole |
| `Rfc2822.DayToken` | lib/PublicInbox/approxidate.h:361-399 | the first one- or two-digit number is the day of the month |
| `Rfc2822.YearToken` | lib/PublicInbox/approxidate.h:371-380 | four digits of 1970-2099 are the year |
| `Rfc2822.ClockToken` | lib/PublicInbox/approxidate.h:256-267 | hh:mm and hh:mm:ss set the time of day |
| `Rfc2822.ZoneToken` | lib/PublicInbox/approxidate.h:419-454 | a four-digit zone sets the signed offset in minutes, whatever follows it |
| `Rfc2822.ShortZoneToken` | lib/PublicInbox/approxidate.h:430-453 | a two-digit zone sets whole hours below 24 and is skipped otherwise |
| `Rfc2822.ColonZoneToken` | lib/PublicInbox/approxidate.h:431-453 | a zone with a colon sets hours and minutes in range and is skipped otherwise |
| `Rfc2822.WordToken` | lib/PublicInbox/approxidate.h:146-197 | every word of letters is consumed whole, whatever follows it, and is a month, a weekday, a zone (which counts only while none was found), PM, AM, or skipped, in that order |
| `Rfc2822.ScanTail` | lib/PublicInbox/approxidate.h:514-535 | a line without digits changes exactly what its words change, one after the other, and later lines are not read |
| `Rfc2822.ParsesFields` | lib/PublicInbox/approxidate.h:487-548 | every unfolded date-time of section 3.3 of RFC 2822 in 1970-2099, with its own names of months and days, any white space, any digit-free text after the zone and anything on later lines, is read field by field; the last month named after the zone replaces the month, and AM and PM there move the hour |
| `Rfc2822.ParsesText` | lib/PublicInbox/approxidate.h:487-548 | such a date-time parses to the clock reading on the day-by-day calendar that its fields then say, minus its offset; for the zone -0001, minus the first zone named after it or the system's offset |
| `Rfc2822.ParsesExactlyIff` | lib/PublicInbox/approxidate.h:508-546 | it parses to exactly the UTC instant it denotes if and only if the words after the zone keep month and hour, and the zone is not -0001 or no word names a zone and it is the system's own |
| `Rfc2822.SystemOffsetIs` | lib/PublicInbox/approxidate.h:539-540 | the system's own offset is the number of minutes its local time is ahead of UTC |
| `Rfc2822.MinusOneExample` | lib/PublicInbox/approxidate.h:539-540 | on a system in UTC, one minute past the epoch in zone -0001 is read as the epoch |
| `Rfc2822.CommentExample` | lib/PublicInbox/approxidate.h:150-156 | the comment (May) after the epoch moves it to the first of May |
| `ZoneWords.MonthWord` | lib/PublicInbox/approxidate.h:150-156 | three or more letters that start the English name of a month, in any case, are that month |
| `ZoneWords.ZoneWord` | lib/PublicInbox/approxidate.h:65-116 | each of the 44 zone names, in any case, is its hours east of UTC, summer time included, and is not taken for another |
| `ZoneWords.ShortWord` | lib/PublicInbox/approxidate.h:166-193 | a word of one or two letters is the zone NT or Z, PM or AM, or nothing |
| `ObsDate.ObsZoneKind` | lib/PublicInbox/approxidate.h:166-184 | a named zone of section 4.3 of RFC 2822 is taken for what it means there, but UT and the military zones other than Z are not known |
| `ObsDate.ShortYearToken` | lib/PublicInbox/approxidate.h:395-409 | once day and month are known, a number of two digits is a year below 10 or from 70 on, and skipped otherwise |
| `ObsDate.ShortYearIff` | lib/PublicInbox/approxidate.h:395-409 | a date-time with a two-digit year is read as RFC 2822 has it if and only if the year is below 10 or from 70 on, and refused otherwise |
| `ObsDate.ShortYearExample` | lib/PublicInbox/approxidate.h:395-409 | the first of January of the year 20 is no date |
| `ObsDate.ObsIsCurrent` | lib/PublicInbox/approxidate.h:487-548 | with a four-digit year and a numeric zone that form is the one of section 3.3 |
| `ObsDate.NamedZoneIff` | lib/PublicInbox/approxidate.h:166-184 | a date-time in a named zone of RFC 2822 parses to exactly its UTC instant if and only if the words keep month and hour, and the zone is known or the zone that counts instead is UTC too |
| `ObsDate.UtExample` | lib/PublicInbox/approxidate.h:166-184 | where the system is not in UTC, the epoch in the zone UT is another instant |
| `NumDate.AmPmToken` | lib/PublicInbox/approxidate.h:186-194 | AM and PM set the hour as on a twelve-hour clock |
| `NumDate.NumberToken` | lib/PublicInbox/approxidate.h:384-414 | one or two digits are the day if there is none, else a year after the day, else a month |
| `NumDate.FourToken` | lib/PublicInbox/approxidate.h:371-380 | four digits are an offset up to 1400 if there is none, else a year of 1901-2099 |
| `NumDate.SkippedToken` | lib/PublicInbox/approxidate.h:332-387 | three, or five and more digits are skipped, unless they are a timestamp that the system can break down and nothing was found before |
| `NumDate.OddZoneToken` | lib/PublicInbox/approxidate.h:430-453 | a signed number of one or three digits is no zone |
| `NumDate.ClockIff` | lib/PublicInbox/approxidate.h:255-267 | hh:mm[:ss] is a time if and only if it is below 25 hours, 60 minutes and 61 seconds; otherwise its hour is read as a bare number |
| `NumDate.ShortYearTry` | lib/PublicInbox/approxidate.h:211-220 | the year of a numeric date in two digits: up to 37 after 2000, from 71 on after 1900, refused otherwise |
| `NumDate.YearlessTry` | lib/PublicInbox/approxidate.h:211-238 | a numeric date without a year sets only month and day |
| `NumDate.NumericToken` | lib/PublicInbox/approxidate.h:269-302 | before the time, a numeric date has the month first, after dots second, where that can be a month; if neither can, its first number is read as a bare one |
| `NumDate.YearFirstToken` | lib/PublicInbox/approxidate.h:275-283 | before the time, a year of four digits, or of two from 71 on, is followed by month and day, whatever the mark |
| `NumDate.NumericParses` | lib/PublicInbox/approxidate.h:269-302 | dd.mm.yyyy, mm/dd/yyyy and mm-dd-yyyy, also with two-digit years, are read like the form of RFC 2822; in the other order with day and month exchanged, unless the day is no month |
| `NumDate.RawParses` | lib/PublicInbox/approxidate.h:332-344 | a number of nine digits or more is that instant, and a zone after it is only passed on |
| `NumDate.HeaderParses` | lib/PublicInbox/approxidate.h:460-485 | a commit stamp that does not start with 9 is that instant and zone |
| `NumDate.NineSkipped` | lib/PublicInbox/approxidate.h:467-468 | one that does is read like the text without its mark |
| `NumDate.HeaderIff` | lib/PublicInbox/approxidate.h:460-512 | so it is read as itself if and only if it does not start with 9 or has nine digits |
| `NumDate.NineExample` | lib/PublicInbox/approxidate.h:467-468 | `@9 +0000` is no date |
| `IsoDate.FutureRefusedIff` | lib/PublicInbox/approxidate.h:199-240 | a date is refused as more than ten days ahead if and only if it is and the time of day is already known; a refused date changes no field |
| `IsoDate.DateToken` | lib/PublicInbox/approxidate.h:269-302 | a year-first date is taken as itself, else with day and month exchanged, else only its year is taken |
| `IsoDate.FarFutureExample` | lib/PublicInbox/approxidate.h:225-232 | in 1970, noon of the last day of 2099 is read when the date comes first and fails when the time does |
| `IsoDate.YearFirstParses` | lib/PublicInbox/approxidate.h:269-283 | YYYY-MM-DD hh:mm[:ss] +hhmm parses to exactly the instant it denotes, however far ahead |
| `IsoDate.TimeFirstParses` | lib/PublicInbox/approxidate.h:199-302 | hh:mm[:ss] YYYY-MM-DD +hhmm is read like the form of RFC 2822 if at most ten days ahead; further ahead, with day and month exchanged if that is not too far; otherwise not at all, unless a month is named after the zone |
| `Doubles.RoundsToNearest` | lib/PublicInbox/xh_date.h:83 | the cast goes to the nearest double |
| `Doubles.TiesToEven` | lib/PublicInbox/xh_date.h:83 | from half way between two doubles it goes to the even one |
| `Doubles.UlpIs` | lib/PublicInbox/xh_date.h:83 | a double has 53 significant bits |
| `Doubles.DoubleMonotone` | lib/PublicInbox/xh_date.h:83 | the cast keeps order for all integers |
| `Doubles.DoubleExact` | lib/PublicInbox/xh_date.h:83 | the cast is exact up to 2^53 in magnitude |
| `DateColumn.StrftimeIsColumn` | lib/PublicInbox/xh_date.h:74-83 | formatting an instant of the years 1000-9999, reading the digits back and casting to a double gives exactly its column |
| `DateColumn.ColumnOfFormatted` | lib/PublicInbox/xh_date.h:48-57 | a text already in column form gets the column of the instant it denotes |
| `DateColumn.ColumnOfAnyYear` | lib/PublicInbox/xh_date.h:70-83 | any year the system writes in digits: the cast of the column, unless the text outgrows the buffer or the number a long long |
| `DateColumn.EpochText` | lib/PublicInbox/xh_date.h:59-61 | a raw timestamp of five digits or more denotes itself |
| `DateColumn.ColumnOfRfc2822` | lib/PublicInbox/xh_date.h:63-83 | a date-time of section 3.3 of RFC 2822 gets the column of the UTC instant it denotes, in all three formats |
| `DateColumn.RangeSelectsInstants` | lib/PublicInbox/xh_date.h:97-114 | a range whose ends are distinct doubles from their neighbours selects exactly the instants between its ends, by day or by second; one empty end is open, and two empty ends select the positive columns, so not the epoch and before in raw seconds |
| `DateColumn.RangeExactIff` | lib/PublicInbox/xh_date.h:97-114 | and it is exact for all instants only then, unless the ends are crossed and nothing is selected |
| `DateColumn.OrdinaryRangesExact` | lib/PublicInbox/xh_date.h:97-114 | ends in the years 1000-9999, or raw seconds within 2^53, always give exact ranges |
| `DateColumn.BluntExample` | lib/PublicInbox/xh_date.h:83 | the open range from 9007199254740993 also selects the second before it |
| `DateColumn.FieldSelects` | lib/PublicInbox/xh_date.h:127-135 | a single date selects the cast columns from its own to 86400 past it |
| `DateColumn.FieldExactIffSharp` | lib/PublicInbox/xh_date.h:127-135 | in any format that is the day from the date on, for all instants, exactly when its two ends fall between the right doubles |
| `DateColumn.FieldExactIff` | lib/PublicInbox/xh_date.h:127-135 | of all dates a text can denote, that never happens in the decimal formats, where the Perl counterpart (lib/PublicInbox/Search.pm:401-412) adds a day; in raw seconds it happens exactly when the two ends are sharp |
| `DateColumn.EpochFieldSharp` | lib/PublicInbox/xh_date.h:127-135 | within 2^53 seconds they are |
| `DateColumn.FieldExample` | lib/PublicInbox/xh_date.h:127-135 | every date of the years 1000-9999 in column form selects something else than its day |
| `Output.WriteAll` | lib/PublicInbox/xap_helper.h:470-485 | fails exactly when a write takes nothing; otherwise the client has every byte once and in order, else a prefix |
| `Output.Flush` | lib/PublicInbox/xh_cidx.h:200-221 | an empty buffer sends nothing and succeeds; otherwise what was written since the last rewind is sent and nothing older, and the buffer is rewound even after a failure |
| `Output.Mset` | lib/PublicInbox/xh_mset.h:33-62 | for every threshold and every partial-write schedule the client has the header and each line once and in order, or on failure a prefix of that |
| `Merge.FlushLog` | lib/PublicInbox/xh_cidx.h:214-219 | flushing a buffer appends its whole lines to the output and to its worker's share |
| `Merge.FailLog` | lib/PublicInbox/xh_cidx.h:210-220 | a flush that fails after n bytes adds those bytes to the output and the lines they hold whole to its worker's share |
| `Merge.StepKeepsInv` | lib/PublicInbox/xh_cidx.h:176-221 | every step of every worker, failing writes included, keeps the pipe equal to what the flushes sent plus a part of the flush in progress, and accounts for each of its lines |
| `Merge.RunKeepsInv` | lib/PublicInbox/xh_cidx.h:290-301 | so does every interleaving of workers with every way of cutting the writes |
| `Merge.IntactIff` | lib/PublicInbox/xh_cidx.h:200-221 | every line in the pipe is intact if and only if no flush fails inside a line |
| `Merge.LostIff` | lib/PublicInbox/xh_cidx.h:297-301 | a worker gives up lines if and only if one of its writes fails |
| `Merge.OutputIsMerge` | lib/PublicInbox/xh_cidx.h:290-301 | at the end, whichever writes failed, the pipe is a merge of first lines of the workers in order; sent and given-up lines together are all lines |
| `Merge.CutExample` | lib/PublicInbox/xh_cidx.h:210-220 | a write that fails after the first byte of a line leaves that byte in the pipe |
| `Writev.DropSends` | lib/PublicInbox/lg2.h:147-163 | advancing the vectors by w bytes drops exactly the first w bytes, and none is left exactly when all are sent |
| `Writev.Consume` | lib/PublicInbox/lg2.h:147-163 | the in-place bookkeeping computes that advance |
| `Writev.CatOid` | lib/PublicInbox/lg2.h:114-187 | for every sequence of partial, interrupted and failing writes: header, object and newline are sent each byte once and in order; it fails only on an error or a zero write and never mistakes one for completion |
| `TermScan.PrefixBlockEnds` | lib/PublicInbox/xh_cidx.h:72-74 | past the first term at or above the prefix that lacks it, no term of a sorted list has it |
| `TermScan.SkipTo` | lib/PublicInbox/xh_cidx.h:187 | the first term not below the prefix |
| `TermScan.LessIs` | lib/PublicInbox/xh_cidx.h:70 | byte order is decided by the first byte that differs, or by which term ends first |
| `TermScan.FilterHolds` | lib/PublicInbox/xh_cidx.h:187-195 | a full filter gives the wanted rests and nothing else, strictly increasing |
| `TermScan.Scan` | lib/PublicInbox/xh_cidx.h:187-195 | exactly the rests of the terms with the prefix, of the given length behind it if that is not 0, each once and in byte order: what a full filter would give, despite skip-to and early break |
| `TermLength.Extract` | lib/PublicInbox/xh_cidx.h:36-61 | the length is taken from the first place, not the first character, from which the rest is digits of a possible length |
| `TermLength.ExtractsTrailing` | lib/PublicInbox/xh_cidx.h:40-41 | it is the value of all the digits at the end, as the comment has it, if and only if there are none, or something comes before them and the value is below the largest size |
| `TermLength.TwelveExample` | lib/PublicInbox/xh_cidx.h:43-48 | of the prefix 12 only the 2 is split off |
| `Roots.FileSize` | lib/PublicInbox/xh_cidx.h:258-261 | n entries take at least 43 n bytes and split into 2 n pieces |
| `Roots.EstimateSuffices` | lib/PublicInbox/xh_cidx.h:258-271 | size/32 + 1 exceeds the entry count and so does the presized table's load threshold |
| `Roots.LoadOne` | lib/PublicInbox/xh_cidx.h:272-279 | a put reports a duplicate root exactly, and into a table with room reallocates nothing |
| `Roots.LoadRoots` | lib/PublicInbox/xh_cidx.h:258-280 | a well-formed file loads exactly when its roots are distinct, the table then holds its pairs and the split never met its limit; unless size/32 + 1 exceeds 2^31, the bucket count is still the one presized for it |
| `Roots.RootOffs` | lib/PublicInbox/xh_cidx.h:152-172 | the line end is a blank and an id for each term that starts with G, in byte order, and a newline; it aborts exactly when one of those roots is unknown |
| `Roots.IdsEnd` | lib/PublicInbox/xh_cidx.h:157-168 | the ids stand one after the other, each behind one blank, at the places where the line end is cut |
| `Roots.KnownRoots` | lib/PublicInbox/xh_cidx.h:160-162 | all root terms are found exactly when each term behind a G is in the file |
| `DumpRoots.PrintDoc` | lib/PublicInbox/xh_cidx.h:223-242 | a document adds, for each prefix in turn, a block of lines with the rests of its terms, in byte order, each ending in the root ids; an unknown root adds nothing |
| `DumpRoots.DocLinesAre` | lib/PublicInbox/xh_cidx.h:223-242 | those blocks stated over the terms themselves |
| `DumpRoots.LinesInTurn` | lib/PublicInbox/xh_cidx.h:286-301 | the lines of a list of documents are those of each in turn |
| `DumpRoots.Dump` | lib/PublicInbox/xh_cidx.h:286-301 | on success the client has every line of every document once and in order; it fails only on an unknown root or a broken client, and then the client has a prefix of the lines |
| `DumpRoots.DumpIsMerge` | lib/PublicInbox/xh_cidx.h:174-221 | over all interleavings of workers, cuts and failures of their writes, the pipe ends up holding first lines of each worker's documents in order; lines are given up exactly on a failing write and cut exactly when it fails inside a line |
| `DumpRoots.EveryLineOnce` | lib/PublicInbox/xh_cidx.h:286-301 | without a failing write every line of every document is in the pipe whole and exactly once |
| `Mboxrd.EscapeAll` | script/public-inbox-edit:155 | the substitution loop computes the quoting that `Mboxrd.EscapesLine` states line by line |
| `Mboxrd.UnescapeAll` | script/public-inbox-edit:218 | the substitution loop computes the unquoting that `Mboxrd.UnescapesLine` states line by line |
| `Mboxrd.EscapesLine` | script/public-inbox-edit:155 | a line of any number of > and then the characters F, r, o, m, blank gains exactly one >; every other line is kept as it is |
| `Mboxrd.UnescapesLine` | script/public-inbox-edit:218 | such a line with at least one > loses exactly one; every other line is kept as it is |
| `Mboxrd.RoundTrip` | Documentation/lei-mail-formats.pod:47-51 | unquoting undoes quoting for every text |
| `Mboxrd.EscapeInjective` | script/public-inbox-edit:155 | quoting is injective |
| `Mboxrd.NoSeparator` | script/public-inbox-edit:152-157 | no line of a quoted text begins with the separator constant |
| `Mboxrd.QuotedHasNone` | script/public-inbox-edit:152-157 | no line of a quoted text begins with the characters F, r, o, m, blank |
| `Mboxrd.QuotesBackIff` | script/public-inbox-edit:192-218 | quoting undoes unquoting exactly on texts without an unquoted separator line |
| `Mboxrd.StripsEnvelope` | lib/PublicInbox/Eml.pm:539 | stripping removes exactly the envelope line and the line ends before it |
| `Mboxrd.StripsNothingElse` | lib/PublicInbox/Eml.pm:539 | a text that does not start with line ends and such a line is kept as it is |
| `Mboxrd.EditUnchanged` | script/public-inbox-edit:151-219 | a message the editor leaves alone comes back unchanged and without the separator warning; the editor sees the separator only in the envelope |

## Left out

- The used flags are one boolean per bucket, not bits packed into 32-bit words; an unallocated (NULL) table is a zero-length array.
- KhashTable.Table.Put: requires fewer than 3 * 2^29 entries, KhashTable.Table.Resize at most 2^31 buckets; beyond that the C code shifts by 32.
- KhashRuns.Replay: asks for those two bounds at each put and resize of the run, and for nothing else.
- SrchCache.Run: asks for the first bound at each request; `SrchCache.LimitFits` gives it for every realistic limit.
- Roots.LoadRoots: asks for the two bounds on the entries and on the 32-bit request.
- In the plain forms a bucket of the model still has a hash field; the code paths of those forms do not read it.
- KhashTable.Table.Del: requires an occupied index, as its callers guarantee.
- The hash functions themselves (`kh_hash_bytes`, `sha_hex_hash`): every result holds for an arbitrary hash function.
- The ensemble macros of the hash table: nothing in the repository instantiates them.
- Opening, reopening and locking of databases, query parsing and the `-c` option, which is not part of the cache key.
- Signal delivery, the self-pipe, log reopening and descriptor passing; the lei-only forking loop.
- Supervisor.Prefork.SigTtin: reads of the pid table beyond its allocation, which can follow an unsafe SIGTTIN, are not modelled.
- Convert.Convert: Perl's `print` failures, and everything around the reading loop (repositories, indexing, configuration).
- ConvertBytes.ConvertsText: streams with changes to paths other than v1 paths appear as other lines; a path longer than a v1 path that starts with one is left to `Convert.Convert`.
- ConvertReads.OutputReads: streams whose other lines look like file changes, which would read back as those changes.
- Date texts that arrange numbers in other ways (a time before a date with slashes or dots, more numbers than a date needs) are parsed as the code does; for them each token is stated, and progress and termination of the whole.
- Relative dates (`approxidate_str`).
- Rfc2822.ParsesText: text folded over several lines, and comments with digits in them.
- NumDate.NumericParses: a system whose clock cannot be broken down, for which the parser takes a date without the check for the future.
- SrchCache.Cache.Serve: the abort of requests with too many -d or -Q options.
- DateColumn.ColumnOfAnyYear: years the system writes with a sign, before the year 0.
- DumpRoots.PrintDoc: a database modified while a document is being read, after which its lines are printed again.
- `apply_roots_filter`, which does not check the prefix of the first term it takes.
- The Perl modules, command scripts other than the converter and the editor, tests and packaging: option parsing and plumbing around the parts modelled here.
