# awsmock core library: a verified model

This project models the parts of the awsmock core library that carry real invariants, and proves what they promise:
the task scheduler, the JSON configuration tree, the SQS attribute digests, the server side of SRP, Base64, Signature
Version 4 with its percent-encoding and canonical query, the UTF-8 sanitiser, the two-stage log filter, the chunked
stream copy and the choice of old backups. `dafny verify dfyconfig.toml` checks everything.

| File | Models |
|---|---|
| `SchedulerSpec.dfy` | the scheduler as a transition system, its invariants over whole runs and its termination measure |
| `SchedulerTasks.dfy` | one one-time task among any others: its remaining steps and that it runs exactly once |
| `SchedulerImpl.dfy` | the classes of the scheduler, each method proved to take the step of `SchedulerSpec`, and their runs |
| `JsonText.dfy`, `Decimal.dfy` | JSON values, the compact and the pretty text, the lexer and the parser of the loader |
| `JsonForms.dfy` | both texts told as lines and as tokens; escapes, comments and trailing commas |
| `Configuration.dfy` | dotted paths, the walk and the creation of nodes, the class that owns the tree |
| `Bytes.dfy`, `Digest.dfy` | byte strings in the order of `std::map`, a digest context |
| `Wrappers.dfy`, `Sequences.dfy`, `Characters.dfy` | options, concatenation, white space and hexadecimal digits, shared by the others |
| `StringUtils.dfy`, `HttpUtils.dfy` | percent-encoding and query parameters |
| `AuthorizationRegex.dfy`, `AwsUtils.dfy` | the regular expression for the authorization header; signing and verifying |
| `SignedRequest.dfy` | the texts that are signed, and which requests one signature fits |
| `SqsUtils.dfy`, `SrpUtils.dfy`, `CryptoUtils.dfy` | attribute digests, SRP-6a, Base64 |
| `Utf8.dfy`, `LogStream.dfy`, `FileUtils.dfy`, `BackupUtils.dfy` | the sanitiser, the log filter, the stream copy, backup retention |

Code that changes state is a class, an array or a loop, proved against a specification function; the lemmas about those
functions are the results. MD5, SHA-1, SHA-256 and HMAC are function parameters, clocks and random numbers are
arguments, and an exception that leaves a function is `None` (or a named failure).

## What does not hold as promised

* The scheduler is safe as long as an entry is erased only when it has no posted start and no completed wait
  (`SafeIffGuarded`, both directions). Keeping calls of `Shutdown(name)` from outside to that rule is not enough: the
  shutdown that a one-time task posts for itself goes by name, so it hits another task that took the name in between
  (`ReusedNameDangles`) or a cron task that shares it (`SharedNameDangles`).
* The header of the scheduler describes `Shutdown()` as a shutdown of all tasks. The code only cancels timers: a task of
  any kind can still run afterwards if and only if it had a posted start or a completed wait at that moment
  (`HaltSilencesUnposted` for one task, `ShutdownSilencesUnposted` and `StopAll` for all). For a recurring task this
  means that it is silenced if and only if its timer is armed (`HaltSilencesOnlyArmed`).
* Saving and loading restores the configuration exactly when it is nested no deeper than the parser allows; a deeper
  one is left as `null` (`SaveThenLoad`).
* The query of a URI is split after it has been decoded, so it is recovered if and only if no key and no value holds
  `&` or `=` (`QueryRecoveredIffClean`); `?` does no harm.
* Different system attributes can give one digest stream as soon as a name of 2^24 bytes is allowed (`BoundIsExact`).
* `VerifyA` accepts every A that is not 0 mod N, but for A of N and more there is no u, and `VerifyM1` goes on with a null
  pointer: `AcceptedWithoutU` gives A = N + 1. For any received A the calls reach a verdict, with no assertion failed
  and no null pointer used, if and only if A is neither 0 mod N nor as large as N and u is not 0 (`Answer`).
* `resolveOrCreatePath` takes every node on its way for an object. It is defined if and only if the path leads through
  objects only (`ResolveOrCreatePath`, `SetValue`).
* The Base64 string decoder steps in front of a text if and only if it is all padding up to its first NUL
  (`Base64Decode`), the file decoder if and only if it is all white space (`Base64DecodeToFile`).
* `IsBase64` holds only the longest run of up to three `=` that occurs to the end of the text (`RecognisedExactly`), so
  it takes `AA=AA===`, which no encoder writes (`MisplacedPadding`).
* A value handed out by `getObject` does not tell null from the text "null", an array from its text, or an unsigned
  integer above the signed range from a negative one; every other value comes out whole, up to the order of its fields
  (`ValueCarried`, `CarriedOnce`).
* A log sink that has been replaced stays registered with a stale filter (`ReplacedSinkFallsBehind`).
* `ListFilesByPrefix` looks for the prefix anywhere in the path. A backup is listed for a module if and only if
  "module-" occurs in its path up to the last dash (`ListedExactly`), so a name that ends the same way
  (`SuffixModulesAreListed`) or the directory's own name (`DirectoryListsAll`) puts other modules' backups up for
  deletion. Only own backups are handed out, whatever the retention, if and only if no other module's path holds the
  prefix in that part (`OwnBackupsOnly`).

## Model

| member | source | states |
|---|---|---|
| SchedulerSpec.StepInv | core/src/scheduler/Scheduler.cpp:36-206 | any step keeps the invariant "at most one outstanding event per entry, exactly one while it recurs or has not run" and "every queued handler has its entry", if and only if an erasing step hits a name with nothing posted or completed |
| SchedulerSpec.SafeIffGuarded | core/src/scheduler/Scheduler.cpp:95-105 | over every run: no handler ever loses its entry if and only if every erasure met that condition |
| SchedulerSpec.GuardedRun | core/src/scheduler/Scheduler.cpp:36-206 | every guarded run keeps the invariant |
| SchedulerSpec.CourteousRun | core/src/scheduler/Scheduler.cpp:43-105 | runs whose outside calls leave waiting self-shutdowns alone and keep one-time names apart from cron names are guarded, self-posted shutdowns included |
| SchedulerSpec.OwnShutdownIsQuiet | core/src/scheduler/Scheduler.cpp:53-53 | a one-time task's own posted shutdown never hits an entry with an outstanding event |
| SchedulerSpec.EveryEntryHasOneEvent | core/src/scheduler/Scheduler.cpp:109-206 | from an empty scheduler, each entry has at most one of posted start, armed timer, queued completion; each recurring entry that was not stopped has exactly one, also after a task that throws |
| SchedulerSpec.RearmCancelsNothing | core/src/scheduler/Scheduler.cpp:115-156 | re-arming a timer never cancels a pending wait, so no aborted completion is queued |
| SchedulerSpec.NotDrainedCanStep | core/src/scheduler/Scheduler.cpp:95-156 | a loop that is not drained always has a handler to run or a timer that can expire |
| SchedulerSpec.InternalLowers | core/src/scheduler/Scheduler.cpp:95-156 | with one-time tasks only, every expiry and every handler strictly lowers a measure over starts, timers, completions and self-shutdowns |
| SchedulerSpec.LoopDrains | core/src/scheduler/Scheduler.cpp:95-156 | such a loop stops after at most that many steps |
| SchedulerSpec.UndisturbedRun | core/src/scheduler/Scheduler.cpp:43-77 | without outside shutdown every self-removing task has run at most once and is still owed a run until it has |
| SchedulerTasks.TaskState | core/src/scheduler/Scheduler.cpp:43-77 | a one-time task has exactly one start, armed timer or completed wait until it runs, then exactly its posted shutdown, then nothing |
| SchedulerTasks.SparingStep | core/src/scheduler/Scheduler.cpp:36-206 | in any loop, recurring and cron tasks included, no step of others touches the task, and each of its own lowers what remains of it |
| SchedulerTasks.OwnShutdown | core/src/scheduler/Scheduler.cpp:95-105 | the shutdown a task posted removes it after exactly one run and frees its name in both tables |
| SchedulerTasks.TaskCanStep | core/src/scheduler/Scheduler.cpp:109-156 | a task that is not gone always has a step of its own that the loop can take |
| SchedulerTasks.SparingRun | core/src/scheduler/Scheduler.cpp:36-206 | over a run, the task's own steps and what remains of it never exceed what remained at the start |
| SchedulerTasks.AcceptedTaskRunsOnce | core/src/scheduler/Scheduler.cpp:43-77 | from its acceptance, whatever else runs, a one-time task takes at most four own steps, the next of which is always possible, and after the last has run exactly once and is gone |
| SchedulerTasks.OneTimeTasksRunOnce | core/src/scheduler/Scheduler.cpp:43-77 | without outside shutdowns, in every reachable state each accepted one-time task is owed its one run, or has run once and is owed its removal, or has run once and is gone; a drained loop has freed all their names |
| SchedulerTasks.FirstRunWaits | core/src/scheduler/Scheduler.cpp:115-139 | a cron task and any task with a delay, with or without an interval, has not run in any guarded run in which its timer has not expired |
| SchedulerSpec.StepSettles | core/src/scheduler/Scheduler.cpp:60-77 | no step changes a settled future |
| SchedulerSpec.FuturesKeptByRun | core/src/scheduler/Scheduler.cpp:60-105 | over a run futures are only added, settled at most once and stay tied to their task |
| SchedulerSpec.FuturesTellTheOutcome | core/src/scheduler/Scheduler.cpp:60-105 | over every guarded run from an empty scheduler: the future of a task that has run is Succeeded if its first run completed and Failed if it threw; it is broken if the name was taken or the entry erased before running, and pending only while a live entry holds its promise |
| SchedulerSpec.RunIsRecorded | core/src/scheduler/Scheduler.cpp:109-197 | a handler that runs its task adds exactly the outcome of that run to the task's history; the start of a cron or delayed task adds nothing |
| SchedulerSpec.AddedTasks | core/src/scheduler/Scheduler.cpp:36-84 | each of the four ways to add a task gives a new name an entry with the interval, delay and job asked for and a posted start, and leaves a taken name alone |
| SchedulerSpec.HaltSilencesUnposted | core/src/scheduler/Scheduler.cpp:158-162 | a stopped task of any kind can run again if and only if it had a posted start or a completed wait |
| SchedulerSpec.ShutdownSilencesUnposted | core/src/scheduler/Scheduler.cpp:86-93 | after all entries have been stopped, the same of every entry at once |
| SchedulerSpec.HaltSilencesOnlyArmed | core/src/scheduler/Scheduler.cpp:86-93 | for a recurring task that was not stopped before: it can run again if and only if its timer was not armed |
| SchedulerSpec.ReusedNameDangles | core/src/scheduler/Scheduler.cpp:43-58 | shutting a one-time task down from outside while its own shutdown waits, then adding its name again, leaves a handler without entry |
| SchedulerSpec.RanOneTimeTaskIsQuiet | core/src/scheduler/Scheduler.cpp:43-58 | that outside shutdown respects the "nothing outstanding" rule |
| SchedulerSpec.SharedNameDangles | core/src/scheduler/Scheduler.cpp:95-105 | a one-time task that shares its name with a cron task can erase it under a posted start |
| Scheduler.PeriodicEntry.Start | core/src/scheduler/Scheduler.cpp:115-139 | with a delay, whatever the interval, only arms the timer for the delay; without one runs the task and, with an interval, arms the timer for the interval, also when the task throws |
| Scheduler.PeriodicEntry.Execute | core/src/scheduler/Scheduler.cpp:141-156 | an aborted wait does nothing; another runs the task and, only with an interval, arms the timer for it |
| Scheduler.PeriodicEntry.Stop | core/src/scheduler/Scheduler.cpp:158-162 | exactly the pending waits become aborted completions; posted handlers are untouched |
| Scheduler.PeriodicEntry.Conclude | core/src/scheduler/Scheduler.cpp:45-76 | the promise is fulfilled if the task completed and fails if it threw, and the task's own shutdown is posted |
| Scheduler.CronEntry.Start | core/src/scheduler/Scheduler.cpp:176-181 | only arms the timer for the next execution time |
| Scheduler.CronEntry.Execute | core/src/scheduler/Scheduler.cpp:183-197 | runs the task and re-arms unless the wait was aborted |
| Scheduler.CronEntry.Stop | core/src/scheduler/Scheduler.cpp:199-203 | exactly the pending waits become aborted completions |
| Scheduler.Scheduler.constructor | core/src/scheduler/Scheduler.cpp:31-32 | starts without tasks |
| Scheduler.Scheduler.AddTask | core/src/scheduler/Scheduler.cpp:36-41 | a new name gets an entry with a posted start; a taken name changes nothing |
| Scheduler.Scheduler.AddOneTimeTask | core/src/scheduler/Scheduler.cpp:43-58 | the same for a task that will shut itself down |
| Scheduler.Scheduler.AddWaitableOneTimeTask | core/src/scheduler/Scheduler.cpp:60-77 | the same with a fresh future, broken at once if the name is taken |
| Scheduler.Scheduler.AddCronTask | core/src/scheduler/Scheduler.cpp:79-84 | the same in the cron table |
| Scheduler.Scheduler.ShutdownTask | core/src/scheduler/Scheduler.cpp:95-105 | stops and erases the entries of the name in both tables and breaks an unkept promise |
| Scheduler.Scheduler.StopAll | core/src/scheduler/Scheduler.cpp:86-93 | stops every entry of both tables, none twice, and nothing else; afterwards exactly the tasks with something posted can run again |
| Scheduler.Drive | core/src/scheduler/Scheduler.cpp:36-207 | any sequence of calls, expiries and handlers on the class is a run of the specification; handlers keep their entries exactly in guarded ones, and a courteous one keeps the invariants and every future's meaning |
| Scheduler.Scheduler.RunOne | core/src/scheduler/Scheduler.cpp:109-207 | running the first queued handler is exactly the transition for that handler |
| JsonText.UnquoteQuoted | core/src/config/Configuration.cpp:232-232 | reading back an escaped string gives the string, whatever follows |
| JsonText.LexPretty | core/src/config/Configuration.cpp:216-263 | pretty text at any indentation lexes to the tokens of the value |
| JsonText.LexCompact | core/src/config/Configuration.cpp:187-189 | so does compact text |
| JsonText.SameTokens | core/src/config/Configuration.cpp:187-270 | pretty and compact text have equal token streams |
| JsonText.ParseTokens | core/src/config/Configuration.cpp:26-31 | the tokens of a value parse back to it if and only if the depth limit admits it |
| JsonText.PrettyPrintRoundTrip | core/src/config/Configuration.cpp:216-270 | pretty text parses back to the value if and only if the depth limit admits it |
| JsonText.ReadNumber | core/src/config/Configuration.cpp:26-31 | the text of an integer reads back as that integer if and only if it fits one of the two 64-bit types, and as a real number otherwise |
| JsonForms.PrettyPrintIsLayout | core/src/config/Configuration.cpp:216-270 | the saved text is, line by line, two spaces for each level of nesting, brackets on lines of their own, one element or field after the other, and a comma behind all but the last |
| JsonForms.CompactIsTokens | core/src/config/Configuration.cpp:187-189 | the compact text is the tokens of the value with nothing between them |
| JsonForms.EscapeForms | core/src/config/Configuration.cpp:232-232 | exactly quotes, backslashes and control characters are escaped, with a letter where there is one and four lower-case digits otherwise |
| JsonForms.OtherEscapes | core/src/config/Configuration.cpp:26-31 | an escaped slash is read as a slash, and four digits of either case as the code point they write, halves of surrogate pairs excepted |
| JsonForms.WhiteSpaceIsNothing | core/src/config/Configuration.cpp:26-31 | spaces, tabs and both line ends are read as nothing |
| JsonForms.LineCommentIsNothing | core/src/config/Configuration.cpp:26-31 | a comment up to the end of its line is read as nothing |
| JsonForms.BlockCommentIsNothing | core/src/config/Configuration.cpp:26-31 | so is one up to the first end mark, and one without an end is an error |
| JsonForms.CommaAfterElems | core/src/config/Configuration.cpp:26-31 | a comma behind the last element of any array is taken and changes nothing |
| JsonForms.CommaAfterFields | core/src/config/Configuration.cpp:26-31 | so is one behind the last field of any object |
| ConfigPath.SplitInvertsJoin | core/src/config/Configuration.cpp:50-63 | splitting undoes dot-joining of non-empty dot-free segments |
| ConfigPath.SplitDot | core/src/config/Configuration.cpp:50-63 | splitting distributes over a dot between any two paths |
| ConfigPath.ResolveAssigned | core/src/config/Configuration.cpp:65-96 | what every path finds after one node was replaced: below, above and beside it |
| ConfigPath.CreateKeepsOtherPaths | core/src/config/Configuration.cpp:79-96 | after creation the path resolves, every path that resolved still does, unchanged unless a proper prefix, and no unrelated path appears |
| ConfigPath.CreateExisting | core/src/config/Configuration.cpp:79-96 | creating a path that exists changes nothing |
| ConfigPath.ObjectAgreesWithPaths | core/src/config/Configuration.cpp:137-159 | the object handed out has exactly the listed keys, and each value is what the child's dotted path resolves to |
| ConfigPath.ValueCarried | core/src/config/Configuration.cpp:98-135 | every valid value is what the converted one stands for: integers modulo 2^64 in the signed range, arrays as text that parses back, null as the word, objects with each field under its key |
| ConfigPath.CarriedOnce | core/src/config/Configuration.cpp:98-135 | a converted value stands for only one value without arrays, nulls and integers above the signed range, up to the order of fields |
| Configuration.SplitPath | core/src/config/Configuration.cpp:50-63 | the loop yields the split of the specification, empty segments dropped |
| Configuration.ToConfigValue | core/src/config/Configuration.cpp:98-135 | the converted value, which stands for the given one in the sense of ValueCarried |
| Configuration.PrettyPrintValue | core/src/config/Configuration.cpp:216-263 | appends exactly the specified pretty text to the stream |
| Configuration.Configuration.ResolvePath | core/src/config/Configuration.cpp:65-77 | finds the node the specification finds, or none |
| Configuration.Configuration.ResolveOrCreatePath | core/src/config/Configuration.cpp:79-96 | grows the tree to the created one and leaves the cursor on the node that the path then resolves to; undefined if and only if the path leads through a non-object |
| Configuration.Configuration.SetValue | core/include/awsmock/core/config/Configuration.h:653-676 | the path then resolves to the value set; undefined in exactly the same case |
| Configuration.Configuration.GetKeys | core/src/config/Configuration.cpp:137-146 | keys in insertion order, none for a missing or non-object node |
| Configuration.Configuration.GetObject | core/src/config/Configuration.cpp:148-159 | members that together stand for the object the path resolves to, or which of the two errors |
| Configuration.Configuration.Dump | core/src/config/Configuration.cpp:187-189 | gives the compact text of the tree |
| Configuration.Configuration.Load | core/src/config/Configuration.cpp:11-38 | the parsed tree, or null after a parse error |
| Configuration.Configuration.SaveThenLoad | core/src/config/Configuration.cpp:200-214 | restores the tree exactly when it is no deeper than the limit |
| StringUtils.AwsUrlEncode | core/src/utils/StringUtils.cpp:217-230 | the loop computes the specified encoding in both slash modes |
| StringUtils.SigV4Encode | core/src/utils/AwsUtils.cpp:17-27 | equals AwsUrlEncode with slashes encoded |
| StringUtils.UrlDecodeInvertsEncode | core/src/utils/StringUtils.cpp:217-242 | decoding undoes encoding for every byte string and both modes |
| StringUtils.UrlEncodeInjective | core/src/utils/StringUtils.cpp:217-230 | different byte strings have different encodings |
| StringUtils.EncodedForm | core/src/utils/StringUtils.cpp:217-230 | output is unreserved characters, permitted slashes and upper-case triplets only (sections 2.1 and 2.3 of RFC 3986) |
| StringUtils.UnreservedUnchanged | core/src/utils/StringUtils.cpp:222-225 | encoding is the identity exactly on text that needs none |
| StringUtils.UnreservedTable | core/src/utils/StringUtils.cpp:221-221 | the characters that need none are the letters, the digits and -._~ |
| StringUtils.DecodesWhatIsSpelled | core/src/utils/StringUtils.cpp:238-242 | decoding gives a byte string if and only if the text spells it: a byte by itself, a space by a plus, any byte by a percent sign and two digits of either case; anything else is the error |
| StringUtils.ToLowerAt | core/src/utils/AwsUtils.cpp:457-457 | lower case changes exactly the letters from A to Z, one by one |
| StringUtils.SplitInvertsJoin | core/src/utils/StringUtils.cpp:106-110 | splitting undoes joining of pieces free of the delimiter |
| StringUtils.JoinInvertsSplit | core/src/utils/StringUtils.cpp:106-110 | joining undoes splitting for every text |
| StringUtils.JoinFrom | core/src/utils/StringUtils.cpp:123-132 | joins from the start index on; an index outside the vector gives nothing |
| HttpUtils.GetQueryParameters | core/src/utils/HttpUtils.cpp:92-123 | the map that a later pair overwrites, or the decoding error |
| HttpUtils.QueryRecoveredIffClean | core/src/utils/HttpUtils.cpp:92-123 | parsing an encoded query gives back the parameters if and only if none holds a separator |
| HttpUtils.LastPairWins | core/src/utils/HttpUtils.cpp:114-121 | of several pairs with one key the last gives the value |
| HttpUtils.ReadPairForms | core/src/utils/HttpUtils.cpp:115-119 | the value stands behind the only equals sign; with none, or with two and more, the key gets the empty value |
| HttpUtils.BareQuery | core/src/utils/HttpUtils.cpp:94-109 | a query of one word is a key with the empty value, an empty query and a path without a question mark give nothing |
| HttpUtils.ReadIsClean | core/src/utils/HttpUtils.cpp:105-121 | whatever the query, no key or value that was read holds a separator |
| HttpUtils.GetCanonicalQueryParameters | core/src/utils/AwsUtils.cpp:438-451 | the encoded pairs in ascending key order |
| HttpUtils.CanonicalQueryIgnoresOrder | core/src/utils/AwsUtils.cpp:438-451 | permuting the parameters leaves the canonical query unchanged |
| HttpUtils.CanonicalQueryIdempotent | core/src/utils/AwsUtils.cpp:438-451 | canonicalising the canonical query of any URI changes nothing |
| HttpUtils.CanonicalQueryBinds | core/src/utils/AwsUtils.cpp:438-451 | two URIs have one canonical query if and only if they have the same parameters |
| AwsUtils.NormalizeHeaderValue | core/src/utils/AwsUtils.cpp:40-55 | the loop collapses runs of spaces of the trimmed value |
| AwsUtils.NormalizedIsNormal | core/src/utils/AwsUtils.cpp:40-55 | the result has no outer white space and no double space, and exactly such values are left alone |
| AwsUtils.NormalizedIsJoinedWords | core/src/utils/AwsUtils.cpp:40-55 | the result is the words of the trimmed value with one space between them |
| AwsUtils.GetCanonicalHeaders | core/src/utils/AwsUtils.cpp:453-461 | one line per signed header that is present, in the order of the list |
| AwsUtils.GetCanonicalRequest | core/src/utils/AwsUtils.cpp:387-401 | the six parts, with the hash of the header preferred to that of the body |
| AwsUtils.AddAuthorizationHeader | core/src/utils/AwsUtils.cpp:285-317 | the whole request afterwards, also when the target cannot be decoded |
| AwsUtils.GetAuthorizationKeys | core/src/utils/AwsUtils.cpp:487-514 | each key from its group of the leftmost match, the word none for an empty secret, the clock for a missing date header; empty keys without a match |
| AwsUtils.VerifySignature | core/src/utils/AwsUtils.cpp:359-371 | the verdict on the recomputed signature; an empty one never passes |
| AuthorizationRegex.MatchIsFound | core/src/utils/AwsUtils.cpp:495-497 | whatever groups match at a place, the matcher finds there the same ones with the longest signed headers |
| AuthorizationRegex.SearchIsLeftmostGreedy | core/src/utils/AwsUtils.cpp:495-497 | the search finds the leftmost place where anything matches and the greedy match there, and fails only if nothing matches anywhere |
| AwsUtils.AuthorizationParses | core/src/utils/AwsUtils.cpp:487-514 | the printed header parses back to exactly the keys it was printed from |
| AwsUtils.VerifyAcceptsSigned | core/src/utils/AwsUtils.cpp:285-371 | every signed request is accepted, for a non-empty secret, a matching region, module and access key, one clock reading and signed headers that do not name authorization |
| SignedRequest.SignatureBindsRequest | core/src/utils/AwsUtils.cpp:359-436 | beside an accepted request, another with the same keys and signature is accepted if and only if the two agree on the requests themselves or show a hash collision: method, path in front of the question mark from its first slash on, query parameters, each signed header in both or in neither with equal values up to white space, and payload hash |
| SignedRequest.CanonicalRequestIffSame | core/src/utils/AwsUtils.cpp:387-401 | canonical requests are equal if and only if the requests agree in that sense |
| SignedRequest.UriIsEncodedPath | core/src/utils/AwsUtils.cpp:31-38 | the canonical URI is the encoded text in front of the first question mark, with a slash put in front where it starts with none |
| SignedRequest.LineByLine | core/src/utils/AwsUtils.cpp:453-461 | each name adds the line "name in lower case, colon, normalised value" if the header is there, and nothing otherwise |
| SignedRequest.CanonicalText | core/src/utils/AwsUtils.cpp:387-401 | the canonical request written out, its lines in their order |
| SignedRequest.SignatureIsHmac | core/src/utils/AwsUtils.cpp:429-556 | the signature written out: the chain of four keys, secret, date, region, module and version, over algorithm, time, scope and hash |
| AwsUtils.HexText | core/src/utils/CryptoUtils.cpp:589-594 | two lower-case digits for each byte, the high one first |
| SignedRequest.PreparedFields | core/src/utils/AwsUtils.cpp:285-317 | the five headers set before signing, each with its value |
| SignedRequest.SigningKeysText | core/src/utils/AwsUtils.cpp:296-310 | the keys that signing starts from, scope and algorithm written out |
| SignedRequest.SignedFields | core/src/utils/AwsUtils.cpp:311-316 | signing fails exactly when the query cannot be decoded, and otherwise sets the authorization header and nothing more |
| SignedRequest.AuthorizationText | core/src/utils/AwsUtils.cpp:285-317 | the authorization header written out |
| SqsUtils.GetIntAsByteArray | db/src/utils/SqsUtils.cpp:94-101 | masks and shifts leave the big-endian bytes of the low 32 bits in the buffer |
| SqsUtils.BigEndianInverse | db/src/utils/SqsUtils.cpp:94-101 | the four bytes determine any length below 2^32 |
| SqsUtils.HtonlIsBigEndian | db/src/utils/SqsUtils.cpp:79-80 | htonl and the masks give the same four bytes, for any size |
| SqsUtils.UpdateLengthAndBytes | db/src/utils/SqsUtils.cpp:103-109 | feeds the length and the bytes after what was fed before |
| SqsUtils.CreateMd5OfMessageAttributes | db/src/utils/SqsUtils.cpp:52-92 | the digest of the user-attribute stream |
| SqsUtils.EntryText | db/src/utils/SqsUtils.cpp:60-83 | the bytes of one attribute of each type: length and name, length and type name, then for text types the byte 1 and for binary the byte 2 with length and value, and nothing for the other types |
| SqsUtils.UserStreamText | db/src/utils/SqsUtils.cpp:58-83 | the stream is the bytes of the attribute with the least name, then the stream of the others |
| SqsUtils.UserStreamDecodable | db/src/utils/SqsUtils.cpp:52-92 | equal streams if and only if equal names, types and transported values |
| SqsUtils.CreateMd5OfMessageSystemAttributes | db/src/utils/SqsUtils.cpp:17-50 | the digest of the system-attribute stream, or the decoding error |
| SqsUtils.SystemEntryText | db/src/utils/SqsUtils.cpp:29-43 | the bytes of one system attribute: name, the type String and, unless the value is empty, the byte 1 and the decoded value, each with its length |
| SqsUtils.SystemStreamText | db/src/utils/SqsUtils.cpp:25-43 | the stream is the bytes of the attribute with the least name, then the stream of the others |
| SqsUtils.SystemStreamDecodable | db/src/utils/SqsUtils.cpp:17-50 | for names below 2^24 bytes: equal streams if and only if equal names and equal decoded values |
| SqsUtils.BoundIsExact | db/src/utils/SqsUtils.cpp:37-43 | a bound on name lengths guarantees this if and only if it is at most 2^24 |
| SqsUtils.SystemStreamIsUserStream | db/src/utils/SqsUtils.cpp:17-92 | on non-empty values that decoding leaves alone both streams are the same |
| Bytes.LessIsLexicographic | db/src/utils/SqsUtils.cpp:58-58 | the order of the map's keys is decided by the first bytes that differ, as unsigned numbers, and a text comes behind its own beginnings |
| SrpUtils.KeysAgree | core/src/utils/SrpUtils.cpp:137-157 | (A * v^u)^b mod N of section 2.5.3 of RFC 5054 is (B - k * g^x)^(a + u*x) mod N of section 2.6, for every modulus, generator and exponents |
| SrpUtils.NumberOfBin | core/src/utils/SrpUtils.cpp:242-276 | a number is recovered from its minimal big-endian bytes |
| SrpUtils.NumberIsBigEndian | core/src/utils/SrpUtils.cpp:242-276 | the first byte weighs most |
| SrpUtils.PadKeepsNumber | core/src/utils/SrpUtils.cpp:146-146 | padding to the width of N keeps the number and gives exactly that width |
| SrpUtils.SrpUtils.constructor | core/src/utils/SrpUtils.cpp:9-31 | starts with the group and nothing else |
| SrpUtils.SrpUtils.SetI | core/src/utils/SrpUtils.cpp:339-342 | changes the user name only |
| SrpUtils.SrpUtils.CalcV | core/src/utils/SrpUtils.cpp:90-107 | the verifier g^x mod N with x the hash of the salt and of the hash of name, colon and password, for the caller's or a drawn salt |
| SrpUtils.SrpUtils.SetSaltAndV | core/src/utils/SrpUtils.cpp:111-118 | replaces salt and verifier only |
| SrpUtils.SrpUtils.CalcB | core/src/utils/SrpUtils.cpp:72-88 | B is k*v + g^b mod N with k the hash of N and the padded g |
| SrpUtils.SrpUtils.VerifyA | core/src/utils/SrpUtils.cpp:122-133 | A is stored if and only if it is not 0 mod N |
| SrpUtils.SrpUtils.VerifyM1 | core/src/utils/SrpUtils.cpp:137-158 | compares with the hash of A, B and the key (A * v^u)^b mod N, u the hash of padded A and B, or says that there is no u or that u is 0; only key and proof change |
| SrpUtils.SrpUtils.CalcM1FromS | core/src/utils/SrpUtils.cpp:242-276 | M1 is the number in the hash of the bytes of A, then B, then S; the buffer of the size of N is overrun exactly for an A with more bytes than N |
| SrpUtils.SrpUtils.CalcM2 | core/src/utils/SrpUtils.cpp:278-326 | M2 is the number in the hash of the bytes of A, then M1, then S, with the same overrun |
| SrpUtils.AcceptedWithoutU | core/src/utils/SrpUtils.cpp:122-149 | there is no u exactly for A of N and more, and N + 1 is such an A that VerifyA accepts |
| SrpUtils.Answer | core/src/utils/SrpUtils.cpp:122-158 | for any received A and M1 the calls reach a verdict if and only if A is not 0 mod N, below N, and u is not 0, and it is that M1 is the hash of A, B and the key and M2 that of A, M1 and the key; otherwise which of the three failures it is |
| SrpUtils.Login | core/src/utils/SrpUtils.cpp:72-159 | a client written out from sections 2.5 and 2.6 of RFC 5054 alone is accepted, and its M2 is the server's, if and only if its A and u are not 0; no assertion on the way fails |
| CryptoUtils.LetterTable | core/src/utils/CryptoUtils.cpp:459-496 | the alphabet of table 1 of RFC 4648 |
| CryptoUtils.QuadBits | core/src/utils/CryptoUtils.cpp:459-496 | four characters carry the bits of three bytes six at a time, the highest first |
| CryptoUtils.EncodedShape | core/src/utils/CryptoUtils.cpp:459-496 | length 4*ceil(n/3), alphabet characters, then exactly (3 - n mod 3) mod 3 padding |
| CryptoUtils.DecodeInvertsEncode | core/src/utils/CryptoUtils.cpp:459-516 | the block decoder gives back the bytes followed by one zero for each padding character |
| CryptoUtils.Base64Encode | core/src/utils/CryptoUtils.cpp:459-468 | the computed length fits the block coder's output and its terminator |
| CryptoUtils.Base64EncodeRaw | core/src/utils/CryptoUtils.cpp:482-496 | the same text from the other buffer arithmetic |
| CryptoUtils.Base64Decode | core/src/utils/CryptoUtils.cpp:470-480 | the zero-filled buffer cut by the number of trailing padding characters, the length error, or a step in front of the text, the last exactly for text that is all padding |
| CryptoUtils.Base64DecodeRaw | core/src/utils/CryptoUtils.cpp:498-519 | empty on error, otherwise cut by the padding among the last two characters |
| CryptoUtils.Base64DecodeToFile | core/src/utils/CryptoUtils.cpp:534-560 | strip, complete, count, replace, decode and cut, or an empty file; a step in front of the text exactly for white space alone |
| CryptoUtils.StringDecoderInverts | core/src/utils/CryptoUtils.cpp:459-480 | the string decoder undoes the encoder for every byte string |
| CryptoUtils.RawDecoderInverts | core/src/utils/CryptoUtils.cpp:482-519 | so does the raw decoder |
| CryptoUtils.FileDecoderInverts | core/src/utils/CryptoUtils.cpp:534-560 | so does the file decoder, also with any part of the padding missing and any white space behind |
| CryptoUtils.BlockReadable | core/src/utils/CryptoUtils.cpp:470-519 | a block is refused exactly for a length that is no multiple of four or a character that is neither in the alphabet nor padding |
| CryptoUtils.StopsAtBadGroup | core/src/utils/CryptoUtils.cpp:470-519 | decoding stops in front of the first bad group and keeps what it has written |
| CryptoUtils.StringDecoderFills | core/src/utils/CryptoUtils.cpp:470-480 | the string decoder keeps the computed length whatever the text: what was decoded, then NUL |
| CryptoUtils.RawDecoderRefuses | core/src/utils/CryptoUtils.cpp:498-519 | the raw decoder gives nothing exactly where the block is refused, and three bytes for each group less the padding otherwise |
| CryptoUtils.FileDecoderRefuses | core/src/utils/CryptoUtils.cpp:534-560 | the file is left empty if and only if a character is bad, whatever the length |
| CryptoUtils.EncodedIsBase64 | core/src/utils/CryptoUtils.cpp:562-583 | every encoder output is recognised |
| CryptoUtils.RecognisedExactly | core/src/utils/CryptoUtils.cpp:562-583 | exactly which texts are recognised: whole groups of readable characters whose longest run of up to three padding characters occurs at the end only |
| CryptoUtils.MisplacedPadding | core/src/utils/CryptoUtils.cpp:562-583 | a text with padding inside that is recognised and that no encoder writes |
| Utf8.SanitizeUtf8 | core/src/utils/StringUtils.cpp:310-339 | the loop with its masks computes the specified result |
| Utf8.UnchangedIffUnits | core/src/utils/StringUtils.cpp:310-339 | text is unchanged if and only if it is a sequence of accepted units |
| Utf8.UnitsAreForms | core/src/utils/StringUtils.cpp:319-332 | a unit is the bits of a code point spread over one to four bytes as in section 3 of RFC 3629, be that the shortest form or not |
| Utf8.EncodedKeeps | core/src/utils/StringUtils.cpp:319-332 | the shortest form of every code point up to U+10FFFF is a unit that carries that code point |
| Utf8.EncodedTextUnchanged | core/src/utils/StringUtils.cpp:310-339 | text encoded in UTF-8 is left alone |
| Utf8.ReplacementIsFFFD | core/src/utils/StringUtils.cpp:334-334 | what a bad byte is replaced with is the encoding of U+FFFD |
| Utf8.SanitizeIdempotent | core/src/utils/StringUtils.cpp:310-339 | sanitising twice is sanitising once |
| Utf8.SanitizedLength | core/src/utils/StringUtils.cpp:333-335 | no shorter than the input and at most three times as long |
| Utf8.SanitizeResynchronises | core/src/utils/StringUtils.cpp:317-336 | sanitises part by part wherever the second part starts with no continuation byte |
| LogStream.LogStream.UpdateFilter | core/src/logging/LogStream.cpp:180-208 | every referenced sink and the core filter agree with the levels afterwards |
| LogStream.LogStream.MostVerbose | core/src/logging/LogStream.cpp:187-190 | the loop finds the minimum over the global level and all overrides |
| LogStream.MinimumIsTheBound | core/src/logging/LogStream.cpp:184-190 | a sink level drops nothing the core passes if and only if it is at most that minimum |
| LogStream.LevelTable | core/src/logging/LogStream.cpp:160-178 | the six level names, in the order of their severity, are the only known ones |
| LogStream.LogStream.SetSeverity | core/src/logging/LogStream.cpp:160-168 | a known level replaces the global one and clears all overrides; an unknown one changes nothing |
| LogStream.LogStream.SetChannelSeverity | core/src/logging/LogStream.cpp:170-178 | a known level overrides one channel; an unknown one changes nothing |
| LogStream.LogStream.Initialize | core/src/logging/LogStream.cpp:143-154 | brings name, level, core filter and sinks together |
| LogStream.LogStream.AddFile | core/src/logging/LogStream.cpp:210-231 | the new sink is up to date; the one it replaces is not touched again |
| LogStream.LogStream.AddWebSocket | core/src/logging/LogStream.cpp:233-240 | the same for the web socket sink |
| LogStream.LogStream.AddLoggingWebSocket | core/src/logging/LogStream.cpp:242-259 | the same for the logging web socket |
| LogStream.RunFollowsRule | core/src/logging/LogStream.cpp:160-208 | after any run the effective level of a channel is that of the latest known call that concerns it |
| LogStream.UnknownLevelsChangeNothing | core/src/logging/LogStream.cpp:160-178 | leaving out every call with an unknown level leaves the same levels |
| LogStream.CurrentLevelNamesSeverity | core/src/logging/LogStream.cpp:156-168 | the reported name always names the level in force |
| LogStream.Run | core/src/logging/LogStream.cpp:160-259 | after any run a referenced sink emits a record if and only if it has a severity, and one no lower than the level which that one rule gives to its channel |
| LogStream.ReplacedSinkFallsBehind | core/src/logging/LogStream.cpp:210-231 | a replaced file sink, still registered, drops records that the core passes |
| FileUtils.StreamCopier | core/src/utils/FileUtils.cpp:510-528 | writes exactly the next min(count, remaining) bytes and returns their number, for any buffer size, and says when the stream is left failed |
| FileUtils.RangeBytes | core/src/utils/FileUtils.cpp:510-549 | a range holds, byte by byte, what the data has from its start on, as many as were asked for and are there |
| FileUtils.StreamCopierWhole | core/src/utils/FileUtils.cpp:503-508 | writes the whole stream from wherever it stood |
| FileUtils.StreamCopierRange | core/src/utils/FileUtils.cpp:530-549 | writes exactly the bytes from start on, none for a failed stream or a negative start |
| FileUtils.PiecesMakeTheFile | core/src/utils/FileUtils.cpp:530-549 | consecutive ranges of any lengths concatenate to the file up to where they end |
| FileUtils.CopyInPieces | core/src/utils/FileUtils.cpp:530-549 | so does copying them one after the other from one stream, in spite of its fail bit |
| BackupUtils.ListFilesByPrefix | core/src/utils/DirUtils.cpp:98-115 | exactly the regular files whose path holds the prefix, each as often as it is in the directory, sorted by number |
| BackupUtils.NumberOfBackup | core/src/utils/DirUtils.cpp:88-96 | the number read from a backup's name is its time stamp, also with dashes in the module's name |
| BackupUtils.BackupNameText | core/src/utils/BackupUtils.cpp:15-18 | a backup's name is the module's name, a dash, twelve digits for year, month, day, hour and minute, and .json |
| BackupUtils.StolReads | core/src/utils/DirUtils.cpp:88-96 | what is read from any text: white space, a sign, and the digits up to the first other character, within 64 bits |
| BackupUtils.NumberOfName | core/src/utils/DirUtils.cpp:88-96 | the number of any file name is the one behind the last dash, and 0 without a dash, without digits there or beyond 64 bits |
| BackupUtils.NumbersFollowTime | core/src/utils/BackupUtils.cpp:15-18 | stamps compare as numbers exactly as they do in time, for years 0 to 32767 |
| BackupUtils.GetBackupFiles | core/src/utils/BackupUtils.cpp:20-28 | the paths of all but the last files of a sort, each of a regular file and holding the prefix, none for a negative or sufficient retention |
| BackupUtils.RetentionKeepsTheHighest | core/src/utils/BackupUtils.cpp:20-28 | for every sort: n - min(n, retention) files go, with numbers no higher than any kept one, and nothing is lost |
| BackupUtils.DeletedAreNoNewer | core/src/utils/BackupUtils.cpp:15-28 | no deleted backup is newer than a kept one |
| BackupUtils.ListedExactly | core/src/utils/DirUtils.cpp:98-107 | a backup of any module is listed if and only if the prefix occurs in its path up to the last dash |
| BackupUtils.OwnBackupsOnly | core/src/utils/BackupUtils.cpp:20-28 | in a directory of backups only the module's own are ever handed out if and only if no other module's path holds the prefix there; its own are always listed |
| BackupUtils.SuffixModulesAreListed | core/src/utils/DirUtils.cpp:103-103 | the backups of a module are listed also for every module whose name is a suffix of it |
| BackupUtils.DirectoryListsAll | core/src/utils/DirUtils.cpp:103-103 | a directory whose path holds the prefix has every regular file listed |

## Left out

- Scheduler task bodies are an outcome, completed or thrown: tasks that call the scheduler themselves, and calls from several threads, are not modelled; each call and each handler is one atomic step.
- Scheduler time: a timer may expire at any moment; cron expressions and the arithmetic of time points are not modelled; what a timer is set to is the delay or the interval it was given. The class runs handlers first in, first out, the specification in any order.
- Handlers hold the identity of their entry in place of a raw pointer; a handler whose entry is gone is reported as dangling and does nothing further in the model.
- Configuration text: real numbers stay text, `\u` escapes of surrogate halves are refused instead of paired, and file errors, environment overrides, `getObjects` and array getters are not modelled. The depth limit is 32, the default of Boost.JSON.
- SqsUtils.UserStreamDecodable: lengths of 2^32 bytes and more are excluded, because only their low 32 bits are written.
- MD5, SHA-1, SHA-256 and HMAC are uninterpreted; allocation failures of OpenSSL are not modelled.
- SRP: the mode that takes M1 from K, the reading of A from hexadecimal text, with its negative numbers, and the 1024-bit group constants (any group of at least 20 bytes is admitted) are not modelled. The client's side works on numbers, so a client that sends M1 with its leading zero bytes to the hash is not this one.
- SrpUtils.SrpUtils.VerifyA: the branch behind `assert(0)` returns false, as it does when assertions are compiled out.
- Base64 for inputs whose length overflows `int`, and the trimming of white space inside `EVP_DecodeBlock`; the Windows version of the file decoder.
- AwsUtils: header fields that occur twice, the two overloads on other request types, and `CanonicalUri` as a form that preserves existing escapes (it encodes the percent sign again).
- AwsUtils.GetAuthorizationKeys: a header that does not match gives empty keys, whether or not the regular expression library throws; in both cases verification fails.
- LogStream: removal of sinks, colours and formats, and records of other threads in flight.
- FileUtils: failures of the output stream and streams that grow while they are read.
- BackupUtils: time zones; the file system is a list of entries in any order.
- BackupUtils.GetBackupFiles: says "for some sort", because `std::ranges::sort` may order files with equal numbers in any way.
- Everything that is transport, storage or glue: HTTP sessions, Docker, the databases, archives, the controllers and the services.
