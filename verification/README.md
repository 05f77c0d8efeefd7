# minervabot, verified

A Dafny model of the stateful core of minervabot, an IRC bot written in C: its thread pool, the CRC-8
and the bucketed hash table, the permission table, the IRC line framer, tokeniser and login, the command
tree with its dispatcher, the module list, and the two text encoders of its command modules.
`dafny verify dfyconfig.toml` checks everything.

Code that updates state in place is a class or a method over arrays. Each such method is tied to a
specification function by its `ensures`, and the lemmas are about those functions. The thread pool is a
step protocol, because its dispatcher and workers interleave.

| file | what it holds |
|---|---|
| `Gf2.dfy`, `Crc8.dfy` | polynomials over GF(2) and bitwise division; the table-driven checksum |
| `HashTable.dfy`, `HashMap.dfy` | the table as one queue per key; the growable bucket arrays |
| `Permissions.dfy`, `PermissionRuns.dfy`, `PermsCommand.dfy` | wildcard lookup; runs of writes and the level ceiling; the setp and getp handler |
| `IrcFraming.dfy`, `IrcParse.dfy`, `IrcLoop.dfy`, `IrcMessages.dfy`, `IrcLogin.dfy` | lines of a stream; meaning of a line; the receive loop; printing and parsing back; the nick handshake |
| `CommandTrie.dfy`, `Dispatch.dfy`, `Delivery.dfy` | the command tree; lookup of a command; from stream to job |
| `ModuleList.dfy` | loaded modules and their counter |
| `ThreadPool.dfy`, `ThreadPoolArray.dfy` | the pool protocol; the dispatcher on its array |
| `Unescape.dfy`, `FullWidth.dfy` | the JSON unescaper; the full-width encoder |
| `CStrings.dfy`, `Options.dfy` | NUL-terminated strings; absent values |

## Conventions and assumptions

* A character stands for one byte, so strings range over all byte strings. The checksum works on bytes
  as lists of eight bits, the encoder on numbers below 256.
* Allocation succeeds, except in `modules_register_cmd`, whose allocator has a budget. In the hash table
  a failed `realloc` would leave `vlen` one too high; in the pool it would leave the gate closed and
  `pool_len` doubled.
* Dispatch calls of the pool are serialised; the code makes them under two different mutexes. Threads
  start whenever they are created, and every other critical section is one step.
* `atoi`, the configured owner host and command prefix, and the bytes read from the network are parameters.
  A connection is the list of its reads; an empty read ends it and a failed one adds nothing.
* `hashmap_remove` (src/hashmap.c:135) copies `vlen - i` entries between overlapping blocks; modelled is
  the shift of the `vlen - i - 1` entries that exist. A bucket holds at most 32768 entries, since the
  16-bit `vroom` would wrap at the next doubling.
* `permissions_get` overruns `pbuf` for hosts of 128 bytes, and for hosts of 127 bytes without an exact
  level; these are excluded. A host of more than 128 bytes returns 0 with the mutex still locked. A sender
  without a host is a null pointer there: the fault is caught, the command is given up, and the mutex stays
  locked. Both are modelled.
* `irc_loop` writes one past its buffer when a line reaches index 512, so the methods require reads that
  keep the index below that; which reads do is `IrcFraming.FitsExactly`.
* The unescaper runs on past a terminator that directly follows a backslash, so the text must not contain
  one where the scan would meet it (`Unescape.Terminated`).

## Where the code and its intent part

These are proved, with the exact condition under which the code does what is intended where there is one.

* A CR LF that is split between two reads is missed: the loop yields the lines of the stream if and only
  if no read splits one (`IrcFraming.LinesIffNeverSplit`). Otherwise lines are glued together
  (`IrcFraming.SplitGlues`), and a PING may go unanswered (`IrcLoops.SplitCrlfLosesALine`).
* The prefix is compared whole but only one byte of it is skipped: dispatch is as documented for all
  messages if and only if the prefix has one byte (`Dispatch.PrefixMustBeOneByte`).
* A stored level 0 counts as absent and stays in front: a lookup gives the last level written if and only
  if that is 0 or no 0 was written (`PermissionRuns.LastWriteWins`).
* A line of more than 512 bytes takes `irc_loop` out of its buffer, and only that does
  (`IrcFraming.FitsExactly`, `IrcFraming.StreamFitsExactly`, `IrcFraming.LongLineOverruns`, and with reads
  of a size the program takes `IrcFraming.LongLineIsReceivable`). A message that
  fits the send buffer can come back in such a line, because the server puts its sender in front
  (`IrcMessages.PrintParse`).
* The gate test and the clearing of a slot are two steps in the code. In a run of the two-step protocol
  exactly as many slots outlive their job, and stay stuck, as workers cleared their slot after the block
  was copied and before the copy replaced it (`ThreadPool.SlotsOutliveJobsExactly`, with such a run in
  `ThreadPool.SplitCheckDangles`). If the two were one step it could not happen
  (`ThreadPool.GateTestMustBeAtomic`).
* The pool is therefore not bounded by the demand alone: with never more than four jobs in demand it can
  grow to 8 slots, not 6 (`ThreadPoolArray.StuckSlotCosts`). Each stuck slot counts like one more job
  (`ThreadPool.PoolGrowth`), and that run meets the bound exactly.
* The pool can double while a slot is free (`ThreadPool.DoublingWithAFreeSlot`): every slot is held if and
  only if none was cleared since the search began (`ThreadPool.DoublesFullExactly`).
* The sanity failure of `modules_loadmod` is reachable when the directory watcher loads modules before the
  start-up scan, which unloads them without waiting (`ModuleList.SanityFailureIsReachable`, with the exact
  condition in `ModuleList.SanityFailsExactly`). `pthread_join` on the detached threads of the pool is taken
  to wait.
* The tree finds the setp handler under every spelling of its name, but the handler works as documented if
  and only if the name begins with a lower-case s (`PermissionRuns.SpellingMatters`).
* A sender without a host or with one of more than 128 bytes, or a getp for such a host, leaves the
  permission mutex locked, and nothing else does (`PermissionRuns.LockedExactly`); the table then never
  changes again (`PermissionRuns.LockStops`).

## Model

| member | source | states |
|---|---|---|
| Gf2.RemainderUnique | src/hashmap.c:21-37 | division by a polynomial with leading coefficient 1 has one remainder, so the checksum is well defined |
| Gf2.BlockAtOnce | src/hashmap.c:47-51 | the table trick: adding a whole block first and dividing afterwards equals dividing coefficient by coefficient |
| Crc8.Crc8Table.Divide | src/hashmap.c:21-33 | the inner loop leaves the remainder of the dividend shifted by eight places |
| Crc8.Crc8Table.Init | src/hashmap.c:14-38 | every table entry is the remainder of its index |
| Crc8.Crc8Table.Block | src/hashmap.c:40-54 | returns the checksum of the bytes, building the table on first use and changing nothing afterwards |
| Crc8.CrcIsBitwise | src/hashmap.c:46-51 | reading whole bytes through the table is dividing the message bit by bit |
| Crc8.CrcIsRemainder | src/hashmap.c:40-54 | for every message, a value is the remainder of M(x)·x^8 by x^8+x^7+x^4+x^3+x+1 exactly when it is the checksum |
| Crc8.CrcOfOne | src/hashmap.c:9 | the checksum of the single byte 1 is 0x9b, which fixes the polynomial and the order of the bits |
| Crc8.CrcLinear | src/hashmap.c:40-54 | the checksum of the XOR of two equal-length messages is the XOR of their checksums |
| Crc8.CrcOfSealed | src/hashmap.c:40-54 | a message followed by one byte has checksum 0 exactly when that byte is its checksum |
| Crc8.EntryInjective | src/hashmap.c:21-37 | no two table entries agree: the table permutes the bytes |
| Crc8.SuffixInjective | src/hashmap.c:46-51 | a common suffix neither separates nor merges checksums |
| Crc8.OneByteDifference | src/hashmap.c:40-54 | messages of equal length that differ in one byte never share a checksum |
| HashTable.OneCharacterDifference | src/hashmap.c:40-54 | keys that differ in one character, at any position and of any length, never share a bucket |
| HashTable.PutEnqueues | src/hashmap.c:79-108 | put appends to the queue of its key and touches no other |
| HashTable.GetPeeks | src/hashmap.c:141-161 | get gives the oldest value of the key, or 0 |
| HashTable.RemoveDequeues | src/hashmap.c:110-139 | remove deletes the oldest value of the key and touches no other queue |
| HashTable.DropShifts | src/hashmap.c:133-137 | removing the first match is shifting the later entries down by one |
| HashTable.StepRefines | src/hashmap.c:79-208 | each call keeps every entry in the bucket of its key and agrees with a map from keys to queues, result included |
| HashTable.RunRefines | src/hashmap.c:79-208 | over any run of put, get, remove and empty the table answers exactly as the map of queues |
| HashTable.IterationIsExact | src/hashmap.c:163-183 | a full iteration meets each entry as often as its queue holds it |
| HashMaps.EntryList.Append | src/hashmap.c:88-102 | growing by doubling and storing keeps the old entries and appends the new one |
| HashMaps.RoomIsPower | src/hashmap.c:88-93 | the room of a bucket is 0 or 4 times a power of two |
| HashMaps.EntryList.Search | src/hashmap.c:121-125 | finds the first entry with the key |
| HashMaps.EntryList.Delete | src/hashmap.c:133-137 | deletes one entry in place |
| HashMaps.HashMap.constructor | src/hashmap.c:57-77 | 256 separate empty buckets |
| HashMaps.HashMap.Put | src/hashmap.c:79-108 | the arrays hold the table after put; the entry counter goes up |
| HashMaps.HashMap.Get | src/hashmap.c:141-161 | returns what the table's get gives and changes nothing |
| HashMaps.HashMap.Remove | src/hashmap.c:110-139 | the arrays hold the table after remove, the removed value is returned, the entry counter stays |
| HashMaps.HashMap.Clear | src/hashmap.c:185-208 | all buckets are empty; the entry counter stays |
| HashMaps.HashMap.Iterate | src/hashmap.c:163-183 | the callback sees all entries bucket by bucket, or those up to the first that stops it, and -1 is returned exactly then |
| Permissions.WildcardIsLongest | src/permissions.c:50-54 | the loop gives the level of the longest prefix of the host that has one with a star behind it |
| Permissions.LookupIsLongestPrefix | src/permissions.c:41-58 | exact level first, then the longest starred prefix, and 0 exactly when no probe has a level |
| Permissions.PermissionStore.constructor | src/permissions.c:15-32 | only the owner, if configured, is stored, at 100000 |
| Permissions.PermissionStore.Set | src/permissions.c:34-39 | a nonzero old level is removed, then the new one is appended |
| Permissions.PermissionStore.StarAt | src/permissions.c:51-52 | one rewriting step leaves the starred prefix in pbuf, inside its bounds |
| Permissions.PermissionStore.Search | src/permissions.c:50-54 | the rewriting loop returns the lookup after at most the length of the host plus 2 probes |
| Permissions.PermissionStore.Get | src/permissions.c:41-58 | returns the lookup, or 0 with the mutex left locked for hosts over 128 bytes; only hosts that overrun pbuf are excluded |
| PermissionRuns.SetLevelQueues | src/permissions.c:34-39 | a set replaces the head of its host's queue, or queues behind a 0, and touches no other host |
| PermissionRuns.RunSetsQueues | src/permissions.c:34-39 | after any writes a queue is the last level alone, or everything from the first 0 on |
| PermissionRuns.LastWriteWins | src/permissions.c:15-39 | from permissions_init on, the lookup is the last level written exactly when that is 0 or no 0 was written |
| PermissionRuns.NonzeroWritesMakeAMap | src/permissions.c:15-39 | with nonzero levels each host has one entry, its latest; the owner's first level counts as written |
| PermissionRuns.ZeroSticks | src/permissions.c:36-37 | once 0 is stored every later write only appends and the lookup stays 0 |
| PermissionRuns.SetpWrites | src/modules/bot_perms.c:16-29 | under any spelling of setp, the level is written for the host exactly when the name begins with a lower-case s and the sender is an operator who outranks the level |
| PermissionRuns.SpellingMatters | src/modules/bot_perms.c:16-17 | a spelling of setp acts as setp for all senders and arguments exactly when it begins with a lower-case s |
| PermissionRuns.SetpTakesEffect | src/modules/bot_perms.c:12-34 | reading the level of a sender and running the handler with it sets the level asked for exactly if the sender has 40000 or more and outranks it |
| PermissionRuns.OwnerStarts | src/permissions.c:24-25 | the owner starts with 100000 and no other host has an exact level |
| PermissionRuns.LockedExactly | src/permissions.c:43-46 | over any run the mutex has been left locked exactly when a sender without a host or with one of more than 128 bytes was looked up, or a permitted getp asked for such a host |
| PermissionRuns.LockStops | src/permissions.c:43-46 | once the mutex was left locked, no command changes the table |
| PermissionRuns.StepKeepsCeiling | src/modules/bot_perms.c:26-29 | reading a level and later writing with it both keep the ceiling invariant |
| PermissionRuns.LevelCeiling | src/modules/bot_perms.c:12-34 | over all interleavings of reads and writes only the owner's first entry holds 100000, every other is lower, and without an owner nothing is ever stored |
| PermissionRuns.OnlyOperatorsStart | src/modules/bot_perms.c:27 | as long as no sender starts as an operator, no command changes the table |
| PermsCommand.Handle | src/modules/bot_perms.c:12-45 | the table changes exactly by the authorised write, and each case gets its reply |
| PermsCommand.SetpReplies | src/modules/bot_perms.c:17-34 | usage without a space, else changed or refused, with the host and level asked for |
| PermsCommand.GetpReplies | src/modules/bot_perms.c:35-42 | the level of the mask for senders from 25000 on, else the sender's own; other names get no answer |
| PermsCommand.ReadOn | src/permissions.c:41-58 | the reading step of the runs is permissions_get on the stored table: level, table and mutex |
| PermsCommand.HandleOn | src/modules/bot_perms.c:12-45 | the handling step of the runs is the handler on the stored table: table and mutex |
| PermsCommand.SplitAt | src/modules/bot_perms.c:18-24 | overwriting the first space leaves the level and the host as two strings |
| IrcFraming.SplitIsExact | src/irc.c:145-152 | splitting loses and reorders nothing and leaves no CR LF in a line or in the rest |
| IrcFraming.SplitJoin | src/irc.c:145-152 | lines without CR LF come back from their stream unchanged |
| IrcFraming.FeedFollows | src/irc.c:146-152 | one read stays with the reference unless it starts at a split CR LF, and a lost line is never made up |
| IrcFraming.LinesIffNeverSplit | src/irc.c:149 | the loop yields exactly the lines of the concatenated reads if and only if no read splits a CR LF |
| IrcFraming.FitsExactly | src/irc.c:147-150 | for every list of reads the buffer index stays in bounds exactly when no line that the loop finds, nor the rest, exceeds 512 bytes |
| IrcFraming.StreamFitsExactly | src/irc.c:147-150 | in terms of the stream: exactly when its lines have at most 512 bytes, however it is cut into reads that split no CR LF |
| IrcFraming.LongLineOverruns | src/irc.c:149-150 | a single line stays in bounds exactly when it has at most 510 bytes before its CR LF, for all reads that split no CR LF |
| IrcFraming.LongLineIsReceivable | src/net.c:146-147 | two reads of at most 512 bytes that do so |
| IrcFraming.SplitGlues | src/irc.c:149 | two lines whose CR LF in between is split are taken for one, with the CR LF inside |
| IrcParse.MarksOf | src/irc.c:161-178 | the marks are the first three spaces and the first space or colon after the third |
| IrcParse.SenderRoundTrip | src/irc.c:58-72 | nick, ident and host are recovered from their mask exactly when the nick has no exclamation mark and the ident no at sign |
| IrcParse.SenderComposes | src/irc.c:58-72 | a host is found exactly when an at sign follows an exclamation mark, and then the sender is the mask of its three parts |
| IrcParse.SenderWithoutHost | src/irc.c:58-72 | without an exclamation mark all is nick; without an at sign after it the rest is the ident |
| IrcParse.PingPong | src/irc.c:156-159 | a PING is answered with PONG and what came with it |
| IrcParse.NoTextNoEvent | src/irc.c:161-183 | a prefixed line without a colon between the third and the fourth space is ignored |
| IrcLoops.PointersRead | src/irc.c:161-178 | the strings behind the pointers into the cut buffer are the fields of the line |
| IrcLoops.IrcLoop.Tokenise | src/irc.c:161-178 | the in-place loop sets the four pointers and cuts the buffer at the three spaces |
| IrcLoops.IrcLoop.Nick | src/irc.c:185-197 | the copy into nickbuf is the user up to the exclamation mark |
| IrcLoops.IrcLoop.HandleMessage | src/irc.c:161-203 | a prefixed line leads to a command check exactly when it is a PRIVMSG or NOTICE with a place and a text |
| IrcLoops.IrcLoop.HandleLine | src/irc.c:156-204 | a PING is answered with its PONG, a prefixed line is parsed, anything else is ignored |
| IrcLoops.OtherLine | src/irc.c:156-160 | a line that begins neither with PING nor with a colon is ignored |
| IrcLoops.IrcLoop.Receive | src/irc.c:146-206 | after a read the buffer holds the unfinished line and the trace has one reaction per line |
| IrcLoops.IrcLoop.Run | src/irc.c:139-207 | the same over all reads of a connection |
| IrcLoops.EveryLineHandled | src/irc.c:145-207 | every cutting of a stream of lines that splits no CR LF handles exactly those lines in order, and is in bounds exactly when they have at most 512 bytes |
| IrcLoops.TraceDependsOnStreamAlone | src/irc.c:145-207 | replies and command checks depend on the stream, not on how it was read |
| IrcLoops.SplitCrlfLosesALine | src/irc.c:149-158 | of any two PINGs whose CR LF in between is split, one is answered instead of two |
| IrcMessages.FilterInPlace | src/irc.c:10-16 | CR and LF become spaces up to the terminator; nothing else changes |
| IrcMessages.FilterBytes | src/irc.c:13-15 | each byte is filtered alone; CR and LF become a space and nothing else changes |
| IrcMessages.LineFields | src/irc.c:160-178 | a relayed line has exactly the sender, the command, the place and the message as fields |
| IrcMessages.ChannelMessage | src/irc.c:182-200 | a PRIVMSG or NOTICE to a place that begins with #, &, + or ! is checked for a command to be answered there |
| IrcMessages.PrivateMessage | src/irc.c:184-200 | any other is answered to the sender up to the exclamation mark, or to the whole sender without one |
| IrcMessages.OtherCommand | src/irc.c:182-203 | no other command of a prefixed line is looked at |
| IrcMessages.PrintParse | src/irc.c:10-20 | a filtered message that fits the send buffer, relayed and read in any pieces that split no CR LF, is framed as one line and parsed back to the same sender, place and text; the receive buffer holds it exactly when the relayed line has at most 512 bytes |
| IrcMessages.PrivateReply | src/irc.c:185-197 | the private reply target is the nick that irc_parsesender finds |
| IrcMessages.ParseSenderInPlace | src/irc.c:58-72 | the three pointers into the cut string read as nick, ident and host |
| IrcLogin.LoggedInInOrder | src/irc.c:93-132 | whatever the server replies, the nicks sent are the configured one and its retries in order, one underscore at a time, at most 20 minus its length |
| IrcLogin.NicksAreExtensions | src/irc.c:113-123 | nicks in such an order are the configured one plus underscores, and no longer than 20 bytes unless it is the configured one |
| IrcLogin.EveryNickSent | src/irc.c:76-132 | over a whole login with any replies every nick sent is the configured one with underscores behind it, of at most 20 bytes unless it is the configured one |
| IrcLogin.ScanKeepsLine | src/irc.c:101-105 | scanning changes nothing in the line but the I of a PING, and that once it was answered |
| IrcLogin.ScanAccepts | src/irc.c:100-112 | a line completes the login exactly when an examined byte of it is 0 |
| IrcLogin.ScanGrows | src/irc.c:113-119 | the nick grows once for each examined 43x as long as it is shorter than 20 |
| IrcLogin.ScanFallsBack | src/irc.c:113-123 | every other examined 4 sends the fallback nick once |
| IrcLogin.ScanAnswers | src/irc.c:101-105 | a PING is answered once, with its I made an O |
| IrcLogin.OneLineRead | src/irc.c:93-129 | a line that comes in one read is scanned as it came, with the size of that read |
| IrcLogin.LoginSucceedsExactly | src/irc.c:93-132 | for every server: the login succeeds exactly when a line that ended before the first read of at most two bytes is accepted |
| IrcLogin.LoginLines | src/irc.c:93-129 | those lines are the ones of the receive loop as long as they stay in its buffer |
| IrcLogin.LoginStops | src/irc.c:93-131 | nothing is looked at after the read that makes it succeed or after a short read |
| IrcLogin.OpeningIs | src/irc.c:86-90 | password if any, user, nick, in this order |
| IrcLogin.Login.constructor | src/irc.c:78-90 | the password if any, then the user line and the configured nick are sent |
| IrcLogin.Login.Grow | src/irc.c:117-119 | a collision appends one underscore inside the nick buffer and sends the new nick |
| IrcLogin.Login.React | src/irc.c:110-124 | 0 accepts; 4 grows the nick on a 43x reply with room left, and else sends the fallback |
| IrcLogin.Login.Scan | src/irc.c:100-125 | the scan of a line has exactly the effect that the two lemmas before describe |
| IrcLogin.Login.Take | src/irc.c:95-129 | one byte is stored inside the 513-byte buffer, and a complete or overlong line is scanned |
| IrcLogin.Login.Run | src/irc.c:93-132 | the receive loop ends on success or on a short read, with the buffer index at most 512 and the nick inside its buffer |
| CommandTrie.FoldIgnoresCase | src/modules.c:52-61 | two names have the same key exactly when they agree up to case |
| CommandTrie.LettersAre | src/modules.c:52-59 | names are made of the 52 letters |
| CommandTrie.RegisterExit | src/modules.c:44-73 | where the walk stops decides between bound, bad character and out of memory |
| CommandTrie.ResultCodes | src/modules.c:44-108 | with memory, 0 for names and -1 for others; unregistering gives 0, -1 at a bad character that is reached, or -3 where the tree ends |
| CommandTrie.Trie.Grow | src/modules.c:63-65 | a new node extends the tree by one path and nothing is shared |
| CommandTrie.Trie.WalkDown | src/modules.c:44-69 | walking adds only missing nodes and ends at the key's node, at a bad character, or out of memory |
| CommandTrie.Trie.Register | src/modules.c:36-74 | success binds exactly the folded name; a refused or failed registration binds nothing; the result code is determined |
| CommandTrie.Trie.Unregister | src/modules.c:76-109 | exactly the folded name is unbound; the result code is determined |
| CommandTrie.Trie.Clean | src/modules.c:111-126 | all nodes and bindings below a node are removed, and no others |
| CommandTrie.Trie.CleanAll | src/modules.c:371 | only the empty name can still be bound |
| Dispatch.Walk | src/modules.c:148-179 | the walk finds a job exactly when the folded word is bound, with handler, spelling and arguments |
| Dispatch.CheckCmd | src/modules.c:129-183 | the same behind the prefix test, for every tree |
| Dispatch.CommandDispatches | src/modules.c:129-165 | prefix and name, alone or with arguments after a space, give the job of the bound name, with empty arguments if there are none; a prefix alone gives none |
| Dispatch.NoCommand | src/modules.c:140-173 | a word with anything but letters and a message without the prefix give no job |
| Dispatch.PrefixMustBeOneByte | src/modules.c:137-144 | dispatch is as documented for all messages exactly when the prefix has one byte |
| Delivery.CommandReachesItsHandler | src/irc.c:145-200 | a typed command, with or without arguments, relayed and read in any such pieces, is parsed and queued exactly when its name is bound, with sender, target and arguments unchanged; the receive buffer holds it exactly when the relayed line has at most 512 bytes |
| ModuleList.StepConsistent | src/modules.c:266-368 | every step, the unloading of all modules included, keeps the counter equal to occupied slots plus failed inits less unloads under way |
| ModuleList.SanityFailsExactly | src/modules.c:266-285 | in a reachable state the sanity check fails exactly when counter and unloads under way fill the array |
| ModuleList.WaitingUnloadsAreSafe | src/modules.c:266-300 | unless the start-up scan finds modules to unload, the counter is exact and a free slot always exists |
| ModuleList.SanityFailureIsReachable | src/modules.c:322-368 | five loads by the watcher, the start-up scan unloading them, and its first load lead to the sanity failure on the next load |
| ModuleList.ModuleArray.LoadMod | src/modules.c:266-300 | takes the first free slot after growing, or reports the sanity failure |
| ThreadPool.StepCoherent | src/threadpool.c:162-229 | every step of dispatcher and workers, with the gate test separate or not, keeps sizes, gate and the ownership of slots coherent |
| ThreadPool.PoolSafety | src/threadpool.c:162-229 | in every interleaving of either protocol each live job owns its own slot below pool_len, and a possible step stays in the block, fills a free slot, zeroes no occupied one, and clears its own slot so that no copy still holds it, exactly unless it clears between the copying and the replacing of the block |
| ThreadPool.SlotsPersist | src/threadpool.c:162-229 | however often the pool grows, a job that occupies a slot is later found in that same slot until it clears it |
| ThreadPool.StepStuck | src/threadpool.c:83-85 | a step adds to the slots that outlive their job exactly the one it clears between copying and replacing, and no step ever frees one |
| ThreadPool.SlotsOutliveJobsExactly | src/threadpool.c:83-85 | for every run of either protocol: as many slots have outlived their job as workers cleared theirs between copying and replacing, so none exactly if none did |
| ThreadPool.PoolGrowth | src/threadpool.c:162-189 | for every run of either protocol pool_len is 2 doubled, and at most 2·(d + c − 1) for a largest demand d and c clears between copying and replacing; at most 2·(d − 1) as long as no slot has outlived its job |
| ThreadPoolArray.StuckSlotCosts | src/threadpool.c:162-189 | a two-step run with a demand of at most four and one such clear in which the pool grows to 8, the bound with c = 1 |
| ThreadPool.DoublesFullExactly | src/threadpool.c:164-173 | when the pool doubles, every slot is held exactly when none was cleared since the search began, when all of them were held |
| ThreadPool.DoublingWithAFreeSlot | src/threadpool.c:164-173 | a run of either protocol in which the pool doubles although a slot is free |
| ThreadPool.SplitCheckDangles | src/threadpool.c:83-84 | a run with a separate gate test in which a slot names a freed job |
| ThreadPool.GateTestMustBeAtomic | src/threadpool.c:83-84 | in no run does a slot outlive its job exactly when testing the gate and clearing are one step |
| ThreadPoolArray.Pool.FindSpace | src/threadpool.c:162-190 | returns the lowest free slot, doubling with zeroed slots when there was none, and leaves the gate open |
| ThreadPoolArray.Pool.Queue | src/threadpool.c:192-204 | that slot holds the job and no other slot changed |
| ThreadPoolArray.DispatchAlone | src/threadpool.c:162-229 | an undisturbed dispatcher of the protocol has exactly the effect of Queue |
| Unescape.Escape | src/modules/bot_google.c:81-102 | each escape branch leaves copied and uncopied parts equal to what was decoded |
| Unescape.Scan | src/modules/bot_urban.c:48-73 | the loop stops at the quote, the end or 400 bytes with url and the uncopied stretch decoded |
| Unescape.Decode | src/modules/bot_google.c:76-109 | the C string left in url is the limited decoding, of at most 401 bytes |
| Unescape.LimitedIsPrefix | src/modules/bot_urban.c:48-77 | the output is a prefix of the full decoding, all of it up to 400 bytes and at least 400 bytes otherwise |
| Unescape.EscapeDecode | src/modules/bot_google.c:76-109 | a text with quote, backslash, line feed, tab and carriage return escaped decodes to its first 400 bytes as shown: line feed and tab as a space, carriage return dropped |
| Unescape.ShownAsIs | src/modules/bot_google.c:76-109 | a text without those three comes back unchanged |
| Unescape.UnknownStays | src/modules/bot_urban.c:50-70 | any other escape stays as its two bytes |
| FullWidth.HandleFw | src/modules/bot_fun.c:49-76 | the first 170 bytes are encoded in order inside 511 bytes, with terminator |
| FullWidth.KeptExactly | src/modules/bot_fun.c:54-59 | of the first 170 bytes those from 0x20 to 0x7F are encoded, in order |
| FullWidth.PrintableText | src/modules/bot_fun.c:49-76 | a printable text of at most 170 bytes comes out whole as U+3000 and U+FEE0 plus each byte |
| FullWidth.EncodeDecodes | src/modules/bot_fun.c:57-73 | the output is well-formed UTF-8 and decodes to U+3000 or U+FEE0 plus the byte for each kept byte |
| FullWidth.EncodeHasNoNul | src/modules/bot_fun.c:57-76 | no byte of the output ends the string early |
| FullWidth.EncodeIsInjective | src/modules/bot_fun.c:57-73 | decoding recovers the filtered input |

## Left out

- CommandTrie.Trie.Clean: the freed nodes are dropped from the tree; that their memory goes back to the allocator is not modelled.
- Dispatch.CheckCmd: works on string values; the program also overwrites the space after the name in its receive buffer.
- IrcLogin.Login.Run: the longest nick line is not cut to the 512-byte send buffer.
- HashMaps.EntryList.Append: a failed `realloc`, which leaves `vlen` one too high, is not modelled.
- HashMaps.EntryList.Delete: the intended shift; the program copies one entry too many between overlapping blocks.
- HashMaps.HashMap.Put: excludes a bucket that already holds 32768 entries, where the 16-bit `vroom` would wrap; so do the writes of Permissions.PermissionStore.Set and PermsCommand.Handle.
- ThreadPoolArray.Pool.FindSpace: a failed `realloc`, which leaves the gate closed and `pool_len` doubled, is not modelled.
- ModuleList.StepConsistent: leaves out modules without a cleanup symbol, which `modules_unloadmod` frees on the spot without clearing their slot; unloading a module whose init still runs; and unloading one twice.
- `threadpool_waitall` and shutdown: they join threads that were created detached, while holding the gate those threads wait for.
- The movement of the `loaded` array while workers hold pointers into it.
- `hashmap_destroy`, `permissions_cleanup`, logging, environment reading, reconnecting.
- Sockets, TLS and curl, apart from the length of the send buffer; dynamic loading, directory watching and signals.
- `irc_action`, `irc_join`, `irc_part`, `irc_chmode`, `irc_kick`, `irc_raw`: one formatted line each.
- The remaining command modules: thin wrappers around services that are not part of this model.
