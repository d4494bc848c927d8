# mopher in Dafny

mopher is a mail filter daemon. It greylists senders, stores its records in pluggable databases,
evaluates rules written in its own language, replicates its records to other daemons and asks DNS
blocklists about its clients. This project models the parts of it that carry state or do arithmetic on
text, in the form the C code has (objects with fields, loops over arrays and lists, recursive
evaluation), and proves what they are for: claims about every run, every input and every pattern of
failures.

`dafny verify dfyconfig.toml` checks everything.

## What is proved

* **Storage** (`HashTable.dfy`, `VarPack.dfy`, `MemDb.dfy`, `MemDbRuns.dfy`). The chained hash table
  doubles itself from within an insertion; the nested insertions never resize again, and the table
  always stands for a finite map. Packing a record and unpacking it gives the record back, in any
  interleaving of key, value and null fields. Packed keys form a prefix-free code, which is why a match
  function that compares only the length of the first key is right. Put together: over any sequence of
  set, get and del, each get answers with the record last set for its key tuple. The janitor may delete
  the record just returned while it walks the table; it still sees every record exactly once. A walk
  starts at `ht_head`, which removals leave alone, so it sees everything exactly when the head bucket is
  occupied, and nothing otherwise; `StaleHead` builds such a table.
* **Greylisting** (`Greylist.dfy`, `GreylistRuns.dfy`, `GreylistRecords.dfy`). The methods update records, counted lists and
  the database as the code does and are proved equal to a function; runs interleave evaluations of any
  tuples on any connections with janitor sweeps. Every pass has been earned by an earlier deferral, the
  delay and the attempts in force. Cleanup cannot be noticed by messages received no earlier than the
  last sweep's schedule under rules that have a parameter; for a single evaluation it is shown exactly
  when a deletion is noticed and when it changes the result, and both conditions have a concrete run that
  breaks them. Once a tuple has passed, it keeps passing while its visa is renewed, and a sender
  who keeps trying gets through. A message is let through only if all its recipients were judged and let
  through.
* **Rules** (`Acl.dfy`, `AclProofs.dfy`, `AclLaws.dfy`). The interpreter ends on cyclic tables too, its
  results are the ones `milter_acl` handles, no action is performed at a forbidden stage, a result does not
  depend on the depth at which it was reached, and an unconditional `call` may be replaced by the rules of
  the called table. For each kind of rule it is stated what it does to its table: a jump, for one, never
  comes back. The acl_* symbols name the rule that decided.
* **Conditions** (`Exp.dfy`). The manual's tables are read compositionally, null tests included. For every
  expression the value is the manual's if and only if the evaluation does not stray from it, and what it
  is otherwise is stated too. Without null tests, to stray is to lose an unknown at an `||`, and a known
  value is never changed; a null test over a lost unknown does change one. Value and order of evaluation
  depend only on the leaves that were evaluated.
* **Replication** (`Replication.dfy`). However connects and writes end, each record is written, kept for a
  retry or still pending exactly once, and in order as long as all names fit the send buffer. And records
  do arrive: after a wakeup, or a retry, during which nothing fails, every server has been sent
  everything. How connecting and writing end is an input.
* **Addresses, domains, encodings** (`AddrPrefix.dfy`, `Dnsbl.dfy`, `Regdom.dfy`, `RegdomRules.dfy`,
  `Base64.dfy`). Byte-wise prefix masking clears exactly the low bits. The reversed IPv6 query, written
  over a template of zeroes while the text is read backwards, is the expanded address, digit by digit.
  Registrable domains are those of publicsuffix.org, with the exact family of names on which they differ.
  Base64 text is the bit stream of section 4 of RFC 4648, and decoding restores every input.

Sizes are those of an LP64 platform. Times and counters are unbounded integers, except the elapsed delay
of a greylisted tuple, which the code keeps in a 32-bit `int`. The load factor is a rational number.
Whether `char` is signed is a parameter where it matters.

## Where the code and its documentation differ

The model follows the code.

* Greylisting passes when delay **and** attempts are exceeded (src/greylist.c:586); the manual says "or".
  `GreylistRuns.DelayAloneDefers` has records on which that differs.
* `null || false` takes the right operand, false; the manual's table says null (src/exp.c:766-769,
  man/mopherd.acl.5.in:237-263). `Exp.EvalIsKleeneIff` has the exact condition for whole expressions,
  `Exp.NegatedOrFires` and `Exp.NullTestOfLostUnknown` rules that fire or not because of it.
* A `greylist` action without parameters passes when there is no record and defers when there is an
  expired one (src/greylist.c:519-522, src/greylist.c:551-560).
* A name that is itself the name of a wildcard rule has no registrable domain for the code
  (src/regdom.c:318-321), even where a shorter rule covers it.
* Trailing blanks of a rule line are meant to be stripped, but the loop looks at the terminator first and
  strips none (src/regdom.c:206-212).
* No action is allowed at MS_UNKNOWN, since MS_ANY leaves it out (src/include/milter.h:25-27;
  `AclProofs.NothingAtUnknown`).
* The IPv6 query of an address whose text has an embedded dotted part, such as every IPv4-mapped one, holds
  dots among its nibbles (src/modules/dnsbl.c:81-104, `Dnsbl.QueryIsHexIff`).
* An IPv4 prefix below 2 shifts an `int` past its sign bit (src/util.c:328); whether it masks correctly
  depends on the platform (`AddrPrefix.ShortPrefixIsExactIff`).
* `base64_decode` tolerates surplus padding but takes the size from the whole text, so from six padding
  characters on the length it returns is too large (src/base64.c:130-136).
* `base64_decode` means to reject characters outside the alphabet, but compares the entries of a table of
  `char` with -1 (src/base64.c:8, src/base64.c:203-206): where `char` is unsigned it rejects none
  (`Base64.ForeignRejectedIff`).

## Model

| member | source | states |
|---|---|---|
| HashTables.HashTable.constructor | src/ht.c:22-42 | A new table is valid and stands for the empty map, for every pair of callbacks that agree with some key function |
| HashTables.HashTable.FindNode | src/ht.c:97-119 | The chain search finds the stored element of that key if and only if the map has the key |
| HashTables.HashTable.Lookup | src/ht.c:97-119 | Lookup answers exactly as the map does |
| HashTables.HashTable.Insert | src/ht.c:193-246 | Fails exactly on a duplicate key; otherwise the map gains the element, whatever resize happens, and the load is at most 50% again; with room left the table is not replaced; a table that can be walked stays so; the recursion through ht_resize ends |
| HashTables.HashTable.Prepend | src/ht.c:203-225 | The new node keeps every invariant but the load bound, and the head field never skips an occupied bucket |
| HashTables.HashTable.Resize | src/ht.c:139-191 | The table is twice as long, valid with its load bound, and stands for the same map |
| HashTables.HashTable.RehashChain | src/ht.c:161-174 | Moving one chain adds exactly its elements to the new table, and no insertion resizes it |
| HashTables.HashTable.RehashRoom | src/ht.c:161-174 | During a rehash there is always room for one more element, and it is not a duplicate |
| HashTables.HashTable.Remove | src/ht.c:249-311 | The map loses that key and nothing else, exactly one node is unlinked, the head field stays |
| HashTables.HashTable.Start | src/ht.c:122-137 | The walk has everything ahead of it if and only if the head bucket is occupied or the table empty, and otherwise nothing |
| HashTables.HashTable.Next | src/ht.c:368-420 | Returns the first of the remaining elements and leaves the others, in order |
| HashTables.HashTable.FlatIsMap | src/ht.c:368-420 | The walk order lists every element of the map exactly once |
| HashTables.RemainingAfterUnlink | src/ht.c:249-311 | Unlinking an element behind the cursor does not change what the walk has still to return |
| HashTables.StaleHead | src/ht.c:297-308 | After inserting two elements and removing the first, one record is stored and a walk finds none |
| VarPack.DecodeEncode | src/var.c:1030-1067 | A value of any scalar type is read back from memory together with its size, whatever follows it |
| VarPack.LongIsTwosComplement | src/var.c:1030-1067 | The long in memory is the two's complement of its little-endian bytes |
| VarPack.Pack | src/vp.c:141-222 | Packing succeeds exactly for at most 64 fields without null keys |
| VarPack.PackedLayout | src/vp.c:68-139 | The buffers hold the keys and the non-null values in field order; bit n of the null word is set if and only if field n is null |
| VarPack.Unpack | src/vp.c:225-330 | The loop with its two offsets reads the record that the packed buffers stand for, or fails where they do |
| VarPack.NullKeyRefused | src/vp.c:225-330 | A null word that marks a key field makes the record unreadable |
| VarPack.RoundTrip | src/vp.c:141-330 | Unpacking after packing gives the record back: values, nulls and key flags, in any order of fields |
| VarPack.EncodePrefixFree | src/vp.c:95-139 | Two encoded values of one type that start the same memory are equal |
| VarPack.KeysPrefixFree | src/vp.c:95-139 | Two key buffers of one scheme of which one starts with the other have the same key tuple |
| VarPack.KeyBytesOfTuple | src/vp.c:95-139 | Equal key tuples have equal key buffers |
| MemDb.MatchIsTupleEquality | src/modules/memdb.c:21-30 | Comparing the first key's length only decides equality of key tuples, whatever lies behind the second key |
| MemDb.MatchIsKeyEquality | src/modules/memdb.c:13-30 | The match callback is equality of keys on everything stored, and equal keys have equal bytes to hash |
| MemDb.Database.constructor | src/modules/memdb.c:42-60 | A new database is empty, for any number of buckets and any hash function of the key bytes |
| MemDb.Database.Get | src/modules/memdb.c:73-110 | Fails exactly on unpackable records; otherwise the stored record of the key tuple, or none |
| MemDb.Database.Set | src/modules/memdb.c:112-139 | The record replaces what was stored under its key tuple; nothing else changes; a new record leaves the table walkable |
| MemDb.Database.Del | src/modules/memdb.c:142-166 | The record of the key tuple is gone; nothing else changes |
| MemDb.Database.StoredIsPacked | src/modules/memdb.c:95-108 | What is stored unpacks to the record that was set, under its own key tuple |
| MemDbRuns.Perform | src/modules/memdb.c:73-166 | One operation changes the database as it changes a finite map |
| MemDbRuns.Run | src/modules/memdb.c:73-166 | In every run of set, get and del, through any resizes and collisions, each get answers with the record last set for its key tuple and not deleted since |
| MemDbRuns.Visit | src/dbt.c:578-599 | The callback deletes the record if and only if the schedule is past its expiry |
| MemDbRuns.Callback | src/modules/memdb.c:169-194 | Deleting the element just returned leaves the rest of the walk as it was |
| MemDbRuns.WalkLoop | src/modules/memdb.c:169-194 | The walk visits the whole list in order and prunes exactly the stale records, with the right count |
| MemDbRuns.CleanupWalk | src/dbt.c:602-622 | From an occupied head bucket the walk visits every record once and leaves exactly those with expire >= schedule; otherwise it visits none and deletes none; the count of deletions is right |
| MemDbRuns.WalkDone | src/dbt.c:535-560 | After the whole list only the survivors are left, all of them |
| Greylist.Int32 | src/greylist.c:581-586 | A long stored in an int: in range, unchanged in range, never larger unless it underflows |
| Greylist.Engine.Properties | src/greylist.c:333-365 | Given parameters replace the stored ones, a given deadline moves the expiry, and one failing expression fails the call |
| Greylist.Engine.TupleCounted | src/greylist.c:368-407 | Says whether the recipient was counted, and counts it once |
| Greylist.Engine.AddRecord | src/greylist.c:410-472 | The new record, with the configured defaults for zero deadline and visa |
| Greylist.Engine.EvaluateRecipient | src/greylist.c:475-659 | Record, counted lists, result and delay are those of one judged evaluation, in all five outcomes |
| Greylist.Engine.AllRecipients | src/greylist.c:700-726 | The recipients are judged in turn up to the first that does not pass; the longest delay is kept; without recipients nothing changes and the result is arbitrary |
| Greylist.Engine.Action | src/greylist.c:662-754 | An error with fewer than four symbols or a missing part of the key, without any change; otherwise the result of the action, the database, the lists and greylist_delayed, at both kinds of stages |
| Greylist.Engine.Decide | src/greylist.c:693-754 | The result of judging the recipients; without recipients outside the envrcpt stage only the result is open, which the code reads from an uninitialised variable |
| GreylistRuns.RecipientsAreRun | src/greylist.c:700-726 | The recipient loop is a run of single evaluations that ends at the first recipient not let through, and only there, with the largest delay |
| GreylistRuns.ActionIsRun | src/greylist.c:689-726 | An action is a run of single evaluations with the same database, lists and result, of the current recipient in the envrcpt stage and otherwise of all recipients; it lets the message through only if all were judged and let through |
| GreylistRuns.LetThroughIsRecorded | src/greylist.c:700-726 | Under a rule with a parameter, a message is let through only if every recipient has a record |
| GreylistRecords.NewRecordSays | src/greylist.c:410-472 | Every field of a new record |
| GreylistRecords.JudgedRecordSays | src/greylist.c:562-650 | Every field of a record after a pass and after a deferral, who is counted and which delay is reported |
| GreylistRecords.OutcomeIs | src/greylist.c:519-660 | Exactly when each of the five outcomes occurs, and its result |
| GreylistRecords.OneSymbolMayMiss | src/greylist.c:680-688 | The action goes on if and only if at most one symbol is missing |
| GreylistRecords.PersistentSenderPasses | src/greylist.c:562-616 | A sender who keeps trying from new connections before the deadline passes as soon as a try is late enough and there have been enough of them |
| GreylistRuns.CleanupUnobservable | src/dbt.c:535-599 | With any sweeps in between, all decisions, reported delays and records written are those of the run without sweeps, each surviving record is equal, and each missing one had expired before the last sweep, for rules with a parameter and times not before the last sweep |
| GreylistRuns.DeletionShowsIff | src/greylist.c:519-560 | For every record, rule and time: the outcome tells that the record was deleted if and only if it had expired and the rule has no parameter, or it was live and the rule evaluates |
| GreylistRuns.DeletionChangesResultIff | src/greylist.c:519-616 | For every record, rule and time: the exact condition under which the deletion changes what happens to the message |
| GreylistRuns.EmptyRuleSeesCleanup | src/greylist.c:519-560 | A concrete run of three steps in which a sweep changes the log for a rule without parameters |
| GreylistRuns.LateSweepIsSeen | src/greylist.c:551-560 | A concrete run in which a sweep scheduled after the time of a message changes the log, for a rule with a parameter |
| GreylistRuns.PassesIffBothExceeded | src/greylist.c:581-586 | A live record passes if and only if the delay and the attempts in force are both exceeded |
| GreylistRuns.DelayAloneDefers | src/greylist.c:586 | Concrete records with only one of the two exceeded, which are deferred |
| GreylistRuns.PassesAreEarned | src/greylist.c:551-616 | In every run, a pass follows a deferral that created the record, more than the delay in force has gone by, at least `attempts` distinct connections came back, and a pass after a deferral is within the stored deadline |
| GreylistRuns.RenewalPasses | src/greylist.c:586-611 | A message within the visa, with delay and attempts not raised, passes and renews the visa; other tuples and timely sweeps leave it alone |
| GreylistRuns.VisaKeepsPassing | src/greylist.c:586-611 | In every renewing run, of any length and with empty rules too, every message of the tuple passes |
| GreylistRuns.PassStartsVisa | src/greylist.c:586-611 | Every pass puts the tuple on a visa from the time of the message |
| Acl.Interpreter.Handle | src/acl.c:882-909 | Performing an action, with calls and jumps, gives the response and mailspec of the reference evaluation |
| Acl.Interpreter.TryRule | src/acl.c:1219-1303 | One rule goes on or returns as the reference evaluation does, with reply and match bookkeeping |
| Acl.Interpreter.Acl | src/acl.c:1184-1309 | The interpreter ends on every set of tables and gives the outcome of the reference evaluation |
| AclProofs.AclSound | src/acl.c:22-39 | The result is one of eight, and no action in the whole call tree is performed at a stage its entry forbids |
| AclProofs.NothingAtUnknown | src/include/milter.h:25-27 | At MS_UNKNOWN no action is performed by any table, and the result is none or an error |
| AclProofs.AclAnyDepth | src/acl.c:1184-1204 | A result that is not an error is the same at every smaller depth |
| AclProofs.EndlessCallIsError | src/acl.c:1184-1204 | A table that starts by calling itself ends in an error at every depth |
| AclProofs.InliningPreservesMeaning | src/acl.c:901-909 | Replacing an unconditional call without reply by the rules of a table without `return` preserves the result and all variables but the acl_* symbols, for all tables, cyclic ones too, whenever the original does not end in an error |
| AclProofs.ReturnForbidsInlining | src/acl.c:1266-1272 | With a `return` in the called table, inlining changes a rejection into no result |
| AclLaws.AllowedStages | src/acl.c:22-39 | The stages at which each action is allowed, as the sets of src/include/milter.h |
| AclLaws.EmptyTable | src/acl.c:1207-1216 | A missing or empty table answers nothing and changes nothing |
| AclLaws.TooDeep | src/acl.c:1196-1204 | 256 nested tables are an error |
| AclLaws.FalseCondition | src/acl.c:1221-1226 | A rule with a false condition is passed over |
| AclLaws.FailedRule | src/acl.c:1228-1250 | A failing condition and a forbidden action are errors before anything is performed |
| AclLaws.PlainRule | src/acl.c:1261-1303 | Verdicts end the table with themselves, `return` with nothing |
| AclLaws.JumpRule | src/acl.c:882-898 | A jump never comes back: without an answer of its target the table answers `continue`, and no rule behind it is tried |
| AclLaws.TableStartsWithJump | src/acl.c:882-898 | The same for a table that starts with a jump |
| AclLaws.CallRule | src/acl.c:901-909 | A call goes on if its target has no answer, and otherwise ends the table with it |
| AclLaws.SimpleRule | src/acl.c:1255-1275 | A handler that succeeds goes on with its mailspec, one that fails is an error |
| AclLaws.GreylistRule | src/greylist.c:728-754 | A greylisted message ends the table with ACL_GREYLIST |
| AclLaws.TarpitRule | src/tarpit.c:80-93 | A dropped connection ends the table with ACL_TEMPFAIL |
| AclLaws.AclNotes | src/acl.c:943-994 | The first match of a stage stays in the acl_* symbols; a table that decides names the rule that did, with its file, line and response |
| Replication.Dump | src/var.c:989-1012 | Fails exactly when the name does not fit; the line is complete exactly when the data fits too, and otherwise the bare name |
| Replication.Client.Flush | src/client.c:123-145 | The retry queue is sent from its head: written and queued records stay the same sequence, the connection survives exactly if the queue was emptied, and it is emptied if nothing fails |
| Replication.Client.Connect | src/client.c:148-176 | No record is lost or reordered, whether connecting and flushing succeed or not; if nothing fails the server is connected and has nothing to retry |
| Replication.Client.Send | src/client.c:202-239 | On a connection, a record that can be dumped is sent if and only if write accepts the whole line, which is then appended to the wire; otherwise the connection is closed and nothing is lost |
| Replication.Client.SendLine | src/client.c:217-238 | Exactly the line, or at most a torn beginning of it as the last thing on its connection |
| Replication.Client.SendOrKeep | src/client.c:242-261 | The record is written or queued, once, and in order from a settled server on; a connected server stays settled exactly if the record can be dumped |
| Replication.Replicator.Sync | src/client.c:374-420 | The record is appended to what was handed over, or dropped when there is no server; all invariants hold |
| Replication.Replicator.SendToAll | src/client.c:274-286 | Every server has accounted for the record, whatever fails |
| Replication.Replicator.Update | src/client.c:264-293 | The shared queue is empty and every server accounts for everything; a result of zero means that every server has been sent everything, and it is zero if nothing fails |
| Replication.Replicator.Reconnect | src/client.c:178-200 | Accounts stay right; a result of zero means that a server is connected exactly if it has nothing to retry; if nothing fails all are connected and have been sent everything |
| Replication.Replicator.Handle | src/client.c:324-357 | One turn of client_main: what an event does to the queues and when everything has been sent |
| Replication.Run | src/client.c:296-372 | Over every run and every pattern of failures, the complete lines on the wire are those of records that, with the queued and pending ones, are those handed over, each once, and in order if all can be dumped; after a wakeup, or a retry, without failures every wire carries the lines of all of them |
| Exp.EvalFailsAtLeaf | src/exp.c:1404-1430 | A failing evaluation fails at the leaf evaluated last |
| Exp.FailureGoes | src/exp.c:935-982 | NOT makes a failure null, a null test finds it null, AND and OR pass it on when they evaluate it |
| Exp.EvalTruth | src/exp.c:702-815 | For every expression of AND, OR, NOT and null tests, exactly where the evaluation strays from the manual's value and what it comes to |
| Exp.EvalIsKleeneIff | src/exp.c:766-769 | For every expression, the value is the manual's if and only if the evaluation does not stray, a condition on the truth of the leaves |
| Exp.StrayIsLost | src/exp.c:766-769 | Without null tests, to stray is to lose an unknown to a known value |
| Exp.EvalKeepsUnknownIff | src/exp.c:766-769 | Without null tests, the value is the manual's if and only if no unknown is lost, a condition on the manual's values of the operands |
| Exp.KnownIsKept | src/exp.c:702-815 | Without null tests, a value that the manual knows is the value of the code |
| Exp.NullTestIff | src/exp.c:935-952 | A null test over such an expression is the manual's if and only if no unknown is lost below it |
| Exp.NullTestOfLostUnknown | src/exp.c:935-952 | `(x OR y) is null` with x null and y false: true by the manual, false by the code, and its negation fires |
| Exp.FiresIff | src/exp.c:1433-1456 | A rule fires if and only if its condition comes to true |
| Exp.LeafFires | src/var.c:722-812 | A single value fires if and only if it is not null, zero, "", "0", the zero address or empty |
| Exp.OperatorsYield | src/exp.c:702-815 | AND, NOT and null tests yield truth values or null, OR the value of the operand that decided |
| Exp.TraceIsNeeded | src/exp.c:718-763 | Exactly the leaves that have to be asked are evaluated, from left to right |
| Exp.AndOrFires | src/exp.c:1433-1456 | With AND and OR only, a rule fires if and only if the Kleene value is true |
| Exp.AndNotIsKleene | src/exp.c:955-982 | Without OR, null tests included, the value is always the manual's |
| Exp.NegatedOrFires | src/exp.c:766-769 | A negated OR of null and false fires, though its Kleene value is unknown |
| Exp.OnlyTraceMatters | src/exp.c:718-763 | At any depth, value and trace depend only on the leaves evaluated: nothing behind a deciding operand is looked at |
| AddrPrefix.MaskIPv4 | src/util.c:316-333 | Clears all but the first p bits for p >= 2 on every platform; for any p, the bits of the platform's mask |
| AddrPrefix.ShortPrefixIsExactIff | src/util.c:328 | The mask is right for every address if and only if the platform's shift leaves all the low bits set |
| AddrPrefix.ModularShiftMasksNothing | src/util.c:328 | With shift counts taken modulo 32, prefix 0 changes no address |
| AddrPrefix.MaskIPv6 | src/util.c:335-355 | The bytes masked in place are the address with all but the first p bits cleared, for every integer p |
| AddrPrefix.MasksCompose | src/util.c:305-355 | Two masks are one with the shorter prefix |
| AddrPrefix.MaskedNumber | src/util.c:305-355 | The masked address is the number rounded down to a multiple of two to the number of bits behind the prefix |
| AddrPrefix.BytesAreBigEndian | src/util.c:335-355 | The bits of an address are those of its big-endian bytes |
| AddrPrefix.EvaluationsMaskToShortest | src/exp.c:1166-1190 | After any sequence of evaluations the constant is masked to the shortest prefix so far |
| AddrPrefix.InPlaceMaskingIsStable | src/exp.c:1166-1190 | Masking the operand in place gives the value of the expression for every address if and only if no earlier prefix was shorter |
| Dnsbl.CountBlocks | src/modules/dnsbl.c:65-75 | The colon count less the colons at the two ends |
| Dnsbl.BlocksAreGroups | src/modules/dnsbl.c:65-75 | For every text with a double colon this is the number of groups spelled out |
| Dnsbl.Template | src/modules/dnsbl.c:77-79 | Thirty-two zeroes and dots, the domain and the terminator; nothing behind is touched |
| Dnsbl.ScanText | src/modules/dnsbl.c:81-104 | The scan of every valid text stays inside the template and the text, and ends with the nibbles of the address |
| Dnsbl.NibbleIsDigit | src/modules/dnsbl.c:81-104 | Nibble 4k + j is digit j of group k of the expanded address, counted from the right |
| Dnsbl.Transcribe | src/modules/dnsbl.c:81-104 | The loop writes those nibbles over the even places of the template and nothing else |
| Dnsbl.Lower | src/util.c:1058-1076 | Every character before the terminator in lower case, nothing else changed |
| Dnsbl.LowerKeepsDigits | src/util.c:1058-1076 | Lower case keeps the number of a hexadecimal digit and leaves no capitals |
| Dnsbl.Ipv6Query | src/modules/dnsbl.c:47-109 | -1 and an untouched buffer exactly if it is too small; otherwise the scanned nibbles with dots, the domain, all in lower case; for the text of every address these are the 32 digits of the expanded address from the right |
| Dnsbl.QueryIsHexIff | src/modules/dnsbl.c:81-104 | The nibbles are hexadecimal digits if and only if the text is, colons apart, so a text with a dotted part never gives the query of an address |
| Dnsbl.MappedAddress | src/modules/dnsbl.c:81-104 | For every IPv4-mapped address the scan stays inside the template and leaves dots among the nibbles |
| Regdom.Regdom | src/regdom.c:292-333 | The pointer loop returns the suffix that the walk over strings finds, for every name, NULL and leading dots included |
| Regdom.LeadingDot | src/regdom.c:305-308 | A name that starts with a dot has none |
| Regdom.RegdomIsEnd | src/regdom.c:292-333 | For every name and table the result is an end of the name, at a label |
| Regdom.RegdomIsFirstRule | src/regdom.c:310-333 | On a name of labels, the longest suffix with a rule decides: exception, wildcard or plain |
| Regdom.RegdomIsRegistrableIff | src/regdom.c:292-333 | For every rule table and every name without empty labels, the result is that of publicsuffix.org if and only if no rule lies below the prevailing exception and the name is not a wildcard's own name of several labels without a wildcard at its parent |
| Regdom.RegdomFollowsPublicSuffix | src/regdom.c:292-333 | With no rule below an exception, the results agree for every name that is not a wildcard's own |
| Regdom.WildcardHidesItsName | src/regdom.c:318-321 | `kawasaki.jp` under `jp` and `*.kawasaki.jp`: none instead of itself |
| RegdomRules.SplitLines | src/regdom.c:195-197 | The lines that strtok_r yields |
| RegdomRules.LoadRules | src/regdom.c:177-277 | From the text of the file, through its lines and their entries with punycode twins, to the table, or to nothing at the first name that occurs twice |
| RegdomRules.CommentMark | src/regdom.c:199-204 | A comment starts at the first two slashes in a row, and only there |
| RegdomRules.CommentLineHasNoRule | src/regdom.c:199-219 | A line that is only a comment, or empty, enters nothing |
| RegdomRules.ParsedWritten | src/regdom.c:224-247 | Every rule as publicsuffix.org writes it is read back with its marks, in lower case |
| RegdomRules.NormalName | src/regdom.c:243-247 | In ASCII a name is stored in lower case, in another alphabet as it is |
| RegdomRules.OptionalPoint | src/regdom.c:224-234 | The point of a wildcard rule is optional |
| RegdomRules.BlanksBelongToName | src/regdom.c:199-212 | A rule with any marks, followed by blanks and possibly a comment, is the rule meant if and only if there are no blanks; otherwise they belong to its name |
| RegdomRules.FileLoads | src/regdom.c:177-277 | A file of rules, with or without comments, comment lines and empty lines in any order loads if and only if no name is entered twice, punycode twins included, and its table is exactly what its rules enter |
| Base64.InitDecoder | src/base64.c:8-29 | The table inverts the alphabet; elsewhere it has -1 where char is signed and 255 where it is not |
| Base64.AlphabetIsEncoder | src/base64.c:7 | The alphabet is the encoder string |
| Base64.Encode | src/base64.c:37-93 | -1 exactly for missing arguments or a small buffer, which is then untouched; otherwise the encoded text, its terminator and its length |
| Base64.EncodeGroups | src/base64.c:64-78 | The characters of all groups, zero bytes standing in past the end |
| Base64.Pad | src/base64.c:81-90 | Patching the padding afterwards gives the encoded text |
| Base64.EncodedIsBitStream | src/base64.c:64-90 | The text is the bit stream of the bytes cut into sextets, completed by zero bits, then padding to a multiple of four, as in section 4 of RFC 4648 |
| Base64.Decode | src/base64.c:140-219 | For signed and unsigned char: accepts exactly the accepted texts whose size fits, returns that size, and writes the decoded bytes inside the buffer and nothing else, in all error cases too; from six padding characters on, the last byte it claims has not been written |
| Base64.AcceptsIff | src/base64.c:160-206 | Accepted are the texts of whole groups that, where char is signed, have only the alphabet and padding at the end |
| Base64.ForeignRejectedIff | src/base64.c:203-206 | Texts with foreign characters are rejected if and only if char is signed |
| Base64.DashesAccepted | src/base64.c:203-206 | `----` decodes to three bytes where char is unsigned, and is rejected where it is signed |
| Base64.DecodeGroups | src/base64.c:182-216 | The groups before the first foreign character are decoded as far as the buffer reaches |
| Base64.EncodedAccepted | src/base64.c:119-180 | Every encoded text is accepted, with the length of its input |
| Base64.RestoredBytes | src/base64.c:182-216 | A buffer filled from an encoded text starts with the input, whatever its size beyond that |
| Base64.RoundTrip | src/base64.c:335-346 | Encoding and decoding restores every non-empty byte string, into any buffer of sufficient size, without a write behind it |
| Base64.SurplusPadding | src/base64.c:119-137 | The size returned is covered by the decoded groups if and only if there are fewer than six padding characters |
| Base64.SurplusPaddingClaimsTooMuch | src/base64.c:119-137 | `QQ======` is accepted with four bytes, of which three are decoded |

## Left out

- Sockets, the select loop, signals, privilege dropping, libmilter callbacks, message modification, pipes and tarpitting: input and output, or thin layers over foreign calls. Handlers of the rule interpreter are arbitrary functions.
- SQL, Berkeley DB and MongoDB drivers, and the query modules for spamd, ClamAV, p0f, SPF and GeoIP: they depend on engines and servers that are not part of this model.
- Threads: database accesses of two connections do not interleave between the get and the set of one evaluation, and the client thread's events are atomic, as its mutex makes them.
- The schedule loops of dbt_janitor and the sweep by SQL: sweeps happen at arbitrary times, over arbitrary sets of records.
- List and table fields of records, which are packed as text and cannot be unpacked as lists; the collision counter of the hash table, which is decremented twice for a chain.
- Linked lists (src/ll.c) and the chains of the hash table are sequences; aliasing of nodes and memory ownership are not modelled.
- Allocation failure, logging, overflow of 64-bit times and of the 32-bit bucket count.
- greylist_pass, greylist_listed and the cached greylist_* symbols, which show whether a record exists.
- AclProofs.InliningPreservesMeaning: conditions, replies and handlers do not read the acl_* symbols, which do change when a call is inlined.
- GreylistRuns.VisaKeepsPassing: a message comes less than 2^31 seconds after the creation of the record, since the code keeps the elapsed time in an int.
- Replication: of a record whose data does not fit the send buffer only the bare name is sent, which counts as sent.
- Dnsbl.Ipv6Query: texts whose scan would leave the template, where the code writes over the domain or past it; no hexadecimal text of an address and no IPv4-mapped one does.
- RegdomRules.LoadRules: the punycode translation itself, which is an arbitrary function.
- Base64.Decode: with signed characters, those above 127, which index in front of the decoder, and the byte before a text of padding characters only, which the C loop reads.
- Greylist.Engine.Action: symbols that the code follows without a check are set, the time of receipt and, outside the envrcpt stage, the recipient list.
- Exp: expressions are evaluated over fixed leaves; assignments inside a condition are not modelled. The comparison with the manual is for leaves that do not fail.
- Ternary, comparison, arithmetic, regular expression and list operators of expressions are leaves.
