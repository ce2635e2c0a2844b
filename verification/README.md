# Verified models of sub-sdk

sub-sdk is a Go utility library. This project models its stateful and algorithmic parts in
Dafny and proves what they guarantee, over all inputs and all runs:

- **WebSocket hub** (`HubProtocol.dfy`, `HubRuns.dfy`, `Hub.dfy`). The hub goroutine, one bounded
  channel per client, the writer goroutines and the readers' broadcasts as one step system. A
  broadcast is one step per client, so writers interleave with it. The hub and the channels are
  also classes whose methods are the branches of `Run` and one batch of `writePump`.
- **Two-level cache** (`CacheModel.dfy`, `CachedConn.dfy`). A table, a cache with expiries, index
  and primary lookups, and writes that delete keys; which keys a write has to delete.
- **Splitting archiver** (`ArchiveModel.dfy`, `Archives.dfy`, `EntryNames.dfy`). Directory trees, the
  walk, greedy packing into parts, unpacking, exactly when packing and unpacking is the identity, and
  where entry names lead.
- **Search compiler** (`SearchTag.dfy`, `SearchModel.dfy`, `SqlReader.dfy`, `LikePatterns.dfy`,
  `SearchQuery.dfy`, `SearchShapes.dfy`, `SearchMeaning.dfy`, `SearchObjects.dfy`). Structs with search
  tags compiled to where, join and order clauses. `SqlReader` reads such clauses back from their text,
  `SearchMeaning` says what the tags ask for from theirs, and the two are shown to agree; and which
  structs always mean what they search for.
- **Fractional ordering** (`SortKeys.dfy`), **token refresh** (`TokenChain.dfy`), **JSON escaping**
  (`JsonEscape.dfy`) and **name converters** (`NameText.dfy`, `Names.dfy`, `NamingFormat.dfy`).

`Text.dfy` holds `strings.Join` and `strings.Split`, `Wrappers.dfy` the option and result types, and
`Arithmetic.dfy` a distributive law.

Loops of the source are methods with invariants, tied by `ensures` to a function; objects whose
methods update fields are classes. The lemmas then say what those functions guarantee.

## What the proofs bring to light

Where a property does not hold for all inputs, the condition under which it does is proved in both
directions.

- `BatchExecCtx` deletes the keys of the old rows only. A batch that moves a row to a new index
  value leaves a cached not-found for that value in place (`BatchCanHideARow`); it is safe exactly
  when no row has a new key after the write (`BatchIsSafeExactly`).
- With two unique indexes on a table, filling one index entry can shorten the row entry that
  another index entry relies on. A live index entry has a live row entry in every run exactly when
  fills take at most 5 seconds and expiries spread by at most 5 seconds, the second unless rows have
  a single unique index (`PairLawExactly`). How far the expiries handed to the index callback spread is
  up to the cache library, which is not part of this model.
- `CompressAndSplitFiles` on a single regular file stores it under the name `.`. Unpacking recreates it
  in the destination's own place, exactly if no directory is there; a tree comes back exactly if no
  file is there (`TarRoundTrip`).
- Two fields on one column with one operator share a clause text, so the later one silently replaces
  the earlier one (`SecondFieldDecides`).
- A contains, startswith or endswith field that is not a string searches for what reflection prints
  for its type: contains with the number 5 finds the text `<int Value>`, and neither `5` nor the number
  (`PatternOnNumber`). A pattern field asks what it should exactly if it is a string
  (`PatternMeansExactly`).
- Together: a struct's condition means the search for all values of its fields exactly when its pattern
  fields are strings and no two fields of one condition set the same clause, other than isnull and
  other than a strict comparison with a slice as the later field, which nothing passes
  (`MeansSearchExactly`).
- The LIKE patterns are exact only for values without percent, underscore and backslash, but for a
  last backslash in endswith (`PlainValuesExactly`, `EndsWithExactly`).
- `EscapeJson` replaces at most 1000 of each character, and leaves other control characters raw
  (`EscapeJsonIsOnePassExactly`, `EscapeJsonRoundTrip`).
- `CalculateSort` drops the errors of steps 2 to 4. After a failed lookup it returns a taken key as
  free, and after a failed neighbour query a key that another row may have (`FailureCanRepeatAKey`). A
  nil id has the effect of a failed lookup (`NoIdCanRepeatAKey`). `AnswerIsSafeExactly` says when
  storing one answer is safe, and `RunsKeepKeysApartExactly` when a whole run is.
- `CheckToken` panics on a text that is not three parts between dots, the empty one included, because
  `ParseToken` reads the claims before it looks at the error (`TextsThatPanic`).
- `SnakeString` and `ToSnake` differ on a name whose leading underscores are directly followed by a
  capital, and on blank text that is not empty (`SnakesAgreeExactly`).

Where the code and its comments disagree, the code is modelled: the comment on `CheckToken`
(`jwtx/jwtx.go:136`) promises a new token for an expired one, but `ParseToken` returns an error for
it and `CheckToken` rejects it; the constants above `ResolveSearchQuery` (`gormx/query.go:15-26`)
describe `iexact` as ignoring case, but it compiles to the same `=` as `exact`, and `contains`,
`startswith` and `endswith` as respecting case, but on Postgres they compile to `ILIKE` as their
counterparts do.

## Model

| member | source | states |
|---|---|---|
| HubProtocol.CleanIsNewlineFree | websocketx/client.go:72-73 | no message handed to the hub contains a newline |
| HubProtocol.CleanExactly | websocketx/client.go:72-73 | what the hub is handed is the text received, with a space for every newline and without the white space at both ends, and nothing else is |
| HubProtocol.WhiteSpaceExactly | websocketx/client.go:72 | which code points are trimmed |
| HubProtocol.TrimIsInfix | websocketx/client.go:72 | trimming drops only white space, only at the two ends, and leaves none there |
| HubProtocol.ActKeepsConn | websocketx/client.go:87-119 | every writer step keeps: taken then queued is the client's slice of the log, at most 256 are queued, and the frames, split on newline, are what was taken |
| HubProtocol.StepKeepsInv | websocketx/hub.go:29-54 | every step of hub, writers and readers keeps the whole invariant: map membership is an open channel, every connection holds its slice |
| HubProtocol.HubIsReady | websocketx/hub.go:30-53 | between fan-outs the hub takes every request, and during one exactly the deliveries still to do |
| HubProtocol.WriterIsReady | websocketx/client.go:87-117 | an idle writer waits for a message or the close, a batch never waits, and a writer that returned does nothing |
| HubProtocol.FailuresEndTheWriter | websocketx/client.go:97-116 | each failing call ends the writer, sends nothing, and loses no message but the one a failed NextWriter took |
| HubProtocol.ClosedChannelYieldsNothing | websocketx/client.go:107 | a receive from a drained closed channel writes an empty message, which no run comes to |
| HubRuns.StreamsAreSlices | websocketx/hub.go:41-51 | in every run, taken then queued is the contiguous slice of the broadcasts from the client's start to its end, and no queue exceeds 256 |
| HubRuns.StreamsAreCleaned | websocketx/client.go:72-73 | message by message that slice is what the readers received, cleaned |
| HubRuns.SliceStartsAtRegistration | websocketx/client.go:129-134 | the slice starts with the first message broadcast after registration, whatever follows |
| HubRuns.SliceEndsAtCutOff | websocketx/hub.go:35-50 | the slice ends, for good, with the last message before the unregistering or before the message that found the queue full |
| HubRuns.MembersAreOpen | websocketx/hub.go:31-51 | in every run a registered client is in the map if and only if its channel is open; no step sends on or closes a closed channel |
| HubRuns.BatchReceivesAreReal | websocketx/client.go:103-107 | after the length snapshot every receive of the batch is ready and yields a real message, whatever the hub did meanwhile |
| HubRuns.PeersReadTheSlice | websocketx/client.go:87-110 | splitting frames on newline gives a prefix of what was taken, all of it between frames, and the whole slice once the close frame is sent |
| HubRuns.SlowClientIsDropped | websocketx/hub.go:41-50 | with q messages queued and nothing taken, a client is dropped by exactly the (257 - q)-th message offered from then on, an unfinished fan-out included |
| HubRuns.DrainsBeforeClosing | websocketx/client.go:89-95 | a live writer of a cut-off client reaches the close frame by its own steps and by then has sent its whole slice |
| HubRuns.FanOutInAnyOrder | websocketx/hub.go:42-51 | delivering to the clients in any order is possible and reaches one and the same state |
| HubRuns.FanOutOffers | websocketx/hub.go:42-51 | that state has the message queued for every client with room and the others closed and out of the map |
| HubObjects.Hub.constructor | websocketx/hub.go:20-27 | a new hub has no clients |
| HubObjects.Hub.Register | websocketx/hub.go:32-34 | adds exactly the client, and every member stays open |
| HubObjects.Hub.Unregister | websocketx/hub.go:35-40 | removes and closes a member, and leaves a stranger as it is |
| HubObjects.Hub.Broadcast | websocketx/hub.go:41-51 | for every visiting order, every member is offered the message once, and exactly those with room remain |
| HubObjects.Client.WriteBatch | websocketx/client.go:89-111 | sends everything queued as one frame, which splits back into the messages; an empty closed channel means the close frame; a failing call sends nothing and loses what was taken |
| HubObjects.BatchSteps | websocketx/client.go:89-111 | the steps of an uninterrupted pass in the step system leave channel, frames and writer as WriteBatch does, failures included |
| CacheModel.Answer | gormx/cachedgorm.go:164-170 | an index answer is the primary key of a row with that value, or not-found when there is none |
| CacheModel.UncachedExactly | gormx/cachedgorm.go:164-170 | an uncached query finds exactly the row with the primary key or the unique value |
| CacheModel.RowKeysExactly | gormx/batchx/batchx.go:11-12 | a row has the key of its primary key and one for each of its unique values |
| CacheModel.TakePrimaryIsTransparent | gormx/cachedgorm.go:183-191 | on a coherent cache a query by primary key returns the uncached row or not-found, and the cache stays coherent |
| CacheModel.QueryIndexIsTransparent | gormx/cachedgorm.go:155-180 | the same for a query by unique index, hit or miss, however long filling takes |
| CacheModel.LookupIsCached | gormx/cachedgorm.go:183-191 | a lookup is repeated from the cache, whatever becomes of the table, exactly until its expiry, found or not |
| CacheModel.IndexLookupIsCached | gormx/cachedgorm.go:164-179 | so is a lookup by index, which stores the row for 5 seconds more and then the index entry, and touches no other key |
| CacheModel.IndexHitLooksUpRow | gormx/cachedgorm.go:177-179 | a live index entry whose row is not cached leads to a lookup of the row, stored as such a lookup is |
| CacheModel.TicksPass | gormx/cachedgorm.go:22 | between operations time passes and nothing else happens |
| CacheModel.ChangedAnswersAreTouchedKeys | gormx/cachedgorm.go:109-118 | a key whose answer a write changes is a key of a touched row as it was or as it is |
| CacheModel.ForgetChangedAnswersExactly | gormx/cachedgorm.go:109-118 | deleting keys after a write keeps every coherent cache coherent if and only if they include every key whose answer changed |
| CacheModel.CoveringKeysAreSafe | gormx/cachedgorm.go:109-118 | deleting the keys of all touched rows, before and after, is enough |
| CacheModel.BatchIsSafeExactly | gormx/batchx/batchx.go:26-38 | keys from the old rows alone are safe if and only if no changed row has another key after the write |
| CacheModel.BatchCanHideARow | gormx/batchx/batchx.go:26-38 | a concrete batch after which a query by index reports not-found for a row that exists |
| CacheModel.CachedRunsReturnUncachedRows | gormx/cachedgorm.go:109-191 | every run of queries, covering writes, batches and ticks returns query by query what it returns without a cache |
| CacheModel.LiveIndexHasLiveRow | gormx/cachedgorm.go:164-179 | after every run at a safe pace, with any number of indexes, a live index entry leads to a live row entry and no query follows it |
| CacheModel.PairLawExactly | gormx/cachedgorm.go:22 | over all runs from an empty cache a live index entry has a live row entry if and only if fills take at most the gap and, unless rows have one unique index, expiries spread by at most the gap |
| CacheModel.FillKeepsPairExactly | gormx/cachedgorm.go:164-171 | filling a miss keeps every live index entry outlived by its row entry if and only if it takes at most 5 seconds and no other live index entry of the row expires after the row entry it stores |
| CacheModel.SpreadBreaksThePair | gormx/cachedgorm.go:164-171 | whenever expiries spread by more than the gap, two fills of a row with two unique indexes break the law |
| CacheModel.SlowFillBreaksThePair | gormx/cachedgorm.go:164-171 | whenever a fill can take longer than the gap, one fill breaks the law |
| CachedConnObject.CachedConn.TakeRow | gormx/cachedgorm.go:183-191 | the lookup by primary key, which on a coherent cache returns the uncached row and stays coherent |
| CachedConnObject.CachedConn.QueryRowIndexCtx | gormx/cachedgorm.go:155-180 | the lookup by index, which on a coherent cache returns the uncached row and stays coherent |
| CachedConnObject.CachedConn.DelCacheCtx | gormx/cachedgorm.go:89-91 | removes exactly the named keys |
| CachedConnObject.CachedConn.ExecCtx | gormx/cachedgorm.go:109-118 | a failed statement changes nothing, one that succeeds is followed by the deletes, and covering keys keep the cache coherent |
| CachedConnObject.CachedConn.BatchExecCtx | gormx/batchx/batchx.go:26-38 | no old rows, no statement; otherwise the statement and the old rows' keys |
| CachedConnObject.CacheKeysOf | gormx/batchx/batchx.go:47-59 | every key of every row, each once |
| CachedConnObject.UniqueKeys | gormx/batchx/batchx.go:62-76 | the same keys without repetition, for every map order |
| ArchiveModel.WalkListsTree | filex/tar.go:70-85 | the walk lists exactly what the tree has, under its path |
| ArchiveModel.WalkIsInOrder | filex/tar.go:70 | it lists everything once, and a directory before what is in it |
| ArchiveModel.WalkGoesDown | filex/tar.go:70 | it goes through the children in their order |
| ArchiveModel.PackingInvariant | filex/tar.go:105-114 | finished parts followed by the current one are the entries so far, the counted size is right, every finished part is just full |
| ArchiveModel.PartsAreJustFull | filex/tar.go:44-114 | parts in order are the entries once each; all but the last reach the limit only with their final file; (parts - 1) * limit is at most the total, and with no positive limit there is one part a file |
| ArchiveModel.ExtractStaysWithin | filex/tar.go:305-320 | extracting an entry of a tree succeeds, adds only things of the tree at or above the entry, and overwrites nothing with anything else |
| ArchiveModel.FileInTheWay | filex/tar.go:307-308 | a directory entry with a file in the way: DecompressTarGz goes on unchanged, UnzipDir stops |
| ArchiveModel.FileAboveFile | filex/tar.go:309-314 | a file entry with a file in the way of its directory: both stop |
| ArchiveModel.ExtractAllInOrder | filex/tar.go:297-321 | entries are extracted in their order, and none after the first that fails |
| ArchiveModel.PartsInOrder | filex/zip.go:55-102 | so are parts; UnzipDir makes the destination before the entries of each |
| Archives.CompressAndSplitFiles | filex/tar.go:38-121 | writes the walk in parts of which all but the last are just full under the limit, or under 10 GiB if that is less |
| Archives.ZipDirAndSplit | filex/zip.go:105-200 | writes the walk's files in parts of which all but the last are just full, directories left out |
| Archives.FilesOfConcat | filex/zip.go:156 | leaving directories out keeps the order of the files |
| Archives.FilesOfOne | filex/zip.go:156 | a file is kept and a directory is left out |
| ArchiveModel.MkdirAllMakesAncestors | filex/tar.go:308-310 | in a file system, making directories fails exactly at a file on the way and changes nothing then, and otherwise adds just the missing directories |
| Archives.Destination.MkdirAll | filex/tar.go:308 | the same of the directory as an object, which stays a file system |
| Archives.Destination.Create | filex/tar.go:311-318 | succeeds exactly where the directory exists, at the destination's own path always, and no directory is in the way; then the path holds the bytes, nothing else changes, and every file still lies in a directory |
| Archives.Destination.DecompressTarGz | filex/tar.go:283-323 | from any destination, present or absent, extracts the entries below it one by one, ignoring failures to make directories; every file ends up in a directory |
| Archives.Destination.UnzipDir | filex/zip.go:55-102 | makes the destination, then extracts the entries below it one by one and stops at the first failure; every file ends up in a directory |
| Archives.UnpackedParts | filex/tar.go:296-321 | unpacking parts in any order gives exactly what was there, the entries' paths and the directories above them |
| Archives.TarRoundTrip | filex/tar.go:70-118 | packing a tree and unpacking its parts in any order recreates exactly the tree if and only if the destination is absent or of the tree's own kind |
| Archives.UnpackedWalk | filex/tar.go:283-323 | from nothing, or from an empty directory, unpacking the walk of a tree in any parts and order gives the tree |
| Archives.ZipContents | filex/zip.go:152-199 | unpacking the zip parts of a directory in any order gives exactly its files and the directories above them |
| Archives.ZipRoundTrip | filex/zip.go:55-62 | the zip round trip recreates the tree if and only if no file is in the destination's place, the root is a directory and every directory in it has a file below |
| Archives.BaseRoundTrip | filex/tar.go:228-277 | keeping the top-level name, the round trip recreates files and directories alike, in an absent or an empty destination |
| EntryNames.NamesRoundTrip | filex/tar.go:75-85 | the name written for a path of the tree leads back to that path below the destination |
| EntryNames.TargetIsBelowExactly | filex/tar.go:305 | an entry's name leads below the destination if and only if it comes down again the way it went up |
| EntryNames.AlwaysBelowExactly | filex/zip.go:67 | it leads below every destination if and only if it goes up no further than it came down before |
| EntryNames.CleanedFromLeft | filex/tar.go:305 | how a name is cleaned, part by part |
| SearchTag.MakeTag | gormx/condition.go:76-109 | each key has the values of the last entry that gives it any |
| SearchTag.EntriesAndText | gormx/condition.go:78-81 | entries and tag text determine each other |
| SearchTag.LastEntryDecides | gormx/condition.go:85-107 | the last entry that gives a key a value decides it, whatever stands before |
| SearchTag.NoEntryNoValues | gormx/condition.go:85-107 | a key is empty if and only if no entry gives it a value |
| SearchTag.ParsedIsZero | gormx/query.go:57-71 | reading the tag texts of a struct keeps whether it is zero, skipped fields included |
| SearchMeaning.SaysAllExactly | gormx/condition.go:76-109 | the values read under a key are those of the last part between semicolons that has the key and a value, between colons |
| SearchMeaning.NameAsksExactly | gormx/query.go:15-29 | each documented type name asks of a cell what its documentation says, by either spelling |
| SearchMeaning.SourceMatchesExactly | gormx/query.go:49-135 | what a struct asks, said from its tag texts by name, table and column, is what its parsed form asks |
| SearchModel.ClauseTextIsInjective | gormx/query.go:138-143 | for names without the quote character, clause texts are equal if and only if table, column and operator are |
| SearchQuery.PassesIsHolds | gormx/query.go:88-125 | the text compiled for a clause, taken apart at the quotes and read by its operator, asks what the clause means |
| SqlReader.StringLessExactly | gormx/query.go:97-106 | texts compare by their first difference |
| SqlReader.NumbersAreOrdered | gormx/query.go:97-106 | numbers and times compare by size |
| LikePatterns.LikeByCharacter | gormx/query.go:90-119 | what each character of a pattern matches, which decides every pattern |
| SearchMeaning.JoinTextParts | gormx/query.go:146-171 | a join's text, taken apart at the quotes: left or inner, the table and the two columns |
| SearchMeaning.OrderTextParts | gormx/query.go:128-132 | an order's text, taken apart at the quotes: table, column and direction |
| LikePatterns.PatternsMean | gormx/query.go:90-119 | the three patterns match exactly the texts that contain, start with or end with a plain value |
| LikePatterns.PlainValuesExactly | gormx/query.go:90-113 | for startswith and contains that holds if and only if the value has no percent, underscore or backslash |
| LikePatterns.EndsWithExactly | gormx/query.go:114-119 | for endswith it holds if and only if the same is true but for a last backslash |
| SearchQuery.SetAllConcat | gormx/query.go:55-61 | resolving two lists of fields in turn is resolving them as one list |
| SearchQuery.ConditionKeepsLastExactly | gormx/condition.go:33-38 | a condition selects by exactly the settings that no later one with the same clause replaces |
| SearchQuery.SelectionKeepsLastExactly | gormx/search.go:48-72 | the same for a whole condition with its joins |
| SearchQuery.SettingsMean | gormx/query.go:49-135 | with patterns on strings, all settings of a struct hold on exactly the rows that satisfy every non-zero field, through nesting and joins |
| SearchQuery.SearchSelectsMatches | gormx/query.go:49-135 | with patterns on strings, and fields of one clause that agree on its arguments, the condition selects exactly the rows the search means |
| SearchShapes.MeansSearchExactly | gormx/query.go:49-135 | for all values of its fields a struct's condition selects exactly the rows the search means if and only if its pattern fields are strings and no two fields of one condition clash on a clause |
| SearchShapes.PatternMeansExactly | gormx/query.go:90-119 | a pattern field's clause asks what the field does if and only if the field is a string |
| SearchShapes.PatternOnNumber | gormx/query.go:90-95 | a contains field with the number 5 admits a printed type name, and neither the text 5 nor the number |
| SearchShapes.PrintedTypes | gormx/query.go:92 | what reflection prints for a value that is not a string |
| SearchShapes.SecondFieldDecides | gormx/condition.go:33-38 | of two fields that set one clause only the second is asked for, although the search asks for both |
| SearchShapes.ClashValues | gormx/query.go:87-121 | for any two fields that clash there are values of their types and a row that the second admits and the first does not |
| SearchShapes.ShapeClashFreeAgrees | gormx/query.go:49-135 | without clashing fields settings of one clause agree, or nothing passes the later one, whatever the values |
| SearchObjects.GormPublic.SetWhere | gormx/condition.go:33-38 | sets one clause's arguments and nothing else |
| SearchObjects.GormPublic.SetOrder | gormx/condition.go:47-52 | appends an order and nothing else |
| SearchObjects.GormCondition.AddJoin | gormx/condition.go:54-65 | appends a join and nothing else |
| SearchObjects.ResolveValue | gormx/query.go:87-133 | one field's branch of the switch sets what the field's settings say |
| SearchObjects.ResolveField | gormx/query.go:55-133 | reads the tag; a nested struct goes into the same condition, a join's struct into the join's own, a zero or skipped field nowhere |
| SearchObjects.ResolveSearchQuery | gormx/query.go:49-135 | from tag texts and values, where clauses, orders and joins end up as the settings in field order leave them |
| SearchObjects.AddWheres | gormx/search.go:63-65 | every clause once, for every map order |
| SearchObjects.AddJoins | gormx/search.go:48-62 | joins and their orders in order, with exactly their clauses |
| SearchMeaning.JoinsAreFields | gormx/query.go:77-86 | the joins of a condition are those of its join fields, in field order |
| SearchMeaning.OrdersAreFields | gormx/query.go:128-132 | the orders of a condition are those of its order fields, in field order |
| SearchObjects.QueryReads | gormx/search.go:48-72 | joins, orders of joins and own orders read as their tags say, in field order |
| SearchObjects.MakeCondition | gormx/search.go:41-74 | from tag texts and values to rows: the clauses, read as SQL, let through exactly what the tags ask when patterns are strings and clauses agree; joins and orders read as their tags say |
| SortKeys.MaxSortIsGreatest | gormx/sort.go:19-46 | the maximum query returns the greatest stored key, or none |
| SortKeys.MinAboveIsLeast | gormx/sort.go:49-52 | the minimum query returns the least stored key above, or none |
| SortKeys.CalculateSort | gormx/sort.go:15-67 | the key for a request whichever queries fail, with or without an id, and exactly when storing it keeps all keys apart |
| SortKeys.NewSortIsFreeAndAdjacent | gormx/sort.go:15-67 | the key is positive, free of other rows, and next to the one asked for; on a collision it is the midpoint below, or one more when nothing is above |
| SortKeys.StoreKeepsOrdered | gormx/sort.go:28-39 | storing a positive key keeps keys distinct if and only if no other row has it |
| SortKeys.RunsKeepKeysApartExactly | gormx/sort.go:15-67 | over runs with any failures and ids, all keys stay positive and pairwise distinct throughout if and only if each answer is safe at its turn |
| SortKeys.RunsKeepKeysApart | gormx/sort.go:15-67 | every run of requests with ids and without failures keeps all keys positive and pairwise distinct throughout |
| SortKeys.FailuresAreSafeExactly | gormx/sort.go:28-52 | with failing queries, storing the answer is safe if and only if the slot is free, or the lookup worked and the slot at half the key, or at one more, that a failed neighbour query leads to is free |
| SortKeys.AnswerIsSafeExactly | gormx/sort.go:28-39 | the same for the answer to a request with or without an id |
| SortKeys.FailureCanRepeatAKey | gormx/sort.go:43-61 | keys 1, 2 and 3, a request for 2 and a failed step 4 give 3 again |
| SortKeys.NoIdCanRepeatAKey | gormx/sort.go:30-39 | a request without an id for a slot that a row has gets that slot |
| SortKeys.ArrivalsHalve | gormx/sort.go:41-58 | new rows asking for one occupied slot line up halfway, halfway again, and so on |
| SortKeys.HalfwayClosedForm | gormx/sort.go:57-58 | k halvings from p towards s end at s - (s - p) / 2^k |
| SortKeys.HalvingLaw | gormx/sort.go:41-58 | so the k-th new row gets exactly s - (s - p) / 2^k |
| TokenChain.CheckToken | jwtx/jwtx.go:137-152 | panics exactly on a text without two dots; otherwise accepts exactly a verified token that is in time, and returns the signed renewal exactly when one is due, for all three readings of the clock |
| TokenChain.TextsThatPanic | jwtx/jwtx.go:109-117 | the empty text, a text without dots and a bare prefix panic |
| TokenChain.BearerIsOptional | jwtx/jwtx.go:241-247 | a signed token reads the same with and without a bearer prefix in any case, and never panics |
| TokenChain.StripBearerExactly | jwtx/jwtx.go:241-247 | exactly a prefix of seven characters that reads BEARER and a space in capitals goes, and nothing else |
| TokenChain.SurvivesFrom | jwtx/jwtx.go:137-152 | from any live token of a chain, calls less than half a lifetime apart are never rejected |
| TokenChain.SafePaceExactly | jwtx/jwtx.go:77-152 | a gap keeps every session of a new token alive if and only if it is less than E - E/2 |
| TokenChain.RenewalsAreSpaced | jwtx/jwtx.go:143-149 | k refreshes take at least k * (E/2 + 1) seconds |
| TokenChain.RenewalsKeepIdentity | jwtx/jwtx.go:143-149 | every token of a chain names the same user and lives for the same time from its own refresh |
| TokenChain.IssuedTokenReadsBack | jwtx/jwtx.go:187-216 | the readers of a token issued give the user, role, department and names it was issued for, from its issue until before its expiry and at no other time |
| TokenChain.RenewedTokensReadBack | jwtx/jwtx.go:143-149 | so do they for every token of a chain of CheckToken from it |
| TokenChain.ErrorsOfIssuedToken | jwtx/jwtx.go:117-129 | an expired token is reported as to be refreshed, one used before its issue as invalid |
| JsonEscape.ReplaceStrings | cryptx/decode.go:93-104 | whole passes in order over any texts, the empty one included, or the text unchanged when it is empty or the lists differ in length |
| JsonEscape.ReplaceTextFromLeft | cryptx/decode.go:101 | each replacement takes the leftmost occurrence and goes on behind it |
| JsonEscape.ReplaceTextNowhere | cryptx/decode.go:101 | without an occurrence, or a replacement left, the text stays |
| JsonEscape.ReplaceTextEmpty | cryptx/decode.go:101 | the empty text is found before each character and at the end |
| JsonEscape.EscapeByCharacter | cryptx/decode.go:120-121 | what each of the seven characters becomes |
| JsonEscape.FewSpecialsExactly | cryptx/decode.go:101 | the limit is 1000 for each of the seven characters |
| JsonEscape.RawControlExactly | cryptx/decode.go:120 | the control characters that are not among the seven |
| JsonEscape.NextPass | cryptx/decode.go:100-102 | a later pass touches none of the escapes of an earlier one |
| JsonEscape.EscapeJson | cryptx/decode.go:119-123 | the result is the one-pass escape, and reads back as the input, exactly under the two conditions below |
| JsonEscape.EscapeJsonIsOnePassExactly | cryptx/decode.go:93-123 | the seven passes are a single-pass escape if and only if no special character occurs over 1000 times |
| JsonEscape.EscapeThenUnescape | cryptx/decode.go:119-123 | unescaping by section 7 of RFC 8259 undoes the one-pass escape, unless a control character was left raw |
| JsonEscape.UnescapeByName | cryptx/decode.go:119-123 | the escapes of section 7 of RFC 8259, one of each kind |
| JsonEscape.EscapeJsonRoundTrip | cryptx/decode.go:119-123 | unescaping what EscapeJson returns gives the input if and only if no special character occurs over 1000 times and there is no other control character |
| NameText.SplitWords | format/format.go:122-157 | splits before capitals and at underscores |
| NameText.SplitBy | stringx/string.go:120-143 | splits by a test on characters, which are dropped or start the next word |
| NameText.SplitJoined | format/format.go:140-156 | splitting undoes joining whole words with a separator |
| NameText.SplitConcatenated | format/format.go:149-156 | splitting undoes plain concatenation when every later word starts with a capital |
| NameText.SplitAt | stringx/string.go:126-138 | a separator ends what is before it, and a start does so and begins what is after it, wherever they are |
| NameText.SplitInside | stringx/string.go:136-141 | text without either is one word |
| NameText.LettersPair | stringx/fmt.go:31 | the two cases of the letters, in the order of the alphabet |
| NameText.CharactersByKind | stringx/fmt.go:22 | which characters are letters and digits |
| NameText.BlankExactly | stringx/string.go:121-123 | which characters a blank text consists of |
| NameText.TitleByLetter | stringx/string.go:82-89 | title style letter by letter |
| Names.SnakeString | stringx/fmt.go:13-32 | the byte loop computes the snake form |
| Names.CamelString | stringx/fmt.go:42-64 | the byte loop computes the camel form |
| Names.CamelUndoesSnake | stringx/fmt.go:13-64 | on [A-Z][A-Za-z0-9]* the snake form is a canonical snake name and CamelString restores the name |
| Names.SnakeUndoesCamel | stringx/fmt.go:13-64 | on canonical snake names CamelString gives such a name and SnakeString restores it |
| Names.CamelOfWords | stringx/fmt.go:42-64 | on words of letters and digits joined with underscores, of any case, the first letter is raised, a lower-case letter after an underscore is raised in its place, and everything else stays |
| Names.ToSnake | stringx/string.go:71-79 | split before capitals, lower, join with underscores |
| Names.ToCamel | stringx/string.go:57-67 | split at underscores, title, join |
| Names.ToCamelOfWords | stringx/string.go:57-67 | on words joined with underscores it is each word in title style |
| Names.SnakesAgreeExactly | stringx/string.go:71-79 | the two snake converters agree except exactly on blank non-empty text and on leading underscores directly before a capital |
| NamingFormat.GetStyle | format/format.go:160-172 | for any flag, the first of lower, upper and title that it is written in, and none when there is none |
| NamingFormat.OnlyStyle | format/format.go:160-172 | a flag that reads GO or ZERO is written in one style at most |
| NamingFormat.DoFormat | format/format.go:87-105 | words in their styles between the template's texts |
| NamingFormat.FormatsItself | format/format.go:87-105 | a format formats go_zero to itself |
| NamingFormat.FormattedNames | format/format.go:87-105 | the name is the text before the flags, the words cased like the flags with the text between them, and the text after |
| NamingFormat.FormatsWords | format/format.go:87-157 | so it is for whole words joined with underscores |
| NamingFormat.FormatsGluedWords | format/format.go:87-157 | and for words glued together at their capitals |
| NamingFormat.ReadsByIndex | format/format.go:47-64 | a format is a template with its flags first of their kind if and only if slicing at the two searches gives its parts |
| NamingFormat.ReadsOneWay | format/format.go:46-75 | a format reads as at most one template |
| NamingFormat.ParseFormat | format/format.go:46-81 | finds that template, fails exactly when there is none, and calls the format unsupported exactly when the flags do not occur in order |
| NamingFormat.HasFlagsExactly | format/format.go:47-52 | the flags occur in order if and only if there is a first ZERO and a GO no later |
| NamingFormat.FileNamingFormat | format/format.go:46-84 | formats by that template, go_zero to the format itself; reports an error exactly when there is none, and which of the two errors |
| NamingFormat.FormatRoundTrip | format/format.go:46-105 | snake names of lower-case words go to GoZero or goZero and back to go_zero unchanged |
| NamingFormat.ConvertersAgree | stringx/string.go:57-79 | on such names the formatter, ToCamel, CamelString, ToSnake and SnakeString agree in both directions |

## Left out

- HubObjects.Client.WriteBatch: is one pass that the hub does not interrupt; interleavings with the hub are in the step system of `HubProtocol`, whose uninterrupted case it is.
- Sockets, deadlines, ping tickers and the HTTP upgrade: a writer may fail at any of its connection calls, as a step of its own.
- Readers that end without unregistering: the source has that call commented out; `Unregister` is a step that any run may take.
- The cache library itself: single flight, JSON, jittered expiries and redis become a map with expiry times and the contract stated at the top of `CacheModel.dfy`.
- Interleaved readers and writers of the cache, failing deletes and cache store errors: runs are sequential; a failed statement is taken to be rolled back.
- CacheModel.PairLawExactly: a row's primary key is deleted together with its other keys, as covering writes do; deleting it alone leaves index entries without a row entry at once.
- Other queries of `gormx/cachedgorm.go` that bypass the cache, tracing spans and `GetCache`/`SetCache`: forwarding calls.
- Compression, file modes, symbolic links, operating-system errors and the names of part files: an archive is a sequence of entries.
- Path strings on disk: paths are sequences of names below the destination, and `EntryNames` says which entry names lead there, for an absolute destination; names that lead elsewhere are not extracted in this model.
- `CompressFilesOrFolds`, `ZipDir` and `ZipDirBase`, the forms without splitting: the same walk into a single part.
- Archives.CompressAndSplitFiles: the walk is its input, so an error while walking, which ends the source's run, does not occur.
- SearchObjects.ResolveSearchQuery: panics of the source are preconditions (joins inside joins or with fewer than two `on` names, unless zero, and untagged fields that are not structs), and so is that a struct other than a time, under a tag that compares values, is zero.
- LikePatterns.EndsWithExactly: a last backslash means itself here; a database that rejects such a pattern reports an error instead.
- Value types other than strings, integers, times and slices, SQL three-valued logic beyond NULL failing every comparison, and `Or`, which a search never sets.
- `SearchKey`, `Paginate`, `SortBy` and `GetSortBy`: SQL text or a single lookup.
- SortKeys.HalvingLaw: over exact reals; float64 rounding, which ends the halving after some fifty steps, is not modelled.
- JWT signing and hashing: two opaque functions that undo each other; what the library does with a text that is not three parts is taken from its version 4.5.1, which is not part of the repository. The context readers are left out.
- Text beyond ASCII in the name converters; `Title` is upper-first and lower-rest, which is what the library does on a single word.
- Encryption, encodings, code generation, configuration, storage clients, notifications and the other packages: library wrappers or small folds.
