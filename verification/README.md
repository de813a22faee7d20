# CloudID: a verified model

CloudID answers the metadata requests of bare metal hosts and containers: who may log in, with which keys,
and how the machine is to be installed. Watchers copy identity data, host objects and container lists into
shared state; a cache of resolved metadata is rebuilt whenever a source changes; requests are answered from
the cache or resolved on demand, and installation configs are made by merging identity into a base config or a
stored template. This project models that core in Dafny and proves what it promises.

| module | models |
|---|---|
| `Text`, `LineLaws`, `Ordering`, `Model` | strings, radix printing and parsing, lines, sort and dedup, the entities |
| `Access`, `Resolve`, `ResolveLaws` | host and container resolution: loops against a description with sets, and that in the words of the tables |
| `Cache`, `CacheLaws`, `ImdsTokens` | the shared state: cache rebuild, lookup on demand, session tokens |
| `RebuildProtocol`, `RebuildProgress` | any number of concurrent tasks with first-come-first-served locks, step by step: safety and progress |
| `Ignition`, `IgnitionLaws`, `IgnitionUsersLaws`, `Percent` | merging identity into Ignition configs |
| `Kickstart`, `KickstartLaws`, `KickstartUsersLaws` | merging identity into kickstart files |
| `Substitution`, `TemplateVariables`, `Calendar`, `TemplateStore` | template variables, timestamps, the two-file store |
| `Framing`, `BmhWatcher` | the watch stream and the state it maintains |
| `Persistence`, `KeyIndex` | state saved to files, the key index between server and agent |

Loops and objects of the source are methods and classes here. Each is proved against a specification function,
and the lemmas are about those functions. What the functions answer is stated once more in the words of the inputs:
the tables, the arguments, and the literal texts of the formats.

## What the proofs found

- The answer of `resolve_host` depends on the order in which a hash map is walked, in the `sudo` field alone.
  It does not exactly when all matching rules that reach a user agree on sudo, or the host does not resolve.
- A comment in `resolve_host` says that `None` means "no enabled users with keys". The code answers with empty
  key lists when the users it finds have no keys. The model follows the code.
- A comment in `resolve_container` promises keys for the owner, admin and root. An owner who is root gets no entry for
  admin.
- `debug_state` takes three locks in the opposite order of all others, and a run of four tasks deadlocks. Work can
  get stuck exactly when it can come to a crossing: a debug request and a rebuild or lookup that each hold a lock
  the other waits for, each behind a writer. Such a pair stays as it is for good.
- Merging into an Ignition config is idempotent on all bases exactly when identity users of one name carry the
  same set of keys, and the resolvers' results satisfy that.
- Merging into a kickstart file never leaves a text as it is when identity contributes a line, and with the
  resolvers' results it always does. Without such lines it is idempotent exactly when the host name is set already
  or is inserted in front of a section, the last line is not empty, and no other line, inserted or not, ends in a
  carriage return.
- The eight template replacements are one simultaneous substitution that leaves no placeholder, for every
  content, exactly when each of the eight values keeps apart from each placeholder. An empty domain suffix, which
  the configuration allows, does not: the content `{{TEMPLATE_NA{{DOMAIN_SUFFIX}}ME}}` shows it.
- After a removal of a oneshot mark whose save failed, every retry is answered 404 and the mark is back after
  a restart, unless some other request is saved in between.
- Template names that end in `.meta.json` break the store, and no others do.
- A host announced at a new address keeps the old one as well. A mapping ends only with a refresh that succeeds,
  the deletion of the host, or an announcement at that address.
- The agent misses users whose names hold a line feed or end in a carriage return, and only then.

## Model

The results come first, the operations they are about after them.

| member | source | states |
|---|---|---|
| `RebuildProtocol.RunKeepsInv` | src/cache.rs:144-200 | In every state of every run, with any number of tasks and any interleaving of writes, clears shard by shard and inserts one by one: locks are exclusive, queues hold exactly the waiting tasks, each working rebuild's snapshot is the current state, and every wrong or stale entry is some task's remaining business. |
| `RebuildProtocol.ExclusiveStep` | src/cache.rs:145-147 | Every step keeps each writer alone on its lock, whatever the queues hold. |
| `RebuildProtocol.SnapshotsStep` | src/cache.rs:145-172 | No step changes a source while a rebuild is clearing or in one of its passes. |
| `RebuildProtocol.CoveredStep` | src/watcher/bmh.rs:307-327 | Every step keeps: an entry that differs from what the current state resolves to is still owed by a writer, or still ahead of a clearing or a pass. |
| `RebuildProtocol.NothingStaleStep` | src/cache.rs:150-200 | Every step keeps: an entry that does not follow from the current state will still be cleared by some task. |
| `RebuildProtocol.SettledCacheIsFresh` | src/watcher/amo.rs:195-214 | Once no task owes a rebuild and none is at work, the cache is the table of `Spec` for the current state, container before host, in every run. |
| `RebuildProtocol.StaleEntryIsOwed` | src/watcher/container.rs:47-55 | An entry that does not follow from the current state is served only while a task owes a rebuild or is clearing and has not reached the entry's shard. |
| `CacheLaws.SettledCacheServes` | src/cache.rs:144-200 | In every run, once settled, in the words of the tables: an address is cached exactly if it is a container's whose namespace owner is enabled and has a key, or a host's that some rule with an ssh user lets an enabled user into, by host name, wildcard, host group or the host's labels; and each entry carries the keys, accounts and names that belong to it, the container's first. |
| `CacheLaws.FreshServes` | src/cache.rs:154-200 | The same of every right cache. |
| `CacheLaws.OnDemandServes` | src/cache.rs:226-243 | The same of an answer on demand after a miss, the host's first. |
| `RebuildProgress.LockOrder` | src/watcher/bmh.rs:79-117 | Every task but a debug request holds only locks below the one it asks for, in the order identity, BMH, containers, namespaces. |
| `RebuildProgress.NoDeadlock` | src/cache.rs:220-238 | In every state with the invariants and without a crossing, debug requests or not, unfinished work has a next step that can be taken. |
| `RebuildProgress.StuckIsCrossed` | src/metadata/handlers.rs:434-439 | If nothing can go on although something is unfinished, a debug request holds a lock n and waits behind a writer for a lower lock m, while a rebuild or a lookup holds m and waits behind a writer for n. |
| `RebuildProgress.CrossedForGood` | src/metadata/handlers.rs:434-439 | After a crossing, whatever steps follow, the two tasks stay exactly as they are, so the work never ends. |
| `RebuildProgress.DeadlockExactly` | src/cache.rs:144-147 | Some schedule gets the work begun stuck exactly when some schedule leads to a crossing. |
| `RebuildProgress.CrossingNeeds` | src/watcher/bmh.rs:79-117 | A crossing takes a debug request that is collecting locks, and writers that wait for two different locks. |
| `RebuildProgress.StepDecreases` | src/cache.rs:144-200 | Every step of work already begun lowers a well-founded measure, so such work ends under every schedule. |
| `RebuildProgress.EveryScheduleDrains` | src/watcher/container.rs:35-56 | If no debug request is collecting locks, or all writers that have begun want one lock: under every schedule, when nothing can go on, all tasks are idle and the cache is right for every address. |
| `RebuildProgress.DrainsToFresh` | src/watcher/container.rs:35-56 | And there is such a schedule from every such state. |
| `RebuildProgress.DebugCanDeadlock` | src/metadata/handlers.rs:434-439 | With the reverse lock order of `debug_state` a run from the initial state reaches a state that is not idle and has no step to go on with. |
| `Cache.OnDemandOnFreshCache` | src/cache.rs:220-246 | On a right cache the lookup on demand equals the cached lookup for every address, though it asks in the opposite order. |
| `Cache.OnDemandDiffersExactly` | src/cache.rs:226-243 | On a miss it differs from what a rebuild would store exactly where an address resolves both as a host and as a container, differently. |
| `ImdsTokens.TokenTextInjective` | src/cache.rs:263 | Token texts with 64-bit stamps are equal only for equal stamps and equal counters. |
| `ImdsTokens.TokenTextParts` | src/cache.rs:263 | A token reads as `cloudid-`, the stamp in sixteen hexadecimal digits, a dash, and the counter in at least eight; both parse to their numbers. |
| `ImdsTokens.NamesDistinct` | src/cache.rs:255-263 | All tokens issued in a run shorter than 2^64 are distinct. |
| `ImdsTokens.PruningInvisibleExactly` | src/cache.rs:275-287 | For each token a pruning store answers as one that never prunes exactly when the token is expired anyway, or no pruning since its issue read a clock past its deadline. |
| `ImdsTokens.PruningInvisible` | src/cache.rs:275-287 | If no pruning read a later clock than the request does, no token text whatever gets another answer because of pruning. |
| `ImdsTokens.AcceptedThroughDeadline` | src/cache.rs:26-33 | A token is accepted, for the address it was issued to, through the second in which its lifetime ends, and not after. |
| `Resolve.MatchingAmong` | src/resolve.rs:227-268 | The rules kept are exactly those that match by host name, wildcard, host group or label selector. |
| `Resolve.ResolvesExactly` | src/resolve.rs:26-95 | A host resolves exactly when some matching rule with an ssh user reaches a known and enabled user. |
| `Resolve.KeysExactly` | src/resolve.rs:43-106 | A key is listed for an ssh user exactly when a matching rule grants that ssh user to an active user with that key; accounts, keys and users come in strict order. |
| `ResolveLaws.HostResolvesExactly` | src/resolve.rs:26-95 | In the words of the tables: a host resolves exactly when some rule with an ssh user names it, directly, by wildcard, group or labels, and names an enabled user, directly or by a group. |
| `ResolveLaws.HostKeysExactly` | src/resolve.rs:43-106 | A key opens an account of the host exactly when a rule for that account names the host and an enabled user who holds the key. |
| `ResolveLaws.HostAccountsExactly` | src/resolve.rs:73-111 | Exactly the users admitted have login accounts; uid (as the text that parses to it), groups, shell and keys in order are those of the identity table; sudo is by the first rule walked that admits the user. |
| `ResolveLaws.HostNamesExactly` | src/resolve.rs:117-128 | Instance id and local name are the host name, the full name is the host name with exactly the domain suffix behind it; address and zone are those given. |
| `ResolveLaws.ContainerExactly` | src/resolve.rs:135-223 | A container resolves exactly when its owner is enabled and has a key. All entries carry the owner's keys, for exactly the owner, root, and admin unless the owner is root; login accounts are the owner's, as the identity table has it, and root's. |
| `Resolve.OrderAffectsOnlySudo` | src/resolve.rs:232-268 | Another order of the same rules can change nothing in the answer but `sudo`. |
| `Resolve.OrderIrrelevantExactly` | src/resolve.rs:36-88 | The whole answer is the same for every order of the rules exactly when the host does not resolve or all matching rules that reach one user agree on sudo. |
| `Resolve.ContainerAccounts` | src/resolve.rs:164-181 | The accounts are distinct, the owner first and root last. |
| `Percent.DecodeEncode` | src/templates.rs:497-510 | Percent-decoding (section 2.1 of RFC 3986) undoes the encoding, for every string. |
| `Percent.EncodedIsClean` | src/provision.rs:464-477 | No blank, line break or fragment mark is left in an encoded text. |
| `Percent.PlainUnchanged` | src/provision.rs:464-477 | A text without blanks, percent signs, line breaks and fragment marks is its own encoding. |
| `IgnitionLaws.MergeIdempotent` | src/provision.rs:114-173 | Merging the same identity into its own output changes nothing, for every base that merges. |
| `IgnitionLaws.MergeIdempotentExactly` | src/provision.rs:114-195 | Idempotence holds on all bases exactly when identity users of one name carry the same set of keys. |
| `IgnitionLaws.HostMergeIdempotent` | src/resolve.rs:103-129 | Whatever host resolution produces has distinct user names and merges idempotently into every base. |
| `IgnitionLaws.ContainerMergeIdempotent` | src/resolve.rs:160-223 | So does whatever container resolution produces. |
| `IgnitionLaws.UserKeysExactly` | src/provision.rs:294-327 | Each identity user's keys are exactly those that the metadata gives to that name, as an ssh user or as an identity user. |
| `IgnitionUsersLaws.IdentityUsersExactly` | src/provision.rs:289-352 | The identity users value by value, for metadata with distinct names: one for each ssh user, in order, and for each further login user; uid, shell, groups, password hash and keys in each of the three cases, with wheel added exactly for sudo. |
| `IgnitionUsersLaws.ToValueShows` | src/provision.rs:157-160 | The JSON entry has exactly the fields that the user has, under their names, with their values. |
| `IgnitionUsersLaws.NewLoginServed` | src/provision.rs:137-163 | From metadata to config: a login user who is neither an ssh user nor in the base has an entry with its name, uid, shell, keys, empty password hash, and its groups with wheel exactly for sudo. |
| `IgnitionUsersLaws.MergePanicsExactly` | src/provision.rs:117-133 | The merge panics exactly on a base that is neither an object nor null, or whose `passwd` or `storage` is not an object. |
| `IgnitionUsersLaws.MergedShape` | src/provision.rs:114-173 | Where the merged lists stand in the config, what they are merged from, and the version a base without one gets. |
| `IgnitionUsersLaws.HostnameFileExactly` | src/provision.rs:221-231 | The generated host name file: path, mode, overwrite, and a data URI that decodes to the host name. |
| `IgnitionLaws.MergeUsersClosed` | src/provision.rs:137-163 | For distinct names the result is the base users in their places, each merged with its namesake, followed by the users with new names in order. |
| `IgnitionLaws.MergeKeysConserves` | src/provision.rs:176-195 | A merged user keeps all other fields, has its old keys as a prefix, ends with the union of both key sets, and has no duplicates if neither list had. |
| `IgnitionLaws.MergeConservesRest` | src/provision.rs:114-173 | Everything in the base outside the user list and the file list is unchanged, and only `ignition`, `passwd` and `storage` can be new. |
| `IgnitionLaws.FilesConserved` | src/provision.rs:198-255 | Each file keeps its place and is normalized; a host name file is there, the generated one only if the base had none. |
| `IgnitionLaws.InlineSurvives` | src/provision.rs:236-255 | Inline text becomes a data URI that decodes to that text; `inline` is gone, all other fields stay. |
| `IgnitionLaws.GrantedKeysAreServed` | src/provision.rs:289-352 | From rules to config: every key that the access rules grant is in the merged user list, under its ssh user, for every base list. |
| `KickstartLaws.IdempotentExactly` | src/provision.rs:355-418 | For every text and all metadata: merging twice is merging once exactly when identity contributes no line, the host name is set already or is inserted in front of a section, the last line is not empty, and no other line, inserted or not, ends in a carriage return. |
| `KickstartLaws.MergeGrows` | src/provision.rs:376-415 | A merge with identity lines adds line feeds to every text, so it leaves no text as it is. |
| `KickstartLaws.HostMergeGrows` | src/resolve.rs:94-129 | With what host resolution produces, every merge adds line feeds, and merging twice is never merging once. |
| `KickstartLaws.ContainerMergeGrows` | src/resolve.rs:186-223 | The same with what container resolution produces. |
| `KickstartLaws.MergedSetsHostname` | src/provision.rs:366-372 | After a merge some line sets the host name, for every base and every host name, so that a second merge sets none. |
| `KickstartLaws.MergeTwice` | src/provision.rs:355-418 | The text of a double merge, for values without line feeds: the identity lines once more behind the first block; all lines but the last lose a carriage return at the end; behind a base without a section the blank line of the first block is lost. |
| `KickstartUsersLaws.MergedLinesExactly` | src/provision.rs:355-418 | The block goes in front of the first line that begins with `%packages` or `%post`, or at the end; it begins with a host name line exactly if no line of the base gives one, and ends with a blank line. |
| `KickstartUsersLaws.KeyLinesExactly` | src/provision.rs:383-412 | A key line for a user is inserted exactly when the metadata gives the key to a login user of that name, or to an ssh user of that name who is root or a login user. |
| `KickstartUsersLaws.KeyTextReadBack` | src/provision.rs:390-392 | A key line determines user and key, for names without blanks. |
| `KickstartUsersLaws.LoginReadBack` | src/provision.rs:396-406 | The words of a login line are name, uid, groups and shell of the account, each behind its option, the groups split at commas. |
| `KickstartUsersLaws.LoginsServed` | src/provision.rs:396-417 | In the merged text, read line by line, each login user has a line that reads back as the account, and directly behind it the keys, in order. |
| `LineLaws.JoinLinesExactly` | src/provision.rs:356-417 | Splitting a text and joining its lines gives it back exactly when it does not end in a line feed and no line feed comes after a carriage return. |
| `LineLaws.LinesOfJoin` | src/provision.rs:356-417 | Joining any lines and splitting again: all but the last lose a carriage return at the end, and an empty last line is lost. |
| `LineLaws.SplitJoin` | src/provision.rs:397-401 | Splitting at a character undoes joining with it, for parts without it. |
| `Substitution.ChainIsSimultaneous` | src/templates.rs:485-493 | Replacements in a row equal one left-to-right simultaneous substitution for every content, if no value can touch a placeholder replaced later. |
| `Substitution.NoTokenLeft` | src/templates.rs:485-493 | No placeholder that keeps apart from all values occurs at any position of the output. |
| `Substitution.NothingLeftExactly` | src/templates.rs:485-493 | For any values: the chain leaves no placeholder, whatever the content, exactly when every value keeps apart from its own placeholder and from all replaced earlier. |
| `Substitution.EqualExactly` | src/templates.rs:485-493 | If so, the chain is the simultaneous substitution for every content exactly when every value keeps apart from all placeholders replaced later. |
| `Substitution.BothExactly` | src/templates.rs:485-493 | For any values and any list of variables: one simultaneous substitution and nothing left, for every content, exactly when all values keep apart from all placeholders. |
| `Substitution.BraceFreeEqualExactly` | src/templates.rs:485-493 | For values without braces: the chain is the simultaneous substitution for every content exactly when no value is a piece of a name replaced later. |
| `Substitution.BraceFreeClearExactly` | src/templates.rs:485-493 | For values without braces: no placeholder is left, whatever the content, exactly when no value is a piece of its own name or of one replaced earlier. |
| `TemplateVariables.SubstituteExactly` | src/templates.rs:470-494 | For all arguments of `substitute_variables`: it is one simultaneous substitution that leaves none of the eight placeholders, for every content, exactly when each of the eight values keeps apart from each of the eight placeholders. |
| `TemplateVariables.BraceFreeExactly` | src/templates.rs:470-494 | For all arguments without braces the exact conditions of equality and of nothing being left, each on its own, as relations between the eight values and the eight names. |
| `TemplateVariables.OrdinaryValuesSafe` | src/templates.rs:470-494 | Both hold if no argument has braces and each of the eight values has a character that is neither a capital nor an underscore. |
| `TemplateVariables.EmptySuffixUnsafe` | src/templates.rs:485-493 | With an empty domain suffix, whatever the other arguments, the content `{{TEMPLATE_NA{{DOMAIN_SUFFIX}}ME}}` comes out as the name of the template, where one pass leaves a placeholder. |
| `TemplateVariables.EncodeBraceFree` | src/templates.rs:483 | The encoded host name has braces exactly when the host name has. |
| `TemplateVariables.ShortHostnameParts` | src/templates.rs:479-482 | The short name is what is left when the suffix is cut off once, if it is there, and then the dots at the end; it never ends in a dot. |
| `TemplateVariables.ShortOfFull` | src/templates.rs:479-482 | A name that does not end in a dot comes back from the name with the suffix behind it. |
| `TemplateVariables.ShortOfOther` | src/templates.rs:479-482 | A name that ends neither in the suffix nor in a dot stays as it is. |
| `TemplateVariables.HostnameVariable` | src/templates.rs:486 | `{{HOSTNAME}}` alone comes out as the host name. |
| `TemplateVariables.ShortHostnameVariable` | src/templates.rs:479-487 | `{{SHORT_HOSTNAME}}` alone comes out as the host name without the domain suffix. |
| `TemplateVariables.IpVariable` | src/templates.rs:488 | `{{IP}}` alone comes out as the address. |
| `TemplateVariables.InstanceIdVariable` | src/templates.rs:489 | `{{INSTANCE_ID}}` alone comes out as the instance id. |
| `TemplateVariables.AvailabilityZoneVariable` | src/templates.rs:490 | `{{AVAILABILITY_ZONE}}` alone comes out as the zone. |
| `TemplateVariables.EncodedHostnameVariable` | src/templates.rs:483-491 | `{{HOSTNAME_ENCODED}}` alone comes out as a text that decodes to the host name and has no blank, line break or fragment mark. |
| `TemplateVariables.DomainSuffixVariable` | src/templates.rs:492 | `{{DOMAIN_SUFFIX}}` alone comes out as the domain suffix. |
| `TemplateVariables.TemplateNameVariable` | src/templates.rs:493 | `{{TEMPLATE_NAME}}` alone comes out as the name of the template. |
| `Substitution.BraceFreeApart` | src/templates.rs:485-493 | A value without braces keeps apart from a placeholder exactly when it is not a piece of the variable's name. |
| `Substitution.OutsideCharacter` | src/templates.rs:485-493 | A value with a character other than capitals and underscore is no piece of any name. |
| `Calendar.YearOfEraBounds` | src/templates.rs:538 | The year formula with its three corrections finds the year of the 400-year era whose days hold the given day. |
| `Calendar.SuccessorDate` | src/templates.rs:533-546 | The date of day n+1 is the calendar successor of the date of day n under the 4/100/400 rule, and is valid. |
| `Calendar.DaysToYmdIsCalendar` | src/templates.rs:533-546 | `days_to_ymd` is the proleptic Gregorian calendar from 1970-01-01, for every day; no intermediate subtraction goes below zero. |
| `Calendar.UtcTextWidth` | src/templates.rs:513-531 | Timestamps before the year 10000 have 20 characters. |
| `Calendar.UtcTextOrder` | src/templates.rs:513-531 | Timestamps before the year 10000 sort as texts in the order of time. |
| `Calendar.UtcTextFields` | src/templates.rs:513-531 | A timestamp before the year 10000 holds the calendar date, hour, minute and second of the day in their places, each parsing to its number, with the separators between them. |
| `TemplateStore.PutRefines` | src/templates.rs:316-359 | On template names `put` keeps the two files of each template paired and updates one entry of the map, with the creation time of the template it replaces. |
| `TemplateStore.DeleteRefines` | src/templates.rs:362-377 | On template names `delete` keeps the pairing and removes one entry of the map. |
| `TemplateStore.GetRefines` | src/templates.rs:269-313 | `get` reads the map: the name itself, else the name with the first of the three extensions that is there. |
| `TemplateStore.PutPairsExactly` | src/templates.rs:316-359 | `put` keeps the pairing exactly when the name does not end in `.meta.json`. |
| `TemplateStore.DeletePairsExactly` | src/templates.rs:362-377 | `delete` keeps the pairing exactly when the name does not end in `.meta.json` or does not exist. |
| `TemplateStore.RunRefines` | src/templates.rs:316-377 | Over every run of `put` and `delete` the files stand for the map. |
| `TemplateStore.RestoreOverlays` | src/templates.rs:414-430 | Restoring overlays content and mode of the bundle on the store; later entries win. |
| `TemplateStore.BackupRestore` | src/templates.rs:390-430 | A backup restored on any store overlays it; on an empty store it reproduces the listing, contents and modes, and a second backup has the same entries. |
| `TemplateStore.PutWrites` | src/templates.rs:316-345 | `put` writes the text under the name and the metadata under the name with `.meta.json`, with mode and times, and no other file. |
| `TemplateStore.DeleteRemoves` | src/templates.rs:362-377 | `delete` removes those two files and no other. |
| `TemplateStore.ListingExactly` | src/templates.rs:199-233 | The listing has one item for each template, with its mode and format, strictly by image type and then by name. |
| `TemplateStore.ExportExactly` | src/templates.rs:394-404 | The export has the items of the listing, each with the template's content. |
| `TemplateStore.FormatExactly` | src/templates.rs:21-29 | The format is Ignition exactly for names with `.ign.json` at the end, and kickstart exactly for names with `.ks`. |
| `TemplateStore.WithoutMetadata` | src/templates.rs:291-301 | A template without a metadata file is loaded as served on every boot, with the times of the request. |
| `Framing.FrameWith` | src/watcher/bmh.rs:276-284 | The rest kept in the buffer holds no line feed and is no longer than the text. |
| `Framing.FrameAppend` | src/watcher/bmh.rs:272-279 | Framing can be interrupted anywhere: the rest in front of what comes next gives the same lines. |
| `Framing.FrameUnlines` | src/watcher/bmh.rs:277-284 | Framing the text of any lines and any unfinished rest gives back those lines, trimmed and without the empty ones, and that rest. |
| `Framing.StreamParts` | src/watcher/bmh.rs:272-277 | Every stream is such a text. |
| `Framing.FeedIsFrame` | src/watcher/bmh.rs:268-294 | After any chunks the loop has handed on exactly the complete lines of the concatenation, trimmed and not empty, and its buffer is the unfinished rest. |
| `Framing.ChunkingInvisible` | src/watcher/bmh.rs:268-294 | Whatever the chunks of a stream of given lines and a given rest, the loop hands on those lines, trimmed and without the empty ones, and keeps that rest. |
| `Framing.SameStream` | src/watcher/bmh.rs:268-294 | Two ways to cut one stream into chunks lead the loop to the same lines and the same buffer. |
| `Framing.KeptIsTrimmed` | src/watcher/bmh.rs:278-283 | A line handed on is not empty and neither begins nor ends with whitespace. |
| `Framing.KeptParts` | src/watcher/bmh.rs:278-283 | Nothing but whitespace is taken from a line, from its two ends, and what is left is handed on unless it is empty. |
| `Framing.DroppedExactly` | src/watcher/bmh.rs:278-283 | A line is dropped exactly when it is whitespace altogether. |
| `Framing.ObjectKept` | src/watcher/bmh.rs:278-283 | A line from a brace to a brace is handed on as it is, with blanks, tabs and carriage returns behind it cut off. |
| `Framing.ObjectsArrive` | src/watcher/bmh.rs:268-294 | However a stream of such lines is cut into chunks, exactly those lines arrive, and the rest stays in the buffer. |
| `BmhWatcher.RunConsistent` | src/watcher/bmh.rs:126-164 | After every run of refreshes, leases and watch events the three host tables have the same keys, each host is filed under its effective name, has an address, and its labels and namespace are its own. |
| `BmhWatcher.UpdateExactly` | src/watcher/bmh.rs:126-164 | An update files the host under the spec's host name, or its own if that is empty, at the live address, or the configured one if there is none, with its labels and namespace, and touches nothing else; without an address it does nothing. |
| `BmhWatcher.DeletionExactly` | src/watcher/bmh.rs:318-328 | A deletion takes away what is filed under that name, and nothing else among the addresses. |
| `BmhWatcher.DeletedIsGone` | src/watcher/bmh.rs:318-328 | After DELETED no table and no address knows the host, and all other entries are as before. |
| `BmhWatcher.RefreshForgets` | src/watcher/bmh.rs:66-124 | After a refresh with successful discovery and the leases, nothing depends on the past: each address belongs to the last host listed with it, else to the first named lease, and each name to the last host listed under it. |
| `BmhWatcher.MappedExactly` | src/watcher/bmh.rs:79-328 | After every run an address maps to a host exactly when some refresh, lease or watch event announced it there, and no successful refresh, announcement at that address or deletion of that host has come since. |
| `BmhWatcher.OneAddressExactly` | src/watcher/bmh.rs:307-310 | An update adds the host's present address and drops none, so that the host has just that address exactly when it had no other before. |
| `Persistence.AcknowledgedIsDurable` | src/metadata/handlers.rs:642-740 | After a 200 or 204 reply the file equals the map in memory. |
| `Persistence.StaysUntilRemoved` | src/templates.rs:435-466 | Once in memory and on disk a host stays there through failing saves and restarts until it is removed. |
| `Persistence.GoneUntilInserted` | src/metadata/handlers.rs:726-740 | Once gone from both a host stays away until it is inserted. |
| `Persistence.FailedRemovalRepairedExactly` | src/metadata/handlers.rs:730-737 | After a removal whose save failed, the host would be back after a restart exactly as long as no later request has been acknowledged. |
| `Persistence.RetriesDoNotRepair` | src/metadata/handlers.rs:730-733 | Retries of such a removal are all answered 404 and leave the host on disk. |
| `Persistence.ProvisionedGetsNoTemplate` | src/provision.rs:497-510 | A host acknowledged as provisioned gets no template on any later request before its reset, through failing saves and restarts, whatever refers to one. |
| `Persistence.ServedExactly` | src/provision.rs:512-602 | A host that has not completed gets the template that the host object refers to, else the assigned one, else that of the first rule for the host or for all, else none. |
| `Persistence.ParseRefExactly` | src/provision.rs:606-627 | A reference is split at its first slash; one without a slash is a name, for the image type given. |
| `KeyIndex.RoundTrip` | src/agent/main.rs:162-195 | Over the printed listing the agent prints exactly the keys of the first entry for the user, and falls back to its cache if there is none, names with `=` included. |
| `KeyIndex.RoundTripExactly` | src/metadata/handlers.rs:286-309 | Every listed user is served right exactly when no name holds a line feed or ends in a carriage return. |
| `Cache.AppState.constructor` | src/cache.rs:103-127 | The initial state: nothing cached, the token counter at 1, and the empty cache is already right. |
| `Cache.AppState.RebuildCache` | src/cache.rs:144-200 | Clear and the two passes, in any order of the maps, leave exactly the table of `Spec`: the container's answer, else the host's. |
| `Cache.AppState.ResolveOnDemand` | src/cache.rs:220-246 | The cached entry; on a miss the host's answer, else the container's. |
| `Cache.AppState.GenerateImdsToken` | src/cache.rs:255-279 | The token text, the new counter with its wrap at 64 bits, and the store with the new entry after pruning, each entry by its own clock reading. |
| `Cache.AppState.IssueInRun` | src/cache.rs:255-279 | A call extends the run that the store's content is a function of, and returns the name of the new token in it. |
| `Resolve.ExpandSubjects` | src/resolve.rs:271-295 | The names listed are exactly the users named and the members of known groups, each once. |
| `Resolve.GrantRule` | src/resolve.rs:49-89 | One rule adds exactly the keys of the known and enabled users to each of its ssh users, and enters exactly those users, keeping entries made by earlier rules. |
| `Resolve.ResolveHost` | src/resolve.rs:17-129 | The accumulating loops with sort and dedup compute the answer described with sets. |
| `Resolve.ResolveContainer` | src/resolve.rs:135-223 | The answer for a container: nothing for an unknown, disabled or keyless owner; else the owner's keys for owner, admin and root, without repetition, owner first. |
| `Percent.UrlEncode` | src/provision.rs:464-477 | The loop over a growing buffer is the character-by-character encoding. |
| `Ignition.BuildIgnitionUsers` | src/provision.rs:289-352 | The two loops with the set of names seen compute the user list: system users, then each identity user completed in place or appended. |
| `Ignition.MergeSshKeys` | src/provision.rs:176-195 | Exactly the keys not among the existing strings are appended; a key list that is not an array is left alone, a missing one created. |
| `Ignition.MergeUserArray` | src/provision.rs:137-163 | The nested loops: users of known names are merged into every entry of that name, the others appended, known meaning present before the merge. |
| `Ignition.NormalizeFileContents` | src/provision.rs:236-255 | Every file with object contents has `inline` removed, and `source` set if the inline value was a string. |
| `Ignition.MergeIgnitionConfig` | src/provision.rs:114-173 | The merged tree for every JSON base, including the bases on which the code panics. |
| `Kickstart.MergeKickstart` | src/provision.rs:355-418 | The merged text is the base's lines with one block inserted in front of the first section, or at the end. |
| `TemplateStore.Store.Put` | src/templates.rs:316-359 | The two files written, what is returned, and the update of the map. |
| `TemplateStore.Store.Delete` | src/templates.rs:362-377 | The two files removed, whether the template existed, and the update of the map. |
| `TemplateStore.Store.Get` | src/templates.rs:269-313 | The loop over extensions finds the first candidate that exists, with its metadata or the defaults. |
| `TemplateStore.Store.ListAll` | src/templates.rs:199-233 | Directories read in any order give the listing of the map by image type and name. |
| `TemplateStore.Store.Backup` | src/templates.rs:390-411 | The bundle is the export of the map. |
| `TemplateStore.Store.Restore` | src/templates.rs:414-430 | One `put` per entry, in order, and the number of entries. |
| `Framing.WatchLines` | src/watcher/bmh.rs:268-294 | The nested loops over chunks and lines compute the fold that appends a chunk, cuts off the complete lines and keeps the rest; a stream of objects, one to a line, arrives as exactly those objects. |
| `Framing.ProcessLines` | src/watcher/bmh.rs:277-291 | The inner loop ends, and cuts all complete lines off the buffer. |
| `BmhWatcher.BmhState.ApplyHost` | src/watcher/bmh.rs:126-164 | The four tables after one host object; no change without a valid address. |
| `BmhWatcher.BmhState.LoadAllBmh` | src/watcher/bmh.rs:66-114 | The tables after a full load, namespaces that fail delivering nothing; no change if discovery fails. |
| `BmhWatcher.BmhState.LoadDhcpLeases` | src/watcher/bmh.rs:168-211 | The tables after the leases: addresses already known keep their names. |
| `BmhWatcher.BmhState.HandleWatchEvent` | src/watcher/bmh.rs:299-333 | The tables after one event, and whether a rebuild follows. |
| `Persistence.Handlers.constructor` | src/cache.rs:113-114 | What is on disk is loaded. |
| `Persistence.Handlers.OneshotProvisioned` | src/metadata/handlers.rs:683-715 | 404 without a change for an unknown address; else the host is marked, and the reply tells whether the save succeeded. |
| `Persistence.Handlers.OneshotDelete` | src/metadata/handlers.rs:726-740 | Memory, file and reply after a reset, for known and unknown hosts and both outcomes of the save. |
| `Persistence.Handlers.AssignmentsPut` | src/metadata/handlers.rs:642-661 | Memory, file and reply after an assignment. |
| `Persistence.Handlers.AssignmentsDelete` | src/metadata/handlers.rs:664-679 | Memory, file and reply after the removal of an assignment. |
| `KeyIndex.PublicKeysIndex` | src/metadata/handlers.rs:279-294 | The listing has one line per entry, numbered from zero. |
| `KeyIndex.FindAuthorizedKeys` | src/agent/main.rs:149-196 | The loop with its early exits gives the keys for the first line of the user, nothing if the second request fails, the local cache if there is no such line. |

## Left out

- Sockets, HTTP routing, NATS, logging, command lines: requests and events are inputs of the model.
- `src/metadata_route.rs`, `src/routeros_nat.rs`: calls of remote interfaces with little state of their own.
- RebuildProtocol: tasks are steps on values, so that they can interleave; the methods of `AppState` are the same operations run without interference.
- RebuildProtocol: aborted tasks, the cancellation in `run_watcher` and the early error return between the first bucket loads are not modelled; a task that has changed a source runs to its rebuild.
- RebuildProtocol: the locks of assignments and oneshot marks are left out, since no task holds one of them together with another lock.
- EqualExactly: equality alone has its exact condition where nothing can be left, and in `BraceFreeExactly` where no value has braces; for other values it has none here, because a later replacement can undo what an earlier value has caused.
- MergeTwice: for values without line feeds, since an inserted line with one is several lines when it is read again; `IdempotentExactly` and `MergeGrows` need no such condition.
- Printing and parsing of JSON and TOML: trees are values, and metadata files are read back as they were printed. Numbers in JSON are integers.
- Ignition: JSON trees are values, so updates in place are updates of copies.
- The `user_data` text, which is a print of the identity users.
- The file system: files are written whole or not at all, names have no separators, and the writes of `put` do not fail.
- Framing: each chunk is text already; a chunk that splits a multi-byte character is decoded to replacement characters by the code.
- BmhWatcher: addresses are parsed by a parameter; printing them is left out.
- ImdsTokens: additions of a lifetime to a stamp near 2^64, and runs of 2^64 tokens, after which the counter wraps.
- KeyIndex: the two requests see the same metadata, and the first one succeeds.
- Clocks: their readings are parameters.
- The lifetime cap of `api_token`, `extract_image_type`, constant endpoints, the listing of pods and namespaces, `list_by_type`, `generate_ignition`, `generate_kickstart`, `load_static_identity`, the agent's refresh: easy members only.
