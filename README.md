# TPATools, modelled in Dafny

TPATools is a server-side Minecraft mod. It adds:

- teleport requests (`/tpa`, `/tpahere`, `/tpaccept`, `/tpadeny`, `/tpacancel`, `/tpatoggle`, `/tpalock`, `/tpaunlock`);
- named homes, which can be shared and made public (`/home …`);
- a one-step return (`/back`) and a return to the last death position (`/grave`);
- chat rewriting that highlights mentioned players and shows hotbar items for `&1` … `&9`;
- an administrator command (`/tpatools`) that changes its configuration.

This project models the in-memory state behind those commands and proves what the commands do to it.

The repository holds two generations of the request tracker and of the home registry. One is in the `Commands` package. The other is an older copy at the package root. Both are modelled side by side.

| file | module | models |
|---|---|---|
| `common.dfy` | `Common` | player ids, positions (opaque reals), `Option`, Java's 32-bit `int` multiplication and truncating division, ASCII case folding, substring search |
| `config.dfy` | `Config` | the need-OP flags and the two ways they gate commands, default flags, the `/tpatools` executors, the translation lookup, the ms/tick conversions |
| `back.dfy` | `Back` | the `/back` store, one position per player, with eviction of unloadable dimensions |
| `grave.dfy` | `Grave` | the `/grave` store, written on a player's death |
| `tpa.dfy` | `Tpa` | the request tracker: pending requests per target, cooldown stamps, the "do not disturb" flag, locked senders; send, accept, deny, cancel, expiry, toggle, lock, unlock |
| `tpa_legacy.dfy` | `LegacyTpa` | the older tracker's send path (`canSendRequest`); its other commands act on the four maps exactly as `Tpa` does |
| `homes.dfy` | `Homes` | the home registry with a per-owner public index; the `owner:home` visit |
| `homes_legacy.dfy` | `LegacyHomes` | the older registry, whose public index is one map keyed by home name |
| `chat.dfy` | `Chat` | the `&digit` tokenizer and the mention highlighter |

## How it is modelled

Each command is a pure step function from the old state (a datatype holding the source's maps) to an outcome and a new state. Each step function is written in the order the source makes its checks. The properties are lemmas over these step functions.

The source mutates static maps in place. So each store is also a `class` with those maps as fields. Each method's postcondition says the new fields are the step function applied to the old ones. The methods keep the invariant the lemmas prove:

- `Tracker.Valid` is `Tpa.WellFormed`.
- `HomeRegistry.Valid` is `Homes.Consistent`.

These parts follow the source's loops as `while` loops with invariants, proved against the same functions:

- the iterator loops of cancel and tick (`Tpa.FilterList`, `Tpa.Tracker.FilterEachList`);
- the matcher loop of the chat tokenizer (`Chat.ProcessItemDisplay`, `Chat.FindPlaceholder`);
- the mention loop (`Chat.ProcessMentions`);
- the five `putIfAbsent` calls of `initCommandPermissions`, which the source writes out one by one; the model runs them as a loop over the default keys (`Config.ModConfig.PutDefaults`).

Host calls are parameters:

- the clock is `now`;
- "is alive" is a set `alive`;
- where each player stands is `positionOf`;
- the profile cache is `profiles`, a name-to-id map;
- the resolvable dimensions are a set `loaded`;
- the filled hotbar slots are `slots`, from slot to display name;
- the online players are a sequence.

Teleporting is the destination an outcome carries. Messages are the outcome constructors.

## Model

| member | source | states |
|---|---|---|
| Config.CheckCommandPermission | src/main/java/com/kicobicn/TPATools/config/ModConfigs.java:62-69 | a command whose flag is false or missing is allowed for everybody; a command whose flag is set is allowed exactly at permission level 2 or above |
| Config.LegacyPermissionLevel | src/main/java/com/kicobicn/TPATools/TPAHandler.java:251-255 | the registration-time level is 2 exactly when the flag is present and true, otherwise 0 |
| Config.PermissionGatesAgree | src/main/java/com/kicobicn/TPATools/TPAHandler.java:251-255 | the per-call check of the newer code and `hasPermission` at the older registration-time level give the same answer for every flag map, command and level |
| Config.WithDefaults | src/main/java/com/kicobicn/TPATools/config/ModConfigs.java:152-158 | after the `putIfAbsent(…, false)` calls the keys are the old keys plus the defaults; every existing flag keeps its value; every added flag is false |
| Config.WithDefaultsIdempotent | src/main/java/com/kicobicn/TPATools/config/ModConfigs.java:152-158 | filling in the defaults a second time changes nothing |
| Config.DefaultsOpenEveryCommand | src/main/java/com/kicobicn/TPATools/config/ModConfigs.java:152-158 | after loading, a default command the file does not configure has a flag and is open to every permission level |
| Config.ModConfig.PutDefaults | src/main/java/com/kicobicn/TPATools/config/ModConfigs.java:152-158 | the loop of `putIfAbsent` calls leaves exactly `WithDefaults` of the old flags |
| Config.ModConfig.InitCommandPermissions | src/main/java/com/kicobicn/TPATools/config/ModConfigs.java:152-158 | the five default keys, "debug" included, are filled in as `WithDefaults` says |
| Config.LegacyLoadRule | src/main/java/com/kicobicn/TPATools/TPAHandler.java:132-151 | the older loader's result: each of the four command keys is present; a flag from the file wins over the default; a command missing from the file registers at level 0; "debug" gets no default; with no file the flags in memory are kept and only the four keys are added |
| Config.LegacyLoadPermissions | src/main/java/com/kicobicn/TPATools/TPAHandler.java:132-151 | the older `loadCommandPermissions`: a missing file keeps the flags in memory, JSON null clears them, a map replaces them, and then the four command keys are filled with false; `LegacyLoadRule` states the result key by key |
| Config.NeedOpUpdate | src/main/java/com/kicobicn/TPATools/config/ModConfigs.java:263-273 | `needop` fails exactly for a command outside tpa/home/grave/back; otherwise that flag becomes "enable equals 'true' ignoring case" and no other flag changes |
| Config.ParseEnable | src/main/java/com/kicobicn/TPATools/config/ModConfigs.java:266 | `enable.equalsIgnoreCase("true")`: only "true" in some case enables; `NeedOpExamples` shows "TRUE" enabling and "yes" disabling |
| Config.NeedOpExamples | src/main/java/com/kicobicn/TPATools/TPAHandler.java:434-439 | "debug" is rejected; "TRUE" enables; "yes" disables |
| Config.ModConfig.NeedOp | src/main/java/com/kicobicn/TPATools/config/ModConfigs.java:263-273 | succeeds exactly for the four commands; the new flags are `NeedOpUpdate`'s result; a failure leaves the flags unchanged |
| Config.ModConfig.SetLanguage | src/main/java/com/kicobicn/TPATools/config/ModConfigs.java:216-242 | succeeds exactly for en_us and zh_cn, then sets the language and replaces the translations with what the file gives (empty when it cannot be read); a failure changes neither; the older `setlanguage` at `TPAHandler.java:391-400` is the same |
| Config.TranslationTemplate | src/main/java/com/kicobicn/TPATools/config/ModConfigs.java:190-191 | the stored template when the key is present, the fallback otherwise |
| Config.ModConfig.constructor | src/main/java/com/kicobicn/TPATools/config/ModConfigs.java:96-118 | the defaults: 3000 ms cooldown, 600 ticks timeout, zh_cn, 2 homes, debug off |
| Config.ModConfig.SetMaxHome | src/main/java/com/kicobicn/TPATools/config/ModConfigs.java:245-249 | stores the count, which the argument parser bounds below by 1 |
| Config.CooldownMsFor | src/main/java/com/kicobicn/TPATools/config/ModConfigs.java:291 | the stored cooldown is a non-negative multiple of 1000 ms, and dividing it by 1000 gives the seconds back |
| Config.ModConfig.TpaCooldownTime | src/main/java/com/kicobicn/TPATools/config/ModConfigs.java:291 | stores `CooldownMsFor(seconds)` |
| Config.WaitTicksFor | src/main/java/com/kicobicn/TPATools/config/ModConfigs.java:310 | the stored tick count is a 32-bit value; it equals seconds × 20 whenever that product fits |
| Config.ModConfig.TpaWaitTime | src/main/java/com/kicobicn/TPATools/config/ModConfigs.java:310 | stores `WaitTicksFor(seconds)`, wrapped as Java does |
| Config.ModConfig.SetDebug | src/main/java/com/kicobicn/TPATools/config/ModConfigs.java:325-331 | debug mode becomes "enable equals 'true' ignoring case" |
| Config.WaitSecondsExpireAfterSecondsMs | src/main/java/com/kicobicn/TPATools/config/ModConfigs.java:310 | with the 50 ms/tick check, a wait of s seconds expires requests after exactly s × 1000 ms whenever s × 20 fits an `int` |
| Config.TimeoutThresholdAsWritten | src/main/java/com/kicobicn/TPATools/Commands/TPAHandler.java:530 | the threshold the tick handler computes is the product of two `int`s, wrapped to 32 bits |
| Config.TimeoutOverflowCounterexample | src/main/java/com/kicobicn/TPATools/Commands/TPAHandler.java:530 | a timeout of 42949673 ticks, which the config admits, gives a negative threshold; so does a wait of 2147484 seconds set through `tpawaittime` |
| Config.TimeoutMs | src/main/java/com/kicobicn/TPATools/Commands/TPAHandler.java:530 | the corrected threshold is non-negative for a non-negative timeout and is exactly 50 ms per tick |
| Config.TimeoutNeverImmediate | src/main/java/com/kicobicn/TPATools/Commands/TPAHandler.java:530 | the corrected threshold is positive for every positive timeout the config admits |
| Back.Record | src/main/java/com/kicobicn/TPATools/Commands/BackHandler.java:56-65 | `recordPosition` overwrites only the given player's entry |
| Back.BackWithoutPosition | src/main/java/com/kicobicn/TPATools/Commands/BackHandler.java:69-74 | `/back` with no stored position fails and changes nothing |
| Back.BackInvalidDimensionEvicts | src/main/java/com/kicobicn/TPATools/Commands/BackHandler.java:75-83 | a position in an unresolvable dimension is removed; the command fails; every other entry is kept |
| Back.BackSucceedsIff | src/main/java/com/kicobicn/TPATools/Commands/BackHandler.java:67-92 | `/back` succeeds exactly for a stored position in a loaded dimension, and moves the player there |
| Back.BackStep | src/main/java/com/kicobicn/TPATools/Commands/BackHandler.java:67-92 | `teleportBack` as a step from the store: no entry fails, an unloadable dimension evicts the entry and fails, otherwise the player lands on it and the spot left is stored; its properties are `BackWithoutPosition`, `BackInvalidDimensionEvicts`, `BackSucceedsIff` and `BackTwiceReturns` |
| Back.BackTwiceReturns | src/main/java/com/kicobicn/TPATools/Commands/BackHandler.java:84-85 | `/back` swaps: a second `/back` returns to the starting place and restores the store |
| Back.BackStore.RecordPosition | src/main/java/com/kicobicn/TPATools/Commands/BackHandler.java:56-65 | the new store is `Record` of the old one |
| Back.BackStore.TeleportBack | src/main/java/com/kicobicn/TPATools/Commands/BackHandler.java:67-92 | outcome and new store are those of `BackStep` |
| Grave.OnDeath | src/main/java/com/kicobicn/TPATools/Commands/GraveHandler.java:80-92 | a player's death overwrites only that player's grave; another entity's death changes nothing |
| Grave.GraveWithoutEntry | src/main/java/com/kicobicn/TPATools/Commands/GraveHandler.java:97-101 | without a grave the command fails and changes nothing |
| Grave.GraveInvalidDimensionEvicts | src/main/java/com/kicobicn/TPATools/Commands/GraveHandler.java:103-111 | a grave in an unresolvable dimension is removed; the command fails; other graves and the `/back` store are untouched |
| Grave.GraveRepeatable | src/main/java/com/kicobicn/TPATools/Commands/GraveHandler.java:113-120 | success keeps the grave, so a second `/grave` lands on the same spot |
| Grave.GraveStep | src/main/java/com/kicobicn/TPATools/Commands/GraveHandler.java:95-121 | `teleportToGrave` as a step from the graves and the `/back` store: no grave fails, an unloadable dimension evicts the grave and fails, otherwise the player lands on the grave and the spot left is recorded for `/back`; its properties are `GraveWithoutEntry`, `GraveInvalidDimensionEvicts`, `GraveRepeatable` and `GraveThenBack` |
| Grave.GraveThenBack | src/main/java/com/kicobicn/TPATools/Commands/GraveHandler.java:113-114 | success records the spot left, so `/back` after `/grave` returns there |
| Grave.DeathThenGrave | src/main/java/com/kicobicn/TPATools/Commands/GraveHandler.java:80-121 | a death followed by `/grave` lands where the player died |
| Grave.GraveStore.OnPlayerDeath | src/main/java/com/kicobicn/TPATools/Commands/GraveHandler.java:80-92 | the new graves are `OnDeath` of the old ones |
| Grave.GraveStore.TeleportToGrave | src/main/java/com/kicobicn/TPATools/Commands/GraveHandler.java:95-121 | outcome, graves and `/back` store are those of `GraveStep` |
| Tpa.Pending | src/main/java/com/kicobicn/TPATools/Commands/TPAHandler.java:350-351 | a target without a list has no pending requests |
| Tpa.RemoveAt | src/main/java/com/kicobicn/TPATools/Commands/TPAHandler.java:368-375 | `list.remove(request)` removes exactly that one occurrence and keeps the others in order |
| Tpa.Filter | src/main/java/com/kicobicn/TPATools/Commands/TPAHandler.java:447-463 | the requests kept are exactly those the test accepts |
| Tpa.FilterAppend | src/main/java/com/kicobicn/TPATools/Commands/TPAHandler.java:447-463 | filtering keeps the relative order of the kept requests |
| Tpa.FilterKeepsAll | src/main/java/com/kicobicn/TPATools/Commands/TPAHandler.java:447-463 | a test that accepts everything leaves the list unchanged |
| Tpa.FilterIdempotent | src/main/java/com/kicobicn/TPATools/Commands/TPAHandler.java:447-463 | filtering a second time removes nothing |
| Tpa.FilterShortensIff | src/main/java/com/kicobicn/TPATools/Commands/TPAHandler.java:447-463 | the list gets shorter exactly when some request fails the test |
| Tpa.FilterList | src/main/java/com/kicobicn/TPATools/Commands/TPAHandler.java:448-462 | the iterator loop over one list keeps `Filter` of it, and reports a removal exactly when some request fails the test |
| Tpa.FilterAll | src/main/java/com/kicobicn/TPATools/Commands/TPAHandler.java:447-464 | every list is filtered; exactly the lists left empty are dropped |
| Tpa.DropEmpty | src/main/java/com/kicobicn/TPATools/Commands/TPAHandler.java:464 | `removeIf(empty)` keeps exactly the non-empty lists, unchanged |
| Tpa.PruneAfterFilter | src/main/java/com/kicobicn/TPATools/Commands/TPAHandler.java:447-464 | filtering each list in place and then pruning is `FilterAll` |
| Tpa.SendSucceedsIff | src/main/java/com/kicobicn/TPATools/Commands/TPAHandler.java:293-324 | a send succeeds exactly when none of the checks fails: self, cooldown, dead target, toggled-off target, sender locked by target |
| Tpa.SendStep | src/main/java/com/kicobicn/TPATools/Commands/TPAHandler.java:293-347 | `sendTPARequest` as a step: the five checks in source order, then the append and the cooldown stamp; its properties are `SendSucceedsIff`, `SendCheckOrder`, `SendFailureChangesNothing` and `SendSuccessAppends` |
| Tpa.SendCheckOrder | src/main/java/com/kicobicn/TPATools/Commands/TPAHandler.java:293-324 | each failure is reported exactly when it holds and all earlier checks passed |
| Tpa.SendFailureChangesNothing | src/main/java/com/kicobicn/TPATools/Commands/TPAHandler.java:293-324 | a refused send changes none of the four maps |
| Tpa.SendSuccessAppends | src/main/java/com/kicobicn/TPATools/Commands/TPAHandler.java:326-344 | a successful send appends exactly one request at the end of the target's list and stamps the sender's cooldown with `now`; nothing else changes |
| Tpa.CooldownRemainingSeconds | src/main/java/com/kicobicn/TPATools/Commands/TPAHandler.java:299-311 | the reported time is the whole number of seconds left, rounded down: k × 1000 ≤ left < k × 1000 + 1000 |
| Tpa.SendStartsCooldown | src/main/java/com/kicobicn/TPATools/Commands/TPAHandler.java:344 | right after a successful send, with a positive cooldown, the sender's next send is held back by the cooldown |
| Tpa.SendPreservesWellFormed | src/main/java/com/kicobicn/TPATools/Commands/TPAHandler.java:293-347 | sending keeps the tracker well formed: no empty lists; each list is addressed to its target by others; no empty lock sets |
| Tpa.FirstFrom | src/main/java/com/kicobicn/TPATools/Commands/TPAHandler.java:356-360 | `filter(sender).findFirst()` yields the first index holding a request from that sender, or none when there is no such request |
| Tpa.SelectRule | src/main/java/com/kicobicn/TPATools/Commands/TPAHandler.java:350-367 | no pending requests fails; without a name the last request is chosen; with a name, the first request from that sender, failing exactly when there is none; the older accept at `TPAHandler.java:508-525` selects the same way |
| Tpa.Select | src/main/java/com/kicobicn/TPATools/Commands/TPAHandler.java:350-367 | a selected index is always within the target's pending list; `SelectRule` states which request is chosen |
| Tpa.ResolveRemovesExactlyOne | src/main/java/com/kicobicn/TPATools/Commands/TPAHandler.java:368-375 | exactly the selected occurrence goes; the list is dropped once empty; every other target and the other three maps are untouched |
| Tpa.Resolve | src/main/java/com/kicobicn/TPATools/Commands/TPAHandler.java:368-375 | removal of the selected request, dropping the list when it empties; `ResolveRemovesExactlyOne` states what is removed and what is kept |
| Tpa.ResolvePreservesWellFormed | src/main/java/com/kicobicn/TPATools/Commands/TPAHandler.java:399-402 | removing a request keeps the tracker well formed |
| Tpa.AcceptRemovesSelected | src/main/java/com/kicobicn/TPATools/Commands/TPAHandler.java:349-407 | accept fails without change exactly when nothing is selected; otherwise the selected request is removed, also when its sender is dead; a dead sender is a failure that writes no `/back` |
| Tpa.AcceptStep | src/main/java/com/kicobicn/TPATools/Commands/TPAHandler.java:349-407 | `acceptTPARequest` as a step: select, remove, check the sender is alive, record `/back`, teleport; its properties are `AcceptRemovesSelected` and `AcceptMovesAndRecordsBack` |
| Tpa.AcceptMovesAndRecordsBack | src/main/java/com/kicobicn/TPATools/Commands/TPAHandler.java:376-389 | a successful accept moves the target for tpahere and the sender for tpa, to where the other player stands, after recording the mover's spot for `/back` |
| Tpa.DenyRemovesSelected | src/main/java/com/kicobicn/TPATools/Commands/TPAHandler.java:409-443 | deny succeeds exactly when a request is selected and removes exactly it; a failure changes nothing |
| Tpa.DenyStep | src/main/java/com/kicobicn/TPATools/Commands/TPAHandler.java:409-443 | `denyTPARequest` as a step: select and remove; its properties are `DenyRemovesSelected`, `DenyAppendedRestores` and `SendThenDenyRestores` |
| Tpa.DenyAppendedRestores | src/main/java/com/kicobicn/TPATools/Commands/TPAHandler.java:425-440 | a plain deny on a list that just had a request appended takes that request and restores the lists |
| Tpa.SendThenDenyRestores | src/main/java/com/kicobicn/TPATools/Commands/TPAHandler.java:326-327 | a request just sent is the one a plain `/tpadeny` takes, and denying it restores the pending requests |
| Tpa.CancelRemovesExactlyMatching | src/main/java/com/kicobicn/TPATools/Commands/TPAHandler.java:445-472 | after a cancel no request from the sender (to the named target, if any) is left; every other request stays in its list in order; emptied lists are dropped; only the request map changes |
| Tpa.CancelStep | src/main/java/com/kicobicn/TPATools/Commands/TPAHandler.java:445-472 | `cancelTPARequest` as a step: filter out the sender's requests and report whether any went; its properties are `CancelRemovesExactlyMatching` and `CancelFailsIffNothingRemoved` |
| Tpa.CancelFailsIffNothingRemoved | src/main/java/com/kicobicn/TPATools/Commands/TPAHandler.java:465-470 | cancel fails exactly when the tracker is left as it was, as the older cancel at `TPAHandler.java:601-628` does |
| Tpa.CancelPreservesWellFormed | src/main/java/com/kicobicn/TPATools/Commands/TPAHandler.java:445-472 | cancelling keeps the tracker well formed |
| Tpa.TickAsWritten | src/main/java/com/kicobicn/TPATools/Commands/TPAHandler.java:524-549 | as written, no request older than the wrapped threshold survives |
| Tpa.TickRemovesExactlyExpired | src/main/java/com/kicobicn/TPATools/Commands/TPAHandler.java:524-549 | expiry removes exactly the requests with now − timestamp ≥ timeout × 50 ms, keeps the others in order and drops emptied lists; the older tick at `TPAHandler.java:680-704` is the same |
| Tpa.TickStep | src/main/java/com/kicobicn/TPATools/Commands/TPAHandler.java:524-549 | `tick` with the corrected threshold; its properties are `TickRemovesExactlyExpired`, `TickIdempotent` and `FreshRequestSurvivesTick` |
| Tpa.TickIdempotent | src/main/java/com/kicobicn/TPATools/Commands/TPAHandler.java:524-549 | a second tick at the same moment removes nothing |
| Tpa.FreshRequestSurvivesTick | src/main/java/com/kicobicn/TPATools/Commands/TPAHandler.java:530 | with the corrected threshold, a positive timeout never expires a request in the tick it was sent |
| Tpa.TickAsWrittenDropsFreshRequest | src/main/java/com/kicobicn/TPATools/Commands/TPAHandler.java:530 | as written, a timeout of 42949673 ticks expires a request at the moment it is sent; the corrected tick keeps it |
| Tpa.ToggleStep | src/main/java/com/kicobicn/TPATools/Commands/TPAHandler.java:474-485 | the player's flag flips, a missing flag counting as false; every other flag is unchanged |
| Tpa.ToggleTwiceRestores | src/main/java/com/kicobicn/TPATools/TPAHandler.java:630-634 | toggling twice restores every flag, and the map itself when the player already had an entry |
| Tpa.ToggledOffRefusesRequests | src/main/java/com/kicobicn/TPATools/Commands/TPAHandler.java:316-319 | once the flag is on, a request that passed the earlier checks is refused as "toggled off" |
| Tpa.LockStep | src/main/java/com/kicobicn/TPATools/Commands/TPAHandler.java:487-502 | a failed lock changes nothing |
| Tpa.UnlockStep | src/main/java/com/kicobicn/TPATools/Commands/TPAHandler.java:504-522 | a failed unlock changes nothing |
| Tpa.LockUnlockSucceedIff | src/main/java/com/kicobicn/TPATools/TPAHandler.java:643-678 | lock succeeds exactly for another player not yet locked and then locks them; unlock succeeds exactly for another player who is locked and then unlocks them; a success adds or removes exactly that one (player, target) pair, and every other player's lock set is unchanged |
| Tpa.LockUnlockInverse | src/main/java/com/kicobicn/TPATools/TPAHandler.java:643-678 | unlock after a successful lock restores the map, and lock after a successful unlock does too, the emptied set being dropped |
| Tpa.LockRefusesRequests | src/main/java/com/kicobicn/TPATools/Commands/TPAHandler.java:320-324 | a player who locked somebody never receives a request from them |
| Tpa.Tracker.Send | src/main/java/com/kicobicn/TPATools/Commands/TPAHandler.java:293-347 | outcome and new maps are those of `SendStep`; the tracker stays well formed |
| Tpa.Tracker.RemoveRequest | src/main/java/com/kicobicn/TPATools/Commands/TPAHandler.java:368-375 | the new state is `Resolve` of the old one |
| Tpa.Tracker.Accept | src/main/java/com/kicobicn/TPATools/Commands/TPAHandler.java:349-407 | outcome, maps and `/back` store are those of `AcceptStep` |
| Tpa.Tracker.Deny | src/main/java/com/kicobicn/TPATools/Commands/TPAHandler.java:409-443 | outcome and maps are those of `DenyStep` |
| Tpa.Tracker.FilterEachList | src/main/java/com/kicobicn/TPATools/Commands/TPAHandler.java:447-463 | each list is replaced by `Filter` of it; the keys are unchanged; it reports a removal exactly when some list dropped a request |
| Tpa.Tracker.FilterRequests | src/main/java/com/kicobicn/TPATools/Commands/TPAHandler.java:447-464 | the requests become `FilterAll` of the old ones |
| Tpa.Tracker.Cancel | src/main/java/com/kicobicn/TPATools/Commands/TPAHandler.java:445-472 | result and maps are those of `CancelStep` |
| Tpa.Tracker.Tick | src/main/java/com/kicobicn/TPATools/Commands/TPAHandler.java:524-549 | the requests become `TickStep` of the old ones; the other three maps are unchanged |
| Tpa.Tracker.Toggle | src/main/java/com/kicobicn/TPATools/Commands/TPAHandler.java:474-485 | the flags become `ToggleStep` of the old ones |
| Tpa.Tracker.Lock | src/main/java/com/kicobicn/TPATools/Commands/TPAHandler.java:487-502 | result and locks are those of `LockStep` |
| Tpa.Tracker.Unlock | src/main/java/com/kicobicn/TPATools/Commands/TPAHandler.java:504-522 | result and locks are those of `UnlockStep` |
| LegacyTpa.CanSendIffNotBlocked | src/main/java/com/kicobicn/TPATools/TPAHandler.java:456-459 | `canSendRequest` holds exactly when there is no earlier stamp or at least the cooldown has passed, the exact negation of the newer cooldown test |
| LegacyTpa.CanSendRequest | src/main/java/com/kicobicn/TPATools/TPAHandler.java:456-459 | `canSendRequest`: no stamp, or at least the cooldown elapsed since it; `CanSendIffNotBlocked` relates it to the newer test |
| LegacyTpa.LegacySendAgrees | src/main/java/com/kicobicn/TPATools/TPAHandler.java:461-505 | the older send makes the same decision as the newer one, in the same order, and leaves the same state |
| LegacyTpa.LegacySendStep | src/main/java/com/kicobicn/TPATools/TPAHandler.java:461-505 | the older `sendTPARequest` as a step, with `canSendRequest` as its cooldown check; `LegacySendAgrees` and `LegacySendEffect` state its effect |
| LegacyTpa.LegacySendEffect | src/main/java/com/kicobicn/TPATools/TPAHandler.java:461-505 | a refused older send changes nothing; a successful one appends the request at the end of the target's list and stamps the cooldown |
| LegacyTpa.LegacySend | src/main/java/com/kicobicn/TPATools/TPAHandler.java:461-505 | outcome and new maps are those of `LegacySendStep`; the tracker stays well formed |
| Homes.RemoveFirst | src/main/java/com/kicobicn/TPATools/Commands/HomeHandler.java:669 | `list.remove(id)` removes one occurrence when there is one and changes nothing otherwise |
| Homes.RemoveFirstNoDuplicates | src/main/java/com/kicobicn/TPATools/Commands/HomeHandler.java:662-669 | on a list without duplicates the removed player is gone, and every other player stays |
| Homes.SetHomeRule | src/main/java/com/kicobicn/TPATools/Commands/HomeHandler.java:369-395 | the home limit is checked before the name; a refused `setHome` changes nothing; a successful one adds exactly the new home with an empty share list and never exceeds the limit |
| Homes.SetHomeStep | src/main/java/com/kicobicn/TPATools/Commands/HomeHandler.java:369-394 | `setHome` as a step: the limit, then the name, then the new home; `SetHomeRule` and `SetHomeKeepsConsistent` state its effect |
| Homes.RemoveHomeRule | src/main/java/com/kicobicn/TPATools/Commands/HomeHandler.java:536-566 | fails without change exactly for a missing home; otherwise deletes the home and its public entry, keeps the owner's other homes and public entries, and touches no other owner |
| Homes.RemoveHomeStep | src/main/java/com/kicobicn/TPATools/Commands/HomeHandler.java:536-566 | `removeHome` as a step; `RemoveHomeRule` and `RemoveHomeKeepsConsistent` state its effect |
| Homes.RenameHomeRule | src/main/java/com/kicobicn/TPATools/Commands/HomeHandler.java:568-600 | succeeds exactly when the old name exists and the new one does not, so renaming to the same name fails; the same home and its public status move to the new name |
| Homes.RenameHomeStep | src/main/java/com/kicobicn/TPATools/Commands/HomeHandler.java:568-600 | `renameHome` as a step; `RenameHomeRule`, `RenameTwiceRestores` and `RenameHomeKeepsConsistent` state its effect |
| Homes.RenameTwiceRestores | src/main/java/com/kicobicn/TPATools/Commands/HomeHandler.java:568-600 | renaming back undoes a rename |
| Homes.ShareNeverDuplicates | src/main/java/com/kicobicn/TPATools/Commands/HomeHandler.java:611-618 | share succeeds exactly for a player not on the list; the list stays duplicate-free; a second share of the same player fails |
| Homes.ShareHomeStep | src/main/java/com/kicobicn/TPATools/Commands/HomeHandler.java:603-628 | `shareHome` as a step; `ShareNeverDuplicates` and `ShareKeepsConsistent` state its effect |
| Homes.UnshareRule | src/main/java/com/kicobicn/TPATools/Commands/HomeHandler.java:639-669 | with no name the list is cleared, failing exactly when it was empty; with a name the command succeeds exactly for a known player on the list, who is removed, everybody else staying |
| Homes.UnshareHomeStep | src/main/java/com/kicobicn/TPATools/Commands/HomeHandler.java:631-682 | `unshareHome` as a step, with or without a player name; `UnshareRule`, `ShareThenUnshareRestores` and `UnshareKeepsConsistent` state its effect |
| Homes.ShareThenUnshareRestores | src/main/java/com/kicobicn/TPATools/Commands/HomeHandler.java:603-669 | unsharing a player right after sharing with them restores the registry |
| Homes.PublicPrivateSucceedIff | src/main/java/com/kicobicn/TPATools/Commands/HomeHandler.java:685-748 | public succeeds exactly for an existing private home, private exactly for an existing public one; neither touches the homes |
| Homes.SetPublicStep | src/main/java/com/kicobicn/TPATools/Commands/HomeHandler.java:685-717 | `setPublicHome` as a step; `PublicPrivateSucceedIff` and `SetPublicKeepsConsistent` state its effect |
| Homes.SetPrivateStep | src/main/java/com/kicobicn/TPATools/Commands/HomeHandler.java:719-748 | `setPrivateHome` as a step; `PublicPrivateSucceedIff`, `PublicThenPrivateRestores` and `SetPrivateKeepsConsistent` state its effect |
| Homes.PublicThenPrivateRestores | src/main/java/com/kicobicn/TPATools/Commands/HomeHandler.java:728-740 | private undoes public, dropping the emptied owner index |
| Homes.PrivateThenPublicRestores | src/main/java/com/kicobicn/TPATools/Commands/HomeHandler.java:695-701 | public, under the same owner name, undoes private |
| Homes.SetHomeKeepsConsistent | src/main/java/com/kicobicn/TPATools/Commands/HomeHandler.java:369-395 | `setHome` keeps the invariant: each owner's public index names only that owner's homes, and share lists have no duplicates |
| Homes.RemoveHomeKeepsConsistent | src/main/java/com/kicobicn/TPATools/Commands/HomeHandler.java:536-566 | `removeHome` keeps the invariant |
| Homes.RenameHomeKeepsConsistent | src/main/java/com/kicobicn/TPATools/Commands/HomeHandler.java:568-600 | `renameHome` keeps the invariant |
| Homes.ShareKeepsConsistent | src/main/java/com/kicobicn/TPATools/Commands/HomeHandler.java:603-628 | `shareHome` keeps the invariant |
| Homes.UnshareKeepsConsistent | src/main/java/com/kicobicn/TPATools/Commands/HomeHandler.java:631-682 | `unshareHome` keeps the invariant |
| Homes.SetPublicKeepsConsistent | src/main/java/com/kicobicn/TPATools/Commands/HomeHandler.java:685-717 | `setPublicHome` keeps the invariant |
| Homes.SetPrivateKeepsConsistent | src/main/java/com/kicobicn/TPATools/Commands/HomeHandler.java:719-748 | `setPrivateHome` keeps the invariant |
| Homes.IndexOfColon | src/main/java/com/kicobicn/TPATools/Commands/HomeHandler.java:752 | the first ':' of the argument, or none exactly when there is no ':' |
| Homes.SplitOwnerHome | src/main/java/com/kicobicn/TPATools/Commands/HomeHandler.java:752-760 | `split(":", 2)` yields two parts exactly when there is a ':'; the first part has no ':'; joining the parts with ':' gives the argument back |
| Homes.SplitJoinRoundTrip | src/main/java/com/kicobicn/TPATools/Commands/HomeHandler.java:752-760 | splitting `owner:home`, for an owner name without ':', gives back the owner and the home |
| Homes.VisitTarget | src/main/java/com/kicobicn/TPATools/Commands/HomeHandler.java:750-800 | a visit ends in a teleport or in one of the three reported failures |
| Homes.VisitSucceedsIff | src/main/java/com/kicobicn/TPATools/Commands/HomeHandler.java:752-790 | a visit succeeds exactly for a known owner's existing home that is public or shared with the visitor and lies in a loaded dimension, and lands on its saved position |
| Homes.VisitNeedsColon | src/main/java/com/kicobicn/TPATools/Commands/HomeHandler.java:752-758 | an argument without ':' is reported as malformed |
| Homes.SwapRotation | src/main/java/com/kicobicn/TPATools/Commands/HomeHandler.java:802-806 | the arrival position has the saved coordinates with yaw and pitch exchanged |
| Homes.VisitAsWritten | src/main/java/com/kicobicn/TPATools/Commands/HomeHandler.java:750-819 | as written, a visit never writes the `/back` store |
| Homes.VisitStep | src/main/java/com/kicobicn/TPATools/Commands/HomeHandler.java:750-819 | the corrected visit has the outcome of `VisitTarget` and records the spot left for `/back` exactly on success |
| Homes.HomeThenBackReturns | src/main/java/com/kicobicn/TPATools/Commands/HomeHandler.java:398-422 | every successful `/home`, own or visited, can be undone with `/back`; a failed one leaves the `/back` store alone |
| Homes.VisitAsWrittenLosesBackAndFacing | src/main/java/com/kicobicn/TPATools/Commands/HomeHandler.java:801-806 | as written, `/back` after a visit has nothing to return to, and a home saved with different yaw and pitch is reached facing another way; the corrected visit lands on the saved position and `/back` returns |
| Homes.HomeRegistry.SetHome | src/main/java/com/kicobicn/TPATools/Commands/HomeHandler.java:369-395 | outcome and new maps are those of `SetHomeStep`; the invariant is kept |
| Homes.HomeRegistry.RemoveHome | src/main/java/com/kicobicn/TPATools/Commands/HomeHandler.java:536-566 | outcome and new maps are those of `RemoveHomeStep` |
| Homes.HomeRegistry.RenameHome | src/main/java/com/kicobicn/TPATools/Commands/HomeHandler.java:568-600 | outcome and new maps are those of `RenameHomeStep` |
| Homes.HomeRegistry.ShareHome | src/main/java/com/kicobicn/TPATools/Commands/HomeHandler.java:603-628 | outcome and new maps are those of `ShareHomeStep` |
| Homes.HomeRegistry.UnshareHome | src/main/java/com/kicobicn/TPATools/Commands/HomeHandler.java:631-682 | outcome and new maps are those of `UnshareHomeStep` |
| Homes.HomeRegistry.SetPublicHome | src/main/java/com/kicobicn/TPATools/Commands/HomeHandler.java:685-717 | outcome and new maps are those of `SetPublicStep` |
| Homes.HomeRegistry.SetPrivateHome | src/main/java/com/kicobicn/TPATools/Commands/HomeHandler.java:719-748 | outcome and new maps are those of `SetPrivateStep` |
| Homes.HomeRegistry.TeleportToHome | src/main/java/com/kicobicn/TPATools/Commands/HomeHandler.java:398-422 | outcome and `/back` store are those of `TeleportHomeStep`, with the corrected visit |
| Homes.TeleportHomeStep | src/main/java/com/kicobicn/TPATools/Commands/HomeHandler.java:398-422 | `teleportToHome` as a step: the player's own home first, otherwise the `owner:home` visit, here the corrected `VisitStep`; `HomeThenBackReturns` states its effect |
| LegacyHomes.LegacySetPublicRule | src/main/java/com/kicobicn/TPATools/HomeHandler.java:645-667 | one public home name is taken server-wide: public succeeds exactly for the player's existing home whose name no public entry holds, and gives that player the entry |
| LegacyHomes.LegacySetPublicStep | src/main/java/com/kicobicn/TPATools/HomeHandler.java:645-667 | the older `setPublicHome` as a step; `LegacySetPublicRule` states its effect |
| LegacyHomes.LegacySetPrivateRule | src/main/java/com/kicobicn/TPATools/HomeHandler.java:677-690 | private succeeds exactly for the owner of the entry and removes only it; another owner's entry is reported as "not owner" and nothing changes |
| LegacyHomes.LegacySetPrivateStep | src/main/java/com/kicobicn/TPATools/HomeHandler.java:669-697 | the older `setPrivateHome` as a step; `LegacySetPrivateRule` states its effect |
| LegacyHomes.LegacyPublicPrivateInverse | src/main/java/com/kicobicn/TPATools/HomeHandler.java:645-697 | private undoes public, and public under the same owner name undoes private |
| LegacyHomes.LegacySetHomeStep | src/main/java/com/kicobicn/TPATools/HomeHandler.java:346-372 | `setHome` leaves the public index unchanged |
| LegacyHomes.LegacySetHomeKeepsConsistent | src/main/java/com/kicobicn/TPATools/HomeHandler.java:346-372 | `setHome` keeps the older invariant: every public entry names a home its owner has, and share lists have no duplicates |
| LegacyHomes.LegacyShareKeepsConsistent | src/main/java/com/kicobicn/TPATools/HomeHandler.java:563-588 | `shareHome` keeps the older invariant |
| LegacyHomes.LegacyShareHomeStep | src/main/java/com/kicobicn/TPATools/HomeHandler.java:563-588 | the older `shareHome` leaves the public index unchanged; it shares through the newer `ShareHomeStep` on the homes |
| LegacyHomes.LegacyUnshareKeepsConsistent | src/main/java/com/kicobicn/TPATools/HomeHandler.java:591-642 | `unshareHome` keeps the older invariant |
| LegacyHomes.LegacyUnshareHomeStep | src/main/java/com/kicobicn/TPATools/HomeHandler.java:591-642 | the older `unshareHome` leaves the public index unchanged; it unshares through the newer `UnshareHomeStep` on the homes |
| LegacyHomes.LegacyRemoveKeepsConsistent | src/main/java/com/kicobicn/TPATools/HomeHandler.java:513-532 | `removeHome` keeps the older invariant, because it deletes the public entry of that name whoever holds it |
| LegacyHomes.LegacyRemoveHomeStep | src/main/java/com/kicobicn/TPATools/HomeHandler.java:513-532 | the older `removeHome` as a step, deleting the name's public entry whoever holds it; `LegacyRemoveKeepsConsistent` and `LegacyRemoveWithdrawsOthersPublicHome` state its effect |
| LegacyHomes.LegacyPublicPrivateKeepConsistent | src/main/java/com/kicobicn/TPATools/HomeHandler.java:645-697 | `setPublicHome` and `setPrivateHome` keep the older invariant |
| LegacyHomes.HomesOnlyConsistent | src/main/java/com/kicobicn/TPATools/HomeHandler.java:346-372 | the older invariant implies the newer one on the homes alone, which the share commands act on identically |
| LegacyHomes.LegacyRenameBreaksInvariant | src/main/java/com/kicobicn/TPATools/HomeHandler.java:548-553 | as written, a player renaming a private home moves another player's public entry of that name to a name under which that player has no home |
| LegacyHomes.LegacyRenameHomeStep | src/main/java/com/kicobicn/TPATools/HomeHandler.java:534-560 | the older `renameHome` as written, moving the name's public entry whoever holds it; `LegacyRenameBreaksInvariant` states its effect |
| LegacyHomes.LegacyRemoveWithdrawsOthersPublicHome | src/main/java/com/kicobicn/TPATools/HomeHandler.java:521-522 | as written, a player removing their own home withdraws another player's public home of the same name from every visitor |
| LegacyHomes.LegacyVisitSucceedsIff | src/main/java/com/kicobicn/TPATools/HomeHandler.java:726-734 | an older visit succeeds exactly when the public entry of that name belongs to the named owner or the home is shared with the visitor, the home exists, and its dimension is loaded |
| LegacyHomes.LegacyVisitTarget | src/main/java/com/kicobicn/TPATools/HomeHandler.java:699-742 | the older `owner:home` checks: the outcome is a teleport or one of the malformed, not-accessible and invalid-dimension failures; `LegacyVisitSucceedsIff` states when it succeeds |
| LegacyHomes.AccessRulesAgree | src/main/java/com/kicobicn/TPATools/HomeHandler.java:726-734 | the older access rule is the newer one once the name-keyed index is regrouped by owner |
| LegacyHomes.PerOwnerIndex | src/main/java/com/kicobicn/TPATools/HomeHandler.java:36 | regrouping the name-keyed index by owner files each entry under exactly its owner |
| LegacyHomes.LegacyVisitAsWritten | src/main/java/com/kicobicn/TPATools/HomeHandler.java:699-762 | as written, the older visit never writes the `/back` store and arrives with yaw and pitch exchanged |
| LegacyHomes.LegacyVisitStep | src/main/java/com/kicobicn/TPATools/HomeHandler.java:699-762 | the corrected older visit records the spot left for `/back` exactly on success |
| LegacyHomes.LegacyHomeThenBackReturns | src/main/java/com/kicobicn/TPATools/HomeHandler.java:375-399 | every successful older `/home` can be undone with `/back`; a failed one leaves it alone |
| LegacyHomes.LegacyVisitAsWrittenLosesBackAndFacing | src/main/java/com/kicobicn/TPATools/HomeHandler.java:743-749 | as written, the older visit loses `/back` and the facing in the same way as the newer one |
| LegacyHomes.PrivateCandidatesAsWrittenEmpty | src/main/java/com/kicobicn/TPATools/HomeHandler.java:159 | as written, the `/home private` suggestions are always empty, even for a player whose public home `setPrivateHome` would accept |
| LegacyHomes.PrivateCandidatesAsWritten | src/main/java/com/kicobicn/TPATools/HomeHandler.java:153-169 | the older `/home private` suggestions as written, keeping the player's home names whose public entry `equals` the player's UUID; `PrivateCandidatesAsWrittenEmpty` shows the set is always empty |
| LegacyHomes.PrivateCandidatesAreAccepted | src/main/java/com/kicobicn/TPATools/HomeHandler.java:153-169 | the corrected suggestions are exactly the names `setPrivateHome` accepts from the player |
| LegacyHomes.PrivateCandidates | src/main/java/com/kicobicn/TPATools/HomeHandler.java:153-169 | the corrected suggestions, comparing the entry's owner with the player; `PrivateCandidatesAreAccepted` shows they are what `setPrivateHome` accepts |
| LegacyHomes.PublicCandidates | src/main/java/com/kicobicn/TPATools/HomeHandler.java:171-186 | the `/home public` suggestions are exactly the names `setPublicHome` accepts from the player |
| LegacyHomes.LegacyHomeRegistry.SetHome | src/main/java/com/kicobicn/TPATools/HomeHandler.java:346-372 | outcome and new maps are those of `LegacySetHomeStep` |
| LegacyHomes.LegacyHomeRegistry.RemoveHome | src/main/java/com/kicobicn/TPATools/HomeHandler.java:513-532 | outcome and new maps are those of `LegacyRemoveHomeStep` |
| LegacyHomes.LegacyHomeRegistry.RenameHome | src/main/java/com/kicobicn/TPATools/HomeHandler.java:534-560 | outcome and new maps are those of `LegacyRenameHomeStep`, as written |
| LegacyHomes.LegacyHomeRegistry.ShareHome | src/main/java/com/kicobicn/TPATools/HomeHandler.java:563-588 | outcome and new maps are those of `LegacyShareHomeStep` |
| LegacyHomes.LegacyHomeRegistry.UnshareHome | src/main/java/com/kicobicn/TPATools/HomeHandler.java:591-642 | outcome and new maps are those of `LegacyUnshareHomeStep` |
| LegacyHomes.LegacyHomeRegistry.SetPublicHome | src/main/java/com/kicobicn/TPATools/HomeHandler.java:645-667 | outcome and new maps are those of `LegacySetPublicStep` |
| LegacyHomes.LegacyHomeRegistry.SetPrivateHome | src/main/java/com/kicobicn/TPATools/HomeHandler.java:669-697 | outcome and new maps are those of `LegacySetPrivateStep` |
| LegacyHomes.LegacyHomeRegistry.TeleportToHome | src/main/java/com/kicobicn/TPATools/HomeHandler.java:375-399 | outcome and `/back` store are those of `LegacyTeleportHomeStep`, with the corrected visit |
| LegacyHomes.LegacyTeleportHomeStep | src/main/java/com/kicobicn/TPATools/HomeHandler.java:375-399 | the older `teleportToHome` as a step, with the corrected `LegacyVisitStep` as its fallback; `LegacyHomeThenBackReturns` states its effect |
| Chat.NextPlaceholder | src/main/java/com/kicobicn/TPATools/Commands/ChatHandler.java:23 | the next match of `&(\d)` at or after the scan position: a match with none before it, or none at all |
| Chat.FindPlaceholder | src/main/java/com/kicobicn/TPATools/Commands/ChatHandler.java:110 | the scanning loop finds exactly `NextPlaceholder` |
| Chat.SlotOf | src/main/java/com/kicobicn/TPATools/Commands/ChatHandler.java:117-118 | digit d names slot d − 1, so `&0` names slot −1 |
| Chat.PlaceholderPart | src/main/java/com/kicobicn/TPATools/Commands/ChatHandler.java:117-133 | a placeholder becomes the item exactly when its slot is 0..8 and filled; otherwise it stays the literal `&d` |
| Chat.PlaceholderRule | src/main/java/com/kicobicn/TPATools/Commands/ChatHandler.java:117-133 | `&0` is never replaced; `&d` for d in 1..9 shows slot d − 1 exactly when that slot is filled |
| Chat.PartsFromStep | src/main/java/com/kicobicn/TPATools/Commands/ChatHandler.java:110-136 | each match contributes the text before it, when there is any, then its part |
| Chat.PartsFrom | src/main/java/com/kicobicn/TPATools/Commands/ChatHandler.java:110-136 | the parts the `&(\d)` matcher loop builds from a position; `PartsFromStep`, `PartsCoverMessage` and `PartsWellFormed` state what they are |
| Chat.TextBetweenRule | src/main/java/com/kicobicn/TPATools/Commands/ChatHandler.java:112-114 | the text before a match is emitted unchanged, and only when it is not empty |
| Chat.PartsCoverMessage | src/main/java/com/kicobicn/TPATools/Commands/ChatHandler.java:104-154 | read back as the text they came from, the parts are the message: nothing is lost, duplicated or reordered |
| Chat.PartsWellFormed | src/main/java/com/kicobicn/TPATools/Commands/ChatHandler.java:104-154 | every part is non-empty text or the item of a filled slot 0..8 |
| Chat.RenderIsSourceWithoutItems | src/main/java/com/kicobicn/TPATools/Commands/ChatHandler.java:143-154 | without item parts the displayed message is the concatenated text |
| Chat.EmptyHotbarKeepsMessage | src/main/java/com/kicobicn/TPATools/Commands/ChatHandler.java:104-154 | with hotbar slots 0..8 all empty the displayed message equals the input |
| Chat.ProcessItemDisplay | src/main/java/com/kicobicn/TPATools/Commands/ChatHandler.java:104-154 | the matcher loop builds exactly `PartsFrom` of the whole message |
| Chat.Highlight | src/main/java/com/kicobicn/TPATools/Commands/ChatHandler.java:68-69 | the highlighted name is the name wrapped in two two-character formatting codes |
| Chat.Interleave | src/main/java/com/kicobicn/TPATools/Commands/ChatHandler.java:68-69 | an empty name, quoted as a regex, matches before every character and at the end |
| Chat.ReplaceWithoutMatch | src/main/java/com/kicobicn/TPATools/Commands/ChatHandler.java:68-69 | `replaceAll` with a case-insensitive quoted pattern leaves a text without the name unchanged |
| Chat.ReplaceAllIgnoreCase | src/main/java/com/kicobicn/TPATools/Commands/ChatHandler.java:68-69 | `replaceAll("(?i)" + Pattern.quote(name), …)` scanning left to right; `ReplaceWithoutMatch`, `ReplaceInsertsRep`, `ReplaceWithMatchGrows` and `ReplaceNeverShrinks` state its effect |
| Chat.ReplaceInsertsRep | src/main/java/com/kicobicn/TPATools/Commands/ChatHandler.java:68-69 | a text holding the name in some case comes out containing the replacement |
| Chat.ReplaceWithMatchGrows | src/main/java/com/kicobicn/TPATools/Commands/ChatHandler.java:63-69 | a text holding the name in some case gets longer when the replacement is longer |
| Chat.ReplaceNeverShrinks | src/main/java/com/kicobicn/TPATools/Commands/ChatHandler.java:68-69 | a replacement at least as long as the name never shortens the text |
| Chat.Notified | src/main/java/com/kicobicn/TPATools/Commands/ChatHandler.java:55-89 | the players notified are exactly the other online players whose name the original message contains ignoring case; the sender is never notified |
| Chat.HighlightOthersUnchanged | src/main/java/com/kicobicn/TPATools/Commands/ChatHandler.java:55-89 | when no other player is mentioned the loop leaves the text unchanged |
| Chat.HighlightOthers | src/main/java/com/kicobicn/TPATools/Commands/ChatHandler.java:55-89 | the mention loop over the online players; `HighlightOthersUnchanged` states that it changes nothing without a mention, `MentionHighlights` that it highlights the only other player when mentioned, and `OverlappingNamesBreakHighlight` that with several players a mention can go unhighlighted |
| Chat.MentionsWithoutNamesUnchanged | src/main/java/com/kicobicn/TPATools/Commands/ChatHandler.java:50-99 | a message naming no other online player, and not the sender with exact case, passes unchanged |
| Chat.MentionHighlights | src/main/java/com/kicobicn/TPATools/Commands/ChatHandler.java:55-69 | when the only other online player is mentioned, with a non-empty name, the loop's result contains `Highlight(name)` and is longer than the message |
| Chat.OverlappingNamesBreakHighlight | src/main/java/com/kicobicn/TPATools/Commands/ChatHandler.java:55-69 | each `replaceAll` acts on the text already rewritten: with online players "a" and "ab" and the message "ab", both are mentioned (and so notified), yet the result does not contain the highlight of "ab" |
| Chat.ProcessMentions | src/main/java/com/kicobicn/TPATools/Commands/ChatHandler.java:50-99 | the loop's text is `Mentions` and the players it notifies are `Notified` |
| Chat.Mentions | src/main/java/com/kicobicn/TPATools/Commands/ChatHandler.java:50-99 | `processMentions`: the loop, then the sender's own name; `MentionsWithoutNamesUnchanged` states its effect, and `ProcessMentions` is the loop proved equal to it |
| Chat.OnServerChat | src/main/java/com/kicobicn/TPATools/Commands/ChatHandler.java:25-45 | the shown message is the item tokenizer applied to the mention-rewritten text; the notified players are those of `Notified` |

## Left out

- File persistence is not modelled: loading and saving homes, graves, toggles, locks and permissions through Gson, the config directory, and `ForgeConfigSpec.save()`. A save is a no-op.
- Brigadier command registration and argument parsing are not modelled. The model takes arguments already parsed, within the ranges the argument types admit.
- Most suggestion providers are not modelled. The older `/home private` and `/home public` suggestions are the exception, because the first one holds a defect.
- Message text is not modelled: `String.format`, `Component` styling, click events, titles, sounds and logging. Each message is an outcome constructor.
- Host calls are parameters: `teleportTo`, `isAlive`, the profile cache, level lookup and the online player list. A teleport is the destination an outcome carries.
- Coordinates and rotations are opaque reals. Nothing computes with them.
- Player ids are natural numbers and stand in for UUIDs. The public index of the newer registry is keyed by the owner's UUID string; the owner's id stands in for that string.
- Case folding is ASCII only. That is what Minecraft player names use. Java's full Unicode folding is not modelled.
- Chat.ReplaceAllIgnoreCase: `$` and `\` in the replacement are taken literally. `String.replaceAll` would interpret them, but the replacement is a player name wrapped in formatting codes.
- Tpa.Tracker.Send: the three reads of the clock in `sendTPARequest` are the same `now`: the cooldown check (`Commands/TPAHandler.java:300`), the request's timestamp in the `TPARequest` constructor (line 47) and the cooldown stamp (line 344).
- Tpa.Tracker.Tick: uses the corrected threshold (see Findings). The as-written threshold is `Tpa.TickAsWritten`. It also compares every request with one `now`, where the source reads `System.currentTimeMillis()` afresh for each request inside the iterator loop (`Commands/TPAHandler.java:530`; the older copy at `TPAHandler.java:686`).
- Tpa.TickStep: the same single `now` as `Tpa.Tracker.Tick`.
- Homes.HomeRegistry.TeleportToHome: its `owner:home` fallback is the corrected `Homes.VisitStep`, which records `/back` and keeps the saved facing. The source's fallback, `teleportToOtherHome` (`Commands/HomeHandler.java:421`, 801-806), writes `lastPositions` and swaps yaw and pitch; that behaviour is `Homes.VisitAsWritten` (see Findings).
- Homes.TeleportHomeStep: the same corrected fallback as `Homes.HomeRegistry.TeleportToHome`.
- LegacyHomes.LegacyHomeRegistry.TeleportToHome: its `owner:home` fallback is the corrected `LegacyHomes.LegacyVisitStep`. The source's fallback (`HomeHandler.java:398`, 743-749) writes `lastPositions` and swaps yaw and pitch; that behaviour is `LegacyHomes.LegacyVisitAsWritten` (see Findings).
- LegacyHomes.LegacyTeleportHomeStep: the same corrected fallback as `LegacyHomes.LegacyHomeRegistry.TeleportToHome`.
- Chat.ProcessItemDisplay: the `if` that skips empty text is the function `TextBetween`, which yields no part for empty text.
- The `cooldown_seconds` and `wait_seconds` config entries are not modelled. Nothing reads them.
- The older handler's own `loadTranslations` is not modelled. It is I/O, like the newer one; `Config.ModConfig.SetLanguage` takes the table it would load.
- `listHomes`, `shareList` and `listOtherHomes` are not modelled. They only format the registry into messages.
- `recordLastPosition` fills a map that nothing reads. It appears only as the `lastPositions` argument of the as-written visit.
- The older tracker's accept, deny, cancel, toggle, lock, unlock and tick are not modelled separately. They act on the four maps exactly as the newer ones do, so the `Tpa` members stand for them. Its send is `LegacyTpa`.
- LegacyHomes.LegacyHomeRegistry: its methods promise the step functions only, not an invariant. The older `renameHome` does not keep one (see Findings).
- Chat.MentionHighlights: proved only when the mentioned player is the only other player online. With several players a later name can break an earlier highlight, or an earlier highlight can hide a later name (`Chat.OverlappingNamesBreakHighlight`, for example "Ali" and "Alice"). The source behaves the same way, so the model keeps that order of replacements.
- Concurrency is not modelled. The mod runs its commands and ticks on the server thread.

## Findings

| source | as written | input that shows it | evidently intended | confidence | as-written member | corrected member |
|---|---|---|---|---|---|---|
| src/main/java/com/kicobicn/TPATools/Commands/TPAHandler.java:530 | `TIMEOUT_TICKS.get() * 50` multiplies two `int`s, which wraps above 42949672 ticks; the config admits up to `Integer.MAX_VALUE`, and the older tick at `TPAHandler.java:686` does the same | a timeout of 42949673 ticks gives a threshold of −2147483646 ms, so a request expires in the tick it was sent | the product in `long`, so a request lives for the configured time | not executed | Tpa.TickAsWrittenDropsFreshRequest | Tpa.FreshRequestSurvivesTick |
| src/main/java/com/kicobicn/TPATools/HomeHandler.java:159 | the `/home private` suggestions compare a `PublicHomeInfo` with a `UUID` using `equals`, which is never true | a player with a public home "x" types `/home private ` and is offered nothing | compare the entry's owner UUID with the player's | not executed | LegacyHomes.PrivateCandidatesAsWrittenEmpty | LegacyHomes.PrivateCandidatesAreAccepted |
| src/main/java/com/kicobicn/TPATools/Commands/HomeHandler.java:801 | visiting another player's home records the spot left in `lastPositions`, which nothing reads, instead of the `/back` store; the older visit at `HomeHandler.java:743-744` does the same | a player with no `/back` entry visits `Bob:x` and then types `/back`: there is no position to return to | record the position for `/back`, as every other teleport of the mod does | not executed | Homes.VisitAsWrittenLosesBackAndFacing | Homes.HomeThenBackReturns |
| src/main/java/com/kicobicn/TPATools/Commands/HomeHandler.java:802-806 | the visit teleport passes the stored pitch where `teleportTo` takes the yaw and the stored yaw where it takes the pitch; the older visit at `HomeHandler.java:745-749` does the same | a home saved facing yaw 90, pitch 0 is reached facing yaw 0, pitch 90 | arrive with the saved facing, as `/home` to one's own home does | not executed | Homes.VisitAsWritten | Homes.VisitStep |
| src/main/java/com/kicobicn/TPATools/HomeHandler.java:548-553 | the older `renameHome` moves the public entry of the old name to the new name whoever owns it | Bob's home "x" is public; Alice renames her private home "x" to "y"; the public "y" now points at Bob, who has no home "y" | move only the renaming owner's entry, as the newer per-owner index does | not executed | LegacyHomes.LegacyRenameBreaksInvariant | Homes.RenameHomeKeepsConsistent |
| src/main/java/com/kicobicn/TPATools/HomeHandler.java:521-522 | the older `removeHome` deletes the public entry of that name whoever owns it | Bob's home "x" is public; Alice removes her own home "x"; visitors can no longer reach `Bob:x` | remove only the removing owner's entry | not executed | LegacyHomes.LegacyRemoveWithdrawsOthersPublicHome | Homes.RemoveHomeRule |
