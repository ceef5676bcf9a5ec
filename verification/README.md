# A Dafny model of the PTCGP private server

This project models the stateful and algorithmic core of the server and proves properties of it over every
input and every run. Each transaction of the store is one atomic step over tables that are maps: a method works on
a copy of the tables and assigns it back only where the source commits. Beside most methods stands a function with
the same meaning; the methods are proved against it, and the lemmas about runs are proved about it. Laws in
terms of the rows and fields say exactly when an operation succeeds and what it writes.

`dafny verify dfyconfig.toml` checks everything.

| file | part of the system |
|---|---|
| Emulators, EmulatorLaws, EmulatorRuns | reservations, logins and sessions of the emulators, and what every run keeps |
| MultiRunner | launching a player with roll-back, releasing stopped emulators, independent ports |
| WeightedIndex, Sorting, PackDraw, IllegalDraw, DrawLaws, PackEngine, PackFailures | weighted selection, draws by table and rarity, draws without replacement, rule validation, which draws can fail |
| Words, Rounds, Cipher, Packer | the block cipher, its key stream, packing and unpacking |
| Feed, FeedLaws, FeedRuns | snoops, challenges and challenge power |
| ItemShop, ShopLaws | purchases, inventory changes and purchase caps |
| ActionStates | cumulative action counters |
| CardSocial | gifts between friends |
| GameTime | the game day and the weekly special pack window |
| BinaryPatch | the reversible patch and its backup |
| Sums, Wrappers | sums of a column, results and options |

## What came out

Some promises hold only under a condition. Each is stated with its exact condition.

- The sessions of different emulators stay apart exactly when no device account ends in a colon followed by another
  one (`SafeExactlyWhenCollisionFree`). Accounts of one length, as the REST layer demands, satisfy this.
- A failed launch restores the reservation exactly when the previous player still exists and no other emulator holds
  it at that moment (`OpenPlayer`). With nothing committed in between this fails only for an inactive previous
  selection that another emulator holds (`UndisturbedRestore`).
- Power that a snoop or challenge took is gone at the next look unless the player had been at the limit for a whole
  period: the limit keeps its old timestamp, so whole periods are refunded (`ChargeSticksUnlessStale`,
  `StaleSnoopIsFree`).
- Validation does not make a rarity rule drawable: one that locks a card of another rarity is accepted and fails on
  every draw (`AcceptedRarityRuleCanFail`). `AcceptedRulesDraw` has the exact condition, and `NeverFailsExactly` says
  when a draw of any mode succeeds for every seed.
- `weightedIndex` gives each index its exact share as long as the int64 sum does not wrap (`ExactUnlessOverflow`), and
  a cap holds as long as its total does not (`CapHoldsUnlessOverflow`).
- A purchase moves true amounts as long as no product of a unit amount and the bought amount wraps; an amount of 2^62
  is free at the store boundary (`PurchaseIsExactUnlessOverflow`, `WrappedPurchaseIsFree`). The API passes int32
  amounts, for which the ledger is exact with unit amounts of up to 32 digits (`ApiAmountsFit`, `RunsBalance`).
- The shortcut for five locked cards agrees with the table draw exactly on tables with five slots
  (`ShortcutNeedsFiveSlots`).
- The computed game day contains its instant exactly from 1970-01-01T06:00Z on, and at older resets, because Go
  division rounds toward zero (`GameDayContains`, `LimitSeesTheGift`).
- In a monotone history an addition raises its total by the count exactly when no row is later
  (`AddIsExactWhenCurrent`). An undated addition does not show while the counter has a dated row
  (`UndatedAddIsHidden`), but it lifts the maximum that the next fresh date starts from, where it shows in full
  (`UndatedAddShowsOnAFreshDate`).
- A purchase of poke gold credits nothing to a player without a pack state row (`PurchaseIsItsDelta`).
- A manifest whose span ends at 2^63 or beyond is accepted, and verifying it against the source file panics
  (`PanicsExactly`).
- A backup cut short by a write fault blocks the patch for good (`ShortBackupBlocks`).

## Model

| member | source | states |
|---|---|---|
| Emulators.Store.SelectEmulatorPlayer | internal/store/emulators.go:83-117 | reserves the player and revokes the emulator's sessions, or changes nothing; the check in the transaction makes the unique index unreachable |
| EmulatorLaws.SelectExactly | internal/store/emulators.go:83-117 | when a selection succeeds, each refusal, and the row, start time and ended sessions it leaves |
| Emulators.Store.ReleaseEmulator | internal/store/emulators.go:120-133 | keeps the last selection, gives up the reservation and revokes the sessions of its account |
| EmulatorLaws.ReleaseExactly | internal/store/emulators.go:120-133 | the flag and the sessions of the account go, the last selection and everything else stay |
| Emulators.Store.AuthorizeEmulator | internal/store/emulators.go:137-188 | binds a new session to the reserved player and revokes the sessions of the old and the new account, or changes nothing |
| EmulatorLaws.AuthorizeExactly | internal/store/emulators.go:137-188 | a login succeeds if and only if its fields are set, a player is actively reserved and the token is new, also after an earlier login; and everything it writes |
| EmulatorLaws.SecondLoginReplacesTheFirst | internal/store/emulators.go:156-182 | of two logins in a row the second succeeds and is accepted, and the first token never again, over any run |
| EmulatorLaws.DeleteExactly | internal/store/profile_lifecycle.go:220-280 | when deleting a player succeeds, and every row it changes |
| Emulators.Store.EmulatorPlayers | internal/store/emulators.go:64-79 | the map holds exactly the active reservations and loses none |
| Emulators.SelectKeepsSchema | internal/store/migrate.go:52-59 | a selection keeps the foreign keys and one active row for each player |
| Emulators.DeleteKeepsSchema | internal/store/profile_lifecycle.go:220-280 | deleting a player keeps them too |
| EmulatorRuns.AccountCollision | internal/store/emulators.go:141 | when two pairs of serial and device account share an account name |
| EmulatorRuns.EqualLengthsNeverCollide | internal/restapi/handler.go:196 | device accounts of one length never collide |
| EmulatorRuns.RunKeepsInv | internal/store/emulators.go:83-188 | every run keeps one reservation for each player and at most one live session for each emulator, for its current account and its reserved player |
| EmulatorRuns.ReachableStatesKeepInv | internal/store/emulators.go:83-188 | the same in every state reachable from a store without emulators, with sixteen-byte device accounts |
| EmulatorRuns.StepsAreIsolated | internal/store/emulators.go:81-82 | an operation on one emulator leaves the rows and sessions of all others alone |
| EmulatorRuns.DeleteIsInvisibleToRunningGames | internal/store/profile_lifecycle.go:220-280 | deleting a player disturbs no reservation and no live session |
| EmulatorRuns.AcceptsExactlyOwnSessions | internal/player/manager.go:776-788 | an emulator's server accepts a token exactly when it is its own live, unexpired session |
| EmulatorRuns.LoginIsUsable | internal/store/emulators.go:174-182 | a login yields a session for the reserved player that lasts its lifetime and no longer |
| EmulatorRuns.OthersKeepPlaying | internal/store/emulators.go:81-82 | over any run on other emulators a server accepts the same tokens |
| EmulatorRuns.SafeExactlyWhenCollisionFree | internal/store/emulators.go:135-141 | live sessions stay backed by reservations in all runs if and only if the device accounts are free of collisions |
| MultiRunner.Runner.OpenPlayer | internal/control/emulators.go:456-486 | every outcome and its cause; a launch reserves the player, and a failed one leaves exactly the previous row with its flag if the previous player can be taken back, whatever others commit meanwhile |
| MultiRunner.RestoreOutcome | internal/control/emulators.go:474-485 | what undoing a reservation leaves of every row and session, and that it succeeds if and only if the previous player can be taken back |
| MultiRunner.UndisturbedRestore | internal/control/emulators.go:469-485 | when the restoring selection is possible if nothing else commits |
| MultiRunner.Runner.ReleaseStopped | internal/control/emulators.go:352-383 | exactly the stopped managed emulators lose their reservation, and the store sees only releases; a running server keeps it for fifteen seconds after a launch |
| MultiRunner.Runner.GraceAfterLaunch | internal/control/emulators.go:359-376 | a running server keeps its account until its game is gone later than fifteen seconds after the launch |
| MultiRunner.Runner.Status | internal/control/emulators.go:335-399 | inspects the selected emulator, or the one found, and releases exactly what has stopped |
| MultiRunner.Runner.StopAll | internal/control/emulators.go:428-446 | releases exactly the managed emulators whose server is down and, unless a stop action failed, what the closing inspection finds stopped; every outcome and its cause |
| MultiRunner.Runner.UnusedAddress | internal/control/emulators.go:132-147 | the first offered address that no runtime uses, among at most 32 offers |
| MultiRunner.Runner.NewEntry | internal/control/emulators.go:155-170 | base ports for the first runtime, two different unclaimed ports for any other; fails only after 32 used offers in a row or without two unused ones |
| MultiRunner.Runner.Device | internal/control/emulators.go:149-196 | no two runtimes ever share a port; every outcome and its cause, and what a failure leaves |
| WeightedIndex.Pick | internal/packlab/engine.go:650-671 | the index whose interval holds the drawn value, index 0 without positive total, and how far the random stream is used; the last return is unreachable |
| WeightedIndex.ChosenIsUnique | internal/packlab/engine.go:661-669 | one value chooses one index, never one without positive weight |
| WeightedIndex.HitsAreAnInterval | internal/packlab/engine.go:660-669 | how many values choose an index, also when the total wrapped |
| WeightedIndex.ExactUnlessOverflow | internal/packlab/engine.go:650-671 | every index is chosen by exactly its weight's share of values if and only if the total fits an int64 |
| WeightedIndex.PickIsByWeight | internal/packlab/engine.go:650-671 | over any items the index is the one whose interval of their summed weights holds the value |
| WeightedIndex.SharesAreWeights | internal/packlab/engine.go:650-671 | each item has as many of the values as its weight |
| PackDraw.IllegalTables | internal/packlab/engine.go:465-492 | normal tables with slots first, positive ones preferred, then the fall-backs |
| DrawLaws.IllegalTablesExactly | internal/packlab/engine.go:465-492 | the eligible tables in the order of the pack |
| PackDraw.DrawFromTable | internal/packlab/engine.go:352-371 | the cards the seed determines: for each free slot a positive pool by weight, then a positive card of it by weight |
| DrawLaws.TableDrawByWeight | internal/packlab/engine.go:352-371 | slot after slot, a positive pool by the weight of the pools and a positive card by the weight of its cards, in terms of the catalogue fields |
| PackDraw.TableDrawFits | internal/packlab/engine.go:352-371 | one card for each slot: the locked one, or one of positive weight in a positive pool of the slot; fails only on a slot that can run dry |
| PackDraw.DrawOfficial | internal/packlab/engine.go:312-319 | a positive table by weight, then its cards |
| DrawLaws.OfficialDrawByWeight | internal/packlab/engine.go:312-319 | a positive table by the weight of the tables, then its slots |
| PackDraw.OfficialDrawFits | internal/packlab/engine.go:312-319 | every official booster comes from a table of positive weight, and when it can fail |
| PackDraw.FullyLockedPack | internal/packlab/engine.go:338-350 | found exactly for five locked cards, and returns them |
| PackDraw.ShortcutNeedsFiveSlots | internal/packlab/engine.go:331-350 | the shortcut is the table draw of every seed, and leaves the random stream where it was, if and only if the table has five slots |
| PackDraw.DrawTableMode | internal/packlab/engine.go:321-336 | the first table of the kind, or its five locked cards without using randomness |
| PackDraw.TableModeDrawFits | internal/packlab/engine.go:321-336 | the first table of the kind in the pack decides; locks are obeyed; five locked cards never fail |
| PackDraw.KeptInPlace | internal/packlab/engine.go:594-622 | the filters keep every value as often as it occurs and in its order |
| PackDraw.DrawRarityMode | internal/packlab/engine.go:373-396 | for each free slot one of the sorted cards of the rarity, uniformly |
| DrawLaws.RarityDrawInTurn | internal/packlab/engine.go:373-396 | each free slot takes the listed card that the next value names |
| PackDraw.RarityDrawFits | internal/packlab/engine.go:373-396 | exactly when it succeeds, and that every card has the rarity and locks are obeyed |
| Sorting.ListAscends | internal/packlab/engine.go:573-592 | the cards of a rarity are listed in ascending order |
| IllegalDraw.PoolChoices | internal/packlab/engine.go:438-455 | one choice for each positive pool that still offers a card, in the order of the slots, with its weight and exactly its cards |
| IllegalDraw.PoolsGrow | internal/packlab/engine.go:438-441 | the pools are those of the slots in turn |
| IllegalDraw.ChoicesOffer | internal/packlab/engine.go:438-455 | every choice leads to an offered card; there is none exactly when no card is offered |
| IllegalDraw.DrawCard | internal/packlab/engine.go:413-424 | a value for any card is always taken; then a choice by weight of the slot, or else of the table, and one of its cards |
| DrawLaws.CardDrawByWeight | internal/packlab/engine.go:413-424 | which offering pool and which of its cards the values name, in terms of the weights and rarities |
| IllegalDraw.CardDrawPrefers | internal/packlab/engine.go:413-424 | a card of the slot if one is left, else of the table if one is left, else any |
| IllegalDraw.Delete | internal/packlab/engine.go:427 | removes one card in place and keeps the order of the rest |
| IllegalDraw.DrawIllegal | internal/packlab/engine.go:398-431 | the shrinking array draws what the draw without replacement on lists does; the shared pool is untouched |
| DrawLaws.PoolDrawByWeight | internal/packlab/engine.go:398-404 | the table of a booster is an eligible one by the weight of the tables |
| IllegalDraw.IllegalCardsFit | internal/packlab/engine.go:405-429 | from any point on: succeeds exactly when enough cards are left, and every card is drawn from what the earlier ones left |
| IllegalDraw.PoolDrawFits | internal/packlab/engine.go:398-431 | exactly when an illegal draw succeeds, and what it yields |
| IllegalDraw.LegalDrawsAreDistinct | internal/packlab/engine.go:426-428 | all cards come from the pool, and without duplicates all ids differ |
| PackEngine.PoolIsFiltered | internal/packlab/engine.go:494-516 | the pool holds exactly the admitted cards, each once |
| PackEngine.IllegalCardPool | internal/packlab/engine.go:494-516 | builds that pool |
| PackEngine.Draw | internal/packlab/engine.go:260-310 | the boosters the rule and the seed determine, or the first error |
| PackEngine.ModeApplies | internal/packlab/engine.go:261-271 | exactly when a rule keeps its mode on a pack |
| PackEngine.ClampIsNearest | internal/packlab/engine.go:278-282 | the counts are clamped to the nearest admissible number |
| PackEngine.OutputsRepeat | internal/packlab/engine.go:567-572 | booster after booster takes the configured outputs in their order, over and over |
| PackEngine.DrawingFits | internal/packlab/engine.go:260-310 | the number of boosters and what each holds in the effective mode; drawable boosters never fail, and in rarity and illegal mode no other draw succeeds |
| PackFailures.NeverFailsExactly | internal/packlab/engine.go:260-371 | a draw succeeds for every seed if and only if each booster is drawable: what a value can reach has a pool and a card |
| PackEngine.AcceptedIllegalRule | internal/packlab/engine.go:224-243 | validation admits exactly the rules whose clamps change nothing and whose pool suffices |
| PackEngine.Preview | internal/packlab/engine.go:97-115 | a preview depends on nothing but the catalogue, the rule and the seed |
| PackEngine.AcceptedRulesDraw | internal/packlab/engine.go:192-310 | an accepted illegal rule always draws from a pack with tables: one booster for x1, the configured number for x10, each with the configured number of admitted cards; an accepted rarity rule draws if and only if the pack has a positive table and every lock used on it names a card of the rarity |
| PackEngine.AcceptedRarityRuleCanFail | internal/packlab/engine.go:249-258 | an accepted rarity rule that no seed ever draws: its lock names a card of another rarity |
| Words.XorUndoes | internal/cipher/cipher.go:79 | exclusive or with the same word twice changes nothing |
| Words.TurnsUndo | internal/cipher/cipher.go:79 | a rotation can be turned back |
| Words.XorDigits | internal/cipher/cipher.go:79 | exclusive or digit by digit |
| Words.RotateDigits | internal/cipher/cipher.go:79 | a rotation by any count carries each digit to its place modulo 32 |
| Rounds.QuarterInverse | internal/cipher/cipher.go:78-85 | the quarter round of section 2.1 of RFC 8439 can be run backwards |
| Rounds.RoundsInverse | internal/cipher/cipher.go:76-156 | any number of double rounds is a bijection of the states |
| Rounds.Column0 | internal/cipher/cipher.go:78-85 | the unrolled lines are the quarter round of their column |
| Rounds.Column1 | internal/cipher/cipher.go:88-95 | the same for the second column |
| Rounds.Column2 | internal/cipher/cipher.go:98-105 | the same for the third column |
| Rounds.Column3 | internal/cipher/cipher.go:108-115 | the same for the fourth column |
| Rounds.Diagonal0 | internal/cipher/cipher.go:118-125 | the unrolled lines are the quarter round of their diagonal |
| Rounds.Diagonal1 | internal/cipher/cipher.go:128-135 | the same for the second diagonal |
| Rounds.Diagonal2 | internal/cipher/cipher.go:138-145 | the same for the third diagonal |
| Rounds.Diagonal3 | internal/cipher/cipher.go:148-155 | the same for the fourth diagonal |
| Rounds.DoubleRound | internal/cipher/cipher.go:76-156 | the loop body is the column quarter rounds followed by the diagonal ones |
| Rounds.ColumnsThenDiagonals | internal/cipher/cipher.go:76-156 | the four columns and then the four diagonals, word by word (section 2.3 of RFC 8439) |
| Cipher.New | internal/cipher/cipher.go:27-51 | the state layout, and six to nine double rounds for every key and nonce |
| Cipher.RoundGap | internal/cipher/cipher.go:45-48 | the masks cut out digits 8, 2, 15 and 5 |
| Cipher.ConstantWords | internal/cipher/cipher.go:30-39 | the words of the constant |
| Cipher.StateHoldsKeyAndNonce | internal/cipher/cipher.go:30-43 | each key and nonce byte is at its little-endian place in the state |
| Cipher.BlockInPlace | internal/cipher/cipher.go:66-164 | the block function: the rounds plus the initial state with the counter in word 12 |
| Cipher.KeyBlockRunsBack | internal/cipher/cipher.go:66-164 | with the initial state and counter taken off again, the rounds lead back from the block to them |
| Cipher.Transform | internal/cipher/cipher.go:55-179 | every byte is combined with its own key stream byte; the counter wraps at 2^32 |
| Cipher.StreamIsTheBlocks | internal/cipher/cipher.go:166-176 | the key stream is the blocks of the counters modulo 2^32 in turn, word by word and lowest byte first |
| Cipher.SelfInverse | internal/cipher/cipher.go:53-54 | transforming twice gives the message back |
| Cipher.SplitsAtBlocks | internal/cipher/cipher.go:60-176 | a message may be cut at any block boundary with the counter carried on |
| Packer.Packer.PackWithNonce | internal/packer/packer.go:57-70 | the packet starts with the nonce and carries the body behind its own MAC |
| Packer.Packer.Unpack | internal/packer/packer.go:73-91 | accepts exactly the packets whose MAC matches the body they carry, and returns that body |
| Packer.Packer.RoundTrip | internal/packer/packer.go:55-91 | unpacking a packed body returns it, for every body and nonce |
| Feed.PollingIsHarmless | internal/store/packs.go:590-600 | looking at the power in between never changes what it will be |
| Feed.OneUnitEachPeriod | internal/store/packs.go:590-600 | power grows by one in each whole period up to the limit, and the timestamp is the last whole period |
| Feed.Store.ChallengeState | internal/store/feed.go:158-175 | creates the row at the limit, or stores the regenerated power |
| Feed.Store.BeginFeedSnoop | internal/store/feed.go:79-130 | reserves power for one feed, replays its own reservation, refuses otherwise |
| FeedLaws.SnoopsExactly | internal/store/feed.go:79-130 | when a snoop reserves, exactly the cost being enough, and everything it writes |
| FeedLaws.SecondSnoopExactly | internal/store/feed.go:91-99 | a second snoop answers for its own feed and refuses any other |
| Feed.Store.CommitFeedChallenge | internal/store/feed.go:177-234 | consumes the reservation or charges, then grants card, language stock and experience; replays a known challenge |
| FeedLaws.ChallengesExactly | internal/store/feed.go:177-234 | when a challenge is committed, with or without a reservation, exactly the cost being enough |
| FeedLaws.ChallengeWrites | internal/store/feed.go:205-232 | everything a committed challenge writes |
| FeedLaws.ReplaysExactly | internal/store/feed.go:186-204 | a known challenge or transaction answers with the power there is |
| FeedRuns.OthersOnlyRegenerate | internal/store/feed.go:94-121 | replays and errors change nothing but regenerated power |
| FeedRuns.FreshRequestsPay | internal/store/feed.go:122-128 | a fresh snoop pays its cost, a fresh challenge pays only without a reservation |
| FeedRuns.ChargeSticksUnlessStale | internal/store/feed.go:88-128 | what a paid snoop or challenge took is gone at the next look, less one unit for each whole period its player had been at the limit; it is gone in full if and only if the row was below the limit or less than a period old |
| FeedRuns.StaleSnoopIsFree | internal/store/feed.go:122-123 | five periods at the limit make a snoop of five units free |
| FeedRuns.StepKeepsInv | internal/store/feed.go:221-223 | a reservation and a challenge of one feed exclude each other, and power stays between 0 and 5 |
| FeedRuns.ChargedAtMostOnce | internal/store/feed.go:79-234 | over any run power is taken at most once for each player and feed |
| FeedRuns.ReservationIsHonoured | internal/store/feed.go:205-213 | a reserved challenge needs no further power |
| FeedRuns.GrantedExactlyOnce | internal/store/feed.go:218-232 | over any run each challenge row stands for one card, one language stock and 15 experience |
| ItemShop.Store.ChangeShopInventory | internal/store/item_shop.go:84-138 | prices need enough in an existing row; rewards create their row, except poke gold |
| ItemShop.Store.CommitShopPurchase | internal/store/item_shop.go:28-76 | commits once, replays the same payload, and leaves everything as it was on a replay or an error |
| ShopLaws.PurchaseAnswersExactly | internal/store/item_shop.go:28-76 | in true amounts: the limit is the answer if and only if the total exceeds it; otherwise a purchase succeeds if and only if the player exists, the price row holds the price and every reward can be given |
| ShopLaws.FreshPurchaseUnlocks | internal/store/item_shop.go:63-75 | a fresh purchase unlocks exactly its decks and recipes and records itself |
| ItemShop.Store.CountPurchases | internal/store/item_shop.go:78-82 | the sum over the rows of the product |
| ItemShop.PurchaseIsItsDelta | internal/store/item_shop.go:57-68 | each quantity changes by the true rewards minus the true price of a fresh purchase plus what wrapped products slip, and none becomes negative |
| ItemShop.RunsBalance | internal/store/item_shop.go:28-76 | over any run a quantity is its start plus true rewards minus true prices of the fresh purchases plus the slips, which are nothing when no product leaves the int64 range |
| ItemShop.ApiAmountsFit | internal/playerapi/item_shop_handlers.go:41-57 | int32 amounts and unit amounts of 32 digits never leave the int64 range |
| ItemShop.CommitsAreDistinct | internal/store/item_shop.go:39-46 | a transaction id commits at most once in a run |
| ItemShop.CapHoldsUnlessOverflow | internal/store/item_shop.go:54-56 | a purchase stays within its cap if and only if the total fits an int64 |
| ItemShop.RunsKeepTheCap | internal/store/item_shop.go:54-56 | no run exceeds a fixed cap |
| ItemShop.PurchaseIsExactUnlessOverflow | internal/store/item_shop.go:57-68 | a fresh purchase moves a quantity by exactly rewards minus price if and only if no product that concerns it overflows, or price and reward of one quantity fall short alike |
| ItemShop.WrappedPurchaseIsFree | internal/store/item_shop.go:57-68 | with an amount of 2^62 a price of 4 costs nothing and a reward of 4 grants nothing |
| ActionStates.Store.AddAction | internal/store/action_states.go:23-57 | adds to the row of the date, or starts it from the historical maximum |
| ActionStates.AddWrites | internal/store/action_states.go:23-57 | the one row an addition writes, and its count |
| ActionStates.DateIsTheGameDay | internal/store/action_states.go:28-31 | the date of a row is its game day |
| ActionStates.Store.ProjectActionTotals | internal/store/action_states.go:62-91 | writes each total that exceeds the maximum so far |
| ActionStates.ProjectWrites | internal/store/action_states.go:74-88 | a total is written if and only if it is above every row of its counter |
| ActionStates.ProjectInTurn | internal/store/action_states.go:74-90 | several totals are projected one after the other |
| ActionStates.Store.LatestActionTotals | internal/store/action_states.go:93-108 | for each counter the count of its latest row |
| ActionStates.LatestIsMax | internal/store/action_states.go:59-61 | in a monotone history the total a reader sees is the maximum |
| ActionStates.NextTotal | internal/store/action_states.go:35-52 | the total after any addition to any history: it continues the row of the date, or the maximum over all rows on a fresh date, or stays behind a later row |
| ActionStates.AddIsExactWhenCurrent | internal/store/action_states.go:42-52 | in a monotone history an addition raises the total a reader sees by exactly the count if and only if no row is later |
| ActionStates.RowsRefineCounters | internal/store/action_states.go:23-108 | over any run of dated operations the rows behave as one plain counter for each action, read at the latest row, and the stored maximum never falls |
| ActionStates.UndatedAddIsHidden | internal/store/action_states.go:28-52 | an undated addition leaves the total a reader sees as it was if and only if the counter has a dated row |
| ActionStates.UndatedAddShowsOnAFreshDate | internal/store/action_states.go:35-52 | how much of an undated addition the next dated one brings to light: nothing on a date with a row, all of it on a fresh date without an earlier undated row, else what it lifts the maximum by |
| ActionStates.UndatedAddBreaksOrder | internal/store/action_states.go:28-52 | when an undated addition leaves a history monotone |
| CardSocial.Store.GiveCard | internal/store/card_social.go:69-122 | moves one copy and records the gift, or refuses for the first reason that applies |
| CardSocial.GivesExactly | internal/store/card_social.go:69-104 | when a gift succeeds, two copies being enough |
| CardSocial.LimitsExactly | internal/store/card_social.go:82-95 | which daily limit a refused gift names |
| CardSocial.GiftWrites | internal/store/card_social.go:105-121 | everything a gift writes |
| CardSocial.RunsConserve | internal/store/card_social.go:105-111 | over any run the copies of each card over all players stay the same |
| CardSocial.RunsKeepOneADay | internal/store/card_social.go:82-95 | over any run no receiver has two gifts in one game day, even if the clock goes backwards |
| CardSocial.GiversKeepOne | internal/store/card_social.go:102-104 | whoever gave a card still holds it at the end of the run |
| CardSocial.LimitSeesTheGift | internal/store/card_social.go:180-183 | the daily limit recognises a gift at its own instant exactly when the game day contains it |
| GameTime.GameDayContains | internal/store/card_social.go:175-183 | the computed day contains the instant exactly from 1970-01-01T06:00Z on, and at older resets |
| GameTime.SpecialPackCycle | internal/playerapi/special_pack_handlers.go:177-186 | the window of seven days from Saturday 01:00 UTC that contains the instant, in closed form |
| GameTime.WindowsTile | internal/playerapi/special_pack_handlers.go:177-186 | instants share a window exactly when no reset lies between them, and windows follow without a gap |
| BinaryPatch.Disk.Equal | internal/binarypatch/patch.go:189-198 | equality of the bytes |
| BinaryPatch.Disk.Verify | internal/binarypatch/patch.go:89-110 | patched, original, or the first reason against it, or a panic |
| BinaryPatch.PanicsExactly | internal/binarypatch/patch.go:101-105 | an accepted span makes verifying panic on the source file if and only if its end wraps in an int64 |
| BinaryPatch.Disk.Apply | internal/binarypatch/patch.go:114-156 | backs up, patches in a buffer and writes, under any file-system fault |
| BinaryPatch.Disk.Rollback | internal/binarypatch/patch.go:159-182 | restores a verified backup over a verified patched file |
| BinaryPatch.AlwaysRecoverable | internal/binarypatch/patch.go:112-182 | no run of patches, roll-backs and faults loses the source, and a backup is never rewritten |
| BinaryPatch.OnlyTheSpanChanges | internal/binarypatch/patch.go:147-152 | outside the span no byte ever differs from the source |
| BinaryPatch.ApplySucceedsExactly | internal/binarypatch/patch.go:114-155 | the patch takes if and only if the manifest fits and the backup is missing or complete |
| BinaryPatch.ApplyWritesTheSpan | internal/binarypatch/patch.go:136-155 | the span holds exactly the replacement, and the backup is the source |
| BinaryPatch.FaultsKeepTheSource | internal/binarypatch/patch.go:116-155 | what each fault leaves |
| BinaryPatch.RollbackSucceedsExactly | internal/binarypatch/patch.go:159-182 | when a roll-back succeeds, and what it leaves |
| BinaryPatch.RollbackUndoesApply | internal/binarypatch/patch.go:112-182 | applying again changes nothing, and a roll-back restores every byte |
| BinaryPatch.ShortBackupBlocks | internal/binarypatch/patch.go:127-135 | a backup that was cut short is never replaced, so the patch never takes |

## Left out

- SQL text and SQLite itself: a transaction is one atomic step over maps; overflow of a quantity or of a sum inside the database is not modelled, and counts are unbounded there.
- Database failures: a statement fails only on a constraint it violates; locking and disk errors are not modelled.
- devices, device_players and receipt timestamps: written by these transactions, read by none of the checks.
- Cryptographic primitives: HMAC, deflate and SHA-256 are functions with the stated assumptions only (MAC length, inflate undoes deflate, no other bytes have the hash of the source).
- Concurrency inside one transaction: the write lock is taken first, so transactions are sequential; interleaving between transactions is covered by quantifying over runs.
- The order of SQL result rows: a loop over rows or over a Go map takes them in any order.
- The random generator: any sequence of values; its quality and the seed are not modelled.
- catalogRarityCodes: the codes of each rarity label are a field of the catalogue.
- Validate's regular expressions and hex decoding of a manifest: fields are given decoded; the span condition is a requirement.
- A fault in the middle of writing the target: target writes are atomic here, as the recovery property needs.
- HealChallengePower: it spends chargers and poke gold to move the power timestamp back; the power ledger here covers snoops and challenges only.
- The feed timeline, SendThankReward and desired cards: they write rows that no modelled check reads.
- HTTP and gRPC handlers, ADB, processes, ports, TLS and the user interface.
- MultiRunner.Runner.Device: restored runtime files are not checked for shared ports by the source either; the invariant is about runtimes this runner allocates.
- PackEngine.Accepted: blank card ids are those of spaces, tabs and line ends only, not every Unicode space.
