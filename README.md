# Connect Four with board rotation: a Dafny model of its core

This project models the core of a browser Connect Four variant. In this variant a player may rotate the board a quarter turn, and the stones then fall again. The model covers:

- **Board rotation and gravity** (`app/lib/boardRotationUtils.ts`). The module `BoardRotation` holds:
  - methods over `array2<Cell>` that fill a fresh board in nested loops;
  - the grid functions (`seq<seq<Cell>>`) that specify those methods;
  - lemmas about the grid functions: rotations undo each other, four left turns are the identity, gravity keeps every column's stones in order, gravity leaves no floating stone, and gravity is idempotent.
- **The in-memory TTL cache** (`app/lib/cache.ts`). The class `Cache.MemoryCache` keeps a `map` of entries with expiry times. A read deletes an expired entry, and a sweep deletes every expired entry. Map functions (`Read`, `AfterRead`, `Live`) state the effects, and lemmas show that a sweep is invisible to reads.
- **The game routes that use the cache.** These are matchmaking (`find-match`), leaving (`leave`) and fetching a game (`state`). Each is a method on the shared cache (`FindMatch`, `Leave`, `GameState`), with the values stored under `"waiting_players"` and `"active_games"` (`SessionTypes`). The lemmas cover the queue: first come, first paired; at most one player waits; a queued player's game id is reused by the opponent; and a player who queues twice is paired with themselves.
- **Monthly ranking months** (`utils/supabase/ranking.ts`), in the module `YearMonth`:
  - the digit extraction, the normal form `YYYYMMDD`, the display form `YYYY-MM`, the six spellings of a month, and the month context of a request;
  - the exact set of canonical spellings of any month. For a single-digit month M, the spelling `YYYY-M-01` has only seven digits and normalises to month `M0`, so January 2024 is also matched by `20241001` (October). The model reproduces this behaviour and proves it in `SingleDigitMonthAlsoMatchesTenfold`.
- **The monthly ranking route** (`MonthlyRanking`): filter, sort and reformat after the fetch.
- **The available-months route** (`AvailableMonths`): a loop that builds the set of display months, adds the current month, and lists them newest first.
- **The ranking dialog's `getRankedData`** (`RankingModal`): a stable sort by wins and a loop that assigns competition places (1, 1, 3).
- **Shared sequence code** (`Collections`): the JavaScript library behaviour the ranking code relies on.
  - A stable insertion sort, proved sorted, a permutation and stable.
  - Code-point string order, standing in for the code-unit order of `sort()` and, approximately, for `localeCompare`.
  - `reverse()` and `map()`.
  - `Array.from(new Set(xs))`.

Clocks, random ids and the database are parameters:

- `now` is the millisecond clock.
- `CalendarMonth` is today's year and month.
- `freshGameId` stands for `uuidv4()`.
- `cleanup` stands for `cleanupOldWaitingPlayers`.
- `fetched` is the database's answer.

## Model

| member | source | states |
|---|---|---|
| BoardRotation.RotateLeft | app/lib/boardRotationUtils.ts:9-15 | a left (anticlockwise) rotation of a square grid is a square grid of the same size |
| BoardRotation.RotateRight | app/lib/boardRotationUtils.ts:16-23 | a right (clockwise) rotation of a square grid is a square grid of the same size |
| BoardRotation.Rotate | app/lib/boardRotationUtils.ts:4-26 | rotation in either direction keeps the grid square and its size |
| BoardRotation.RightUndoesLeft | app/lib/boardRotationUtils.ts:9-23 | rotating right after rotating left gives back the original grid |
| BoardRotation.LeftUndoesRight | app/lib/boardRotationUtils.ts:9-23 | rotating left after rotating right gives back the original grid |
| BoardRotation.HalfTurn | app/lib/boardRotationUtils.ts:9-15 | two left turns send cell (i, j) to (n-1-i, n-1-j) |
| BoardRotation.FourLeftsAreIdentity | app/lib/boardRotationUtils.ts:9-15 | four left turns give back the original grid |
| BoardRotation.SettleKeepsStones | app/lib/boardRotationUtils.ts:36-42 | settling a column keeps its stones in the same top-to-bottom order |
| BoardRotation.SettleIsPermutation | app/lib/boardRotationUtils.ts:36-42 | a settled column holds the same cells as the original, rearranged |
| BoardRotation.SettleNoFloating | app/lib/boardRotationUtils.ts:36-42 | in a settled column every stone rests on a stone or on the bottom |
| BoardRotation.SettleFixesNoFloating | app/lib/boardRotationUtils.ts:36-42 | a column that has no floating stone is left unchanged |
| BoardRotation.SettleLayout | app/lib/boardRotationUtils.ts:36-42 | the bottom rows of a settled column hold its stones in order, and the rows above are empty |
| BoardRotation.SettleIdempotent | app/lib/boardRotationUtils.ts:36-42 | settling a settled column changes nothing |
| BoardRotation.ApplyGravity | app/lib/boardRotationUtils.ts:29-46 | gravity gives a board with the same number of rows and columns |
| BoardRotation.GravityColumn | app/lib/boardRotationUtils.ts:35-43 | each column of the result is that column settled on its own |
| BoardRotation.GravityKeepsColumns | app/lib/boardRotationUtils.ts:35-43 | gravity keeps each column's stones and their order, and stacks them at the bottom of the same column |
| BoardRotation.GravityNoFloating | app/lib/boardRotationUtils.ts:29-46 | after gravity no stone sits above an empty cell |
| BoardRotation.GravityFixpoints | app/lib/boardRotationUtils.ts:29-46 | gravity leaves a board unchanged exactly when no stone is floating |
| BoardRotation.GravityIdempotent | app/lib/boardRotationUtils.ts:29-46 | applying gravity twice is the same as applying it once |
| BoardRotation.RotateBoardMatrix | app/lib/boardRotationUtils.ts:4-26 | the rotated board is newly allocated with the same dimensions; it is filled by the index formulas of each direction, which amount to the grid rotation; the input is not modified |
| BoardRotation.ApplyGravityTo | app/lib/boardRotationUtils.ts:29-46 | the settled board is newly allocated with the same dimensions and equals gravity applied to the input grid; the input is not modified |
| BoardRotation.DropColumn | app/lib/boardRotationUtils.ts:36-42 | the `bottomRow` loop leaves one column of the new board equal to the settled column and touches no other column |
| BoardRotation.RotateAndSettleBoard | app/lib/boardRotationUtils.ts:49-57 | returns the rotated board and, newly allocated, that board after gravity; the settled board has no floating stone |
| Cache.Read | app/lib/cache.ts:15-25 | a read finds a value exactly when the key is present and not expired, and gives the stored value |
| Cache.AfterRead | app/lib/cache.ts:15-25 | reading an expired key deletes it; nothing else changes |
| Cache.Live | app/lib/cache.ts:36-43 | the sweep keeps exactly the entries that have not expired, unchanged |
| Cache.SweepIsInvisible | app/lib/cache.ts:36-43 | a read after a sweep sees the same value as a read without it |
| Cache.ReadThenSweep | app/lib/cache.ts:15-43 | a read followed by a sweep leaves the same entries as the sweep alone |
| Cache.SetThenRead | app/lib/cache.ts:10-25 | a value stored with a non-negative TTL is read back within the TTL and not after it |
| Cache.ReadAfterRead | app/lib/cache.ts:15-25 | a read of any key leaves what a later read at the same time sees unchanged |
| Cache.ReadOtherKey | app/lib/cache.ts:10-25 | storing under one key does not change what another key reads |
| Cache.MemoryCache.constructor | app/lib/cache.ts:8 | a new cache is empty |
| Cache.MemoryCache.Set | app/lib/cache.ts:10-13 | stores the value with expiry `now + ttl*1000` (TTL 300 s by default) and replaces any earlier entry |
| Cache.MemoryCache.Get | app/lib/cache.ts:15-25 | gives null for a missing key; for an expired key, deletes it and gives null; otherwise gives the value and changes nothing |
| Cache.MemoryCache.Delete | app/lib/cache.ts:27-29 | removes the key and reports whether it was present |
| Cache.MemoryCache.Clear | app/lib/cache.ts:31-33 | leaves the cache empty |
| Cache.MemoryCache.Cleanup | app/lib/cache.ts:36-43 | the loop deletes exactly the expired entries |
| Cache.MemoryCache.GetAllKeys | app/lib/cache.ts:46-48 | lists every key once and nothing else, and changes nothing |
| FindMatch.FindMatch | app/api/game/find-match/route.ts:6-89 | a missing `player_id` gives 400 and no change. Otherwise the cleaned queue is stored (TTL 30 s) with its head removed, and the reply pairs the caller with the head and reuses the head's game id; with an empty queue, the caller is appended with a fresh game id and the reply says waiting |
| FindMatch.PairingIsFifo | app/api/game/find-match/route.ts:31-52 | successive callers are paired with queued players in queue order, and the rest of the queue stays |
| FindMatch.AtMostOneWaiting | app/api/game/find-match/route.ts:31-66 | a queue of at most one player stays at most one; one waiting player is always taken |
| FindMatch.QueuedGameIsReused | app/api/game/find-match/route.ts:31-81 | of two callers on an empty queue, the first waits with a fresh game id and the second gets that game id and the first as opponent |
| FindMatch.SelfPairing | app/api/game/find-match/route.ts:31-51 | nothing stops a player who asks twice from being paired with themselves |
| Leave.WithoutPlayer | app/api/game/leave/route.ts:39-41 | the filtered queue is no longer than the queue |
| Leave.WithoutPlayerKeeps | app/api/game/leave/route.ts:39-41 | the filter removes exactly the entries of the leaving player |
| Leave.WithoutPlayerSplits | app/api/game/leave/route.ts:39-41 | filtering a concatenation filters each part |
| Leave.WithoutPlayerShrinks | app/api/game/leave/route.ts:39-49 | the queue gets shorter exactly when the player was in it, and an unchanged length means an unchanged queue |
| Leave.Leave | app/api/game/leave/route.ts:6-59 | a missing field gives 400 and no change. Otherwise the reply is success, with a player-left notice exactly when the game is among the live active games; the new store is both keys read (expired entries dropped), then the game map without the game stored again (TTL 300 s) when the game was active, then the queue without the player stored (TTL 30 s) only when that shortens it |
| Leave.LeaveForgetsPlayer | app/api/game/leave/route.ts:18-49 | read back after a leave, the active games are the live games before it less the left game, the queue is the live queue before it less the player's entries, and no queued entry is the player's |
| GameState.GetGameState | app/api/game/state/route.ts:5-36 | a missing `game_id` gives 400 and no change; otherwise the active games are read (deleting them if expired), giving 404 for an id that is not a key of the stored games and the game for one that is |
| YearMonth.Digits | utils/supabase/ranking.ts:5 | removing non-digits leaves only digits and never lengthens the string |
| YearMonth.DecimalValueOfShowNat | utils/supabase/ranking.ts:39 | `Number(String(n))` is `n` |
| YearMonth.TwoDigitRoundTrip | utils/supabase/ranking.ts:38-39 | `String(Number(mm))` gives back a two-digit month that has no leading zero |
| YearMonth.LeadingZeroRoundTrip | utils/supabase/ranking.ts:38-39 | `String(Number(mm))` drops the leading zero of a month such as "01" |
| YearMonth.PadStart2 | utils/supabase/ranking.ts:17 | padding gives at least two characters, the original at the end and zeros in front |
| YearMonth.PaddedMonth | utils/supabase/ranking.ts:17 | a calendar month is written as two digits that read back as the month |
| YearMonth.ExtractYearAndMonth | utils/supabase/ranking.ts:4-19 | with six digits or more the year and month are the first six digits; otherwise they are today's year and month, with the month padded to two digits |
| YearMonth.Normalize | utils/supabase/ranking.ts:21-29 | gives null exactly for a missing or empty value or one with fewer than six digits; otherwise eight digits, the first six of the value's digits followed by digits 7-8 or "01" |
| YearMonth.NormalizeFixpoints | utils/supabase/ranking.ts:21-29 | a string normalises to itself exactly when it is eight digits |
| YearMonth.NormalizeIdempotent | utils/supabase/ranking.ts:21-29 | normalising a normal form changes nothing |
| YearMonth.NormalizeOfDigits | utils/supabase/ranking.ts:21-29 | the normal form depends only on the digits: the first eight digits, or six digits and "01", or none |
| YearMonth.ToDisplay | utils/supabase/ranking.ts:31-35 | a value with a normal form is shown as "YYYY-MM" from its first six digits; any other value is returned as it is |
| YearMonth.ToDisplayIdempotent | utils/supabase/ranking.ts:31-35 | showing a shown month changes nothing |
| YearMonth.DisplayPieces | utils/supabase/ranking.ts:31-35 | "YYYY-MM" normalises to "YYYYMM01" and is its own display form |
| YearMonth.BuildVariants | utils/supabase/ranking.ts:37-51 | at most six spellings, each once, exactly those of the month, with "YYYYMM01" first |
| YearMonth.NormalizePlainSpellings | utils/supabase/ranking.ts:43-44 | "YYYYMM01" and "YYYYMM" both normalise to "YYYYMM01" |
| YearMonth.NormalizeDashedSpellings | utils/supabase/ranking.ts:45-47 | "YYYY-MM-01" and "YYYY-MM" both normalise to "YYYYMM01" |
| YearMonth.NormalizeSingleDigitSpellings | utils/supabase/ranking.ts:46-48 | for a single-digit month M, "YYYY-M-01" normalises to "YYYYM001" and "YYYY-M" to nothing |
| YearMonth.VariantNormalForms | utils/supabase/ranking.ts:37-51 | each spelling normalises to the canonical month, to month M0 for a single-digit month, or to nothing, and month M0 does occur |
| YearMonth.NormalizedAll | utils/supabase/ranking.ts:61-63 | dropping the values without a normal form never lengthens the list |
| YearMonth.NormalizedAllHolds | utils/supabase/ranking.ts:61-63 | the filtered list holds exactly the normal forms of the variants that have one, the first variant's first |
| YearMonth.NormalFormsFromTwo | utils/supabase/ranking.ts:61-63 | when every normal form is one of two values, so is every entry of the filtered list |
| YearMonth.NormalizedAllContains | utils/supabase/ranking.ts:61-63 | every variant with a normal form contributes it |
| YearMonth.CanonicalVariants | utils/supabase/ranking.ts:59-66 | each canonical spelling occurs once, and "YYYYMM01" is among them |
| YearMonth.CanonicalCandidates | utils/supabase/ranking.ts:59-66 | the list being deduplicated starts with the canonical month and otherwise holds only month M0 |
| YearMonth.CanonicalVariantsShape | utils/supabase/ranking.ts:53-74 | the canonical spellings are exactly ["YYYYMM01", "YYYYM001"] for a single-digit month and ["YYYYMM01"] otherwise |
| YearMonth.CanonicalVariantsAreNormal | utils/supabase/ranking.ts:59-66 | every canonical spelling is an eight-digit string that normalises to itself |
| YearMonth.GetMonthContext | utils/supabase/ranking.ts:53-74 | the canonical form is among the canonical spellings, which are distinct; the variants are distinct, at most six, and begin with the canonical form |
| YearMonth.ContextShape | utils/supabase/ranking.ts:53-74 | the context of a four-digit year and a two-digit month: display "YYYY-MM", canonical "YYYYMM01", which shows as the display and normalises from it, and the canonical spellings above |
| YearMonth.MonthContextShape | utils/supabase/ranking.ts:53-74 | whenever the year has four digits, the context of a request is the context of its extracted year and month |
| YearMonth.CurrentMonthContext | utils/supabase/ranking.ts:14-18 | without a value the display month reads back as today's year and month |
| YearMonth.ExtractFromDigits | utils/supabase/ranking.ts:4-12 | a value of six digits or more gives its own first four digits and next two |
| YearMonth.TenfoldInContext | utils/supabase/ranking.ts:46-66 | in the context of a single-digit month 0M, the canonical form of month M0 is a canonical spelling, differs from the canonical form, and is shown as month M0 |
| YearMonth.SingleDigitMonthAlsoMatchesTenfold | utils/supabase/ranking.ts:46 | a request for single-digit month M (such as January) also matches the stored spelling of month M0 (October), which differs from the canonical form and is shown as month M0 |
| MonthlyRanking.IsoYearMonth | app/api/ranking/monthly/route.ts:10 | the current UTC month as six digits that read back as the year and month |
| MonthlyRanking.RequestedMonth | app/api/ranking/monthly/route.ts:10 | the `year_month` parameter when present, otherwise the current UTC month's six digits |
| MonthlyRanking.Kept | app/api/ranking/monthly/route.ts:33-37 | the filter never lengthens the list |
| MonthlyRanking.KeptCounts | app/api/ranking/monthly/route.ts:33-37 | the filter keeps every copy of a row whose month normalises into the canonical spellings, and nothing else |
| MonthlyRanking.KeptAppend | app/api/ranking/monthly/route.ts:33-37 | the filter of a concatenation is the concatenation of the filtered parts, so the kept rows stay in fetch order |
| MonthlyRanking.KeptOne | app/api/ranking/monthly/route.ts:33-37 | a single row is kept exactly when its month passes the filter |
| MonthlyRanking.RowBeforeTotalPreorder | app/api/ranking/monthly/route.ts:39-43 | the comparator (more wins first, a missing count as 0; then names ascending, a missing name as '') is a total preorder |
| MonthlyRanking.Reformat | app/api/ranking/monthly/route.ts:45-48 | a response row is the input row with only its month replaced by its display form |
| MonthlyRanking.KeptHaveMonths | app/api/ranking/monthly/route.ts:33-37 | every kept row has a month that passes the filter |
| MonthlyRanking.Respond | app/api/ranking/monthly/route.ts:39-48 | there are as many response rows as kept rows |
| MonthlyRanking.MonthlyRanking | app/api/ranking/monthly/route.ts:6-67 | a failed fetch gives 500, and only a failed fetch does; otherwise the reply is a success whose rows are the response rows (`Respond`) of the fetched rows, null read as none, for the requested month's canonical spellings, and whose month is the requested month's display form |
| MonthlyRanking.RespondIsReformatted | app/api/ranking/monthly/route.ts:39-48 | the response is the sorted kept rows mapped through the reformatting, in order |
| MonthlyRanking.RespondCounts | app/api/ranking/monthly/route.ts:33-48 | the response holds each kept row, reformatted, exactly as many times as the filter kept it |
| MonthlyRanking.RespondSorted | app/api/ranking/monthly/route.ts:39-48 | the response rows are ordered by wins descending, then by name ascending |
| MonthlyRanking.RespondRowsAreKept | app/api/ranking/monthly/route.ts:33-48 | every response row is a kept input row with its month in display form |
| MonthlyRanking.KeptRowsAreInRespond | app/api/ranking/monthly/route.ts:33-48 | every kept input row appears in the response, reformatted |
| MonthlyRanking.DefaultMonthIsCurrent | app/api/ranking/monthly/route.ts:10-31 | without a parameter the response month is "YYYY-MM" of the current UTC month |
| MonthlyRanking.ParamMonthIsShown | app/api/ranking/monthly/route.ts:31-59 | a parameter with six digits or more is answered with that month in display form |
| MonthlyRanking.ShownFromDigits | utils/supabase/ranking.ts:31-35 | the display form of a value with six digits or more is its first four digits, a dash and the next two |
| MonthlyRanking.KeepInContext | app/api/ranking/monthly/route.ts:31-37 | a row is kept for a month exactly when its month normalises to "YYYYMM01" or, for a single-digit month, to "YYYYM001" |
| MonthlyRanking.KeptRowsOfMonth | app/api/ranking/monthly/route.ts:31-37 | the same for the month a request names |
| AvailableMonths.ShownByRowStep | app/api/ranking/available-months/route.ts:25-32 | one more row adds its own display month and nothing else |
| AvailableMonths.ShownMonthsMember | app/api/ranking/available-months/route.ts:23-33 | a month is offered to the `Set` by the first n rows exactly when one of them has a month that shows as it |
| AvailableMonths.CollectMonths | app/api/ranking/available-months/route.ts:23-33 | the collected months are the `Set` built from the rows' display months in row order: distinct, exactly the display forms of the rows that have a month, in order of first occurrence |
| AvailableMonths.NewestFirst | app/api/ranking/available-months/route.ts:40 | `sort().reverse()` of distinct months lists the same months in strictly descending order |
| AvailableMonths.AvailableMonths | app/api/ranking/available-months/route.ts:6-57 | a failed fetch gives 500; otherwise the months are strictly descending, and they are exactly the current month and the display form of every row with a month |
| Collections.Dedup | utils/supabase/ranking.ts:41-50 | `Array.from(new Set(s))` holds the same values, each once, no more of them, with the first value first |
| Collections.DedupFirstOccurrence | utils/supabase/ranking.ts:41-50 | `Array.from(new Set(s))` lists the values in the order of their first occurrence in `s` |
| Collections.DedupSnoc | app/api/ranking/available-months/route.ts:29 | adding a value to a `Set` appends it when it is new and changes nothing otherwise |
| Collections.SortBySorted | app/components/RankingModal.tsx:113 | the stable sort orders its result by any total preorder |
| Collections.SortBy | app/components/RankingModal.tsx:113 | sorting gives a permutation of its input |
| Collections.InsertTied | app/components/RankingModal.tsx:113 | inserting an element puts it ahead of every element tied with it |
| Collections.SortByStable | app/components/RankingModal.tsx:113 | the sort is stable: elements tied under the order come out in the order they went in |
| Collections.MapSeqEntry | app/api/ranking/monthly/route.ts:45-48 | entry i of `map(f)` is `f` of entry i |
| Collections.MapSeqAppend | app/api/ranking/monthly/route.ts:45-48 | `map(f)` of a concatenation is the concatenation of the mapped parts |
| Collections.MapSeqPermutes | app/api/ranking/monthly/route.ts:39-48 | `map(f)` of two arrangements of the same elements gives two arrangements of the same results |
| Collections.Reverse | app/api/ranking/available-months/route.ts:40 | `reverse()` reads the list back to front |
| Collections.SortedDescending | app/api/ranking/available-months/route.ts:40 | distinct values sorted ascending and then reversed are strictly descending, with the same members |
| Collections.LexLeTotalPreorder | app/api/ranking/monthly/route.ts:42 | code-point string order is a total preorder |
| Collections.LexLeAntisymmetric | app/api/ranking/available-months/route.ts:40 | two strings each ordered before the other are equal |
| Collections.DistinctPermutation | app/api/ranking/available-months/route.ts:40 | a rearranged list without repeats has none |
| RankingModal.WinsBeforeTotalPreorder | app/components/RankingModal.tsx:113 | ordering by wins descending is a total preorder |
| RankingModal.CompetitionPlaces | app/components/RankingModal.tsx:118-133 | in a list ordered by wins: the first row is placed 1; row i is placed between 1 and i+1, and exactly i+1 when it has fewer wins than the row before; equal wins share a place |
| RankingModal.CountAboveAntitone | app/components/RankingModal.tsx:118-128 | a row with fewer wins has at least as many rows above it |
| RankingModal.PlaceOfRow | app/components/RankingModal.tsx:119-120 | a row with fewer wins than the row before it is preceded by exactly as many better rows as its index |
| RankingModal.RankSorted | app/components/RankingModal.tsx:115-134 | over rows already ordered by wins, the loop keeps each row in place and gives it its competition place |
| RankingModal.GetRankedData | app/components/RankingModal.tsx:109-136 | rows stably sorted by wins descending, each given its competition place (1 + the number of rows with more wins), so places never decrease down the list; an empty list gives an empty result |

## Left out

- React hooks, UI components, the realtime broadcast and the database client are not part of this model. `broadcastGameEvent.playerLeft` becomes the `notices` output of `Leave.Leave`.
- `recordPlayerWin` (`utils/supabase/ranking.ts:78-140`) is left out. It reads and writes the database, with no logic beyond the month context, which is modelled.
- The five-minute `setInterval` sweep (`app/lib/cache.ts:55-59`) is left out. `Cache.MemoryCache.Cleanup` models one run of it.
- `cleanupOldWaitingPlayers` and the `Game` type are defined in a file that is not part of this model. The cleanup is a function parameter, and `Game` is reduced to an id and a status.
- `FindMatch.FindMatch`: the intermediate store of the cleaned queue is overwritten in the same call, so only the final store is stated. `joined_at` is the numeric `now`, not an ISO string.
- `Cache.MemoryCache.GetAllKeys`: the model does not state the insertion order of the keys, only which keys are listed, each once.
- `Cache.MemoryCache.Cleanup` deletes entries in an arbitrary order, not in the Map's insertion order; the end state is the same.
- `GameState.GetGameState`: the route's `activeGames[game_id]` is a JavaScript property lookup, which also finds members inherited from `Object.prototype`. For ids such as "constructor", "toString" or "__proto__" the source answers 200 with that member in place of a game; the model looks up own keys only and answers 404.
- `Leave.Leave`: for ids that name an inherited object member ("constructor", "toString", "__proto__"), the source's `activeGames[game_id]` test passes: it broadcasts a player-left event, its `delete` removes nothing, and it stores the game map again with a new 300 s TTL (an empty map if none was stored). The model looks up own keys only, so for such ids it produces no notice and no write of the games.
- `RankingModal.GetRankedData`: `wins` is a number here. The dialog's `RankingData` declares `wins: number`, but rows from the monthly route may carry a null count. The source's sort reads null as 0, while its tie test `===` does not, so a 0-win row and a null-win row would be placed 1 and 2. The model does not cover null counts.
- `Leave.Leave`: the route deletes the game from the object that is still held by the cache before storing it again. The model stores a new map; the end state is the same.
- `BoardRotation.RotateBoardMatrix`: the model requires a square, non-empty board. On a board that is not square, the source's index formulas read outside the board. Rotation of such boards (which would swap the dimensions) is not modelled. The source's rotation only indexes inside the board when the board is square.
- `BoardRotation.ApplyGravityTo`: the inner `bottomRow` loop is the separate method `DropColumn`. Cells are `Empty` or `Stone(colour)`, standing for `null` or a colour string.
- `Collections.LexLeTotalPreorder`: `localeCompare` is approximated by code-point (lexicographic) order, since locale collation is not modelled. The default `sort()` compares UTF-16 code units, and Dafny characters are Unicode scalar values. The two orders differ when a character above U+FFFF (a surrogate pair, led by U+D800–U+DBFF) meets a character in U+E000–U+FFFF: code-unit order puts the first before the second, code-point order puts it after.
- `AvailableMonths.AvailableMonths`: the months are sorted by code-point order rather than by `sort()`'s UTF-16 code-unit order. The two give different results only for stored months that do not normalise (they are returned unchanged) and that contain a character above U+FFFF set against one in U+E000–U+FFFF.
- `MonthlyRanking.IsoYearMonth`: `toISOString` pads years below 1000 and extends years above 9999. The model requires a four-digit UTC year instead. `RequestedMonth`, `MonthlyRanking` and the lemmas over them require it only when `year_month` is missing or empty, the one case where the route reads the clock.
- `MonthlyRanking.KeptRowsOfMonth` and `YearMonth.MonthContextShape` require a four-digit year, which is the only case that yields two canonical spellings.
- `MonthlyRanking.MonthlyRanking`: UTC (`toISOString`) and local time (`new Date()` in `extractYearAndMonth`) are separate parameters. Their relation is not modelled.
- `MonthlyRanking.RankingRow`: columns passed through by the spread (`...ranking`) are represented by `id`.
- `RankingModal.GetRankedData`: the fallback `|| i` for a previous rank of 0 is modelled, though it is never taken, because every assigned rank is at least 1.
- Console logging and the `catch` branches that turn exceptions into 500 replies are left out. No modelled operation throws, except that a failed fetch is a value.
- Concurrency: every request runs to completion before the next one starts.
