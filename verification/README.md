# Swiss-system tournament: pairing engine and record store

`tournament.py` runs a Swiss-system tournament on top of a PostgreSQL database.
This project models two parts of it.

- **The record store.** It holds the registered contestants `(id, name, wins, losses)` and an append-only log of match results `(winner, loser)`. Its operations register a player, record a result, and reset the matches or the players. It is the class `Store.Tournament`, which answers two queries: the standings ordered by wins, and the number of players. Whether two players have met is `Records.HasPlayed`, asked of the store's match log. The invariant `Valid()` says four things:
  - player ids are unique;
  - player ids are below the next id to hand out;
  - every id in the match log is below the next id to hand out;
  - each player's counters equal the number of wins and losses the log records for that id.

  `AddWin` and `AddLoss` can be called on their own, as in the source, and then the counters no longer agree with the log. So no operation asks for more than the first three facts (`WellFormed()`), and `SwissPairings` asks for nothing. `DeleteMatches` and `DeletePlayers` restore `Valid()`. `RegisterPlayer` and `ReportMatch` keep it when it held before.
- **The pairing engine.** It is `swissPairings`, a greedy pass over the ranked standings. The pass pops the top remaining player and scans the rest in rank order for the first player the top player has not met. It pops that player and emits the pair, and repeats until at most one player is left.
  - The method `Swiss.PairRound` is that loop. It is proved equal to the recursive function `Swiss.Pairings`.
  - The properties of the pass are proved about `Swiss.Pairings`: how many players it pairs, that no player is paired twice, that there are no rematches, and that it follows the ranking.
  - When the scan finds no opponent the top player has not met, the model returns `Unpairable(done, player)`. That is the case where the source indexes past the end of its list (see Findings).

Modules:
- `Records` (records.dfy): the entities and the questions asked of the match log.
- `Standings` (standings.dfy): the ordering by wins.
- `Swiss` (pairing.dfy): the pairing engine.
- `Store` (store.dfy): the store class.

## Model

| member | source | states |
|---|---|---|
| Records.PlayedCount | tournament.py:122-123 | the `count(*)` of records between a and b, in either role, never more than the records there are; whether it is zero is stated by HasPlayedMeansRecorded and HasPlayedSymmetric |
| Records.HasPlayed | tournament.py:119-127 | the history oracle: true when that count is not zero; HasPlayedMeansRecorded and HasPlayedSymmetric state its meaning |
| Records.View | tournament.py:98 | the standings row of a player keeps its id, name and wins, and its matches played exceed its wins by exactly its losses |
| Records.Views | tournament.py:89-98 | one row per player, in the same order, each the player's own row: same id, name and wins, with matches played equal to wins plus losses |
| Records.HasPlayedMeansRecorded | tournament.py:119-127 | two players have met exactly when some record names them as winner and loser, in either order |
| Records.HasPlayedSymmetric | tournament.py:122-127 | the number of recorded meetings, and so the has-played answer, is the same whichever player is named first |
| Records.CountsAfterReport | tournament.py:104-117 | appending (w, l) to the log adds one win for w and one loss for l, and changes no other id's counts |
| Records.HasPlayedAfterReport | tournament.py:113-127 | after (w, l) is recorded, two players have met exactly when they had met before or they are w and l |
| Records.NoRecordsOfFreshId | tournament.py:65-79 | an id above every id in the log has no wins and no losses, so a new player's zero counters agree with the log |
| Standings.Insert | tournament.py:98 | placing one row into rows sorted by wins (most first) keeps them sorted and adds exactly that row and its id |
| Standings.SortByWins | tournament.py:98 | the result has non-increasing wins and is a permutation of the input rows (same multiset of rows and of ids) |
| Swiss.UsedIdsListed | tournament.py:153 | the set of players a list of pairings uses is the set of ids the pairings list, first and second players alike |
| Swiss.RemoveAt | tournament.py:152 | pop(i) shortens the working list by one |
| Swiss.RemoveAtIds | tournament.py:152 | pop(i) removes exactly the id of the i-th row from the multiset of ids |
| Swiss.Scan | tournament.py:149-151 | the scan index is at most the list length; every row before it has met the top player; the row at it, if any, has not |
| Swiss.FirstUnmet | tournament.py:149-151 | the inner while loop stops at the index Scan describes |
| Swiss.ScanStops | tournament.py:149-151 | any index up to which every row has been met, and at which the rows run out or one has not been met, is the scan's index |
| Swiss.Pairings | tournament.py:147-154 | the outcome of the greedy pass on a working list, the reference the loop is proved against; it never emits more than half as many pairs as there are players |
| Swiss.PairRound | tournament.py:145-154 | the pop/scan/pop/append loop returns the outcome of the greedy pass on the standings it is given |
| Swiss.PairingsDrawFromInput | tournament.py:147-153 | every paired id, finished pass or not, comes from the input, no more often than it occurs there |
| Swiss.PairingsCount | tournament.py:147-153 | a finished pass makes ⌊n/2⌋ pairs |
| Swiss.PairingsCover | tournament.py:147-153 | a finished pass leaves exactly n mod 2 of the input's players unpaired |
| Swiss.EvenRoundPairsEveryone | tournament.py:132-133 | with an even number of players, a finished pass pairs every player exactly once |
| Swiss.PairingsUsePlayersOnce | tournament.py:148-152 | with unique ids in the standings, no id appears in two pairs and no player is paired with themself |
| Swiss.PairingsAvoidRematches | tournament.py:149-153 | no emitted pair has met before |
| Swiss.UnpairedSub | tournament.py:147-152 | the players still unpaired are drawn from the standings: no new id, none more often than in the standings |
| Swiss.UnpairedRemove | tournament.py:152 | popping the i-th unpaired player leaves the standings less the paired players plus that one: the working list is always the ranked standings less those already paired |
| Swiss.FirstStepIsGreedy | tournament.py:148-152 | a step that finds an opponent pairs the top remaining player with the first lower-ranked player it has not met, and every player between them has met it |
| Swiss.FollowsRanking | tournament.py:147-153 | each pair's first player is the highest-ranked player still unpaired, and its second is the highest-ranked unpaired player the first has not met; a finished pass leaves at most one player; a stuck pass is stuck on a player who has met every other unpaired player |
| Swiss.TopPlayerExhausted | tournament.py:150 | when the top player has met every other player, the pass is stuck at once on that player |
| Swiss.AdjacentAt | tournament.py:134-135 | the k-th neighbour pairing joins the rows ranked 2k and 2k + 1 |
| Swiss.FreshRoundPairsNeighbours | tournament.py:132-135 | when no two players have met, the pass pairs standings neighbours: first with second, third with fourth, and so on |
| Swiss.SkipsPreviousOpponent | tournament.py:149-153 | with P1..P4 ranked in order and P1 having beaten P2, the pass pairs (P1, P3) and then (P2, P4) |
| Swiss.InRangeAsWritten | tournament.py:147-152 | every row the unchecked scan reads exists: at each step the scan stops at an unmet row before the list runs out; AsWrittenAgrees states when that holds |
| Swiss.PairingsAsWritten | tournament.py:147-153 | the loop without the bound check, where it stays in range, makes ⌊n/2⌋ pairs |
| Swiss.AsWrittenAgrees | tournament.py:147-153 | the unchecked loop stays in range exactly when the checked pass finishes, and then both give the same pairs |
| Swiss.ScanOverrun | tournament.py:150 | with P1 and P2 where P1 has beaten P2, the scan index reaches the end of the list and the unchecked loop leaves its range |
| Store.Find | tournament.py:48-49 | the lookup by id finds a position holding that id, or reports that no player has it |
| Store.Tournament.DeleteMatches | tournament.py:15-26 | from any well-formed store (even one whose counters were changed directly), the log becomes empty and every player keeps id and name with wins and losses 0, so the counters agree with the log again |
| Store.Tournament.DeletePlayers | tournament.py:29-34 | from any well-formed store, the player list becomes empty; the match log is kept and the store is valid |
| Store.Tournament.RegisterPlayer | tournament.py:65-79 | from any well-formed store, appends a player with a fresh id and zero counters and returns true; a store whose counters agreed with the log still does |
| Store.Tournament.AddWin | tournament.py:45-53 | the registered player's wins go up by one; nothing else changes |
| Store.Tournament.AddLoss | tournament.py:55-63 | the registered player's losses go up by one; nothing else changes |
| Store.Tournament.ReportMatch | tournament.py:104-117 | from any well-formed store, appends (winner, loser) to the log, credits one win to the winner and one loss to the loser, and changes no other counter; a store whose counters agreed with the log still does |
| Store.CreditsMatchLog | tournament.py:113-116 | crediting the result to every player keeps each player's counters equal to the counts of the extended log |
| Store.CreditedInTwoSteps | tournament.py:115-116 | a win credited to the winner, then a loss credited to the loser, is the result credited to every player |
| Store.Tournament.PlayerStandings | tournament.py:83-101 | every player's row (id, name, wins, wins + losses), ordered by non-increasing wins; a permutation of the players' rows |
| Store.Tournament.CountPlayers | tournament.py:36-43 | the number of players is the length of the standings |
| Store.Tournament.SwissPairings | tournament.py:129-154 | in any store state, the result is the greedy pass over the current standings, with the match log as history |
| Store.StandingsIdsUnique | tournament.py:89-91 | in a well-formed store, including one changed by a direct AddWin or AddLoss, no id occurs twice in the standings, so the pairing lemmas that need unique ids apply |
| Store.StandingsReflectLog | tournament.py:89-98 | each standings row belongs to a registered player; its wins and matches played are what the log records for that id |

## Left out

- Database access is not modelled: connections, cursors, commits and closes. The store is in memory and each operation is one atomic step.
- The SQL text is not modelled; only its meaning is.
- `connect()` (tournament.py:10-12) is never called by the other functions, so it has no counterpart.
- The `bleach` import is unused.
- Store.Tournament.ReportMatch: the source inserts the match row and commits before `addWin`/`addLoss` look the players up. With an unregistered id, the row is therefore committed and then `fetchone()` returns nothing and the call fails. The model refuses atomically instead: it returns false and changes nothing. The source's half-applied state is not modelled.
- Store.Tournament.AddWin: requires the id to be registered. On an unregistered id the source's lookup returns no row and indexing it fails, and that failure is not modelled.
- Store.Tournament.AddLoss: requires the id to be registered, for the same reason as AddWin.
- Store.Tournament.ReportMatch: the three separately committed steps, and lost updates under concurrent callers, are not modelled.
- Store.Tournament.RegisterPlayer: the database's serial id is modelled as a counter `nextId`. The `matches` column the insert also sets to 0 is not modelled, because it is never read: matches played are computed as wins + losses.
- Store.Tournament.DeletePlayers: the source removes every contestant and leaves the matches table alone. Whether the database then cascades or refuses depends on the schema, which is not part of this model.
- Store.Tournament.PlayerStandings: `ORDER BY wins DESC` fixes no order among players with equal wins. The contract promises only non-increasing wins and a permutation of the players' rows. The insertion sort in `Standings.SortByWins` is one admissible order, and no lemma depends on which one.
- Swiss.PairRound: the source pops from a Python list in place. The model's working list is a `seq` that the loop reassigns, and the list is a copy the method owns, so aliasing plays no part.

## Findings

| source | as written | input that shows it | evidently intended | confidence | as-written member | corrected member |
|---|---|---|---|---|---|---|
| tournament.py:150 | `while hasPlayed(player1[0], standings[i][0])` reads `standings[i]` with no bound check, so when the top remaining player has met everyone left the scan runs past the end of the list | standings P1, P2 with P1 having already beaten P2 | stop the scan at the end of the list and report that no unmet opponent remains | not executed | Swiss.ScanOverrun | Swiss.PairRound |
