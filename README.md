# Bulls-and-cows game server (corpPR4), modelled in Dafny

The repository is a small multiplayer code-guessing game ("bulls and cows",
scored with black and white pegs) served over HTTP. This project models its
game logic in two versions.

- **The round engine** (`internal/services/gameService.go`, module
  `GameService`). Up to four players join a lobby and mark themselves ready.
  A round starts once every player (at least two) is ready. The secret is two
  random digits, and the turn order is a random permutation of the players.
  The player holding the turn guesses two digits, and the guess is scored with
  black pegs (right digit, right place) and white pegs (right digit, wrong
  place). A non-winning guess passes the turn to the next slot, wrapping
  round. Two blacks end the round and record a summary of who guessed how
  often. A background sweep evicts the player holding the turn once they have
  been idle for longer than 30 seconds, and calls the round off when fewer
  than two players would remain.
- **The older prototype** (`server/game.go`, module `Server`). Players join
  as `player1`, `player2`, ... and guess strings of the secret's length, with
  at most ten tries each. The first exact match wins the round, and the round
  is then reset with a fresh four-digit secret.

Both versions score guesses with the same greedy algorithm. Module `Pegs`
defines that algorithm once, generically, as the functions `Blacks`,
`ExactFlags`, `FirstFree`, `WhitePass` and `Evaluate`, and proves its
properties:
- the pegs never exceed the secret's length;
- full blacks happen exactly when the guess equals the secret;
- black + white is the number of symbols the two have in common, counted
  with multiplicity;
- the score depends only on which positions hold equal symbols.

The two imperative scorers, `GameService.EvaluateGuess` on `[2]int` and
`Server.CheckGuess` on strings, are each proved equal to `Pegs.Evaluate`. The
lemma `Server.CheckGuessAgreesWithEvaluateGuess` then ties the two versions
together on two-digit inputs.

The service's state is a class whose methods update its fields in place. Its
invariant is `GameService.Valid`:
- players are filed under their own IDs, have unique names, and number at
  most four;
- every attempts entry belongs to a player;
- during a round, the turn order is a duplicate-free listing of the ready
  set, the ready set holds every player, there are at least two of them, and
  the turn index is in range;
- outside a round the turn order is empty.

The fields the invariant constrains are also available as one value
(`Roster`), so each operation states its new state as a function of the old
one (`Played`, `Advance`, `Close`, `Evict`).

Module `Models` holds the record shapes of `internal/models`.

## Model

| member | source | states |
|---|---|---|
| Pegs.ExactFlagsCount | internal/services/gameService.go:229-234 | the exact pass flags as many secret positions as it counts black pegs |
| Pegs.FirstFree | internal/services/gameService.go:239-245 | the inner white loop claims the first secret position that is unused and holds the guessed symbol, or none when there is none |
| Pegs.BlacksBound | internal/services/gameService.go:229-234 | the black count over the first n positions is at most n, and equals n exactly when all n positions match |
| Pegs.FullBlackIffEqual | internal/services/gameService.go:193 | for a guess as long as the secret, black == length exactly when the guess is the secret, so "black == 2" is a correct win test |
| Pegs.WhitePassMarks | internal/services/gameService.go:235-246 | at every step of the white pass, the used secret positions number exactly black + white so far, so no secret position is counted twice |
| Pegs.PegsBound | internal/services/gameService.go:224-248 | black + white never exceeds the secret's length |
| Pegs.PegsAreCommonSymbols | internal/services/gameService.go:224-248 | black + white equals the size of the multiset intersection of secret and guess, so the greedy first-match pass neither misses nor double-counts |
| Pegs.EvaluatePattern | server/game.go:205-231 | the score depends only on which guess and secret positions hold equal symbols, not on the symbols themselves |
| Pegs.EvaluateValues | internal/services/gameService.go:180-188 | scoring digit characters gives the same pegs as scoring their numeric values, as ProcessGuess's conversion does |
| GameService.FullRotation | internal/services/gameService.go:93 | after as many non-winning guesses as there are players the turn is back with its holder, and not earlier, so every player gets a turn |
| GameService.RemoveAt | internal/services/gameService.go:67 | splicing the evicted slot out of a duplicate-free turn order removes exactly that player and keeps it duplicate-free |
| GameService.EvictKeepsPlayersOk | internal/services/gameService.go:64 | deleting a player keeps IDs, unique names and the size cap |
| GameService.EvictKeepsRoundOk | internal/services/gameService.go:64-81 | the shorter order with the wrapped index is a well-formed round, or a well-formed lobby when fewer than two remain |
| GameService.TouchKeepsPlayersOk | internal/services/gameService.go:134 | refreshing a player's activity stamp keeps the player-record invariant |
| GameService.Played | internal/services/gameService.go:176-189 | stamping the guesser and counting the guess keeps the roster invariant |
| GameService.Advance | internal/services/gameService.go:89-97 | passing the turn during a round keeps the roster invariant and the round active |
| GameService.Turn | internal/services/gameService.go:217-219 | a non-winning guess by the turn holder keeps the turn order, the players and the ready set, and moves the turn to the next slot, so FullRotation applies to it |
| GameService.Close | internal/services/gameService.go:212-213 | clearing the ready set and the turn order at the end of a round keeps the roster invariant |
| GameService.EvictKeepsOk | internal/services/gameService.go:62-81 | an eviction from a valid round leaves a valid roster |
| GameService.EvictRemovesOnlyIdle | internal/services/gameService.go:64-73 | an eviction removes exactly the idle player from players, attempts, ready set and turn order, leaves every other record as it was, and lets the round go on exactly when more than two players were in it |
| GameService.EvictPassesTurn | internal/services/gameService.go:67-81 | when the round goes on after an eviction, the turn passes to the player after the evicted one, as a non-winning guess would pass it |
| GameService.ReadyKeepsOk | internal/services/gameService.go:134-135 | marking a lobby player ready keeps the invariant |
| GameService.StartKeepsOk | internal/services/gameService.go:143-158 | a duplicate-free order of all ready players starts a valid round when every player (at least two) is ready |
| GameService.EvaluateGuess | internal/services/gameService.go:224-248 | the two loops compute exactly Pegs.Evaluate, black + white <= 2, and black == 2 exactly when the guess equals the code |
| GameService.ParseGuess | internal/services/gameService.go:180-186 | the guess is accepted exactly when both leading characters are digits, and then yields their values |
| GameService.GameService.constructor | internal/services/gameService.go:29-40 | a new service has an empty lobby, no round and no result, and is valid |
| GameService.GameService.HasName | internal/services/gameService.go:111-115 | the scan reports a taken name exactly when some player has it |
| GameService.GameService.AddPlayer | internal/services/gameService.go:99-120 | the errors in source order (round running, lobby full, duplicate name) with no state change; a join that passes all three checks succeeds and adds exactly the new player |
| GameService.GameService.StartNewRound | internal/services/gameService.go:143-158 | the new round has no attempts, turn 0, the drawn secret, no result, and a turn order that lists every ready player exactly once |
| GameService.GameService.MarkReady | internal/services/gameService.go:122-141 | unknown and already-ready players are refused with no change; a known player who is not ready always succeeds, is stamped and marked ready, and the round starts exactly when at least two players are ready and all of them are; the round's timestamps change only when a round starts |
| GameService.GameService.AdvanceTurn | internal/services/gameService.go:89-97 | during a round the new state is Advance of the old one; outside a round nothing changes |
| GameService.GameService.AttemptItems | internal/services/gameService.go:196-202 | the summary items list every attempts entry exactly once, under the player's name |
| GameService.GameService.EndRound | internal/services/gameService.go:193-215 | the round closes, and the result records winner, name, code, start, end and every player's count |
| GameService.GameService.PlayTurn | internal/services/gameService.go:176-219 | the pegs are Pegs.Evaluate; the guesser is stamped and counted; then the turn passes on (the new state is Turn of the old one), or on two blacks the round ends with the guesser as winner |
| GameService.GameService.ProcessGuess | internal/services/gameService.go:160-222 | the errors in source order (no round, not your turn, non-digit guess), with nothing changed beyond the guesser's activity stamp; a two-digit guess by the turn holder always succeeds and is played as PlayTurn states |
| GameService.GameService.Sweep | internal/services/gameService.go:46-85 | outside a round or with an active turn holder nothing changes; an idle turn holder is evicted exactly as Evict states; the secret, the result and the round's timestamps are never touched |
| GameService.GameService.EvictCurrent | internal/services/gameService.go:62-81 | the new state is Evict of the old one, and the invariant is kept |
| GameService.GameService.GetStatus | internal/services/gameService.go:250-265 | the status reports round flag, player and ready counts, and the name of the turn holder during a round; during a round every player is ready |
| GameService.GameService.GetTurnOrder | internal/services/gameService.go:267-275 | the names of the turn order's players in order, without duplicates, empty outside a round |
| GameService.GameService.GetResult | internal/services/gameService.go:277-282 | no result is reported while a round runs |
| Server.CheckGuess | server/game.go:205-231 | the two loops compute exactly Pegs.Evaluate; black + white <= length of the secret; on equal lengths black == length exactly when guess == secret |
| Server.MarkExact | server/game.go:206-215 | the black pass counts exactly Blacks and flags exactly the matching positions on the secret side and the guess side, in two fresh, distinct arrays |
| Server.ClaimFree | server/game.go:221-227 | the inner loop claims the first unused secret position holding the guessed character (FirstFree), flags only that position, and reports whether there was one |
| Server.CheckGuessAgreesWithEvaluateGuess | server/game.go:205-231 | on two-digit inputs CheckGuess's score equals evaluateGuess's score on the digit values |
| Server.ToUpper | server/game.go:159 | upper-casing leaves digits as they are and turns no other character into a digit |
| Server.ToUpperKeepsScore | server/game.go:159-160 | upper-casing the guess never changes its score against a digit secret, nor whether it equals the secret |
| Server.DecimalInjective | server/game.go:102 | different player counts render as different decimal strings |
| Server.JoinIdInjective | server/game.go:102 | "player%d" IDs of different numbers differ |
| Server.JoinIdFresh | server/game.go:102-103 | a join never overwrites an existing player, because the new ID differs from every ID handed out since the last reset |
| Server.CountAttempt | server/game.go:158 | Attempts++ raises one player's count by one and leaves the other players as they were |
| Server.CountAttemptKeepsOk | server/game.go:147-158 | counting a guess of a player with tries left keeps the roster invariant (IDs, cap, at most MaxTries) |
| Server.Game.constructor | server/game.go:46-55 | a new game has a one-digit secret, no players, cap 4, ten tries, no winner, and is not started |
| Server.Game.Join | server/game.go:93-111 | a full lobby is refused with no change; otherwise exactly one player with a fresh "player%d" ID and no attempts is added |
| Server.Game.Start | server/game.go:57-67 | with two or more players the game starts and nothing else changes |
| Server.Game.Guess | server/game.go:113-169 | the rejections in source order (unknown player, not started, round over, no tries left, wrong length) with no change; a guess that passes all five checks is always scored: the attempt is counted, the pegs are Pegs.Evaluate, and the guesser becomes winner exactly when the guess equals the secret |
| Server.Game.Attempt | server/game.go:157-168 | an accepted guess is counted and scored, and wins exactly when it equals the secret |
| Server.Game.Reset | server/game.go:198-203 | a four-digit secret, no players, no winner, not started |

## Left out

- Concurrency: the mutexes, `sync.Cond`, the `go` statements and the 5-second ticker are not modelled. Each public operation is one atomic method, and `monitorInactivity` is one call of `Sweep` per tick.
- Clocks: timestamps are natural numbers of seconds passed in as `now`, and `time.Since(t) > timeout` is `now - t > 30`.
- Randomness: the random digits of the secret are parameters (`code`). The fresh UUID of `models.NewPlayer` is the parameter `id`, required not to be a current player.
- Turn order: map iteration order and `rand.Shuffle` are a nondeterministic choice (`:|`) in `StartNewRound`. Its contract therefore promises a duplicate-free listing of the ready players, not any particular distribution.
- Logging: `log.Println`, `fmt.Printf` and `fmt.Println` are not modelled.
- Output files: `persistResult`, `utils.SaveGameResultToXML` and `saveResult` are not modelled. The file name in `saveResult` formats a string with `%d`, which is outside the model.
- HTTP layer: the gin handlers' JSON binding, status codes and bodies become the outcome datatypes `GuessOutcome` and `JoinOutcome` and the error kinds of `GameError`. A request that fails JSON binding is answered before any state is touched, so it is not modelled.
- GameService.GameService.ProcessGuess: requires at least two characters. The Go code indexes `guess[0]` and `guess[1]` without a check, and the controller admits only guesses of length 2 (internal/controllers/gameController.go:62).
- GameService.GameService.ProcessGuess: checks the digits before stamping the guesser's activity, where the source stamps first. The stamp is applied on both paths, so the resulting state is the same.
- GameService.GameService.ProcessGuess: the `EmptyTurnOrder` error is kept, but the invariant rules it out, since an active round has at least two slots.
- GameService.GameService.Sweep: the source's branch for a turn holder missing from `players` is proved unreachable under the invariant and holds `assert false`.
- Player.LastActive: the source updates it through pointers stored in the map; here player records are values that are replaced in the map. No other holder of those pointers is modelled.
- GameService.GameService.AttemptItems: the order of the summary items is Go's map iteration order, so only the set of items and their count are promised.
- GameService.GameService.GetStatus: returns a `Status` record instead of a `map[string]interface{}`.
- Strings: modelled as sequences of characters, one per byte. `strings.ToUpper` is modelled on the ASCII letters only, and guesses with multi-byte characters are not modelled.
- Server.Game: the `StartTime` field and the Run loop's polling and waiting are left out. Its steps are the methods `Start` (a round starts once two players have joined) and `Reset` (after a win).
- Server.Game.constructor: takes the `generateCode(1)` secret as a parameter, and `Reset` takes the `generateCode(4)` secret.
- The client (`client/`), the router and the `main` packages are not part of this model.
