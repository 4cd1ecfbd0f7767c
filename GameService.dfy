/** The round engine of internal/services/gameService.go: a lobby of at most
    four players who mark themselves ready, a round that starts once every
    player is ready, turn-based two-digit guesses scored with black and white
    pegs, and an idle-eviction sweep.

    Every public operation of the source runs under one mutex; each is
    modelled here as one atomic method of the class GameService. The clock,
    the random secret, the random turn order and the fresh UUID are
    parameters or nondeterministic choices. */
module GameService {
  import opened Models
  import opened Pegs

  /** Lobby capacity checked by AddPlayer. */
  const MaxPlayers := 4

  /** inactivityTimeout, in seconds (the timestamps' unit). */
  const InactivityTimeout := 30

  datatype GameError =
    | RoundInProgress   // "game in progress; cannot join"
    | LobbyFull         // "maximum 4 players allowed"
    | DuplicateName     // "player with such name already exists"
    | PlayerNotFound    // "player not found"
    | AlreadyReady      // "player already marked as ready"
    | NoActiveRound     // "no active round"
    | EmptyTurnOrder    // "no players in turn order"
    | NotYourTurn       // "not your turn"
    | InvalidGuess      // "guess must be digits 0-9"

  datatype Option<T> = None | Some(value: T)

  datatype Result<T> = Ok(value: T) | Err(error: GameError)

  /** What ProcessGuess hands back on success. */
  datatype GuessReply = GuessReply(black: nat, white: nat, message: string)

  /** The projection returned by GetStatus. */
  datatype Status = Status(roundActive: bool, players: nat, ready: nat, currentTurn: string)

  predicate IsDigit(c: char)
  {
    '0' <= c <= '9'
  }

  ghost predicate NoDup<T>(s: seq<T>)
  {
    forall i, j :: 0 <= i < j < |s| ==> s[i] != s[j]
  }

  /** The turn index after one non-winning guess: the next slot, wrapping
      from the last slot to the first. */
  function NextTurn(cur: nat, n: nat): (next: nat)
    requires cur < n
    ensures next == if cur + 1 < n then cur + 1 else 0
  {
    (cur + 1) % n
  }

  /** The turn index after k non-winning guesses in a row. */
  function Rotate(cur: nat, n: nat, k: nat): (r: nat)
    requires cur < n
    ensures r < n
  {
    if k == 0 then cur else NextTurn(Rotate(cur, n, k - 1), n)
  }

  lemma {:induction false} RotateShifts(cur: nat, n: nat, k: nat)
    requires cur < n && k <= n
    ensures Rotate(cur, n, k) == if cur + k < n then cur + k else cur + k - n
  {
    if k > 0 {
      RotateShifts(cur, n, k - 1);
    }
  }

  /** After as many non-winning guesses as there are players in the turn
      order, the turn is back with the player who had it, and not before. */
  lemma FullRotation(cur: nat, n: nat)
    requires cur < n
    ensures Rotate(cur, n, n) == cur
    ensures forall k :: 0 < k < n ==> Rotate(cur, n, k) != cur
  {
    RotateShifts(cur, n, n);
    forall k | 0 < k < n
      ensures Rotate(cur, n, k) != cur
    {
      RotateShifts(cur, n, k);
    }
  }

  lemma {:induction false} SubsetSize<T>(a: set<T>, b: set<T>)
    requires a <= b
    ensures |a| <= |b|
    decreases a
  {
    if a != {} {
      var x :| x in a;
      SubsetSize(a - {x}, b - {x});
    }
  }

  lemma SubsetSameSize<T>(a: set<T>, b: set<T>)
    requires a <= b && |a| == |b|
    ensures a == b
  {
    if a != b {
      var x :| x in b && x !in a;
      SubsetSize(a, b - {x});
    }
  }

  /** Splicing position k out of a duplicate-free sequence removes exactly
      the element at k. */
  lemma RemoveAt<T>(s: seq<T>, k: nat)
    requires NoDup(s) && k < |s|
    ensures NoDup(s[..k] + s[k + 1..])
    ensures forall x :: x in s[..k] + s[k + 1..] <==> x in s && x != s[k]
  {
    var t := s[..k] + s[k + 1..];
    assert forall i :: 0 <= i < |t| ==> t[i] == s[if i < k then i else i + 1];
    forall x | x in s && x != s[k]
      ensures x in t
    {
      var i :| 0 <= i < |s| && s[i] == x;
      assert t[if i < k then i else i - 1] == x;
    }
  }

  /** Player records are filed under their own ID, names are unique, and
      the lobby holds at most MaxPlayers players. */
  ghost predicate PlayersOk(ps: map<PlayerId, Player>)
  {
    && (forall id :: id in ps ==> ps[id].id == id)
    && (forall a, b :: a in ps && b in ps && ps[a].name == ps[b].name ==> a == b)
    && |ps| <= MaxPlayers
  }

  /** Readiness and turn order: outside a round there is no turn order; in a
      round every player is ready and the turn order is a permutation of the
      ready set with at least two entries and a valid current index. */
  ghost predicate RoundOk(ids: set<PlayerId>, ready: set<PlayerId>, order: seq<PlayerId>, turn: nat, active: bool)
  {
    && ready <= ids
    && NoDup(order)
    && (forall i :: 0 <= i < |order| ==> order[i] in ready)
    && (active ==>
          && 2 <= |order|
          && turn < |order|
          && |ready| == |order|
          && ready == ids
          && (forall id :: id in ready ==> id in order))
    && (!active ==> order == [])
  }

  lemma EvictKeepsPlayersOk(ps: map<PlayerId, Player>, p: PlayerId)
    requires PlayersOk(ps)
    ensures PlayersOk(ps - {p}) && (ps - {p}).Keys == ps.Keys - {p}
  {
    SubsetSize((ps - {p}).Keys, ps.Keys);
  }

  /** Splicing the player holding the turn out of a running round leaves a
      well-formed round, or a well-formed lobby when fewer than two would
      remain. */
  lemma EvictKeepsRoundOk(ids: set<PlayerId>, ready: set<PlayerId>, order: seq<PlayerId>, turn: nat)
    requires RoundOk(ids, ready, order, turn, true)
    ensures var p, rest := order[turn], order[..turn] + order[turn + 1..];
            && |rest| == |order| - 1
            && (|rest| < 2 ==> RoundOk(ids - {p}, {}, [], 0, false))
            && (|rest| >= 2 ==> RoundOk(ids - {p}, ready - {p}, rest, if turn < |rest| then turn else 0, true))
  {
    RemoveAt(order, turn);
  }

  /** A player's record with its activity stamp refreshed. */
  function Touch(ps: map<PlayerId, Player>, id: PlayerId, now: nat): (r: map<PlayerId, Player>)
    requires id in ps
    ensures r.Keys == ps.Keys
  {
    ps[id := ps[id].(lastActive := now)]
  }

  lemma TouchKeepsPlayersOk(ps: map<PlayerId, Player>, id: PlayerId, now: nat)
    requires id in ps
    ensures PlayersOk(ps) ==> PlayersOk(Touch(ps, id, now))
  {
    var r := Touch(ps, id, now);
    assert |r| == |r.Keys| == |ps.Keys| == |ps|;
  }

  /** attempts[id]++ on a Go map, where a missing key reads as zero. */
  function Bump(m: map<PlayerId, nat>, id: PlayerId): map<PlayerId, nat>
  {
    m[id := (if id in m then m[id] else 0) + 1]
  }

  /** The fields of a GameService that its invariant constrains, as one
      value: the players, the attempt counts, the ready set, the turn order,
      the index of the slot holding the turn, and whether a round runs. */
  datatype Roster = Roster(
    players: map<PlayerId, Player>,
    attempts: map<PlayerId, nat>,
    ready: set<PlayerId>,
    order: seq<PlayerId>,
    turn: nat,
    active: bool)

  ghost predicate RosterOk(r: Roster)
  {
    && PlayersOk(r.players)
    && r.attempts.Keys <= r.players.Keys
    && RoundOk(r.players.Keys, r.ready, r.order, r.turn, r.active)
  }

  /** A guess by `id` at `now`: the guesser's activity is stamped and the
      guess is counted. */
  function Played(r: Roster, id: PlayerId, now: nat): (p: Roster)
    requires id in r.players
    ensures RosterOk(r) ==> RosterOk(p)
  {
    TouchKeepsPlayersOk(r.players, id, now);
    r.(players := Touch(r.players, id, now), attempts := Bump(r.attempts, id))
  }

  /** advanceTurn: the next slot of the turn order, wrapping round, gets the
      turn, and its player's activity is stamped. */
  function Advance(r: Roster, now: nat): (a: Roster)
    requires RosterOk(r) && r.active
    ensures RosterOk(a) && a.active
  {
    var next := NextTurn(r.turn, |r.order|);
    TouchKeepsPlayersOk(r.players, r.order[next], now);
    r.(turn := next, players := Touch(r.players, r.order[next], now))
  }

  /** The end of a round: nobody is ready any more and the turn order is
      cleared; players and attempt counts stay. */
  function Close(r: Roster): (c: Roster)
    ensures RosterOk(r) ==> RosterOk(c)
  {
    r.(ready := {}, order := [], active := false)
  }

  /** A non-winning guess by the player holding the turn at time `now`: the
      guess is played and the turn passed on. The turn order stays and the
      turn moves to the next slot, so by FullRotation every player in the
      order guesses once before the first guesser's turn comes back. */
  function Turn(r: Roster, now: nat): (t: Roster)
    requires RosterOk(r) && r.active
    ensures RosterOk(t) && t.active
    ensures t.order == r.order && t.turn == NextTurn(r.turn, |r.order|)
    ensures t.players.Keys == r.players.Keys && t.ready == r.ready
  {
    Advance(Played(r, r.order[r.turn], now), now)
  }

  /** The sweep's eviction of the player holding the turn: they leave the
      players, the ready set, the attempts and the turn order; with fewer
      than two left the round is called off, otherwise the turn index stays
      where it was, wrapping to the first slot past the end. */
  function Evict(r: Roster): (e: Roster)
    requires r.active && r.turn < |r.order|
  {
    var gone, rest := r.order[r.turn], r.order[..r.turn] + r.order[r.turn + 1..];
    if |rest| < 2 then
      Roster(r.players - {gone}, r.attempts - {gone}, {}, [], 0, false)
    else
      Roster(r.players - {gone}, r.attempts - {gone}, r.ready - {gone}, rest,
             if r.turn < |rest| then r.turn else 0, true)
  }

  lemma EvictKeepsOk(r: Roster)
    requires RosterOk(r) && r.active
    ensures RosterOk(Evict(r))
  {
    EvictKeepsPlayersOk(r.players, r.order[r.turn]);
    EvictKeepsRoundOk(r.players.Keys, r.ready, r.order, r.turn);
  }

  /** An eviction removes exactly the idle player, leaves every other
      player's record as it was, and lets the round go on exactly when more
      than two players were in it. */
  lemma EvictRemovesOnlyIdle(r: Roster)
    requires RosterOk(r) && r.active
    ensures var gone, e := r.order[r.turn], Evict(r);
            && e.players.Keys == r.players.Keys - {gone}
            && (forall id :: id in e.players ==> e.players[id] == r.players[id])
            && gone !in e.attempts && gone !in e.ready && gone !in e.order
            && (e.active <==> |r.order| > 2)
            && (e.active ==> |e.order| == |r.order| - 1)
  {
    EvictKeepsPlayersOk(r.players, r.order[r.turn]);
    RemoveAt(r.order, r.turn);
  }

  /** When the round goes on, the turn passes to the player who came after
      the evicted one, as a non-winning guess would have passed it. */
  lemma EvictPassesTurn(r: Roster)
    requires RosterOk(r) && r.active && |r.order| > 2
    ensures Evict(r).order[Evict(r).turn] == r.order[NextTurn(r.turn, |r.order|)]
  {
    var rest := r.order[..r.turn] + r.order[r.turn + 1..];
    if r.turn < |rest| {
      assert rest[r.turn] == r.order[r.turn + 1];
    } else {
      assert rest[0] == r.order[0];
    }
  }

  /** Marking a lobby player ready keeps the invariant. */
  lemma ReadyKeepsOk(r: Roster, id: PlayerId, now: nat)
    requires RosterOk(r) && !r.active && id in r.players
    ensures RosterOk(r.(players := Touch(r.players, id, now), ready := r.ready + {id}))
  {
    TouchKeepsPlayersOk(r.players, id, now);
  }

  /** A turn order that lists every ready player once starts a well-formed
      round, provided every player is ready and there are at least two. */
  lemma StartKeepsOk(r: Roster, order: seq<PlayerId>)
    requires RosterOk(r) && !r.active && |r.ready| >= 2 && |r.ready| == |r.players|
    requires NoDup(order) && |order| == |r.ready| && (forall id :: id in order <==> id in r.ready)
    ensures RosterOk(r.(attempts := map[], order := order, turn := 0, active := true))
  {
    SubsetSameSize(r.ready, r.players.Keys);
  }

  /** The items of a round summary list every attempts entry once, under the
      player's name (their order is Go's map order, so it is left open). */
  ghost predicate ListsAttempts(items: seq<AttemptItem>, attempts: map<PlayerId, nat>, players: map<PlayerId, Player>)
    requires attempts.Keys <= players.Keys
  {
    && |items| == |attempts|
    && (forall id :: id in attempts ==> AttemptItem(players[id].name, attempts[id]) in items)
    && (forall it :: it in items ==> exists id :: id in attempts && it == AttemptItem(players[id].name, attempts[id]))
  }

  /** evaluateGuess: black pegs for equal positions, then white pegs for the
      first unused equal digit elsewhere. */
  method EvaluateGuess(code: Code, guess: Code) returns (black: nat, white: nat)
    ensures Score(black, white) == Evaluate(code, guess)
    ensures black + white <= 2
    ensures black == 2 <==> guess == code
  {
    black, white := 0, 0;
    var usedCode := new bool[2](_ => false);
    var usedGuess := new bool[2](_ => false);
    for i := 0 to 2
      invariant black == Blacks(code, guess, i)
      invariant forall j :: 0 <= j < 2 ==> usedCode[j] == (j < i && guess[j] == code[j])
      invariant forall j :: 0 <= j < 2 ==> usedGuess[j] == (j < i && guess[j] == code[j])
    {
      if guess[i] == code[i] {
        black := black + 1;
        usedCode[i], usedGuess[i] := true, true;
      }
    }
    assert usedGuess[..] == ExactFlags(code, guess);
    assert usedCode[..] == WhitePass(code, guess, 0).1;
    for i := 0 to 2
      invariant (white, usedCode[..]) == WhitePass(code, guess, i)
      invariant usedGuess[..] == ExactFlags(code, guess)
    {
      if usedGuess[i] {
        continue;
      }
      ghost var before := usedCode[..];
      var j := 0;
      while j < 2
        invariant 0 <= j <= 2
        invariant usedCode[..] == before
        invariant FirstFree(code, before, guess[i], j) == FirstFree(code, before, guess[i], 0)
        modifies usedCode
      {
        if !usedCode[j] && guess[i] == code[j] {
          white := white + 1;
          usedCode[j] := true;
          break;
        }
        j := j + 1;
      }
    }
    PegsBound(code, guess);
    FullBlackIffEqual(code, guess);
  }

  /** The digit check and conversion loop of ProcessGuess. */
  method ParseGuess(guess: string) returns (digits: Option<Code>)
    requires |guess| >= 2
    ensures digits.Some? <==> IsDigit(guess[0]) && IsDigit(guess[1])
    ensures digits.Some? ==> digits.value == Values(guess[..2])
  {
    var parsed: seq<int> := [];
    for i := 0 to 2
      invariant |parsed| == i
      invariant forall j :: 0 <= j < i ==> IsDigit(guess[j]) && parsed[j] == DigitValue(guess[j])
    {
      if !IsDigit(guess[i]) {
        return None;
      }
      parsed := parsed + [DigitValue(guess[i])];
    }
    assert parsed == Values(guess[..2]);
    return Some(parsed);
  }

  class GameService {
    var players: map<PlayerId, Player>
    var readyPlayers: set<PlayerId>
    var turnOrder: seq<PlayerId>
    var currentTurn: nat
    var secretCode: Code
    var attempts: map<PlayerId, nat>
    var roundActive: bool
    var roundStart: nat
    var roundEnd: nat
    var result: Option<GameResult>

    /** The fields the invariant constrains, as one value. */
    function State(): Roster
      reads this
    {
      Roster(players, attempts, readyPlayers, turnOrder, currentTurn, roundActive)
    }

    /** The state invariant kept by every operation. */
    ghost predicate Valid()
      reads this
    {
      RosterOk(State()) && (roundActive ==> result == None)
    }

    /** NewGameService, without the background sweep goroutine. */
    constructor ()
      ensures Valid()
      ensures players == map[] && readyPlayers == {} && turnOrder == [] && attempts == map[]
      ensures !roundActive && currentTurn == 0 && result == None
    {
      players := map[];
      readyPlayers := {};
      turnOrder := [];
      currentTurn := 0;
      secretCode := [0, 0];
      attempts := map[];
      roundActive := false;
      roundStart := 0;
      roundEnd := 0;
      result := None;
    }

    /** The duplicate-name scan of AddPlayer. */
    method HasName(name: string) returns (taken: bool)
      ensures taken <==> exists id :: id in players && players[id].name == name
    {
      var ids := players.Keys;
      while ids != {}
        invariant ids <= players.Keys
        invariant forall id :: id in players && id !in ids ==> players[id].name != name
        decreases ids
      {
        var id :| id in ids;
        if players[id].name == name {
          return true;
        }
        ids := ids - {id};
      }
      return false;
    }

    /** AddPlayer: join the lobby under the fresh ID `id` at time `now`. */
    method AddPlayer(name: string, id: PlayerId, now: nat) returns (r: Result<Player>)
      requires Valid()
      requires id !in players
      modifies this
      ensures Valid()
      ensures old(roundActive) ==> r == Err(RoundInProgress)
      ensures !old(roundActive) && |old(players)| >= MaxPlayers ==> r == Err(LobbyFull)
      ensures !old(roundActive) && |old(players)| < MaxPlayers ==>
                ((exists k :: k in old(players) && old(players)[k].name == name) <==> r == Err(DuplicateName))
      ensures (!old(roundActive) && |old(players)| < MaxPlayers
               && !(exists k :: k in old(players) && old(players)[k].name == name)) ==> r.Ok?
      ensures r.Err? ==> unchanged(this)
      ensures r.Ok? ==>
                && r.value == Player(id, name, now)
                && State() == old(State()).(players := old(players)[id := r.value])
                && |players| == |old(players)| + 1
      ensures secretCode == old(secretCode) && result == old(result)
      ensures roundStart == old(roundStart) && roundEnd == old(roundEnd)
    {
      if roundActive {
        return Err(RoundInProgress);
      }
      if |players| >= MaxPlayers {
        return Err(LobbyFull);
      }
      var taken := HasName(name);
      if taken {
        return Err(DuplicateName);
      }
      var player := Player(id, name, now);
      players := players[id := player];
      return Ok(player);
    }

    /** startNewRound: `code` stands for the two rand.Intn(10) draws; the
        order in which the loop picks IDs stands for map iteration followed
        by rand.Shuffle, so the turn order may be any permutation. */
    method StartNewRound(code: Code, now: nat)
      requires Valid()
      requires !roundActive
      requires |readyPlayers| >= 2 && |readyPlayers| == |players|
      modifies this
      ensures Valid()
      ensures State() == old(State()).(attempts := map[], order := turnOrder, turn := 0, active := true)
      ensures NoDup(turnOrder) && |turnOrder| == |readyPlayers|
      ensures forall id :: id in turnOrder <==> id in readyPlayers
      ensures secretCode == code && roundStart == now && result == None && roundEnd == old(roundEnd)
    {
      var r := State();
      secretCode := code;
      var order: seq<PlayerId> := [];
      var rest := readyPlayers;
      while rest != {}
        invariant rest <= readyPlayers
        invariant NoDup(order)
        invariant |order| + |rest| == |readyPlayers|
        invariant forall i :: 0 <= i < |order| ==> order[i] in readyPlayers && order[i] !in rest
        invariant forall id :: id in readyPlayers ==> id in rest || id in order
        decreases rest
      {
        var pid :| pid in rest;
        order := order + [pid];
        rest := rest - {pid};
      }
      StartKeepsOk(r, order);
      roundStart, result := now, None;
      Commit(r.(attempts := map[], order := order, turn := 0, active := true));
    }

    /** MarkReady; `code` is the secret drawn if this call starts the round. */
    method MarkReady(id: PlayerId, now: nat, code: Code) returns (r: Result<bool>)
      requires Valid()
      modifies this
      ensures Valid()
      ensures id !in old(players) ==> r == Err(PlayerNotFound)
      ensures id in old(players) && id in old(readyPlayers) ==> r == Err(AlreadyReady)
      ensures old(roundActive) ==> r.Err?
      ensures id in old(players) && id !in old(readyPlayers) ==> r.Ok?
      ensures r.Err? ==> unchanged(this)
      ensures roundEnd == old(roundEnd)
      ensures r.Ok? ==>
                && id in old(players) && id !in old(readyPlayers)
                && r.value == roundActive
                && readyPlayers == old(readyPlayers) + {id}
                && players == Touch(old(players), id, now)
                && (roundActive <==> |readyPlayers| >= 2 && |readyPlayers| == |players|)
      ensures r.Ok? && roundActive ==>
                && secretCode == code && roundStart == now && currentTurn == 0
                && attempts == map[] && result == None
                && NoDup(turnOrder) && |turnOrder| == |readyPlayers|
                && (forall p :: p in turnOrder <==> p in readyPlayers)
      ensures r.Ok? && !roundActive ==>
                && turnOrder == old(turnOrder) && attempts == old(attempts) && result == old(result)
                && secretCode == old(secretCode) && currentTurn == old(currentTurn)
                && roundStart == old(roundStart)
    {
      if id !in players {
        return Err(PlayerNotFound);
      }
      if id in readyPlayers {
        return Err(AlreadyReady);
      }
      var s := State();
      ReadyKeepsOk(s, id, now);
      Commit(s.(players := Touch(players, id, now), ready := readyPlayers + {id}));
      if |readyPlayers| >= 2 && |readyPlayers| == |players| {
        StartNewRound(code, now);
      }
      return Ok(roundActive);
    }

    /** advanceTurn: pass the turn on and stamp the next player's activity. */
    method AdvanceTurn(now: nat)
      requires Valid()
      modifies this
      ensures Valid()
      ensures !old(roundActive) ==> unchanged(this)
      ensures old(roundActive) ==> State() == Advance(old(State()), now)
      ensures result == old(result) && secretCode == old(secretCode)
      ensures roundStart == old(roundStart) && roundEnd == old(roundEnd)
    {
      if |turnOrder| == 0 {
        return;
      }
      var next := (currentTurn + 1) % |turnOrder|;
      var a := State().(turn := next, players := Touch(players, turnOrder[next], now));
      assert a == Advance(State(), now);
      Commit(a);
    }

    /** The attemptItems loop of ProcessGuess. */
    method AttemptItems() returns (items: seq<AttemptItem>)
      requires attempts.Keys <= players.Keys
      ensures ListsAttempts(items, attempts, players)
    {
      items := [];
      ghost var order: seq<PlayerId> := [];
      var rest := attempts.Keys;
      while rest != {}
        invariant rest <= attempts.Keys
        invariant |items| == |order| && |order| + |rest| == |attempts|
        invariant forall i :: 0 <= i < |order| ==>
                    order[i] in attempts && order[i] !in rest
                    && items[i] == AttemptItem(players[order[i]].name, attempts[order[i]])
        invariant forall id :: id in attempts ==> id in rest || id in order
        decreases rest
      {
        var pid :| pid in rest;
        items := items + [AttemptItem(players[pid].name, attempts[pid])];
        order := order + [pid];
        rest := rest - {pid};
      }
      forall it | it in items
        ensures exists id :: id in attempts && it == AttemptItem(players[id].name, attempts[id])
      {
        var i :| 0 <= i < |items| && items[i] == it;
        assert order[i] in attempts;
      }
      forall id | id in attempts
        ensures AttemptItem(players[id].name, attempts[id]) in items
      {
        var i :| 0 <= i < |order| && order[i] == id;
        assert items[i] == AttemptItem(players[id].name, attempts[id]);
      }
    }

    /** The round-ending branch of ProcessGuess, taken on black == 2: the
        round is closed and its summary recorded (persistResult, which writes
        it out, is not modelled). */
    method EndRound(id: PlayerId, now: nat) returns (message: string)
      requires Valid() && roundActive && id in players
      modifies this
      ensures Valid()
      ensures State() == Close(old(State()))
      ensures secretCode == old(secretCode) && roundStart == old(roundStart) && roundEnd == now
      ensures result.Some?
      ensures result.value.winnerId == id && result.value.winnerName == players[id].name
      ensures result.value.code == secretCode && result.value.start == roundStart && result.value.end == now
      ensures ListsAttempts(result.value.attempts, attempts, players)
      ensures message == "Player " + players[id].name + " guessed the code!"
    {
      var s := State();
      roundEnd := now;
      var items := AttemptItems();
      result := Some(GameResult(roundStart, roundEnd, secretCode, items, id, players[id].name));
      Commit(Close(s));
      message := "Player " + players[id].name + " guessed the code!";
    }

    /** The effect of a well-formed guess `digits` by `id`, the player
        holding the turn: the pegs are those of Pegs.Evaluate, the guesser's
        activity is stamped and the guess counted (Played), and then either
        the turn passes on (no win) or the round ends with the guesser
        recorded as winner. */
    twostate predicate TurnPlayed(id: PlayerId, digits: Code, now: nat, reply: GuessReply)
      requires old(Valid()) && old(roundActive) && id in old(players)
      reads this
    {
      var played := Played(old(State()), id, now);
      && Score(reply.black, reply.white) == Evaluate(old(secretCode), digits)
      && secretCode == old(secretCode) && roundStart == old(roundStart)
      // a guess that does not win passes the turn on
      && (reply.black != 2 ==>
            && State() == Advance(played, now)
            && result == old(result) && roundEnd == old(roundEnd)
            && reply.message == "next player's turn")
      // a winning guess ends the round and records the result
      && (reply.black == 2 ==>
            && State() == Close(played)
            && roundEnd == now
            && result.Some?
            && result.value.winnerId == id
            && result.value.winnerName == old(players)[id].name
            && result.value.code == old(secretCode)
            && result.value.start == old(roundStart) && result.value.end == now
            && ListsAttempts(result.value.attempts, attempts, players)
            && reply.message == "Player " + old(players)[id].name + " guessed the code!")
    }

    /** ProcessGuess once the checks have passed: stamp the guesser's
        activity, score the guess, count the attempt, then end the round or
        pass the turn on. */
    method PlayTurn(id: PlayerId, digits: Code, now: nat) returns (reply: GuessReply)
      requires Valid() && roundActive && turnOrder[currentTurn] == id
      modifies this
      ensures Valid()
      ensures id in old(players) && TurnPlayed(id, digits, now, reply)
      ensures reply.black != 2 ==> State() == Turn(old(State()), now)
    {
      var black, white := EvaluateGuess(secretCode, digits);
      Commit(Played(State(), id, now));
      if black == 2 {
        var message := EndRound(id, now);
        return GuessReply(black, white, message);
      }
      AdvanceTurn(now);
      return GuessReply(black, white, "next player's turn");
    }

    /** ProcessGuess. The caller supplies at least two characters (the HTTP
        layer admits exactly two); only the first two are read. */
    method ProcessGuess(id: PlayerId, guess: string, now: nat) returns (r: Result<GuessReply>)
      requires Valid()
      requires |guess| >= 2
      modifies this
      ensures Valid()
      ensures !old(roundActive) ==> r == Err(NoActiveRound) && unchanged(this)
      ensures old(roundActive) && old(turnOrder)[old(currentTurn)] != id ==>
                r == Err(NotYourTurn) && unchanged(this)
      ensures old(roundActive) && old(turnOrder)[old(currentTurn)] == id ==>
                && id in old(players)
                && (r == Err(InvalidGuess) <==> !(IsDigit(guess[0]) && IsDigit(guess[1])))
                && (IsDigit(guess[0]) && IsDigit(guess[1]) ==> r.Ok?)
      ensures r == Err(InvalidGuess) ==>
                && id in old(players)
                && State() == old(State()).(players := Touch(old(players), id, now))
                && result == old(result) && roundEnd == old(roundEnd)
                && secretCode == old(secretCode) && roundStart == old(roundStart)
      ensures r.Ok? ==>
                && old(roundActive) && id == old(turnOrder)[old(currentTurn)] && id in old(players)
                && IsDigit(guess[0]) && IsDigit(guess[1])
                && TurnPlayed(id, Values(guess[..2]), now, r.value)
    {
      if !roundActive {
        return Err(NoActiveRound);
      }
      if |turnOrder| == 0 {
        return Err(EmptyTurnOrder);
      }
      if turnOrder[currentTurn] != id {
        return Err(NotYourTurn);
      }
      // The source stamps the guesser's activity and then checks the digits;
      // the check reads only `guess`, so it is done first here and the stamp
      // is applied on both outcomes.
      var digits := ParseGuess(guess);
      if digits.None? {
        TouchKeepsPlayersOk(players, id, now);
        Commit(State().(players := Touch(players, id, now)));
        return Err(InvalidGuess);
      }
      var reply := PlayTurn(id, digits.value, now);
      return Ok(reply);
    }

    /** One tick of monitorInactivity: evict the player holding the turn if
        they have been idle for longer than the timeout. */
    method Sweep(now: nat)
      requires Valid()
      modifies this
      ensures Valid()
      ensures secretCode == old(secretCode) && result == old(result)
      ensures roundStart == old(roundStart) && roundEnd == old(roundEnd)
      ensures !old(roundActive) ==> unchanged(this)
      ensures old(roundActive) && now - old(players)[old(turnOrder)[old(currentTurn)]].lastActive <= InactivityTimeout ==>
                unchanged(this)
      ensures old(roundActive) && now - old(players)[old(turnOrder)[old(currentTurn)]].lastActive > InactivityTimeout ==>
                State() == Evict(old(State()))
    {
      if !roundActive || |turnOrder| == 0 {
        return;
      }
      var pid := turnOrder[currentTurn];
      if pid !in players {
        // the defensive advanceTurn branch: every ID in the turn order is a player
        assert false;
      }
      if now - players[pid].lastActive > InactivityTimeout {
        EvictCurrent();
      }
    }

    /** The eviction branch of the sweep: the player holding the turn leaves
        the game; the round goes on only if two players remain. */
    method EvictCurrent()
      requires Valid() && roundActive
      modifies this
      ensures Valid()
      ensures State() == Evict(old(State()))
      ensures secretCode == old(secretCode) && result == old(result)
      ensures roundStart == old(roundStart) && roundEnd == old(roundEnd)
    {
      EvictKeepsOk(State());
      var gone := turnOrder[currentTurn];
      var rest := turnOrder[..currentTurn] + turnOrder[currentTurn + 1..];
      if |rest| < 2 {
        Commit(Roster(players - {gone}, attempts - {gone}, {}, [], 0, false));
      } else {
        var turn := if currentTurn >= |rest| then 0 else currentTurn;
        Commit(Roster(players - {gone}, attempts - {gone}, readyPlayers - {gone}, rest, turn, true));
      }
    }

    /** Writes a roster whose invariant was proved beforehand; the other
        fields are kept. */
    method Commit(r: Roster)
      requires RosterOk(r) && (r.active ==> result == None)
      modifies this
      ensures Valid() && State() == r
      ensures result == old(result) && secretCode == old(secretCode)
      ensures roundStart == old(roundStart) && roundEnd == old(roundEnd)
    {
      players, attempts, readyPlayers, turnOrder, currentTurn, roundActive :=
        r.players, r.attempts, r.ready, r.order, r.turn, r.active;
    }

    /** GetStatus. */
    function GetStatus(): (s: Status)
      requires Valid()
      reads this
      ensures s.roundActive == roundActive && s.players == |players| && s.ready == |readyPlayers|
      ensures s.roundActive ==> s.ready == s.players >= 2
      ensures s.currentTurn == (if roundActive then players[turnOrder[currentTurn]].name else "")
    {
      Status(
        roundActive,
        |players|,
        |readyPlayers|,
        if roundActive && |turnOrder| > 0 then players[turnOrder[currentTurn]].name else "")
    }

    /** GetTurnOrder: the names in turn order, empty outside a round. */
    method GetTurnOrder() returns (names: seq<string>)
      requires Valid()
      ensures |names| == |turnOrder|
      ensures forall i :: 0 <= i < |names| ==> names[i] == players[turnOrder[i]].name
      ensures NoDup(names)
      ensures !roundActive ==> names == []
    {
      names := [];
      for i := 0 to |turnOrder|
        invariant |names| == i
        invariant forall j :: 0 <= j < i ==> names[j] == players[turnOrder[j]].name
      {
        names := names + [players[turnOrder[i]].name];
      }
    }

    /** GetResult: none while a round is running. */
    function GetResult(): (r: Option<GameResult>)
      requires Valid()
      reads this
      ensures roundActive ==> r == None
    {
      result
    }
  }
}
