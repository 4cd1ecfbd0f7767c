/** The older prototype of the game in server/game.go: a guess scorer for
    secrets of any length (CheckGuess) and a lobby/guess state machine on the
    Game struct. The HTTP handlers are modelled by their state changes, with
    each gin response abstracted into an outcome value; the mutex, the
    condition variable and the Run polling loop are not modelled. */
module Server {
  import opened Pegs

  /** generateCode draws only from "0123456789". */
  predicate AllDigits(s: string)
  {
    forall i :: 0 <= i < |s| ==> '0' <= s[i] <= '9'
  }

  // ---------------------------------------------------------------------
  // CheckGuess

  /** CheckGuess: black pegs for equal positions, then white pegs for the
      first unused equal character of the secret. The caller supplies a
      guess at least as long as the secret (GuessHandler supplies one of
      exactly its length). */
  method CheckGuess(secret: string, guess: string) returns (black: nat, white: nat)
    requires |secret| <= |guess|
    ensures Score(black, white) == Evaluate(secret, guess)
    ensures black <= |secret| && black + white <= |secret|
    ensures |guess| == |secret| ==> (black == |secret| <==> guess == secret)
  {
    var usedSecret, usedGuess;
    black, usedSecret, usedGuess := MarkExact(secret, guess);
    white := 0;
    for i := 0 to |guess|
      invariant (white, usedSecret[..]) == WhitePass(secret, guess, i)
      invariant usedGuess[..] == ExactFlags(secret, guess)
    {
      if usedGuess[i] {
        assert WhitePass(secret, guess, i + 1) == WhitePass(secret, guess, i);
        continue;
      }
      ghost var k := FirstFree(secret, usedSecret[..], guess[i], 0);
      assert WhitePass(secret, guess, i + 1) ==
        if k < |secret| then (white + 1, usedSecret[..][k := true]) else (white, usedSecret[..]);
      var claimed := ClaimFree(usedSecret, secret, guess[i]);
      if claimed {
        white := white + 1;
      }
    }
    PegsBound(secret, guess);
    BlacksBound(secret, guess, |secret|);
    if |guess| == |secret| {
      FullBlackIffEqual(secret, guess);
    }
  }

  /** The black-peg pass of CheckGuess: count the positions where guess and
      secret agree and flag them on both sides. */
  method MarkExact(secret: string, guess: string)
    returns (black: nat, usedSecret: array<bool>, usedGuess: array<bool>)
    requires |secret| <= |guess|
    ensures fresh(usedSecret) && fresh(usedGuess) && usedSecret != usedGuess
    ensures black == Blacks(secret, guess, |secret|)
    ensures usedGuess[..] == ExactFlags(secret, guess)
    ensures usedSecret[..] == WhitePass(secret, guess, 0).1
  {
    black := 0;
    usedSecret := new bool[|secret|](_ => false);
    usedGuess := new bool[|guess|](_ => false);
    for i := 0 to |secret|
      invariant black == Blacks(secret, guess, i)
      invariant forall j :: 0 <= j < |secret| ==> usedSecret[j] == (j < i && guess[j] == secret[j])
      invariant forall j :: 0 <= j < |guess| ==> usedGuess[j] == (j < i && guess[j] == secret[j])
    {
      if guess[i] == secret[i] {
        black := black + 1;
        usedSecret[i], usedGuess[i] := true, true;
      }
    }
    assert usedGuess[..] == ExactFlags(secret, guess);
    assert usedSecret[..] == WhitePass(secret, guess, 0).1;
  }

  /** The inner loop of CheckGuess's white pass: claim the first unused
      secret position holding c, if there is one. */
  method ClaimFree(used: array<bool>, secret: string, c: char) returns (claimed: bool)
    requires used.Length == |secret|
    modifies used
    ensures var k := FirstFree(secret, old(used[..]), c, 0);
            && (claimed <==> k < |secret|)
            && used[..] == if claimed then old(used[..])[k := true] else old(used[..])
  {
    ghost var before := used[..];
    ghost var k := FirstFree(secret, before, c, 0);
    var j := 0;
    while j < |secret|
      invariant 0 <= j <= k
      invariant used[..] == before
      invariant FirstFree(secret, before, c, j) == k
    {
      if !used[j] && c == secret[j] {
        used[j] := true;
        return true;
      }
      j := j + 1;
    }
    return false;
  }

  /** On two-digit inputs CheckGuess scores exactly as evaluateGuess of
      internal/services/gameService.go scores the digits' values: both are
      Pegs.Evaluate, once on characters and once on numbers. */
  lemma CheckGuessAgreesWithEvaluateGuess(secret: string, guess: string)
    requires |secret| == |guess| == 2 && AllDigits(secret) && AllDigits(guess)
    ensures var code, digits := Values(secret), Values(guess);
            && 0 <= code[0] <= 9 && 0 <= code[1] <= 9 && 0 <= digits[0] <= 9 && 0 <= digits[1] <= 9
            && Evaluate(code, digits) == Evaluate(secret, guess)
  {
    EvaluateValues(secret, guess);
  }

  // ---------------------------------------------------------------------
  // strings.ToUpper, on the ASCII letters

  function UpperChar(c: char): char
  {
    if 'a' <= c <= 'z' then (c as int - 'a' as int + 'A' as int) as char else c
  }

  /** Upper-casing leaves digits as they are and turns nothing else into a
      digit. */
  function ToUpper(s: string): (u: string)
    ensures |u| == |s|
    ensures forall i :: 0 <= i < |s| && '0' <= s[i] <= '9' ==> u[i] == s[i]
    ensures forall i :: 0 <= i < |s| ==> ('0' <= u[i] <= '9' <==> '0' <= s[i] <= '9')
  {
    seq(|s|, i requires 0 <= i < |s| => UpperChar(s[i]))
  }

  /** Upper-casing the guess never changes its score against a digit
      secret: a character equals a digit exactly when its upper case does. */
  lemma ToUpperKeepsScore(secret: string, guess: string)
    requires AllDigits(secret) && |secret| <= |guess|
    ensures Evaluate(secret, ToUpper(guess)) == Evaluate(secret, guess)
    ensures ToUpper(guess) == secret <==> guess == secret
  {
    EvaluatePattern(secret, guess, secret, ToUpper(guess));
    if ToUpper(guess) == secret {
      assert forall i :: 0 <= i < |guess| ==> guess[i] == secret[i];
    }
  }

  // ---------------------------------------------------------------------
  // Player IDs "player1", "player2", ...

  function DecimalDigit(d: nat): char
    requires d < 10
  {
    ('0' as int + d) as char
  }

  /** The %d rendering of a natural number. */
  function Decimal(n: nat): (s: string)
    ensures |s| >= 1
    ensures AllDigits(s)
  {
    if n < 10 then [DecimalDigit(n)] else Decimal(n / 10) + [DecimalDigit(n % 10)]
  }

  lemma {:induction false} DecimalInjective(a: nat, b: nat)
    requires Decimal(a) == Decimal(b)
    ensures a == b
    decreases a
  {
    var da, db := Decimal(a), Decimal(b);
    if a >= 10 && b >= 10 {
      assert Decimal(a / 10) == da[..|da| - 1] == db[..|db| - 1] == Decimal(b / 10);
      DecimalInjective(a / 10, b / 10);
      assert DecimalDigit(a % 10) == da[|da| - 1] == db[|db| - 1] == DecimalDigit(b % 10);
    }
  }

  /** fmt.Sprintf("player%d", n). */
  function JoinId(n: nat): string
  {
    "player" + Decimal(n)
  }

  lemma JoinIdInjective(a: nat, b: nat)
    requires JoinId(a) == JoinId(b)
    ensures a == b
  {
    assert Decimal(a) == JoinId(a)[6..];
    assert Decimal(b) == JoinId(b)[6..];
    DecimalInjective(a, b);
  }

  /** The IDs handed out by the first n joins since the last reset. */
  function JoinIds(n: nat): (ids: set<string>)
  {
    if n == 0 then {} else JoinIds(n - 1) + {JoinId(n)}
  }

  /** A later join never hands out an ID already taken. */
  lemma {:induction false} JoinIdFresh(n: nat, m: nat)
    requires n < m
    ensures JoinId(m) !in JoinIds(n)
  {
    if n > 0 {
      JoinIdFresh(n - 1, m);
      if JoinId(m) == JoinId(n) {
        JoinIdInjective(m, n);
      }
    }
  }

  // ---------------------------------------------------------------------
  // The Game struct

  /** A prototype player: ID and number of guesses made. */
  datatype Player = Player(id: string, attempts: nat)

  /** The gin response of JoinHandler. */
  datatype JoinOutcome =
    | GameFull                  // 400 "game full"
    | Joined(playerId: string)  // 200 {"player_id": ...}

  /** The gin response of GuessHandler (a request that fails JSON binding
      is answered before the lock is taken and is not modelled). */
  datatype GuessOutcome =
    | PlayerNotFound                                  // 400 "player not found"
    | Waiting                                         // "waiting for other players"
    | RoundOver(winner: string)                       // "round over"
    | NoAttemptsLeft                                  // "no attempts left"
    | WrongLength                                     // 400 "wrong length"
    | Scored(black: nat, white: nat)                  // a guess that does not win
    | Correct(black: nat, white: nat, winner: string) // "correct"

  /** Players are filed under the IDs of the joins since the last reset,
      the lobby is within its cap, and nobody has guessed more than maxTries
      times. */
  ghost predicate RosterOk(players: map<string, Player>, maxPlayers: nat, maxTries: nat)
  {
    && players.Keys == JoinIds(|players|)
    && |players| <= maxPlayers
    && forall id :: id in players ==> players[id].id == id && players[id].attempts <= maxTries
  }

  /** Player.Attempts++ in GuessHandler. */
  function CountAttempt(players: map<string, Player>, id: string): (counted: map<string, Player>)
    requires id in players
    ensures counted.Keys == players.Keys
    ensures counted[id].attempts == players[id].attempts + 1
    ensures forall other :: other in players && other != id ==> counted[other] == players[other]
  {
    players[id := players[id].(attempts := players[id].attempts + 1)]
  }

  /** Counting a guess of a player with tries left keeps the roster well
      formed. */
  lemma CountAttemptKeepsOk(players: map<string, Player>, maxPlayers: nat, maxTries: nat, id: string)
    requires RosterOk(players, maxPlayers, maxTries)
    requires id in players && players[id].attempts < maxTries
    ensures RosterOk(CountAttempt(players, id), maxPlayers, maxTries)
  {
    var counted := CountAttempt(players, id);
    assert |counted| == |counted.Keys| == |players.Keys| == |players|;
  }

  class Game {
    var secretCode: string
    var players: map<string, Player>
    var maxPlayers: nat
    var maxTries: nat
    var started: bool
    var winner: string

    /** The roster is well formed, a winner is one of the players, and the
        secret is digits. */
    ghost predicate Valid()
      reads this
    {
      && RosterOk(players, maxPlayers, maxTries)
      && (winner == "" || winner in players)
      && AllDigits(secretCode)
    }

    /** NewGame; `code` stands for generateCode(1). */
    constructor (code: string)
      requires |code| == 1 && AllDigits(code)
      ensures Valid()
      ensures secretCode == code && players == map[] && maxPlayers == 4 && maxTries == 10
      ensures !started && winner == ""
    {
      secretCode := code;
      players := map[];
      maxPlayers := 4;
      maxTries := 10;
      started := false;
      winner := "";
    }

    /** JoinHandler. */
    method Join() returns (out: JoinOutcome)
      requires Valid()
      modifies this
      ensures Valid()
      ensures |old(players)| >= maxPlayers ==> out == GameFull && unchanged(this)
      ensures |old(players)| < maxPlayers ==>
                && out == Joined(JoinId(|old(players)| + 1))
                && out.playerId !in old(players)
                && players == old(players)[out.playerId := Player(out.playerId, 0)]
                && |players| == |old(players)| + 1
      ensures secretCode == old(secretCode) && started == old(started) && winner == old(winner)
      ensures maxPlayers == old(maxPlayers) && maxTries == old(maxTries)
    {
      if |players| >= maxPlayers {
        return GameFull;
      }
      var id := JoinId(|players| + 1);
      JoinIdFresh(|players|, |players| + 1);
      players := players[id := Player(id, 0)];
      return Joined(id);
    }

    /** The start of a round in Run, once at least two players have joined. */
    method Start()
      requires Valid() && |players| >= 2
      modifies this
      ensures Valid() && started
      ensures secretCode == old(secretCode) && players == old(players) && winner == old(winner)
      ensures maxPlayers == old(maxPlayers) && maxTries == old(maxTries)
    {
      started := true;
    }

    /** GuessHandler for a well-formed request. */
    method Guess(playerId: string, guess: string) returns (out: GuessOutcome)
      requires Valid()
      modifies this
      ensures Valid()
      ensures playerId !in old(players) ==> out == PlayerNotFound
      ensures playerId in old(players) && !old(started) ==> out == Waiting
      ensures playerId in old(players) && old(started) && old(winner) != "" ==> out == RoundOver(old(winner))
      ensures playerId in old(players) && old(started) && old(winner) == "" ==>
                (old(players)[playerId].attempts >= maxTries <==> out == NoAttemptsLeft)
      ensures playerId in old(players) && old(started) && old(winner) == ""
              && old(players)[playerId].attempts < maxTries ==>
                (|guess| != |secretCode| <==> out == WrongLength)
      ensures (playerId in old(players) && old(started) && old(winner) == ""
               && old(players)[playerId].attempts < maxTries && |guess| == |secretCode|) ==>
                out.Scored? || out.Correct?
      ensures !out.Scored? && !out.Correct? ==> unchanged(this)
      ensures out.Scored? || out.Correct? ==>
                && playerId in old(players) && old(started) && old(winner) == ""
                && players == CountAttempt(old(players), playerId)
                && |guess| == |secretCode|
                && Score(out.black, out.white) == Evaluate(secretCode, guess)
                && (out.Correct? <==> guess == secretCode)
                && winner == (if out.Correct? then playerId else "")
                && (out.Correct? ==> out.winner == playerId)
      ensures secretCode == old(secretCode) && started == old(started)
      ensures maxPlayers == old(maxPlayers) && maxTries == old(maxTries)
    {
      if playerId !in players {
        return PlayerNotFound;
      }
      if !started {
        return Waiting;
      }
      if winner != "" {
        return RoundOver(winner);
      }
      var player := players[playerId];
      if player.attempts >= maxTries {
        return NoAttemptsLeft;
      }
      if |secretCode| != |guess| {
        return WrongLength;
      }
      out := Attempt(playerId, guess);
    }

    /** The accepted-guess tail of GuessHandler: count the attempt, score the
        upper-cased guess, and record a winner on a full match. */
    method Attempt(playerId: string, guess: string) returns (out: GuessOutcome)
      requires Valid() && started && winner == ""
      requires playerId in players && players[playerId].attempts < maxTries
      requires |guess| == |secretCode|
      modifies this
      ensures Valid()
      ensures out.Scored? || out.Correct?
      ensures secretCode == old(secretCode) && started == old(started)
      ensures players == CountAttempt(old(players), playerId)
      ensures Score(out.black, out.white) == Evaluate(secretCode, guess)
      ensures out.Correct? <==> guess == secretCode
      ensures winner == (if out.Correct? then playerId else "")
      ensures out.Correct? ==> out.winner == playerId
      ensures maxPlayers == old(maxPlayers) && maxTries == old(maxTries)
    {
      var upper := ToUpper(guess);
      var black, white := CheckGuess(secretCode, upper);
      ToUpperKeepsScore(secretCode, guess);
      CountAttemptKeepsOk(players, maxPlayers, maxTries, playerId);
      players := CountAttempt(players, playerId);
      if black == |secretCode| {
        winner := playerId;
        return Correct(black, white, playerId);
      }
      return Scored(black, white);
    }

    /** reset; `code` stands for generateCode(4). */
    method Reset(code: string)
      requires Valid()
      requires |code| == 4 && AllDigits(code)
      modifies this
      ensures Valid()
      ensures secretCode == code && players == map[] && winner == "" && !started
      ensures maxPlayers == old(maxPlayers) && maxTries == old(maxTries)
    {
      secretCode := code;
      players := map[];
      winner := "";
      started := false;
    }
  }
}
