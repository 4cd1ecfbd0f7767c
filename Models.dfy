/** Record shapes of internal/models: a player of the lobby and the summary
    of a finished round. They carry no behaviour of their own. */
module Models {

  /** Player IDs are opaque strings (UUIDs in the service). */
  type PlayerId = string

  /** Two decimal digits: the secret code, and a parsed guess (a Go [2]int). */
  type Code = s: seq<int> | |s| == 2 && 0 <= s[0] <= 9 && 0 <= s[1] <= 9 witness [0, 0]

  /** A lobby member; lastActive is a timestamp in seconds. */
  datatype Player = Player(id: PlayerId, name: string, lastActive: nat)

  /** One line of a round summary: how many guesses a player made. */
  datatype AttemptItem = AttemptItem(playerName: string, count: nat)

  /** Summary of a round won by winnerId; start and end are timestamps. */
  datatype GameResult = GameResult(
    start: nat,
    end: nat,
    code: Code,
    attempts: seq<AttemptItem>,
    winnerId: PlayerId,
    winnerName: string)
}
