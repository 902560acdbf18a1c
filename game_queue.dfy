/** The part of a game queue that the command layer relies on.

    The queue engine itself is not part of this model: the command layer only
    reads a queue's players, asks whether a named player is in it, builds a
    queue from a name, a cutoff and (when switching games) a list of players,
    and empties it. */
module GameQueue {

  /** A participant, known to the command layer by display name only. */
  datatype Player = Player(name: string)

  /** A queue as the command layer sees it: `GameQueue(game_name, player_cutoff, players=...)`. */
  datatype Queue = Queue(gameName: string, playerCutoff: int, players: seq<Player>)

  /** `find_player(name)` used as a truth value: some queued player carries this name. */
  predicate FindPlayer(q: Queue, name: string)
  {
    exists i :: 0 <= i < |q.players| && q.players[i].name == name
  }

  /** `empty_queue()`: the queue keeps its game and cutoff and loses every player. */
  function EmptyQueue(q: Queue): (r: Queue)
    ensures r.gameName == q.gameName && r.playerCutoff == q.playerCutoff
    ensures r.players == []
    ensures forall name :: !FindPlayer(r, name)
  {
    q.(players := [])
  }
}
