/** The queue registry and parameter resolution of the queue bot's command
    layer, as values: which queue a command refers to, which player cutoff it
    uses, what `start_queue`, `switch_queue`, `leave_queue` and `end_queue` decide,
    and how `start_queue`, `switch_queue` and `end_queue` change the registry of
    queues and the table of known cutoffs. */
module Registry {
  import opened GameQueue
  import opened Text

  /** `self.queues`: game name to queue. */
  type Queues = map<string, Queue>

  /** `self.game_dict`: game name to the player cutoff last recorded for it. */
  type CutoffTable = map<string, int>

  /** The bot state the commands read and change. */
  datatype BotState = BotState(queues: Queues, gameDict: CutoffTable)

  /** What a command answers, without its wording. */
  datatype Response =
    | NoGameParam                                  // NO_GAME_PARAM_RESPONSE
    | NoPlayerCutoffParam                          // NO_PLAYERCUTOFF_PARAM_RESPONSE
    | NotInAnyQueue                                // switch_queue: no game inferable for the caller
    | UnknownGame(game: string)                    // `self.queues[name]` on a missing name (KeyError)
    | NotAMember(game: string)                     // leave_queue: caller not in that queue
    | Joined(game: string)                         // start_queue: add_player on an existing queue
    | Created(game: string, cutoff: int)           // start_queue: a fresh queue was installed
    | Switched(from: string, to: string, cutoff: int)  // switch_queue: players moved
    | Left(game: string)                           // leave_queue: delete_player on that queue
    | Ended(game: string)                          // end_queue: that queue was emptied

  /** A command's answer together with the state it leaves behind. */
  datatype Step = Step(response: Response, state: BotState)

  /** The outcome of `__check_player_cutoff_param`: the cutoff it returns and the table afterwards. */
  datatype Resolution = Resolution(cutoff: int, gameDict: CutoffTable)

  /** Every registry key was stored by a command that checked it non-empty and lower-cased it. */
  ghost predicate WellKeyed(queues: Queues)
  {
    forall k :: k in queues ==> k != [] && Lower(k) == k
  }

  /** `k` is the one game whose queue holds a player called `playerName`. */
  ghost predicate SoleHolder(queues: Queues, playerName: string, k: string)
  {
    && k in queues
    && FindPlayer(queues[k], playerName)
    && forall k' :: k' in queues && FindPlayer(queues[k'], playerName) ==> k' == k
  }

  // ---------------------------------------------------------------------------
  // Sets of size one
  // ---------------------------------------------------------------------------

  lemma SingletonMembersEqual(s: set<string>)
    requires |s| == 1
    ensures forall a, b :: a in s && b in s ==> a == b
  {
    forall a, b | a in s && b in s
      ensures a == b
    {
      var rest := s - {a};
      assert s == rest + {a};
      assert |rest| == 0;
      assert rest == {};
    }
  }

  /** The element of a one-element set, `list(keys)[0]` when there is one key. */
  function TheOnly(s: set<string>): (x: string)
    requires |s| == 1
    ensures s == {x}
  {
    SingletonMembersEqual(s);
    var x :| x in s;
    x
  }

  // ---------------------------------------------------------------------------
  // __check_and_lower_game_name_param
  // ---------------------------------------------------------------------------

  /** The games whose queue holds `playerName`: the list comprehension at the end of
      game-name inference. Only its size and, when that is one, its element matter,
      so the dictionary's iteration order is irrelevant. */
  function PlayerQueues(queues: Queues, playerName: string): set<string>
  {
    set k | k in queues && FindPlayer(queues[k], playerName)
  }

  lemma PlayerQueuesOfSoleHolder(queues: Queues, playerName: string, k: string)
    requires SoleHolder(queues, playerName, k)
    ensures PlayerQueues(queues, playerName) == {k}
  {
  }

  /** Which game a command refers to: the given name lower-cased; else the only queue's
      name; else the only game whose queue holds the player; else "" (not inferrable). */
  function InferGameName(queues: Queues, gameName: string, playerName: string): (r: string)
    ensures gameName != [] ==> r == Lower(gameName) && r != []
    ensures gameName == [] && |queues| == 1 ==> forall k :: k in queues ==> r == Lower(k)
    ensures gameName == [] && |queues| != 1 ==>
              forall k :: SoleHolder(queues, playerName, k) ==> r == k
    ensures gameName == [] && |queues| != 1 && (forall k :: !SoleHolder(queues, playerName, k)) ==>
              r == []
  {
    if gameName != [] then
      Lower(gameName)
    else if |queues| == 1 then
      Lower(TheOnly(queues.Keys))
    else
      var holders := PlayerQueues(queues, playerName);
      if |holders| == 1 then
        var k := TheOnly(holders);
        assert forall k' :: k' in queues && FindPlayer(queues[k'], playerName) ==> k' in holders;
        assert SoleHolder(queues, playerName, k);
        k
      else
        assert forall k :: SoleHolder(queues, playerName, k) ==> holders == {k} by {
          forall k | SoleHolder(queues, playerName, k)
            ensures holders == {k}
          {
            PlayerQueuesOfSoleHolder(queues, playerName, k);
          }
        }
        []
  }

  /** The inferred name is always usable as a registry key: lower-cased. */
  lemma InferredNameIsLowered(queues: Queues, gameName: string, playerName: string)
    requires WellKeyed(queues)
    ensures Lower(InferGameName(queues, gameName, playerName)) == InferGameName(queues, gameName, playerName)
  {
    var r := InferGameName(queues, gameName, playerName);
    if gameName != [] {
      LowerIdempotent(gameName);
    } else if |queues| == 1 {
      var k := TheOnly(queues.Keys);
      assert r == Lower(k) == k;
    } else if r != [] {
      var k := TheOnly(PlayerQueues(queues, playerName));
      assert r == k && k in queues;
    }
  }

  /** Inference without an explicit name never invents a game: it yields "" or a key
      of the registry. This is why `switch_queue` may index `self.queues` with it. */
  lemma InferredNameIsKey(queues: Queues, playerName: string)
    requires WellKeyed(queues)
    ensures InferGameName(queues, [], playerName) == [] || InferGameName(queues, [], playerName) in queues
  {
    if |queues| == 1 {
      var k := TheOnly(queues.Keys);
      assert InferGameName(queues, [], playerName) == Lower(k) == k;
    }
  }

  /** With exactly one queue, a command without a game name targets it whoever asks,
      even when the caller is not in it and even when it has been emptied. */
  lemma OnlyQueueIsAlwaysInferred(queues: Queues, k: string, playerName: string)
    requires WellKeyed(queues)
    requires queues.Keys == {k}
    ensures InferGameName(queues, [], playerName) == k
  {
    assert |queues| == |queues.Keys| == 1;
  }

  // ---------------------------------------------------------------------------
  // __check_if_queue_exists_and_nonempty
  // ---------------------------------------------------------------------------

  /** True exactly when the game has a queue and that queue has players. */
  function QueueExistsAndNonempty(queues: Queues, gameName: string): (b: bool)
    ensures b <==> gameName in queues && |queues[gameName].players| > 0
  {
    if gameName !in queues then false
    else if queues[gameName].players == [] then false
    else true
  }

  /** A queue in which some player can be found passes the existence check. */
  lemma FoundPlayerMeansNonempty(queues: Queues, gameName: string, playerName: string)
    requires gameName in queues && FindPlayer(queues[gameName], playerName)
    ensures QueueExistsAndNonempty(queues, gameName)
  {
    var i :| 0 <= i < |queues[gameName].players| && queues[gameName].players[i].name == playerName;
  }

  // ---------------------------------------------------------------------------
  // __check_player_cutoff_param with __update_player_cutoff
  // ---------------------------------------------------------------------------

  /** The cutoff a command uses for `gameName`, and the cutoff table afterwards. A given
      cutoff of 0 means "none given". */
  function ResolveCutoff(gameDict: CutoffTable, gameName: string, cutoff: int): (r: Resolution)
    // afterwards the table records for the game exactly the cutoff returned
    ensures gameName in r.gameDict && r.gameDict[gameName] == r.cutoff
    // no other game is added, removed or changed
    ensures r.gameDict.Keys == gameDict.Keys + {gameName}
    ensures forall g :: g in gameDict && g != gameName ==> r.gameDict[g] == gameDict[g]
    // known game, no cutoff given: the stored cutoff, table untouched
    ensures gameName in gameDict && cutoff == 0 ==> r.cutoff == gameDict[gameName] && r.gameDict == gameDict
    // a given cutoff always wins, and an unknown game keeps what was given, even 0
    ensures cutoff != 0 || gameName !in gameDict ==> r.cutoff == cutoff
    // the table is written only for a new game or a given cutoff that differs from the stored one
    ensures r.gameDict != gameDict <==>
              gameName !in gameDict || (cutoff != 0 && cutoff != gameDict[gameName])
  {
    if gameName in gameDict && cutoff == 0 then
      Resolution(gameDict[gameName], gameDict)
    else
      var updated := gameDict[gameName := cutoff];
      assert gameName in gameDict && cutoff == gameDict[gameName] ==> updated == gameDict;
      Resolution(cutoff, updated)
  }

  /** The resolved cutoff is 0 exactly when none was given and none usable is stored. */
  lemma ResolvedCutoffZeroIff(gameDict: CutoffTable, gameName: string, cutoff: int)
    ensures ResolveCutoff(gameDict, gameName, cutoff).cutoff == 0 <==>
              cutoff == 0 && (gameName !in gameDict || gameDict[gameName] == 0)
  {
  }

  /** Resolving a second time with nothing given returns the same cutoff and writes nothing:
      the first resolution stored what it returned. */
  lemma ResolveCutoffStable(gameDict: CutoffTable, gameName: string, cutoff: int)
    ensures var first := ResolveCutoff(gameDict, gameName, cutoff);
            ResolveCutoff(first.gameDict, gameName, 0) == first
  {
  }

  // ---------------------------------------------------------------------------
  // start_queue
  // ---------------------------------------------------------------------------

  /** `start_queue`'s effect on the registry and the cutoff table. The caller joins through
      `add_player` (queue behaviour, not modelled) on `Joined` and on `Created`; game-name
      inference is done with the default player name "". */
  function Start(s: BotState, gameName: string, cutoff: int): (r: Step)
    ensures var g := InferGameName(s.queues, gameName, []);
      && (r.response == NoGameParam <==> g == [])
      && (r.response.Joined? <==> g != [] && QueueExistsAndNonempty(s.queues, g))
      && (r.response.Joined? ==> r.response.game == g)
      // only a game given or inferred as `g` can be joined or created, and the table is
      // consulted only when no non-empty queue exists for it
      && (r.response.Joined? || r.response == NoGameParam ==> r.state == s)
      && (r.response.Created? || r.response == NoPlayerCutoffParam ==>
            g != [] && !QueueExistsAndNonempty(s.queues, g) &&
            r.state.gameDict == ResolveCutoff(s.gameDict, g, cutoff).gameDict)
      // a zero cutoff leaves the registry untouched
      && (r.response == NoPlayerCutoffParam ==>
            r.state.queues == s.queues && ResolveCutoff(s.gameDict, g, cutoff).cutoff == 0)
      // a fresh, empty queue with a non-zero cutoff is installed under the lower-cased name
      && (r.response.Created? ==>
            r.response.game == g && r.response.cutoff != 0 &&
            r.response.cutoff == ResolveCutoff(s.gameDict, g, cutoff).cutoff &&
            r.state.queues == s.queues[g := Queue(g, r.response.cutoff, [])])
      // no non-empty queue and a non-zero resolved cutoff: a queue is created
      && (g != [] && !QueueExistsAndNonempty(s.queues, g) && ResolveCutoff(s.gameDict, g, cutoff).cutoff != 0 ==>
            r.response.Created?)
      && (r.response == NoGameParam || r.response == Joined(g) || r.response == NoPlayerCutoffParam ||
          r.response.Created?)
  {
    var g := InferGameName(s.queues, gameName, []);
    if g == [] then
      Step(NoGameParam, s)
    else if QueueExistsAndNonempty(s.queues, g) then
      Step(Joined(g), s)
    else
      var res := ResolveCutoff(s.gameDict, g, cutoff);
      if res.cutoff == 0 then
        Step(NoPlayerCutoffParam, BotState(s.queues, res.gameDict))
      else
        Step(Created(g, res.cutoff), BotState(s.queues[g := Queue(g, res.cutoff, [])], res.gameDict))
  }

  /** `start_queue` only ever adds the game it created, and never replaces a queue that has players. */
  lemma StartKeepsNonemptyQueues(s: BotState, gameName: string, cutoff: int)
    ensures var r := Start(s, gameName, cutoff);
      && r.state.queues.Keys == s.queues.Keys + (if r.response.Created? then {r.response.game} else {})
      && forall k :: QueueExistsAndNonempty(s.queues, k) ==>
           k in r.state.queues && r.state.queues[k] == s.queues[k]
  {
  }

  lemma StartPreservesWellKeyed(s: BotState, gameName: string, cutoff: int)
    requires WellKeyed(s.queues)
    ensures WellKeyed(Start(s, gameName, cutoff).state.queues)
  {
    InferredNameIsLowered(s.queues, gameName, []);
  }

  /** After a queue is ended, starting that game again by name creates a fresh queue
      (when a cutoff can be resolved) instead of joining the emptied one. */
  lemma StartAfterEndCreates(s: BotState, gameName: string, playerName: string, cutoff: int)
    requires WellKeyed(s.queues)
    requires gameName != []
    requires End(s, gameName, playerName).response.Ended?
    requires cutoff != 0
    ensures var e := End(s, gameName, playerName).state;
            Start(e, gameName, cutoff).response == Created(Lower(gameName), cutoff)
  {
    var e := End(s, gameName, playerName).state;
    assert !QueueExistsAndNonempty(e.queues, Lower(gameName));
  }

  // ---------------------------------------------------------------------------
  // switch_queue
  // ---------------------------------------------------------------------------

  /** Lines that move the players: copy the caller's players, empty the caller's queue,
      then install the new queue for `to` holding the copy. */
  function MovePlayers(queues: Queues, from: string, to: string, cutoff: int): (r: Queues)
    requires from in queues
    ensures r.Keys == queues.Keys + {to}
    // the target queue holds exactly the players of the caller's queue, in order
    ensures r[to] == Queue(to, cutoff, queues[from].players)
    // the caller's old queue is left empty, unless it is the target
    ensures from != to ==> r[from] == EmptyQueue(queues[from])
    // nothing else changes
    ensures forall k :: k in queues && k != from && k != to ==> r[k] == queues[k]
  {
    var moving := queues[from].players;
    var emptied := queues[from := EmptyQueue(queues[from])];
    emptied[to := Queue(to, cutoff, moving)]
  }

  /** `switch_queue`'s effect: the caller's current game is inferred from the caller alone;
      its players are copied, its queue emptied, and a new queue for the target game is
      installed holding the copied players. */
  function Switch(s: BotState, gameName: string, cutoff: int, playerName: string): (r: Step)
    requires WellKeyed(s.queues)
    ensures var from, to := InferGameName(s.queues, [], playerName), Lower(gameName);
      && (r.response == NoGameParam <==> gameName == [])
      && (r.response == NotInAnyQueue <==> gameName != [] && from == [])
      && (r.response.NoGameParam? || r.response.NotInAnyQueue? ==> r.state == s)
      && (r.response == NoPlayerCutoffParam ==>
            r.state.queues == s.queues && ResolveCutoff(s.gameDict, to, cutoff).cutoff == 0)
      && (r.response.NoPlayerCutoffParam? || r.response.Switched? ==>
            to != [] && from != [] && r.state.gameDict == ResolveCutoff(s.gameDict, to, cutoff).gameDict)
      && (r.response.Switched? ==>
            && r.response.from == from && from in s.queues
            && r.response.to == to
            && r.response.cutoff == ResolveCutoff(s.gameDict, to, cutoff).cutoff != 0
            && r.state.queues == MovePlayers(s.queues, from, to, r.response.cutoff))
      && (r.response.NoGameParam? || r.response.NotInAnyQueue? ||
          r.response.NoPlayerCutoffParam? || r.response.Switched?)
  {
    var from := InferGameName(s.queues, [], playerName);
    var to := Lower(gameName);
    if to == [] then
      Step(NoGameParam, s)
    else if from == [] then
      Step(NotInAnyQueue, s)
    else
      var res := ResolveCutoff(s.gameDict, to, cutoff);
      if res.cutoff == 0 then
        Step(NoPlayerCutoffParam, BotState(s.queues, res.gameDict))
      else
        InferredNameIsKey(s.queues, playerName);
        Step(Switched(from, to, res.cutoff), BotState(MovePlayers(s.queues, from, to, res.cutoff), res.gameDict))
  }

  lemma SwitchPreservesWellKeyed(s: BotState, gameName: string, cutoff: int, playerName: string)
    requires WellKeyed(s.queues)
    ensures WellKeyed(Switch(s, gameName, cutoff, playerName).state.queues)
  {
    if gameName != [] {
      LowerIdempotent(gameName);
    }
  }

  /** Switching a game onto itself keeps its players (the new queue is built from the copy
      taken before the old one was emptied). */
  lemma SwitchToSameGameKeepsPlayers(s: BotState, gameName: string, cutoff: int, playerName: string)
    requires WellKeyed(s.queues)
    requires Lower(gameName) == InferGameName(s.queues, [], playerName)
    requires Switch(s, gameName, cutoff, playerName).response.Switched?
    ensures var t := Lower(gameName);
            Switch(s, gameName, cutoff, playerName).state.queues[t].players == s.queues[t].players
  {
  }

  /** Switching onto a game that already has a non-empty queue replaces that queue: its
      players are not kept unless they were also in the caller's queue. */
  lemma SwitchReplacesTargetQueue(s: BotState, gameName: string, cutoff: int, playerName: string, p: Player)
    requires WellKeyed(s.queues)
    requires Switch(s, gameName, cutoff, playerName).response.Switched?
    requires Lower(gameName) in s.queues && p in s.queues[Lower(gameName)].players
    requires p !in s.queues[InferGameName(s.queues, [], playerName)].players
    ensures p !in Switch(s, gameName, cutoff, playerName).state.queues[Lower(gameName)].players
  {
  }

  /** With a single queue the caller need not be in it to move it to another game. */
  lemma SwitchMovesOnlyQueue(s: BotState, k: string, gameName: string, cutoff: int, playerName: string)
    requires WellKeyed(s.queues)
    requires s.queues.Keys == {k}
    requires gameName != [] && ResolveCutoff(s.gameDict, Lower(gameName), cutoff).cutoff != 0
    ensures Switch(s, gameName, cutoff, playerName).response ==
              Switched(k, Lower(gameName), ResolveCutoff(s.gameDict, Lower(gameName), cutoff).cutoff)
  {
    OnlyQueueIsAlwaysInferred(s.queues, k, playerName);
  }

  // ---------------------------------------------------------------------------
  // leave_queue and end_queue
  // ---------------------------------------------------------------------------

  /** `leave_queue`'s decision. `Left(g)` means `delete_player` is called on the queue of `g`
      (queue behaviour, not modelled). A name that has no queue raises KeyError in the source. */
  function Leave(queues: Queues, gameName: string, playerName: string): (r: Response)
    ensures var g := InferGameName(queues, gameName, playerName);
      && (r == NoGameParam <==> g == [])
      && (r == UnknownGame(g) <==> g != [] && g !in queues)
      && (r == Left(g) <==> g in queues && g != [] && FindPlayer(queues[g], playerName))
      && (r == NotAMember(g) <==> g in queues && g != [] && !FindPlayer(queues[g], playerName))
      && (r.NoGameParam? || r == UnknownGame(g) || r == Left(g) || r == NotAMember(g))
  {
    var g := InferGameName(queues, gameName, playerName);
    if g == [] then NoGameParam
    else if g !in queues then UnknownGame(g)
    else if FindPlayer(queues[g], playerName) then Left(g)
    else NotAMember(g)
  }

  /** The KeyError of `leave_queue` needs an explicit name that has no queue. */
  lemma LeaveUnknownNeedsExplicitName(queues: Queues, gameName: string, playerName: string)
    requires WellKeyed(queues)
    requires Leave(queues, gameName, playerName).UnknownGame?
    ensures gameName != [] && Lower(gameName) !in queues
  {
    InferredNameIsKey(queues, playerName);
  }

  /** Without a game name, a player who is in exactly one of several queues leaves that one. */
  lemma LeaveInfersPlayersQueue(queues: Queues, playerName: string, k: string)
    requires WellKeyed(queues)
    requires |queues| != 1 && SoleHolder(queues, playerName, k)
    ensures Leave(queues, [], playerName) == Left(k)
  {
  }

  /** `end_queue`'s effect: the queue is emptied but stays in the registry. */
  function End(s: BotState, gameName: string, playerName: string): (r: Step)
    ensures var g := InferGameName(s.queues, gameName, playerName);
      && r.state.gameDict == s.gameDict
      && r.state.queues.Keys == s.queues.Keys
      && (r.response == NoGameParam <==> g == [])
      && (r.response == UnknownGame(g) <==> g != [] && g !in s.queues)
      && (r.response == Ended(g) <==> g != [] && g in s.queues)
      && (!r.response.Ended? ==> r.state == s)
      && (r.response.Ended? ==>
            && r.state.queues[g] == EmptyQueue(s.queues[g])
            && !QueueExistsAndNonempty(r.state.queues, g)
            && forall k :: k in s.queues && k != g ==> r.state.queues[k] == s.queues[k])
      && (r.response.NoGameParam? || r.response == UnknownGame(g) || r.response == Ended(g))
  {
    var g := InferGameName(s.queues, gameName, playerName);
    if g == [] then Step(NoGameParam, s)
    else if g !in s.queues then Step(UnknownGame(g), s)
    else Step(Ended(g), BotState(s.queues[g := EmptyQueue(s.queues[g])], s.gameDict))
  }

  /** The KeyError of `end_queue` needs an explicit name that has no queue. */
  lemma EndUnknownNeedsExplicitName(s: BotState, gameName: string, playerName: string)
    requires WellKeyed(s.queues)
    requires End(s, gameName, playerName).response.UnknownGame?
    ensures gameName != [] && Lower(gameName) !in s.queues
  {
    InferredNameIsKey(s.queues, playerName);
  }

  lemma EndPreservesWellKeyed(s: BotState, gameName: string, playerName: string)
    requires WellKeyed(s.queues)
    ensures WellKeyed(End(s, gameName, playerName).state.queues)
  {
  }
}
