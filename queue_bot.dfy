/** The queue bot's command layer as an object: the registry `queues` and the cutoff
    table `game_dict` are fields that the commands update in place. Each command is
    proved to leave exactly the state, and give exactly the response, that the
    corresponding function of `Registry` describes. */
module QueueBot {
  import opened GameQueue
  import opened Text
  import opened Registry

  class Bot {
    /** `self.queues` */
    var queues: Queues
    /** `self.game_dict`, as loaded from and written back to the cutoff store */
    var gameDict: CutoffTable

    ghost predicate Valid()
      reads this
    {
      WellKeyed(queues)
    }

    /** The bot's state as a value. */
    function State(): BotState
      reads this
    {
      BotState(queues, gameDict)
    }

    /** The bot starts with no queues and the cutoff table read from the store. */
    constructor (storedCutoffs: CutoffTable)
      ensures Valid()
      ensures queues == map[] && gameDict == storedCutoffs
    {
      queues := map[];
      gameDict := storedCutoffs;
    }

    /** `__update_player_cutoff`: record a cutoff for one game (writing the store is not modelled). */
    method UpdatePlayerCutoff(gameName: string, playerCutoff: int)
      modifies this`gameDict
      ensures gameDict == old(gameDict)[gameName := playerCutoff]
    {
      gameDict := gameDict[gameName := playerCutoff];
    }

    /** `__check_player_cutoff_param`: the cutoff to use, recording it when new or changed. */
    method CheckPlayerCutoffParam(gameName: string, playerCutoff: int) returns (cutoff: int)
      modifies this`gameDict
      ensures Resolution(cutoff, gameDict) == ResolveCutoff(old(gameDict), gameName, playerCutoff)
    {
      cutoff := playerCutoff;
      if gameName in gameDict {
        var stored := gameDict[gameName];
        if cutoff == 0 {
          cutoff := stored;
        }
        if cutoff != stored {
          UpdatePlayerCutoff(gameName, cutoff);
        }
      } else {
        UpdatePlayerCutoff(gameName, cutoff);
      }
    }

    /** `start_queue`: join the game's queue if it has players, otherwise create it when a
        cutoff can be resolved. The joining itself (`add_player`) is queue behaviour. */
    method StartQueue(gameName: string, playerCutoff: int) returns (response: Response)
      requires Valid()
      modifies this
      ensures Valid()
      ensures Step(response, State()) == Start(old(State()), gameName, playerCutoff)
    {
      StartPreservesWellKeyed(State(), gameName, playerCutoff);
      var lowerGameName := InferGameName(queues, gameName, []);
      if lowerGameName == [] {
        response := NoGameParam;
      } else if QueueExistsAndNonempty(queues, lowerGameName) {
        response := Joined(lowerGameName);
      } else {
        var cutoff := CheckPlayerCutoffParam(lowerGameName, playerCutoff);
        if cutoff == 0 {
          response := NoPlayerCutoffParam;
        } else {
          queues := queues[lowerGameName := Queue(lowerGameName, cutoff, [])];
          response := Created(lowerGameName, cutoff);
        }
      }
    }

    /** `switch_queue`: move the players of the caller's queue to a new queue for another game. */
    method SwitchQueue(gameName: string, playerCutoff: int, playerName: string) returns (response: Response)
      requires Valid()
      modifies this
      ensures Valid()
      ensures Step(response, State()) == Switch(old(State()), gameName, playerCutoff, playerName)
    {
      SwitchPreservesWellKeyed(State(), gameName, playerCutoff, playerName);
      InferredNameIsKey(queues, playerName);
      var currentGameName := InferGameName(queues, [], playerName);
      var lowerGameName := Lower(gameName);
      if lowerGameName == [] {
        response := NoGameParam;
      } else if currentGameName == [] {
        response := NotInAnyQueue;
      } else {
        var cutoff := CheckPlayerCutoffParam(lowerGameName, playerCutoff);
        if cutoff == 0 {
          response := NoPlayerCutoffParam;
        } else {
          var playersToMove := queues[currentGameName].players;
          queues := queues[currentGameName := EmptyQueue(queues[currentGameName])];
          queues := queues[lowerGameName := Queue(lowerGameName, cutoff, playersToMove)];
          response := Switched(currentGameName, lowerGameName, cutoff);
        }
      }
    }

    /** `end_queue`: empty the game's queue; a name with no queue is the source's KeyError. */
    method EndQueue(gameName: string, playerName: string) returns (response: Response)
      requires Valid()
      modifies this`queues
      ensures Valid()
      ensures Step(response, State()) == End(old(State()), gameName, playerName)
    {
      var lowerGameName := InferGameName(queues, gameName, playerName);
      if lowerGameName == [] {
        response := NoGameParam;
      } else if lowerGameName !in queues {
        response := UnknownGame(lowerGameName);
      } else {
        queues := queues[lowerGameName := EmptyQueue(queues[lowerGameName])];
        response := Ended(lowerGameName);
      }
    }
  }
}
