# Queue bot command layer: registry and parameter resolution

This project models the command layer of a Discord queue bot (`QueueBot` in
`code/queue_bot.py`). The bot keeps a registry `queues` that maps each game name to
that game's queue. It also keeps a table `game_dict` with the player cutoff last
recorded for each game. The model covers four things:

- how a command works out which game it refers to (`__check_and_lower_game_name_param`);
- how the player cutoff is resolved and recorded (`__check_player_cutoff_param`, `__update_player_cutoff`);
- the existence check `__check_if_queue_exists_and_nonempty`;
- how `start_queue`, `switch_queue`, `leave_queue` and `end_queue` decide what to do,
  and how `start_queue`, `switch_queue` and `end_queue` change the registry (`leave_queue`
  only decides; its removal is done by the engine).

The queue engine (`GameQueue`, `Player`) lives in `game_queue.py`, which is not part of this model.
The model uses only the part of it the command layer relies on (module `GameQueue`):

- a queue's game name, cutoff and ordered `players`;
- `find_player`, used as a truth value;
- `empty_queue`, which clears `players`.

Layout:

- `game_queue.dfy`: the abstract queue.
- `text.dfy`: lower-casing of names.
- `registry.dfy`: the commands as functions on values. Each function's `ensures` states its
  branches, and lemmas relate the commands to each other: inference without a game
  name never yields a missing key, a command preserves the invariant that keys are non-empty and
  lower-cased, the KeyError is reachable only with an explicit name, and so on.
- `queue_bot.dfy`: class `Bot`, whose fields `queues` and `gameDict` are updated in
  place by methods that follow the source step by step. `UpdatePlayerCutoff` records one
  cutoff in the table. `CheckPlayerCutoffParam` is proved to return and record exactly what
  `ResolveCutoff` gives. `StartQueue`, `SwitchQueue` and `EndQueue` are proved to produce
  exactly the response and new state of `Start`, `Switch` and `End`.

Notes on the code:

- The code tests only `not player_cutoff` (lines 166, 433), so any non-zero cutoff,
  negative ones included, creates a queue. `Start` and `Switch` promise only a non-zero cutoff.
- The two `KeyError`s (`leave_queue` line 199, `end_queue` line 464) are modelled as the
  explicit result `UnknownGame`. Lemmas prove this result needs an explicit game name
  that has no queue.
- A point the code leaves implicit: `switch_queue` indexes `self.queues[current_game_name]`
  without checking it. `InferredNameIsKey` proves that lookup cannot fail, because
  every key is stored lower-cased.
- `switch_queue` onto a game whose queue still has players replaces that queue, and its players are
  dropped (`SwitchReplacesTargetQueue`). Switching a game onto itself keeps its players
  (`SwitchToSameGameKeepsPlayers`).

## Model

| member | source | states |
|---|---|---|
| `GameQueue.EmptyQueue` | code/queue_bot.py:464 | emptying keeps the game and cutoff, leaves no players and no findable name |
| `Text.LowerChar` | code/queue_bot.py:89-90 | upper-case ASCII letters map to their lower-case letter, all other characters are unchanged |
| `Text.Lower` | code/queue_bot.py:89-90 | `lower()` keeps the length and lower-cases each character in place |
| `Text.LowerIdempotent` | code/queue_bot.py:89-92 | lower-casing an already lower-cased name changes nothing |
| `Registry.TheOnly` | code/queue_bot.py:91-92 | the element taken from a one-key registry is its only key |
| `Registry.InferGameName` | code/queue_bot.py:78-97 | explicit name: that name lower-cased, whatever the registry holds; else if there is one queue: its key lower-cased; else the unique game whose queue holds the player, if exactly one does; else "" (including the empty registry) |
| `Registry.InferredNameIsLowered` | code/queue_bot.py:78-97 | when keys are stored lower-cased, the inferred name is lower-cased too, so it is safe to store as a key |
| `Registry.InferredNameIsKey` | code/queue_bot.py:424-437 | without an explicit name, the inferred name is "" or a registered game, so `switch_queue`'s lookup cannot fail |
| `Registry.OnlyQueueIsAlwaysInferred` | code/queue_bot.py:91-92 | with exactly one queue, a nameless command targets it whoever asks, even if that queue is empty |
| `Registry.QueueExistsAndNonempty` | code/queue_bot.py:122-137 | true exactly when the game is registered and its queue has players |
| `Registry.FoundPlayerMeansNonempty` | code/queue_bot.py:132-137 | a queue in which `find_player` succeeds passes the existence check |
| `Registry.ResolveCutoff` | code/queue_bot.py:100-119 | known game with 0 given: the stored cutoff, table unchanged; a non-zero cutoff given, or any cutoff for an unknown game (even 0): that cutoff is returned and recorded; the table changes only for a new game or a differing non-zero cutoff; other entries stay the same; the table ends up holding the returned cutoff |
| `Registry.ResolvedCutoffZeroIff` | code/queue_bot.py:111-119 | the resolved cutoff is 0 exactly when none was given and none (or 0) is stored |
| `Registry.ResolveCutoffStable` | code/queue_bot.py:111-119 | resolving again with no cutoff given returns the same cutoff and writes nothing |
| `Registry.Start` | code/queue_bot.py:155-178 | no inferable game: nothing changes; a non-empty queue exists: it is joined and the state is unchanged; otherwise the cutoff is resolved, and only a non-zero cutoff installs a fresh empty queue under the lower-cased name; a zero cutoff leaves the registry untouched |
| `Registry.StartKeepsNonemptyQueues` | code/queue_bot.py:160-170 | the key set grows only by a created game, and a queue that has players is never replaced |
| `Registry.StartPreservesWellKeyed` | code/queue_bot.py:155-170 | after `start_queue`, every key is still non-empty and lower-cased |
| `Registry.StartAfterEndCreates` | code/queue_bot.py:157-170 | after a queue is ended, starting that game by name with a cutoff creates a fresh queue instead of joining the emptied one |
| `Registry.MovePlayers` | code/queue_bot.py:437-439 | the target queue holds exactly the caller's queue's players, in order; the old queue is emptied unless it is the target; every other queue is unchanged |
| `Registry.Switch` | code/queue_bot.py:424-439 | empty target name: no change; no game inferable for the caller: no change; zero resolved cutoff: registry unchanged, table as resolved; otherwise the caller's inferred (registered) game's players move to the lower-cased target game's new queue |
| `Registry.SwitchPreservesWellKeyed` | code/queue_bot.py:424-439 | after `switch_queue`, every key is still non-empty and lower-cased |
| `Registry.SwitchToSameGameKeepsPlayers` | code/queue_bot.py:437-439 | switching a game onto itself keeps its players |
| `Registry.SwitchReplacesTargetQueue` | code/queue_bot.py:439 | a player already queued for the target game, and not in the caller's queue, is no longer in the target queue after the switch |
| `Registry.SwitchMovesOnlyQueue` | code/queue_bot.py:424-439 | with a single queue, the caller need not be in it to move it to another game |
| `Registry.Leave` | code/queue_bot.py:193-203 | no inferable game: no game given; unregistered game: the KeyError; caller found in the queue: remove them from it; otherwise: not a member |
| `Registry.LeaveUnknownNeedsExplicitName` | code/queue_bot.py:194-199 | `leave_queue`'s KeyError happens only with an explicit name that has no queue |
| `Registry.LeaveInfersPlayersQueue` | code/queue_bot.py:193-201 | with no name given and several queues, a player in exactly one queue leaves that one |
| `Registry.End` | code/queue_bot.py:460-464 | no inferable game: no change; unregistered game: the KeyError, no change; otherwise that queue is emptied; its key stays, no other queue changes, the cutoff table is untouched |
| `Registry.EndUnknownNeedsExplicitName` | code/queue_bot.py:460-464 | `end_queue`'s KeyError happens only with an explicit name that has no queue |
| `Registry.EndPreservesWellKeyed` | code/queue_bot.py:460-464 | after `end_queue`, every key is still non-empty and lower-cased |
| `QueueBot.Bot.constructor` | code/queue_bot.py:45-57 | the bot starts with an empty registry and the cutoff table read from the store |
| `QueueBot.Bot.UpdatePlayerCutoff` | code/queue_bot.py:64-75 | the table records the given cutoff for the game; every other entry is unchanged |
| `QueueBot.Bot.CheckPlayerCutoffParam` | code/queue_bot.py:100-119 | the in-place branching returns and records exactly what `ResolveCutoff` specifies |
| `QueueBot.Bot.StartQueue` | code/queue_bot.py:143-179 | the in-place registry and table updates give exactly the response and state of `Start`, and keep the key invariant |
| `QueueBot.Bot.SwitchQueue` | code/queue_bot.py:412-446 | copy, empty, then assign: exactly the response and state of `Switch`; the key invariant is kept |
| `QueueBot.Bot.EndQueue` | code/queue_bot.py:449-466 | exactly the response and state of `End`; the key invariant is kept |

## Left out

- The queue engine in `game_queue.py` is not part of this model: `add_player`, `delete_player`, rotation, delay, rejoin, undo, wait and status, and the text they return.
- `Registry.Start`: the `Joined` and `Created` responses stand for the `add_player` call that follows. That call changes the queue's players, which the model does not show.
- `QueueBot.Bot.StartQueue`: because the `add_player` after creation is not modelled, a created queue stays empty. No `Bot` state reachable through these methods ever holds a player. A second `start_queue` for the same game therefore creates the queue again instead of joining it, whereas in the source lines 160-161 would join the queue that line 178 filled.
- `Registry.Leave`: `Left(g)` stands for the `delete_player` call on that queue. The model does not update the registry for it.
- `GameQueue.EmptyQueue`: it only clears `players`. Anything else `empty_queue` does inside the engine is not shown.
- `Registry.FoundPlayerMeansNonempty`: holds only because the modelled `FindPlayer` searches `players` alone. `rejoin_player` (lines 377-383) shows that `find_player` can return a player marked `delaying`, and whether such players stay in `players` is up to the engine.
- `GameQueue.FindPlayer` compares names exactly. What `find_player` really does, for example matching case-insensitively or also finding delaying players, depends on the engine.
- `Text.LowerChar`: only ASCII upper-case letters are mapped; every other character is left as it is.
- `Text.Lower`: only ASCII letters are mapped. Python's `str.lower` applies full Unicode case mapping, which can also change the length of a string.
- The other commands are not modelled: `next_game_for_queue`, `status_queue`, `wait_queue`, `add_player`, `kick_player`, `delay_player`, `rejoin_player` and `undo_queue`. Each combines `InferGameName` and `QueueExistsAndNonempty` with an engine operation. They keep the registry's keys and change only the targeted queue, through the engine.
- Discord I/O is left out: sending messages, reading the author, mentioning roles (lines 171-176, 441-444), `sync_command_tree`, `on_command_error`, `on_ready`, `add_events` and `add_commands_to_bot`.
- Persistence of `game_dict` is left out: the JSON file is read once (lines 49-57) and written on each update (lines 73-74). The model takes the loaded table as a constructor parameter and keeps only the in-memory update.
- The async structure is not modelled. Each command is treated as running to completion without interleaving.
- The order of dictionary keys is not modelled. Inference uses a key list or a comprehension result only when it has exactly one element, so the order never affects a result.
- `queues` maps to queue values rather than shared objects. Every queue in the registry is built by its own `GameQueue(...)` call, so no two keys share one, and emptying the object in place is the same as replacing the entry.
- `code/__main__.py` only loads a token and runs the bot.
