# Rock-paper-scissors game server, modelled in Dafny

`game_server.py` is a TCP server for two players:

- It accepts two connections and asks each for a username.
- It plays five rounds of rock-paper-scissors. Player 1 chooses first, player 2 is told to wait, then player 2 chooses. Each round is resolved and scored, and both players are told the result.
- At the end it sends the same final score line to both players.

This project models that behaviour as pure functions. The sockets are abstracted away and the properties are proved about the model.

- `results.dfy` (`Results`): `Option` and `Result`.
- `text.dfy` (`Text`): Python's `str.strip()` on the characters `str.isspace()` accepts, and `str(n)` for scores.
- `rules.dfy` (`Rules`): the moves, the beats-relation, and `determine_outcome` on the two choice strings.
- `protocol.dfy` (`Protocol`):
  - the message catalogue with its exact texts;
  - the trace of sends and receives;
  - the `Player` record;
  - `authenticate_player` and `get_choice`.
- `game.dfy` (`Game`): `send_round_results`, one round, the five-round loop, and `handle_game`.
- `server.dfy` (`Server`): the pairing loop of `main`, plus a worked two-player session.

How connections are modelled:

- A connection is the finite sequence of chunks its `recv(1024)` calls return, already decoded.
- Every `sendall` and `recv` is appended to one global trace. Each event is tagged with the seat (`First` or `Second`) whose connection it used, so the order across both players can be stated.
- Running out of chunks means the connection failed, for example because the peer reset it. The exchange then ends with `Err(Disconnected(seat))`.
- An orderly close by the peer is the chunk `""`, which is what `recv` returns at end of stream.
- `accept` is the sequence of connections, in accept order.

## Model

| member | source | states |
|---|---|---|
| Rules.DetermineOutcome | game_server.py:54-62 | The result is a tie exactly when the two strings are equal. It is player 1 exactly when they differ and player 1's string beats player 2's. Otherwise it is player 2. |
| Rules.DetermineOutcomeMatchesRules | game_server.py:58-62 | On the names of two moves, `determine_outcome` agrees with an independent cyclic definition of "beats": rock beats scissors, paper beats rock, scissors beats paper. |
| Rules.DetermineOutcomeAntisymmetric | game_server.py:55-62 | For distinct valid choices, swapping the players swaps the winner: player 1 wins (a, b) iff player 2 wins (b, a). |
| Rules.BeatsIsCyclic | game_server.py:58-60 | The beats-relation is irreflexive and asymmetric. Any two distinct moves are related one way, and each move beats exactly one other. |
| Rules.OutcomeTable | game_server.py:54-62 | The result for all nine pairs of valid choices. |
| Rules.InvalidChoicesBothLose | game_server.py:55-62 | Antisymmetry needs validated input. "ROCK" and "rock " name no move, and each gives "player2" against the other, in either order. |
| Rules.ParseMove | game_server.py:24 | A string names a move exactly when it is one of the three valid choices, and it is then that move's name. |
| Rules.IsValidChoiceIsMembership | game_server.py:24 | The validity test is membership in the list `["rock", "paper", "scissors"]`. |
| Text.Strip | game_server.py:16 | Python's `str.strip()` with no argument, on the `str.isspace()` characters. Its contract is the pair of lemmas below: the result is the input minus whitespace at both ends, and any such split strips to its middle. |
| Text.StripParts | game_server.py:16 | `strip()` removes only whitespace: the input is its stripped form with whitespace on both sides, and the stripped form has no whitespace at either end. |
| Text.StripUnique | game_server.py:23 | A string with no whitespace at either end, padded with whitespace on both sides, strips back to itself. |
| Text.StripIdempotent | game_server.py:23 | Stripping twice is the same as stripping once. |
| Text.StripIgnoresPadding | game_server.py:23 | Extra whitespace around a chunk does not change what `strip()` gives. |
| Text.NatToString | game_server.py:49 | `str(score)`: a non-empty run of decimal digits with no leading zero, which is "0" exactly for the score 0. |
| Text.NatToStringRoundTrip | game_server.py:49 | The decimal text of a score reads back as that score. |
| Text.NatToStringInjective | game_server.py:49 | Different scores print differently. |
| Protocol.Render | game_server.py:15-76 | The exact text of every message the server sends. The two prompts end in ": " and stay on the line; every other message ends with a newline. |
| Protocol.Authenticate | game_server.py:5-17 | A player can join exactly when the connection sends at least one chunk. The new player has the stripped chunk as username, score 0 and no choice, and the chunk is consumed. The exchange is prompt, receive, welcome-by-name. |
| Protocol.AuthenticateKeepsAnyName | game_server.py:14-17 | Whitespace around a name is dropped and nothing else is checked: any name is accepted, and a blank reply gives the empty username. |
| Protocol.GetChoice | game_server.py:20-26 | Whatever is accepted is one of the three valid choices. Each call reads at least one chunk. Running out of chunks is a disconnection of that seat. |
| Protocol.GetChoiceFailsIffNoValid | game_server.py:21-25 | The loop never finishes exactly when no chunk the player sends strips to a valid choice. |
| Protocol.GetChoiceAcceptsFirstValid | game_server.py:21-26 | The accepted value is chunk k, stripped, where k is the first valid chunk. Every earlier chunk was refused with one prompt, one receive and one invalid-choice notice. The accepted chunk was prompted for and received, and nothing after it is read. |
| Protocol.GetChoiceTranscript | game_server.py:21-26 | The refusing player sees only their own connection used, k+1 prompts and exactly k invalid-choice notices. Every chunk up to the accepted one is received in order. |
| Protocol.GetChoiceTakesNextValid | game_server.py:20-26 | For any chunks, `get_choice` succeeds exactly when the player still has a valid choice to send. It returns the next one, stripped, and leaves the later valid choices for later calls. |
| Protocol.GetChoiceExample | game_server.py:23-26 | "x", a bare Enter ("\n") and "ROCK " are refused with three notices, and " rock\n" is accepted as "rock". The chunk after it is left unread. |
| Protocol.ViewsAppend | game_server.py:22-26 | What one player reads, and what the server receives from that player, distributes over consecutive parts of the exchange. |
| Game.SendRoundResults | game_server.py:65-76 | The scores move as the result says: a tie moves neither, and a win adds exactly one point to the winner. Nothing else about either player changes. The winner is told "You win this round!", the loser is told the winner's name, and a tie is announced to both, player 1 first. |
| Game.ScoredBounds | game_server.py:66-76 | Scoring never lowers a score and changes at most one score, by exactly one. The total rises by one iff the round is not a tie. A score rises iff that player won. |
| Game.PlayRound | game_server.py:35-46 | A round fails exactly when one player's `get_choice` cannot finish, and it names that player. Otherwise both choices are valid, the result is `determine_outcome` of them, scores move as scoring says, names are kept, and the trace only grows. |
| Game.RoundOrder | game_server.py:36-46 | In every round, player 1's whole exchange ends with the receipt of player 1's choice. Then player 2 is told to wait for player 1 by name. Only then does player 2's exchange begin, with a prompt. The round closes with one notice to each player. |
| Game.PlayRoundOnValidChunks | game_server.py:36-43 | When both next chunks are valid, the round reads exactly one chunk from each and is decided by those two. |
| Game.PlayRoundsOnValidScripts | game_server.py:34-46 | With valid chunks throughout, every round completes, round i is decided by the i-th chunks, and one chunk per player is used per round. |
| Game.PlayRoundTakesNextValid | game_server.py:35-46 | For any chunks, a round completes exactly when both players still have a valid choice to send. It is decided by the next valid choice of each and uses up exactly those two. |
| Game.PlayRoundsTakeValidChoices | game_server.py:34-46 | For any chunks, re-prompts included, n rounds complete exactly when each player sends at least n valid choices. Round i is decided by the i-th valid choice of each player. |
| Game.PlayRounds | game_server.py:34-46 | n rounds give n results. Each score grows by the number of rounds that player won, names are kept, and the earlier trace is a prefix. |
| Game.CountsCover | game_server.py:43-46 | Every round is a tie, a player 1 win or a player 2 win. |
| Game.HandleGame | game_server.py:29-51 | Both players are told the game starts, player 1 first. Exactly five rounds are played and scores are counted from the round results. The same final line, carrying both names and final scores, goes to player 1 and then to player 2 as the last two messages. |
| Game.HandleGameOnValidScripts | game_server.py:29-46 | Clients that send a valid choice each round always complete the game, and round i is decided by their i-th chunks. |
| Game.HandleGameTakesValidChoices | game_server.py:29-46 | For any chunks, the game completes exactly when each player sends at least five valid choices. Round i is decided by the i-th valid choice of each player. |
| Game.MatchTotals | game_server.py:34-49 | From scores of 0, a completed game's final scores add up to the number of rounds that were not ties. Neither score exceeds five, and with no ties they add up to exactly five. |
| Server.AcceptLoop | game_server.py:88-98 | The `while len(players) < 2` loop. It starts a game only after accepting exactly the connections needed to reach two players, and leaves the rest unaccepted. When the connections run out first, it waits holding every player so far, in order. |
| Server.Serve | game_server.py:86-98 | The game starts exactly when two connections are accepted and each sends a username; later connections are never accepted. Player 1 is the first connection accepted and player 2 the second. Usernames are the stripped first chunks with score 0, and the trace holds both welcomes in order. A connection that fails before sending its name (a reset, where `recv` raises) stops the server. One that closes in an orderly way sends `""` and joins with the empty username. Fewer than two connections leave the server waiting. |
| Server.AcceptLoopFromEmpty | game_server.py:88-98 | The accept loop authenticates the first connection as player 1, then the second as player 2, and after the second it starts the game and accepts no more. |
| Server.OrderlyCloseJoins | game_server.py:16-17 | A client that closes in an orderly way during login sends `""`. It still joins, as player 1 here, with the empty username. |
| Server.NameLine | game_server.py:16 | A name typed with a trailing newline is stored without it. |
| Server.AliceAndBobJoin | game_server.py:86-98 | The session below starts a game with "Alice" as player 1 and "Bob" as player 2, both with score 0. |
| Server.ScriptedOutcomes | game_server.py:54-62 | The results of the five scripted choice pairs. |
| Server.AliceAndBobRounds | game_server.py:34-46 | Alice plays rock, paper, scissors, rock, rock and Bob plays scissors, rock, paper, paper, rock: Alice wins three rounds, Bob wins one, and one is a tie. |
| Server.AliceAndBob | game_server.py:29-51 | The whole session ends with both players receiving the final line for Alice 3, Bob 1. |
| Server.AliceAndBobFinalLine | game_server.py:49 | That final line reads exactly "Game over! Alice: 3, Bob: 1\n". |

## Left out

- Sockets are left out: `socket`, `setsockopt`, `bind`, `listen` and `accept`. The sequence of accepted connections stands for them.
- The peer address is left out. It is only ever printed.
- `recv(1024)` buffering, byte decoding and byte encoding are left out. Each `recv` yields one already-decoded chunk, and each `sendall` appends one whole message to the trace.
- The `threading.Thread` that runs `handle_game` is left out. `Server.Serve` stops where the thread would start. A whole session is `HandleGame` applied to the table in `Serve`'s `Started` result, as `Server.AliceAndBob` does; no single member composes the two.
- The two `print` calls in `main` are left out.
- The `None` username a `Player` holds before `authenticate_player` runs is left out. A `Player` is only built once its name is known.
- A connection that fails is modelled as running out of chunks: `Err(Disconnected(seat))`.
  - During login this stands for a reset connection. In the source, `recv` on line 16 then raises and the exception escapes `main`.
  - An orderly close during login is the chunk `""` instead. It strips to the empty username, the welcome is sent, and the player joins (lines 16-17, 94).
  - During `get_choice`, a closed peer makes `recv` return `""` on every call. The source would refuse it and prompt forever, or `sendall` would raise. The model stops with the fault instead of following the endless loop or the exception.
  - Messages sent before the fault are not kept in the `Err` result.
- Sends never fail in the model, only receives. In the source, a `sendall` to a peer that has reset raises and ends `main` or the game thread (lines 17, 31-32, 37, 50-51, 67-76). So a peer that resets after its last read still receives, in the model, every later message, the final score line included.
- Protocol.GetChoice: lets any chunk follow `""`. The source can never receive anything but `""` after the end of stream, so inputs with a non-empty chunk after `""` describe no real session.
- Serve: a login that runs out of chunks is modelled as the server stopping (`Crashed`). In the source this is a reset connection whose exception escapes `main`.
- Rematch, case-insensitive move matching, a "server busy" reply and connection teardown are not in the code. The model follows the code: `"ROCK"` is refused, and no connection is ever closed.
