/** The pairing loop of `main`: accept connections in order, authenticate each, and once two
    players are held start one game with the first as player 1. Each accepted connection is
    given by the chunks it will send; the listening socket and `accept` itself are the
    sequence of connections. The game thread is modelled as a direct call. */
module Server {
  import opened Results
  import opened Text
  import opened Rules
  import opened Protocol
  import opened Game

  datatype ServerRun =
    /** Two players joined and `handle_game` is started on `table` (player 1, player 2 and
        the exchanges so far); the connections in `unaccepted` are never accepted. */
    | Started(table: Table, unaccepted: seq<seq<string>>)
    /** `accept` never returned another connection: the loop waits forever holding `players`. */
    | Stalled(players: seq<Player>)
    /** An authentication exchange failed; the error escapes `main` and the server stops. */
    | Crashed(fault: Fault)

  /** The `while len(players) < 2` loop, entered holding `players`, with the authentication
      exchanges so far in `log`. */
  function AcceptLoop(players: seq<Player>, log: seq<Event>, accepts: seq<seq<string>>): (r: ServerRun)
    requires |players| < 2
    ensures r.Started? ==> |accepts| >= 2 - |players| && r.unaccepted == accepts[2 - |players|..]
    ensures r.Started? && |players| == 1 ==> r.table.p1 == players[0]
    ensures r.Stalled? ==> |accepts| < 2 - |players| && |r.players| == |players| + |accepts|
    ensures r.Stalled? ==> r.players[..|players|] == players
    decreases 2 - |players|
  {
    if |accepts| == 0 then Stalled(players)
    else
      var seat := if |players| == 0 then First else Second;
      match Authenticate(seat, accepts[0])
      case Err(e) => Crashed(e)
      case Ok(login) =>
        var joined := players + [login.player];
        var log' := log + login.events;
        if |joined| == 2 then
          Started(Table(joined[0], joined[1], log'), accepts[1..])
        else
          assert |accepts| >= 2 ==> accepts[1..][1..] == accepts[2..];
          AcceptLoop(joined, log', accepts[1..])
  }

  /** `main` from an empty player list: exactly two connections are accepted, the game starts
      with them in accept order, their names are their first replies stripped and nothing
      else, and a connection that fails to authenticate stops the server. */
  function Serve(accepts: seq<seq<string>>): (r: ServerRun)
    ensures r.Started? <==> |accepts| >= 2 && |accepts[0]| > 0 && |accepts[1]| > 0
    ensures r.Crashed? <==> |accepts| >= 1 && (|accepts[0]| == 0 || (|accepts| >= 2 && |accepts[1]| == 0))
    ensures r.Crashed? ==> r.fault == Disconnected(if |accepts[0]| == 0 then First else Second)
    ensures r.Stalled? ==> |r.players| == |accepts| < 2
    ensures r.Started? ==>
      var p1, p2 := r.table.p1, r.table.p2;
      && p1 == Player(Strip(accepts[0][0]), 0, None, accepts[0][1..])
      && p2 == Player(Strip(accepts[1][0]), 0, None, accepts[1][1..])
      && r.unaccepted == accepts[2..]
      && r.table.log ==
           [Send(First, UsernamePrompt), Recv(First, accepts[0][0]), Send(First, Welcome(p1.username)),
            Send(Second, UsernamePrompt), Recv(Second, accepts[1][0]), Send(Second, Welcome(p2.username))]
  {
    AcceptLoopFromEmpty(accepts);
    AcceptLoop([], [], accepts)
  }

  /** From an empty player list the loop authenticates the first connection as player 1, then
      the second as player 2, and stops there. */
  lemma AcceptLoopFromEmpty(accepts: seq<seq<string>>)
    ensures |accepts| > 0 && |accepts[0]| > 0 ==>
      var first := Authenticate(First, accepts[0]).value;
      AcceptLoop([], [], accepts) == AcceptLoop([first.player], first.events, accepts[1..])
    ensures |accepts| > 1 && |accepts[0]| > 0 && |accepts[1]| > 0 ==>
      var first := Authenticate(First, accepts[0]).value;
      var second := Authenticate(Second, accepts[1]).value;
      AcceptLoop([], [], accepts)
        == Started(Table(first.player, second.player, first.events + second.events), accepts[2..])
  {
    if |accepts| > 0 && |accepts[0]| > 0 {
      var first := Authenticate(First, accepts[0]).value;
      assert [] + [first.player] == [first.player] && [] + first.events == first.events;
      if |accepts| > 1 && |accepts[1]| > 0 {
        var second := Authenticate(Second, accepts[1]).value;
        assert accepts[1..][0] == accepts[1];
        assert accepts[1..][1..] == accepts[2..];
        assert ([first.player] + [second.player])[0] == first.player;
        assert ([first.player] + [second.player])[1] == second.player;
      }
    }
  }

  /** A client that closes in an orderly way during login sends the empty chunk: it still
      joins, with the empty username. */
  lemma OrderlyCloseJoins(a: seq<string>, b: seq<string>)
    requires a == [""] && |b| > 0
    ensures Serve([a, b]).Started?
    ensures Serve([a, b]).table.p1.username == ""
  {
    assert AllSpace("");
    StripUnique("", "", "");
    assert "" + "" + "" == "";
  }

  /** A name followed by the newline a terminal sends is read as the name. */
  lemma NameLine(name: string)
    requires |name| > 0
    requires 'A' <= name[0] <= 'Z' || 'a' <= name[0] <= 'z'
    requires 'A' <= name[|name| - 1] <= 'Z' || 'a' <= name[|name| - 1] <= 'z'
    ensures Strip(name + "\n") == name
  {
    LetterIsNotSpace(name[0]);
    LetterIsNotSpace(name[|name| - 1]);
    assert AllSpace("\n");
    assert name + "\n" == [] + name + "\n";
    StripUnique([], name, "\n");
  }

  /** The two connections of the session below join as Alice and Bob, in that order. */
  lemma AliceAndBobJoin(a: seq<string>, b: seq<string>)
    requires a == ["Alice\n", "rock", "paper", "scissors", "rock", "rock"]
    requires b == ["Bob\n", "scissors", "rock", "paper", "paper", "rock"]
    ensures Serve([a, b]).Started?
    ensures var t := Serve([a, b]).table;
            && t.p1 == Player("Alice", 0, None, a[1..])
            && t.p2 == Player("Bob", 0, None, b[1..])
  {
    NameLine("Alice");
    NameLine("Bob");
    assert "Alice\n" == "Alice" + "\n";
    assert "Bob\n" == "Bob" + "\n";
  }

  /** The outcome of each scripted round, read off the rules table. */
  lemma ScriptedOutcomes(outcomes: seq<Outcome>, c1: seq<string>, c2: seq<string>)
    requires c1 == ["rock", "paper", "scissors", "rock", "rock"]
    requires c2 == ["scissors", "rock", "paper", "paper", "rock"]
    requires |outcomes| == 5
    requires forall i :: 0 <= i < 5 ==> outcomes[i] == DetermineOutcome(Strip(c1[i]), Strip(c2[i]))
    ensures outcomes == [Player1, Player1, Player1, Player2, Tie]
  {
    MoveNameIsStripped(Rock);
    MoveNameIsStripped(Paper);
    MoveNameIsStripped(Scissors);
    OutcomeTable();
    assert outcomes[0] == DetermineOutcome(Strip(c1[0]), Strip(c2[0]));
    assert outcomes[1] == DetermineOutcome(Strip(c1[1]), Strip(c2[1]));
    assert outcomes[2] == DetermineOutcome(Strip(c1[2]), Strip(c2[2]));
    assert outcomes[3] == DetermineOutcome(Strip(c1[3]), Strip(c2[3]));
    assert outcomes[4] == DetermineOutcome(Strip(c1[4]), Strip(c2[4]));
  }

  /** Alice's five moves against Bob's: three wins for Alice, one for Bob, one tie. */
  lemma AliceAndBobRounds(t: Table)
    requires t.p1.inbox == ["rock", "paper", "scissors", "rock", "rock"]
    requires t.p2.inbox == ["scissors", "rock", "paper", "paper", "rock"]
    ensures HandleGame(t).Ok?
    ensures HandleGame(t).value.outcomes == [Player1, Player1, Player1, Player2, Tie]
  {
    assert forall i :: 0 <= i < Rounds ==>
      IsValidChoice(Strip(t.p1.inbox[i])) && IsValidChoice(Strip(t.p2.inbox[i])) by {
      MoveNameIsStripped(Rock);
      MoveNameIsStripped(Paper);
      MoveNameIsStripped(Scissors);
    }
    HandleGameOnValidScripts(t);
    var outcomes := HandleGame(t).value.outcomes;
    ScriptedOutcomes(outcomes, t.p1.inbox, t.p2.inbox);
    assert outcomes == [Player1, Player1, Player1, Player2, Tie];
  }

  /** A whole session: Alice and Bob join, Alice wins three rounds, Bob one, one is a tie,
      and both read the same closing line. */
  lemma AliceAndBob(a: seq<string>, b: seq<string>)
    requires a == ["Alice\n", "rock", "paper", "scissors", "rock", "rock"]
    requires b == ["Bob\n", "scissors", "rock", "paper", "paper", "rock"]
    ensures Serve([a, b]).Started?
    ensures var played := HandleGame(Serve([a, b]).table);
            && played.Ok?
            && var log := played.value.table.log;
               && log[|log| - 2] == Send(First, GameOver("Alice", 3, "Bob", 1))
               && log[|log| - 1] == Send(Second, GameOver("Alice", 3, "Bob", 1))
  {
    AliceAndBobJoin(a, b);
    var t := Serve([a, b]).table;
    AliceAndBobRounds(t);
    assert Count([Player1, Player1, Player1, Player2, Tie], Player1) == 3;
    assert Count([Player1, Player1, Player1, Player2, Tie], Player2) == 1;
  }

  /** The closing line of that session, as the players read it. */
  lemma AliceAndBobFinalLine()
    ensures Render(GameOver("Alice", 3, "Bob", 1)) == "Game over! Alice: 3, Bob: 1\n"
  {
  }
}
