/** The session controller: `send_round_results`, one round of the loop in `handle_game`,
    the fixed five rounds, and the final score broadcast. */
module Game {
  import opened Results
  import opened Text
  import opened Rules
  import opened Protocol

  /** The number of rounds `handle_game` plays. */
  const Rounds: nat := 5

  /** Both players and everything sent or received so far. */
  datatype Table = Table(p1: Player, p2: Player, log: seq<Event>)

  /** How a round's result moves the scores: a tie moves neither, a win adds exactly one
      point to the winner and none to the other player. */
  predicate Scored(s1: nat, s2: nat, result: Outcome, s1': nat, s2': nat)
  {
    match result
    case Tie => s1' == s1 && s2' == s2
    case Player1 => s1' == s1 + 1 && s2' == s2
    case Player2 => s1' == s1 && s2' == s2 + 1
  }

  /** `send_round_results`: score the round and tell both players, player 1 first. */
  function SendRoundResults(t: Table, result: Outcome): (t': Table)
    ensures Scored(t.p1.score, t.p2.score, result, t'.p1.score, t'.p2.score)
    ensures t'.p1 == t.p1.(score := t'.p1.score) && t'.p2 == t.p2.(score := t'.p2.score)
    ensures result == Tie ==> t'.log == t.log + [Send(First, TieNotice), Send(Second, TieNotice)]
    ensures result == Player1 ==>
      t'.log == t.log + [Send(First, YouWin), Send(Second, OtherWins(t.p1.username))]
    ensures result == Player2 ==>
      t'.log == t.log + [Send(First, OtherWins(t.p2.username)), Send(Second, YouWin)]
  {
    if result == Tie then
      t.(log := t.log + [Send(First, TieNotice), Send(Second, TieNotice)])
    else if result == Player1 then
      var p1 := t.p1.(score := t.p1.score + 1);
      Table(p1, t.p2, t.log + [Send(First, YouWin), Send(Second, OtherWins(p1.username))])
    else
      var p2 := t.p2.(score := t.p2.score + 1);
      Table(t.p1, p2, t.log + [Send(First, OtherWins(p2.username)), Send(Second, YouWin)])
  }

  /** Scoring never takes a point away, changes at most one score, and the total rises by one
      exactly when the round is not a tie. */
  lemma ScoredBounds(s1: nat, s2: nat, result: Outcome, s1': nat, s2': nat)
    requires Scored(s1, s2, result, s1', s2')
    ensures s1 <= s1' <= s1 + 1 && s2 <= s2' <= s2 + 1
    ensures s1' == s1 || s2' == s2
    ensures s1' + s2' == s1 + s2 + (if result == Tie then 0 else 1)
    ensures s1' > s1 <==> result == Player1
    ensures s2' > s2 <==> result == Player2
  {
  }

  datatype Round = Round(table: Table, outcome: Outcome)

  /** One iteration of the round loop: player 1 chooses, player 2 is told to wait, player 2
      chooses, then the round is resolved and scored. */
  function PlayRound(t: Table): (r: Result<Round, Fault>)
    ensures r.Err? <==> GetChoice(First, t.p1.inbox).Err? || GetChoice(Second, t.p2.inbox).Err?
    ensures r.Err? ==> r.error == Disconnected(if GetChoice(First, t.p1.inbox).Err? then First else Second)
    ensures r.Ok? ==>
      var t' := r.value.table;
      && t'.p1.username == t.p1.username && t'.p2.username == t.p2.username
      && t'.p1.choice.Some? && t'.p2.choice.Some?
      && IsValidChoice(t'.p1.choice.value) && IsValidChoice(t'.p2.choice.value)
      && r.value.outcome == DetermineOutcome(t'.p1.choice.value, t'.p2.choice.value)
      && Scored(t.p1.score, t.p2.score, r.value.outcome, t'.p1.score, t'.p2.score)
      && |t'.log| > |t.log| && t'.log[..|t.log|] == t.log
  {
    match GetChoice(First, t.p1.inbox)
    case Err(e) => Err(e)
    case Ok(c1) =>
      var p1 := t.p1.(choice := Some(c1.value), inbox := c1.rest);
      var log1 := t.log + c1.events + [Send(Second, Waiting(p1.username))];
      match GetChoice(Second, t.p2.inbox)
      case Err(e) => Err(e)
      case Ok(c2) =>
        var p2 := t.p2.(choice := Some(c2.value), inbox := c2.rest);
        var result := DetermineOutcome(c1.value, c2.value);
        var t' := SendRoundResults(Table(p1, p2, log1 + c2.events), result);
        assert (log1 + c2.events)[..|t.log|] == t.log;
        Ok(Round(t', result))
  }

  /** Within a round, player 1's choice is received in full and player 2 is told to wait
      before player 2 is first prompted; the round closes with one notice to each player. */
  lemma RoundOrder(t: Table) returns (a: seq<Event>, b: seq<Event>)
    requires PlayRound(t).Ok?
    ensures var t' := PlayRound(t).value.table;
            && OnlySeat(a, First) && OnlySeat(b, Second)
            && |a| >= 2 && a[|a| - 1].Recv? && Strip(a[|a| - 1].text) == t'.p1.choice.value
            && |b| >= 2 && b[0] == Send(Second, ChoicePrompt)
            && b[|b| - 1].Recv? && Strip(b[|b| - 1].text) == t'.p2.choice.value
            && exists n1, n2 :: t'.log == t.log + a + [Send(Second, Waiting(t.p1.username))] + b
                                          + [Send(First, n1), Send(Second, n2)]
  {
    var c1 := GetChoice(First, t.p1.inbox).value;
    var c2 := GetChoice(Second, t.p2.inbox).value;
    a, b := c1.events, c2.events;
    var k1 := GetChoiceAcceptsFirstValid(First, t.p1.inbox);
    var k2 := GetChoiceAcceptsFirstValid(Second, t.p2.inbox);
    ExchangeViews(First, t.p1.inbox[..k1], t.p1.inbox[k1]);
    ExchangeViews(Second, t.p2.inbox[..k2], t.p2.inbox[k2]);
    if k2 > 0 {
      assert b[0] == Rejected(Second, t.p2.inbox[..k2])[0];
    }
    var t' := PlayRound(t).value.table;
    var mid := t.log + a + [Send(Second, Waiting(t.p1.username))] + b;
    var n1, n2 := t'.log[|mid|].msg, t'.log[|mid| + 1].msg;
    assert t'.log == mid + [Send(First, n1), Send(Second, n2)];
  }

  /** A player whose next chunk is a valid choice is not re-prompted: the round reads one
      chunk from each player and is decided by those two choices. */
  lemma PlayRoundOnValidChunks(t: Table)
    requires |t.p1.inbox| > 0 && IsValidChoice(Strip(t.p1.inbox[0]))
    requires |t.p2.inbox| > 0 && IsValidChoice(Strip(t.p2.inbox[0]))
    ensures PlayRound(t).Ok?
    ensures var t' := PlayRound(t).value.table;
            && PlayRound(t).value.outcome == DetermineOutcome(Strip(t.p1.inbox[0]), Strip(t.p2.inbox[0]))
            && t'.p1.inbox == t.p1.inbox[1..] && t'.p2.inbox == t.p2.inbox[1..]
            && t'.p1.username == t.p1.username && t'.p2.username == t.p2.username
  {
    var c1 := GetChoice(First, t.p1.inbox);
    var c2 := GetChoice(Second, t.p2.inbox);
    assert c1.Ok? && c1.value.value == Strip(t.p1.inbox[0]) && c1.value.rest == t.p1.inbox[1..];
    assert c2.Ok? && c2.value.value == Strip(t.p2.inbox[0]) && c2.value.rest == t.p2.inbox[1..];
  }

  /** With both clients sending a valid choice every time, round `i` is decided by their
      `i`-th chunks and each round reads exactly one chunk from each. */
  lemma {:induction false} PlayRoundsOnValidScripts(t: Table, n: nat)
    requires n <= |t.p1.inbox| && n <= |t.p2.inbox|
    requires forall i :: 0 <= i < n ==> IsValidChoice(Strip(t.p1.inbox[i])) && IsValidChoice(Strip(t.p2.inbox[i]))
    ensures PlayRounds(t, n).Ok?
    ensures var played := PlayRounds(t, n).value;
            && played.table.p1.inbox == t.p1.inbox[n..] && played.table.p2.inbox == t.p2.inbox[n..]
            && forall i :: 0 <= i < n ==>
                 played.outcomes[i] == DetermineOutcome(Strip(t.p1.inbox[i]), Strip(t.p2.inbox[i]))
    decreases n
  {
    if n > 0 {
      PlayRoundOnValidChunks(t);
      var round := PlayRound(t).value;
      var t1 := round.table;
      forall i | 0 <= i < n - 1
        ensures IsValidChoice(Strip(t1.p1.inbox[i])) && IsValidChoice(Strip(t1.p2.inbox[i]))
      {
        assert t1.p1.inbox[i] == t.p1.inbox[i + 1] && t1.p2.inbox[i] == t.p2.inbox[i + 1];
      }
      PlayRoundsOnValidScripts(t1, n - 1);
      var rest := PlayRounds(t1, n - 1).value;
      assert PlayRounds(t, n) == Ok(Played(rest.table, [round.outcome] + rest.outcomes));
      assert t1.p1.inbox[n - 1..] == t.p1.inbox[n..] && t1.p2.inbox[n - 1..] == t.p2.inbox[n..];
      forall i | 0 < i < n
        ensures ([round.outcome] + rest.outcomes)[i]
                == DetermineOutcome(Strip(t.p1.inbox[i]), Strip(t.p2.inbox[i]))
      {
        assert t1.p1.inbox[i - 1] == t.p1.inbox[i] && t1.p2.inbox[i - 1] == t.p2.inbox[i];
      }
    }
  }

  /** A round completes exactly when both players have a valid choice still to send; it is
      decided by the next one of each, and uses up exactly those two. */
  lemma PlayRoundTakesNextValid(t: Table)
    ensures PlayRound(t).Ok? <==> |ValidChunks(t.p1.inbox)| > 0 && |ValidChunks(t.p2.inbox)| > 0
    ensures PlayRound(t).Ok? ==>
      var t' := PlayRound(t).value.table;
      && PlayRound(t).value.outcome == DetermineOutcome(ValidChunks(t.p1.inbox)[0], ValidChunks(t.p2.inbox)[0])
      && ValidChunks(t'.p1.inbox) == ValidChunks(t.p1.inbox)[1..]
      && ValidChunks(t'.p2.inbox) == ValidChunks(t.p2.inbox)[1..]
  {
    GetChoiceTakesNextValid(First, t.p1.inbox);
    GetChoiceTakesNextValid(Second, t.p2.inbox);
    if PlayRound(t).Ok? {
      var c1 := GetChoice(First, t.p1.inbox).value;
      var c2 := GetChoice(Second, t.p2.inbox).value;
      var t' := PlayRound(t).value.table;
      assert t'.p1.inbox == c1.rest && t'.p2.inbox == c2.rest;
    }
  }

  datatype Played = Played(table: Table, outcomes: seq<Outcome>)

  /** How many of the round results are `o`. */
  function Count(outcomes: seq<Outcome>, o: Outcome): nat
  {
    if |outcomes| == 0 then 0
    else (if outcomes[0] == o then 1 else 0) + Count(outcomes[1..], o)
  }

  /** Every round is a tie or a win for one side. */
  lemma {:induction false} CountsCover(outcomes: seq<Outcome>)
    ensures Count(outcomes, Tie) + Count(outcomes, Player1) + Count(outcomes, Player2) == |outcomes|
    decreases |outcomes|
  {
    if |outcomes| > 0 {
      CountsCover(outcomes[1..]);
    }
  }

  /** `n` rounds of the loop, in order. A disconnection ends the whole loop. */
  function PlayRounds(t: Table, n: nat): (r: Result<Played, Fault>)
    ensures r.Ok? ==>
      var t' := r.value.table;
      && |r.value.outcomes| == n
      && t'.p1.username == t.p1.username && t'.p2.username == t.p2.username
      && t'.p1.score == t.p1.score + Count(r.value.outcomes, Player1)
      && t'.p2.score == t.p2.score + Count(r.value.outcomes, Player2)
      && |t'.log| >= |t.log| && t'.log[..|t.log|] == t.log
    decreases n
  {
    if n == 0 then Ok(Played(t, []))
    else
      match PlayRound(t)
      case Err(e) => Err(e)
      case Ok(round) =>
        match PlayRounds(round.table, n - 1)
        case Err(e) => Err(e)
        case Ok(rest) =>
          var outcomes := [round.outcome] + rest.outcomes;
          assert outcomes[1..] == rest.outcomes;
          assert rest.table.log[..|t.log|] == round.table.log[..|t.log|];
          Ok(Played(rest.table, outcomes))
  }

  /** For any input, `n` rounds complete exactly when each player sends at least `n` valid
      choices, re-prompts included; round `i` is decided by the `i`-th valid choice of each. */
  lemma {:induction false} PlayRoundsTakeValidChoices(t: Table, n: nat)
    ensures PlayRounds(t, n).Ok? <==> n <= |ValidChunks(t.p1.inbox)| && n <= |ValidChunks(t.p2.inbox)|
    ensures PlayRounds(t, n).Ok? ==>
      var played := PlayRounds(t, n).value;
      var v1, v2 := ValidChunks(t.p1.inbox), ValidChunks(t.p2.inbox);
      && ValidChunks(played.table.p1.inbox) == v1[n..]
      && ValidChunks(played.table.p2.inbox) == v2[n..]
      && forall i :: 0 <= i < n ==> played.outcomes[i] == DetermineOutcome(v1[i], v2[i])
    decreases n
  {
    var v1, v2 := ValidChunks(t.p1.inbox), ValidChunks(t.p2.inbox);
    if n > 0 {
      PlayRoundTakesNextValid(t);
      if PlayRound(t).Err? {
        assert PlayRounds(t, n).Err?;
      } else {
        var round := PlayRound(t).value;
        var t1 := round.table;
        PlayRoundsTakeValidChoices(t1, n - 1);
        assert |v1[1..]| == |v1| - 1 && |v2[1..]| == |v2| - 1;
        if PlayRounds(t1, n - 1).Err? {
          assert PlayRounds(t, n).Err?;
        } else {
          var rest := PlayRounds(t1, n - 1).value;
          var outcomes := [round.outcome] + rest.outcomes;
          assert PlayRounds(t, n) == Ok(Played(rest.table, outcomes));
          assert v1[1..][n - 1..] == v1[n..] && v2[1..][n - 1..] == v2[n..];
          forall i | 0 < i < n
            ensures outcomes[i] == DetermineOutcome(v1[i], v2[i])
          {
            assert v1[1..][i - 1] == v1[i] && v2[1..][i - 1] == v2[i];
          }
        }
      }
    }
  }

  /** `handle_game`: announce the start to both players, play the rounds, then send the same
      final score line to player 1 and to player 2. */
  function HandleGame(t: Table): (r: Result<Played, Fault>)
    ensures r.Ok? ==>
      var t' := r.value.table;
      var final := GameOver(t'.p1.username, t'.p1.score, t'.p2.username, t'.p2.score);
      && |r.value.outcomes| == Rounds
      && t'.p1.username == t.p1.username && t'.p2.username == t.p2.username
      && t'.p1.score == t.p1.score + Count(r.value.outcomes, Player1)
      && t'.p2.score == t.p2.score + Count(r.value.outcomes, Player2)
      && |t'.log| >= |t.log| + 4
      && t'.log[..|t.log| + 2] == t.log + [Send(First, StartNotice), Send(Second, StartNotice)]
      && t'.log[|t'.log| - 2] == Send(First, final)
      && t'.log[|t'.log| - 1] == Send(Second, final)
  {
    var start := t.log + [Send(First, StartNotice), Send(Second, StartNotice)];
    match PlayRounds(t.(log := start), Rounds)
    case Err(e) => Err(e)
    case Ok(played) =>
      var p1, p2 := played.table.p1, played.table.p2;
      var final := GameOver(p1.username, p1.score, p2.username, p2.score);
      var log := played.table.log + [Send(First, final), Send(Second, final)];
      assert log[..|start|] == start by {
        assert log[..|start|] == played.table.log[..|start|];
      }
      assert log[|log| - 2] == Send(First, final) && log[|log| - 1] == Send(Second, final);
      Ok(played.(table := played.table.(log := log)))
  }

  /** With both clients sending a valid choice in each of the five rounds, the game completes
      and round `i` is decided by their `i`-th chunks. */
  lemma HandleGameOnValidScripts(t: Table)
    requires Rounds <= |t.p1.inbox| && Rounds <= |t.p2.inbox|
    requires forall i :: 0 <= i < Rounds ==> IsValidChoice(Strip(t.p1.inbox[i])) && IsValidChoice(Strip(t.p2.inbox[i]))
    ensures HandleGame(t).Ok?
    ensures forall i :: 0 <= i < Rounds ==>
      HandleGame(t).value.outcomes[i] == DetermineOutcome(Strip(t.p1.inbox[i]), Strip(t.p2.inbox[i]))
  {
    var t0 := t.(log := t.log + [Send(First, StartNotice), Send(Second, StartNotice)]);
    PlayRoundsOnValidScripts(t0, Rounds);
  }

  /** For any input, the game completes exactly when each player sends at least five valid
      choices, however many invalid chunks come between them; round `i` is decided by the
      `i`-th valid choice of each player. */
  lemma HandleGameTakesValidChoices(t: Table)
    ensures HandleGame(t).Ok? <==>
            Rounds <= |ValidChunks(t.p1.inbox)| && Rounds <= |ValidChunks(t.p2.inbox)|
    ensures HandleGame(t).Ok? ==> forall i :: 0 <= i < Rounds ==>
      HandleGame(t).value.outcomes[i] == DetermineOutcome(ValidChunks(t.p1.inbox)[i], ValidChunks(t.p2.inbox)[i])
  {
    var t0 := t.(log := t.log + [Send(First, StartNotice), Send(Second, StartNotice)]);
    PlayRoundsTakeValidChoices(t0, Rounds);
  }

  /** From fresh players, the final scores count the rounds each player won: together they
      are the number of rounds that were not ties, so neither exceeds five, and with no
      ties they add up to exactly five. */
  lemma MatchTotals(t: Table)
    requires t.p1.score == 0 && t.p2.score == 0
    ensures HandleGame(t).Ok? ==>
            var played := HandleGame(t).value;
            var s1, s2 := played.table.p1.score, played.table.p2.score;
            && s1 + s2 == Rounds - Count(played.outcomes, Tie)
            && s1 <= Rounds && s2 <= Rounds
            && (Count(played.outcomes, Tie) == 0 ==> s1 + s2 == Rounds)
  {
    if HandleGame(t).Ok? {
      CountsCover(HandleGame(t).value.outcomes);
    }
  }
}
