/** The round engine: the three moves, the beats-relation between them, and
    `determine_outcome`, which the server applies to the two choice strings. */
module Rules {
  import opened Results

  datatype Move = Rock | Paper | Scissors

  /** The result strings `determine_outcome` returns: "tie", "player1" and "player2". */
  datatype Outcome = Tie | Player1 | Player2

  /** The exact text a player must send (after stripping) to choose a move. */
  function MoveName(m: Move): string
  {
    match m
    case Rock => "rock"
    case Paper => "paper"
    case Scissors => "scissors"
  }

  /** The list `get_choice` checks membership in. */
  const ValidChoices: seq<string> := ["rock", "paper", "scissors"]

  /** Membership in `ValidChoices`, spelled out; the comparison is exact, so case matters. */
  predicate IsValidChoice(s: string)
  {
    s == "rock" || s == "paper" || s == "scissors"
  }

  lemma IsValidChoiceIsMembership(s: string)
    ensures IsValidChoice(s) <==> s in ValidChoices
  {
  }

  /** Reads a choice string back as a move. */
  function ParseMove(s: string): (r: Option<Move>)
    ensures r.Some? <==> IsValidChoice(s)
    ensures r.Some? ==> MoveName(r.value) == s
  {
    if s == "rock" then Some(Rock)
    else if s == "paper" then Some(Paper)
    else if s == "scissors" then Some(Scissors)
    else None
  }

  /** Every move's name is a valid choice, and it parses back to that move. */
  lemma MoveNameRoundTrip(m: Move)
    ensures IsValidChoice(MoveName(m))
    ensures ParseMove(MoveName(m)) == Some(m)
  {
  }

  /** The position of a move on the rock, paper, scissors cycle. */
  function Index(m: Move): int
  {
    match m
    case Rock => 0
    case Paper => 1
    case Scissors => 2
  }

  /** The beats-relation as a cycle: each move beats the one just before it
      (paper beats rock, scissors beat paper, rock beats scissors). */
  predicate Beats(a: Move, b: Move)
  {
    (Index(a) - Index(b)) % 3 == 1
  }

  /** The beats-relation is a tournament on three moves: no move beats itself, never both
      ways, some way between distinct moves, and each move beats exactly one other. */
  lemma BeatsIsCyclic(a: Move, b: Move)
    ensures !Beats(a, a)
    ensures Beats(a, b) ==> !Beats(b, a)
    ensures a != b ==> Beats(a, b) || Beats(b, a)
    ensures exists v :: Beats(a, v) && forall u :: Beats(a, u) ==> u == v
  {
    var v := match a case Rock => Scissors case Paper => Rock case Scissors => Paper;
    assert Beats(a, v);
  }

  /** What a round between two moves should give, by the beats-relation alone. */
  function Resolve(a: Move, b: Move): Outcome
  {
    if a == b then Tie else if Beats(a, b) then Player1 else Player2
  }

  /** True when both strings name moves and the first beats the second. */
  predicate FirstBeats(c1: string, c2: string)
  {
    var m1, m2 := ParseMove(c1), ParseMove(c2);
    m1.Some? && m2.Some? && Beats(m1.value, m2.value)
  }

  /** `determine_outcome`: equal strings tie; the three winning pairs for the first player are
      listed literally; every other pair, including strings that name no move, goes to the
      second player. The function is total on strings, as in the source. */
  function DetermineOutcome(c1: string, c2: string): (r: Outcome)
    ensures r == Tie <==> c1 == c2
    ensures r == Player1 <==> c1 != c2 && FirstBeats(c1, c2)
    ensures r == Player2 <==> c1 != c2 && !FirstBeats(c1, c2)
  {
    if c1 == c2 then Tie
    else if (c1 == "rock" && c2 == "scissors")
         || (c1 == "paper" && c2 == "rock")
         || (c1 == "scissors" && c2 == "paper") then Player1
    else Player2
  }

  /** On move names, the literal table of `determine_outcome` is the beats-relation. */
  lemma DetermineOutcomeMatchesRules(a: Move, b: Move)
    ensures DetermineOutcome(MoveName(a), MoveName(b)) == Resolve(a, b)
  {
    MoveNameRoundTrip(a);
    MoveNameRoundTrip(b);
  }

  /** Swapping two distinct valid choices swaps the winner. */
  lemma DetermineOutcomeAntisymmetric(c1: string, c2: string)
    requires IsValidChoice(c1) && IsValidChoice(c2) && c1 != c2
    ensures DetermineOutcome(c1, c2) == Player1 <==> DetermineOutcome(c2, c1) == Player2
    ensures DetermineOutcome(c1, c2) == Player2 <==> DetermineOutcome(c2, c1) == Player1
  {
    var m1, m2 := ParseMove(c1).value, ParseMove(c2).value;
    BeatsIsCyclic(m1, m2);
  }

  /** Antisymmetry needs validated input: two strings that name no move each lose to the other. */
  lemma InvalidChoicesBothLose()
    ensures DetermineOutcome("ROCK", "rock ") == Player2
    ensures DetermineOutcome("rock ", "ROCK") == Player2
  {
    assert !FirstBeats("ROCK", "rock ") && !FirstBeats("rock ", "ROCK");
  }

  /** The nine valid pairs, written out. */
  lemma OutcomeTable()
    ensures DetermineOutcome("rock", "rock") == Tie
    ensures DetermineOutcome("rock", "paper") == Player2
    ensures DetermineOutcome("rock", "scissors") == Player1
    ensures DetermineOutcome("paper", "rock") == Player1
    ensures DetermineOutcome("paper", "paper") == Tie
    ensures DetermineOutcome("paper", "scissors") == Player2
    ensures DetermineOutcome("scissors", "rock") == Player2
    ensures DetermineOutcome("scissors", "paper") == Player1
    ensures DetermineOutcome("scissors", "scissors") == Tie
  {
  }
}
