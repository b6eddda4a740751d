/** What travels over a player's connection: the message catalogue, the trace of sends and
    receives, the per-player state, and the two request/response exchanges
    (`authenticate_player` and `get_choice`).

    A connection is modelled by the finite sequence of chunks its `recv(1024)` calls would
    return, already decoded; running out of chunks is the peer going away. Every `sendall`
    and every `recv` is appended to one trace of events, tagged with the seat of the player
    whose connection it used, so that the order across both players is visible. */
module Protocol {
  import opened Results
  import opened Text
  import opened Rules

  /** Player 1 is the first connection accepted, player 2 the second. */
  datatype Seat = First | Second

  /** The server's messages, by kind. */
  datatype Message =
    | UsernamePrompt
    | Welcome(name: string)
    | StartNotice
    | ChoicePrompt
    | InvalidChoice
    | Waiting(name: string)
    | TieNotice
    | YouWin
    | OtherWins(name: string)
    | GameOver(name1: string, score1: nat, name2: string, score2: nat)

  /** The exact text of each message. The two prompts leave the cursor after ": " on the
      same line; every other message is a whole line. */
  function Render(m: Message): (r: string)
    ensures |r| >= 2
    ensures r[|r| - 1] == '\n' <==> !(m.UsernamePrompt? || m.ChoicePrompt?)
    ensures m.UsernamePrompt? || m.ChoicePrompt? ==> r[|r| - 2..] == ": "
  {
    match m
    case UsernamePrompt => "Enter your username: "
    case Welcome(name) => "Welcome, " + name + "!\n"
    case StartNotice => "Both players are connected. Let's start the game!\n"
    case ChoicePrompt => "Enter your choice (rock, paper, scissors): "
    case InvalidChoice => "Invalid choice. Please enter rock, paper, or scissors.\n"
    case Waiting(name) => "Waiting for " + name + " to make a choice...\n"
    case TieNotice => "This round is a tie!\n"
    case YouWin => "You win this round!\n"
    case OtherWins(name) => name + " wins this round!\n"
    case GameOver(n1, s1, n2, s2) =>
      "Game over! " + n1 + ": " + NatToString(s1) + ", " + n2 + ": " + NatToString(s2) + "\n"
  }

  /** A `sendall` of a message to a seat, or a `recv` of a chunk from it. */
  datatype Event = Send(seat: Seat, msg: Message) | Recv(seat: Seat, text: string)

  /** Any failed exchange: the peer on that seat closed or reset its connection. */
  datatype Fault = Disconnected(seat: Seat)

  /** A player as the server keeps it. The socket itself is replaced by `inbox`, the chunks
      not yet received; the address is only ever printed and is left out. */
  datatype Player = Player(username: string, score: nat, choice: Option<string>, inbox: seq<string>)

  // Views of a trace.

  /** The messages sent to `seat`, in order: what that client reads. */
  function Outbox(events: seq<Event>, seat: Seat): seq<Message>
  {
    if |events| == 0 then []
    else
      (if events[0].Send? && events[0].seat == seat then [events[0].msg] else [])
      + Outbox(events[1..], seat)
  }

  /** The chunks received from `seat`, in order. */
  function Inbound(events: seq<Event>, seat: Seat): seq<string>
  {
    if |events| == 0 then []
    else
      (if events[0].Recv? && events[0].seat == seat then [events[0].text] else [])
      + Inbound(events[1..], seat)
  }

  lemma {:induction false} OutboxAppend(a: seq<Event>, b: seq<Event>, seat: Seat)
    ensures Outbox(a + b, seat) == Outbox(a, seat) + Outbox(b, seat)
    decreases |a|
  {
    if |a| > 0 {
      assert (a + b)[0] == a[0];
      assert (a + b)[1..] == a[1..] + b;
      OutboxAppend(a[1..], b, seat);
      var h := if a[0].Send? && a[0].seat == seat then [a[0].msg] else [];
      assert h + (Outbox(a[1..], seat) + Outbox(b, seat)) == (h + Outbox(a[1..], seat)) + Outbox(b, seat);
    } else {
      assert a + b == b;
    }
  }

  lemma {:induction false} InboundAppend(a: seq<Event>, b: seq<Event>, seat: Seat)
    ensures Inbound(a + b, seat) == Inbound(a, seat) + Inbound(b, seat)
    decreases |a|
  {
    if |a| > 0 {
      assert (a + b)[0] == a[0];
      assert (a + b)[1..] == a[1..] + b;
      InboundAppend(a[1..], b, seat);
      var h := if a[0].Recv? && a[0].seat == seat then [a[0].text] else [];
      assert h + (Inbound(a[1..], seat) + Inbound(b, seat)) == (h + Inbound(a[1..], seat)) + Inbound(b, seat);
    } else {
      assert a + b == b;
    }
  }

  /** Both views distribute over concatenation of traces. */
  lemma ViewsAppend(a: seq<Event>, b: seq<Event>, seat: Seat)
    ensures Outbox(a + b, seat) == Outbox(a, seat) + Outbox(b, seat)
    ensures Inbound(a + b, seat) == Inbound(a, seat) + Inbound(b, seat)
  {
    OutboxAppend(a, b, seat);
    InboundAppend(a, b, seat);
  }

  lemma ViewsOfEvent(e: Event, seat: Seat)
    ensures Outbox([e], seat) == if e.Send? && e.seat == seat then [e.msg] else []
    ensures Inbound([e], seat) == if e.Recv? && e.seat == seat then [e.text] else []
  {
    assert [e][1..] == [];
  }

  /** Every event of the trace used `seat`'s connection. */
  predicate OnlySeat(events: seq<Event>, seat: Seat)
  {
    forall i :: 0 <= i < |events| ==> events[i].seat == seat
  }

  // authenticate_player

  datatype Login = Login(player: Player, events: seq<Event>)

  /** `authenticate_player`: prompt, take one chunk, keep it stripped as the username, and
      welcome the player by that name. No name is refused, the empty one included. */
  function Authenticate(seat: Seat, inbox: seq<string>): (r: Result<Login, Fault>)
    ensures r.Ok? <==> |inbox| > 0
    ensures r.Err? ==> r.error == Disconnected(seat)
    ensures r.Ok? ==>
      var p := r.value.player;
      && p.username == Strip(inbox[0])
      && p.score == 0 && p.choice == None
      && p.inbox == inbox[1..]
      && r.value.events == [Send(seat, UsernamePrompt), Recv(seat, inbox[0]), Send(seat, Welcome(p.username))]
  {
    if |inbox| == 0 then Err(Disconnected(seat))
    else
      var name := Strip(inbox[0]);
      Ok(Login(Player(name, 0, None, inbox[1..]),
               [Send(seat, UsernamePrompt), Recv(seat, inbox[0]), Send(seat, Welcome(name))]))
  }

  /** Whitespace around the name is dropped and nothing else is checked: a blank reply
      gives the empty username. */
  lemma AuthenticateKeepsAnyName(seat: Seat, pad: string, name: string, rest: seq<string>)
    requires AllSpace(pad) && IsStripped(name)
    ensures Authenticate(seat, [pad + name + "\n"] + rest).Ok?
    ensures Authenticate(seat, [pad + name + "\n"] + rest).value.player.username == name
    ensures Authenticate(seat, [pad] + rest).value.player.username == ""
  {
    assert AllSpace("\n");
    StripUnique(pad, name, "\n");
    StripUnique(pad, "", "");
    assert pad + "" + "" == pad;
  }

  // get_choice

  /** A move's name goes through `strip()` unchanged. */
  lemma MoveNameIsStripped(m: Move)
    ensures Strip(MoveName(m)) == MoveName(m)
  {
    var w := MoveName(m);
    LetterIsNotSpace(w[0]);
    LetterIsNotSpace(w[|w| - 1]);
    StripOfStripped(w);
  }

  /** What one `get_choice` call leaves behind: the accepted choice, the chunks still
      unread, and the exchange it had with the player. */
  datatype Choice = Choice(value: string, rest: seq<string>, events: seq<Event>)

  /** The exchange for a run of refused chunks: each is prompted for, received, and
      answered with exactly one invalid-choice notice. */
  function Rejected(seat: Seat, bad: seq<string>): seq<Event>
  {
    if |bad| == 0 then []
    else [Send(seat, ChoicePrompt), Recv(seat, bad[0]), Send(seat, InvalidChoice)]
         + Rejected(seat, bad[1..])
  }

  /** `get_choice`: prompt and receive until a chunk, once stripped, is exactly one of
      "rock", "paper", "scissors". Each call reads at least one chunk, and what it accepts is
      always a valid choice; running out of chunks is a disconnection of this seat. */
  function GetChoice(seat: Seat, inbox: seq<string>): (r: Result<Choice, Fault>)
    ensures r.Err? ==> r.error == Disconnected(seat)
    ensures r.Ok? ==> IsValidChoice(r.value.value) && |r.value.rest| < |inbox|
    decreases |inbox|
  {
    if |inbox| == 0 then Err(Disconnected(seat))
    else
      var choice := Strip(inbox[0]);
      if IsValidChoice(choice) then
        Ok(Choice(choice, inbox[1..], [Send(seat, ChoicePrompt), Recv(seat, inbox[0])]))
      else
        match GetChoice(seat, inbox[1..])
        case Err(e) => Err(e)
        case Ok(c) =>
          var attempt := [Send(seat, ChoicePrompt), Recv(seat, inbox[0]), Send(seat, InvalidChoice)];
          Ok(c.(events := attempt + c.events))
  }

  /** `get_choice` gives up exactly when no chunk the player will ever send is valid. */
  lemma {:induction false} GetChoiceFailsIffNoValid(seat: Seat, inbox: seq<string>)
    ensures GetChoice(seat, inbox).Err? <==>
            forall i :: 0 <= i < |inbox| ==> !IsValidChoice(Strip(inbox[i]))
    decreases |inbox|
  {
    if |inbox| > 0 && !IsValidChoice(Strip(inbox[0])) {
      GetChoiceFailsIffNoValid(seat, inbox[1..]);
      forall i | 0 < i < |inbox| ensures inbox[1..][i - 1] == inbox[i] {}
    }
  }

  /** A successful `get_choice` accepts the first valid chunk, chunk `k`: every chunk before it
      was refused, with one prompt, one receive and one invalid-choice notice each; the
      accepted chunk was prompted for and received; nothing after it was read. */
  lemma {:induction false} GetChoiceAcceptsFirstValid(seat: Seat, inbox: seq<string>) returns (k: nat)
    requires GetChoice(seat, inbox).Ok?
    ensures var c := GetChoice(seat, inbox).value;
            && k < |inbox| && c.rest == inbox[k + 1..]
            && c.value == Strip(inbox[k])
            && (forall i :: 0 <= i < k ==> !IsValidChoice(Strip(inbox[i])))
            && c.events == Rejected(seat, inbox[..k]) + [Send(seat, ChoicePrompt), Recv(seat, inbox[k])]
    decreases |inbox|
  {
    if IsValidChoice(Strip(inbox[0])) {
      k := 0;
      assert inbox[..0] == [];
    } else {
      var j := GetChoiceAcceptsFirstValid(seat, inbox[1..]);
      k := j + 1;
      assert inbox[1..][j] == inbox[k];
      assert inbox[1..][j + 1..] == inbox[k + 1..];
      forall i | 0 < i < k ensures !IsValidChoice(Strip(inbox[i])) {
        assert inbox[1..][i - 1] == inbox[i];
      }
      assert inbox[..k][1..] == inbox[1..][..j];
      var attempt := [Send(seat, ChoicePrompt), Recv(seat, inbox[0]), Send(seat, InvalidChoice)];
      var tail := [Send(seat, ChoicePrompt), Recv(seat, inbox[k])];
      assert attempt + (Rejected(seat, inbox[1..][..j]) + tail)
          == (attempt + Rejected(seat, inbox[1..][..j])) + tail;
    }
  }

  /** The valid choices a player's chunks carry, stripped, in the order they arrive: the
      values successive `get_choice` calls accept. */
  function ValidChunks(inbox: seq<string>): seq<string>
  {
    if |inbox| == 0 then []
    else
      (if IsValidChoice(Strip(inbox[0])) then [Strip(inbox[0])] else []) + ValidChunks(inbox[1..])
  }

  /** `get_choice` takes the player's next valid choice: it succeeds exactly when there is one,
      returns it, and leaves the later valid choices unread. */
  lemma {:induction false} GetChoiceTakesNextValid(seat: Seat, inbox: seq<string>)
    ensures GetChoice(seat, inbox).Ok? <==> |ValidChunks(inbox)| > 0
    ensures GetChoice(seat, inbox).Ok? ==>
      && GetChoice(seat, inbox).value.value == ValidChunks(inbox)[0]
      && ValidChunks(GetChoice(seat, inbox).value.rest) == ValidChunks(inbox)[1..]
    decreases |inbox|
  {
    if |inbox| > 0 {
      var v := ValidChunks(inbox[1..]);
      if IsValidChoice(Strip(inbox[0])) {
        assert ValidChunks(inbox) == [Strip(inbox[0])] + v;
        assert ([Strip(inbox[0])] + v)[1..] == v;
      } else {
        assert ValidChunks(inbox) == v;
        GetChoiceTakesNextValid(seat, inbox[1..]);
      }
    }
  }

  /** The prompts and notices a player reads for `n` refused chunks. */
  function Reprompts(n: nat): seq<Message>
  {
    if n == 0 then [] else [ChoicePrompt, InvalidChoice] + Reprompts(n - 1)
  }

  function Occurrences(ms: seq<Message>, m: Message): nat
  {
    if |ms| == 0 then 0 else (if ms[0] == m then 1 else 0) + Occurrences(ms[1..], m)
  }

  lemma {:induction false} OccurrencesAppend(a: seq<Message>, b: seq<Message>, m: Message)
    ensures Occurrences(a + b, m) == Occurrences(a, m) + Occurrences(b, m)
    decreases |a|
  {
    if |a| > 0 {
      assert (a + b)[0] == a[0];
      assert (a + b)[1..] == a[1..] + b;
      OccurrencesAppend(a[1..], b, m);
    } else {
      assert a + b == b;
    }
  }

  /** The views of one refused attempt: prompt, receive, notice. */
  lemma AttemptViews(seat: Seat, chunk: string)
    ensures var attempt := [Send(seat, ChoicePrompt), Recv(seat, chunk), Send(seat, InvalidChoice)];
            && Inbound(attempt, seat) == [chunk]
            && Outbox(attempt, seat) == [ChoicePrompt, InvalidChoice]
  {
    var e1, e2, e3 := Send(seat, ChoicePrompt), Recv(seat, chunk), Send(seat, InvalidChoice);
    ViewsOfEvent(e1, seat);
    ViewsOfEvent(e2, seat);
    ViewsOfEvent(e3, seat);
    ViewsAppend([e1], [e2], seat);
    var x := [e1] + [e2];
    assert Inbound(x, seat) == [chunk] && Outbox(x, seat) == [ChoicePrompt];
    ViewsAppend(x, [e3], seat);
    assert [e1, e2, e3] == x + [e3];
  }

  /** The refused chunks are received in order, and each costs one prompt and one notice. */
  lemma {:induction false} RejectedTranscript(seat: Seat, bad: seq<string>)
    ensures OnlySeat(Rejected(seat, bad), seat)
    ensures Inbound(Rejected(seat, bad), seat) == bad
    ensures Outbox(Rejected(seat, bad), seat) == Reprompts(|bad|)
    decreases |bad|
  {
    if |bad| > 0 {
      var attempt := [Send(seat, ChoicePrompt), Recv(seat, bad[0]), Send(seat, InvalidChoice)];
      RejectedTranscript(seat, bad[1..]);
      ViewsAppend(attempt, Rejected(seat, bad[1..]), seat);
      AttemptViews(seat, bad[0]);
      assert bad == [bad[0]] + bad[1..];
    }
  }

  /** `n` refusals show `n` invalid-choice notices and `n` prompts. */
  lemma {:induction false} RepromptsCount(n: nat)
    ensures Occurrences(Reprompts(n), InvalidChoice) == n
    ensures Occurrences(Reprompts(n), ChoicePrompt) == n
  {
    if n > 0 {
      RepromptsCount(n - 1);
      var rest := Reprompts(n - 1);
      assert ([ChoicePrompt, InvalidChoice] + rest)[1..][1..] == rest;
    }
  }

  /** The views of the exchange `get_choice` has when it refuses `bad` and accepts `chunk`. */
  lemma ExchangeViews(seat: Seat, bad: seq<string>, chunk: string)
    ensures var events := Rejected(seat, bad) + [Send(seat, ChoicePrompt), Recv(seat, chunk)];
            && OnlySeat(events, seat)
            && Inbound(events, seat) == bad + [chunk]
            && Outbox(events, seat) == Reprompts(|bad|) + [ChoicePrompt]
            && Occurrences(Outbox(events, seat), InvalidChoice) == |bad|
            && Occurrences(Outbox(events, seat), ChoicePrompt) == |bad| + 1
  {
    var last := [Send(seat, ChoicePrompt), Recv(seat, chunk)];
    RejectedTranscript(seat, bad);
    RepromptsCount(|bad|);
    ViewsAppend(Rejected(seat, bad), last, seat);
    assert last == [last[0]] + [last[1]];
    ViewsAppend([last[0]], [last[1]], seat);
    ViewsOfEvent(last[0], seat);
    ViewsOfEvent(last[1], seat);
    OccurrencesAppend(Reprompts(|bad|), [ChoicePrompt], InvalidChoice);
    OccurrencesAppend(Reprompts(|bad|), [ChoicePrompt], ChoicePrompt);
    assert [ChoicePrompt][1..] == [];
  }

  /** What a player sees of a successful `get_choice` that accepts chunk `k`: one prompt per
      chunk read, one invalid-choice notice per refused chunk, and nothing else; every chunk
      read up to and including the accepted one, in order. */
  lemma GetChoiceTranscript(seat: Seat, inbox: seq<string>) returns (k: nat)
    requires GetChoice(seat, inbox).Ok?
    ensures var c := GetChoice(seat, inbox).value;
            && k < |inbox| && c.rest == inbox[k + 1..]
            && OnlySeat(c.events, seat)
            && Inbound(c.events, seat) == inbox[..k + 1]
            && Outbox(c.events, seat) == Reprompts(k) + [ChoicePrompt]
            && Occurrences(Outbox(c.events, seat), InvalidChoice) == k
            && Occurrences(Outbox(c.events, seat), ChoicePrompt) == k + 1
  {
    k := GetChoiceAcceptsFirstValid(seat, inbox);
    ExchangeViews(seat, inbox[..k], inbox[k]);
    assert inbox[..k + 1] == inbox[..k] + [inbox[k]];
  }

  /** How the chunks of the example below strip. */
  lemma ExampleChunksStrip(inbox: seq<string>)
    requires inbox == ["x", "\n", "ROCK ", " rock\n", "paper"]
    ensures Strip(inbox[0]) == "x" && Strip(inbox[1]) == ""
    ensures Strip(inbox[2]) == "ROCK" && Strip(inbox[3]) == "rock"
  {
    assert Strip(inbox[0]) == "x" by {
      LetterIsNotSpace('x');
      StripOfStripped("x");
    }
    assert Strip(inbox[1]) == "" by {
      assert AllSpace("\n") && AllSpace("");
      StripUnique("\n", "", "");
      assert inbox[1] == "\n" + "" + "";
    }
    assert Strip(inbox[2]) == "ROCK" by {
      LetterIsNotSpace('R');
      LetterIsNotSpace('K');
      assert AllSpace(" ") && AllSpace("");
      StripUnique("", "ROCK", " ");
      assert inbox[2] == "" + "ROCK" + " ";
    }
    assert Strip(inbox[3]) == "rock" by {
      MoveNameIsStripped(Rock);
      assert AllSpace(" ") && AllSpace("\n");
      StripUnique(" ", "rock", "\n");
      assert inbox[3] == " " + "rock" + "\n";
    }
  }

  /** Case matters and inner text matters: "x", a bare Enter and "ROCK " are refused, while
      surrounding whitespace and a trailing newline are not. */
  lemma GetChoiceExample(inbox: seq<string>)
    requires inbox == ["x", "\n", "ROCK ", " rock\n", "paper"]
    ensures var r := GetChoice(First, inbox);
            && r.Ok? && r.value.value == "rock" && r.value.rest == ["paper"]
            && Occurrences(Outbox(r.value.events, First), InvalidChoice) == 3
  {
    ExampleChunksStrip(inbox);
    assert IsValidChoice(Strip(inbox[3]));
    assert GetChoice(First, inbox).Ok? by {
      GetChoiceFailsIffNoValid(First, inbox);
    }
    var k := GetChoiceAcceptsFirstValid(First, inbox);
    assert k == 3 by {
      assert !IsValidChoice(Strip(inbox[0])) && !IsValidChoice(Strip(inbox[1]))
          && !IsValidChoice(Strip(inbox[2]));
    }
    var k' := GetChoiceTranscript(First, inbox);
    assert |inbox[k' + 1..]| == |inbox[k + 1..]|;
  }
}
