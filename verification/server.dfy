/**
 The per-line behaviour of the CountNet server (node.ts:68-150) as a pure step function,
 and the periodic save (node.ts:21-27).

 A step takes the game state, the "saved" flag, the sender's identity, the line it sent,
 the clock reading and the identities currently connected, and yields the new state and
 flag, the text written back to the sender (one element per line written) and the
 message broadcast to every connection, if any.
 */
module Server {
  import opened Wrappers
  import opened JsNumber
  import opened JsText
  import opened Game
  import History
  import Ranking

  /** What a line asks for. */
  datatype Command =
    | Move(n: int)
    | Help
    | ShowHistory(page: int)
    | ShowScore
    | ShowOnline
    | ShowWho
    | ShowTop
    | Invalid

  /** A line that `parseInt` reads as a number is a move; otherwise its text up to the
      first space is matched exactly against the command names. The page of `history`
      is the next space-separated piece read by `parseInt`, or 0 when absent or NaN. */
  function Classify(line: string): Command {
    match ParseInt(line)
    case Some(n) => Move(n)
    case None => WordCommand(Split(line, ' '))
  }

  /** The command named by the first word of a non-numeric line. */
  function WordCommand(words: seq<string>): Command
    requires |words| >= 1
  {
    var first := words[0];
    if first == "help" then Help
    else if first == "history" then ShowHistory(if |words| > 1 then ParseInt(words[1]).GetOr(0) else 0)
    else if first == "score" then ShowScore
    else if first == "online" then ShowOnline
    else if first == "who" then ShowWho
    else if first == "top" then ShowTop
    else Invalid
  }

  /** A line a client can type for each command. */
  function CommandText(c: Command): string
    requires !c.Invalid?
  {
    match c
    case Move(n) => IntToString(n)
    case Help => "help"
    case ShowHistory(page) => "history " + IntToString(page)
    case ShowScore => "score"
    case ShowOnline => "online"
    case ShowWho => "who"
    case ShowTop => "top"
  }

  /** A space-free word starting with a lower-case letter a-z is no number and splits to
      itself. */
  lemma PlainWord(w: string)
    requires w != [] && 'a' <= w[0] <= 'z' && ' ' !in w
    ensures ParseInt(w) == None
    ensures Split(w, ' ') == [w]
  {
    ParseIntOfWord(w);
  }

  /** "history " followed by a page number asks for that page. */
  lemma ClassifyHistoryText(page: int)
    ensures Classify("history " + IntToString(page)) == ShowHistory(page)
  {
    var p := IntToString(page);
    var line := "history " + p;
    ParseIntOfWord(line);
    IntToStringHasNoSpace(page);
    assert Join(["history", p], [' ']) == line;
    SplitJoin(["history", p], ' ');
    ParseIntRoundTrip(page);
  }

  /** The page of `history` is its second word as `parseInt` reads it, or 0 when that word
      is missing or NaN: `history` and `history abc` ask for page 0, `history 2abc` for
      page 2, and whatever follows the second word is ignored. */
  lemma ClassifyHistoryLine(arg: string, rest: string)
    requires ' ' !in arg
    ensures Classify("history") == ShowHistory(0)
    ensures Classify("history " + arg) == ShowHistory(ParseInt(arg).GetOr(0))
    ensures Classify("history " + arg + " " + rest) == ShowHistory(ParseInt(arg).GetOr(0))
  {
    ClassifyHistoryAlone();
    ClassifyHistoryArg(arg);
    ClassifyHistoryArgRest(arg, rest);
  }

  /** A line that is no number is classified by its words. */
  lemma ClassifyByWords(line: string, words: seq<string>)
    requires ParseInt(line) == None && Split(line, ' ') == words
    ensures |words| >= 1 && Classify(line) == WordCommand(words)
  {
  }

  lemma ClassifyHistoryAlone()
    ensures Classify("history") == ShowHistory(0)
  {
    ParseIntOfWord("history");
    PlainWord("history");
    ClassifyByWords("history", ["history"]);
  }

  lemma ClassifyHistoryArg(arg: string)
    requires ' ' !in arg
    ensures Classify("history " + arg) == ShowHistory(ParseInt(arg).GetOr(0))
  {
    ParseIntOfWord("history " + arg);
    HistoryArgWords(arg);
    ClassifyByWords("history " + arg, ["history", arg]);
  }

  lemma ClassifyHistoryArgRest(arg: string, rest: string)
    requires ' ' !in arg
    ensures Classify("history " + arg + " " + rest) == ShowHistory(ParseInt(arg).GetOr(0))
  {
    var line := "history " + arg + " " + rest;
    var words := ["history", arg] + Split(rest, ' ');
    ParseIntOfWord(line);
    HistoryArgRestWords(arg, rest);
    ClassifyByWords(line, words);
    assert words[0] == "history" && words[1] == arg;
  }

  lemma HistoryArgWords(arg: string)
    requires ' ' !in arg
    ensures Split("history " + arg, ' ') == ["history", arg]
  {
    assert Join(["history", arg], [' ']) == "history " + arg;
    SplitJoin(["history", arg], ' ');
  }

  lemma HistoryArgRestWords(arg: string, rest: string)
    requires ' ' !in arg
    ensures Split("history " + arg + " " + rest, ' ') == ["history", arg] + Split(rest, ' ')
  {
    var tail := Split(rest, ' ');
    var words := ["history", arg] + tail;
    assert Join(words, [' ']) == "history " + arg + " " + rest by {
      assert words[1..] == [arg] + tail;
      assert words[2..] == tail;
    }
    SplitJoin(words, ' ');
  }

  /** Reading back the typed line of any command yields that command. */
  lemma ClassifyCommandText(c: Command)
    requires !c.Invalid?
    ensures Classify(CommandText(c)) == c
  {
    match c
    case Move(n) => ParseIntRoundTrip(n);
    case ShowHistory(page) => ClassifyHistoryText(page);
    case Help => PlainWord("help");
    case ShowScore => PlainWord("score");
    case ShowOnline => PlainWord("online");
    case ShowWho => PlainWord("who");
    case ShowTop => PlainWord("top");
  }

  /** Only the first space-separated word of a non-numeric line is looked at, and it must
      match a command name exactly: whatever follows the first space changes nothing,
      except the page of `history`. */
  lemma FirstWordDecides(w: string, rest: string)
    requires ' ' !in w && w != "history"
    requires ParseInt(w) == None && ParseInt(w + " " + rest) == None
    ensures Classify(w + " " + rest) == Classify(w)
  {
    var line := w + " " + rest;
    SplitFirst(w, ' ', rest);
    assert Split(w, ' ') == [w];
    SameFirstWord(Split(line, ' '), [w]);
  }

  /** A space-free word whose first character is neither white space, a sign nor a decimal
      digit (a letter of any case, say) is no number, and neither is any line it opens; so
      for such a word the lemma above holds whatever follows it. */
  lemma LetterWordDecides(w: string, rest: string)
    requires w != [] && !IsSpace(w[0]) && !IsDecimalDigit(w[0]) && w[0] != '-' && w[0] != '+'
    requires ' ' !in w && w != "history"
    ensures Classify(w + " " + rest) == Classify(w)
  {
    ParseIntOfWord(w);
    ParseIntOfWord(w + " " + rest);
    FirstWordDecides(w, rest);
  }

  lemma SameFirstWord(a: seq<string>, b: seq<string>)
    requires |a| >= 1 && |b| >= 1 && a[0] == b[0] && a[0] != "history"
    ensures WordCommand(a) == WordCommand(b)
  {
  }

  /** A number followed by other text is still a move ("12abc" moves 12), and so is one
      after leading white space. */
  lemma ClassifyNumberPrefix(ws: string, n: int, rest: string)
    requires forall i :: 0 <= i < |ws| ==> IsSpace(ws[i])
    requires rest == [] || !IsDecimalDigit(rest[0])
    requires n == 0 && rest != [] ==> rest[0] != 'x' && rest[0] != 'X'
    ensures Classify(ws + (IntToString(n) + rest)) == Move(n)
  {
    ParseIntSkipsSpace(ws, IntToString(n) + rest);
    ParseIntOfRendered(n, rest);
  }

  const HelpText :=
    "CountNet - How to Use\r\n"
    + "Type the next number in the sequence to enter it and you can also use the following commands.\r\n"
    + "* help - display this message\r\n"
    + "* history [page #] - display past messages\r\n"
    + "* score - show your score\r\n"
    + "* top - show the top ten scores\r\n"
    + "* online - show who's connected right now\r\n"
    + "* who - show who you are\r\n"

  const TwiceText := "You can't speak twice in a row\r\n"

  const InvalidText := "Invalid command. Commands: history, help, score, top, online, who\r\n"

  function WrongText(n: int): string {
    IntToString(n) + " is the wrong number!\r\n"
  }

  function CountText(num: int): string {
    "The count is now " + IntToString(num) + "!\r\n"
  }

  /** The result of one line. */
  datatype Outcome = Outcome(game: GameState, saved: bool, replies: seq<string>, broadcast: Option<string>)

  /** The line is a move the game accepts: it reads as the next number and comes from
      someone other than the last mover. */
  predicate Accepted(g: GameState, ip: string, line: string) {
    ParseInt(line) == Some(g.num + 1) && ip != g.lastBy
  }

  /** Handle one line from `ip`. Only an accepted move changes the state: it clears the
      saved flag and broadcasts the new count; every other line leaves state and flag
      alone and writes at least one line back to the sender. */
  function Step(g: GameState, saved: bool, ip: string, line: string, now: int, online: seq<string>): (r: Outcome)
    ensures r.broadcast.Some? <==> Accepted(g, ip, line)
    ensures Accepted(g, ip, line) ==>
              && r.game == Accept(g, ip, now)
              && !r.saved
              && r.replies == []
              && r.broadcast == Some(CountText(g.num + 1))
    ensures !Accepted(g, ip, line) ==> r.game == g && r.saved == saved && |r.replies| >= 1
  {
    var c := Classify(line);
    if c.Move? then
      if g.lastBy == ip then Outcome(g, saved, [TwiceText], None)
      else if c.n == g.num + 1 then
        var next := Accept(g, ip, now);
        Outcome(next, false, [], Some(CountText(next.num)))
      else Outcome(g, saved, [WrongText(c.n)], None)
    else Outcome(g, saved, Reply(c, g, ip, online), None)
  }

  /** What any line other than a number writes back; never nothing. */
  function Reply(c: Command, g: GameState, ip: string, online: seq<string>): (r: seq<string>)
    requires !c.Move?
    ensures |r| >= 1
  {
    match c
    case Help => [HelpText]
    case ShowHistory(page) => History.HistoryReplies(g.history, page)
    case ShowScore => Ranking.ScoreReplies(g.scores, ip)
    case ShowOnline => ["Currently online:\r\n", Join(online, " ") + "\r\n"]
    case ShowWho => ["You are " + ip + "\r\n"]
    case ShowTop => Ranking.TopReplies(g.scores)
    case Invalid => [InvalidText]
  }

  /** A line that is no number gets the reply of the command it names, and nothing changes. */
  lemma NonNumberReplies(g: GameState, saved: bool, ip: string, line: string, now: int, online: seq<string>)
    requires ParseInt(line) == None
    ensures !Classify(line).Move?
    ensures Step(g, saved, ip, line, now, online) == Outcome(g, saved, Reply(Classify(line), g, ip, online), None)
  {
  }

  /** A number from the last mover is refused whatever its value, before the value is
      looked at, and nothing changes. */
  lemma SpeakTwiceRefused(g: GameState, saved: bool, ip: string, line: string, now: int, online: seq<string>)
    requires ParseInt(line).Some? && ip == g.lastBy
    ensures Step(g, saved, ip, line, now, online) == Outcome(g, saved, [TwiceText], None)
  {
  }

  /** Any other number than the next one is refused by name and nothing changes. */
  lemma WrongNumberRefused(g: GameState, saved: bool, ip: string, line: string, now: int, online: seq<string>)
    requires ParseInt(line).Some? && ParseInt(line).value != g.num + 1 && ip != g.lastBy
    ensures Step(g, saved, ip, line, now, online) == Outcome(g, saved, [WrongText(ParseInt(line).value)], None)
  {
  }

  /** Every step keeps the game invariant. */
  lemma StepPreservesValid(g: GameState, saved: bool, ip: string, line: string, now: int, online: seq<string>)
    requires Valid(g)
    ensures Valid(Step(g, saved, ip, line, now, online).game)
  {
    if Accepted(g, ip, line) {
      AcceptPreservesValid(g, ip, now);
    }
  }

  /** What a save tick does: whether it writes, and the flag afterwards. */
  datatype TickResult = TickResult(write: Option<GameState>, saved: bool)

  /** The flag a freshly started server holds (node.ts:21). */
  const StartSaved := false

  /** The 15-second timer body: write a snapshot only when the flag is clear, and set it. */
  function Tick(g: GameState, saved: bool): (r: TickResult)
    ensures r.saved
    ensures r.write.Some? <==> !saved
    ensures r.write.Some? ==> r.write.value == g
  {
    if !saved then TickResult(Some(g), true) else TickResult(None, true)
  }

  /** The first tick after start-up always writes. */
  lemma FirstTickWrites(g: GameState)
    ensures Tick(g, StartSaved).write == Some(g)
  {
  }

  /** One line received: its sender, its text and the clock reading on arrival. */
  datatype Input = Input(ip: string, line: string, now: int)

  /** The state and flag after handling `ins` in order. */
  function Run(g: GameState, saved: bool, ins: seq<Input>, online: seq<string>): (GameState, bool)
    decreases |ins|
  {
    if ins == [] then (g, saved)
    else
      var o := Step(g, saved, ins[0].ip, ins[0].line, ins[0].now, online);
      Run(o.game, o.saved, ins[1..], online)
  }

  /** Lines none of which is an accepted move change neither the state nor the flag. */
  predicate Quiet(g: GameState, ins: seq<Input>) {
    forall i :: 0 <= i < |ins| ==> !Accepted(g, ins[i].ip, ins[i].line)
  }

  lemma {:induction false} QuietRunChangesNothing(g: GameState, saved: bool, ins: seq<Input>, online: seq<string>)
    requires Quiet(g, ins)
    ensures Run(g, saved, ins, online) == (g, saved)
    decreases |ins|
  {
    if ins != [] {
      QuietRunChangesNothing(g, saved, ins[1..], online);
    }
  }

  /** Two ticks with no accepted move between them write at most once: the second one
      finds the flag still set. */
  lemma {:induction false} TicksBetweenMovesWriteOnce(g: GameState, saved: bool, ins: seq<Input>, online: seq<string>)
    requires Quiet(g, ins)
    ensures var first := Tick(g, saved);
            var after := Run(g, first.saved, ins, online);
            Tick(after.0, after.1).write == None
  {
    QuietRunChangesNothing(g, true, ins, online);
  }

  /** After an accepted move the next tick writes the new state. */
  lemma MoveIsSavedNextTick(g: GameState, saved: bool, ip: string, line: string, now: int, online: seq<string>)
    requires Accepted(g, ip, line)
    ensures var o := Step(g, saved, ip, line, now, online);
            Tick(o.game, o.saved).write == Some(Accept(g, ip, now))
  {
  }

  /** Over any run the invariant holds throughout, the log only grows at its end, and the
      count grows by exactly the number of entries appended. */
  lemma {:induction false} RunKeepsInvariant(g: GameState, saved: bool, ins: seq<Input>, online: seq<string>)
    requires Valid(g)
    ensures var r := Run(g, saved, ins, online).0;
            && Valid(r)
            && g.history <= r.history
            && r.num - g.num == |r.history| - |g.history|
    decreases |ins|
  {
    if ins != [] {
      var o := Step(g, saved, ins[0].ip, ins[0].line, ins[0].now, online);
      StepPreservesValid(g, saved, ins[0].ip, ins[0].line, ins[0].now, online);
      RunKeepsInvariant(o.game, o.saved, ins[1..], online);
    }
  }

  /** Two players, A and B, both connected. A moves 1; A's 2 is refused; B moves 2. A
      and B then hold one point each, and as the stable sort keeps table order on the tie,
      A ranks first and B's `score` reports rank #2. */
  const Players := ["A", "B"]
  const AfterA := GameState(1, "A", [Entry(1, "A", 10)], [Score("A", 1)])
  const AfterB := GameState(2, "B", [Entry(1, "A", 10), Entry(2, "B", 12)], [Score("A", 1), Score("B", 1)])

  lemma SmallNumbers()
    ensures IntToString(1) == "1" && IntToString(2) == "2"
    ensures ParseInt("1") == Some(1) && ParseInt("2") == Some(2)
  {
    assert DigitChar(1) == '1';
    assert DigitChar(2) == '2';
    ParseIntRoundTrip(1);
    ParseIntRoundTrip(2);
  }

  lemma ScenarioAMoves()
    ensures Step(Initial, StartSaved, "A", "1", 10, Players) == Outcome(AfterA, false, [], Some(CountText(1)))
  {
    SmallNumbers();
  }

  lemma ScenarioARepeats()
    ensures Step(AfterA, false, "A", "2", 11, Players) == Outcome(AfterA, false, [TwiceText], None)
  {
    SmallNumbers();
    SpeakTwiceRefused(AfterA, false, "A", "2", 11, Players);
  }

  lemma ScenarioBMoves()
    ensures Step(AfterA, false, "B", "2", 12, Players) == Outcome(AfterB, false, [], Some(CountText(2)))
  {
    SmallNumbers();
  }

  lemma ScenarioBScore()
    ensures Step(AfterB, false, "B", "score", 13, Players)
            == Outcome(AfterB, false, Ranking.ScoreReplies(AfterB.scores, "B"), None)
  {
    assert Classify("score") == ShowScore by {
      PlainWord("score");
    }
  }

  /** On the tied table of the scenario, B is found in second place with one point. */
  lemma ScenarioBHeading()
    ensures Ranking.ScoreReplies(AfterB.scores, "B")[0]
            == "Your score is " + IntToString(1) + ". Rank #" + IntToString(2) + "\r\n"
  {
    var scores := AfterB.scores;
    Ranking.RankUnique(scores, scores);
    assert Ranking.FindIndex(scores, "B") == 1;
    assert ScoreOf(scores, "B") == 1;
  }
}
