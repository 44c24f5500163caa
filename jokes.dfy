/** The joke teller: a file of `setup?punchline` lines, and a three-stage
    exchange in which the phrase "alexa tell me a joke" brings up a random
    setup and the next Start reveals its punchline. */
module Jokes {
  import opened Options
  import opened Text

  datatype Joke = Joke(setup: string, punchline: string)

  /** The joke used when the file is missing or has no usable line. */
  const Fallback := Joke("Why did the chicken cross the road?", "To get to the other side.")

  /** The phrase the player must type, compared after stripping and
      lower-casing. */
  const Phrase := "alexa tell me a joke"

  /** The shape of every joke the loader produces: the setup is stripped
      text followed by its single question mark, and the punchline is
      stripped. */
  predicate WellFormed(j: Joke) {
    && |j.setup| > 0 && j.setup[|j.setup| - 1] == '?'
    && '?' !in j.setup[..|j.setup| - 1]
    && IsStripped(j.setup[..|j.setup| - 1])
    && IsStripped(j.punchline)
  }

  /** One line of the file: skipped when, stripped, it has no question mark
      (a blank line has none); otherwise split at its first question mark,
      the stripped text before it plus "?" being the setup and the stripped
      text after it the punchline. */
  function ParseJokeLine(raw: string): (r: Option<Joke>)
    ensures r.Some? <==> '?' in Strip(raw)
    ensures r.Some? ==> WellFormed(r.value)
  {
    var line := Strip(raw);
    if line == [] || '?' !in line then None
    else
      var i := FirstIndex(line, '?');
      var before := Strip(line[..i]);
      StripKeepsOut(line[..i], '?');
      assert (before + "?")[..|before|] == before;
      Some(Joke(before + "?", Strip(line[i + 1..])))
  }

  /** The line a joke is written as in the file. */
  function JokeLine(j: Joke): string {
    j.setup + j.punchline
  }

  /** Every well-formed joke written as a line reads back as itself, so the
      loader's format loses nothing for the jokes it produces. */
  lemma ParseJokeLineRoundTrip(j: Joke)
    requires WellFormed(j)
    ensures ParseJokeLine(JokeLine(j)) == Some(j)
  {
    var line := JokeLine(j);
    var body := j.setup[..|j.setup| - 1];
    assert j.setup == body + "?";
    assert line == body + ['?'] + j.punchline;
    assert IsStripped(line) by {
      if |body| > 0 {
        assert line[0] == body[0];
      }
      if |j.punchline| > 0 {
        assert line[|line| - 1] == j.punchline[|j.punchline| - 1];
      }
    }
    StripStripped(line);
    FirstIndexAfter(body, '?', j.punchline);
    StripStripped(body);
    StripStripped(j.punchline);
  }

  /** Every line with a question mark is some text `u` without one, the
      question mark, and the rest `v`: it reads as the joke whose setup is
      `u` stripped plus the question mark and whose punchline is `v`
      stripped. */
  lemma ParseJokeLineSplit(u: string, v: string)
    requires '?' !in u
    ensures ParseJokeLine(u + "?" + v) == Some(Joke(Strip(u) + "?", Strip(v)))
  {
    var head := TrimStart(u);
    TrimStartKeepsOut(u, '?');
    StripAround(u, '?', v);
    FirstIndexAfter(head, '?', TrimEnd(v));
    assert TrimStart(head) == head;
    StripTrimEnd(v);
  }

  /** What each line of the file reads as. */
  function JokeRows(lines: seq<string>): (rows: seq<Option<Joke>>)
    ensures |rows| == |lines|
    ensures forall i :: 0 <= i < |lines| ==> rows[i] == ParseJokeLine(lines[i])
  {
    ReadLines(lines, JokeLineAt)
  }

  /** The joke reader ignores the position of a line. */
  function JokeLineAt(index: nat, raw: string): Option<Joke> {
    ParseJokeLine(raw)
  }

  /** The jokes of the usable lines, one per line, in file order: every
      joke is what some line reads as, and every line whose stripped form
      has a question mark contributes its joke. */
  function ParseJokes(lines: seq<string>): (jokes: seq<Joke>)
    ensures forall j :: j in jokes ==> exists i :: 0 <= i < |lines| && ParseJokeLine(lines[i]) == Some(j)
    ensures forall i :: 0 <= i < |lines| && '?' in Strip(lines[i]) ==> ParseJokeLine(lines[i]).value in jokes
  {
    var rows := JokeRows(lines);
    PresentMember(rows);
    Present(rows)
  }

  /** Two usable lines contribute their jokes in file order. */
  lemma ParseJokesOrder(lines: seq<string>, i: int, j: int)
    requires 0 <= i < j < |lines| && '?' in Strip(lines[i]) && '?' in Strip(lines[j])
    ensures exists p, q ::
      0 <= p < q < |ParseJokes(lines)| && ParseJokes(lines)[p] == ParseJokeLine(lines[i]).value
      && ParseJokes(lines)[q] == ParseJokeLine(lines[j]).value
  {
    var rows := JokeRows(lines);
    PresentOrder(rows, i, j);
    var p, q :| 0 <= p < q < |Present(rows)| && Present(rows)[p] == rows[i].value && Present(rows)[q] == rows[j].value;
    assert ParseJokes(lines) == Present(rows);
  }

  /** Every joke read from a file is well formed. */
  lemma ParseJokesWellFormed(lines: seq<string>)
    ensures forall j :: j in ParseJokes(lines) ==> WellFormed(j)
  {
    var rows := JokeRows(lines);
    PresentMember(rows);
    forall j | j in ParseJokes(lines) ensures WellFormed(j) {
      assert Some(j) in rows;
      var i :| 0 <= i < |rows| && rows[i] == Some(j);
      assert ParseJokeLine(lines[i]) == Some(j);
    }
  }

  /** A file yields no joke exactly when none of its lines has a question
      mark. */
  lemma ParseJokesEmpty(lines: seq<string>)
    ensures ParseJokes(lines) == [] <==> forall i :: 0 <= i < |lines| ==> '?' !in Strip(lines[i])
  {
    var rows := JokeRows(lines);
    PresentEmpty(rows);
    assert forall i :: 0 <= i < |rows| ==> (rows[i].None? <==> '?' !in Strip(lines[i]));
  }

  /** `load_jokes`: the jokes of the file, or the fallback joke alone when
      the file is missing or yields none. The list is never empty. */
  function JokesFrom(file: Option<seq<string>>): (jokes: seq<Joke>)
    ensures |jokes| > 0
    ensures forall j :: j in jokes ==> WellFormed(j)
    ensures file.None? ==> jokes == [Fallback]
    ensures file.Some? && ParseJokes(file.value) == [] ==> jokes == [Fallback]
    ensures file.Some? && ParseJokes(file.value) != [] ==> jokes == ParseJokes(file.value)
  {
    FallbackWellFormed();
    match file
    case None => [Fallback]
    case Some(lines) =>
      ParseJokesWellFormed(lines);
      var parsed := ParseJokes(lines);
      if parsed == [] then [Fallback] else parsed
  }

  lemma FallbackWellFormed()
    ensures WellFormed(Fallback)
  {
    var body := "Why did the chicken cross the road";
    assert Fallback.setup == body + "?";
    assert Fallback.setup[..|Fallback.setup| - 1] == body;
    assert forall i :: 0 <= i < |body| ==> body[i] != '?';
  }

  /** The loading loop of `load_jokes`. */
  method LoadJokes(file: Option<seq<string>>) returns (jokes: seq<Joke>)
    ensures jokes == JokesFrom(file)
  {
    jokes := [];
    if file.Some? {
      var lines := file.value;
      jokes := ReadEach(lines, JokeLineAt);
    }
    if jokes == [] {
      jokes := [Fallback];
    }
  }

  datatype Stage = Idle | SetupShown | PunchlineShown

  /** What a press of Start (or Enter) puts on the screen. */
  datatype Response =
    | ShowSetup(setup: string)
    | ShowPunchline(punchline: string)
    | AskForPhrase

  /** The joke window's state: the loaded jokes, the joke on screen and the
      stage of the exchange. */
  class JokeApp {
    var jokes: seq<Joke>
    var cur: Option<Joke>
    var stage: Stage

    /** There is always a joke to tell; a joke is on screen exactly when the
        exchange has started, and it is one of the loaded jokes. */
    ghost predicate Valid()
      reads this
    {
      && |jokes| > 0
      && (stage == Idle <==> cur.None?)
      && (cur.Some? ==> cur.value in jokes)
    }

    constructor (file: Option<seq<string>>)
      ensures Valid()
      ensures jokes == JokesFrom(file) && cur == None && stage == Idle
    {
      var loaded := LoadJokes(file);
      jokes, cur, stage := loaded, None, Idle;
    }

    /** `new_joke`: some loaded joke, chosen at random, has its setup shown. */
    method NewJoke() returns (shown: string)
      modifies this`cur, this`stage
      requires Valid()
      ensures Valid()
      ensures stage == SetupShown && cur.Some? && cur.value in jokes
      ensures shown == cur.value.setup
    {
      var i :| 0 <= i < |jokes|;
      cur := Some(jokes[i]);
      stage := SetupShown;
      shown := jokes[i].setup;
    }

    /** `show_punch`: the punchline of the joke on screen is revealed;
        without a joke nothing happens. */
    method ShowPunch() returns (shown: Option<string>)
      modifies this`stage
      requires Valid()
      ensures Valid()
      ensures old(cur).None? ==> stage == old(stage) && shown == None
      ensures old(cur).Some? ==> stage == PunchlineShown && shown == Some(cur.value.punchline)
    {
      if cur.None? {
        return None;
      }
      stage := PunchlineShown;
      shown := Some(cur.value.punchline);
    }

    /** `on_start`: with a setup on screen, its punchline is revealed;
        otherwise the typed text, stripped and lower-cased, must be the
        phrase for a new setup to appear, and anything else only brings up
        the reminder. */
    method OnStart(input: string) returns (response: Response)
      modifies this`cur, this`stage
      requires Valid()
      ensures Valid()
      ensures jokes == old(jokes)
      ensures old(stage) == SetupShown ==>
        stage == PunchlineShown && cur == old(cur) && response == ShowPunchline(cur.value.punchline)
      ensures old(stage) != SetupShown && Lower(Strip(input)) == Phrase ==>
        stage == SetupShown && cur.Some? && cur.value in jokes && response == ShowSetup(cur.value.setup)
      ensures old(stage) != SetupShown && Lower(Strip(input)) != Phrase ==>
        stage == old(stage) && cur == old(cur) && response == AskForPhrase
    {
      match stage
      case SetupShown =>
        var shown := ShowPunch();
        response := ShowPunchline(shown.value);
      case Idle | PunchlineShown =>
        if Lower(Strip(input)) == Phrase {
          var setup := NewJoke();
          response := ShowSetup(setup);
        } else {
          response := AskForPhrase;
        }
    }
  }
}
