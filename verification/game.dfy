/**
 One round of the guessing game (`playGame`). The secret is a parameter
 (the program draws it with `Math.random` between 1 and 100), the player's
 answers are a list of strings, and the prompts and console output are
 replaced by an outcome per answer.

 The guess prompt validates each answer before it returns: an answer whose
 `parseInt` value is NaN or outside 1..100 is refused with a message and
 asked for again, without counting an attempt. An accepted answer counts one
 attempt, is parsed once more and is compared with the secret; only equality
 ends the round, and then the score is saved under the name the player gives.
 */
module GuessGame {
  import opened Wrappers
  import JsParseInt
  import Scoring
  import HighScores

  const MinGuess := 1
  const MaxGuess := 100

  /** What the prompt shows for an answer it refuses. */
  const InvalidGuessMessage := "Please enter a number between 1 and 100."

  /** The name used when the player just presses Enter at the name prompt. */
  const DefaultName := "Player"

  // ---------------------------------------------------------------------------
  // Validation

  /** The prompt's verdict on an answer: accept it, or show a message and ask again. */
  datatype Verdict = Accept | Refuse(message: string)

  /** The prompt's `validate` callback. */
  function Validate(input: string): (v: Verdict)
    ensures v.Accept? <==> JsParseInt.ParseInt(input).Some?
                           && MinGuess <= JsParseInt.ParseInt(input).value <= MaxGuess
    ensures v.Refuse? ==> v.message == InvalidGuessMessage
  {
    var num := JsParseInt.ParseInt(input);
    if num.Some? && num.value >= MinGuess && num.value <= MaxGuess then Accept
    else Refuse(InvalidGuessMessage)
  }

  /** The number an answer stands for once the prompt has accepted it: the
      value compared with the secret, re-parsed from the same text. */
  function GuessOf(input: string): (r: Option<int>)
    ensures r.Some? <==> Validate(input).Accept?
    ensures r.Some? ==> MinGuess <= r.value <= MaxGuess && JsParseInt.ParseInt(input) == r
  {
    if Validate(input).Accept? then JsParseInt.ParseInt(input) else None
  }

  /** Every number from 1 to 100, typed in decimal with any white space in
      front and any non-digit text behind, is accepted as itself. */
  lemma AcceptsEveryGuess(ws: string, n: int, rest: string)
    requires MinGuess <= n <= MaxGuess
    requires JsParseInt.AllWhiteSpace(ws)
    requires rest == [] || !JsParseInt.IsDigit(rest[0], 10)
    ensures GuessOf(ws + JsParseInt.ShowInt(n) + rest) == Some(n)
  {
    JsParseInt.ParseIntShowInt(ws, n, rest);
  }

  /** Every number outside 1..100, typed in decimal, is refused. */
  lemma RefusesOutOfRange(n: int)
    requires n < MinGuess || n > MaxGuess
    ensures Validate(JsParseInt.ShowInt(n)) == Refuse(InvalidGuessMessage)
  {
    assert "" + JsParseInt.ShowInt(n) + "" == JsParseInt.ShowInt(n);
    JsParseInt.ParseIntShowInt("", n, "");
  }

  /** Text with no digit where `parseInt` looks for one is refused. */
  lemma RefusesNaN(ws: string, sign: string, rest: string)
    requires JsParseInt.AllWhiteSpace(ws)
    requires sign == "" || sign == "+" || sign == "-"
    requires rest == [] || !JsParseInt.IsDigit(rest[0], 10)
    requires sign == "" && rest != [] ==>
      !JsParseInt.IsStrWhiteSpace(rest[0]) && rest[0] != '+' && rest[0] != '-'
    ensures Validate(ws + sign + rest) == Refuse(InvalidGuessMessage)
  {
    JsParseInt.ParseIntNoDigits(ws, sign, rest);
  }

  /** Answers the prompt refuses: no number, zero, above 100, negative. */
  lemma RefusedExamples(s: string)
    requires s in ["abc", "", "0", "101", "-5"]
    ensures Validate(s) == Refuse(InvalidGuessMessage)
  {
    if s == "abc" || s == "" {
      RefusesNaN("", "", s);
      assert "" + "" + s == s;
    } else if s == "0" {
      assert JsParseInt.ShowInt(0) == s;
      RefusesOutOfRange(0);
    } else if s == "101" {
      assert JsParseInt.ShowInt(101) == s;
      RefusesOutOfRange(101);
    } else {
      assert JsParseInt.ShowInt(-5) == s;
      RefusesOutOfRange(-5);
    }
  }

  /** Answers the prompt accepts, and the number each stands for: the
      bounds, trailing text ignored, leading white space skipped. */
  lemma AcceptedExamples(s: string, n: int)
    requires (s, n) in [("1", 1), ("100", 100), ("42abc", 42), (" 7", 7)]
    ensures GuessOf(s) == Some(n)
  {
    var ws := if s == " 7" then " " else "";
    var rest := if s == "42abc" then "abc" else "";
    assert ws + JsParseInt.ShowInt(n) + rest == s;
    AcceptsEveryGuess(ws, n, rest);
  }

  /** An answer whose `parseInt` value lies in 1..100 stands for that value. */
  lemma GuessOfNumber(input: string, n: int)
    requires JsParseInt.ParseInt(input) == Some(n)
    requires MinGuess <= n <= MaxGuess
    ensures GuessOf(input) == Some(n)
  {}

  /** `0x64` is hexadecimal for 100, and the prompt accepts it. */
  lemma HexExample(s: string)
    requires s == "0x64"
    ensures GuessOf(s) == Some(100)
  {
    HexParses(s);
    GuessOfNumber(s, 100);
  }

  lemma HexParses(s: string)
    requires s == "0x64"
    ensures JsParseInt.ParseInt(s) == Some(100)
  {
    var ds := "64";
    assert "" + ("" + ("0x" + (ds + ""))) == s;
    HexDigits(ds);
    HexValue(ds);
    JsParseInt.ParseIntDigits("", "", "0x", ds, "");
  }

  lemma HexDigits(ds: string)
    requires ds == "64"
    ensures JsParseInt.AllDigits(ds, 16)
  {
    assert JsParseInt.IsDigit(ds[0], 16) && JsParseInt.IsDigit(ds[1], 16);
  }

  lemma HexValue(ds: string)
    requires ds == "64"
    ensures JsParseInt.Value(ds, 16) == 100
  {
    assert ds[..1] == "6";
    assert JsParseInt.Value("6", 16) == 6 by {
      assert "6"[..0] == "";
    }
  }

  // ---------------------------------------------------------------------------
  // The guess loop

  /** The loop's state: the secret, the attempts counted so far, and whether
      the round has been won. */
  datatype Game = Game(secret: int, attempts: nat, done: bool)

  /** What the loop does with one answer. */
  datatype Outcome = Refused(message: string) | TooLow | TooHigh | Won(score: int)

  /** A fresh round. */
  function Start(secret: int): (g: Game)
    requires MinGuess <= secret <= MaxGuess
    ensures MinGuess <= g.secret <= MaxGuess && g.secret == secret
    ensures g.attempts == 0 && !g.done
  {
    Game(secret, 0, false)
  }

  /** One pass of the loop: prompt (with validation), count the attempt,
      compare. */
  function Step(g: Game, input: string): (r: (Game, Outcome))
    requires !g.done
    // a refused answer changes nothing
    ensures r.1.Refused? <==> GuessOf(input).None?
    ensures r.1.Refused? ==> r.0 == g && r.1.message == InvalidGuessMessage
    // an accepted answer counts exactly one attempt and keeps the secret
    ensures !r.1.Refused? ==> r.0.secret == g.secret && r.0.attempts == g.attempts + 1
    // exactly one of win, too low and too high, by comparison with the secret
    ensures r.1.Won? <==> GuessOf(input) == Some(g.secret)
    ensures r.1.TooLow? <==> GuessOf(input).Some? && GuessOf(input).value < g.secret
    ensures r.1.TooHigh? <==> GuessOf(input).Some? && GuessOf(input).value > g.secret
    // only a win ends the round, and it scores the attempts it took
    ensures r.0.done <==> r.1.Won?
    ensures r.1.Won? ==> r.1.score == Scoring.Score(r.0.attempts)
  {
    match Validate(input)
    case Refuse(message) => (g, Refused(message))
    case Accept =>
      var attempts := g.attempts + 1;
      var num := JsParseInt.ParseInt(input).value;
      if num == g.secret then
        (Game(g.secret, attempts, true), Won(Scoring.Score(attempts)))
      else if num < g.secret then
        (Game(g.secret, attempts, false), TooLow)
      else
        (Game(g.secret, attempts, false), TooHigh)
  }

  /** The loop over a list of answers: it stops at the win or when the answers
      run out. */
  function Run(g: Game, inputs: seq<string>): (r: Game)
    decreases inputs
    ensures r.secret == g.secret
    ensures g.attempts <= r.attempts <= g.attempts + |inputs|
    ensures g.done ==> r == g
  {
    if g.done || inputs == [] then g else Run(Step(g, inputs[0]).0, inputs[1..])
  }

  /** What the prompt makes of each answer: the accepted number, or `None`
      for a refused answer. */
  function Guesses(inputs: seq<string>): (gs: seq<Option<int>>)
    ensures |gs| == |inputs|
  {
    if inputs == [] then [] else [GuessOf(inputs[0])] + Guesses(inputs[1..])
  }

  lemma GuessesCons(inputs: seq<string>)
    requires inputs != []
    ensures Guesses(inputs)[0] == GuessOf(inputs[0])
    ensures Guesses(inputs)[1..] == Guesses(inputs[1..])
  {
    var t := Guesses(inputs[1..]);
    assert Guesses(inputs) == [GuessOf(inputs[0])] + t;
    assert ([GuessOf(inputs[0])] + t)[1..] == t;
  }

  /** How many answers the loop reads: up to and including the first that
      names the secret, or all of them. */
  function Consumed(secret: int, gs: seq<Option<int>>): (n: nat)
    ensures n <= |gs|
  {
    if gs == [] then 0
    else if gs[0] == Some(secret) then 1
    else 1 + Consumed(secret, gs[1..])
  }

  /** How many answers the prompt accepts. */
  function Accepted(gs: seq<Option<int>>): (n: nat)
    ensures n <= |gs|
  {
    if gs == [] then 0
    else (if gs[0].Some? then 1 else 0) + Accepted(gs[1..])
  }

  /** Whether some answer names the secret. */
  predicate Names(secret: int, gs: seq<Option<int>>) {
    exists i :: 0 <= i < |gs| && gs[i] == Some(secret)
  }

  /** The loop keeps the secret, counts exactly the accepted answers it reads,
      and ends exactly when some answer names the secret. */
  lemma {:induction false} RunCounts(g: Game, inputs: seq<string>)
    requires !g.done
    decreases |inputs|
    ensures Run(g, inputs).secret == g.secret
    ensures Run(g, inputs).attempts
         == g.attempts + Accepted(Guesses(inputs)[..Consumed(g.secret, Guesses(inputs))])
    ensures Run(g, inputs).done <==> Names(g.secret, Guesses(inputs))
  {
    if inputs != [] {
      var gs := Guesses(inputs);
      var t := inputs[1..];
      GuessesCons(inputs);
      var next := Step(g, inputs[0]).0;
      StepCounts(g, inputs[0]);
      assert Run(g, inputs) == Run(next, t);
      if gs[0] == Some(g.secret) {
        assert Run(next, t) == next;
        CountsOnHit(g.secret, gs, g.attempts, next.attempts);
      } else {
        RunCounts(next, t);
        var last := Run(next, t);
        CountsOnMiss(g.secret, gs, g.attempts, next.attempts, last.attempts, last.done);
      }
    }
  }

  /** The counts when the first answer names the secret. */
  lemma CountsOnHit(secret: int, gs: seq<Option<int>>, before: nat, after: nat)
    requires gs != [] && gs[0] == Some(secret)
    requires after == before + 1
    ensures after == before + Accepted(gs[..Consumed(secret, gs)])
    ensures Names(secret, gs)
  {
    RunStepCounts(secret, gs);
  }

  /** The counts when the first answer misses and the rest of the loop is
      accounted for. */
  lemma CountsOnMiss(secret: int, gs: seq<Option<int>>, before: nat, after: nat,
                     last: nat, done: bool)
    requires gs != [] && gs[0] != Some(secret)
    requires after == before + (if gs[0].Some? then 1 else 0)
    requires last == after + Accepted(gs[1..][..Consumed(secret, gs[1..])])
    requires done <==> Names(secret, gs[1..])
    ensures last == before + Accepted(gs[..Consumed(secret, gs)])
    ensures done <==> Names(secret, gs)
  {
    RunStepCounts(secret, gs);
    assert Consumed(secret, gs) - 1 == Consumed(secret, gs[1..]);
  }

  /** One loop pass in numbers: an accepted answer counts one attempt, and
      only the secret ends the round. */
  lemma StepCounts(g: Game, input: string)
    requires !g.done
    ensures Step(g, input).0.secret == g.secret
    ensures Step(g, input).0.attempts == g.attempts + (if GuessOf(input).Some? then 1 else 0)
    ensures Step(g, input).0.done <==> GuessOf(input) == Some(g.secret)
  {}

  /** The bookkeeping of one loop pass, on the accepted numbers alone. */
  lemma RunStepCounts(secret: int, gs: seq<Option<int>>)
    requires gs != []
    ensures var c := Consumed(secret, gs);
      Accepted(gs[..c]) == (if gs[0].Some? then 1 else 0)
                           + (if gs[0] == Some(secret) then 0 else Accepted(gs[1..][..c - 1]))
    ensures gs[0] == Some(secret) ==> Names(secret, gs)
    ensures gs[0] != Some(secret) ==> (Names(secret, gs) <==> Names(secret, gs[1..]))
  {
    var c := Consumed(secret, gs);
    var t := gs[1..];
    assert gs[..c][0] == gs[0];
    assert gs[..c][1..] == t[..c - 1];
    if gs[0] == Some(secret) {
      assert t[..0] == [];
    } else {
      if Names(secret, gs) {
        var i :| 0 <= i < |gs| && gs[i] == Some(secret);
        assert gs[i] == t[i - 1];
      }
      if Names(secret, t) {
        var i :| 0 <= i < |t| && t[i] == Some(secret);
        assert gs[i + 1] == t[i];
      }
    }
  }

  /** A won round took at least one attempt, so its score lies in 10..95. */
  lemma WonRoundScore(secret: int, inputs: seq<string>)
    requires MinGuess <= secret <= MaxGuess
    requires Run(Start(secret), inputs).done
    ensures Run(Start(secret), inputs).attempts >= 1
    ensures Scoring.MinPoints <= Scoring.Score(Run(Start(secret), inputs).attempts) <= 95
  {
    var g := Start(secret);
    var gs := Guesses(inputs);
    RunCounts(g, inputs);
    var i :| 0 <= i < |gs| && gs[i] == Some(secret);
    FirstWinAccepted(secret, gs, i);
  }

  /** The answers the loop reads include an accepted one when some answer
      names the secret. */
  lemma {:induction false} FirstWinAccepted(secret: int, gs: seq<Option<int>>, i: nat)
    requires i < |gs| && gs[i] == Some(secret)
    ensures Accepted(gs[..Consumed(secret, gs)]) >= 1
  {
    var c := Consumed(secret, gs);
    assert gs[..c][0] == gs[0];
    if gs[0] != Some(secret) {
      FirstWinAccepted(secret, gs[1..], i - 1);
      assert gs[..c][1..] == gs[1..][..c - 1];
    }
  }

  // ---------------------------------------------------------------------------
  // Saving the score

  /** The name prompt's answer, or its default when the answer is empty. */
  function NameOf(answer: string): (name: string)
    ensures name != []
    ensures answer != [] ==> name == answer
    ensures answer == [] ==> name == DefaultName
  {
    if answer == [] then DefaultName else answer
  }

  /** The attempts a round counts: the accepted answers up to and including
      the first that names the secret. */
  function Attempts(secret: int, inputs: seq<string>): nat {
    var gs := Guesses(inputs);
    Accepted(gs[..Consumed(secret, gs)])
  }

  /** A whole round on a stored board: the answers, then, if the round was
      won, the name answer and the time stamp for the saved entry. */
  function Play(board: seq<HighScores.Entry>, secret: int, inputs: seq<string>,
                nameAnswer: string, date: string): (r: seq<HighScores.Entry>)
    requires MinGuess <= secret <= MaxGuess
    ensures !Names(secret, Guesses(inputs)) ==> r == board
    ensures Names(secret, Guesses(inputs)) ==> HighScores.ValidBoard(r)
    ensures Names(secret, Guesses(inputs)) ==>
      r == HighScores.Save(board, HighScores.Entry(NameOf(nameAnswer),
                                                   Scoring.Score(Attempts(secret, inputs)), date))
  {
    var g := Run(Start(secret), inputs);
    RoundOutcome(secret, inputs);
    if g.done then
      HighScores.Save(board, HighScores.Entry(NameOf(nameAnswer), Scoring.Score(g.attempts), date))
    else board
  }

  /** What the loop leaves behind for a fresh round, in the independent counts. */
  lemma RoundOutcome(secret: int, inputs: seq<string>)
    requires MinGuess <= secret <= MaxGuess
    ensures Run(Start(secret), inputs).done <==> Names(secret, Guesses(inputs))
    ensures Run(Start(secret), inputs).attempts == Attempts(secret, inputs)
  {
    RunCounts(Start(secret), inputs);
  }

  /** A won round stores the player's entry, with the score of the attempts
      the round took, whenever the board has room or the score beats the
      fifth-best stored score. */
  lemma PlayStoresWin(board: seq<HighScores.Entry>, secret: int, inputs: seq<string>,
                      nameAnswer: string, date: string)
    requires MinGuess <= secret <= MaxGuess
    requires Names(secret, Guesses(inputs))
    requires |board| < HighScores.MaxEntries
          || HighScores.Top(board)[HighScores.MaxEntries - 1].score < Scoring.Score(Attempts(secret, inputs))
    ensures HighScores.Entry(NameOf(nameAnswer), Scoring.Score(Attempts(secret, inputs)), date)
            in Play(board, secret, inputs, nameAnswer, date)
    ensures Scoring.MinPoints <= Scoring.Score(Attempts(secret, inputs)) <= 95
  {
    var e := HighScores.Entry(NameOf(nameAnswer), Scoring.Score(Attempts(secret, inputs)), date);
    HighScores.SaveHighScore(board, e);
    RoundOutcome(secret, inputs);
    WonRoundScore(secret, inputs);
  }
}
