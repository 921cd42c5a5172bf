/**
 The game's state machine: typing a letter (handleKeyPress), deleting one
 (handleBackspace) and submitting the current guess (handleEnter). The
 React state setters are read as building the next state; the target word
 and the acceptance dictionary are fixed parameters of a game.
 */
module Game {
  import opened Colors
  import opened Scoring
  import opened Keyboard

  /** Number of guesses a game allows. */
  const MaxGuesses: nat := 6

  /** What the component holds between events: the submitted guesses, the
      guess being typed, whether the game has ended, and the keyboard
      colours. */
  datatype State = State(guesses: seq<Word>, current: Word, over: bool, keys: map<Letter, Color>)

  /** The notification a submission raises, if any. */
  datatype Notice = NoNotice | WrongLength | UnknownWord | Solved | OutOfGuesses

  /** The state after a submission together with its notification. */
  datatype Submission = Submission(state: State, notice: Notice)

  /** The state once both word lists are loaded: nothing guessed or typed. */
  const Start: State := State([], [], false, map[])

  /** handleKeyPress: append a letter while the game runs and fewer than five
      letters are typed; otherwise nothing changes. */
  function KeyPress(s: State, letter: Letter): (r: State)
    ensures r.guesses == s.guesses && r.over == s.over && r.keys == s.keys
    ensures r.current != s.current <==> !s.over && |s.current| < WordLength
    ensures r.current != s.current ==> r.current == s.current + [letter]
    ensures |s.current| <= WordLength ==> |r.current| <= WordLength
  {
    if s.over then s
    else if |s.current| < WordLength then s.(current := s.current + [letter])
    else s
  }

  /** handleBackspace: drop the last typed letter while the game runs
      (deleting from an empty guess leaves it empty). */
  function Backspace(s: State): (r: State)
    ensures r.guesses == s.guesses && r.over == s.over && r.keys == s.keys
    ensures s.over ==> r == s
    ensures r.current <= s.current
    ensures !s.over ==> |r.current| == if |s.current| == 0 then 0 else |s.current| - 1
  {
    if s.over then s
    else s.(current := if |s.current| == 0 then [] else s.current[..|s.current| - 1])
  }

  /** Backspace undoes a key press that was taken. */
  lemma BackspaceUndoesKeyPress(s: State, letter: Letter)
    requires !s.over && |s.current| < WordLength
    ensures Backspace(KeyPress(s, letter)) == s
  {
    assert (s.current + [letter])[..|s.current|] == s.current;
  }

  /** Whether handleEnter scores the current guess: the game still runs, five
      letters are typed and the word is in the dictionary. */
  predicate Accepts(s: State, dictionary: set<Word>)
  {
    !s.over && |s.current| == WordLength && s.current in dictionary
  }

  /** handleEnter. A submission is ignored once the game is over, and
      rejected with a notification when the guess is not five letters long
      or not in the dictionary; a rejection changes nothing. An accepted
      guess is appended to the guesses, scored, merged into the keyboard
      colours and cleared; the game ends on a correct guess or on the sixth
      one. The guess is scored with the closed form Verdict, which
      Scoring.Score proves equal to the two-pass scorer getColoring. */
  function Enter(s: State, target: Word, dictionary: set<Word>): (r: Submission)
    requires |target| == WordLength
    ensures !Accepts(s, dictionary) ==> r.state == s
    ensures s.over ==> r.notice == NoNotice
    ensures r.notice == WrongLength <==> !s.over && |s.current| != WordLength
    ensures r.notice == UnknownWord <==> !s.over && |s.current| == WordLength && s.current !in dictionary
    ensures Accepts(s, dictionary) ==>
      && r.state.guesses == s.guesses + [s.current]
      && r.state.current == []
      && (r.state.over <==> s.current == target || |s.guesses| + 1 >= MaxGuesses)
      && (r.notice == Solved <==> s.current == target)
      && (r.notice == OutOfGuesses <==> s.current != target && |s.guesses| + 1 >= MaxGuesses)
      && r.state.keys.Keys == s.keys.Keys + LettersOf(s.current)
      && (forall c :: c in s.keys ==> Rank(s.keys[c]) <= Rank(r.state.keys[c]))
  {
    if s.over then Submission(s, NoNotice)
    else if |s.current| != WordLength then Submission(s, WrongLength)
    else if s.current !in dictionary then Submission(s, UnknownWord)
    else
      var guesses := s.guesses + [s.current];
      var keys := RecolorAll(s.keys, s.current, Verdict(s.current, target));
      var won := s.current == target;
      var over := won || |guesses| >= MaxGuesses;
      Submission(State(guesses, [], over, keys),
                 if won then Solved else if over then OutOfGuesses else NoNotice)
  }

  /** A winning guess turns every one of its letters green on the keyboard. */
  lemma WinLightsKeysGreen(s: State, target: Word, dictionary: set<Word>)
    requires |target| == WordLength
    requires Accepts(s, dictionary) && s.current == target
    ensures Enter(s, target, dictionary).notice == Solved
    ensures forall j :: 0 <= j < WordLength ==> Enter(s, target, dictionary).state.keys[target[j]] == Green
  {
    ScoreOfTarget(target);
    var keys := Enter(s, target, dictionary).state.keys;
    forall j | 0 <= j < WordLength
      ensures keys[target[j]] == Green
    {
      assert Verdict(target, target)[j] == Green;
      assert Rank(Green) <= Rank(keys[target[j]]);
    }
  }

  /** The labels the scorer gives each guess, in order. */
  function Scores(guesses: seq<Word>, target: Word): (r: seq<seq<Color>>)
    requires |target| == WordLength
    requires forall k :: 0 <= k < |guesses| ==> |guesses[k]| == WordLength
    ensures |r| == |guesses|
    ensures forall k :: 0 <= k < |r| ==> |r[k]| == WordLength
    decreases |guesses|
  {
    if |guesses| == 0 then []
    else
      var n := |guesses| - 1;
      Scores(guesses[..n], target) + [Verdict(guesses[n], target)]
  }

  /** The bookkeeping part of the invariant: at most five letters typed, at
      most six guesses, every guess a five-letter dictionary word, the game
      over exactly when the target was guessed or six guesses were made, and
      nothing typed once it is over. */
  predicate WellFormed(s: State, target: Word, dictionary: set<Word>)
  {
    && |s.current| <= WordLength
    && |s.guesses| <= MaxGuesses
    && (forall k :: 0 <= k < |s.guesses| ==> |s.guesses[k]| == WordLength && s.guesses[k] in dictionary)
    && (s.over <==> |s.guesses| == MaxGuesses || target in s.guesses)
    && (s.over ==> s.current == [])
  }

  /** The invariant of a game played against `target`: well formed, and the
      keyboard showing, for each letter, the best colour the guesses gave it. */
  predicate Valid(s: State, target: Word, dictionary: set<Word>)
    requires |target| == WordLength
  {
    && WellFormed(s, target, dictionary)
    && Covers(s.keys, s.guesses, Scores(s.guesses, target))
    && Attained(s.keys, s.guesses, Scores(s.guesses, target))
  }

  lemma StartValid(target: Word, dictionary: set<Word>)
    requires |target| == WordLength
    ensures Valid(Start, target, dictionary)
  {
  }

  lemma KeyPressPreservesValid(s: State, letter: Letter, target: Word, dictionary: set<Word>)
    requires |target| == WordLength && Valid(s, target, dictionary)
    ensures Valid(KeyPress(s, letter), target, dictionary)
  {
  }

  lemma BackspacePreservesValid(s: State, target: Word, dictionary: set<Word>)
    requires |target| == WordLength && Valid(s, target, dictionary)
    ensures Valid(Backspace(s), target, dictionary)
  {
  }

  lemma EnterKeepsWellFormed(s: State, target: Word, dictionary: set<Word>)
    requires |target| == WordLength && WellFormed(s, target, dictionary)
    ensures WellFormed(Enter(s, target, dictionary).state, target, dictionary)
  {
    if Accepts(s, dictionary) {
      var r := Enter(s, target, dictionary).state;
      assert r.guesses == s.guesses + [s.current];
      assert target in r.guesses <==> target in s.guesses || s.current == target;
    }
  }

  /** The scores of one more guess extend the scores of the earlier ones. */
  lemma ScoresAppend(guesses: seq<Word>, g: Word, target: Word)
    requires |target| == WordLength && |g| == WordLength
    requires forall k :: 0 <= k < |guesses| ==> |guesses[k]| == WordLength
    ensures forall k :: 0 <= k < |guesses + [g]| ==> |(guesses + [g])[k]| == WordLength
    ensures Scores(guesses + [g], target) == Scores(guesses, target) + [Verdict(g, target)]
  {
    assert (guesses + [g])[..|guesses|] == guesses;
  }

  /** An accepted guess keeps every key at least as high as every colour
      the scored guesses gave its letter. */
  lemma EnterKeepsCover(s: State, target: Word, dictionary: set<Word>)
    requires |target| == WordLength && Accepts(s, dictionary)
    requires forall k :: 0 <= k < |s.guesses| ==> |s.guesses[k]| == WordLength
    requires Covers(s.keys, s.guesses, Scores(s.guesses, target))
    ensures var r := Enter(s, target, dictionary).state;
      && (forall k :: 0 <= k < |r.guesses| ==> |r.guesses[k]| == WordLength)
      && Covers(r.keys, r.guesses, Scores(r.guesses, target))
  {
    var r := Enter(s, target, dictionary).state;
    var labels := Verdict(s.current, target);
    ScoresAppend(s.guesses, s.current, target);
    RecolorAllKeepsCover(s.keys, s.guesses, Scores(s.guesses, target), s.current, labels);
    assert r.keys == RecolorAll(s.keys, s.current, labels);
    assert r.guesses == s.guesses + [s.current];
  }

  /** An accepted guess keeps every key colour one that some scored guess
      gave its letter. */
  lemma EnterKeepsAttained(s: State, target: Word, dictionary: set<Word>)
    requires |target| == WordLength && Accepts(s, dictionary)
    requires forall k :: 0 <= k < |s.guesses| ==> |s.guesses[k]| == WordLength
    requires Attained(s.keys, s.guesses, Scores(s.guesses, target))
    ensures var r := Enter(s, target, dictionary).state;
      && (forall k :: 0 <= k < |r.guesses| ==> |r.guesses[k]| == WordLength)
      && Attained(r.keys, r.guesses, Scores(r.guesses, target))
  {
    var r := Enter(s, target, dictionary).state;
    var labels := Verdict(s.current, target);
    ScoresAppend(s.guesses, s.current, target);
    RecolorAllKeepsAttained(s.keys, s.guesses, Scores(s.guesses, target), s.current, labels);
    assert r.keys == RecolorAll(s.keys, s.current, labels);
    assert r.guesses == s.guesses + [s.current];
  }

  /** Submitting keeps the invariant; in particular an accepted guess never
      takes the game past six guesses. */
  lemma EnterPreservesValid(s: State, target: Word, dictionary: set<Word>)
    requires |target| == WordLength && Valid(s, target, dictionary)
    ensures Valid(Enter(s, target, dictionary).state, target, dictionary)
  {
    if Accepts(s, dictionary) {
      EnterKeepsWellFormed(s, target, dictionary);
      EnterKeepsCover(s, target, dictionary);
      EnterKeepsAttained(s, target, dictionary);
    }
  }

  /** The inputs the game reacts to. */
  datatype Event = Press(letter: Letter) | Delete | Submit

  function Step(s: State, e: Event, target: Word, dictionary: set<Word>): State
    requires |target| == WordLength
  {
    match e
    case Press(letter) => KeyPress(s, letter)
    case Delete => Backspace(s)
    case Submit => Enter(s, target, dictionary).state
  }

  /** The state after a sequence of events, applied in order. */
  function Run(s: State, events: seq<Event>, target: Word, dictionary: set<Word>): State
    requires |target| == WordLength
    decreases |events|
  {
    if |events| == 0 then s
    else Run(Step(s, events[0], target, dictionary), events[1..], target, dictionary)
  }

  /** Every reachable state satisfies the invariant; in particular a game
      never holds more than six guesses, never more than five typed letters,
      and a running game has fewer than six guesses. */
  lemma {:induction false} RunPreservesValid(s: State, events: seq<Event>, target: Word, dictionary: set<Word>)
    requires |target| == WordLength && Valid(s, target, dictionary)
    ensures var r := Run(s, events, target, dictionary);
      && Valid(r, target, dictionary)
      && |r.guesses| <= MaxGuesses
      && |r.current| <= WordLength
      && (!r.over ==> |r.guesses| < MaxGuesses)
    decreases |events|
  {
    if |events| > 0 {
      var e := events[0];
      match e {
        case Press(letter) => KeyPressPreservesValid(s, letter, target, dictionary);
        case Delete => BackspacePreservesValid(s, target, dictionary);
        case Submit => EnterPreservesValid(s, target, dictionary);
      }
      RunPreservesValid(Step(s, e, target, dictionary), events[1..], target, dictionary);
    }
  }

  /** Once the game is over, no sequence of events changes anything. */
  lemma {:induction false} OverIsFinal(s: State, events: seq<Event>, target: Word, dictionary: set<Word>)
    requires |target| == WordLength && s.over
    ensures Run(s, events, target, dictionary) == s
    decreases |events|
  {
    if |events| > 0 {
      OverIsFinal(Step(s, events[0], target, dictionary), events[1..], target, dictionary);
    }
  }

  /** Across any sequence of events no key loses its colour or is demoted:
      in particular a green key stays green for the rest of the game. */
  lemma {:induction false} KeysNeverDowngrade(s: State, events: seq<Event>, target: Word, dictionary: set<Word>)
    requires |target| == WordLength
    ensures var r := Run(s, events, target, dictionary);
      forall c :: c in s.keys ==> c in r.keys && Rank(s.keys[c]) <= Rank(r.keys[c])
    decreases |events|
  {
    if |events| > 0 {
      var next := Step(s, events[0], target, dictionary);
      KeysNeverDowngrade(next, events[1..], target, dictionary);
    }
  }

  /** Any game played from the start holds at most six guesses. */
  lemma AtMostSixGuesses(events: seq<Event>, target: Word, dictionary: set<Word>)
    requires |target| == WordLength
    ensures |Run(Start, events, target, dictionary).guesses| <= MaxGuesses
  {
    StartValid(target, dictionary);
    RunPreservesValid(Start, events, target, dictionary);
  }
}
