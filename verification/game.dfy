/** The round state machine of the game component.

    A round holds the letters typed so far, the most recent guesses with
    their scores (newest first, at most five), the won flag and the secret
    word. Every keyboard event and the "New Game" button are one pure
    transition `Step`, which also reports whether the input row should shake.
 */
module Game {
  import opened Words
  import opened Scoring
  import opened History

  datatype RoundState = RoundState(
    input: string,
    guesses: seq<string>,
    feedback: seq<Feedback>,
    won: bool,
    answer: string)

  /** A key press, carrying the browser's key name, or the "New Game" button
      once the word provider has answered with `word`. */
  datatype Event = KeyDown(key: string) | NewGame(word: string)

  /** The state after an event, and whether the input row shakes. */
  datatype Outcome = Outcome(next: RoundState, shake: bool)

  /** What the key handler makes of a key name. */
  datatype KeyKind = EnterKey | LetterKey(letter: char) | BackspaceKey | OtherKey

  /** Key names are checked in the handler's order: "Enter", then a single
      ASCII letter, then "Backspace"; anything else is ignored. */
  function Classify(key: string): (k: KeyKind)
    ensures k == EnterKey <==> key == "Enter"
    ensures k.LetterKey? <==> |key| == 1 && IsAsciiLetter(key[0])
    ensures k.LetterKey? ==> k.letter == key[0]
    ensures k == BackspaceKey <==> key == "Backspace"
  {
    if key == "Enter" then EnterKey
    else if |key| == 1 && IsAsciiLetter(key[0]) then LetterKey(key[0])
    else if key == "Backspace" then BackspaceKey
    else OtherKey
  }

  /** The round as it starts with `word`: nothing typed, no history, not won. */
  function Init(word: string): (r: RoundState)
    ensures r.input == [] && r.guesses == [] && r.feedback == []
    ensures !r.won && r.answer == word
  {
    RoundState([], [], [], false, word)
  }

  /** The input without its last letter; the empty input stays empty. */
  function DropLast(s: string): (r: string)
    ensures |s| == 0 ==> r == s
    ensures |s| > 0 ==> r + [s[|s| - 1]] == s
  {
    if |s| == 0 then s else s[..|s| - 1]
  }

  /** Submitting the full input row as a guess. */
  function Submit(s: RoundState): (t: RoundState)
    requires |s.input| == WordLength && |s.answer| == WordLength
    ensures t.input == []
    ensures t.answer == s.answer
    ensures |t.guesses| == Min(|s.guesses| + 1, HistoryLength)
    ensures |t.feedback| == Min(|s.feedback| + 1, HistoryLength)
    ensures t.guesses[0] == s.input
    ensures t.feedback[0] == GetFeedback(s.input, s.answer)
    ensures forall i :: 1 <= i < |t.guesses| ==> t.guesses[i] == s.guesses[i - 1]
    ensures forall i :: 1 <= i < |t.feedback| ==> t.feedback[i] == s.feedback[i - 1]
    ensures t.won <==> s.won || s.input == s.answer
  {
    var guess := s.input;
    var score := GetFeedback(guess, s.answer);
    RoundState(
      [],
      Push(guess, s.guesses, HistoryLength),
      Push(score, s.feedback, HistoryLength),
      if guess == s.answer then true else s.won,
      s.answer)
  }

  /** One event. The shake flag is only an output: the row shakes exactly
      when Enter meets an incomplete row or a letter meets a full one, and a
      shaking event changes nothing. */
  function Step(s: RoundState, e: Event): (o: Outcome)
    requires IsWord(s.answer)
    requires e.NewGame? ==> IsWord(e.word)
    ensures IsWord(o.next.answer)
    ensures o.shake <==>
              e.KeyDown? && !s.won &&
              ((Classify(e.key) == EnterKey && |s.input| != WordLength) ||
               (Classify(e.key).LetterKey? && |s.input| >= WordLength))
    ensures o.shake ==> o.next == s
    ensures e.KeyDown? ==> o.next.answer == s.answer
  {
    match e
    case NewGame(word) => Outcome(Init(word), false)
    case KeyDown(key) =>
      if s.won then Outcome(s, false)
      else
        match Classify(key)
        case EnterKey =>
          if |s.input| != WordLength then Outcome(s, true) else Outcome(Submit(s), false)
        case LetterKey(c) =>
          if |s.input| < WordLength then Outcome(s.(input := s.input + [ToUpper(c)]), false)
          else Outcome(s, true)
        case BackspaceKey => Outcome(s.(input := DropLast(s.input)), false)
        case OtherKey => Outcome(s, false)
  }

  /** Events the model can take: every new word is a well-formed word. */
  predicate ValidEvents(es: seq<Event>) {
    forall i :: 0 <= i < |es| ==> (es[i].NewGame? ==> IsWord(es[i].word))
  }

  /** The state after a sequence of events. */
  function Run(s: RoundState, es: seq<Event>): (t: RoundState)
    requires IsWord(s.answer) && ValidEvents(es)
    ensures IsWord(t.answer)
    decreases |es|
  {
    if |es| == 0 then s else Run(Step(s, es[0]).next, es[1..])
  }

  /*** The round invariant ***/

  /** What holds of every round the game can reach:
      - the input holds at most five upper-case letters;
      - there are as many scores as guesses, at most five, and each score is
        the score of its guess against the current secret word;
      - the round is won exactly when the newest guess is the secret word,
        no older guess is, and a won round has an empty input. */
  predicate Inv(s: RoundState) {
    && IsWord(s.answer)
    && |s.input| <= WordLength
    && (forall i :: 0 <= i < |s.input| ==> IsUpper(s.input[i]))
    && |s.guesses| == |s.feedback| <= HistoryLength
    && (forall i :: 0 <= i < |s.guesses| ==>
          IsWord(s.guesses[i]) && s.feedback[i] == GetFeedback(s.guesses[i], s.answer))
    && (s.won <==> |s.guesses| > 0 && s.guesses[0] == s.answer)
    && (forall i :: 1 <= i < |s.guesses| ==> s.guesses[i] != s.answer)
    && (s.won ==> s.input == [])
  }

  /** A fresh round satisfies the invariant. */
  lemma InitInv(word: string)
    requires IsWord(word)
    ensures Inv(Init(word))
  {
  }

  /** Submitting a full row keeps the invariant. */
  lemma SubmitInv(s: RoundState)
    requires Inv(s) && !s.won && |s.input| == WordLength
    ensures Inv(Submit(s))
  {
    var t := Submit(s);
    SubmitKeepsPairs(s);
    assert t.input == [] && |t.guesses| == |t.feedback| <= HistoryLength;
    assert t.won <==> t.guesses[0] == t.answer;
  }

  /** After a submission in a round not yet won, every guess is a word beside
      its own score and no guess but the newest is the secret word. */
  lemma SubmitKeepsPairs(s: RoundState)
    requires Inv(s) && !s.won && |s.input| == WordLength
    ensures var t := Submit(s);
            forall i :: 0 <= i < |t.guesses| ==>
              && IsWord(t.guesses[i]) && t.feedback[i] == GetFeedback(t.guesses[i], t.answer)
              && (i > 0 ==> t.guesses[i] != t.answer)
  {
    var t := Submit(s);
    assert IsWord(s.input);
    forall i | 0 <= i < |t.guesses|
      ensures IsWord(t.guesses[i]) && t.feedback[i] == GetFeedback(t.guesses[i], t.answer)
      ensures i > 0 ==> t.guesses[i] != t.answer
    {
      if i > 0 {
        assert t.guesses[i] == s.guesses[i - 1];
        assert t.feedback[i] == s.feedback[i - 1];
      }
    }
  }

  /** Typing a letter into a row with room keeps the invariant. */
  lemma TypeInv(s: RoundState, c: char)
    requires Inv(s) && !s.won && |s.input| < WordLength && IsAsciiLetter(c)
    ensures Inv(s.(input := s.input + [ToUpper(c)]))
  {
  }

  /** Removing the last letter keeps the invariant. */
  lemma BackspaceInv(s: RoundState)
    requires Inv(s)
    ensures Inv(s.(input := DropLast(s.input)))
  {
  }

  /** Every event keeps the invariant. */
  lemma {:induction false} StepInv(s: RoundState, e: Event)
    requires Inv(s)
    requires e.NewGame? ==> IsWord(e.word)
    ensures Inv(Step(s, e).next)
  {
    match e
    case NewGame(word) =>
      InitInv(word);
    case KeyDown(key) =>
      if !s.won {
        match Classify(key)
        case EnterKey =>
          if |s.input| == WordLength {
            SubmitInv(s);
          }
        case LetterKey(c) =>
          if |s.input| < WordLength {
            TypeInv(s, c);
          }
        case BackspaceKey =>
          BackspaceInv(s);
        case OtherKey =>
      }
  }

  /** Every sequence of events keeps the invariant. */
  lemma {:induction false} RunInv(s: RoundState, es: seq<Event>)
    requires Inv(s) && ValidEvents(es)
    ensures Inv(Run(s, es))
    decreases |es|
  {
    if |es| > 0 {
      var t := Step(s, es[0]).next;
      RunFirst(s, es);
      StepInv(s, es[0]);
      RunInv(t, es[1..]);
    }
  }

  /** Running a non-empty sequence is one step, then the rest. */
  lemma RunFirst(s: RoundState, es: seq<Event>)
    requires IsWord(s.answer) && ValidEvents(es) && |es| > 0
    ensures ValidEvents(es[1..])
    ensures Run(s, es) == Run(Step(s, es[0]).next, es[1..])
  {
  }

  /*** Event rules ***/

  /** A letter key, while the round is not won, appends its upper-case form
      when the row has room; on a full row it shakes and changes nothing. */
  lemma LetterKeyRule(s: RoundState, key: string)
    requires IsWord(s.answer) && !s.won
    requires |key| == 1 && IsAsciiLetter(key[0])
    ensures |s.input| < WordLength ==>
              Step(s, KeyDown(key)) == Outcome(s.(input := s.input + [ToUpper(key[0])]), false)
    ensures |s.input| >= WordLength ==> Step(s, KeyDown(key)) == Outcome(s, true)
    ensures |s.input| <= WordLength ==> |Step(s, KeyDown(key)).next.input| <= WordLength
  {
  }

  /** Enter on a row that is not full shakes and changes nothing. */
  lemma EnterIncompleteRule(s: RoundState)
    requires IsWord(s.answer) && !s.won && |s.input| != WordLength
    ensures Step(s, KeyDown("Enter")) == Outcome(s, true)
  {
  }

  /** Enter on a full row records the guess: it becomes the newest guess,
      its score the newest score, both lists keep their five newest entries
      and stay of equal length, the row is cleared, and the round is won
      exactly when the guess is the secret word. */
  lemma {:induction false} EnterSubmitRule(s: RoundState)
    requires Inv(s) && !s.won && |s.input| == WordLength
    ensures var o := Step(s, KeyDown("Enter"));
            && !o.shake
            && o.next.input == []
            && o.next.guesses == Take([s.input] + s.guesses, HistoryLength)
            && o.next.feedback == Take([GetFeedback(s.input, s.answer)] + s.feedback, HistoryLength)
            && |o.next.guesses| == |o.next.feedback| <= HistoryLength
            && (o.next.won <==> s.input == s.answer)
            && o.next.answer == s.answer
  {
    var o := Step(s, KeyDown("Enter"));
    assert o.next == Submit(s);
  }

  /** Backspace removes the last letter, and does nothing on an empty row. */
  lemma BackspaceRule(s: RoundState)
    requires IsWord(s.answer) && !s.won
    ensures |s.input| > 0 ==>
              Step(s, KeyDown("Backspace")) == Outcome(s.(input := s.input[..|s.input| - 1]), false)
    ensures |s.input| == 0 ==> Step(s, KeyDown("Backspace")) == Outcome(s, false)
  {
  }

  /** A key that is not Enter, Backspace or a single letter changes nothing. */
  lemma OtherKeyRule(s: RoundState, key: string)
    requires IsWord(s.answer)
    requires key != "Enter" && key != "Backspace" && !(|key| == 1 && IsAsciiLetter(key[0]))
    ensures Step(s, KeyDown(key)) == Outcome(s, false)
  {
  }

  /** Once the round is won, no sequence of key presses changes anything. */
  lemma {:induction false} WonIgnoresKeys(s: RoundState, es: seq<Event>)
    requires IsWord(s.answer) && s.won && ValidEvents(es)
    requires forall i :: 0 <= i < |es| ==> es[i].KeyDown?
    ensures Run(s, es) == s
    decreases |es|
  {
    if |es| > 0 {
      assert Step(s, es[0]).next == s;
      WonIgnoresKeys(s, es[1..]);
    }
  }

  /** "New Game" starts a fresh round with the new word, whatever came before. */
  lemma NewGameRule(s: RoundState, word: string)
    requires IsWord(s.answer) && IsWord(word)
    ensures var o := Step(s, NewGame(word));
            && !o.shake
            && o.next.input == [] && o.next.guesses == [] && o.next.feedback == []
            && !o.next.won && o.next.answer == word
  {
  }

  /*** Whole guesses ***/

  /** The key presses that type `w` letter by letter. */
  function Keys(w: string): (es: seq<Event>)
    ensures |es| == |w|
    ensures forall i :: 0 <= i < |w| ==> es[i] == KeyDown([w[i]])
  {
    seq(|w|, i requires 0 <= i < |w| => KeyDown([w[i]]))
  }

  /** Typing `w` and pressing Enter. */
  function Entry(w: string): seq<Event> {
    Keys(w) + [KeyDown("Enter")]
  }

  /** Typing a word and pressing Enter is key presses only, so it is a
      valid event sequence whatever the word. */
  lemma EntryValid(w: string)
    ensures ValidEvents(Entry(w))
  {
    var es := Entry(w);
    forall i | 0 <= i < |es|
      ensures !es[i].NewGame?
    {
      if i < |w| {
        assert es[i] == KeyDown([w[i]]);
      }
    }
  }

  /** Typing each word of `ws` in turn, each followed by Enter. */
  function Entries(ws: seq<string>): seq<Event>
  {
    if |ws| == 0 then [] else Entry(ws[0]) + Entries(ws[1..])
  }

  lemma {:induction false} RunAppend(s: RoundState, es1: seq<Event>, es2: seq<Event>)
    requires IsWord(s.answer) && ValidEvents(es1) && ValidEvents(es2)
    ensures ValidEvents(es1 + es2)
    ensures Run(s, es1 + es2) == Run(Run(s, es1), es2)
    decreases |es1|
  {
    if |es1| == 0 {
      assert es1 + es2 == es2;
    } else {
      assert (es1 + es2)[0] == es1[0];
      assert (es1 + es2)[1..] == es1[1..] + es2;
      RunAppend(Step(s, es1[0]).next, es1[1..], es2);
    }
  }

  /** Typing upper-case letters into a row with room appends them. */
  lemma {:induction false} TypingAppends(s: RoundState, w: string)
    requires IsWord(s.answer) && !s.won
    requires |s.input| + |w| <= WordLength
    requires forall i :: 0 <= i < |w| ==> IsUpper(w[i])
    ensures ValidEvents(Keys(w))
    ensures Run(s, Keys(w)) == s.(input := s.input + w)
    decreases |w|
  {
    if |w| > 0 {
      var s' := s.(input := s.input + [w[0]]);
      LetterKeyRule(s, [w[0]]);
      assert Step(s, KeyDown([w[0]])).next == s';
      assert Keys(w)[1..] == Keys(w[1..]);
      TypingAppends(s', w[1..]);
      assert s.input + [w[0]] + w[1..] == s.input + w;
    }
  }

  /** Typing a word on an empty row of a round not yet won, then pressing
      Enter, submits exactly that word. */
  lemma {:induction false} EntrySubmits(s: RoundState, w: string)
    requires IsWord(s.answer) && !s.won && s.input == []
    requires IsWord(w)
    ensures ValidEvents(Entry(w))
    ensures Run(s, Entry(w)) == Submit(s.(input := w))
  {
    TypingAppends(s, w);
    var typed := s.(input := w);
    assert s.input + w == w;
    RunAppend(s, Keys(w), [KeyDown("Enter")]);
    assert Run(typed, [KeyDown("Enter")]) == Run(Step(typed, KeyDown("Enter")).next, []);
  }

  /** Entering one wrong word in a round not yet won records it as the
      newest guess and leaves the round not won with an empty row. */
  lemma WrongEntryRecorded(s: RoundState, w: string)
    requires IsWord(s.answer) && !s.won && s.input == []
    requires IsWord(w) && w != s.answer
    ensures ValidEvents(Entry(w))
    ensures var t := Run(s, Entry(w));
            && !t.won && t.input == [] && t.answer == s.answer
            && t.guesses == Take([w] + s.guesses, HistoryLength)
  {
    EntrySubmits(s, w);
  }

  /** Two valid event sequences, one after the other, are valid. */
  lemma ValidEventsAppend(es1: seq<Event>, es2: seq<Event>)
    requires ValidEvents(es1) && ValidEvents(es2)
    ensures ValidEvents(es1 + es2)
  {
    var es := es1 + es2;
    forall i | 0 <= i < |es| && es[i].NewGame?
      ensures IsWord(es[i].word)
    {
      if i < |es1| {
        assert es[i] == es1[i];
      } else {
        assert es[i] == es2[i - |es1|];
      }
    }
  }

  /** Entering any words, one after another, is a valid event sequence. */
  lemma {:induction false} EntriesValid(ws: seq<string>)
    requires forall i :: 0 <= i < |ws| ==> IsWord(ws[i])
    ensures ValidEvents(Entries(ws))
    decreases |ws|
  {
    if |ws| > 0 {
      EntryValid(ws[0]);
      EntriesValid(ws[1..]);
      ValidEventsAppend(Entry(ws[0]), Entries(ws[1..]));
    }
  }

  /** Entering the words `ws` is entering the first, then the rest. */
  lemma {:induction false} RunEntries(s: RoundState, ws: seq<string>)
    requires IsWord(s.answer) && |ws| > 0
    requires forall i :: 0 <= i < |ws| ==> IsWord(ws[i])
    ensures ValidEvents(Entries(ws)) && ValidEvents(Entry(ws[0])) && ValidEvents(Entries(ws[1..]))
    ensures Run(s, Entries(ws)) == Run(Run(s, Entry(ws[0])), Entries(ws[1..]))
  {
    EntriesValid(ws);
    EntriesValid(ws[1..]);
    EntryValid(ws[0]);
    RunAppend(s, Entry(ws[0]), Entries(ws[1..]));
  }

  /** Submitting the words `ws` (none of them the secret word) from a round
      not yet won leaves exactly the five newest submissions in the history,
      newest first, and an empty row. */
  lemma {:induction false} HistoryKeepsNewest(s: RoundState, ws: seq<string>)
    requires IsWord(s.answer) && !s.won && s.input == [] && |s.guesses| <= HistoryLength
    requires forall i :: 0 <= i < |ws| ==> IsWord(ws[i]) && ws[i] != s.answer
    ensures ValidEvents(Entries(ws))
    ensures var t := Run(s, Entries(ws));
            && !t.won && t.input == [] && t.answer == s.answer
            && t.guesses == Take(Reverse(ws) + s.guesses, HistoryLength)
    decreases |ws|
  {
    EntriesValid(ws);
    if |ws| == 0 {
      assert Entries(ws) == [];
      assert Reverse(ws) + s.guesses == s.guesses;
    } else {
      var w := ws[0];
      WrongEntryRecorded(s, w);
      var s1 := Run(s, Entry(w));
      HistoryKeepsNewest(s1, ws[1..]);
      RunEntries(s, ws);
      PushThenRest(w, ws[1..], s.guesses, HistoryLength);
      assert [w] + ws[1..] == ws;
    }
  }

  /** The same from a reachable round: the five newest submissions are kept,
      newest first, and each kept guess sits beside its own score. */
  lemma ScoredHistoryKeepsNewest(s: RoundState, ws: seq<string>)
    requires Inv(s) && !s.won && s.input == []
    requires forall i :: 0 <= i < |ws| ==> IsWord(ws[i]) && ws[i] != s.answer
    ensures ValidEvents(Entries(ws))
    ensures var t := Run(s, Entries(ws));
            && t.guesses == Take(Reverse(ws) + s.guesses, HistoryLength)
            && |t.feedback| == |t.guesses|
            && forall i :: 0 <= i < |t.guesses| ==>
                 IsWord(t.guesses[i]) && t.feedback[i] == GetFeedback(t.guesses[i], s.answer)
  {
    HistoryKeepsNewest(s, ws);
    RunInv(s, Entries(ws));
  }

  /** Six wrong guesses in a fresh round: the oldest is gone and the other
      five are kept, newest first. */
  lemma SixGuessesKeepFive(answer: string, ws: seq<string>)
    requires IsWord(answer)
    requires |ws| == 6
    requires forall i :: 0 <= i < 6 ==> IsWord(ws[i]) && ws[i] != answer
    ensures ValidEvents(Entries(ws))
    ensures Run(Init(answer), Entries(ws)).guesses == [ws[5], ws[4], ws[3], ws[2], ws[1]]
    ensures |Run(Init(answer), Entries(ws)).feedback| == 5
    ensures forall k :: 1 <= k < 6 ==>
              IsWord(ws[k]) && Run(Init(answer), Entries(ws)).feedback[5 - k] == GetFeedback(ws[k], answer)
  {
    InitInv(answer);
    ScoredHistoryKeepsNewest(Init(answer), ws);
    var t := Run(Init(answer), Entries(ws));
    assert Reverse(ws) + [] == Reverse(ws);
    NewestFiveOfSix(ws);
    forall k | 1 <= k < 6
      ensures IsWord(ws[k]) && t.feedback[5 - k] == GetFeedback(ws[k], answer)
    {
      assert t.guesses[5 - k] == ws[k];
    }
  }
}
