# WordGuesser core in Dafny

A model of the logic of a small browser word-guessing game (a Wordle clone).
The player types a five-letter guess. Enter submits it, and the guess is
scored against a secret five-letter word as two counts:

- green: letters in the right place;
- yellow: letters present elsewhere.

The game component keeps the typed row, the five newest guesses with their
scores, a won flag and the secret word. It reacts to key presses and to the
"New Game" button.

The model has four modules:

- `Words` (`words.dfy`): the constants `WordLength` and `HistoryLength` (`MAX_LENGTH` and `MAX_DISPLAY` in the source, both 5), letters, upper-casing, and the output contract of the word provider (the fetched word upper-cased, or the fallback `CRANE`).
- `History` (`history.dfy`): the newest-first bounded lists that `[x, ...xs].slice(0, 5)` produces.
- `Scoring` (`scoring.dfy`): the two-pass scorer `getFeedback`, step by step. Its first pass marks green slots in a `used` array and blanks those guess letters. Its second pass lets each remaining guess letter claim the first unused answer slot that holds the same letter. The lemmas compare the result with independent reference definitions:
  - green is the number of positions where the two words agree;
  - the answer slots used at the end hold exactly the multiset intersection of the two words, so green + yellow is the sum over letters of min(count in guess, count in answer);
  - no slot is counted twice.
- `Game` (`game.dfy`): the round as one pure transition `Step(state, event) -> (state, shake)`. The events are key presses (by browser key name) and "New Game" with the new word. `Inv` is the round invariant, and `StepInv` and `RunInv` show that every event keeps it. Further lemmas cover each event rule, typing a whole word, and the five-entry history window.

The answer word comes from outside the model as a parameter that must be five upper-case letters.

Points where the model follows the handlers rather than the rendered page:

- The New Game handler (src/Game.jsx:123-130) has no guard of its own; the button is only rendered in a won round (src/Game.jsx:118-135). `Step` accepts `NewGame` in any state, which is what the handler itself does.
- While the new word is being fetched, the code keeps the old, won round, so keys are still ignored. The reset happens only when the word arrives. The model applies the word and the reset as one event; there is no separate waiting state.
- With repeated letters the scorer never counts more than the per-letter budget: the contract of `Scoring.GetFeedback` states that green + yellow equals the sum over letters of min(count in guess, count in answer) for every pair of five-letter words.

## Model

| member | source | states |
|---|---|---|
| `Words.ToUpper` | src/Game.jsx:30 | an ASCII letter is mapped to the upper-case form of the same letter; upper-case letters are unchanged |
| `Words.ProvidedWord` | src/wordgen.js:3-13 | given a service answer of five ASCII letters, the word handed to the game is five upper-case letters: the fetched word upper-cased letter by letter; it is `CRANE` when the fetch fails |
| `Words.ProvidedWordKeepsUpperWord` | src/wordgen.js:8 | a fetched word that is already five upper-case letters is handed to the game unchanged |
| `Scoring.FirstPass` | src/Game.jsx:61-65 | after the first pass over positions below n, slot i is used and guess letter i is blanked exactly when i < n and the letters agree; every other guess letter is still open |
| `Scoring.FindFree` | src/Game.jsx:68 | the result is the first index at or after `from` holding the letter in an unused slot, and -1 exactly when no such slot exists |
| `Scoring.SecondPass` | src/Game.jsx:66-70 | the second pass counts at most one yellow per guess letter still open after the first pass, and never frees a used slot |
| `Scoring.Evaluate` | src/Game.jsx:57-71 | both passes together: one `used` slot per answer letter, every slot where the two words agree ends up used, and green is at most the word length |
| `Scoring.GetFeedback` | src/Game.jsx:57-72 | for two five-letter words, green is the number of positions where they agree and green + yellow is the number of letters they share, counting each letter min(count in guess, count in answer) times |
| `Scoring.SecondPassCountsShared` | src/Game.jsx:66-70 | yellow is the size of the intersection of the open guess letters with the unclaimed answer letters, and the letters it claims are exactly that intersection |
| `Scoring.FirstPassCountsMatches` | src/Game.jsx:63-65 | the green count after n positions equals the number of agreeing positions below n |
| `Scoring.FirstPassCountsMatchedLetters` | src/Game.jsx:63-65 | the green count after n positions equals the number of letters at the agreeing positions below n, counted with multiplicity |
| `Scoring.ResidueAfterGreens` | src/Game.jsx:61-65 | after the first pass, the guess letters still open are the guess without its green letters, and the letters in unused answer slots are the answer without the green letters |
| `Scoring.SlotsPartition` | src/Game.jsx:61 | every answer slot is either used or free, so the letters of the used slots and of the free slots together make up the answer |
| `Scoring.ClaimRemovesOne` | src/Game.jsx:68-69 | marking a free slot used removes exactly that slot's letter from the free letters, and nothing else |
| `Scoring.UsedSlotsHoldSharedLetters` | src/Game.jsx:57-72 | for equal-length words, the answer slots used at the end hold exactly multiset(guess) * multiset(answer); green + yellow is the number of used slots; yellow is the overlap left once the green letters are removed from both words |
| `Scoring.EvaluateMatchesReference` | src/Game.jsx:57-72 | for equal-length words: green is the count of agreeing positions, and green + yellow is both the number of used answer slots and the size of the multiset intersection of the two words |
| `Scoring.YellowCountsLeftoverOverlap` | src/Game.jsx:66-70 | yellow equals that sum taken over the letters left in both words once the green letters are removed |
| `Scoring.ScoreUsesDistinctSlots` | src/Game.jsx:61-69 | green + yellow equals the number of distinct answer slots marked used, hence is at most five |
| `Scoring.ScoreOfAnswerIsAllGreen` | src/Game.jsx:63-67 | a word scored against itself gives five greens and no yellow |
| `Scoring.FeedbackFromReference` | src/Game.jsx:57-72 | the score is determined by the agreeing-position count and the shared-letter count alone |
| `Scoring.ReversedWordExample` | src/Game.jsx:57-72 | ABCDE against EDCBA scores one green and four yellows |
| `Scoring.ReversedFirstPass` | src/Game.jsx:63-65 | the first pass of ABCDE against EDCBA counts one green, uses the middle slot and leaves the other four letters open |
| `Scoring.ReversedSecondPass` | src/Game.jsx:66-70 | the four open letters of ABCDE each claim the one free slot of EDCBA holding them, giving four yellows |
| `Scoring.RepeatedLettersExample` | src/Game.jsx:57-72 | AABBB against BBAAA scores no green and four yellows: the third B finds no free slot |
| `Scoring.RepeatedFirstPass` | src/Game.jsx:63-65 | the first pass of AABBB against BBAAA finds no green, uses no slot and leaves all five letters open |
| `Scoring.RepeatedSecondPass` | src/Game.jsx:66-70 | the two A's and two of the B's claim free slots; the third B finds none, giving four yellows |
| `History.Push` | src/Game.jsx:46-47 | the new entry comes first, older entries shift back by one, and the length is min(old length + 1, 5) |
| `History.TakeAfterTake` | src/Game.jsx:46-47 | cutting the older history to five before prepending does not change the five newest entries |
| `History.PushThenRest` | src/Game.jsx:46-47 | pushing one entry and cutting to n, then pushing later entries, keeps the same n newest entries as pushing all of them before cutting |
| `Game.Classify` | src/Game.jsx:23-34 | a key name is Enter exactly when it is "Enter", a letter exactly when it is one ASCII letter, and Backspace exactly when it is "Backspace"; anything else is ignored |
| `Game.Init` | src/Game.jsx:12-17 | a round starts with an empty row, no guesses, no scores, not won, and the given secret word; New Game resets to the same state (src/Game.jsx:125-129) |
| `Game.DropLast` | src/Game.jsx:33 | Backspace removes the last typed letter, and the empty row stays empty |
| `Game.Submit` | src/Game.jsx:43-54 | the typed row becomes the newest guess and its score the newest score; older entries shift back, both lists are capped at five, the row is cleared, won is set when the guess is the secret word and is never cleared, and the secret word is kept |
| `Game.Step` | src/Game.jsx:20-35 | the row shakes exactly when the round is not won and either Enter meets a row that is not full or a letter meets a full row; a shaking event changes nothing; key presses never change the secret word |
| `Game.InitInv` | src/Game.jsx:123-130 | a freshly reset round satisfies the round invariant |
| `Game.StepInv` | src/Game.jsx:20-54 | every event keeps the invariant: the row holds at most five upper-case letters; there are equally many guesses and scores, at most five, each score belonging to its guess; won holds exactly when the newest guess is the secret word; no older guess is the secret word; a won round has an empty row |
| `Game.SubmitKeepsPairs` | src/Game.jsx:43-47 | after a submission every kept guess is a word sitting beside its own score, and only the newest can equal the answer |
| `Game.SubmitInv` | src/Game.jsx:43-54 | submitting a full row in a round not yet won keeps the round invariant |
| `Game.TypeInv` | src/Game.jsx:29-30 | typing a letter into a row with room keeps the round invariant |
| `Game.BackspaceInv` | src/Game.jsx:32-33 | removing the last letter keeps the round invariant |
| `Game.RunInv` | src/Game.jsx:20-54 | every sequence of events keeps that invariant |
| `Game.LetterKeyRule` | src/Game.jsx:29-31 | a letter appends its upper-case form only while the row has fewer than five letters; on a full row it shakes and changes nothing |
| `Game.EnterIncompleteRule` | src/Game.jsx:23-27 | Enter on a row that is not full shakes and leaves the whole state unchanged |
| `Game.EnterSubmitRule` | src/Game.jsx:43-54 | Enter on a full row prepends the guess and its score, keeps the five newest entries of each list, keeps the two lists equally long, clears the row, and sets won exactly when the guess is the secret word |
| `Game.BackspaceRule` | src/Game.jsx:32-33 | Backspace removes the last letter, and on an empty row it changes nothing |
| `Game.OtherKeyRule` | src/Game.jsx:20-35 | a key that is not Enter, Backspace or a single letter changes nothing and does not shake |
| `Game.WonIgnoresKeys` | src/Game.jsx:21 | once the round is won, any sequence of key presses leaves the whole state unchanged |
| `Game.NewGameRule` | src/Game.jsx:123-130 | New Game empties the row, guesses and scores, clears won and installs the new word, whatever the previous state |
| `Game.TypingAppends` | src/Game.jsx:29-30 | typing upper-case letters into a row with room appends them in order |
| `Game.EntrySubmits` | src/Game.jsx:23-30 | typing a word on an empty row and pressing Enter submits exactly that word |
| `Game.WrongEntryRecorded` | src/Game.jsx:43-53 | entering a wrong word records it as the newest guess, keeps the round not won and clears the row |
| `Game.HistoryKeepsNewest` | src/Game.jsx:46-47 | after entering any number of wrong words, the guesses are the five newest submissions, newest first |
| `Game.ScoredHistoryKeepsNewest` | src/Game.jsx:43-47 | from a reachable round, after entering any number of wrong words the guesses are the five newest submissions, newest first, there are as many scores as guesses, and each score is the score of the guess beside it |
| `Game.SixGuessesKeepFive` | src/Game.jsx:43-47 | after six wrong words in a fresh round, the oldest is gone and the other five remain, newest first, each beside its own score |

## Left out

- Fetching the word (src/wordgen.js) is network I/O. Only its output contract is modelled: `Words.ProvidedWord` takes the service's answer as a parameter, and `Step` takes the new word as part of the `NewGame` event.
- The loading phase is not modelled. Until the first word arrives, `correctWord` is null, but the key listener is already attached. Submitting in that phase would fail when the code splits a null word. `Step` requires a well-formed secret word instead, and `Init` starts with an empty row, so keys typed during loading are not modelled.
- The shake timer is a timing effect. The flag is cleared 400 ms later by a timer, and the model treats shake only as a boolean output of each event.
- Attaching and removing the key listener is event plumbing and is not modelled.
- Rendering (all JSX and src/Box.jsx) is presentation only. This includes the rule that shows the New Game button only in a won round; see above.
- The key filter's regular expression is modelled as a predicate on a one-character key name. Key names are treated as sequences of characters; JavaScript's UTF-16 code units are not modelled.
- `Words.ProvidedWord`: assumes the remote service answers five ASCII letters (`ServiceContract`). src/wordgen.js:8 checks neither length nor characters, so an answer of another shape would reach the game unchanged; the model does not cover that case.
- Events are taken strictly one after another, each seeing the state the previous one left. In the source the key handler reads `won`, `input`, `guesses` and `feedback` from the render that attached it (src/Game.jsx:21,24,30,44-47), and the listener is re-attached after every render (src/Game.jsx:75-78); only `setInput(p => …)` reads the latest value. Two key presses handled before a re-render would both see the older state, which the model does not cover. The bound of five letters on the row in `Game.Inv` relies on this sequential reading.
- `Words.ToUpper`: covers only ASCII letters, the only characters the key filter lets through. JavaScript's upper-casing of other characters is not modelled.
- `Game.HistoryKeepsNewest`: assumes the history starts with at most five entries. `Game.RunInv` shows this holds in every reachable round.
