/** Scoring of a guess against the secret word (green/yellow counts).

    The scorer works in two passes over a five-slot `used` array:
    1. for every position where guess and answer agree, count a green, mark the
       answer slot used and blank out that guess letter;
    2. for every guess letter still present, left to right, claim the first
       unused answer slot holding the same letter and count a yellow.

    The model follows those passes slot by slot. The lemmas then relate the
    result to independent definitions: green is the number of agreeing
    positions, and green + yellow is the number of letters the two words
    share counting multiplicity (the size of the multiset intersection).
 */
module Scoring {
  import opened Words

  /** The score shown next to a guess. */
  datatype Feedback = Feedback(green: nat, yellow: nat)

  /** A guess letter after the first pass: blanked out (scored green) or
      still open for the second pass. */
  datatype Pending = Done | Open(letter: char)

  /** State after the first pass: greens counted, answer slots used so far,
      and the guess with its green letters blanked out. */
  datatype FirstPassState = FirstPassState(green: nat, used: seq<bool>, rest: seq<Pending>)

  /** State after (part of) the second pass. */
  datatype SecondPassState = SecondPassState(yellow: nat, used: seq<bool>)

  /** The complete run of the scorer, including the final `used` array. */
  datatype Tally = Tally(green: nat, yellow: nat, used: seq<bool>)

  /*** First pass ***/

  /** The first pass over positions `0 .. n-1`. */
  function FirstPass(guess: seq<char>, answer: seq<char>, n: nat): (p: FirstPassState)
    requires |guess| == |answer| && n <= |guess|
    ensures |p.used| == |answer| && |p.rest| == |guess|
    ensures forall i :: 0 <= i < |answer| ==> p.used[i] == (i < n && guess[i] == answer[i])
    ensures forall i :: 0 <= i < |guess| ==>
              p.rest[i] == (if i < n && guess[i] == answer[i] then Done else Open(guess[i]))
    ensures p.green <= n
  {
    if n == 0 then
      FirstPassState(0, seq(|answer|, _ => false), seq(|guess|, i requires 0 <= i < |guess| => Open(guess[i])))
    else
      var p := FirstPass(guess, answer, n - 1);
      var i := n - 1;
      if guess[i] == answer[i] then
        FirstPassState(p.green + 1, p.used[i := true], p.rest[i := Done])
      else
        p
  }

  /*** Second pass ***/

  /** The first slot at or after `from` that holds `c` and is not used yet,
      or -1 when there is none. */
  function FindFree(answer: seq<char>, used: seq<bool>, c: char, from: nat): (j: int)
    requires |used| == |answer| && from <= |answer|
    ensures j == -1 || (from <= j < |answer| && answer[j] == c && !used[j])
    ensures j == -1 ==> forall k :: from <= k < |answer| ==> answer[k] != c || used[k]
    ensures j != -1 ==> forall k :: from <= k < j ==> answer[k] != c || used[k]
    decreases |answer| - from
  {
    if from == |answer| then -1
    else if answer[from] == c && !used[from] then from
    else FindFree(answer, used, c, from + 1)
  }

  /** The second pass over the remaining guess letters `rest`, left to right. */
  function SecondPass(rest: seq<Pending>, answer: seq<char>, used: seq<bool>): (q: SecondPassState)
    requires |used| == |answer|
    ensures |q.used| == |answer|
    ensures q.yellow <= |OpenLetters(rest, |rest|)|
    ensures forall k :: 0 <= k < |answer| && used[k] ==> q.used[k]
    decreases |rest|
  {
    if |rest| == 0 then SecondPassState(0, used)
    else
      OpenLettersFront(rest, |rest|);
      match rest[0]
      case Done => SecondPass(rest[1..], answer, used)
      case Open(c) =>
        var j := FindFree(answer, used, c, 0);
        if j == -1 then SecondPass(rest[1..], answer, used)
        else
          var q := SecondPass(rest[1..], answer, used[j := true]);
          SecondPassState(q.yellow + 1, q.used)
  }

  /** Both passes. */
  function Evaluate(guess: seq<char>, answer: seq<char>): (t: Tally)
    requires |guess| == |answer|
    ensures |t.used| == |answer|
    ensures t.green <= |guess|
    ensures forall i :: 0 <= i < |answer| && guess[i] == answer[i] ==> t.used[i]
  {
    var p := FirstPass(guess, answer, |guess|);
    var q := SecondPass(p.rest, answer, p.used);
    Tally(p.green, q.yellow, q.used)
  }

  /** The score of `guess` against `answer`, both five letters long: green
      counts the agreeing positions, green + yellow the letters the two words
      share. */
  function GetFeedback(guess: seq<char>, answer: seq<char>): (r: Feedback)
    requires |guess| == WordLength && |answer| == WordLength
    ensures r.green == |MatchPositions(guess, answer, WordLength)|
    ensures r.green + r.yellow == |multiset(guess) * multiset(answer)|
  {
    EvaluateMatchesReference(guess, answer);
    var t := Evaluate(guess, answer);
    Feedback(t.green, t.yellow)
  }

  /*** Reference definitions ***/

  /** Positions below `n` where guess and answer agree. */
  function MatchPositions(guess: seq<char>, answer: seq<char>, n: nat): set<nat>
    requires |guess| == |answer| && n <= |guess|
  {
    set i: nat | i < n && guess[i] == answer[i]
  }

  /** The elements of `s` below index `n`, with multiplicity. */
  function PrefixBag<T>(s: seq<T>, n: nat): multiset<T>
    requires n <= |s|
  {
    if n == 0 then multiset{} else PrefixBag(s, n - 1) + multiset{s[n - 1]}
  }

  /** The letters of the agreeing positions below `n`, with multiplicity. */
  function Matched(guess: seq<char>, answer: seq<char>, n: nat): multiset<char>
    requires |guess| == |answer| && n <= |guess|
  {
    if n == 0 then multiset{}
    else Matched(guess, answer, n - 1)
         + (if guess[n - 1] == answer[n - 1] then multiset{guess[n - 1]} else multiset{})
  }

  /** The letters of the free answer slots below `n`, with multiplicity. */
  function Unclaimed(answer: seq<char>, used: seq<bool>, n: nat): multiset<char>
    requires |used| == |answer| && n <= |answer|
  {
    if n == 0 then multiset{}
    else Unclaimed(answer, used, n - 1) + (if used[n - 1] then multiset{} else multiset{answer[n - 1]})
  }

  /** The letters of the used answer slots below `n`, with multiplicity. */
  function Claimed(answer: seq<char>, used: seq<bool>, n: nat): multiset<char>
    requires |used| == |answer| && n <= |answer|
  {
    if n == 0 then multiset{}
    else Claimed(answer, used, n - 1) + (if used[n - 1] then multiset{answer[n - 1]} else multiset{})
  }

  /** The letter a guess position still offers to the second pass. */
  function Offered(x: Pending): multiset<char> {
    match x
    case Done => multiset{}
    case Open(c) => multiset{c}
  }

  /** The guess letters still open below `n`, with multiplicity. */
  function OpenLetters(rest: seq<Pending>, n: nat): multiset<char>
    requires n <= |rest|
  {
    if n == 0 then multiset{} else OpenLetters(rest, n - 1) + Offered(rest[n - 1])
  }

  /*** Multiset facts ***/

  /** The prefix bag of the whole sequence is its multiset. */
  lemma {:induction false} PrefixBagIsMultiset<T>(s: seq<T>, n: nat)
    requires n <= |s|
    ensures PrefixBag(s, n) == multiset(s[..n])
  {
    if n > 0 {
      PrefixBagIsMultiset(s, n - 1);
      assert s[..n] == s[..n - 1] + [s[n - 1]];
    }
  }

  /** Letters shared by both sides stay shared after adding the same letters to both. */
  lemma IntersectShift(a: multiset<char>, b: multiset<char>, m: multiset<char>)
    ensures (a + m) * (b + m) == a * b + m
  {
    forall x
      ensures ((a + m) * (b + m))[x] == (a * b + m)[x]
    {
    }
  }

  /** A letter absent from one side contributes nothing to the intersection. */
  lemma IntersectAbsent(c: char, a: multiset<char>, b: multiset<char>)
    requires b[c] == 0
    ensures (multiset{c} + a) * b == a * b
  {
    forall x
      ensures ((multiset{c} + a) * b)[x] == (a * b)[x]
    {
    }
  }

  /*** Facts about the answer slots ***/

  /** The unclaimed letters below `n` depend only on the slots below `n`. */
  lemma {:induction false} UnclaimedFrame(answer: seq<char>, used: seq<bool>, used': seq<bool>, n: nat)
    requires |used| == |used'| == |answer| && n <= |answer|
    requires forall i :: 0 <= i < n ==> used'[i] == used[i]
    ensures Unclaimed(answer, used', n) == Unclaimed(answer, used, n)
  {
    if n > 0 {
      UnclaimedFrame(answer, used, used', n - 1);
    }
  }

  /** Marking a free slot used removes exactly its letter from the unclaimed
      letters of every range of slots that contains it. */
  lemma {:induction false} ClaimRemovesOne(answer: seq<char>, used: seq<bool>, j: nat, n: nat)
    requires |used| == |answer| && j < n <= |answer| && !used[j]
    ensures Unclaimed(answer, used[j := true], n) + multiset{answer[j]} == Unclaimed(answer, used, n)
  {
    var k := n - 1;
    var used' := used[j := true];
    if k == j {
      UnclaimedFrame(answer, used, used', k);
      AddOneMore(Unclaimed(answer, used', k), Unclaimed(answer, used, k) + multiset{answer[j]}, answer[j],
                 multiset{});
    } else {
      ClaimRemovesOne(answer, used, j, k);
      assert used'[k] == used[k];
      AddOneMore(Unclaimed(answer, used', k), Unclaimed(answer, used, k), answer[j],
                 if used[k] then multiset{} else multiset{answer[k]});
    }
  }

  /** A letter with no free slot is not among the unclaimed letters. */
  lemma {:induction false} NoFreeSlot(answer: seq<char>, used: seq<bool>, c: char, n: nat)
    requires |used| == |answer| && n <= |answer|
    requires forall k :: 0 <= k < |answer| ==> answer[k] != c || used[k]
    ensures Unclaimed(answer, used, n)[c] == 0
  {
    if n > 0 {
      NoFreeSlot(answer, used, c, n - 1);
    }
  }

  /** Every slot is either used, holding one claimed letter, or free,
      holding one unclaimed letter. */
  lemma {:induction false} SlotsPartition(answer: seq<char>, used: seq<bool>, n: nat)
    requires |used| == |answer| && n <= |answer|
    ensures Claimed(answer, used, n) + Unclaimed(answer, used, n) == PrefixBag(answer, n)
  {
    if n > 0 {
      var k := n - 1;
      SlotsPartition(answer, used, k);
      var x := if used[k] then multiset{answer[k]} else multiset{};
      var y := if used[k] then multiset{} else multiset{answer[k]};
      assert x + y == multiset{answer[k]};
      AddBoth(Claimed(answer, used, k), Unclaimed(answer, used, k), PrefixBag(answer, k), x, y, multiset{answer[k]});
    }
  }

  /** There are as many claimed letters as used slots. */
  lemma {:induction false} ClaimedCountsUsed(answer: seq<char>, used: seq<bool>, n: nat)
    requires |used| == |answer| && n <= |answer|
    ensures |Claimed(answer, used, n)| == PrefixBag(used, n)[true]
  {
    if n > 0 {
      ClaimedCountsUsed(answer, used, n - 1);
    }
  }

  /*** The passes against the reference definitions ***/

  /** The first pass counts the agreeing positions. */
  lemma {:induction false} FirstPassCountsMatches(guess: seq<char>, answer: seq<char>, n: nat)
    requires |guess| == |answer| && n <= |guess|
    ensures FirstPass(guess, answer, n).green == |MatchPositions(guess, answer, n)|
  {
    if n > 0 {
      FirstPassCountsMatches(guess, answer, n - 1);
      MatchPositionsGrow(guess, answer, n);
    }
  }

  /** One more position adds one agreeing position exactly when its letters agree. */
  lemma MatchPositionsGrow(guess: seq<char>, answer: seq<char>, n: nat)
    requires |guess| == |answer| && 0 < n <= |guess|
    ensures |MatchPositions(guess, answer, n)|
            == |MatchPositions(guess, answer, n - 1)| + (if guess[n - 1] == answer[n - 1] then 1 else 0)
  {
    var s := MatchPositions(guess, answer, n - 1);
    assert n - 1 !in s;
    if guess[n - 1] == answer[n - 1] {
      assert MatchPositions(guess, answer, n) == s + {n - 1};
    } else {
      assert MatchPositions(guess, answer, n) == s;
    }
  }

  /** The green count is also the number of green letters. */
  lemma {:induction false} FirstPassCountsMatchedLetters(guess: seq<char>, answer: seq<char>, n: nat)
    requires |guess| == |answer| && n <= |guess|
    ensures FirstPass(guess, answer, n).green == |Matched(guess, answer, n)|
  {
    if n > 0 {
      FirstPassCountsMatchedLetters(guess, answer, n - 1);
    }
  }

  /** After the first pass, the unclaimed answer letters plus the green
      letters are the whole answer (shown here for every prefix). */
  lemma {:induction false} UnclaimedAfterGreens(guess: seq<char>, answer: seq<char>, used: seq<bool>, n: nat)
    requires |guess| == |answer| == |used| && n <= |answer|
    requires forall i :: 0 <= i < |answer| ==> used[i] == (guess[i] == answer[i])
    ensures Unclaimed(answer, used, n) + Matched(guess, answer, n) == PrefixBag(answer, n)
  {
    if n > 0 {
      var k := n - 1;
      UnclaimedAfterGreens(guess, answer, used, k);
      var x := if used[k] then multiset{} else multiset{answer[k]};
      var y := if guess[k] == answer[k] then multiset{guess[k]} else multiset{};
      assert x + y == multiset{answer[k]};
      AddBoth(Unclaimed(answer, used, k), Matched(guess, answer, k), PrefixBag(answer, k), x, y, multiset{answer[k]});
    }
  }

  /** After the first pass, the open guess letters plus the green letters are
      the whole guess (shown here for every prefix). */
  lemma {:induction false} OpenAfterGreens(guess: seq<char>, answer: seq<char>, rest: seq<Pending>, n: nat)
    requires |guess| == |answer| == |rest| && n <= |guess|
    requires forall i :: 0 <= i < |guess| ==> rest[i] == (if guess[i] == answer[i] then Done else Open(guess[i]))
    ensures OpenLetters(rest, n) + Matched(guess, answer, n) == PrefixBag(guess, n)
  {
    if n > 0 {
      var k := n - 1;
      OpenAfterGreens(guess, answer, rest, k);
      var y := if guess[k] == answer[k] then multiset{guess[k]} else multiset{};
      assert Offered(rest[k]) + y == multiset{guess[k]};
      AddBoth(OpenLetters(rest, k), Matched(guess, answer, k), PrefixBag(guess, k), Offered(rest[k]), y, multiset{guess[k]});
    }
  }

  /** One letter short of `b` stays one letter short after adding `x` to both. */
  lemma AddOneMore(a: multiset<char>, b: multiset<char>, c: char, x: multiset<char>)
    requires a + multiset{c} == b
    ensures (a + x) + multiset{c} == b + x
  {
    forall e
      ensures ((a + x) + multiset{c})[e] == (b + x)[e]
    {
      assert a[e] + multiset{c}[e] == b[e];
    }
  }

  /** Adding two parts of a multiset to two parts of another. */
  lemma AddBoth(a: multiset<char>, b: multiset<char>, c: multiset<char>,
                x: multiset<char>, y: multiset<char>, z: multiset<char>)
    requires a + b == c && x + y == z
    ensures (a + x) + (b + y) == c + z
  {
    forall e
      ensures ((a + x) + (b + y))[e] == (c + z)[e]
    {
      assert a[e] + b[e] == c[e];
      assert x[e] + y[e] == z[e];
    }
  }

  /** The open letters of a non-empty list are those of its first entry
      plus those of the others. */
  lemma {:induction false} OpenLettersFront(rest: seq<Pending>, n: nat)
    requires 0 < n <= |rest|
    ensures OpenLetters(rest, n) == Offered(rest[0]) + OpenLetters(rest[1..], n - 1)
  {
    if n > 1 {
      OpenLettersFront(rest, n - 1);
      assert rest[1..][n - 2] == rest[n - 1];
    }
  }

  /** The second pass counts the open guess letters that find an unclaimed
      answer letter, respecting multiplicity, and claims one slot per yellow. */
  lemma {:induction false} SecondPassCountsShared(rest: seq<Pending>, answer: seq<char>, used: seq<bool>)
    requires |used| == |answer|
    ensures SecondPass(rest, answer, used).yellow
            == |OpenLetters(rest, |rest|) * Unclaimed(answer, used, |answer|)|
    ensures Unclaimed(answer, SecondPass(rest, answer, used).used, |answer|)
            + OpenLetters(rest, |rest|) * Unclaimed(answer, used, |answer|)
            == Unclaimed(answer, used, |answer|)
    decreases |rest|
  {
    if |rest| > 0 {
      var tail := OpenLetters(rest[1..], |rest| - 1);
      var u := Unclaimed(answer, used, |answer|);
      OpenLettersFront(rest, |rest|);
      match rest[0]
      case Done =>
        assert Offered(rest[0]) == multiset{};
        assert OpenLetters(rest, |rest|) == tail;
        SecondPassCountsShared(rest[1..], answer, used);
      case Open(c) =>
        var j := FindFree(answer, used, c, 0);
        if j == -1 {
          NoFreeSlot(answer, used, c, |answer|);
          IntersectAbsent(c, tail, u);
          SecondPassCountsShared(rest[1..], answer, used);
        } else {
          var u' := Unclaimed(answer, used[j := true], |answer|);
          ClaimRemovesOne(answer, used, j, |answer|);
          SecondPassCountsShared(rest[1..], answer, used[j := true]);
          IntersectShift(tail, u', multiset{c});
          assert multiset{c} + tail == tail + multiset{c};
        }
    }
  }

  /*** Properties of the score ***/

  /** Multiset bookkeeping behind the score: if the green letters `m`, the
      yellow letters `y` and the letters `left` still unclaimed at the end make
      up the answer, and `claimed` plus `left` does too, then `claimed` is
      exactly the greens and yellows. */
  lemma ClaimedIsGreenAndYellow(claimed: multiset<char>, left: multiset<char>, y: multiset<char>,
                                u: multiset<char>, m: multiset<char>, whole: multiset<char>)
    requires claimed + left == whole
    requires left + y == u
    requires u + m == whole
    ensures claimed == y + m
  {
    forall x
      ensures claimed[x] == (y + m)[x]
    {
      assert claimed[x] + left[x] == whole[x];
      assert left[x] + y[x] == u[x];
      assert u[x] + m[x] == whole[x];
    }
  }

  /** The answer slots the scorer marks used hold exactly the letters the two
      words share: each letter min(count in guess, count in answer) times.
      Every green and every yellow used its own slot, and yellow is the
      overlap of what the greens left over on both sides. */
  lemma UsedSlotsHoldSharedLetters(guess: seq<char>, answer: seq<char>)
    requires |guess| == |answer|
    ensures Claimed(answer, Evaluate(guess, answer).used, |answer|) == multiset(guess) * multiset(answer)
    ensures Evaluate(guess, answer).green + Evaluate(guess, answer).yellow
            == multiset(Evaluate(guess, answer).used)[true]
    ensures var m := Matched(guess, answer, |guess|);
            Evaluate(guess, answer).yellow == |(multiset(guess) - m) * (multiset(answer) - m)|
  {
    var p := FirstPass(guess, answer, |guess|);
    var q := SecondPass(p.rest, answer, p.used);
    var m := Matched(guess, answer, |guess|);
    var u := Unclaimed(answer, p.used, |answer|);
    var o := OpenLetters(p.rest, |guess|);
    FirstPassCountsMatchedLetters(guess, answer, |guess|);
    ResidueAfterGreens(guess, answer);
    SecondPassCountsShared(p.rest, answer, p.used);
    ClaimedAfterBothPasses(answer, q.used, o * u, u, m);
    IntersectShift(o, u, m);
  }

  /** The complete run of the scorer against the reference counts: green is
      the number of positions where the two words agree, and green + yellow
      is both the number of used answer slots and the number of letters the
      two words share, counting multiplicity. */
  lemma EvaluateMatchesReference(guess: seq<char>, answer: seq<char>)
    requires |guess| == |answer|
    ensures Evaluate(guess, answer).green == |MatchPositions(guess, answer, |guess|)|
    ensures Evaluate(guess, answer).green + Evaluate(guess, answer).yellow
            == multiset(Evaluate(guess, answer).used)[true]
    ensures Evaluate(guess, answer).green + Evaluate(guess, answer).yellow
            == |multiset(guess) * multiset(answer)|
  {
    var t := Evaluate(guess, answer);
    FirstPassCountsMatches(guess, answer, |guess|);
    UsedSlotsHoldSharedLetters(guess, answer);
    ClaimedCountsUsed(answer, t.used, |answer|);
    BagsOfWholeWords(answer, answer, t.used);
  }

  /** What the first pass leaves: the guess letters still open and the answer
      letters still unclaimed are the two words without the green letters. */
  lemma ResidueAfterGreens(guess: seq<char>, answer: seq<char>)
    requires |guess| == |answer|
    ensures var p := FirstPass(guess, answer, |guess|);
            var m := Matched(guess, answer, |guess|);
            && Unclaimed(answer, p.used, |answer|) + m == multiset(answer)
            && multiset(answer) - m == Unclaimed(answer, p.used, |answer|)
            && OpenLetters(p.rest, |guess|) + m == multiset(guess)
            && multiset(guess) - m == OpenLetters(p.rest, |guess|)
  {
    var p := FirstPass(guess, answer, |guess|);
    var m := Matched(guess, answer, |guess|);
    UnclaimedAfterGreens(guess, answer, p.used, |answer|);
    OpenAfterGreens(guess, answer, p.rest, |guess|);
    BagsOfWholeWords(guess, answer, p.used);
    RemovePart(Unclaimed(answer, p.used, |answer|), m, multiset(answer));
    RemovePart(OpenLetters(p.rest, |guess|), m, multiset(guess));
  }

  /** Removing one part of a sum leaves the other. */
  lemma RemovePart(a: multiset<char>, m: multiset<char>, whole: multiset<char>)
    requires a + m == whole
    ensures whole - m == a
  {
    forall x
      ensures (whole - m)[x] == a[x]
    {
      assert a[x] + m[x] == whole[x];
    }
  }

  /** The claimed letters at the end, in terms of the greens `m`, the yellows
      `y` and the letters `u` the first pass left unclaimed. */
  lemma ClaimedAfterBothPasses(answer: seq<char>, used: seq<bool>, y: multiset<char>,
                               u: multiset<char>, m: multiset<char>)
    requires |used| == |answer|
    requires Unclaimed(answer, used, |answer|) + y == u
    requires u + m == multiset(answer)
    ensures Claimed(answer, used, |answer|) == y + m
    ensures |y| + |m| == multiset(used)[true]
  {
    BagsOfWholeWords(answer, answer, used);
    SlotsPartition(answer, used, |answer|);
    ClaimedCountsUsed(answer, used, |answer|);
    ClaimedIsGreenAndYellow(Claimed(answer, used, |answer|), Unclaimed(answer, used, |answer|), y, u, m, multiset(answer));
  }

  lemma BagsOfWholeWords(guess: seq<char>, answer: seq<char>, used: seq<bool>)
    requires |guess| == |answer| == |used|
    ensures PrefixBag(guess, |guess|) == multiset(guess)
    ensures PrefixBag(answer, |answer|) == multiset(answer)
    ensures PrefixBag(used, |used|) == multiset(used)
  {
    PrefixBagIsMultiset(guess, |guess|);
    PrefixBagIsMultiset(answer, |answer|);
    PrefixBagIsMultiset(used, |used|);
    assert guess[..|guess|] == guess;
    assert answer[..|answer|] == answer;
    assert used[..|used|] == used;
  }

  /** Yellow counts the letters shared by what the greens leave of the guess
      and what they leave of the answer. */
  lemma YellowCountsLeftoverOverlap(guess: seq<char>, answer: seq<char>)
    requires |guess| == WordLength && |answer| == WordLength
    ensures var m := Matched(guess, answer, WordLength);
            GetFeedback(guess, answer).yellow == |(multiset(guess) - m) * (multiset(answer) - m)|
  {
    UsedSlotsHoldSharedLetters(guess, answer);
  }

  /** No answer slot is counted twice: the slots used at the end are exactly
      one per green and one per yellow, so the total never exceeds the word length. */
  lemma ScoreUsesDistinctSlots(guess: seq<char>, answer: seq<char>)
    requires |guess| == WordLength && |answer| == WordLength
    ensures GetFeedback(guess, answer).green + GetFeedback(guess, answer).yellow
            == multiset(Evaluate(guess, answer).used)[true]
    ensures GetFeedback(guess, answer).green + GetFeedback(guess, answer).yellow <= WordLength
  {
    EvaluateMatchesReference(guess, answer);
    var g := multiset(guess);
    var a := multiset(answer);
    assert g * a + (g - a) == g;
  }

  /** A word scored against itself is all green. */
  lemma ScoreOfAnswerIsAllGreen(w: seq<char>)
    requires |w| == WordLength
    ensures GetFeedback(w, w) == Feedback(WordLength, 0)
  {
    EvaluateMatchesReference(w, w);
    assert MatchPositions(w, w, WordLength) == {0, 1, 2, 3, 4};
    assert multiset(w) * multiset(w) == multiset(w);
  }

  /** The score read off the reference definitions alone. */
  lemma FeedbackFromReference(guess: seq<char>, answer: seq<char>, green: nat, shared: nat)
    requires |guess| == WordLength && |answer| == WordLength
    requires |MatchPositions(guess, answer, WordLength)| == green
    requires |multiset(guess) * multiset(answer)| == shared
    ensures green <= shared
    ensures GetFeedback(guess, answer) == Feedback(green, shared - green)
  {
    EvaluateMatchesReference(guess, answer);
  }

  /** A reversed word: only the middle letter is in place, the other four
      are elsewhere. */
  lemma ReversedWordExample()
    ensures GetFeedback("ABCDE", "EDCBA") == Feedback(1, 4)
  {
    ReversedFirstPass();
    ReversedSecondPass();
  }

  lemma ReversedFirstPass()
    ensures FirstPass("ABCDE", "EDCBA", 5)
            == FirstPassState(1, [false, false, true, false, false],
                              [Open('A'), Open('B'), Done, Open('D'), Open('E')])
  {
    var p := FirstPass("ABCDE", "EDCBA", 5);
    assert p.green == 1;
  }

  /** Each open letter of the reversed word claims the one free slot holding it. */
  lemma ReversedSecondPass()
    ensures SecondPass([Open('A'), Open('B'), Done, Open('D'), Open('E')], "EDCBA",
                       [false, false, true, false, false]).yellow == 4
  {
    var a := "EDCBA";
    var rest := [Open('A'), Open('B'), Done, Open('D'), Open('E')];
    var u0 := [false, false, true, false, false];
    var u1 := u0[4 := true];
    var u2 := u1[3 := true];
    var u3 := u2[1 := true];
    var u4 := u3[0 := true];
    assert FindFree(a, u0, 'A', 0) == 4;
    assert FindFree(a, u1, 'B', 0) == 3;
    assert FindFree(a, u2, 'D', 0) == 1;
    assert FindFree(a, u3, 'E', 0) == 0;
    assert SecondPass(rest[5..], a, u4).yellow == 0;
    assert SecondPass(rest[4..], a, u3).yellow == 1;
    assert SecondPass(rest[3..], a, u2).yellow == 2;
    assert SecondPass(rest[2..], a, u2).yellow == 2;
    assert SecondPass(rest[1..], a, u1).yellow == 3;
  }

  /** Repeated letters are counted only as often as the answer holds them:
      both A's find a slot, only two of the three B's do. */
  lemma RepeatedLettersExample()
    ensures GetFeedback("AABBB", "BBAAA") == Feedback(0, 4)
  {
    RepeatedFirstPass();
    RepeatedSecondPass();
  }

  lemma RepeatedFirstPass()
    ensures FirstPass("AABBB", "BBAAA", 5)
            == FirstPassState(0, [false, false, false, false, false],
                              [Open('A'), Open('A'), Open('B'), Open('B'), Open('B')])
  {
    var p := FirstPass("AABBB", "BBAAA", 5);
    assert p.green == 0;
  }

  /** The A's take the two leftmost free A slots, two B's take the B slots,
      and the third B finds none. */
  lemma RepeatedSecondPass()
    ensures SecondPass([Open('A'), Open('A'), Open('B'), Open('B'), Open('B')], "BBAAA",
                       [false, false, false, false, false]).yellow == 4
  {
    var a := "BBAAA";
    var rest := [Open('A'), Open('A'), Open('B'), Open('B'), Open('B')];
    var u0 := [false, false, false, false, false];
    var u1 := u0[2 := true];
    var u2 := u1[3 := true];
    var u3 := u2[0 := true];
    var u4 := u3[1 := true];
    assert FindFree(a, u0, 'A', 0) == 2;
    assert FindFree(a, u1, 'A', 0) == 3;
    assert FindFree(a, u2, 'B', 0) == 0;
    assert FindFree(a, u3, 'B', 0) == 1;
    assert FindFree(a, u4, 'B', 0) == -1;
    assert SecondPass(rest[5..], a, u4).yellow == 0;
    assert SecondPass(rest[4..], a, u4).yellow == 0;
    assert SecondPass(rest[3..], a, u3).yellow == 1;
    assert SecondPass(rest[2..], a, u2).yellow == 2;
    assert SecondPass(rest[1..], a, u1).yellow == 3;
  }
}
