/** The bounded, most-recent-first history lists of a round.

    A submission puts the new entry in front of the list and then keeps only
    the first `n` entries, exactly as `[x, ...xs].slice(0, n)` does.
 */
module History {

  function Min(a: int, b: int): int {
    if a <= b then a else b
  }

  /** The first `n` elements of `xs`, or all of them when there are fewer. */
  function Take<T>(xs: seq<T>, n: nat): (r: seq<T>)
    ensures |r| == Min(|xs|, n)
    ensures r == xs[..|r|]
  {
    if |xs| <= n then xs else xs[..n]
  }

  /** `x` prepended to `xs`, the result cut down to its first `n` entries. */
  function Push<T>(x: T, xs: seq<T>, n: nat): (r: seq<T>)
    requires n > 0
    ensures |r| == Min(|xs| + 1, n)
    ensures r[0] == x
    ensures forall i :: 1 <= i < |r| ==> r[i] == xs[i - 1]
  {
    Take([x] + xs, n)
  }

  /** `xs` in the opposite order. */
  function Reverse<T>(xs: seq<T>): (r: seq<T>)
    ensures |r| == |xs|
    ensures forall i :: 0 <= i < |xs| ==> r[i] == xs[|xs| - 1 - i]
  {
    if |xs| == 0 then [] else Reverse(xs[1..]) + [xs[0]]
  }

  /** Cutting the tail early does not change the first `n` entries. */
  lemma {:induction false} TakeAfterTake<T>(xs: seq<T>, ys: seq<T>, n: nat)
    ensures Take(xs + Take(ys, n), n) == Take(xs + ys, n)
  {
    var l := Take(xs + Take(ys, n), n);
    var r := Take(xs + ys, n);
    assert |l| == |r|;
    forall i | 0 <= i < |l|
      ensures l[i] == r[i]
    {
      if i >= |xs| {
        assert l[i] == Take(ys, n)[i - |xs|];
      }
    }
  }

  /** Pushing `w` and cutting to `n`, then pushing the entries of `ws` in
      turn, keeps the same `n` entries as pushing them all before cutting. */
  lemma PushThenRest<T>(w: T, ws: seq<T>, xs: seq<T>, n: nat)
    ensures Take(Reverse(ws) + Take([w] + xs, n), n) == Take(Reverse([w] + ws) + xs, n)
  {
    var rest := Reverse(ws);
    assert Reverse([w] + ws) == rest + [w] by {
      assert ([w] + ws)[1..] == ws;
    }
    ConcatAssoc(rest, [w], xs);
    TakeAfterTake(rest, [w] + xs, n);
  }

  /** Concatenation is associative; stated on its own so that the facts about
      `Reverse` stay out of the proof of the equation. */
  lemma ConcatAssoc<T>(a: seq<T>, b: seq<T>, c: seq<T>)
    ensures (a + b) + c == a + (b + c)
  {
  }

  /** The five newest of six entries listed oldest first, newest first. */
  lemma NewestFiveOfSix<T>(xs: seq<T>)
    requires |xs| == 6
    ensures Take(Reverse(xs), 5) == [xs[5], xs[4], xs[3], xs[2], xs[1]]
  {
    var r := Reverse(xs);
    assert Take(r, 5) == r[..5];
  }
}
