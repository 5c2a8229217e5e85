/** Letters, words and the constants of the game.

    A word is five upper-case ASCII letters. The remote word service is not
    modelled; only its output contract is: whatever it answers is upper-cased,
    and any failure is replaced by a fixed fallback word.
 */
module Words {

  /** Letters in a word; also the capacity of the input buffer. */
  const WordLength: nat := 5

  /** How many previous guesses (and their scores) a round keeps. */
  const HistoryLength: nat := 5

  /** The word the provider answers when the remote service fails. */
  const FallbackWord: string := "CRANE"

  /** A single character the key filter accepts: `a`-`z` or `A`-`Z`. */
  predicate IsAsciiLetter(c: char) {
    'a' <= c <= 'z' || 'A' <= c <= 'Z'
  }

  predicate IsUpper(c: char) {
    'A' <= c <= 'Z'
  }

  /** Upper-casing of one ASCII letter. */
  function ToUpper(c: char): (u: char)
    requires IsAsciiLetter(c)
    ensures IsUpper(u)
    ensures IsUpper(c) ==> u == c
    ensures 'a' <= c <= 'z' ==> u as int - 'A' as int == c as int - 'a' as int
  {
    if 'a' <= c <= 'z' then (c as int - 'a' as int + 'A' as int) as char else c
  }

  /** Upper-casing of a string of ASCII letters, letter by letter. */
  function ToUpperWord(w: string): (u: string)
    requires forall i :: 0 <= i < |w| ==> IsAsciiLetter(w[i])
    ensures |u| == |w|
    ensures forall i :: 0 <= i < |w| ==> u[i] == ToUpper(w[i])
  {
    if |w| == 0 then [] else [ToUpper(w[0])] + ToUpperWord(w[1..])
  }

  /** A well-formed secret word (and a well-formed submitted guess). */
  predicate IsWord(w: string) {
    |w| == WordLength && forall i :: 0 <= i < |w| ==> IsUpper(w[i])
  }

  /** What the remote service returned: a five-letter word, or a failure. */
  datatype Fetch = Fetched(data: string) | Failed

  /** A fetch the service can produce: it is asked for words of length five. */
  predicate ServiceContract(f: Fetch) {
    f.Fetched? ==> |f.data| == WordLength && forall i :: 0 <= i < |f.data| ==> IsAsciiLetter(f.data[i])
  }

  /** The word handed to the game: the fetched word upper-cased, or the
      fallback word when the fetch failed. */
  function ProvidedWord(f: Fetch): (w: string)
    requires ServiceContract(f)
    ensures IsWord(w)
    ensures f.Failed? ==> w == FallbackWord
    ensures f.Fetched? ==> forall i :: 0 <= i < |w| ==> w[i] == ToUpper(f.data[i])
  {
    match f
    case Fetched(data) => ToUpperWord(data)
    case Failed => FallbackWord
  }

  /** Upper-casing leaves an upper-case word as it is. */
  lemma {:induction false} ToUpperWordKeepsWord(w: string)
    requires IsWord(w)
    ensures ToUpperWord(w) == w
  {
    var u := ToUpperWord(w);
    assert forall i :: 0 <= i < |w| ==> u[i] == w[i];
  }

  /** A fetched word that is already upper case reaches the game unchanged. */
  lemma ProvidedWordKeepsUpperWord(w: string)
    requires IsWord(w)
    ensures ServiceContract(Fetched(w))
    ensures ProvidedWord(Fetched(w)) == w
  {
    ToUpperWordKeepsWord(w);
  }
}
