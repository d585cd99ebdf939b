/** Words over an indexed alphabet and ultimately periodic words (lassos). */
module Words {

  /** A finite word: the indices of its letters in the alphabet. */
  type Word = seq<int>

  /** The infinite word prefix . suffix^omega, kept as its two finite parts.
      A lasso whose suffix is empty denotes no infinite word. */
  datatype Lasso = Lasso(prefix: Word, suffix: Word)

  datatype Option<T> = None | Some(value: T)

  /** The index of letter `c` in an alphabet listed in index order: the first
      position holding `c`, or -1 when the alphabet does not contain it. */
  function IndexOf(letters: seq<char>, c: char): (r: int)
    ensures -1 <= r < |letters|
    ensures r == -1 <==> c !in letters
    ensures 0 <= r ==> letters[r] == c && c !in letters[..r]
  {
    if |letters| == 0 then -1
    else if letters[0] == c then 0
    else
      var k := IndexOf(letters[1..], c);
      if k == -1 then -1
      else
        assert letters[..k + 1] == [letters[0]] + letters[1..][..k];
        k + 1
  }
}
