/**
 * Words of the game and the order the dictionary tree keeps them in.
 *
 * A word is a sequence of letters of the fixed length chosen when the
 * program starts. Letters are the characters words may hold: lower- and
 * upper-case letters, digits, '-' and '_', all with codes between 45 and 122,
 * below `Sigma`, the size of the per-letter tables.
 */
module Words {

  /** Number of entries of every per-letter table (`min_times`, `exact_times`, `count`). */
  const Sigma: int := 128

  predicate IsWordChar(c: char) {
    'a' <= c <= 'z' || 'A' <= c <= 'Z' || '0' <= c <= '9' || c == '-' || c == '_'
  }

  type Letter = c: char | IsWordChar(c) witness 'a'

  /** Codes in the range the per-letter loops of `main.c` scan; every letter's code is one. */
  predicate Scanned(c: int) {
    45 <= c < 123
  }

  type Word = seq<Letter>

  /** The sign of `strcmp(a, b)`: lexicographic by character code, a proper prefix first. */
  function Cmp(a: Word, b: Word): (r: int)
    ensures -1 <= r <= 1
  {
    if a == [] && b == [] then 0
    else if a == [] then -1
    else if b == [] then 1
    else if a[0] < b[0] then -1
    else if b[0] < a[0] then 1
    else Cmp(a[1..], b[1..])
  }

  predicate Less(a: Word, b: Word) {
    Cmp(a, b) < 0
  }

  lemma {:induction false} CmpZero(a: Word, b: Word)
    ensures Cmp(a, b) == 0 <==> a == b
  {
    if a != [] && b != [] && a[0] == b[0] {
      CmpZero(a[1..], b[1..]);
      assert a == [a[0]] + a[1..] && b == [b[0]] + b[1..];
    }
  }

  lemma {:induction false} CmpFlip(a: Word, b: Word)
    ensures Cmp(a, b) == -Cmp(b, a)
  {
    if a != [] && b != [] && a[0] == b[0] {
      CmpFlip(a[1..], b[1..]);
    }
  }

  lemma {:induction false} LessTransitive(a: Word, b: Word, c: Word)
    requires Less(a, b) && Less(b, c)
    ensures Less(a, c)
  {
    if a != [] && b != [] && c != [] && a[0] == b[0] && b[0] == c[0] {
      LessTransitive(a[1..], b[1..], c[1..]);
    }
  }

  /** `Less` is a strict total order on words. */
  lemma LessTotal(a: Word, b: Word)
    ensures !Less(a, a)
    ensures Less(a, b) ==> !Less(b, a)
    ensures a == b || Less(a, b) || Less(b, a)
  {
    CmpZero(a, a);
    CmpZero(a, b);
    CmpFlip(a, b);
  }

  /** Number of positions of `w` holding the letter with code `c`. */
  function Count(w: seq<Letter>, c: int): (n: nat)
    ensures n <= |w|
  {
    if w == [] then 0
    else Count(w[..|w| - 1], c) + (if w[|w| - 1] as int == c then 1 else 0)
  }

  /** A code outside the scanned range occurs in no word. */
  lemma {:induction false} CountUnscanned(w: seq<Letter>, c: int)
    requires !Scanned(c)
    ensures Count(w, c) == 0
  {
    if w != [] {
      CountUnscanned(w[..|w| - 1], c);
    }
  }

  function Min(a: int, b: int): int {
    if a < b then a else b
  }

  function Max(a: int, b: int): int {
    if a < b then b else a
  }
}
