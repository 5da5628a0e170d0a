/** `String.prototype.localeCompare`, taken here as plain lexicographic
    order on characters: negative when `a` sorts first, zero for equal
    strings, positive when `b` sorts first. */
module Collation {

  function LocaleCompare(a: string, b: string): (c: int)
    ensures -1 <= c <= 1
    decreases |a|
  {
    if a == [] && b == [] then 0
    else if a == [] then -1
    else if b == [] then 1
    else if a[0] < b[0] then -1
    else if b[0] < a[0] then 1
    else LocaleCompare(a[1..], b[1..])
  }

  /** `a.localeCompare(b) < 0`. */
  predicate Precedes(a: string, b: string) {
    LocaleCompare(a, b) < 0
  }

  /** Only equal strings compare as zero. */
  lemma {:induction false} CompareZero(a: string, b: string)
    ensures LocaleCompare(a, b) == 0 <==> a == b
    decreases |a|
  {
    if a != [] && b != [] && a[0] == b[0] {
      CompareZero(a[1..], b[1..]);
      assert a == [a[0]] + a[1..] && b == [b[0]] + b[1..];
    }
  }

  /** Swapping the operands negates the comparison. */
  lemma {:induction false} CompareSwap(a: string, b: string)
    ensures LocaleCompare(b, a) == -LocaleCompare(a, b)
    decreases |a|
  {
    if a != [] && b != [] && a[0] == b[0] {
      CompareSwap(a[1..], b[1..]);
    }
  }

  lemma {:induction false} PrecedesTransitive(a: string, b: string, c: string)
    requires Precedes(a, b) && Precedes(b, c)
    ensures Precedes(a, c)
    decreases |a|
  {
    if a != [] && b != [] && c != [] && a[0] == b[0] && b[0] == c[0] {
      PrecedesTransitive(a[1..], b[1..], c[1..]);
    }
  }

  /** Precedence is a strict total order on strings. */
  lemma PrecedesTotal(a: string, b: string)
    ensures !Precedes(a, a)
    ensures a != b ==> (Precedes(a, b) <==> !Precedes(b, a))
  {
    CompareZero(a, a);
    CompareZero(a, b);
    CompareSwap(a, b);
  }
}
