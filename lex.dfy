/** JavaScript's relational operators on two strings: the IsLessThan abstract
    operation of ECMAScript compares code unit by code unit. For the ASCII
    strings of the order table a code unit is a `char`. */
module Lex {

  /** `x < y` on strings: `x` is a proper prefix of `y`, or at the first
      position where they differ `x` has the smaller character. */
  predicate Less(x: string, y: string)
    decreases |x|
  {
    if |y| == 0 then false
    else if |x| == 0 then true
    else if x[0] != y[0] then x[0] < y[0]
    else Less(x[1..], y[1..])
  }

  /** No string is less than itself. */
  lemma {:induction false} Irreflexive(x: string)
    ensures !Less(x, x)
    decreases |x|
  {
    if |x| > 0 {
      Irreflexive(x[1..]);
    }
  }

  lemma {:induction false} Transitive(x: string, y: string, z: string)
    requires Less(x, y) && Less(y, z)
    ensures Less(x, z)
    decreases |x|
  {
    if |x| > 0 && x[0] == y[0] && y[0] == z[0] {
      Transitive(x[1..], y[1..], z[1..]);
    }
  }

  /** Any two strings are equal or one of them is less than the other. */
  lemma {:induction false} Trichotomous(x: string, y: string)
    ensures x == y || Less(x, y) || Less(y, x)
    decreases |x|
  {
    if |x| > 0 && |y| > 0 && x[0] == y[0] {
      Trichotomous(x[1..], y[1..]);
      if x[1..] == y[1..] {
        assert x == [x[0]] + x[1..] && y == [y[0]] + y[1..];
      }
    }
  }

  lemma Asymmetric(x: string, y: string)
    requires Less(x, y)
    ensures !Less(y, x)
  {
    if Less(y, x) {
      Transitive(x, y, x);
      Irreflexive(x);
    }
  }

  /** Strings that agree up to position `k` and differ there are ordered by
      their characters at `k`. */
  lemma {:induction false} LessAtFirstDifference(x: string, y: string, k: nat)
    requires k < |x| && k < |y| && x[..k] == y[..k] && x[k] < y[k]
    ensures Less(x, y)
    decreases k
  {
    if k > 0 {
      assert x[0] == x[..k][0] == y[..k][0] == y[0];
      assert x[1..][..k - 1] == x[..k][1..] == y[..k][1..] == y[1..][..k - 1];
      LessAtFirstDifference(x[1..], y[1..], k - 1);
    }
  }
}
