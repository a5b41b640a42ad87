/** The one string primitive the enqueuer relies on: Go's `strings.Contains`. */
module Strings {

  /** Whether `t` occurs in `s` as a contiguous run of characters. Every string contains "". */
  function Contains(s: string, t: string): bool
    decreases |s|
  {
    t <= s || (|s| > 0 && Contains(s[1..], t))
  }

  /** `t` sits in `s` starting at position `i`. */
  predicate OccursAt(s: string, t: string, i: int)
  {
    0 <= i && i + |t| <= |s| && s[i..i + |t|] == t
  }

  /** Whatever the search finds sits at some position of `s`. */
  lemma {:induction false} ContainsHasPosition(s: string, t: string)
    requires Contains(s, t)
    ensures exists i :: OccursAt(s, t, i)
    decreases |s|
  {
    if t <= s {
      assert OccursAt(s, t, 0);
    } else {
      ContainsHasPosition(s[1..], t);
      var i :| OccursAt(s[1..], t, i);
      assert s[i + 1..i + 1 + |t|] == s[1..][i..i + |t|];
      assert OccursAt(s, t, i + 1);
    }
  }

  /** An occurrence at any position is found by the search. */
  lemma {:induction false} PositionIsContained(s: string, t: string, i: int)
    requires OccursAt(s, t, i)
    ensures Contains(s, t)
    decreases i
  {
    if i == 0 {
      assert t <= s;
    } else {
      assert s[1..][i - 1..i - 1 + |t|] == s[i..i + |t|];
      PositionIsContained(s[1..], t, i - 1);
    }
  }

  /** The search finds exactly the positions where `t` sits inside `s`. */
  lemma ContainsIff(s: string, t: string)
    ensures Contains(s, t) <==> exists i :: OccursAt(s, t, i)
  {
    if Contains(s, t) {
      ContainsHasPosition(s, t);
    }
    forall i | OccursAt(s, t, i)
      ensures Contains(s, t)
    {
      PositionIsContained(s, t, i);
    }
  }

  /** An occurrence in `u` is still an occurrence once anything is put in front of `u`. */
  lemma {:induction false} ContainsAfterPrefix(s: string, u: string, t: string)
    requires Contains(u, t)
    ensures Contains(s + u, t)
    decreases |s|
  {
    if s != [] {
      assert (s + u)[1..] == s[1..] + u;
      ContainsAfterPrefix(s[1..], u, t);
    } else {
      assert s + u == u;
    }
  }

  /** A string shorter than `t` cannot contain it. */
  lemma {:induction false} ShorterContainsNothing(s: string, t: string)
    requires |s| < |t|
    ensures !Contains(s, t)
    decreases |s|
  {
    if |s| > 0 {
      ShorterContainsNothing(s[1..], t);
    }
  }
}
