/**
 * The meaning of the adapter on finite sequences: the inclusive take-until
 * prefix, the exclusive take-while prefix it is compared with, and the index
 * of the first element that satisfies a predicate.
 */
module Sequences {

  /** The negation of a predicate. */
  function Not<T>(p: T -> bool): T -> bool
  {
    x => !p(x)
  }

  /** The index of the first element of s that satisfies p, or |s| when none does. */
  function FirstMatch<T>(s: seq<T>, p: T -> bool): (k: nat)
    ensures k <= |s|
    ensures forall i :: 0 <= i < k ==> !p(s[i])
    ensures k < |s| ==> p(s[k])
  {
    if s == [] || p(s[0]) then 0 else 1 + FirstMatch(s[1..], p)
  }

  /**
   * Inclusive take-until: the elements of s up to and including the first
   * one that satisfies p, or all of s when none does.
   */
  function TakeUntil<T>(s: seq<T>, p: T -> bool): seq<T>
  {
    if s == [] then []
    else if p(s[0]) then [s[0]]
    else [s[0]] + TakeUntil(s[1..], p)
  }

  /** Exclusive take-while: the longest prefix of s whose elements all satisfy q. */
  function TakeWhile<T>(s: seq<T>, q: T -> bool): seq<T>
  {
    if s == [] || !q(s[0]) then [] else [s[0]] + TakeWhile(s[1..], q)
  }

  /**
   * Take-until yields exactly the prefix of s that ends at the first element
   * satisfying p, that element included, and the whole of s when no element does.
   */
  lemma {:induction false} TakeUntilIsPrefixThroughFirstMatch<T>(s: seq<T>, p: T -> bool)
    ensures TakeUntil(s, p) == if FirstMatch(s, p) < |s| then s[..FirstMatch(s, p) + 1] else s
  {
    if s != [] && !p(s[0]) {
      TakeUntilIsPrefixThroughFirstMatch(s[1..], p);
      var k := FirstMatch(s[1..], p);
      if k < |s[1..]| {
        assert s[..k + 2] == [s[0]] + s[1..][..k + 1];
      } else {
        assert s == [s[0]] + s[1..];
      }
    }
  }

  /** Take-until never yields more than its input, and every element but the last fails p. */
  lemma {:induction false} TakeUntilShape<T>(s: seq<T>, p: T -> bool)
    ensures |TakeUntil(s, p)| <= |s|
    ensures TakeUntil(s, p) == s[..|TakeUntil(s, p)|]
    ensures forall i :: 0 <= i < |TakeUntil(s, p)| - 1 ==> !p(TakeUntil(s, p)[i])
    ensures |TakeUntil(s, p)| < |s| ==> TakeUntil(s, p) != [] && p(TakeUntil(s, p)[|TakeUntil(s, p)| - 1])
    ensures (exists i :: 0 <= i < |s| && p(s[i])) <==> TakeUntil(s, p) != [] && p(TakeUntil(s, p)[|TakeUntil(s, p)| - 1])
  {
    TakeUntilIsPrefixThroughFirstMatch(s, p);
    var k := FirstMatch(s, p);
    if k < |s| {
      assert TakeUntil(s, p)[k] == s[k];
    }
  }

  /**
   * Take-until with p is take-while with "not p" followed by one more
   * element: the first one satisfying p, when the sequence has one.
   */
  lemma {:induction false} TakeUntilIsInclusiveTakeWhile<T>(s: seq<T>, p: T -> bool)
    ensures |TakeWhile(s, Not(p))| <= |s|
    ensures |TakeWhile(s, Not(p))| < |s| ==> p(s[|TakeWhile(s, Not(p))|])
    ensures |TakeWhile(s, Not(p))| < |s| <==> exists i :: 0 <= i < |s| && p(s[i])
    ensures TakeUntil(s, p) ==
      var w := TakeWhile(s, Not(p));
      if |w| < |s| then w + [s[|w|]] else w
  {
    if s != [] && !p(s[0]) {
      TakeUntilIsInclusiveTakeWhile(s[1..], p);
      var w := TakeWhile(s[1..], Not(p));
      assert TakeWhile(s, Not(p)) == [s[0]] + w;
      if |w| < |s[1..]| {
        assert [s[0]] + (w + [s[1..][|w|]]) == ([s[0]] + w) + [s[|w| + 1]];
      } else {
        assert forall i :: 1 <= i < |s| ==> s[i] == s[1..][i - 1];
      }
    }
  }

  /** Sequence concatenation is associative. */
  lemma AppendAssoc<T>(a: seq<T>, b: seq<T>, c: seq<T>)
    ensures (a + b) + c == a + (b + c)
  {
  }
}
