/**
 * The inclusive take-until adapter: it passes the elements of its source
 * through unchanged and stops right after the first one its predicate accepts.
 */
module Adapter {
  import opened Wrappers
  import opened Sources
  import Sequences

  class TakeUntil<T> {
    /** The wrapped source, owned by the adapter. */
    const iter: Source<T>
    /** The stopping test. */
    const pred: T -> bool
    /** Set once the predicate has accepted an element; the adapter is then terminated. */
    var flag: bool
    /** Every element the predicate has been called on, in call order. */
    ghost var calls: seq<T>

    /**
     * Every call of the predicate but the last returned false, and the
     * adapter is terminated exactly when the last call returned true.
     */
    ghost predicate Valid()
      reads this
    {
      && (forall i :: 0 <= i < |calls| - 1 ==> !pred(calls[i]))
      && flag == (calls != [] && pred(calls[|calls| - 1]))
    }

    /** The elements the adapter yields before it next reports the end. */
    ghost function Pending(): seq<T>
      reads this, iter
    {
      if flag then [] else Sequences.TakeUntil(Run(iter.items), pred)
    }

    /** Every further pull reports the end. */
    ghost predicate Finished()
      reads this, iter
    {
      flag || iter.Exhausted()
    }

    /** Once a pull reports the end, every later pull does too. */
    ghost predicate IsFused()
      reads this, iter
    {
      flag || iter.Fused()
    }

    /** Wrapping neither pulls from the source nor calls the predicate. */
    constructor (iter: Source<T>, pred: T -> bool)
      ensures this.iter == iter && this.pred == pred
      ensures !flag && calls == []
      ensures Valid()
      ensures Pending() == Sequences.TakeUntil(Run(iter.items), pred)
    {
      this.iter := iter;
      this.pred := pred;
      flag := false;
      calls := [];
    }

    method Next() returns (r: Option<T>)
      requires Valid()
      modifies this, iter
      ensures Valid()
      // terminated: end of sequence, and the source, the predicate and the flag are left alone
      ensures old(flag) ==> r.None? && flag && calls == old(calls) && iter.items == old(iter.items)
      // otherwise exactly one pull, whose reply is passed through unchanged
      ensures !old(flag) ==> r == Head(old(iter.items)) && iter.items == Tail(old(iter.items))
      // an element is tested once, and the adapter terminates iff it is accepted
      ensures !old(flag) && r.Some? ==> calls == old(calls) + [r.value] && flag == pred(r.value)
      // an exhausted source leaves the flag down and the predicate uncalled
      ensures !old(flag) && r.None? ==> !flag && calls == old(calls)
      // in terms of the elements still to come
      ensures old(Pending()) != [] ==> r == Some(old(Pending())[0]) && Pending() == old(Pending())[1..]
      ensures old(Pending()) == [] ==> r.None?
      // fused pass-through
      ensures old(Finished()) ==> r.None? && Finished()
      ensures old(IsFused()) ==> IsFused()
      ensures old(IsFused()) && r.None? ==> Finished()
    {
      if flag {
        r := None;
      } else {
        r := iter.Next();
        if r.Some? {
          calls := calls + [r.value];
          if pred(r.value) {
            flag := true;
          }
        }
      }
    }

    /**
     * No lower bound while running, since the predicate may stop the adapter
     * at any element; the source's upper bound while running; exactly zero
     * once terminated. The upper bound is never below what is still to come.
     */
    function SizeHint(): (r: (nat, Option<nat>))
      reads this, iter
      ensures r.0 == 0
      ensures flag ==> r.1 == Some(0)
      ensures !flag ==> r.1 == iter.SizeHint().1
      ensures r.1.Some? ==> |Pending()| <= r.1.value
    {
      if flag then (0, Some(0))
      else
        var (_, upper) := iter.SizeHint();
        Sequences.TakeUntilShape(Run(iter.items), pred);
        (0, upper)
    }
  }
}
