/**
 * The wrapped source iterator. A source is a script of replies, one per pull,
 * front first; once the script is used up every further pull reports the end.
 * A None inside the script is an end report after which the source resumes,
 * which an iterator that is not fused may do.
 */
module Sources {
  import opened Wrappers

  /** The elements a script yields before it first reports the end. */
  function Run<T>(items: seq<Option<T>>): seq<T>
  {
    if items == [] || items[0].None? then [] else [items[0].value] + Run(items[1..])
  }

  /** The script of a source that yields the elements of s and then ends, as a slice iterator does. */
  function Lift<T>(s: seq<T>): (items: seq<Option<T>>)
    ensures |items| == |s|
    ensures forall i :: 0 <= i < |s| ==> items[i] == Some(s[i])
  {
    if s == [] then [] else [Some(s[0])] + Lift(s[1..])
  }

  /** A source made from a finite sequence yields exactly that sequence before it ends. */
  lemma {:induction false} RunOfLift<T>(s: seq<T>)
    ensures Run(Lift(s)) == s
  {
    if s != [] {
      RunOfLift(s[1..]);
      assert Lift(s)[1..] == Lift(s[1..]);
    }
  }

  /** The reply to the next pull. */
  function Head<T>(items: seq<Option<T>>): Option<T>
  {
    if items == [] then None else items[0]
  }

  /** The script left after one pull. */
  function Tail<T>(items: seq<Option<T>>): seq<Option<T>>
  {
    if items == [] then [] else items[1..]
  }

  /** Every further pull reports the end. */
  ghost predicate ExhaustedScript<T>(items: seq<Option<T>>)
  {
    items == [] || (items[0].None? && ExhaustedScript(items[1..]))
  }

  /** Once the script reports the end, it reports the end on every later pull. */
  ghost predicate FusedScript<T>(items: seq<Option<T>>)
  {
    items == [] || if items[0].None? then ExhaustedScript(items[1..]) else FusedScript(items[1..])
  }

  class Source<T> {
    var items: seq<Option<T>>

    constructor (items: seq<Option<T>>)
      ensures this.items == items
    {
      this.items := items;
    }

    method Next() returns (r: Option<T>)
      modifies this
      ensures r == Head(old(items)) && items == Tail(old(items))
    {
      if items == [] {
        r := None;
      } else {
        r := items[0];
        items := items[1..];
      }
    }

    /** An exact hint: the number of elements yielded before the next end report. */
    function SizeHint(): (nat, Option<nat>)
      reads this
    {
      (|Run(items)|, Some(|Run(items)|))
    }

    ghost predicate Fused()
      reads this
    {
      FusedScript(items)
    }

    ghost predicate Exhausted()
      reads this
    {
      ExhaustedScript(items)
    }
  }
}
