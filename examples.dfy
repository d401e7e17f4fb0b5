/**
 * Callers of the adapter: draining it as a collecting consumer does, the
 * result of draining over any finite source, the fused pass-through, a source
 * that resumes after an end report, and the repository's two documented
 * examples and its unit test.
 */
module Examples {
  import opened Wrappers
  import opened Sources
  import opened Adapter
  import Sequences

  /** Pulls until the first end report and returns what was yielded. */
  method Collect<T>(it: TakeUntil<T>) returns (out: seq<T>)
    requires it.Valid()
    modifies it, it.iter
    ensures it.Valid()
    ensures out == old(it.Pending())
    ensures it.calls == old(it.calls) + out
    ensures old(it.IsFused()) ==> it.Finished()
    // the source is consumed up to the accepted element, or through its end report
    ensures |out| <= |old(it.iter.items)|
    ensures it.flag ==> it.iter.items == old(it.iter.items)[|out|..]
    ensures !it.flag ==> it.iter.items == Tail(old(it.iter.items)[|out|..])
  {
    ghost var pending, calls, fused, items := it.Pending(), it.calls, it.IsFused(), it.iter.items;
    out := [];
    while true
      invariant it.Valid()
      invariant |out| <= |items| && it.iter.items == items[|out|..]
      invariant pending == out + it.Pending()
      invariant it.calls == calls + out
      invariant fused ==> it.IsFused()
      decreases |it.Pending()|
    {
      ghost var rest := it.Pending();
      var r := it.Next();
      if r.None? {
        assert rest == [];
        return;
      }
      assert rest == [r.value] + it.Pending();
      Sequences.AppendAssoc(out, [r.value], it.Pending());
      Sequences.AppendAssoc(calls, out, [r.value]);
      out := out + [r.value];
    }
  }

  /**
   * Over a finite source, draining the adapter yields the inclusive
   * take-until prefix, and the predicate is called once on each yielded
   * element and on nothing else.
   */
  method TakeUntilOfSeq<T>(s: seq<T>, pred: T -> bool) returns (out: seq<T>, ghost called: seq<T>)
    ensures out == Sequences.TakeUntil(s, pred)
    ensures called == out
  {
    var src := new Source(Lift(s));
    var it := new TakeUntil(src, pred);
    RunOfLift(s);
    out := Collect(it);
    called := it.calls;
  }

  /** Once a fused adapter has reported the end, a further pull reports it again. */
  method DrainThenPull<T>(it: TakeUntil<T>) returns (out: seq<T>, later: Option<T>)
    requires it.Valid() && it.IsFused()
    modifies it, it.iter
    ensures it.Valid()
    ensures out == old(it.Pending())
    ensures it.calls == old(it.calls) + out
    ensures later.None? && it.Finished()
  {
    out := Collect(it);
    later := it.Next();
  }

  /**
   * A source that reports the end and then resumes is pulled again: the end
   * report does not terminate the adapter.
   */
  method ResumingSource() returns (first: Option<int>, second: Option<int>)
    ensures first == None && second == Some(7)
  {
    var src := new Source([None, Some(7)]);
    var it := new TakeUntil(src, (x: int) => x > 0);
    first := it.Next();
    second := it.Next();
  }

  /** Three elements and an always-true predicate: at most three before the first pull, zero after it. */
  method SizeHintZero() returns (before: (nat, Option<nat>), after: (nat, Option<nat>))
    ensures before == (0, Some(3))
    ensures after == (0, Some(0))
  {
    var v: seq<bv8> := [0, 1, 2];
    var src := new Source(Lift(v));
    var it := new TakeUntil(src, (_: bv8) => true);
    RunOfLift(v);
    before := it.SizeHint();
    var _ := it.Next();
    after := it.SizeHint();
  }

  /** The bytes of one base-128 varint: up to and including the first byte whose top bit is clear. */
  method Varint() returns (bytes: seq<bv8>)
    ensures bytes == [0xAC, 0x02]
  {
    var input: seq<bv8> := [0xAC, 0x02, 0x81];
    var topBitClear := (b: bv8) => b & 0x80 == 0;
    ghost var called;
    bytes, called := TakeUntilOfSeq(input, topBitClear);
    assert input[1..][1..] == [0x81];
  }

  /** Take-until keeps the first non-positive element that take-while drops. */
  method SignFlip() returns (inclusive: seq<int>, exclusive: seq<int>)
    ensures inclusive == [1, 2, 3, 4, -5]
    ensures exclusive == [1, 2, 3, 4]
  {
    var items := [1, 2, 3, 4, -5, -6, -7, -8];
    ghost var called;
    inclusive, called := TakeUntilOfSeq(items, (x: int) => x <= 0);
    exclusive := Sequences.TakeWhile(items, (x: int) => x > 0);
  }
}
