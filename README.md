# take-until, modelled in Dafny

A model of the `take_until` iterator adapter of the Rust crate `take-until`.
The adapter wraps a source iterator and a predicate. It passes the source's
elements through unchanged and stops right after the first element that the
predicate accepts, so that element is included. It is an inclusive
`take_while` with the condition negated.

Layout:

- `wrappers.dfy` (module `Wrappers`): `Option`, the reply of one pull.
- `sequences.dfy` (module `Sequences`): what the adapter means on a finite sequence.
  `TakeUntil` is the inclusive prefix, `TakeWhile` is the exclusive prefix of the
  standard library, and `FirstMatch` is the index of the first accepted element.
  The lemmas relating them live here too.
- `sources.dfy` (module `Sources`): the wrapped iterator `I`. A `Source` is a
  script of replies, one per pull. A `None` inside the script is an end report
  after which the source resumes, as an iterator that is not fused may do. Once the
  script is used up, every pull reports the end. `Lift(s)` is the script of a
  slice iterator over `s`. `FusedScript` is the behaviour `FusedIterator`
  promises: no element after the first end report.
- `adapter.dfy` (module `Adapter`): the struct `TakeUntil`, as a class with the
  fields `iter`, `pred` (the Rust field `predicate`; that word is a Dafny keyword)
  and `flag`. A ghost log `calls` records every element the predicate was called
  on. `Valid()` holds throughout: every logged call but the last returned false,
  and `flag` is set exactly when the last one returned true. `Pending()` is the
  abstract state, meaning the elements the adapter yields before its next end
  report.
- `examples.dfy` (module `Examples`): callers of the adapter.
  - `Collect` drains the adapter as `collect()` does.
  - `TakeUntilOfSeq` is the all-inputs result of draining over a finite source.
  - `DrainThenPull` states the behaviour of the `FusedIterator` impl.
  - `ResumingSource` shows a source that resumes after an end report. The repository neither documents nor tests this case; it follows from the code of `next`.
  - `Varint` and `SignFlip` are the two documented examples, and `SizeHintZero` is the unit test, each stated as postconditions.

The predicate is a total function `T -> bool`. Each call is logged in `calls`,
so the contracts can say how often the predicate runs and on which elements.

## Model

| member | source | states |
|---|---|---|
| `Adapter.TakeUntil.constructor` | src/take_until.rs:56-62 | The new adapter holds the given source and predicate, with `flag` down and no predicate call. It does not touch the source, since the constructor has no modifies clause. Its pending output is the take-until prefix of what the source yields before its first end report. |
| `Adapter.TakeUntil.Next` | src/take_until.rs:89-100 | Once `flag` is set, the result is `None`, and the source, the call log and the flag are unchanged. Otherwise the source is pulled exactly once and its reply is returned unchanged. For an element `x`, the predicate is called once, on `x`, and `flag` becomes `pred(x)`. For an end report, `flag` stays down and the predicate is not called. In abstract terms, `Next` yields the first pending element, or `None` when nothing is pending. For fused passthrough, a finished adapter stays finished and keeps returning `None`; fusedness is preserved; and for a fused adapter, a `None` means it has finished. |
| `Adapter.TakeUntil.SizeHint` | src/take_until.rs:102-109 | The lower bound is always 0. After termination the upper bound is `Some(0)`. Before termination it is the source's upper bound unchanged. Whenever there is an upper bound, it is at least the number of elements still to come. |
| `Examples.DrainThenPull` | src/take_until.rs:112-117 | Over a fused source, or a terminated adapter, draining gives the pending elements and logs exactly those predicate calls. A further pull then returns `None`, and the adapter stays valid and finished, so every later `Next` returns `None` too. |
| `Examples.Collect` | src/take_until.rs:41-44 | Pulling until the first `None` yields exactly the pending elements. Each of them went through the predicate once, in order, and nothing else did. The source is consumed exactly through the accepted element; when nothing was accepted, it is consumed through its end report. |
| `Examples.TakeUntilOfSeq` | src/take_until.rs:64-66 | Over a slice source `s`, the adapter yields `Sequences.TakeUntil(s, pred)`. The predicate is called on exactly the yielded elements, so an empty source yields nothing and never calls it. |
| `Examples.ResumingSource` | src/take_until.rs:90-98 | If the source reports the end, `flag` stays down. When the source is pulled again and resumes, its next element is passed through. |
| `Examples.SizeHintZero` | src/take_until.rs:123-129 | Three elements and an always-true predicate: the hint is `(0, Some(3))` before the first pull and `(0, Some(0))` after it. |
| `Examples.Varint` | src/take_until.rs:21-29 | On the bytes `0b1010_1100, 0b0000_0010, 0b1000_0001` with "top bit clear", the adapter yields the first two bytes. |
| `Examples.SignFlip` | src/take_until.rs:36-46 | On `[1, 2, 3, 4, -5, -6, -7, -8]`, take-until `x <= 0` yields `[1, 2, 3, 4, -5]` and take-while `x > 0` yields `[1, 2, 3, 4]`. |
| `Sequences.FirstMatch` | src/take_until.rs:64-66 | The index is at most the length. No earlier element is accepted, and the element at that index is accepted whenever the index is in range. |
| `Sequences.TakeUntilIsPrefixThroughFirstMatch` | src/take_until.rs:64-66 | Take-until is the prefix that ends at the first accepted element, that element included. When no element is accepted, it is the whole input. |
| `Sequences.TakeUntilShape` | src/take_until.rs:64-66 | Take-until is a prefix of its input and never longer than it. No element before its last is accepted. Its last element is accepted exactly when some input element is, and it is shorter than the input only in that case. |
| `Sequences.TakeUntilIsInclusiveTakeWhile` | src/take_until.rs:10-12 | Take-until with `p` equals take-while with "not p", followed by the element where take-while stopped. Take-while stops before the end exactly when some element satisfies `p`, and the element it stops at satisfies `p`. Otherwise the two are equal. |
| `Sources.Lift` | src/take_until.rs:124-125 | A slice iterator over `s` replies `Some(s[i])` at pull `i`, for each index of `s`. |
| `Sources.RunOfLift` | src/take_until.rs:124-125 | A slice iterator over `s` yields exactly `s` before it first reports the end. |

## Left out

- The `fmt::Debug` impl (src/take_until.rs:73-80): formatting goes through `core::fmt` and has no effect on behaviour.
- Generic and trait plumbing: the `Sized` bounds, the blanket `impl<I> TakeUntilExt<P> for I`, and the `FusedIterator` marker. The marker is modelled only by its behaviour: `IsFused`, `Finished`, `Next`'s fused clauses and `DrainThenPull`.
- src/lib.rs: it holds crate docs, lint settings and a re-export. Its examples repeat those of src/take_until.rs.
- Closure side effects: panics and captured mutable state are not modelled. The predicate is a pure function, and the ghost log `calls` records its invocations.
- The `fold` that decodes the varint to 300 is caller arithmetic and is not modelled. `Examples.Varint` states only which bytes the adapter yields.
- Source iterators in the model always give an exact size hint, `(n, Some(n))`, where `n` is the number of elements before their next end report. Sources with a loose hint or an unknown (`None`) upper bound do not occur. The adapter's `SizeHint` contract passes on whatever upper bound the source reports, but in the model that bound is always exact.
- Infinite sources, such as `(0..)`, are not modelled: a source is a finite script of replies.
- `usize` is modelled as `nat`. The adapter does no arithmetic on sizes, so its width does not matter.
- Ownership: Rust moves the source into the adapter. Dafny references can alias, and the model does not stop other code from holding the `Source`.
