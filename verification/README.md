# shuffled — a Dafny model of `ShuffledIter`

`ShuffledIter` (src/lib.rs) is an iterator over a borrowed slice. It yields
references to the slice's elements in shuffled order. It shuffles lazily: each
call of `next` performs one step of a partial Fisher–Yates shuffle. It asks the
random number generator for one value per element produced, and for nothing
once the slice is exhausted.

The model lives in `shuffled.dfy`, module `Shuffled`. Its pieces:

- `ShuffledIter` is a class. Its fields are `state` (the scaffold of
  references not yet produced) and `rng` (the generator).
- A reference `&'a T` into the slice is modelled as the position it points at
  (`Ref`, a `nat`). The slice is an immutable `seq<T>`, and `Deref` turns
  positions back into elements.
- The generator is an oracle. `Next(draw)` receives the value that
  `gen_range(0, top + 1)` returned. It requires `draw < |state|` whenever the
  scaffold is non-empty, which is the range contract of `gen_range`.
- The generator's state is modelled as the history of its requests: one
  `Draw(bound, value)` is recorded per call that draws.
- A ghost field `emitted` records the references produced so far.

One call of `next` is specified by the function `Step`; `Steps` runs several
successful calls. The class invariant `Invariant` says three things:

- the k-th request asked for the range [0, n - k);
- the scaffold and the references produced are exactly what `Steps` gives
  from the construction-time scaffold under the recorded draws;
- from there the lemmas derive conservation, absence of duplicates and the
  full-drain permutation property.

## Model

| member | source | states |
|---|---|---|
| Shuffled.ShuffledIter.ShuffledBy | src/lib.rs:31-34 | The scaffold holds every position 0..n-1 in slice order. No draw has been made and nothing has been produced. The invariant holds. |
| Shuffled.Positions | src/lib.rs:32 | The construction-time scaffold has one entry per element, and entry i refers to element i. |
| Shuffled.PositionsDistinct | src/lib.rs:32 | Every position below n occurs exactly once in the construction-time scaffold, and no other position occurs. |
| Shuffled.ShuffledIter.Next | src/lib.rs:42-53 | The result and the new scaffold are those of `Step` on the old scaffold. A successful call appends exactly one request, with bound equal to the pre-call length (top + 1). An empty scaffold returns None and leaves the scaffold and the generator untouched. The invariant is preserved. |
| Shuffled.Step | src/lib.rs:42-53 | The result is None exactly when the scaffold is empty, and the scaffold then stays empty, so exhaustion is terminal. Otherwise the scaffold shrinks by exactly one. |
| Shuffled.StepUpdate | src/lib.rs:46-51 | If j < top: the result is the old entry j, slot j receives the old last entry, and every other slot below top is unchanged. If j == top: the result is the old last entry and the prefix below top is unchanged. |
| Shuffled.StepIsSwapRemove | src/lib.rs:43-52 | Popping and then overwriting slot j equals the textbook step: exchange slots j and n-1, then remove and return the last slot. |
| Shuffled.StepConserves | src/lib.rs:43-52 | A successful call conserves the multiset: the old scaffold equals the new scaffold plus the produced reference. |
| Shuffled.StepPreservesDistinct | src/lib.rs:43-52 | A duplicate-free scaffold stays duplicate-free, and the produced reference is no longer in it. |
| Shuffled.Steps | src/lib.rs:39-53 | k successful calls produce k references and shrink the scaffold by k. Produced plus remaining is the starting multiset. |
| Shuffled.StepsSnoc | src/lib.rs:42-53 | One more successful call extends a run by one `Step` on the scaffold the run left behind. The extra draw lies in [0, remaining length). |
| Shuffled.FullDrain | src/lib.rs:39-53 | After n calls on an n-element slice the scaffold is empty and the next call returns None. The n produced references are distinct, with no two slots equal, all in bounds, and each position is produced exactly once. |
| Shuffled.FullDrainElements | src/lib.rs:39-53 | The elements produced by a full drain are a permutation of the slice, duplicates included. |
| Shuffled.InvariantMeans | src/lib.rs:9-12 | Under the invariant, the scaffold plus the produced references are the construction-time scaffold, and nothing is held or produced twice. The scaffold length is n minus the number of draws taken, one draw per produced element. |
| Shuffled.InvariantDrained | src/lib.rs:39-53 | Once as many draws as the slice has elements have been taken, the iterator's scaffold is empty and every position has been produced exactly once. The elements produced are a permutation of the slice, duplicates included. |
| Shuffled.StepPreservesInvariant | src/lib.rs:43-52 | A successful call keeps the invariant. It records the produced reference and a request whose bound is the pre-call length. |
| Shuffled.DerefPermutation | src/lib.rs:40 | Dereferencing two rearrangements of the same references yields rearrangements of the same elements. |

## Left out

- The `rand` crate, `ThreadRng` and the convenience constructor `shuffled()` (src/lib.rs:5, 25-27) are foreign code.
  - The generator is an oracle whose answer arrives as `Next`'s `draw` argument.
  - Its promise to return a value in [0, top + 1) is taken as a precondition.
  - `shuffled()` differs from `shuffled_by` only in which generator it passes.
- Shuffled.ShuffledIter.Next: `draw < |state|` is required of the caller rather than established, because it is the generator's contract and not the iterator's.
- Statistical uniformity over the n! orderings is a probabilistic property that a deterministic contract cannot state. The model proves only that every run is a permutation.
- Lifetimes and borrowing (`'a`, `&'a T`) are not modelled. References are positions into an immutable sequence, so aliasing of the slice is not captured.
- The scaffold is a `seq` reassigned by `Next`, not a growable buffer updated in place. The amortised cost of `pop` and the capacity of the buffer are not modelled.
- examples/samples.rs only prints samples. It imports a trait name that src/lib.rs does not define, so it has no logic to model.
- The standard iterator adaptors it uses (`take`, `cloned`) are left out.
- The `Shuffled` extension trait is modelled only through its one implementation for slices (src/lib.rs:30-35).
- src/lib.rs defines no `size_hint`, `count` or `last` override, so the model has none.
  - `count` and `last` default to folding over `next`, so `Steps` covers them, one draw per element.
  - The default `size_hint` reports `(0, None)` and is not modelled.
  - `|state| == n - |rng|` (`InvariantMeans`) holds in the model, but the program does not report it.
