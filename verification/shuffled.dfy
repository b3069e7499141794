/**
  A model of `ShuffledIter` (src/lib.rs): an iterator that yields the
  elements of a borrowed slice in shuffled order, performing one step of a
  partial Fisher-Yates shuffle per element, and asking the random number
  generator for one value only when an element is produced.

  A borrowed reference `&'a T` into the slice is modelled by the position it
  points at (`Ref`); the slice itself is an immutable `seq<T>`. The value
  that `gen_range(0, top + 1)` returns is supplied to `Next` as its `draw`
  argument; the generator's own state is modelled by the history of the
  requests made to it.
*/
module Shuffled {

  /** A reference into the source slice, modelled as the position it points at. */
  type Ref = nat

  datatype Option<T> = None | Some(value: T)

  /** One request to the generator: the exclusive upper bound asked for and the value returned. */
  datatype Draw = Draw(bound: nat, value: nat)

  /** The outcome of one production step: the item produced and the scaffold left behind. */
  datatype Stepped = Stepped(item: Option<Ref>, rest: seq<Ref>)

  /** The outcome of several successful production steps. */
  datatype Run = Run(produced: seq<Ref>, rest: seq<Ref>)

  /** No reference occurs more than once. */
  ghost predicate Distinct(s: seq<Ref>)
  {
    forall r :: multiset(s)[r] <= 1
  }

  /** In a duplicate-free sequence, different slots hold different references. */
  lemma DistinctSlots(s: seq<Ref>, i: nat, k: nat)
    requires Distinct(s)
    requires i < k < |s|
    ensures s[i] != s[k]
  {
    var front, middle, back := s[..i], s[i + 1..k], s[k + 1..];
    assert s == front + [s[i]] + middle + [s[k]] + back;
    assert multiset(s)[s[i]] >= 1 + if s[k] == s[i] then 1 else 0;
  }

  /** The scaffold built at construction: a reference to every element, in slice order. */
  function Positions(n: nat): (s: seq<Ref>)
    ensures |s| == n
    ensures forall i :: 0 <= i < n ==> s[i] == i
  {
    seq(n, i => i)
  }

  /** The construction-time scaffold is duplicate-free: each position occurs exactly once. */
  lemma {:induction false} PositionsDistinct(n: nat)
    ensures forall r: Ref :: multiset(Positions(n))[r] == if r < n then 1 else 0
    ensures Distinct(Positions(n))
  {
    if n == 0 {
      assert Positions(n) == [];
    } else {
      PositionsDistinct(n - 1);
      var last: Ref := n - 1;
      assert Positions(n) == Positions(last) + [last];
      assert multiset(Positions(n)) == multiset(Positions(last)) + multiset{last};
      forall r: Ref ensures multiset(Positions(n))[r] == if r < n then 1 else 0 {
        assert multiset(Positions(n))[r] == multiset(Positions(last))[r] + multiset{last}[r];
      }
    }
  }

  /** Every reference of `refs` points into a slice of length `n`. */
  ghost predicate InBounds(refs: seq<Ref>, n: nat)
  {
    forall i :: 0 <= i < |refs| ==> refs[i] < n
  }

  /** Dereferences every reference of `refs` in `source`. */
  function Deref<T>(source: seq<T>, refs: seq<Ref>): (r: seq<T>)
    requires InBounds(refs, |source|)
    ensures |r| == |refs|
  {
    if refs == [] then [] else [source[refs[0]]] + Deref(source, refs[1..])
  }

  /**
    One call of `next` on scaffold `s`, where `j` is the value the generator
    returns for the range [0, |s|). An empty scaffold yields nothing and takes
    no draw, so `j` is then irrelevant.
  */
  function Step(s: seq<Ref>, j: nat): (r: Stepped)
    requires s != [] ==> j < |s|
    // exhaustion: None exactly on an empty scaffold, which then stays as it is
    ensures r.item.None? <==> s == []
    ensures s == [] ==> r.rest == s
    // a successful step shrinks the scaffold by exactly one
    ensures s != [] ==> |r.rest| == |s| - 1
  {
    if s == [] then Stepped(None, s)
    else
      var last := s[|s| - 1];
      var top := |s| - 1;
      var state := s[..top];
      if j < top then Stepped(Some(state[j]), state[j := last])
      else Stepped(Some(last), state)
  }

  /**
    The exact update a successful step makes. With j below the new top, the old
    s[j] is produced, the old last entry fills slot j and every other slot keeps
    its entry; with j at the new top, the old last entry is produced and the
    rest of the scaffold is untouched.
  */
  lemma StepUpdate(s: seq<Ref>, j: nat)
    requires s != [] && j < |s|
    ensures j < |s| - 1 ==>
      && Step(s, j).item == Some(s[j])
      && Step(s, j).rest[j] == s[|s| - 1]
      && forall i :: 0 <= i < |s| - 1 && i != j ==> Step(s, j).rest[i] == s[i]
    ensures j == |s| - 1 ==>
      && Step(s, j).item == Some(s[|s| - 1])
      && Step(s, j).rest == s[..|s| - 1]
  {
  }

  /**
    The textbook formulation of one partial Fisher-Yates step: exchange slots j
    and |s| - 1, then remove and return the entry now in the last slot.
  */
  function SwapRemove(s: seq<Ref>, j: nat): (r: Stepped)
    requires j < |s|
    ensures r.item.Some? && |r.rest| == |s| - 1
  {
    var top := |s| - 1;
    var swapped := s[j := s[top]][top := s[j]];
    Stepped(Some(swapped[top]), swapped[..top])
  }

  /** Popping the last entry and writing it over slot j is the same as exchanging the two slots and truncating. */
  lemma StepIsSwapRemove(s: seq<Ref>, j: nat)
    requires j < |s|
    ensures Step(s, j) == SwapRemove(s, j)
  {
  }

  /** A successful step hands out one entry and keeps all the others: nothing is lost or duplicated. */
  lemma StepConserves(s: seq<Ref>, j: nat)
    requires s != [] && j < |s|
    ensures Step(s, j).item.Some?
    ensures multiset(s) == multiset(Step(s, j).rest) + multiset{Step(s, j).item.value}
  {
    var top := |s| - 1;
    assert s == s[..top] + [s[top]];
    if j < top {
      var prefix := s[..top];
      assert Step(s, j).rest == prefix[j := s[top]];
      assert multiset(prefix[j := s[top]]) == multiset(prefix) - multiset{prefix[j]} + multiset{s[top]};
    }
  }

  /** A successful step keeps a duplicate-free scaffold duplicate-free, and the produced entry leaves it. */
  lemma StepPreservesDistinct(s: seq<Ref>, j: nat)
    requires s != [] && j < |s|
    requires Distinct(s)
    ensures Step(s, j).item.Some?
    ensures Distinct(Step(s, j).rest)
    ensures Step(s, j).item.value !in Step(s, j).rest
  {
    StepConserves(s, j);
    var st := Step(s, j);
    assert multiset(s)[st.item.value] == multiset(st.rest)[st.item.value] + 1;
    forall r ensures multiset(st.rest)[r] <= 1 {
      assert multiset(st.rest)[r] <= multiset(s)[r];
    }
  }

  /** Draws that a real generator could return for `|draws|` successful steps on a scaffold of length `n`. */
  ghost predicate ValidDraws(n: nat, draws: seq<nat>)
  {
    |draws| <= n && forall k :: 0 <= k < |draws| ==> draws[k] < n - k
  }

  /** `|draws|` successive successful calls of `next`, the k-th generator draw being `draws[k]`. */
  function Steps(s: seq<Ref>, draws: seq<nat>): (r: Run)
    requires ValidDraws(|s|, draws)
    // one element per draw, and the scaffold shrinks by exactly that many
    ensures |r.produced| == |draws|
    ensures |r.rest| == |s| - |draws|
    // what was produced and what remains together are exactly the starting scaffold
    ensures multiset(s) == multiset(r.rest) + multiset(r.produced)
    decreases |draws|
  {
    if draws == [] then Run([], s)
    else
      var st := Step(s, draws[0]);
      StepConserves(s, draws[0]);
      var tail := Steps(st.rest, draws[1..]);
      Run([st.item.value] + tail.produced, tail.rest)
  }

  /** Concatenating references into a slice of length `n` gives references into it. */
  lemma InBoundsConcat(a: seq<Ref>, b: seq<Ref>, n: nat)
    requires InBounds(a, n) && InBounds(b, n)
    ensures InBounds(a + b, n)
  {
  }

  /** Dereferencing distributes over concatenation. */
  lemma {:induction false} DerefConcat<T>(source: seq<T>, a: seq<Ref>, b: seq<Ref>)
    requires InBounds(a, |source|) && InBounds(b, |source|)
    ensures InBounds(a + b, |source|)
    ensures Deref(source, a + b) == Deref(source, a) + Deref(source, b)
    decreases |a|
  {
    InBoundsConcat(a, b, |source|);
    if a == [] {
      assert a + b == b;
    } else {
      assert (a + b)[1..] == a[1..] + b;
      assert InBounds(a[1..], |source|) by {
        forall i | 0 <= i < |a| - 1 ensures a[1..][i] < |source| { assert a[1..][i] == a[i + 1]; }
      }
      DerefConcat(source, a[1..], b);
      assert (a + b)[0] == a[0];
      assert Deref(source, a + b) == [source[a[0]]] + Deref(source, a[1..] + b);
      assert Deref(source, a) == [source[a[0]]] + Deref(source, a[1..]);
    }
  }

  /** Splits `q` around one occurrence of `x`. */
  lemma Split(q: seq<Ref>, x: Ref, n: nat) returns (front: seq<Ref>, back: seq<Ref>)
    requires x in multiset(q)
    requires InBounds(q, n)
    ensures q == front + [x] + back
    ensures InBounds(front, n) && InBounds(back, n) && x < n
    ensures multiset(front + back) == multiset(q) - multiset{x}
  {
    assert x in q;
    var i :| 0 <= i < |q| && q[i] == x;
    front, back := q[..i], q[i + 1..];
    assert q == front + [x] + back;
    assert multiset(q) == multiset(front) + multiset{x} + multiset(back);
    assert multiset(front + back) == multiset(front) + multiset(back);
    forall k | 0 <= k < |front| ensures front[k] < n {
      assert front[k] == q[k];
    }
    forall k | 0 <= k < |back| ensures back[k] < n {
      assert back[k] == q[i + 1 + k];
    }
  }

  /** Removing one reference from between two others removes its element from the dereferenced multiset. */
  lemma DerefAround<T>(source: seq<T>, front: seq<Ref>, x: Ref, back: seq<Ref>)
    requires InBounds(front, |source|) && InBounds(back, |source|) && x < |source|
    ensures InBounds(front + [x] + back, |source|) && InBounds(front + back, |source|)
    ensures multiset(Deref(source, front + [x] + back)) == multiset{source[x]} + multiset(Deref(source, front + back))
  {
    InBoundsConcat(front, [x], |source|);
    InBoundsConcat(front + [x], back, |source|);
    DerefConcat(source, front, back);
    DerefConcat(source, front, [x]);
    DerefConcat(source, front + [x], back);
    assert Deref(source, [x]) == [source[x]];
  }

  /** Separates the first reference from the others. */
  lemma Uncons(p: seq<Ref>, n: nat)
    requires p != [] && InBounds(p, n)
    ensures p[0] < n && InBounds(p[1..], n)
    ensures multiset(p) == multiset{p[0]} + multiset(p[1..])
  {
    assert p == [p[0]] + p[1..];
    forall i | 0 <= i < |p| - 1 ensures p[1..][i] < n { assert p[1..][i] == p[i + 1]; }
  }

  /** Dereferencing two rearrangements of the same references yields rearrangements of the same elements. */
  lemma {:induction false} DerefPermutation<T>(source: seq<T>, p: seq<Ref>, q: seq<Ref>)
    requires InBounds(p, |source|) && InBounds(q, |source|)
    requires multiset(p) == multiset(q)
    ensures multiset(Deref(source, p)) == multiset(Deref(source, q))
    decreases |p|
  {
    if p == [] {
      assert |q| == |multiset(q)| == 0;
    } else {
      Uncons(p, |source|);
      var x, rest := p[0], p[1..];
      var front, back := Split(q, x, |source|);
      DerefAround(source, front, x, back);
      DerefPermutation(source, rest, front + back);
    }
  }

  /** Dereferencing the first `k` positions of the construction-time scaffold gives the first `k` elements. */
  lemma {:induction false} DerefPositions<T>(source: seq<T>, k: nat)
    requires k <= |source|
    ensures InBounds(Positions(k), |source|)
    ensures Deref(source, Positions(k)) == source[..k]
  {
    if k == 0 {
      assert Positions(k) == [];
    } else {
      DerefPositions(source, k - 1);
      var last: Ref := k - 1;
      assert Positions(k) == Positions(last) + [last];
      DerefConcat(source, Positions(last), [last]);
      assert source[..k] == source[..k - 1] + [source[k - 1]];
    }
  }

  /** A rearrangement of references into a slice of length `n` still points into it. */
  lemma InBoundsPermutation(p: seq<Ref>, q: seq<Ref>, n: nat)
    requires multiset(p) == multiset(q)
    requires InBounds(q, n)
    ensures InBounds(p, n)
  {
    forall i | 0 <= i < |p| ensures p[i] < n {
      assert p[i] in multiset(q);
    }
  }

  /** A rearrangement of the construction-time scaffold mentions every position. */
  lemma PositionsCovered(p: seq<Ref>, n: nat)
    requires multiset(p) == multiset(Positions(n))
    ensures forall i :: 0 <= i < n ==> i in p
  {
    PositionsDistinct(n);
    forall i | 0 <= i < n ensures i in p {
      assert multiset(p)[i] == 1;
    }
  }

  /**
    A full drain of an n-element scaffold: after n successful calls the scaffold is
    empty, the next call yields None, and the references produced are each
    position exactly once.
  */
  lemma FullDrain(n: nat, draws: seq<nat>, j: nat)
    requires |draws| == n
    requires ValidDraws(n, draws)
    ensures var run := Steps(Positions(n), draws);
      && run.rest == []
      && Step(run.rest, j).item == None
      && Distinct(run.produced)
      && (forall i, k :: 0 <= i < k < n ==> run.produced[i] != run.produced[k])
      && multiset(run.produced) == multiset(Positions(n))
      && InBounds(run.produced, n)
      && (forall i :: 0 <= i < n ==> i in run.produced)
  {
    var pos := Positions(n);
    var run := Steps(pos, draws);
    assert run.rest == [];
    assert multiset(run.produced) == multiset(pos);
    PositionsDistinct(n);
    InBoundsPermutation(run.produced, pos, n);
    PositionsCovered(run.produced, n);
    forall i, k | 0 <= i < k < n ensures run.produced[i] != run.produced[k] {
      DistinctSlots(run.produced, i, k);
    }
  }

  /** Dereferencing any rearrangement of the construction-time scaffold gives a rearrangement of the slice. */
  lemma DerefRearranged<T>(source: seq<T>, p: seq<Ref>)
    requires multiset(p) == multiset(Positions(|source|))
    ensures InBounds(p, |source|)
    ensures multiset(Deref(source, p)) == multiset(source)
  {
    var n := |source|;
    DerefPositions(source, n);
    assert source[..n] == source;
    InBoundsPermutation(p, Positions(n), n);
    DerefPermutation(source, p, Positions(n));
  }

  /** Draining the iterator over `source` yields every element of `source`, as often as it occurs there. */
  lemma FullDrainElements<T>(source: seq<T>, draws: seq<nat>)
    requires |draws| == |source|
    requires ValidDraws(|source|, draws)
    ensures var run := Steps(Positions(|source|), draws);
      && InBounds(run.produced, |source|)
      && multiset(Deref(source, run.produced)) == multiset(source)
  {
    var run := Steps(Positions(|source|), draws);
    assert run.rest == [];
    DerefRearranged(source, run.produced);
  }

  /** The values the generator returned, in order. */
  function Values(rng: seq<Draw>): (v: seq<nat>)
    ensures |v| == |rng|
    ensures forall k :: 0 <= k < |rng| ==> v[k] == rng[k].value
  {
    if rng == [] then [] else Values(rng[..|rng| - 1]) + [rng[|rng| - 1].value]
  }

  /** One more successful call extends the run by one step taken on what the run left behind. */
  lemma {:induction false} StepsSnoc(s: seq<Ref>, draws: seq<nat>, d: nat)
    requires ValidDraws(|s|, draws + [d])
    ensures ValidDraws(|s|, draws)
    ensures d < |s| - |draws|
    ensures var run := Steps(s, draws);
      && Step(run.rest, d).item.Some?
      && Steps(s, draws + [d]) == Run(run.produced + [Step(run.rest, d).item.value], Step(run.rest, d).rest)
    decreases |draws|
  {
    ValidDrawsPrefix(|s|, draws, d);
    if draws == [] {
      assert draws + [d] == [d];
    } else {
      var st := Step(s, draws[0]);
      var later := draws[1..];
      ValidDrawsShift(|s|, draws + [d]);
      assert (draws + [d])[0] == draws[0] && (draws + [d])[1..] == later + [d];
      StepsSnoc(st.rest, later, d);
      var tail := Steps(st.rest, later);
      var y := Step(tail.rest, d).item.value;
      assert [st.item.value] + (tail.produced + [y]) == ([st.item.value] + tail.produced) + [y];
    }
  }

  /** Draws valid for one more call are valid without it, and the extra one is within the range then asked for. */
  lemma ValidDrawsPrefix(n: nat, draws: seq<nat>, d: nat)
    requires ValidDraws(n, draws + [d])
    ensures ValidDraws(n, draws)
    ensures d < n - |draws|
  {
    var all := draws + [d];
    assert all[|draws|] == d;
    forall k | 0 <= k < |draws| ensures draws[k] < n - k {
      assert draws[k] == all[k];
    }
  }

  /** After the first call, the remaining draws are valid for the scaffold one shorter. */
  lemma ValidDrawsShift(n: nat, draws: seq<nat>)
    requires ValidDraws(n, draws) && draws != []
    ensures n > 0 && draws[0] < n
    ensures ValidDraws(n - 1, draws[1..])
  {
  }

  /**
    The iterator's invariant over a slice of length `n`: the k-th request to
    the generator asked for the range [0, n - k) and got a value in it, and
    the scaffold and the references produced so far are exactly what running
    those draws from the construction-time scaffold gives.
  */
  ghost predicate Invariant(n: nat, state: seq<Ref>, emitted: seq<Ref>, rng: seq<Draw>)
  {
    && (forall k :: 0 <= k < |rng| ==> rng[k].bound == n - k)
    && ValidDraws(n, Values(rng))
    && Steps(Positions(n), Values(rng)) == Run(emitted, state)
  }

  /**
    What the invariant means: the scaffold holds exactly the references not yet
    produced, no reference is held or produced twice, and each call that took a
    draw removed exactly one entry.
  */
  lemma InvariantMeans(n: nat, state: seq<Ref>, emitted: seq<Ref>, rng: seq<Draw>)
    requires Invariant(n, state, emitted, rng)
    ensures multiset(state) + multiset(emitted) == multiset(Positions(n))
    ensures Distinct(emitted + state)
    ensures |emitted| == |rng| && |state| == n - |rng|
  {
    PositionsDistinct(n);
    assert multiset(emitted + state) == multiset(Positions(n));
  }

  /**
    Once the generator has been asked |source| times the slice is drained: every
    position was produced exactly once, and the elements produced are a
    rearrangement of the slice.
  */
  lemma InvariantDrained<T>(source: seq<T>, state: seq<Ref>, emitted: seq<Ref>, rng: seq<Draw>)
    requires Invariant(|source|, state, emitted, rng)
    requires |rng| == |source|
    ensures state == []
    ensures Distinct(emitted)
    ensures forall i :: 0 <= i < |source| ==> i in emitted
    ensures InBounds(emitted, |source|)
    ensures multiset(Deref(source, emitted)) == multiset(source)
  {
    FullDrain(|source|, Values(rng), 0);
    FullDrainElements(source, Values(rng));
  }

  /** A successful step keeps the invariant, recording the produced reference and the one draw it took. */
  lemma StepPreservesInvariant(n: nat, s: seq<Ref>, emitted: seq<Ref>, rng: seq<Draw>, j: nat)
    requires s != [] && j < |s|
    requires Invariant(n, s, emitted, rng)
    ensures Step(s, j).item.Some?
    ensures Invariant(n, Step(s, j).rest, emitted + [Step(s, j).item.value], rng + [Draw(|s|, j)])
  {
    var rng' := rng + [Draw(|s|, j)];
    assert rng'[..|rng|] == rng;
    assert Values(rng') == Values(rng) + [j];
    StepsSnoc(Positions(n), Values(rng), j);
  }

  /** The iterator over a borrowed slice: the fields `state` and `rng` of `ShuffledIter`. */
  class ShuffledIter<T> {
    /** The borrowed slice; never changed. */
    const source: seq<T>
    /** The scaffold of references not yet produced. */
    var state: seq<Ref>
    /** The generator, as the history of the requests made to it. */
    var rng: seq<Draw>
    /** The references produced so far, in order. */
    ghost var emitted: seq<Ref>

    ghost predicate Valid()
      reads this
    {
      Invariant(|source|, state, emitted, rng)
    }

    /** `shuffled_by`: a scaffold of every position in slice order; no draw is made. */
    constructor ShuffledBy(source: seq<T>)
      ensures this.source == source
      ensures state == Positions(|source|)
      ensures rng == [] && emitted == []
      ensures Valid()
    {
      this.source := source;
      state := Positions(|source|);
      rng := [];
      emitted := [];
    }

    /** `next`: one step of the partial Fisher-Yates shuffle; `draw` is what `gen_range(0, top + 1)` returns. */
    method Next(draw: nat) returns (r: Option<Ref>)
      requires Valid()
      requires state != [] ==> draw < |state|
      modifies this
      ensures Valid()
      ensures r == Step(old(state), draw).item
      ensures state == Step(old(state), draw).rest
      ensures rng == if r.None? then old(rng) else old(rng) + [Draw(|old(state)|, draw)]
      ensures emitted == if r.None? then old(emitted) else old(emitted) + [r.value]
    {
      if state == [] {
        return None;
      }
      ghost var before := state;
      var last := state[|state| - 1];
      state := state[..|state| - 1];
      var top := |state|;
      var j := draw;
      rng := rng + [Draw(top + 1, j)];
      if j < top {
        r := Some(state[j]);
        state := state[j := last];
      } else {
        r := Some(last);
      }
      assert r == Step(before, draw).item && state == Step(before, draw).rest;
      StepPreservesInvariant(|source|, before, old(emitted), old(rng), draw);
      emitted := emitted + [r.value];
      assert Invariant(|source|, state, emitted, rng);
    }
  }
}
