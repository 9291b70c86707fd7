/** Order-preserving de-duplication. `AppendMissing` is the accumulator step of
    the matcher (push an id unless `detected.includes` it); `FirstOccurrences`
    is an independent reference definition that keeps each element of a
    sequence at the position where it first appears. */
module Dedup {

  /** No element appears twice. */
  predicate NoDups<T(==, !new)>(s: seq<T>) {
    forall i, j :: 0 <= i < j < |s| ==> s[i] != s[j]
  }

  /** Push each element of `xs`, in order, onto `acc` unless it is already there. */
  function AppendMissing<T(==, !new)>(acc: seq<T>, xs: seq<T>): (r: seq<T>)
    ensures acc <= r
    ensures NoDups(acc) ==> NoDups(r)
    ensures forall x :: x in r <==> x in acc || x in xs
    decreases |xs|
  {
    if xs == [] then
      acc
    else
      var acc' := if xs[0] in acc then acc else acc + [xs[0]];
      var r := AppendMissing(acc', xs[1..]);
      assert acc <= acc' <= r;
      assert forall x :: x in xs <==> x == xs[0] || x in xs[1..];
      r
  }

  /** Element `s[k]` is kept exactly when it does not occur in `s[..k]`. */
  function FirstOccurrences<T(==, !new)>(s: seq<T>): (r: seq<T>)
    decreases |s|
  {
    if s == [] then
      []
    else
      var init := s[..|s| - 1];
      var last := s[|s| - 1];
      FirstOccurrences(init) + (if last in init then [] else [last])
  }

  /** `FirstOccurrences` keeps exactly the elements of its input, each once. */
  lemma {:induction false} FirstOccurrencesElements<T(!new)>(s: seq<T>)
    ensures forall x :: x in FirstOccurrences(s) <==> x in s
    ensures NoDups(FirstOccurrences(s))
    decreases |s|
  {
    if s != [] {
      var init := s[..|s| - 1];
      FirstOccurrencesElements(init);
      assert s == init + [s[|s| - 1]];
    }
  }

  /** Index of the first occurrence of `x` in `s`. */
  function FirstIndex<T(==, !new)>(s: seq<T>, x: T): (k: nat)
    requires x in s
    ensures k < |s| && s[k] == x && x !in s[..k]
  {
    if s[0] == x then 0 else 1 + FirstIndex(s[1..], x)
  }

  /** The first occurrence of an element of a prefix is found in that prefix. */
  lemma FirstIndexInPrefix<T(!new)>(p: seq<T>, q: seq<T>, x: T)
    requires x in p
    ensures FirstIndex(p + q, x) == FirstIndex(p, x)
  {
    if p[0] != x {
      assert (p + q)[1..] == p[1..] + q;
      FirstIndexInPrefix(p[1..], q, x);
    }
  }

  /** The kept elements appear in the order of their first occurrences in `s`. */
  lemma {:induction false} FirstOccurrencesOrdered<T(!new)>(s: seq<T>)
    ensures forall i, j :: 0 <= i < j < |FirstOccurrences(s)| ==>
      FirstOccurrences(s)[i] in s && FirstOccurrences(s)[j] in s &&
      FirstIndex(s, FirstOccurrences(s)[i]) < FirstIndex(s, FirstOccurrences(s)[j])
    decreases |s|
  {
    if s != [] {
      var init, last := s[..|s| - 1], s[|s| - 1];
      assert s == init + [last];
      var r0 := FirstOccurrences(init);
      var r := FirstOccurrences(s);
      FirstOccurrencesSnoc(init, last);
      FirstOccurrencesOrdered(init);
      FirstOccurrencesElements(init);
      forall i, j | 0 <= i < j < |r|
        ensures r[i] in s && r[j] in s
        ensures FirstIndex(s, r[i]) < FirstIndex(s, r[j])
      {
        assert r[i] == r0[i] && r0[i] in r0;
        FirstIndexInPrefix(init, [last], r[i]);
        if j < |r0| {
          assert r[j] == r0[j] && r0[j] in r0;
          FirstIndexInPrefix(init, [last], r[j]);
        } else {
          assert r[j] == last && last !in init;
          assert FirstIndex(s, r[j]) == |init|;
        }
      }
    } else {
      assert FirstOccurrences(s) == [];
    }
  }

  /** `FirstOccurrencesOrdered`, for a list known to be the first occurrences of `s`. */
  lemma OrderedByFirstIndex<T(!new)>(d: seq<T>, s: seq<T>)
    requires d == FirstOccurrences(s)
    ensures forall i, j :: 0 <= i < j < |d| ==>
      d[i] in s && d[j] in s && FirstIndex(s, d[i]) < FirstIndex(s, d[j])
  {
    FirstOccurrencesElements(s);
    FirstOccurrencesOrdered(s);
    forall i, j | 0 <= i < j < |d|
      ensures d[i] in s && d[j] in s && FirstIndex(s, d[i]) < FirstIndex(s, d[j])
    {
      assert d[i] in d && d[j] in d;
    }
  }

  /** Extending the input by one element extends its first occurrences by
      that element exactly when it is new. */
  lemma FirstOccurrencesSnoc<T(!new)>(p: seq<T>, x: T)
    ensures FirstOccurrences(p + [x]) ==
      if x in FirstOccurrences(p) then FirstOccurrences(p) else FirstOccurrences(p) + [x]
  {
    var px := p + [x];
    assert px[..|px| - 1] == p;
    FirstOccurrencesElements(p);
  }

  /** One step of the accumulator, restated on first occurrences. */
  lemma AppendMissingFirstStep<T(!new)>(p: seq<T>, xs: seq<T>)
    requires xs != []
    ensures AppendMissing(FirstOccurrences(p), xs) ==
      AppendMissing(FirstOccurrences(p + [xs[0]]), xs[1..])
  {
    FirstOccurrencesSnoc(p, xs[0]);
  }

  /** Moving the head of `xs` onto `p` leaves the first occurrences of the whole unchanged. */
  lemma FirstOccurrencesRegroup<T(!new)>(p: seq<T>, xs: seq<T>)
    requires xs != []
    ensures FirstOccurrences(p + [xs[0]] + xs[1..]) == FirstOccurrences(p + xs)
  {
    assert p + [xs[0]] + xs[1..] == p + xs;
  }

  /** The accumulator step computes first occurrences incrementally: pushing
      the missing elements of `xs` onto the first occurrences of `p` gives the
      first occurrences of `p + xs`. */
  lemma {:induction false} AppendMissingIsFirstOccurrences<T(!new)>(p: seq<T>, xs: seq<T>)
    ensures AppendMissing(FirstOccurrences(p), xs) == FirstOccurrences(p + xs)
    decreases |xs|
  {
    if xs == [] {
      assert p + xs == p;
    } else {
      AppendMissingFirstStep(p, xs);
      AppendMissingIsFirstOccurrences(p + [xs[0]], xs[1..]);
      FirstOccurrencesRegroup(p, xs);
    }
  }

  /** Starting from nothing, a repeat-free list is pushed whole. */
  lemma {:induction false} AppendMissingToEmpty<T(!new)>(xs: seq<T>)
    requires NoDups(xs)
    ensures AppendMissing([], xs) == xs
  {
    AppendMissingIsFirstOccurrences([], xs);
    FirstOccurrencesOfDistinct(xs);
    assert [] + xs == xs;
  }

  /** A repeat-free list is its own first occurrences. */
  lemma {:induction false} FirstOccurrencesOfDistinct<T(!new)>(s: seq<T>)
    requires NoDups(s)
    ensures FirstOccurrences(s) == s
    decreases |s|
  {
    if s != [] {
      var init := s[..|s| - 1];
      assert NoDups(init);
      FirstOccurrencesOfDistinct(init);
      assert s[|s| - 1] !in init;
      assert s == init + [s[|s| - 1]];
    }
  }
}
