/** Order preservation: a sequence obtained from another by deleting some
    elements, the rest keeping their relative order. */
module ListingOrder {

  /** `a` is `b` with some elements left out and none moved. */
  predicate IsSubseq<T(==)>(a: seq<T>, b: seq<T>)
    decreases |b|
  {
    if b == [] then a == []
    else
      IsSubseq(a, b[..|b| - 1]) ||
      (a != [] && a[|a| - 1] == b[|b| - 1] && IsSubseq(a[..|a| - 1], b[..|b| - 1]))
  }

  /** Keeping the next element of `b` extends a subsequence by it. */
  lemma SubseqKeep<T>(a: seq<T>, b: seq<T>, x: T)
    requires IsSubseq(a, b)
    ensures IsSubseq(a + [x], b + [x])
  {
    assert (a + [x])[..|a|] == a;
    assert (b + [x])[..|b|] == b;
  }

  /** Leaving out the next element of `b` keeps a subsequence. */
  lemma SubseqSkip<T>(a: seq<T>, b: seq<T>, x: T)
    requires IsSubseq(a, b)
    ensures IsSubseq(a, b + [x])
  {
    assert (b + [x])[..|b|] == b;
  }

  /** A subsequence never reorders: elements at positions i < j of `a` sit at
      positions p < q of `b`. */
  lemma {:induction false} SubseqKeepsOrder<T>(a: seq<T>, b: seq<T>, i: nat, j: nat)
    requires IsSubseq(a, b)
    requires i < j < |a|
    ensures exists p, q :: 0 <= p < q < |b| && b[p] == a[i] && b[q] == a[j]
    decreases |b|
  {
    var b' := b[..|b| - 1];
    if IsSubseq(a, b') {
      SubseqKeepsOrder(a, b', i, j);
      var p, q :| 0 <= p < q < |b'| && b'[p] == a[i] && b'[q] == a[j];
      assert b[p] == a[i] && b[q] == a[j];
    } else {
      var a' := a[..|a| - 1];
      assert a[|a| - 1] == b[|b| - 1] && IsSubseq(a', b');
      if j == |a| - 1 {
        SubseqElement(a', b', i);
        var p :| 0 <= p < |b'| && b'[p] == a'[i];
        assert b[p] == a[i] && b[|b| - 1] == a[j];
      } else {
        SubseqKeepsOrder(a', b', i, j);
        var p, q :| 0 <= p < q < |b'| && b'[p] == a'[i] && b'[q] == a'[j];
        assert b[p] == a[i] && b[q] == a[j];
      }
    }
  }

  /** Every element of a subsequence occurs in the sequence. */
  lemma {:induction false} SubseqElement<T>(a: seq<T>, b: seq<T>, i: nat)
    requires IsSubseq(a, b)
    requires i < |a|
    ensures exists p :: 0 <= p < |b| && b[p] == a[i]
    decreases |b|
  {
    var b' := b[..|b| - 1];
    if IsSubseq(a, b') {
      SubseqElement(a, b', i);
      var p :| 0 <= p < |b'| && b'[p] == a[i];
      assert b[p] == a[i];
    } else if i == |a| - 1 {
      assert b[|b| - 1] == a[i];
    } else {
      SubseqElement(a[..|a| - 1], b', i);
      var p :| 0 <= p < |b'| && b'[p] == a[i];
      assert b[p] == a[i];
    }
  }
}
