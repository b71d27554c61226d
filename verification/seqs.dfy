/** Sequence helpers shared by the export pagination and the delete batching:
    cutting a sequence into fixed-size pieces and gluing pieces back. */
module Seqs {

  /** Concatenation of a sequence of sequences, first piece first. */
  function Flatten<T>(ss: seq<seq<T>>): seq<T>
  {
    if |ss| == 0 then [] else ss[0] + Flatten(ss[1..])
  }

  lemma {:induction false} FlattenAppend<T>(a: seq<seq<T>>, b: seq<seq<T>>)
    ensures Flatten(a + b) == Flatten(a) + Flatten(b)
    decreases |a|
  {
    if |a| == 0 {
      assert a + b == b;
    } else {
      assert (a + b)[1..] == a[1..] + b;
      FlattenAppend(a[1..], b);
    }
  }

  /** `f` applied to every element, in place. */
  function MapSeq<A, B>(f: A -> B, s: seq<A>): (r: seq<B>)
    ensures |r| == |s|
    ensures forall i :: 0 <= i < |s| ==> r[i] == f(s[i])
  {
    seq(|s|, i requires 0 <= i < |s| => f(s[i]))
  }

  lemma MapSeqAppend<A, B>(f: A -> B, a: seq<A>, b: seq<A>)
    ensures MapSeq(f, a + b) == MapSeq(f, a) + MapSeq(f, b)
  {
  }

  /** Taking the first element out of `a` and a matching element out of a
      rearrangement `b` leaves rearrangements of each other. */
  lemma RemoveMatching<T>(a: seq<T>, b: seq<T>, i: nat)
    requires multiset(a) == multiset(b) && |a| > 0 && i < |b| && b[i] == a[0]
    ensures multiset(a[1..]) == multiset(b[..i] + b[i + 1..])
  {
    var x := a[0];
    assert b == b[..i] + [x] + b[i + 1..];
    assert a == [x] + a[1..];
    assert multiset(b) == multiset(b[..i]) + multiset{x} + multiset(b[i + 1..]);
    assert multiset(b[..i] + b[i + 1..]) == multiset(b[..i]) + multiset(b[i + 1..]);
    assert multiset(a[1..]) == multiset(a) - multiset{x};
  }

  /** Mapping a rearrangement of `a` gives a rearrangement of the mapped `a`. */
  lemma {:induction false} MapSeqRearranged<A, B>(f: A -> B, a: seq<A>, b: seq<A>)
    requires multiset(a) == multiset(b)
    ensures multiset(MapSeq(f, a)) == multiset(MapSeq(f, b))
    decreases |a|
  {
    if |a| > 0 {
      var x := a[0];
      assert x in multiset(b);
      var i :| 0 <= i < |b| && b[i] == x;
      var rest := b[..i] + b[i + 1..];
      RemoveMatching(a, b, i);
      assert b == b[..i] + [x] + b[i + 1..];
      assert a == [x] + a[1..];
      MapSeqRearranged(f, a[1..], rest);
      MapSeqAppend(f, [x], a[1..]);
      MapSeqAppend(f, b[..i] + [x], b[i + 1..]);
      MapSeqAppend(f, b[..i], [x]);
      MapSeqAppend(f, b[..i], b[i + 1..]);
    }
  }

  /** The smaller of two integers: at most either, and one of them. */
  function Min(a: int, b: int): (m: int)
    ensures m <= a && m <= b
    ensures m == a || m == b
  {
    if a <= b then a else b
  }

  /** Number of pieces of size at most `k` needed for `n` elements: the least
      `c` with `n <= c * k`. */
  function CeilDiv(n: nat, k: nat): (c: nat)
    requires k > 0
    ensures n <= c * k
    ensures c == 0 || (c - 1) * k < n
    decreases n
  {
    if n == 0 then 0 else 1 + CeilDiv(if n <= k then 0 else n - k, k)
  }

  /** The pieces `s[i..min(i+k, |s|)]` for `i = 0, k, 2k, ...` while `i < |s|`. */
  function Chunks<T>(s: seq<T>, k: nat): seq<seq<T>>
    requires k > 0
    decreases |s|
  {
    if |s| == 0 then []
    else if |s| <= k then [s]
    else [s[..k]] + Chunks(s[k..], k)
  }

  /** Only the empty sequence has no pieces. */
  lemma ChunksNone<T>(s: seq<T>, k: nat)
    requires k > 0
    ensures |Chunks(s, k)| == 0 <==> |s| == 0
  {
  }

  /** The pieces glue back to `s`; each is non-empty and at most `k` long; all
      but the last are exactly `k` long; there are `ceil(|s| / k)` of them. */
  lemma {:induction false} ChunksShape<T>(s: seq<T>, k: nat)
    requires k > 0
    ensures Flatten(Chunks(s, k)) == s
    ensures forall i :: 0 <= i < |Chunks(s, k)| ==> 0 < |Chunks(s, k)[i]| <= k
    ensures forall i :: 0 <= i < |Chunks(s, k)| - 1 ==> |Chunks(s, k)[i]| == k
    ensures |Chunks(s, k)| == CeilDiv(|s|, k)
    decreases |s|
  {
    var cs := Chunks(s, k);
    if |s| == 0 {
    } else if |s| <= k {
      assert cs == [s];
      assert Flatten(cs) == s + Flatten(cs[1..]);
    } else {
      ChunksShape(s[k..], k);
      var rest := Chunks(s[k..], k);
      assert cs == [s[..k]] + rest;
      assert cs[1..] == rest;
      assert Flatten(cs) == s[..k] + Flatten(rest);
      assert s[..k] + s[k..] == s;
      assert forall i :: 1 <= i < |cs| ==> cs[i] == rest[i - 1];
    }
  }

  /** Chunking distributes over a concatenation whose first part fills `m`
      whole pieces. */
  lemma {:induction false} ChunksAppend<T>(a: seq<T>, b: seq<T>, k: nat, m: nat)
    requires k > 0
    requires |a| == m * k
    ensures Chunks(a + b, k) == Chunks(a, k) + Chunks(b, k)
    decreases m
  {
    if m == 0 {
      assert a + b == b;
    } else {
      MulPred(m, k);
      var ab := a + b;
      assert ab[..k] == a[..k];
      assert ab[k..] == a[k..] + b;
      ChunksAppend(a[k..], b, k, m - 1);
      if |b| == 0 {
        assert ab == a;
      } else {
        var head, tail := a[..k], Chunks(a[k..] + b, k);
        assert Chunks(ab, k) == [head] + tail;
        assert tail == Chunks(a[k..], k) + Chunks(b, k);
        assert Chunks(a, k) == [head] + Chunks(a[k..], k) by {
          if m == 1 {
            assert a[k..] == [];
            assert head == a;
          }
        }
        assert [head] + (Chunks(a[k..], k) + Chunks(b, k))
            == ([head] + Chunks(a[k..], k)) + Chunks(b, k);
      }
    }
  }

  lemma MulPred(m: nat, k: nat)
    requires m > 0
    ensures m * k == (m - 1) * k + k
  {
  }

  /** A single piece of size at most `k` chunks to itself. */
  lemma ChunksOfOnePiece<T>(s: seq<T>, k: nat)
    requires k > 0
    requires 0 < |s| <= k
    ensures Chunks(s, k) == [s]
  {
  }

  /** Extending a prefix of `m` whole pieces by `b <= k` elements adds
      exactly one piece. */
  lemma ChunksSnoc<T>(s: seq<T>, k: nat, m: nat, b: nat)
    requires k > 0 && 0 < b <= k && m * k + b <= |s|
    ensures Chunks(s[..m * k + b], k) == Chunks(s[..m * k], k) + [s[m * k..m * k + b]]
  {
    var o := m * k;
    var pre, piece := s[..o], s[o..o + b];
    assert s[..o + b] == pre + piece;
    ChunksAppend(pre, piece, k, m);
    ChunksOfOnePiece(piece, k);
  }

  /** More elements never need fewer pieces. */
  lemma {:induction false} CeilDivMono(a: nat, b: nat, k: nat)
    requires a <= b && k > 0
    ensures CeilDiv(a, k) <= CeilDiv(b, k)
    decreases a
  {
    if a > k {
      CeilDivMono(a - k, b - k, k);
    }
  }

  /** `m` whole pieces and `0 < b <= k` more elements need `m + 1` pieces. */
  lemma CeilDivStep(m: nat, k: nat, b: nat)
    requires 0 < b <= k
    ensures CeilDiv(m * k + b, k) == m + 1
  {
    var c := CeilDiv(m * k + b, k);
    MulCancel(m, c, k);
    assert c >= 1;
    MulCancel(c - 1, m + 1, k);
    assert (m + 1) * k == m * k + k;
  }

  lemma MulCancel(a: nat, b: nat, k: nat)
    requires k > 0
    ensures a * k < b * k ==> a < b
  {
    if a >= b {
      MulMono(b, a, k);
    }
  }

  lemma MulMono(a: nat, b: nat, k: nat)
    requires a <= b
    ensures a * k <= b * k
  {
  }
}
