/** Sequences of fixed-size records, as the sprite tools write and read
    them, and the grouping of values into lines when they are emitted. */
module Records {
  import opened Bits

  /** The records written one after another. */
  function Concat<T>(xs: seq<seq<T>>): seq<T>
  {
    if |xs| == 0 then [] else xs[0] + Concat(xs[1..])
  }

  /** Records of `size` elements each occupy size * |xs| elements, record
      i starting at element i * size. */
  lemma {:induction false} ConcatAt<T>(xs: seq<seq<T>>, size: nat, i: nat, j: nat)
    requires forall k :: 0 <= k < |xs| ==> |xs[k]| == size
    requires i < |xs| && j < size
    ensures |Concat(xs)| == |xs| * size
    ensures i * size + j < |xs| * size && Concat(xs)[i * size + j] == xs[i][j]
    decreases |xs|
  {
    ConcatLength(xs, size);
    if i > 0 {
      ConcatAt(xs[1..], size, i - 1, j);
      assert i * size == (i - 1) * size + size;
      assert |xs| * size == (|xs| - 1) * size + size;
    }
  }

  /** ConcatAt behind a header: element j of record i sits at
      |head| + i * size + j. */
  lemma RecordAt<T>(head: seq<T>, xs: seq<seq<T>>, size: nat, i: nat, j: nat)
    requires forall k :: 0 <= k < |xs| ==> |xs[k]| == size
    requires i < |xs| && j < size
    ensures |head + Concat(xs)| == |head| + |xs| * size
    ensures |head| + i * size + j < |head + Concat(xs)|
    ensures (head + Concat(xs))[|head| + i * size + j] == xs[i][j]
  {
    ConcatAt(xs, size, i, j);
  }

  /** The length half of ConcatAt, for any number of records. */
  lemma {:induction false} ConcatLength<T>(xs: seq<seq<T>>, size: nat)
    requires forall k :: 0 <= k < |xs| ==> |xs[k]| == size
    ensures |Concat(xs)| == |xs| * size
    decreases |xs|
  {
    if |xs| > 0 {
      ConcatLength(xs[1..], size);
      assert |xs| * size == (|xs| - 1) * size + size;
    }
  }

  /** Python's `for i in range(0, len(s), k): s[i:i+k]`: consecutive
      groups of k values, the last one possibly shorter. */
  function Chunks<T>(s: seq<T>, k: nat): (lines: seq<seq<T>>)
    requires k > 0
    ensures forall i :: 0 <= i < |lines| ==> 0 < |lines[i]| <= k
    ensures forall i :: 0 <= i < |lines| - 1 ==> |lines[i]| == k
    decreases |s|
  {
    if |s| == 0 then []
    else if |s| <= k then [s]
    else [s[..k]] + Chunks(s[k..], k)
  }

  /** The lines hold the values in their original order, none lost or
      repeated. */
  lemma {:induction false} ChunksConcat<T>(s: seq<T>, k: nat)
    requires k > 0
    ensures Concat(Chunks(s, k)) == s
    decreases |s|
  {
    if |s| > k {
      ChunksConcat(s[k..], k);
      assert ([s[..k]] + Chunks(s[k..], k))[1..] == Chunks(s[k..], k);
      assert s == s[..k] + s[k..];
    } else if |s| > 0 {
      assert [s][1..] == [];
    }
  }

  /** How many values satisfy p, counted from the front as the tools'
      loops do. */
  function Count<T>(s: seq<T>, p: T -> bool): (n: nat)
    ensures n <= |s|
  {
    if |s| == 0 then 0 else Count(s[..|s| - 1], p) + (if p(s[|s| - 1]) then 1 else 0)
  }

  /** The positions of the values that satisfy p. */
  function Positions<T>(s: seq<T>, p: T -> bool): set<int>
  {
    set i | 0 <= i < |s| && p(s[i])
  }

  /** Membership of one position. */
  lemma PositionsAt<T>(s: seq<T>, p: T -> bool, i: int)
    requires 0 <= i < |s|
    ensures i in Positions(s, p) <==> p(s[i])
  {
  }

  /** The count is the number of positions holding such a value. */
  lemma {:induction false} CountIsPositions<T>(s: seq<T>, p: T -> bool)
    ensures Count(s, p) == |Positions(s, p)|
    decreases |s|
  {
    if |s| > 0 {
      var n := |s| - 1;
      CountIsPositions(s[..n], p);
      var prefix := Positions(s[..n], p);
      assert prefix == Positions(s, p) - {n};
      if p(s[n]) {
        assert Positions(s, p) == prefix + {n};
      } else {
        assert Positions(s, p) == prefix;
      }
    }
  }

  /** Every value satisfies exactly one of p and its negation, so the two
      counts add up to the length. */
  lemma {:induction false} CountComplement<T>(s: seq<T>, p: T -> bool, q: T -> bool)
    requires forall x :: q(x) == !p(x)
    ensures Count(s, p) + Count(s, q) == |s|
    decreases |s|
  {
    if |s| > 0 {
      CountComplement(s[..|s| - 1], p, q);
    }
  }

  /** Counting through an element-wise map counts the preimages. */
  lemma {:induction false} CountMap<S, T>(s: seq<S>, f: S -> T, t: seq<T>, p: T -> bool, q: S -> bool)
    requires |t| == |s| && forall i :: 0 <= i < |s| ==> t[i] == f(s[i])
    requires forall x :: q(x) == p(f(x))
    ensures Count(t, p) == Count(s, q)
    decreases |s|
  {
    if |s| > 0 {
      CountMap(s[..|s| - 1], f, t[..|t| - 1], p, q);
    }
  }
}
