/** The bytes of a file: the contents of its clusters in chain order. */
module FileBytes {
  import opened Common

  /** The offset of a chain's k-th cluster in the file. */
  function Start(size: nat, k: nat): nat {
    if k == 0 then 0 else Start(size, k - 1) + size
  }

  lemma {:induction false} StartMono(size: nat, j: nat, k: nat)
    requires j < k
    ensures Start(size, j) + size <= Start(size, k)
  {
    if j < k - 1 {
      StartMono(size, j, k - 1);
    }
  }

  /** How many clusters n bytes take. */
  function NumCluster(size: nat, n: nat): nat
    requires size > 0
  {
    (n + size - 1) / size
  }

  lemma OneMore(size: nat, n: nat)
    requires 0 < size <= n
    ensures n / size == 1 + (n - size) / size
  {
    var q, r := (n - size) / size, (n - size) % size;
    assert n - size == size * q + r;
    assert n == size * (q + 1) + r by {
      assert size * (q + 1) == size * q + size;
    }
    Quotient(n, size, q + 1, r);
  }

  lemma Quotient(n: nat, size: nat, q: nat, r: nat)
    requires 0 < size && r < size && n == size * q + r
    ensures n / size == q
  {
    var e := n / size - q;
    assert size * (n / size) + n % size == n;
    assert size * e == size * (n / size) - size * q;
    MultipleIsFar(size, e);
  }

  lemma NumClusterStep(size: nat, n: nat)
    requires size > 0
    ensures n == 0 ==> NumCluster(size, n) == 0
    ensures 0 < n <= size ==> NumCluster(size, n) == 1
    ensures n > size ==> NumCluster(size, n) == 1 + NumCluster(size, n - size) >= 2
  {
    if n == 0 {
      Quotient(size - 1, size, 0, size - 1);
    } else {
      OneMore(size, n + size - 1);
      if n <= size {
        Quotient(n - 1, size, 0, n - 1);
      } else {
        OneMore(size, n - 1);
      }
    }
  }

  lemma {:induction false} NumClusterHolds(size: nat, n: nat)
    requires size > 0
    ensures n <= Start(size, NumCluster(size, n))
    decreases n
  {
    NumClusterStep(size, n);
    if n > size {
      NumClusterHolds(size, n - size);
    } else if n > 0 {
      assert Start(size, 1) == Start(size, 0) + size;
    }
  }

  // ---- Contents

  /** The clusters of a chain exist and are full. */
  predicate Held(data: seq<seq<nat>>, size: nat, c: seq<nat>) {
    forall i :: 0 <= i < |c| ==> c[i] < |data| && |data[c[i]]| == size
  }

  function Bytes(data: seq<seq<nat>>, size: nat, c: seq<nat>): (b: seq<nat>)
    requires Held(data, size, c)
    ensures |b| == Start(size, |c|)
    decreases |c|
  {
    if c == [] then [] else Bytes(data, size, c[..|c| - 1]) + data[c[|c| - 1]]
  }

  /** s with the bytes from p on replaced by part. */
  function Splice(s: seq<nat>, p: nat, part: seq<nat>): (r: seq<nat>)
    requires p + |part| <= |s|
    ensures |r| == |s|
  {
    s[..p] + part + s[p + |part|..]
  }

  lemma {:induction false} BytesOfSame(data: seq<seq<nat>>, data': seq<seq<nat>>, size: nat, c: seq<nat>)
    requires Held(data, size, c) && Held(data', size, c)
    requires forall i :: 0 <= i < |c| ==> data'[c[i]] == data[c[i]]
    ensures Bytes(data', size, c) == Bytes(data, size, c)
    decreases |c|
  {
    if c != [] {
      BytesOfSame(data, data', size, c[..|c| - 1]);
    }
  }

  lemma {:induction false} BytesOfSum(data: seq<seq<nat>>, size: nat, c: seq<nat>, d: seq<nat>)
    requires Held(data, size, c) && Held(data, size, d) && Held(data, size, c + d)
    ensures Bytes(data, size, c + d) == Bytes(data, size, c) + Bytes(data, size, d)
    decreases |d|
  {
    if d == [] {
      assert c + d == c;
    } else {
      var front := d[..|d| - 1];
      assert (c + d)[..|c + d| - 1] == c + front;
      BytesOfSum(data, size, c, front);
    }
  }

  /** A piece of a cluster is a piece of the file. */
  lemma {:induction false} PieceOfCluster(data: seq<seq<nat>>, size: nat, c: seq<nat>, k: nat, off: nat, n: nat)
    requires Held(data, size, c) && k < |c| && off + n <= size
    ensures Start(size, k) + off + n <= Start(size, |c|)
    ensures Bytes(data, size, c)[Start(size, k) + off..][..n] == data[c[k]][off..][..n]
    decreases |c|
  {
    var front := c[..|c| - 1];
    StartMono(size, k, |c|);
    if k < |c| - 1 {
      PieceOfCluster(data, size, front, k, off, n);
    }
  }

  /** Two adjacent writes are one. */
  lemma SpliceTwice(s: seq<nat>, p: nat, a: seq<nat>, b: seq<nat>)
    requires p + |a| + |b| <= |s|
    ensures Splice(Splice(s, p, a), p + |a|, b) == Splice(s, p, a + b)
  {
  }

  lemma SpliceFront(s: seq<nat>, t: seq<nat>, p: nat, a: seq<nat>)
    requires p + |a| <= |s|
    ensures Splice(s, p, a) + t == Splice(s + t, p, a)
  {
  }

  lemma SpliceBack(s: seq<nat>, t: seq<nat>, p: nat, a: seq<nat>)
    requires p + |a| <= |t|
    ensures Splice(s + t, |s| + p, a) == s + Splice(t, p, a)
  {
  }

  /** Overwriting a piece of a cluster overwrites that piece of the file. */
  lemma {:induction false} ClusterWritten(data: seq<seq<nat>>, data': seq<seq<nat>>, size: nat, c: seq<nat>, k: nat, off: nat, part: seq<nat>)
    requires Held(data, size, c) && k < |c| && off + |part| <= size
    requires forall i, j :: 0 <= i < j < |c| ==> c[i] != c[j]
    requires data' == data[c[k] := Splice(data[c[k]], off, part)]
    ensures Held(data', size, c) && Start(size, k) + off + |part| <= Start(size, |c|)
    ensures Bytes(data', size, c) == Splice(Bytes(data, size, c), Start(size, k) + off, part)
    decreases |c|
  {
    hide Splice;
    var front, last := c[..|c| - 1], c[|c| - 1];
    StartMono(size, k, |c|);
    if k < |c| - 1 {
      ClusterWritten(data, data', size, front, k, off, part);
      SpliceFront(Bytes(data, size, front), data[last], Start(size, k) + off, part);
    } else {
      BytesOfSame(data, data', size, front);
      SpliceBack(Bytes(data, size, front), data[last], off, part);
    }
  }
}
