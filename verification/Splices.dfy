/** Overwriting a stretch of a byte sequence. */
module Splices {

  function Splice<T>(m: seq<T>, at: nat, d: seq<T>): (r: seq<T>)
    requires at + |d| <= |m|
    ensures |r| == |m|
  {
    m[..at] + d + m[at + |d|..]
  }

  /** Overwriting two adjoining stretches is overwriting their concatenation. */
  lemma SpliceAdjoining<T>(m: seq<T>, at: nat, d: seq<T>, e: seq<T>)
    requires at + |d| + |e| <= |m|
    ensures Splice(Splice(m, at, d), at + |d|, e) == Splice(m, at, d + e)
  {
  }

  /** Overwriting a whole row by its own content with one stretch changed is overwriting that stretch. */
  lemma SpliceInRow<T>(m: seq<T>, row: nat, size: nat, off: nat, d: seq<T>)
    requires row + size <= |m| && off + |d| <= size
    ensures Splice(m, row, Splice(m[row..row + size], off, d)) == Splice(m, row + off, d)
  {
  }

  /** A stretch that contains the overwritten part sees it; one apart from it sees nothing. */
  lemma SliceOfSplice<T>(m: seq<T>, at: nat, d: seq<T>, from: nat, to: nat)
    requires at + |d| <= |m| && from <= to <= |m|
    ensures from <= at && at + |d| <= to ==> Splice(m, at, d)[from..to] == Splice(m[from..to], at - from, d)
    ensures to <= at || at + |d| <= from ==> Splice(m, at, d)[from..to] == m[from..to]
  {
    var s := Splice(m, at, d);
    assert forall i | 0 <= i < |m| :: s[i] == if at <= i < at + |d| then d[i - at] else m[i];
    if from <= at && at + |d| <= to {
      var t := Splice(m[from..to], at - from, d);
      assert |s[from..to]| == |t|;
      assert forall i | 0 <= i < to - from ::
             s[from..to][i] == s[from + i] && t[i] == if at <= from + i < at + |d| then d[from + i - at]
             else m[from + i];
    }
    if to <= at || at + |d| <= from {
      assert forall i | 0 <= i < to - from :: s[from..to][i] == s[from + i] && m[from..to][i] == m[from + i];
    }
  }

  /** Overwriting a stretch with one thing or another comes to the same just when the two are the same. */
  lemma SpliceIsInjective<T>(m: seq<T>, at: nat, d: seq<T>, e: seq<T>)
    requires at + |d| <= |m| && |e| == |d|
    ensures Splice(m, at, d) == Splice(m, at, e) <==> d == e
  {
    assert Splice(m, at, d)[at..at + |d|] == d && Splice(m, at, e)[at..at + |d|] == e;
  }

  /** Two sequences are the same outside a stretch. */
  predicate SameOutside<T(==)>(m: seq<T>, n: seq<T>, at: nat, len: nat)
    requires |m| == |n|
  {
    forall i | 0 <= i < |m| && !(at <= i < at + len) :: m[i] == n[i]
  }

  /** Overwriting a stretch of each makes them the same just when they are the same outside it. */
  lemma SpliceHidesStretch<T>(m: seq<T>, n: seq<T>, at: nat, d: seq<T>)
    requires |m| == |n| && at + |d| <= |m|
    ensures Splice(m, at, d) == Splice(n, at, d) <==> SameOutside(m, n, at, |d|)
  {
    var a, b := Splice(m, at, d), Splice(n, at, d);
    assert forall i | 0 <= i < |m| && !(at <= i < at + |d|) :: a[i] == m[i] && b[i] == n[i];
    assert forall i | at <= i < at + |d| :: a[i] == b[i];
  }

  /** What is not overwritten stays. */
  lemma SpliceLeaves<T>(m: seq<T>, at: nat, d: seq<T>)
    requires at + |d| <= |m|
    ensures forall i: nat | i < |m| && !(0 <= i - at < |d|) :: Splice(m, at, d)[i] == m[i]
  {
  }

  lemma SpliceNothing<T>(m: seq<T>, at: nat)
    requires at <= |m|
    ensures Splice(m, at, []) == m
  {
  }

  lemma SliceOfSlice<T>(m: seq<T>, a: nat, b: nat, i: nat, j: nat)
    requires a <= b <= |m| && i <= j <= b - a
    ensures m[a..b][i..j] == m[a + i..a + j]
  {
    var inner := m[a..b];
    assert forall k :: 0 <= k < j - i ==> inner[i..j][k] == inner[i + k] == m[a + (i + k)];
  }

  lemma SliceOfPrefix<T>(m: seq<T>, b: nat, i: nat, j: nat)
    requires i <= j <= b <= |m|
    ensures m[..b][i..j] == m[i..j]
  {
    SliceOfSlice(m, 0, b, i, j);
    assert m[..b] == m[0..b];
  }

  /** Byte by byte: what lies from an address on has been replaced, and nothing else. */
  predicate Replaced<T(==)>(mem0: seq<T>, at: nat, d: seq<T>, mem: seq<T>) {
    && |mem| == |mem0| && at + |d| <= |mem|
    && forall a | 0 <= a < |mem| :: mem[a] == if at <= a < at + |d| then d[a - at] else mem0[a]
  }

  /** Some first bytes of a buffer have replaced what lay there, and nothing else has changed. */
  ghost predicate PrefixReplaced<T>(mem0: seq<T>, at: nat, buff: seq<T>, mem: seq<T>) {
    exists n: nat | n <= |buff| :: Replaced(mem0, at, buff[..n], mem)
  }

  lemma SpliceReplaces<T>(mem0: seq<T>, at: nat, d: seq<T>)
    requires at + |d| <= |mem0|
    ensures Replaced(mem0, at, d, Splice(mem0, at, d))
  {
  }

  lemma ReplacedByNothing<T>(mem0: seq<T>, at: nat, buff: seq<T>)
    ensures at + |buff| <= |mem0| ==> PrefixReplaced(mem0, at, buff, mem0)
  {
    if at + |buff| <= |mem0| {
      assert Replaced(mem0, at, buff[..0], mem0);
    }
  }

  lemma WrittenIsReplaced<T>(mem0: seq<T>, at: nat, buff: seq<T>, mem: seq<T>)
    requires PrefixWritten(mem0, at, buff, mem)
    ensures PrefixReplaced(mem0, at, buff, mem)
    ensures at + |buff| <= |mem0| && (mem == Splice(mem0, at, buff) ==> Replaced(mem0, at, buff, mem))
  {
    var n: nat :| WrittenUpTo(mem0, at, buff, n, mem);
    SpliceReplaces(mem0, at, buff[..n]);
    SpliceReplaces(mem0, at, buff);
  }

  predicate WrittenUpTo<T(==)>(mem0: seq<T>, at: nat, buff: seq<T>, k: nat, mem: seq<T>) {
    k <= |buff| && at + |buff| <= |mem0| && mem == Splice(mem0, at, buff[..k])
  }

  /** Some prefix of the buffer has been written and nothing else has changed. */
  ghost predicate PrefixWritten<T>(mem0: seq<T>, at: nat, buff: seq<T>, mem: seq<T>) {
    exists k :: WrittenUpTo(mem0, at, buff, k, mem)
  }

  lemma ChunkExtends<T>(mem0: seq<T>, at: nat, buff: seq<T>, k: nat, n: nat, mem: seq<T>)
    requires WrittenUpTo(mem0, at, buff, k, mem) && k <= n <= |buff|
    ensures WrittenUpTo(mem0, at, buff, n, Splice(mem, at + k, buff[k..n]))
  {
    SpliceAdjoining(mem0, at, buff[..k], buff[k..n]);
    assert buff[..n] == buff[..k] + buff[k..n];
  }
}
