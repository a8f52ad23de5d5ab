/** The circular buffers of the firmware: storage, the index the next element
    is written at (`head`) and the index of the oldest element (`tail`), with
    one slot kept free so that `head == tail` means empty. Every operation is
    related to the plain FIFO sequence the buffer holds. */
module Ring {

  datatype Ring<T> = Ring(buf: seq<T>, head: nat, tail: nat)

  predicate Valid<T>(r: Ring<T>) {
    0 < |r.buf| && r.head < |r.buf| && r.tail < |r.buf|
  }

  /** An empty buffer of `n` slots, every slot holding `fill`. */
  function Empty<T>(n: nat, fill: T): (r: Ring<T>)
    requires 0 < n
    ensures Valid(r) && |r.buf| == n && Contents(r) == []
  {
    Ring(seq(n, _ => fill), 0, 0)
  }

  /** Reduction modulo `n` of a value below `2 * n` subtracts `n` at most once. */
  lemma ModRange(x: int, n: int)
    requires 0 < n && 0 <= x < 2 * n
    ensures x % n == (if x < n then x else x - n)
  {
    if x < n {
      assert x == 0 * n + x;
    } else {
      assert x == 1 * n + (x - n);
    }
  }

  /** Index arithmetic modulo the buffer size, for indices already reduced. */
  lemma Wrap(t: int, i: int, n: int)
    requires 0 <= t < n && 0 <= i <= n
    ensures (t + i) % n == if t + i < n then t + i else t + i - n
  {
    ModRange(t + i, n);
  }

  function Count<T>(r: Ring<T>): (c: nat)
    requires Valid(r)
    ensures c < |r.buf|
    ensures c == if r.tail <= r.head then r.head - r.tail else r.head + |r.buf| - r.tail
  {
    ModRange(r.head - r.tail + |r.buf|, |r.buf|);
    (r.head - r.tail + |r.buf|) % |r.buf|
  }

  lemma HeadAfterCount<T>(r: Ring<T>)
    requires Valid(r)
    ensures (r.tail + Count(r)) % |r.buf| == r.head
  {
    Wrap(r.tail, Count(r), |r.buf|);
  }

  /** The elements held, oldest first. */
  function Contents<T>(r: Ring<T>): (s: seq<T>)
    requires Valid(r)
    ensures |s| == Count(r)
  {
    seq(Count(r), i requires 0 <= i < Count(r) => r.buf[(r.tail + i) % |r.buf|])
  }

  predicate Full<T>(r: Ring<T>)
    requires Valid(r)
  {
    (r.head + 1) % |r.buf| == r.tail
  }

  /** The buffer is full exactly when it holds one element less than its size. */
  lemma FullIffCount<T>(r: Ring<T>)
    requires Valid(r)
    ensures Full(r) <==> Count(r) == |r.buf| - 1
  {
    Wrap(r.head, 1, |r.buf|);
  }

  /** Writing at `head` and advancing it appends to the FIFO. */
  function Push<T>(r: Ring<T>, x: T): (r': Ring<T>)
    requires Valid(r) && !Full(r)
    ensures Valid(r') && |r'.buf| == |r.buf| && r'.tail == r.tail
    ensures Contents(r') == Contents(r) + [x]
  {
    var n := |r.buf|;
    var r' := Ring(r.buf[r.head := x], (r.head + 1) % n, r.tail);
    assert Count(r') == Count(r) + 1 by { FullIffCount(r); Wrap(r.head, 1, n); }
    forall i | 0 <= i < Count(r')
      ensures Contents(r')[i] == (Contents(r) + [x])[i]
    {
      Wrap(r.tail, i, n);
      Wrap(r.tail, Count(r), n);
      HeadAfterCount(r);
    }
    r'
  }

  function Front<T>(r: Ring<T>): (x: T)
    requires Valid(r) && Count(r) > 0
    ensures x == Contents(r)[0]
  {
    ModRange(r.tail, |r.buf|);
    r.buf[r.tail]
  }

  /** Advancing `tail` removes the oldest element. */
  function Pop<T>(r: Ring<T>): (r': Ring<T>)
    requires Valid(r) && Count(r) > 0
    ensures Valid(r') && |r'.buf| == |r.buf| && r'.head == r.head
    ensures Contents(r') == Contents(r)[1..]
  {
    var n := |r.buf|;
    var r' := Ring(r.buf, r.head, (r.tail + 1) % n);
    assert Count(r') == Count(r) - 1 by { Wrap(r.tail, 1, n); }
    forall i | 0 <= i < Count(r')
      ensures Contents(r')[i] == Contents(r)[1..][i]
    {
      Wrap(r.tail, 1, n);
      Wrap((r.tail + 1) % n, i, n);
      Wrap(r.tail, i + 1, n);
    }
    r'
  }

  /** Advancing `tail` by `k`: the reader consumes the `k` oldest elements. */
  function Skip<T>(r: Ring<T>, k: nat): (r': Ring<T>)
    requires Valid(r) && k <= Count(r)
    ensures Valid(r') && |r'.buf| == |r.buf| && r'.head == r.head
    ensures Contents(r') == Contents(r)[k..]
  {
    var n := |r.buf|;
    var r' := Ring(r.buf, r.head, (r.tail + k) % n);
    Wrap(r.tail, k, n);
    assert Count(r') == Count(r) - k;
    forall i | 0 <= i < Count(r')
      ensures Contents(r')[i] == Contents(r)[k..][i]
    {
      Wrap((r.tail + k) % n, i, n);
      Wrap(r.tail, k + i, n);
    }
    r'
  }

  /** Moving `tail` up to `head`: the reader consumes everything held. */
  function ConsumeAll<T>(r: Ring<T>): (r': Ring<T>)
    requires Valid(r)
    ensures Valid(r') && |r'.buf| == |r.buf| && r'.head == r.head
    ensures Contents(r') == []
  {
    Ring(r.buf, r.head, r.head)
  }

  /** Moving `head` back to `tail`: everything held is thrown away. */
  function DiscardAll<T>(r: Ring<T>): (r': Ring<T>)
    requires Valid(r)
    ensures Valid(r') && |r'.buf| == |r.buf| && r'.tail == r.tail
    ensures Contents(r') == []
  {
    Ring(r.buf, r.tail, r.tail)
  }

  /** The element at offset `i` from `tail` sits at the wrapped index. */
  lemma ContentsAt<T>(r: Ring<T>, i: nat)
    requires Valid(r) && i < Count(r)
    ensures Contents(r)[i] == r.buf[(r.tail + i) % |r.buf|]
  {
  }
}
