/** The circular array of the blocking queue: two indices that start at -1 and chase each other,
    against the sequence they stand for. */
module RingBuffer {

  datatype Ring<T> = Ring(cells: seq<T>, front: int, back: int, size: int)

  /** The last cell is as far behind the one before the first as there are elements. */
  ghost predicate Valid<T>(r: Ring<T>) {
    && |r.cells| > 0
    && 0 <= r.size <= |r.cells|
    && -1 <= r.front < |r.cells| && -1 <= r.back < |r.cells|
    && (r.front + r.size - r.back) % |r.cells| == 0
  }

  /** The cells from the one after `front` on, round the end. */
  ghost function Contents<T>(r: Ring<T>): (q: seq<T>)
    requires Valid(r)
  {
    seq(r.size, k requires 0 <= k < r.size => r.cells[(r.front + 1 + k) % |r.cells|])
  }

  function PushRing<T>(r: Ring<T>, item: T): Ring<T>
    requires Valid(r) && r.size < |r.cells|
  {
    var back := (r.back + 1) % |r.cells|;
    r.(back := back, cells := r.cells[back := item], size := r.size + 1)
  }

  function TakeRing<T>(r: Ring<T>): (T, Ring<T>)
    requires Valid(r) && r.size > 0
  {
    var front := (r.front + 1) % |r.cells|;
    (r.cells[front], r.(front := front, size := r.size - 1))
  }

  lemma AtLeast(a: int, cap: int)
    requires a >= 1 && cap > 0
    ensures a * cap >= cap
  {
  }

  lemma RemainderIs(i: int, cap: int, q: int, m: int)
    requires cap > 0 && 0 <= m < cap && i == q * cap + m
    ensures i / cap == q && i % cap == m
  {
    var d, e := i / cap, i % cap;
    assert i == d * cap + e && 0 <= e < cap;
    assert (q - d) * cap == e - m by {
      assert (q - d) * cap == q * cap - d * cap;
    }
    if q > d {
      AtLeast(q - d, cap);
    } else if q < d {
      assert (d - q) * cap == m - e;
      AtLeast(d - q, cap);
    }
  }

  /** Once round at most, the remainder is a subtraction. */
  lemma Wrap(i: int, cap: int)
    requires 0 <= i < 2 * cap
    ensures i % cap == if i < cap then i else i - cap
  {
    if i < cap {
      RemainderIs(i, cap, 0, i);
    } else {
      RemainderIs(i, cap, 1, i - cap);
    }
  }

  lemma WholeTurns(i: int, k: int, cap: int)
    requires cap > 0
    ensures (i + k * cap) % cap == i % cap
  {
    var q := i / cap;
    assert (q + k) * cap == q * cap + k * cap;
    RemainderIs(i + k * cap, cap, q + k, i % cap);
  }

  /** Where back goes next is right behind the last element. */
  lemma NextSlot<T>(r: Ring<T>)
    requires Valid(r)
    ensures (r.back + 1) % |r.cells| == (r.front + 1 + r.size) % |r.cells|
  {
    var cap := |r.cells|;
    var k := (r.front + r.size - r.back) / cap;
    assert r.front + 1 + r.size == r.back + 1 + k * cap;
    WholeTurns(r.back + 1, k, cap);
  }

  lemma SlotsDiffer(f: int, a: int, b: int, cap: int)
    requires 0 <= f <= cap && 0 <= a < b < cap
    ensures (f + a) % cap != (f + b) % cap
  {
    Wrap(f + a, cap);
    Wrap(f + b, cap);
  }

  lemma SlotAfter(f: int, k: int, cap: int)
    requires 0 <= f <= cap && 0 < cap
    ensures (f % cap + k) % cap == (f + k) % cap
  {
    Wrap(f, cap);
    WholeTurns(f % cap + k, if f < cap then 0 else 1, cap);
  }

  lemma PushValid<T>(r: Ring<T>, item: T)
    requires Valid(r) && r.size < |r.cells|
    ensures Valid(PushRing(r, item))
  {
    var cap := |r.cells|;
    var b := (r.back + 1) % cap;
    var k, q := (r.front + r.size - r.back) / cap, (r.back + 1) / cap;
    assert r.front + (r.size + 1) - b == k * cap + q * cap;
    assert (k + q) * cap == k * cap + q * cap;
    RemainderIs(r.front + (r.size + 1) - b, cap, k + q, 0);
  }

  lemma TakeValid<T>(r: Ring<T>)
    requires Valid(r) && r.size > 0
    ensures Valid(TakeRing(r).1)
  {
    var cap := |r.cells|;
    var f := (r.front + 1) % cap;
    var k, q := (r.front + r.size - r.back) / cap, (r.front + 1) / cap;
    assert f + (r.size - 1) - r.back == k * cap - q * cap;
    assert (k - q) * cap == k * cap - q * cap;
    RemainderIs(f + (r.size - 1) - r.back, cap, k - q, 0);
  }

  /** push() appends, for every capacity. */
  lemma PushAppends<T>(r: Ring<T>, item: T)
    requires Valid(r) && r.size < |r.cells|
    ensures Valid(PushRing(r, item)) && Contents(PushRing(r, item)) == Contents(r) + [item]
  {
    var cap := |r.cells|;
    var s := PushRing(r, item);
    PushValid(r, item);
    NextSlot(r);
    assert s.back == (r.front + 1 + r.size) % cap;
    forall k | 0 <= k < r.size
      ensures Contents(s)[k] == Contents(r)[k]
    {
      SlotsDiffer(r.front + 1, k, r.size, cap);
    }
    assert Contents(s)[r.size] == item;
  }

  /** pop() takes the first, for every capacity. */
  lemma TakeRemoves<T>(r: Ring<T>)
    requires Valid(r) && r.size > 0
    ensures var (item, s) := TakeRing(r);
      Valid(s) && Contents(r) == [item] + Contents(s)
  {
    var cap := |r.cells|;
    var (item, s) := TakeRing(r);
    TakeValid(r);
    assert Contents(r)[0] == item;
    forall k | 0 <= k < s.size
      ensures Contents(s)[k] == Contents(r)[k+1]
    {
      SlotAfter(r.front + 1, k + 1, cap);
      assert s.front + 1 + k == (r.front + 1) % cap + (k + 1);
    }
  }

  /** The queue object, as its methods leave it while they hold the mutex. */
  class BlockQueue<T(0)> {
    var cells: array<T>
    var maxSize: int
    var size: int
    var front: int
    var back: int

    ghost function AsRing(): Ring<T>
      reads this, cells
    {
      Ring(cells[..], front, back, size)
    }

    ghost predicate Sound()
      reads this, cells
    {
      maxSize == cells.Length && Valid(AsRing())
    }

    ghost function View(): seq<T>
      requires Sound()
      reads this, cells
    {
      Contents(AsRing())
    }

    constructor (maxSize: int)
      requires maxSize > 0
      ensures Sound() && this.maxSize == maxSize && View() == [] && fresh(cells)
    {
      this.maxSize := maxSize;
      cells := new T[maxSize];
      size, front, back := 0, -1, -1;
    }

    /** The program exits on a size that is not positive; here there is no queue then. */
    static method Create(maxSize: int) returns (q: BlockQueue?<T>)
      ensures q == null <==> maxSize <= 0
      ensures q != null ==> fresh(q) && fresh(q.cells) && q.Sound() && q.maxSize == maxSize && q.View() == []
    {
      if maxSize <= 0 {
        q := null;
      } else {
        q := new BlockQueue(maxSize);
      }
    }

    method Push(item: T) returns (ok: bool)
      requires Sound()
      modifies this, cells
      ensures Sound() && cells == old(cells) && maxSize == old(maxSize)
      ensures ok <==> |old(View())| < maxSize
      ensures ok ==> AsRing() == PushRing(old(AsRing()), item) && View() == old(View()) + [item]
      ensures !ok ==> AsRing() == old(AsRing())
    {
      if size >= maxSize {
        return false;
      }
      PushAppends(AsRing(), item);
      back := (back + 1) % maxSize;
      cells[back] := item;
      size := size + 1;
      assert AsRing() == PushRing(old(AsRing()), item);
      return true;
    }

    /** What either pop() does once it has found the queue not empty. */
    method Take() returns (item: T)
      requires Sound() && size > 0
      modifies this
      ensures Sound() && cells == old(cells) && maxSize == old(maxSize)
      ensures (item, AsRing()) == TakeRing(old(AsRing())) && old(View()) == [item] + View()
    {
      TakeRemoves(AsRing());
      front := (front + 1) % maxSize;
      item := cells[front];
      size := size - 1;
    }
  }
}
