/**
 The notification ring between the daemon and MobiCore: two free-running 32-bit counters over a
 power-of-two array, seen as one queue with both halves applied to it.
 */
module NotificationQueue {
  import opened Wrappers
  import opened Words

  // ------------------------------------------------------------------------------------------
  // 32-bit arithmetic
  // ------------------------------------------------------------------------------------------

  function Pow2(k: nat): (p: nat)
    ensures p >= 1
  {
    if k == 0 then 1 else 2 * Pow2(k - 1)
  }

  /** Bitwise and. */
  function And(x: nat, y: nat): (r: nat)
    ensures r <= y
    decreases x
  {
    if x == 0 || y == 0 then 0
    else (if x % 2 == 1 && y % 2 == 1 then 1 else 0) + 2 * And(x / 2, y / 2)
  }

  /** Unsigned subtraction wraps around. */
  function Sub32(x: nat, y: nat): nat {
    (x - y) % U32_RANGE
  }

  function Wrap(x: nat): (r: nat)
    ensures r < U32_RANGE
  {
    x % U32_RANGE
  }

  function Inc32(x: nat): nat {
    Wrap(x + 1)
  }

  lemma WrapSmall(x: nat)
    requires x < U32_RANGE
    ensures Wrap(x) == x
  {}

  lemma WrapPlus(x: nat, i: nat)
    ensures Wrap(Wrap(x) + i) == Wrap(x + i)
  {}

  lemma AndOddMask(x: nat, p: nat)
    requires p >= 1
    ensures And(x, 2 * p - 1) == x % 2 + 2 * And(x / 2, p - 1)
  {
    assert (2 * p - 1) / 2 == p - 1 && (2 * p - 1) % 2 == 1;
  }

  lemma Doubled(k: nat)
    requires k > 0
    ensures Pow2(k) == 2 * Pow2(k - 1)
  {}

  lemma RemainderOf(x: nat, m: nat, q: nat, r: nat)
    requires m > 0 && x == q * m + r && r < m
    ensures x % m == r
  {
    var d := q - x / m;
    assert d * m == x % m - r;
    MultipleIsFar(d, m);
  }

  lemma MultipleIsFar(d: int, m: int)
    requires m > 0
    ensures d >= 1 ==> d * m >= m
    ensures d <= -1 ==> d * m <= -m
  {}

  lemma HalveRemainder(x: nat, p: nat)
    requires p > 0
    ensures x % (2 * p) == x % 2 + 2 * (x / 2 % p)
  {
    var h := x / 2;
    var q, r := h / p, h % p;
    assert h == q * p + r;
    assert x == q * (2 * p) + (2 * r + x % 2);
    RemainderOf(x, 2 * p, q, 2 * r + x % 2);
  }

  lemma MaskStep(x: nat, p: nat)
    requires p > 0 && And(x / 2, p - 1) == x / 2 % p
    ensures And(x, 2 * p - 1) == x % (2 * p)
  {
    AndOddMask(x, p);
    HalveRemainder(x, p);
    hide And;
  }

  /** Masking with a power of two less one is taking the remainder. */
  lemma {:induction false} MaskIsRemainder(x: nat, k: nat)
    ensures And(x, Pow2(k) - 1) == x % Pow2(k)
    decreases k
  {
    if k > 0 {
      hide And;
      MaskIsRemainder(x / 2, k - 1);
      MaskStep(x, Pow2(k - 1));
    }
  }

  lemma MoveTwo(a: nat, b: nat)
    ensures a * (2 * b) == (2 * a) * b
  {}

  /** A queue size that is a power of two divides the range of the counters. */
  lemma {:induction false} SizeDividesRange(k: nat)
    requires k <= 32
    ensures Pow2(k) * Pow2(32 - k) == U32_RANGE
    decreases 32 - k
  {
    if k == 32 {
      Pow2Of32();
    } else {
      hide Pow2;
      SizeDividesRange(k + 1);
      Doubled(k + 1);
      Doubled(32 - k);
      MoveTwo(Pow2(k), Pow2(31 - k));
    }
  }

  lemma Pow2Of32()
    ensures Pow2(32) == U32_RANGE
  {
    assert Pow2(8) == 256;
    assert Pow2(16) == 65536;
    assert Pow2(24) == 16777216;
  }

  /** Wrapping at 2^32 does not move a counter to another slot. */
  lemma {:induction false} WrapKeepsSlot(x: nat, k: nat)
    requires k <= 32
    ensures At(Wrap(x), Pow2(k)) == At(x, Pow2(k))
  {
    hide Pow2;
    var size, times := Pow2(k), Pow2(32 - k);
    SizeDividesRange(k);
    var q, r := x / U32_RANGE, x % U32_RANGE;
    QuotientAndRemainder(x, U32_RANGE);
    QuotientAndRemainder(r, size);
    SplitTwice(x, size, times, q, r / size, r % size);
    RemainderOf(x, size, q * times + r / size, r % size);
  }

  lemma QuotientAndRemainder(x: nat, m: nat)
    requires m > 0
    ensures x == x / m * m + x % m && x % m < m
  {}

  lemma SplitTwice(x: nat, size: nat, times: nat, q: nat, q': nat, r': nat)
    requires x == q * (size * times) + (q' * size + r')
    ensures x == (q * times + q') * size + r'
  {
    assert q * (size * times) == (q * times) * size;
  }

  /** The slot of a counter value in a ring of `size` entries. */
  function At(counter: nat, size: nat): (slot: nat)
    requires size > 0
    ensures slot < size
  {
    counter % size
  }

  // ------------------------------------------------------------------------------------------
  // The ring
  // ------------------------------------------------------------------------------------------

  /** The header's counters and the notification array; the size is that of the array. */
  datatype Ring<T> = Ring(slots: seq<T>, writeCnt: nat, readCnt: nat, k: nat)
  {
    function Size(): nat { |slots| }

    function Slot(counter: nat): nat
      requires Size() > 0
    {
      And(counter, Size() - 1)
    }

    function Count(): nat {
      Sub32(writeCnt, readCnt)
    }

    predicate Valid() {
      && k <= 31 && Size() == Pow2(k)
      && writeCnt < U32_RANGE && readCnt < U32_RANGE && Count() <= Size()
    }

    /** Where the `i`-th entry from the oldest is, or would be. */
    function Entry(i: nat): nat
      requires Size() > 0
    {
      At(readCnt + i, Size())
    }

    /** The queue: oldest entry first. */
    function Contents(): (s: seq<T>)
      requires Valid()
      ensures |s| == Count() && forall i | 0 <= i < |s| :: s[i] == slots[Entry(i)]
    {
      seq(Count(), i requires 0 <= i < Count() => slots[Entry(i)])
    }

    /** putNotification: dropped when the ring is full. */
    function Put(x: T): Ring<T>
      requires Size() > 0
    {
      if Count() < Size() then
        this.(slots := slots[Slot(writeCnt) := x], writeCnt := Inc32(writeCnt))
      else this
    }

    /** getNotification: the slot of the oldest entry, if there is one. */
    function Get(): (Option<nat>, Ring<T>)
      requires Size() > 0
    {
      if Count() > 0 then (Some(Slot(readCnt)), this.(readCnt := Inc32(readCnt)))
      else (None, this)
    }
  }

  // ------------------------------------------------------------------------------------------
  // Slots
  // ------------------------------------------------------------------------------------------

  lemma {:induction false} SameSlotLater(x: nat, y: nat, i: nat, size: nat)
    requires size > 0 && At(x, size) == At(y, size)
    ensures At(x + i, size) == At(y + i, size)
  {
    QuotientAndRemainder(x, size);
    QuotientAndRemainder(y, size);
    var r := x % size + i;
    QuotientAndRemainder(r, size);
    SumSplits(x / size, r / size, size);
    SumSplits(y / size, r / size, size);
    RemainderOf(x + i, size, x / size + r / size, r % size);
    RemainderOf(y + i, size, y / size + r / size, r % size);
  }

  lemma SumSplits(a: nat, b: nat, m: nat)
    ensures (a + b) * m == a * m + b * m
  {}

  lemma {:induction false} Apart(a: int, b: int, r: int, r': int, i: int, m: int)
    requires 0 <= r < m && 0 <= r' < m && 0 < i <= m
    requires b * m + r' == a * m + r + i
    ensures r == r' <==> i == m
  {
    var d := b - a;
    assert d * m == r + i - r';
    assert (d - 1) * m == d * m - m;
    MultipleIsFar(d, m);
    MultipleIsFar(d - 1, m);
  }

  /** Counters less than a ring apart are in different slots; a whole ring apart in the same one. */
  lemma {:induction false} SlotsDiffer(x: nat, i: nat, size: nat)
    requires 0 < i <= size
    ensures At(x + i, size) == At(x, size) <==> i == size
  {
    QuotientAndRemainder(x, size);
    QuotientAndRemainder(x + i, size);
    Apart(x / size, (x + i) / size, x % size, (x + i) % size, i, size);
  }

  /** The slots the code computes are those of the queue's two ends. */
  lemma {:induction false} EndSlots<T>(q: Ring<T>)
    requires q.Valid()
    ensures q.Slot(q.readCnt) == q.Entry(0)
    ensures q.Slot(q.writeCnt) == q.Entry(q.Count())
  {
    hide Pow2, And;
    MaskIsRemainder(q.readCnt, q.k);
    MaskIsRemainder(q.writeCnt, q.k);
    CountReaches(q);
    WrapKeepsSlot(q.readCnt + q.Count(), q.k);
  }

  lemma {:induction false} SizeBound<T>(q: Ring<T>)
    requires q.Valid()
    ensures 0 < q.Size() <= 0x8000_0000
  {
    hide Pow2;
    SizeDividesRange(q.k);
    SizeDividesRange(31);
    AtLeastTwo(32 - q.k);
    Product(Pow2(q.k), Pow2(32 - q.k));
  }

  lemma AtLeastTwo(j: nat)
    requires j > 0
    ensures Pow2(j) >= 2
  {}

  lemma Product(a: nat, b: nat)
    requires a * b == U32_RANGE && b >= 2
    ensures a <= 0x8000_0000
  {}

  // ------------------------------------------------------------------------------------------
  // Refinement of a bounded queue
  // ------------------------------------------------------------------------------------------

  lemma CountMoves(w: nat, r: nat)
    requires w < U32_RANGE && r < U32_RANGE
    ensures Sub32(w, r) < U32_RANGE - 1 ==> Sub32(Inc32(w), r) == Sub32(w, r) + 1
    ensures Sub32(w, r) > 0 ==> Sub32(w, Inc32(r)) == Sub32(w, r) - 1
  {
    Difference(w, r);
    Difference(Inc32(w), r);
    Difference(w, Inc32(r));
    Next(w);
    Next(r);
    hide Sub32, Inc32;
  }

  lemma Difference(w: nat, r: nat)
    requires w < U32_RANGE && r < U32_RANGE
    ensures Sub32(w, r) == if w < r then w - r + U32_RANGE else w - r
  {}

  lemma Next(x: nat)
    requires x < U32_RANGE
    ensures Inc32(x) == if x == U32_RANGE - 1 then 0 else x + 1
  {}

  /** Putting appends; exactly when the ring is full it changes nothing. */
  lemma {:induction false} PutRefines<T>(q: Ring<T>, x: T)
    requires q.Valid()
    ensures q.Put(x).Valid() && q.Put(x).Size() == q.Size()
    ensures |q.Contents()| == q.Size() ==> q.Put(x) == q
    ensures |q.Contents()| < q.Size() ==> q.Put(x).Contents() == q.Contents() + [x]
  {
    hide Pow2, And, At, Sub32, Wrap;
    SizeBound(q);
    EndSlots(q);
    CountMoves(q.writeCnt, q.readCnt);
    if q.Count() < q.Size() {
      var n, size, r := q.Count(), q.Size(), q.Put(x);
      assert r.Count() == n + 1;
      assert forall i: nat :: r.Entry(i) == q.Entry(i);
      forall i | 0 <= i < n
        ensures q.Entry(i) != q.Entry(n)
      {
        SlotsDiffer(q.readCnt + i, n - i, size);
      }
    }
  }

  /** Getting gives the slot of the oldest entry and removes it; exactly when the ring is empty it gives none. */
  lemma {:induction false} GetRefines<T>(q: Ring<T>)
    requires q.Valid()
    ensures q.Get().1.Valid() && q.Get().1.slots == q.slots
    ensures q.Get().0.None? <==> q.Contents() == []
    ensures q.Contents() == [] ==> q.Get().1 == q
    ensures q.Contents() != [] ==>
              && q.Get().0.value < q.Size() && q.slots[q.Get().0.value] == q.Contents()[0]
              && q.Get().1.Contents() == q.Contents()[1..]
  {
    hide Pow2, And, At, Sub32, Wrap;
    SizeBound(q);
    EndSlots(q);
    CountMoves(q.writeCnt, q.readCnt);
    if q.Count() > 0 {
      var r := q.Get().1;
      assert r.Count() == q.Count() - 1;
      WrapKeepsSlot(q.readCnt + 1, q.k);
      forall i | 0 <= i < r.Count()
        ensures r.Entry(i) == q.Entry(1 + i)
      {
        SameSlotLater(r.readCnt, q.readCnt + 1, i, q.Size());
      }
    }
  }

  // ------------------------------------------------------------------------------------------
  // Runs
  // ------------------------------------------------------------------------------------------

  datatype Op<T> = PutOp(x: T) | GetOp

  function Apply<T>(q: Ring<T>, op: Op<T>): Ring<T>
    requires q.Size() > 0
  {
    match op case PutOp(x) => q.Put(x) case GetOp => q.Get().1
  }

  function Run<T>(q: Ring<T>, ops: seq<Op<T>>): (r: Ring<T>)
    requires q.Size() > 0
    ensures r.Size() == q.Size()
  {
    if ops == [] then q else Apply(Run(q, ops[..|ops| - 1]), ops[|ops| - 1])
  }

  /** What each getNotification of a run points to, at the moment it returns. */
  function Delivered<T>(q: Ring<T>, ops: seq<Op<T>>): seq<Option<T>>
    requires q.Size() > 0
  {
    if ops == [] then []
    else
      var before := Run(q, ops[..|ops| - 1]);
      Delivered(q, ops[..|ops| - 1]) +
      if ops[|ops| - 1].PutOp? then []
      else [if before.Get().0.Some? then Some(before.slots[before.Get().0.value]) else None]
  }

  /** A bounded queue, and what it delivers. */
  function QueueAfter<T>(s: seq<T>, size: nat, ops: seq<Op<T>>): seq<T> {
    if ops == [] then s
    else
      var before := QueueAfter(s, size, ops[..|ops| - 1]);
      match ops[|ops| - 1]
      case PutOp(x) => if |before| < size then before + [x] else before
      case GetOp => if before == [] then [] else before[1..]
  }

  function QueueDelivers<T>(s: seq<T>, size: nat, ops: seq<Op<T>>): seq<Option<T>> {
    if ops == [] then []
    else
      var before := QueueAfter(s, size, ops[..|ops| - 1]);
      QueueDelivers(s, size, ops[..|ops| - 1]) +
      if ops[|ops| - 1].PutOp? then []
      else [if before == [] then None else Some(before[0])]
  }

  /** On every run, from any counter values, the ring is a bounded queue. */
  lemma {:induction false} RunRefinesQueue<T>(q: Ring<T>, ops: seq<Op<T>>)
    requires q.Valid() && q.Size() > 0
    ensures Run(q, ops).Valid()
    ensures Run(q, ops).Contents() == QueueAfter(q.Contents(), q.Size(), ops)
    ensures Delivered(q, ops) == QueueDelivers(q.Contents(), q.Size(), ops)
  {
    hide Pow2, And, At;
    if ops != [] {
      var front := ops[..|ops| - 1];
      var before := Run(q, front);
      RunRefinesQueue(q, front);
      GetRefines(before);
      match ops[|ops| - 1]
      case PutOp(x) => PutRefines(before, x);
      case GetOp =>
    }
  }

  // ------------------------------------------------------------------------------------------
  // Lifetime of a returned slot
  // ------------------------------------------------------------------------------------------

  function Puts<T>(ops: seq<Op<T>>): nat {
    if ops == [] then 0 else Puts(ops[..|ops| - 1]) + if ops[|ops| - 1].PutOp? then 1 else 0
  }

  /** None of the puts is dropped while the slot survives, whatever gets come between them. */
  lemma {:induction false} WriterMoves<T>(q: Ring<T>, ops: seq<Op<T>>)
    requires q.Valid() && q.Size() > 0 && q.Count() + Puts(ops) <= q.Size()
    ensures Run(q, ops).Valid() && Run(q, ops).Count() <= q.Count() + Puts(ops)
    ensures Run(q, ops).writeCnt == Wrap(q.writeCnt + Puts(ops))
  {
    hide Pow2, And, At, Wrap, Sub32;
    SizeBound(q);
    if ops != [] {
      var front := ops[..|ops| - 1];
      var before := Run(q, front);
      WriterMoves(q, front);
      SizeBound(before);
      match ops[|ops| - 1]
      case PutOp(x) =>
        PutRefines(before, x);
        WrapPlus(q.writeCnt + Puts(front), 1);
      case GetOp =>
        GetRefines(before);
    } else {
      WrapSmall(q.writeCnt);
    }
  }

  /** The slot the next put writes to, when the write counter is `d` past `c`. */
  lemma {:induction false} WriterSlot<T>(q: Ring<T>, c: nat, d: nat)
    requires q.Valid() && q.writeCnt == Wrap(c + d)
    ensures q.Slot(q.writeCnt) == At(c + d, q.Size())
  {
    hide Pow2, And, Wrap, Sub32;
    MaskIsRemainder(q.writeCnt, q.k);
    WrapKeepsSlot(c + d, q.k);
  }

  /**
   The slot a get returns, when `n` entries are left, keeps its entry through the next
   size - 1 - n puts, with any gets in between, and exactly the put after those overwrites it.
   */
  lemma {:induction false} SlotLifetime<T>(q: Ring<T>, ops: seq<Op<T>>, x: T)
    requires q.Valid() && q.Get().0.Some?
    requires (|q.Contents()| - 1) + Puts(ops) <= q.Size() - 1
    ensures var left, slot := q.Get().1, q.Get().0.value;
            && slot < q.Size() && Run(left, ops).slots[slot] == q.slots[slot]
            && ((|q.Contents()| - 1) + Puts(ops) == q.Size() - 1 ==> Run(left, ops + [PutOp(x)]).slots[slot] == x)
  {
    hide Pow2, And, At, Wrap, Sub32;
    var left, slot, c := q.Get().1, q.Get().0.value, q.readCnt;
    SizeBound(q);
    GetRefines(q);
    EndSlots(q);
    WriterOfLeft(q);
    SlotUntouched(left, ops, c, slot);
    assert (ops + [PutOp(x)])[..|ops|] == ops;
    var later := Run(left, ops);
    WriterMoves(left, ops);
    var d := 1 + left.Count() + Puts(ops);
    WrapPlus(c + 1 + left.Count(), Puts(ops));
    WriterSlot(later, c, d);
    SlotsDiffer(c, d, q.Size());
  }

  lemma WriterOfLeft<T>(q: Ring<T>)
    requires q.Valid() && q.Get().0.Some?
    ensures q.Get().1.Valid() && q.Get().1.Count() == q.Count() - 1
    ensures q.writeCnt == Wrap(q.readCnt + 1 + q.Get().1.Count())
  {
    hide Pow2, And, At, Wrap, Sub32;
    GetRefines(q);
    CountReaches(q);
  }

  lemma CountReaches<T>(q: Ring<T>)
    requires q.Valid()
    ensures q.writeCnt == Wrap(q.readCnt + q.Count())
  {
    hide Pow2;
  }

  lemma {:induction false} SlotUntouched<T>(left: Ring<T>, ops: seq<Op<T>>, c: nat, slot: nat)
    requires left.Valid() && left.Size() > 0 && left.Count() + Puts(ops) <= left.Size() - 1
    requires left.writeCnt == Wrap(c + 1 + left.Count()) && slot == At(c, left.Size())
    ensures Run(left, ops).slots[slot] == left.slots[slot]
  {
    hide Pow2, And, At, Wrap, Sub32;
    if ops != [] {
      var front := ops[..|ops| - 1];
      var before := Run(left, front);
      SlotUntouched(left, front, c, slot);
      WriterMoves(left, front);
      match ops[|ops| - 1]
      case PutOp(x) =>
        var d := 1 + left.Count() + Puts(front);
        WrapPlus(c + 1 + left.Count(), Puts(front));
        WriterSlot(before, c, d);
        SlotsDiffer(c, d, left.Size());
      case GetOp =>
        GetRefines(before);
    }
  }

  // ------------------------------------------------------------------------------------------
  // The class
  // ------------------------------------------------------------------------------------------

  /** One direction of the queue, with the operations of both of its ends. */
  class Queue<T> {
    const notification: array<T>
    var writeCnt: nat
    var readCnt: nat
    ghost const k: nat

    ghost function View(): Ring<T>
      reads this, notification
    {
      Ring(notification[..], writeCnt, readCnt, k)
    }

    ghost predicate Valid()
      reads this, notification
    {
      View().Valid()
    }

    /** The shared memory keeps whatever counters it holds; only the size is set. */
    constructor (notification: array<T>, writeCnt: nat, readCnt: nat, ghost k: nat)
      requires Ring(notification[..], writeCnt, readCnt, k).Valid()
      ensures this.notification == notification && View() == Ring(notification[..], writeCnt, readCnt, k) && Valid()
    {
      this.notification, this.writeCnt, this.readCnt, this.k := notification, writeCnt, readCnt, k;
    }

    method PutNotification(x: T)
      requires Valid()
      modifies this`writeCnt, notification
      ensures Valid() && View() == old(View()).Put(x)
      ensures var queued := old(View().Contents());
              View().Contents() == if |queued| < notification.Length then queued + [x] else queued
    {
      hide Pow2, At, Wrap;
      PutRefines(View(), x);
      SizeBound(View());
      if Sub32(writeCnt, readCnt) < notification.Length {
        notification[And(writeCnt, notification.Length - 1)] := x;
        writeCnt := Inc32(writeCnt);
      }
    }

    /** The result is an index: the caller reads the slot after the queue has let go of it. */
    method GetNotification() returns (slot: Option<nat>)
      requires Valid()
      modifies this`readCnt
      ensures Valid() && (slot, View()) == old(View()).Get()
      ensures slot.None? <==> old(View().Contents()) == []
      ensures slot.Some? ==>
                && slot.value < notification.Length && notification[slot.value] == old(View().Contents())[0]
                && View().Contents() == old(View().Contents())[1..]
    {
      hide Pow2, At, Wrap;
      GetRefines(View());
      SizeBound(View());
      slot := None;
      if Sub32(writeCnt, readCnt) > 0 {
        slot := Some(And(readCnt, notification.Length - 1));
        readCnt := Inc32(readCnt);
      }
    }
  }
}
