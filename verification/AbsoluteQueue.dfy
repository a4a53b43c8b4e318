/** The ring queue of queue.hpp: every element keeps the index it was pushed at, while the
    buffer wraps around, grows, and the 64-bit indices overflow. */
module AbsoluteQueue {
  import opened Modular

  // next2pow
  method Next2Pow(number: nat) returns (p: nat)
    requires number <= HALF
    ensures IsPow2(p) && number <= p && (number > 1 ==> p < 2 * number) && (number <= 1 ==> p == 1)
    ensures p <= HALF
  {
    p := 1;
    assert 1 == Pow2(0);
    while number > p
      invariant IsPow2(p) && p <= HALF
      invariant p == 1 || p < 2 * number
      decreases number - p
    {
      DoublePow2(p);
      Below(p, number);
      p := p * 2;
    }
  }

  // A power of two below a number up to 2^63 is at most 2^62.
  lemma Below(p: nat, number: nat)
    requires IsPow2(p) && p < number <= HALF
    ensures 2 * p <= HALF
  {
    Pow64();
    var e: nat :| p == Pow2(e);
    if e >= 63 { Pow2Grows(63, e); }
    Pow2Grows(e + 1, 63);
  }

  // The cell of the k-th element behind an index.
  function Cell(first: nat, k: nat, capacity: nat): (c: nat)
    requires capacity > 0
    ensures c < capacity
  {
    (first + k) % capacity
  }

  class Queue<T(0)> {
    var start: nat
    var size: nat
    var loops: nat
    var vec: array<T>
    // The front's index as an unbounded number, and the elements from there on.
    ghost var first: nat
    ghost var items: seq<T>

    /** The element with unbounded index first + k lies in cell (first + k) modulo the capacity,
        a power of two, and start and loops spell first modulo 2^64. */
    ghost predicate Valid()
      reads this, vec
    {
      && |items| == size <= vec.Length
      && (start + loops * vec.Length) % WORD == first % WORD
      && loops < WORD
      && (vec.Length > 0 ==>
            && IsPow2(vec.Length) && vec.Length <= HALF
            && start < vec.Length && start == first % vec.Length
            && forall k :: 0 <= k < size ==> vec[Cell(first, k, vec.Length)] == items[k])
      && (vec.Length == 0 ==> start == 0)
    }

    function BeginIndex(): (i: nat)
      requires Valid()
      reads this, vec
      ensures i == first % WORD
    {
      (start + loops * vec.Length) % WORD
    }

    function EndIndex(): (i: nat)
      requires Valid()
      reads this, vec
      ensures i == (first + size) % WORD
    {
      ModSum(start + loops * vec.Length, first, size, WORD);
      (size + start + loops * vec.Length) % WORD
    }

    /** valid_index, with its two cases for indices that have and have not overflowed between
        the front and the end: true exactly for the indices of the elements. */
    function ValidIndex(index: nat): (r: bool)
      requires Valid() && index < WORD
      reads this, vec
      ensures r <==> (index - first) % WORD < size
    {
      ValidIndexMeans(index);
      if BeginIndex() < EndIndex() && index >= BeginIndex() && index < EndIndex() then true
      else BeginIndex() > EndIndex() && (index >= BeginIndex() || index < EndIndex())
    }

    lemma ValidIndexMeans(index: nat)
      requires Valid() && index < WORD
      ensures var b, e := first % WORD, (first + size) % WORD;
              (index - first) % WORD < size <==> (b < e && b <= index < e) || (b > e && (index >= b || index < e))
    {
      var b, e := first % WORD, (first + size) % WORD;
      var q := first / WORD;
      assert first == WORD * q + b;
      ModAdd(first, size, WORD);
      assert index - first == WORD * -q + (index - b);
      ModOfMultiple(WORD, -q, index - b);
      if index >= b {
        ModSmall(index - b, WORD);
      } else {
        DivModUnique(index - b, WORD, -1, index - b + WORD);
      }
    }

    // The position among the elements that an index stands for.
    ghost function Rank(index: nat): (k: nat)
      reads this
      requires index < WORD && (index - first) % WORD < size
      ensures k < size && (first + k) % WORD == index
    {
      var k := (index - first) % WORD;
      assert index - first == WORD * ((index - first) / WORD) + k;
      assert first + k == WORD * -((index - first) / WORD) + index;
      ModOfMultiple(WORD, -((index - first) / WORD), index);
      ModSmall(index, WORD);
      k
    }

    static lemma RankIn(f: nat, k: nat)
      requires k < WORD
      ensures 0 <= (f + k) % WORD < WORD && ((f + k) % WORD - f) % WORD == k
    {
      var q := (f + k) / WORD;
      assert f + k == WORD * q + (f + k) % WORD;
      assert (f + k) % WORD - f == WORD * -q + k;
      ModOfMultiple(WORD, -q, k);
      ModSmall(k, WORD);
    }

    lemma CellOf(index: nat)
      requires Valid() && index < WORD && (index - first) % WORD < size
      ensures index % vec.Length == Cell(first, Rank(index), vec.Length)
    {
      ModOfWord(first + Rank(index), vec.Length);
    }

    /** A queue that should have the given end index. It has it exactly when the end index is not
        0 or there are no elements, and without any capacity only when it is 0. Then begin_index()
        is end minus size modulo 2^64; otherwise the queue begins at 0. The size has to fit into the
        capacity rounded up to a power of two. */
    constructor (capacity: nat, endIndex: nat, size0: nat)
      requires capacity <= HALF && endIndex < WORD
      requires size0 > 0 ==> capacity > 0 && forall p: nat :: IsPow2(p) && capacity <= p ==> size0 <= p
      ensures Valid() && fresh(vec) && size == size0
      ensures EndIndex() == endIndex <==> if capacity == 0 then endIndex == 0 else endIndex != 0 || size0 == 0
      ensures first == if EndIndex() == endIndex then (endIndex - size0) % WORD else 0
      ensures capacity == 0 ==> vec.Length == 0
      ensures capacity > 0 ==> IsPow2(vec.Length) && capacity <= vec.Length
      ensures capacity > 0 ==> vec.Length == 1 || vec.Length < 2 * capacity
    {
      var cap := 0;
      if capacity != 0 {
        cap := Next2Pow(capacity);
      }
      var start0, loops0 := Origin(cap, endIndex, size0);
      ghost var b := if cap != 0 && endIndex != 0 then (endIndex - size0) % WORD else 0;
      var buffer := new T[cap];
      start, size, loops, vec := start0, size0, loops0, buffer;
      first := b;
      new;
      items := seq(size0, k requires 0 <= k < size0 && cap > 0 reads buffer => buffer[Cell(b, k, cap)]);
    }

    // Where the constructor puts the front.
    static method Origin(cap: nat, endIndex: nat, size0: nat) returns (start0: nat, loops0: nat)
      requires endIndex < WORD && size0 < WORD && (size0 > 0 ==> cap > 0)
      ensures loops0 < WORD && (cap == 0 ==> start0 == 0)
      ensures var b := if cap != 0 && endIndex != 0 then (endIndex - size0) % WORD else 0;
              && (start0 + loops0 * cap) % WORD == b % WORD && (cap > 0 ==> start0 == b % cap)
              && (b + size0) % WORD == if cap != 0 && endIndex != 0 then endIndex else size0
    {
      start0, loops0 := 0, 0;
      if cap != 0 && endIndex != 0 {
        start0 := (endIndex - size0) % WORD % cap;
        ghost var b := (endIndex - size0) % WORD;
        StartsAt(cap, b, endIndex - size0, start0);
        var turned := (endIndex - start0 - size0) % WORD;
        assert turned == b - start0;
        loops0 := turned / cap;
        EndIs(endIndex, size0);
      } else {
        ModSmall(size0, WORD);
        assert 0 * cap == 0;
        if cap > 0 { ModSmall(0, cap); }
      }
    }

    static lemma StartsAt(cap: nat, b: nat, x: int, s: nat)
      requires cap > 0 && b == x % WORD && s == b % cap
      ensures s <= b && (x - s) % WORD == b - s
      ensures s + (b - s) / cap * cap == b
      ensures 0 <= (b - s) / cap < WORD
    {
      Turns(b, cap);
      ModAtMost(b, cap);
      assert x - s == WORD * (x / WORD) + (b - s);
      ModOfMultiple(WORD, x / WORD, b - s);
      ModSmall(b - s, WORD);
      QuotientAtMost(b - s, cap);
    }

    static lemma EndIs(endIndex: nat, size0: nat)
      requires endIndex < WORD
      ensures ((endIndex - size0) % WORD + size0) % WORD == endIndex
    {
      ModSum((endIndex - size0) % WORD, endIndex - size0, size0, WORD);
      ModSmall(endIndex, WORD);
    }

    /** operator[] on a valid index. */
    function Get(index: nat): (x: T)
      requires Valid() && index < WORD && ValidIndex(index)
      reads this, vec
      ensures x == items[Rank(index)]
    {
      CellOf(index);
      vec[index % vec.Length]
    }

    /** front() */
    function Front(): (x: T)
      requires Valid() && size > 0
      reads this, vec
      ensures x == items[0]
    {
      assert Cell(first, 0, vec.Length) == start;
      vec[start]
    }

    /** Assignment through operator[]. */
    method Put(index: nat, x: T)
      requires Valid() && index < WORD && ValidIndex(index)
      modifies this`items, vec
      ensures Valid() && vec == old(vec) && items == old(items)[old(Rank(index)) := x]
    {
      ghost var r := Rank(index);
      CellOf(index);
      var c := index % vec.Length;
      forall k | 0 <= k < size && Cell(first, k, vec.Length) == c
        ensures k == r
      {
        ModInjective(first, k, r, vec.Length);
      }
      vec[c] := x;
      items := items[r := x];
    }

    /** pop: the front goes, every other element keeps its index. */
    method Pop()
      requires Valid() && size > 0
      modifies this
      ensures Valid() && vec == old(vec) && first == old(first) + 1 && items == old(items)[1..]
    {
      ModNext(first, vec.Length);
      ModSum(start + loops * vec.Length, first, 1, WORD);
      size := size - 1;
      start := start + 1;
      if start == vec.Length {
        start := 0;
        NextTurn(loops, vec.Length);
        loops := (loops + 1) % WORD;
      }
      first := first + 1;
      items := items[1..];
    }

    static lemma NextTurn(l: nat, c: nat)
      requires l < WORD
      ensures ((l + 1) % WORD * c) % WORD == (c + l * c) % WORD
    {
      var q := (l + 1) / WORD;
      assert l + 1 == WORD * q + (l + 1) % WORD;
      assert (l + 1) % WORD * c == WORD * -(q * c) + (c + l * c) by {
        assert (l + 1) * c == WORD * q * c + (l + 1) % WORD * c;
        assert (l + 1) * c == l * c + c;
      }
      ModOfMultiple(WORD, -(q * c), c + l * c);
    }

    // The do-while loop of reserve().
    static method GrownSize(size0: nat, minSize: nat) returns (newsize: nat)
      requires size0 <= HALF / 2 && minSize <= HALF / 2
      ensures 2 * size0 <= newsize <= HALF && minSize <= newsize
      ensures newsize == 2 * (if size0 == 0 then minSize else size0) || newsize < 2 * minSize
    {
      newsize := size0;
      if newsize == 0 {
        newsize := minSize;
      }
      newsize := newsize * 2;
      while newsize < minSize
        invariant 2 * size0 <= newsize <= HALF && (minSize > 0 ==> newsize > 0)
        invariant newsize == 2 * (if size0 == 0 then minSize else size0) || newsize < 2 * minSize
        decreases minSize - newsize
      {
        newsize := newsize * 2;
      }
    }

    // Two origins that agree modulo 2^64 give every index the same rank and every rank the same cell.
    static lemma SameDistance(f: nat, f': nat, index: nat)
      requires f' == f % WORD
      ensures (index - f') % WORD == (index - f) % WORD
    {
      ModSmall(f', WORD);
      ModDifference(index, f', f, WORD);
    }

    static lemma SameCell(f: nat, f': nat, k: nat, c: nat)
      requires f' == f % WORD && IsPow2(c) && 0 < c <= HALF
      ensures (f' + k) % c == (f + k) % c && f' % c == f % c
    {
      ModOfWord(f, c);
      ModSum(f', f, k, c);
    }

    // ++index in 64 bits.
    static lemma NextIndex(f: nat, k: nat)
      ensures ((f + k) % WORD + 1) % WORD == (f + k + 1) % WORD
    {
      ModSmall((f + k) % WORD, WORD);
      ModSum((f + k) % WORD, f + k, 1, WORD);
    }

    // The loop index reaches end_index() after size steps and not before.
    lemma EndReached(k: nat)
      requires Valid() && k <= size
      ensures (first + k) % WORD == (first + size) % WORD <==> k == size
    {
      if (first + k) % WORD == (first + size) % WORD { ModInjective(first, k, size, WORD); }
    }

    // Index first + k stands for the same element in both queues.
    lemma SameRank(next: Queue<T>, index: nat, k: nat)
      requires Valid() && next.Valid() && next.size == size && next.first == first % WORD && next.vec.Length > 0
      requires k < size && index == (first + k) % WORD
      ensures index < WORD && ValidIndex(index) && next.ValidIndex(index) && Rank(index) == k == next.Rank(index)
    {
      RankIn(first, k);
      SameDistance(first, next.first, index);
    }

    // One turn of that loop.
    method MoveOne(next: Queue<T>, index: nat, ghost k: nat)
      requires Valid() && next.Valid() && next != this && next.vec != vec
      requires next.size == size && next.first == first % WORD && next.vec.Length > 0
      requires k < size && index == (first + k) % WORD
      modifies next`items, next.vec
      ensures next.Valid() && next.items == old(next.items)[k := items[k]]
    {
      SameRank(next, index, k);
      var x := Get(index);
      next.Put(index, x);
    }

    static lemma TakeOneMore(before: seq<T>, a: seq<T>, b: seq<T>, k: nat)
      requires k < |before| && k < |b| && before[..k] == b[..k] && a == before[k := b[k]]
      ensures a[..k + 1] == b[..k + 1]
    {
      assert a[..k + 1] == before[..k] + [b[k]] && b[..k + 1] == b[..k] + [b[k]];
    }

    /** The loop of reserve(): moves every element to the same index of the new queue. */
    method MoveTo(next: Queue<T>)
      requires Valid() && next.Valid() && next != this && next.vec != vec
      requires next.size == size && next.first == first % WORD && next.vec.Length > 0
      modifies next`items, next.vec
      ensures next.Valid() && next.items == items
    {
      var index, end := BeginIndex(), EndIndex();
      ghost var k := 0;
      EndReached(0);
      while index != end
        invariant 0 <= k <= size && index == (first + k) % WORD && (index != end <==> k != size)
        invariant next.Valid() && next.items[..k] == items[..k]
        decreases size - k
      {
        ghost var before := next.items;
        MoveOne(next, index, k);
        TakeOneMore(before, next.items, items, k);
        NextIndex(first, k);
        EndReached(k + 1);
        index := (index + 1) % WORD;
        k := k + 1;
      }
    }

    // The new queue's buffer, start and loops spell this queue's elements and indices.
    lemma Adopts(next: Queue<T>)
      requires Valid() && next.Valid() && next.items == items && next.first == first % WORD && next.vec.Length > 0
      ensures next.start == first % next.vec.Length
              && (next.start + next.loops * next.vec.Length) % WORD == first % WORD
      ensures forall k :: 0 <= k < size ==> next.vec[Cell(first, k, next.vec.Length)] == items[k]
    {
      forall k | 0 <= k < size
        ensures next.vec[Cell(first, k, next.vec.Length)] == items[k]
      {
        AdoptsCell(next, k);
      }
      SameCell(first, next.first, 0, next.vec.Length);
      ModSmall(next.first, WORD);
    }

    lemma AdoptsCell(next: Queue<T>, k: nat)
      requires Valid() && next.Valid() && next.items == items && next.first == first % WORD && next.vec.Length > 0
      requires k < size
      ensures next.vec[Cell(first, k, next.vec.Length)] == items[k]
    {
      SameCell(first, next.first, k, next.vec.Length);
      assert next.vec[Cell(next.first, k, next.vec.Length)] == next.items[k];
    }

    /** reserve: a full queue moves to a buffer at least twice as large; the elements, and the
        indices they stand at, stay. The result is false if the program ends instead: the new
        queue does not begin where this one does exactly when the end index is 0 while there are
        elements, and then the first index that the loop passes to its operator[] is not valid. */
    method Reserve(minSize: nat) returns (alive: bool)
      requires Valid() && minSize <= HALF / 2 && (size == vec.Length ==> vec.Length < HALF)
      modifies this
      ensures Valid() && first == old(first) && items == old(items) && size == old(size)
      ensures alive <==> old(size < vec.Length || size == 0 || EndIndex() != 0)
      ensures old(size) < old(vec.Length) || !alive ==> vec == old(vec)
      ensures alive && old(size) == old(vec.Length) && (minSize > 0 || size > 0) ==>
                fresh(vec) && vec.Length >= 2 * old(vec.Length) && vec.Length >= minSize && size < vec.Length
    {
      if size == vec.Length {
        HalfFull();
        var newsize := GrownSize(size, minSize);
        var next := new Queue<T>(newsize, EndIndex(), size);
        BeginBack();
        if size > 0 {
          BeginsInNext(next);
          if !next.ValidIndex(BeginIndex()) {
            return false;
          }
        }
        TakeOver(next);
      }
      return true;
    }

    // The elements move to the next queue, whose buffer this one then takes.
    method TakeOver(next: Queue<T>)
      requires Valid() && next.Valid() && next != this && next.vec != vec && next.size == size == vec.Length
      requires next.vec.Length > 0 ==> next.first == first % WORD
      modifies this, next`items, next.vec
      ensures Valid() && first == old(first) && items == old(items) && size == old(size) && vec == old(next.vec)
    {
      if next.vec.Length > 0 {
        MoveTo(next);
        Adopts(next);
      } else {
        assert next.loops * next.vec.Length == 0 && loops * vec.Length == 0;
      }
      loops, start, vec := next.loops, next.start, next.vec;
    }

    // The front's index is valid in the new queue exactly when this one does not end at 0.
    lemma BeginsInNext(next: Queue<T>)
      requires Valid() && next.Valid() && 0 < size == next.size <= HALF
      requires next.first == if EndIndex() != 0 then first % WORD else 0
      ensures next.ValidIndex(BeginIndex()) <==> EndIndex() != 0
    {
      if EndIndex() == 0 {
        BeginBefore(first, size);
        next.PastTheEnd(BeginIndex());
      } else {
        ModSmall(0, WORD);
      }
    }

    lemma PastTheEnd(index: nat)
      requires Valid() && first == 0 && size <= index < WORD
      ensures !ValidIndex(index)
    {
      ModSmall(index, WORD);
    }

    static lemma BeginBefore(f: nat, n: nat)
      requires (f + n) % WORD == 0 && 0 < n <= HALF
      ensures f % WORD == WORD - n
    {
      var q := (f + n) / WORD;
      assert f + n == WORD * q;
      DivModUnique(f, WORD, q - 1, WORD - n);
    }

    // A full buffer that is not the largest one has at most 2^62 cells.
    lemma HalfFull()
      requires Valid() && vec.Length < HALF && size == vec.Length
      ensures size <= HALF / 2
    {
      if size > 0 { Below(vec.Length, HALF); }
    }

    // end_index() minus size is begin_index().
    lemma BeginBack()
      requires Valid()
      ensures (EndIndex() - size) % WORD == first % WORD
    {
      var q := (first + size) / WORD;
      assert (first + size) % WORD - size == WORD * -q + first;
      ModOfMultiple(WORD, -q, first);
    }

    // The cell behind the last element holds none.
    lemma FreeCell()
      requires Valid() && size < vec.Length
      ensures forall k :: 0 <= k < size ==> Cell(first, k, vec.Length) != Cell(first, size, vec.Length)
    {
      forall k | 0 <= k < size
        ensures Cell(first, k, vec.Length) != Cell(first, size, vec.Length)
      {
        if Cell(first, k, vec.Length) == Cell(first, size, vec.Length) { ModInjective(first, k, size, vec.Length); }
      }
    }

    /** push: the new element's index is the old end index; nothing else moves. False means that
        the program ends in reserve. */
    method Push(x: T) returns (alive: bool)
      requires Valid() && (size == vec.Length ==> vec.Length < HALF)
      modifies this, vec
      ensures Valid() && first == old(first)
      ensures alive <==> old(size < vec.Length || size == 0 || EndIndex() != 0)
      ensures items == (if alive then old(items) + [x] else old(items))
      ensures old(size) < old(vec.Length) || !alive ==> vec == old(vec)
    {
      alive := Reserve(64);
      if !alive {
        return;
      }
      var end := start + size;
      if end >= vec.Length {
        end := end - vec.Length;
      }
      ModAdd(first, size, vec.Length);
      assert end == Cell(first, size, vec.Length);
      FreeCell();
      vec[end] := x;
      size := size + 1;
      items := items + [x];
    }
  }

  /** Calls of push that end the program: the third one would have to grow at the end index 0. */
  method PushToZero() returns (q: Queue<int>, alive: bool)
    ensures q.Valid() && q.items == [1, 2] && !alive
  {
    q := PushedTwo();
    alive := q.Push(3);
  }

  method PushedTwo() returns (q: Queue<int>)
    ensures fresh(q) && fresh(q.vec) && q.Valid() && q.items == [1, 2] && q.size == q.vec.Length && q.EndIndex() == 0
  {
    q := new Queue<int>(2, WORD - 2, 0);
    assert Pow2(1) == 2;
    OnePower(q.vec.Length, 2);
    ModSmall(WORD - 2, WORD);
    assert q.first == WORD - 2 && q.items == [];
    var alive := q.Push(1);
    assert alive && q.items == [1];
    alive := q.Push(2);
    assert alive && q.items == [1, 2];
    ModOfMultiple(WORD, 1, 0);
  }
}
