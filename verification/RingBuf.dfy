/**
 HRingBuf: an allocator that hands out contiguous pieces of one buffer and takes them back in the
 order in which it gave them. A piece that does not fit behind the last one is placed at the
 beginning; the skipped bytes at the end stay unused until the pieces before them are freed.
 */
module RingBuf {

  datatype Option<T> = None | Some(value: T)

  datatype Region = Region(start: nat, len: nat)

  /** Adjacent regions of positive size from `from` to `to`. */
  ghost predicate Chain(rs: seq<Region>, from: nat, to: nat) {
    if rs == [] then from == to
    else rs[0].start == from && rs[0].len > 0 && Chain(rs[1..], from + rs[0].len, to)
  }

  function Total(rs: seq<Region>): nat {
    if rs == [] then 0 else rs[0].len + Total(rs[1..])
  }

  /**
   Where the live regions are: `before` is a chain from `head` to `gap`; if the allocator
   has wrapped, `after` is a chain from 0 to `tail` and the bytes from `gap` on were skipped
   because the first region of `after` did not fit there.
   */
  datatype Layout = Layout(len: nat, head: nat, tail: nat, before: seq<Region>, after: seq<Region>, gap: nat) {
    function Live(): seq<Region> {
      before + after
    }

    ghost predicate Ok() {
      && (head < len || (head == len == 0))
      && Chain(before, head, gap) && gap <= len
      && (after == [] ==> tail == if gap == len then 0 else gap)
      && (after != [] ==>
            && Chain(after, 0, tail) && tail <= head < len
            && after[0].len > len - gap
            && (before == [] ==> gap < len))
    }
  }

  // ------------------------------------------------------------------ chains

  lemma {:induction false} ChainAppend(rs: seq<Region>, from: nat, to: nat, n: nat)
    requires Chain(rs, from, to) && n > 0
    ensures Chain(rs + [Region(to, n)], from, to + n)
  {
    if rs != [] {
      ChainAppend(rs[1..], from + rs[0].len, to, n);
      assert (rs + [Region(to, n)])[1..] == rs[1..] + [Region(to, n)];
    } else {
      assert (rs + [Region(to, n)])[1..] == [];
    }
  }

  lemma {:induction false} ChainBounds(rs: seq<Region>, from: nat, to: nat)
    requires Chain(rs, from, to)
    ensures to == from + Total(rs)
    ensures forall i :: 0 <= i < |rs| ==> rs[i].len > 0 && from <= rs[i].start && rs[i].start + rs[i].len <= to
  {
    if rs != [] {
      ChainBounds(rs[1..], from + rs[0].len, to);
      assert forall i :: 1 <= i < |rs| ==> rs[i] == rs[1..][i - 1];
    }
  }

  ghost predicate Disjoint(a: Region, b: Region) {
    a.start + a.len <= b.start || b.start + b.len <= a.start
  }

  lemma {:induction false} ChainDisjoint(rs: seq<Region>, from: nat, to: nat, i: nat, j: nat)
    requires Chain(rs, from, to) && i < j < |rs|
    ensures Disjoint(rs[i], rs[j])
  {
    ChainBounds(rs[1..], from + rs[0].len, to);
    if i == 0 {
      assert rs[j] == rs[1..][j - 1];
    } else {
      ChainDisjoint(rs[1..], from + rs[0].len, to, i - 1, j - 1);
    }
  }

  lemma {:induction false} TotalAppend(rs: seq<Region>, ss: seq<Region>)
    ensures Total(rs + ss) == Total(rs) + Total(ss)
  {
    if rs == [] {
      assert rs + ss == ss;
    } else {
      assert (rs + ss)[1..] == rs[1..] + ss;
      TotalAppend(rs[1..], ss);
    }
  }

  /** Live regions lie inside the buffer and do not overlap. */
  lemma {:induction false} LiveRegionsAreSafe(l: Layout, i: nat, j: nat)
    requires l.Ok() && i < |l.Live()|
    ensures l.Live()[i].len > 0 && l.Live()[i].start + l.Live()[i].len <= l.len
    ensures i < j < |l.Live()| ==> Disjoint(l.Live()[i], l.Live()[j])
  {
    ChainBounds(l.before, l.head, l.gap);
    if l.after != [] {
      ChainBounds(l.after, 0, l.tail);
    }
    if i < j < |l.before| {
      ChainDisjoint(l.before, l.head, l.gap, i, j);
    } else if |l.before| <= i < j < |l.Live()| {
      ChainDisjoint(l.after, 0, l.tail, i - |l.before|, j - |l.before|);
    }
  }

  /** The oldest region starts at `head`, or at 0 if it is too long to start there. */
  lemma {:induction false} OldestRegion(l: Layout)
    requires l.Ok() && l.Live() != []
    ensures l.Live()[0].start == if l.Live()[0].len <= l.len - l.head then l.head else 0
  {
    ChainBounds(l.before, l.head, l.gap);
  }

  lemma {:induction false} HeadInside(l: Layout)
    requires l.Ok()
    ensures l.head < l.len || l.head == l.len == 0
  {
  }

  // ------------------------------------------------------------------ operations on layouts

  /** A place for `n` bytes behind the last region, or at the beginning. */
  lemma {:induction false} AppendBefore(l: Layout, n: nat)
    requires l.Ok() && l.after == [] && n > 0 && l.gap + n <= l.len
    ensures l.(before := l.before + [Region(l.gap, n)], gap := l.gap + n,
               tail := if l.gap + n == l.len then 0 else l.gap + n).Ok()
  {
    ChainAppend(l.before, l.head, l.gap, n);
  }

  lemma {:induction false} AppendAfter(l: Layout, n: nat)
    requires l.Ok() && n > 0
    requires if l.after == [] then n > l.len - l.gap && n <= l.head < l.len
             else l.tail + n <= l.head
    ensures var at := if l.after == [] then 0 else l.tail;
            l.(after := l.after + [Region(at, n)], tail := at + n).Ok()
  {
    if l.after == [] {
      assert Chain([], 0, 0);
      ChainAppend([], 0, 0, n);
      assert l.after + [Region(0, n)] == [Region(0, n)];
    } else {
      ChainAppend(l.after, 0, l.tail, n);
    }
  }

  /** What is left when the oldest region has been freed. */
  function AfterFree(l: Layout): Layout
    requires l.Live() != []
  {
    if l.before != [] then
      var h := l.head + l.before[0].len;
      if h == l.len then Layout(l.len, 0, l.tail, l.after, [], l.tail)
      else l.(head := h, before := l.before[1..])
    else
      Layout(l.len, l.after[0].len, l.tail, l.after[1..], [], l.tail)
  }

  lemma {:induction false} FreeKeepsOk(l: Layout)
    requires l.Ok() && l.Live() != []
    ensures AfterFree(l).Ok()
  {
    ChainBounds(l.before, l.head, l.gap);
    if l.after != [] {
      ChainBounds(l.after, 0, l.tail);
    }
    if l.before != [] {
      ChainBounds(l.before[1..], l.head + l.before[0].len, l.gap);
    } else {
      ChainBounds(l.after[1..], l.after[0].len, l.tail);
    }
  }

  lemma {:induction false} FreeKeeps(l: Layout)
    requires l.Ok() && l.Live() != []
    ensures AfterFree(l).Ok() && AfterFree(l).Live() == l.Live()[1..]
    ensures var n := l.Live()[0].len;
            AfterFree(l).head == if n <= l.len - l.head then (if l.head + n == l.len then 0 else l.head + n) else n
    ensures AfterFree(l).tail == l.tail && AfterFree(l).len == l.len
    ensures Total(l.Live()) == Total(AfterFree(l).Live()) + l.Live()[0].len
  {
    hide Chain;
    FreeKeepsOk(l);
    OldestRegion(l);
    ChainBounds(l.before, l.head, l.gap);
    if l.before != [] {
      assert l.Live()[1..] == l.before[1..] + l.after;
      if l.head + l.before[0].len == l.len {
        NoRoomNoTail(l);
      }
    } else {
      assert l.Live() == l.after;
    }
  }

  /** A chain that ends at the end of the buffer leaves nothing behind it. */
  lemma {:induction false} NoRoomNoTail(l: Layout)
    requires l.Ok() && l.before != [] && l.head + l.before[0].len == l.len
    ensures l.before[1..] == []
  {
    ChainBounds(l.before, l.head, l.gap);
    ChainBounds(l.before[1..], l.len, l.gap);
  }

  // ------------------------------------------------------------------ refusals

  /** The allocator's own test. */
  predicate Fits(l: Layout, n: nat) {
    if l.head < l.tail || l.Live() == [] then n <= l.len - l.tail || n <= l.head else n <= l.head - l.tail
  }

  /** `n` bytes from `o` on that no live region uses. */
  ghost predicate FreeRun(l: Layout, o: nat, n: nat) {
    o + n <= l.len && forall i :: 0 <= i < |l.Live()| ==> Disjoint(Region(o, n), l.Live()[i])
  }

  ghost predicate HasFreeRun(l: Layout, n: nat) {
    exists o: nat :: FreeRun(l, o, n)
  }

  /**
   The refusals that free memory would not require: an empty buffer that does not start at 0, a
   run that lies in the skipped tail gap, and a head that stands in front of that gap.
   */
  predicate Stranded(l: Layout, n: nat) {
    if l.after == [] then l.before == [] && l.head < n && l.len - l.head < n <= l.len
    else if l.before == [] then l.head - l.tail < n <= l.len - l.tail
    else l.head - l.tail < n <= l.len - l.gap
  }

  /** A run that avoids a chain lies on one side of it. */
  lemma {:induction false} ChainBlocks(rs: seq<Region>, from: nat, to: nat, o: nat, n: nat)
    requires rs != [] && Chain(rs, from, to) && n > 0
    requires forall i :: 0 <= i < |rs| ==> Disjoint(Region(o, n), rs[i])
    ensures o + n <= from || to <= o
  {
    assert Disjoint(Region(o, n), rs[0]);
    if rs[1..] != [] {
      assert forall i :: 0 <= i < |rs| - 1 ==> rs[1..][i] == rs[i + 1];
      ChainBlocks(rs[1..], from + rs[0].len, to, o, n);
    }
  }

  lemma {:induction false} RunOutside(l: Layout, o: nat, n: nat)
    requires l.Ok() && n > 0 && FreeRun(l, o, n)
    ensures l.before != [] ==> o + n <= l.head || l.gap <= o
    ensures l.after != [] ==> l.tail <= o
  {
    forall i | 0 <= i < |l.before| ensures Disjoint(Region(o, n), l.before[i]) {
      assert l.before[i] == l.Live()[i];
    }
    forall i | 0 <= i < |l.after| ensures Disjoint(Region(o, n), l.after[i]) {
      assert l.after[i] == l.Live()[|l.before| + i];
    }
    if l.before != [] {
      ChainBlocks(l.before, l.head, l.gap, o, n);
    }
    if l.after != [] {
      ChainBlocks(l.after, 0, l.tail, o, n);
    }
  }

  lemma {:induction false} RunExists(l: Layout, o: nat, n: nat)
    requires l.Ok() && n > 0 && o + n <= l.len
    requires l.before != [] ==> o + n <= l.head || l.gap <= o
    requires l.after != [] ==> l.tail <= o
    ensures FreeRun(l, o, n)
  {
    ChainBounds(l.before, l.head, l.gap);
    if l.after != [] {
      ChainBounds(l.after, 0, l.tail);
    }
  }

  /** Where a fitting allocation goes. */
  function Offset(l: Layout, n: nat): nat {
    if (l.head < l.tail || l.Live() == []) && n > l.len - l.tail then 0 else l.tail
  }

  function AfterAlloc(l: Layout, n: nat): Layout {
    var at := Offset(l, n);
    if l.after == [] && at == l.gap then
      l.(before := l.before + [Region(at, n)], gap := at + n, tail := if at + n == l.len then 0 else at + n)
    else
      l.(after := l.after + [Region(at, n)], tail := at + n)
  }

  lemma {:induction false} AllocKeeps(l: Layout, n: nat)
    requires l.Ok() && n > 0 && Fits(l, n)
    ensures AfterAlloc(l, n).Ok()
    ensures AfterAlloc(l, n).Live() == l.Live() + [Region(Offset(l, n), n)]
    ensures AfterAlloc(l, n).head == l.head
    ensures AfterAlloc(l, n).tail
         == if (l.head < l.tail || l.Live() == []) && Offset(l, n) + n == l.len then 0 else Offset(l, n) + n
    ensures Total(AfterAlloc(l, n).Live()) == Total(l.Live()) + n
  {
    ChainBounds(l.before, l.head, l.gap);
    if l.after != [] {
      ChainBounds(l.after, 0, l.tail);
    }
    TotalAppend(l.Live(), [Region(Offset(l, n), n)]);
    if l.after == [] && Offset(l, n) == l.gap {
      AppendBefore(l, n);
    } else {
      AppendAfter(l, n);
      assert l.before + (l.after + [Region(Offset(l, n), n)]) == l.Live() + [Region(Offset(l, n), n)];
    }
  }

  /** Exactly when the allocator refuses although enough adjacent bytes are free. */
  lemma {:induction false} RefusalIff(l: Layout, n: nat)
    requires l.Ok() && n > 0
    ensures !Fits(l, n) && HasFreeRun(l, n) <==> Stranded(l, n)
    ensures Fits(l, n) ==> HasFreeRun(l, n)
  {
    ChainBounds(l.before, l.head, l.gap);
    if l.after != [] {
      ChainBounds(l.after, 0, l.tail);
    }
    if HasFreeRun(l, n) {
      var o: nat :| FreeRun(l, o, n);
      RunOutside(l, o, n);
    }
    if Fits(l, n) {
      RunExists(l, if l.head < l.tail || l.Live() == [] then (if n <= l.len - l.tail then l.tail else 0) else l.tail, n);
    } else if Stranded(l, n) {
      RunExists(l, if l.after == [] then 0 else if l.before == [] then l.tail else l.gap, n);
    }
  }

  const NEW_OF_TEN := Layout(10, 0, 0, [], [], 0)
  const FIVE_OF_TEN := Layout(10, 0, 5, [Region(0, 5)], [], 5)
  const FREED_OF_TEN := Layout(10, 5, 5, [], [], 5)

  /** Such refusals happen: of ten bytes, five are allocated and freed, then six are refused. */
  lemma {:induction false} StrandedExample()
    ensures NEW_OF_TEN.Ok() && Fits(NEW_OF_TEN, 5) && AfterAlloc(NEW_OF_TEN, 5) == FIVE_OF_TEN
    ensures FIVE_OF_TEN.Live() == [Region(0, 5)] && AfterFree(FIVE_OF_TEN) == FREED_OF_TEN
    ensures !Fits(FREED_OF_TEN, 6) && FreeRun(FREED_OF_TEN, 0, 6)
  {
  }

  // ------------------------------------------------------------------ runs

  function Empty(capacity: nat): Layout {
    Layout(capacity, 0, 0, [], [], 0)
  }

  /** Where a region ends; the end of the buffer is its beginning. */
  function EndOf(len: nat, r: Region): nat {
    if r.start + r.len == len then 0 else r.start + r.len
  }

  /** When the last region goes, head and tail meet where it ended. */
  lemma {:induction false} LastFreeMeets(l: Layout)
    requires l.Ok() && l.Live() != []
    ensures |l.Live()| == 1 ==> AfterFree(l).head == AfterFree(l).tail == EndOf(l.len, l.Live()[0])
  {
    if |l.Live()| == 1 {
      ChainBounds(l.before, l.head, l.gap);
      if l.before != [] {
        assert l.before[1..] == [];
        assert l.Live()[0] == l.before[0];
      } else {
        ChainBounds(l.after, 0, l.tail);
        assert l.after[1..] == [];
      }
    }
  }

  /** A request for bytes, or the release of the oldest region that is still live. */
  datatype Op = Request(n: nat) | Release

  function Step(l: Layout, op: Op): Layout {
    match op
    case Request(n) => if n > 0 && Fits(l, n) then AfterAlloc(l, n) else l
    case Release => if l.Live() != [] then AfterFree(l) else l
  }

  function Run(capacity: nat, ops: seq<Op>): Layout {
    if ops == [] then Empty(capacity) else Step(Run(capacity, ops[..|ops| - 1]), ops[|ops| - 1])
  }

  function Answer(l: Layout, op: Op): seq<Option<nat>> {
    if op.Release? then [] else [if Fits(l, op.n) then Some(Offset(l, op.n)) else None]
  }

  /** What the requests of a run were answered. */
  function Answers(capacity: nat, ops: seq<Op>): seq<Option<nat>> {
    if ops == [] then []
    else
      var init, last := ops[..|ops| - 1], ops[|ops| - 1];
      var l := Run(capacity, init);
      Answers(capacity, init) + Answer(l, last)
  }

  /** The region that was released last. */
  function LastReleased(capacity: nat, ops: seq<Op>): Option<Region> {
    if ops == [] then None
    else
      var init, last := ops[..|ops| - 1], ops[|ops| - 1];
      var l := Run(capacity, init);
      if last.Release? && l.Live() != [] then Some(l.Live()[0]) else LastReleased(capacity, init)
  }

  lemma {:induction false} RunOk(capacity: nat, ops: seq<Op>)
    ensures Run(capacity, ops).Ok() && Run(capacity, ops).len == capacity
  {
    if ops != [] {
      var init, last := ops[..|ops| - 1], ops[|ops| - 1];
      RunOk(capacity, init);
      var l := Run(capacity, init);
      if last.Release? {
        if l.Live() != [] {
          FreeKeeps(l);
        }
      } else if last.n > 0 && Fits(l, last.n) {
        AllocKeeps(l, last.n);
      }
    }
  }

  /** Where an emptied buffer stands: at the end of the region that was released last. */
  function RestsAt(capacity: nat, ops: seq<Op>): nat {
    match LastReleased(capacity, ops)
    case None => 0
    case Some(r) => EndOf(capacity, r)
  }

  lemma {:induction false} EmptiedRests(capacity: nat, ops: seq<Op>)
    requires Run(capacity, ops).Live() == []
    ensures Run(capacity, ops).head == Run(capacity, ops).tail == RestsAt(capacity, ops)
  {
    if ops != [] {
      var init, last := ops[..|ops| - 1], ops[|ops| - 1];
      var l := Run(capacity, init);
      RunOk(capacity, init);
      if last.Release? && l.Live() != [] {
        FreeKeeps(l);
        LastFreeMeets(l);
      } else {
        if last.Request? && last.n > 0 && Fits(l, last.n) {
          AllocKeeps(l, last.n);
        }
        EmptiedRests(capacity, init);
      }
    }
  }

  /**
   After every run that released all it was given, a request is refused exactly if it exceeds both
   what lies behind and what lies before the place where the region released last ended;
   otherwise it is placed there, or at 0.
   */
  lemma {:induction false} EmptiedRefusal(capacity: nat, ops: seq<Op>, n: nat)
    requires Run(capacity, ops).Live() == []
    ensures var e := RestsAt(capacity, ops);
            Answers(capacity, ops + [Request(n)]) == Answers(capacity, ops) +
              [if n > capacity - e && n > e then None else Some(if n <= capacity - e then e else 0)]
  {
    EmptiedRests(capacity, ops);
    RunOk(capacity, ops);
    assert (ops + [Request(n)])[..|ops|] == ops;
  }

  predicate Lengths(rs: seq<Region>, lens: seq<nat>) {
    |lens| == |rs| && forall i :: 0 <= i < |rs| ==> lens[i] == rs[i].len
  }

  /** One turn of a user that remembers how much it was given. */
  method Perform(buf: RingBuf, op: Op, held: seq<nat>) returns (answer: seq<Option<nat>>, rest: seq<nat>)
    requires buf.Valid() && Lengths(buf.Live(), held)
    modifies buf
    ensures buf.Valid() && Lengths(buf.Live(), rest)
    ensures buf.Shape() == Step(old(buf.Shape()), op) && answer == Answer(old(buf.Shape()), op)
  {
    hide Layout.Ok, AfterAlloc, AfterFree, Fits, Offset, Chain, Total;
    answer, rest := [], held;
    match op
    case Request(n) =>
      var r := buf.Alloc(n);
      answer := [r];
      if r.Some? && n > 0 {
        rest := held + [n];
      }
    case Release =>
      if held != [] {
        LiveRegionsAreSafe(buf.Shape(), 0, 0);
        buf.Free(held[0]);
        rest := held[1..];
      }
  }

  /** The allocator in place gives the answers of the run. */
  method Replay(capacity: nat, ops: seq<Op>) returns (answers: seq<Option<nat>>)
    ensures answers == Answers(capacity, ops)
  {
    hide Step, Answer, RingBuf.Valid, RingBuf.Shape, RingBuf.Live;
    var buf := new RingBuf(capacity);
    answers := [];
    var held: seq<nat> := [];
    for i := 0 to |ops|
      invariant buf.Valid() && buf.Shape() == Run(capacity, ops[..i])
      invariant answers == Answers(capacity, ops[..i])
      invariant Lengths(buf.Live(), held)
    {
      assert ops[..i + 1][..i] == ops[..i];
      var answer;
      answer, held := Perform(buf, ops[i], held);
      answers := answers + answer;
    }
    assert ops[..|ops|] == ops;
  }

  // ------------------------------------------------------------------ the class

  class RingBuf {
    const len: nat
    var head: nat
    var tail: nat
    var size: nat
    ghost var before: seq<Region>
    ghost var after: seq<Region>
    ghost var gap: nat

    ghost function Shape(): Layout
      reads this
    {
      Layout(len, head, tail, before, after, gap)
    }

    /** The live regions, oldest first. */
    ghost function Live(): seq<Region>
      reads this
    {
      Shape().Live()
    }

    ghost predicate Valid()
      reads this
    {
      Shape().Ok() && size == Total(Live())
    }

    constructor (capacity: nat)
      ensures Valid() && len == capacity && Live() == []
      ensures head == tail == size == 0 && Shape() == Empty(capacity)
    {
      len := capacity;
      head, tail, size := 0, 0, 0;
      before, after, gap := [], [], 0;
    }

    lemma {:induction false} EmptyIffSizeZero()
      requires Valid()
      ensures size == 0 <==> Live() == []
    {
      if Live() != [] {
        LiveRegionsAreSafe(Shape(), 0, 0);
      }
    }

    /** alloc: the offset of `n` new bytes, or None. */
    method Alloc(n: nat) returns (r: Option<nat>)
      requires Valid()
      modifies this
      ensures Valid()
      ensures r.Some? <==> Fits(old(Shape()), n)
      ensures r.None? || n == 0 ==> Shape() == old(Shape())
      ensures r.Some? && n > 0 ==> Live() == old(Live()) + [Region(r.value, n)] && head == old(head)
      ensures r.Some? ==> r.value == Offset(old(Shape()), n)
      ensures r.Some? && n > 0 ==> Shape() == AfterAlloc(old(Shape()), n)
      ensures size == old(size) + if r.Some? then n else 0
    {
      hide Chain, Total;
      r := None;
      EmptyIffSizeZero();
      ghost var l := Shape();
      if n > 0 && Fits(l, n) {
        AllocKeeps(l, n);
        before, after, gap := AfterAlloc(l, n).before, AfterAlloc(l, n).after, AfterAlloc(l, n).gap;
      }
      if head < tail || size == 0 {
        if len - tail >= n {
          r := Some(tail);
          tail := tail + n;
          if tail == len {
            tail := 0;
          }
        } else if head >= n {
          r := Some(0);
          tail := n;
        }
      } else if head - tail >= n {
        r := Some(tail);
        tail := tail + n;
      }
      if r.Some? {
        size := size + n;
      }
      assert n > 0 && r.Some? ==> Shape() == AfterAlloc(l, n) && r.value == Offset(l, n);
      assert n == 0 || r.None? ==> Shape() == l;
    }

    /**
     free of the oldest region: head moves to the start of the next one. When the last region
     goes, head and tail meet where that region ended.
     */
    method Free(n: nat)
      requires Valid()
      requires n > 0 ==> Live() != [] && n == Live()[0].len
      modifies this
      ensures Valid()
      ensures n == 0 ==> Shape() == old(Shape())
      ensures n > 0 ==> Live() == old(Live())[1..]
      ensures n > 0 ==> Shape() == AfterFree(old(Shape()))
      ensures tail == old(tail)
      ensures n > 0 && Live() == [] ==> head == tail == EndOf(len, old(Live())[0])
      ensures Live() != [] ==> Live()[0].start == if Live()[0].len <= len - head then head else 0
      ensures size == old(size) - n
    {
      hide Chain, Total, AfterFree, Layout.Ok;
      ghost var l := Shape();
      if n > 0 {
        LastFreeMeets(l);
      }
      HeadInside(l);
      if n > 0 {
        FreeKeeps(l);
        before, after, gap := AfterFree(l).before, AfterFree(l).after, AfterFree(l).gap;
      }
      size := size - n;
      if n <= len - head {
        head := head + n;
        if head == len {
          head := 0;
        }
      } else {
        head := n;
      }
      assert n > 0 ==> Shape() == AfterFree(l);
      if Live() != [] {
        OldestRegion(Shape());
      }
    }
  }
}
