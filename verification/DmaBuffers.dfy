/** The pool of DMA buffers: how scatter-gather buffers are laid out as the pool grows, and the protocol of two
    counters that freezes the pool once somebody looked at it. */
module DmaBuffers {
  import opened Errno
  import opened KmsObjects
  import opened Bits
  import FreezeProtocol

  const MIN_ORDER := 5
  const MAX_ORDER := 22
  const PAGE_SHIFT := 12
  const PAGE_SIZE := 4096
  const MAX_COUNT := 4096
  const ULONG := 0x1_0000_0000_0000_0000
  const INT_LIMIT := 0x8000_0000

  // ----- size orders -----

  lemma {:induction false} Pow2Grows(a: nat, b: nat)
    requires a <= b
    ensures Pow2(a) <= Pow2(b)
  {
    if a < b {
      Pow2Grows(a, b - 1);
    }
  }

  /** The exponent of the least power of two that is not below n. */
  ghost predicate LeastOrder(n: nat, order: nat) {
    n <= Pow2(order) && (order > 0 ==> Pow2(order - 1) < n)
  }

  lemma LeastOrderIsLeast(n: nat, order: nat, k: nat)
    requires LeastOrder(n, order) && n <= Pow2(k)
    ensures order <= k
  {
    if k < order {
      Pow2Grows(k, order - 1);
    }
  }

  /** The orders of buffers are those of 17 bytes to 4 MiB. */
  lemma OrderRange(size: nat, order: nat)
    requires LeastOrder(size, order)
    ensures MIN_ORDER <= order <= MAX_ORDER <==> 16 < size <= 0x40_0000
  {
    Order22();
    Bits8();
    hide Pow2;
    if order <= 4 {
      Pow2Grows(order, 4);
    } else {
      Pow2Grows(4, order - 1);
    }
    if order <= 22 {
      Pow2Grows(order, 22);
    } else {
      Pow2Grows(22, order - 1);
    }
  }

  function Shifted(n: nat, k: nat): nat {
    if k == 0 then n else Shifted(n / 2, k - 1)
  }

  lemma {:induction false} ShiftedMore(n: nat, k: nat)
    ensures Shifted(n, k + 1) == Shifted(n, k) / 2
  {
    if k > 0 {
      ShiftedMore(n / 2, k - 1);
    }
  }

  lemma {:induction false} ShiftedOut(n: nat, k: nat)
    ensures Shifted(n, k) == 0 <==> n < Pow2(k)
  {
    if k > 0 {
      ShiftedOut(n / 2, k - 1);
    }
  }

  /** drm_order */
  method Order(size: nat) returns (order: nat)
    requires size < ULONG
    ensures LeastOrder(size, order)
  {
    hide Shifted, And, Pow2;
    order := 0;
    var tmp := size / 2;
    OrderStarts(size);
    while tmp > 0
      invariant tmp == Shifted(size, order + 1)
      invariant size > 0 ==> Pow2(order) <= size
      invariant size == 0 ==> order == 0
      decreases tmp
    {
      ShiftedMore(size, order + 1);
      ShiftedOut(size, order + 1);
      tmp := tmp / 2;
      order := order + 1;
    }
    ShiftedOut(size, order + 1);
    var one := And(size, if size == 0 then ULONG - 1 else size - 1) == 0;
    OrderEnds(size, order, one);
    if !one {
      order := order + 1;
    }
  }

  lemma OrderStarts(size: nat)
    ensures size / 2 == Shifted(size, 1) && (size > 0 ==> Pow2(0) <= size)
  {
    ShiftedMore(size, 0);
  }

  lemma OrderEnds(size: nat, order: nat, one: bool)
    requires size < Pow2(order + 1) && (size > 0 ==> Pow2(order) <= size) && (size == 0 ==> order == 0)
    requires one == (And(size, if size == 0 then ULONG - 1 else size - 1) == 0)
    ensures LeastOrder(size, if one then order else order + 1)
  {
    if size > 0 {
      OneBit(size, order);
      if order > 0 {
        Pow2Grows(order - 1, order);
      }
    }
  }

  // ----- the layout -----

  datatype BufList = OnNone | OnFree | OnWait | OnPend | OnPrio | OnReclaim

  class Buf {
    const idx: nat
    const total: nat
    const order: nat
    const offset: nat
    var used: nat
    var pending: bool
    var filePriv: DrmFile?
    var list: BufList

    constructor (idx: nat, total: nat, order: nat, offset: nat)
      ensures this.idx == idx && this.total == total && this.order == order && this.offset == offset
      ensures used == 0 && !pending && filePriv == null && list == OnNone
    {
      this.idx, this.total, this.order, this.offset := idx, total, order, offset;
      used, pending, filePriv, list := 0, false, null, OnNone;
    }
  }

  /** The bytes that a buffer of this order adds to the pool: PAGE_SIZE << page_order. */
  function Span(order: nat): (n: nat)
    ensures n >= PAGE_SIZE
  {
    if order > PAGE_SHIFT then SpanIsBig(order); Pow2(order) else PAGE_SIZE
  }

  lemma SpanIsBig(order: nat)
    requires order > PAGE_SHIFT
    ensures Pow2(order) >= PAGE_SIZE
  {
    OnePage();
    Pow2Grows(PAGE_SHIFT, order);
  }

  function RoundPage(n: nat): nat {
    (n + PAGE_SIZE - 1) / PAGE_SIZE * PAGE_SIZE
  }

  /** The distance between buffers, which is also what each is said to have. */
  function Alignment(order: nat, pageAlign: bool): nat {
    if pageAlign then RoundPage(Pow2(order)) else Pow2(order)
  }

  lemma RoundedPage(n: nat)
    requires n > 0
    ensures n % PAGE_SIZE == 0 ==> RoundPage(n) == n
    ensures n <= PAGE_SIZE ==> RoundPage(n) == PAGE_SIZE
  {
  }

  lemma AlignmentFits(order: nat, pageAlign: bool)
    ensures Pow2(order) <= Alignment(order, pageAlign) <= Span(order)
  {
    hide Pow2, RoundPage;
    RoundedPage(Pow2(order));
    OnePage();
    if order > PAGE_SHIFT {
      MultipleOfPage(order);
    } else {
      Pow2Grows(order, PAGE_SHIFT);
    }
  }

  /** With page alignment buffers start at multiples of a page, the least that fit their size; without it they
      lie exactly their size apart. */
  lemma AlignmentMeans(order: nat)
    ensures Alignment(order, true) % 4096 == 0 && Pow2(order) <= Alignment(order, true) < Pow2(order) + 4096
    ensures Alignment(order, false) == Pow2(order)
  {
    hide Pow2;
  }

  lemma OnePage()
    ensures Pow2(PAGE_SHIFT) == PAGE_SIZE
  {
    Bits8();
    assert Pow2(12) == 2 * Pow2(11) && Pow2(11) == 2 * Pow2(10) && Pow2(10) == 2 * Pow2(9) && Pow2(9) == 2 * Pow2(8);
  }

  lemma {:induction false} MultipleOfPage(order: nat)
    requires order >= PAGE_SHIFT
    ensures Pow2(order) % PAGE_SIZE == 0
  {
    if order == PAGE_SHIFT {
      OnePage();
    } else {
      MultipleOfPage(order - 1);
    }
  }

  /** The sum of the spans of all buffers. */
  function Spans(bufs: seq<Buf>): nat {
    if bufs == [] then 0 else Spans(bufs[..|bufs| - 1]) + Span(bufs[|bufs| - 1].order)
  }

  /** What the list of buffers is for: each is where its index says and has its size, the ranges of bytes follow one
      another without overlap, and all lie within the byte count. */
  predicate Placed(bufs: seq<Buf>, byteCount: nat) {
    (forall k :: 0 <= k < |bufs| ==>
       bufs[k].idx == k && Pow2(bufs[k].order) <= bufs[k].total && bufs[k].offset + bufs[k].total <= byteCount) &&
    (forall j, k :: 0 <= j < k < |bufs| ==> bufs[j].offset + bufs[j].total <= bufs[k].offset)
  }

  /** And the byte count is what the buffers span. */
  predicate Layout(bufs: seq<Buf>, byteCount: nat) {
    Placed(bufs, byteCount) && byteCount == Spans(bufs)
  }

  function Scaled(i: nat, a: nat): nat {
    i * a
  }

  /** n buffers of one order that follow `count` buffers of `byteCount` bytes; offsets are unsigned longs. */
  predicate Appended(added: seq<Buf>, n: nat, count: nat, byteCount: nat, order: nat, alignment: nat) {
    |added| == n && forall i :: 0 <= i < n ==>
      added[i].idx == count + i && added[i].total == alignment && added[i].order == order &&
      added[i].offset == (byteCount + Scaled(i, alignment)) % ULONG
  }

  lemma {:induction false} SpansMore(bufs: seq<Buf>, added: seq<Buf>, order: nat)
    requires forall i :: 0 <= i < |added| ==> added[i].order == order
    ensures Spans(bufs + added) == Spans(bufs) + Scaled(|added|, Span(order))
  {
    hide Span, Scaled;
    ScaledNext(if added == [] then 0 else |added| - 1, Span(order));
    if added == [] {
      assert bufs + added == bufs;
    } else {
      var front := added[..|added| - 1];
      SpansMore(bufs, front, order);
      assert (bufs + added)[..|bufs + added| - 1] == bufs + front;
    }
  }

  lemma ScaledNext(i: nat, a: nat)
    ensures Scaled(0, a) == 0 && Scaled(i + 1, a) == Scaled(i, a) + a
  {
  }

  lemma {:induction false} ScaledGrows(i: nat, j: nat, a: nat)
    requires i <= j
    ensures Scaled(i, a) <= Scaled(j, a)
  {
    hide Scaled;
    if i < j {
      ScaledGrows(i, j - 1, a);
      ScaledNext(j - 1, a);
    }
  }

  lemma ScaledLess(i: nat, j: nat, a: nat, b: nat)
    requires i < j && a <= b
    ensures Scaled(i, a) + a <= Scaled(j, a) <= Scaled(j, b)
  {
    ScaledNext(i, a);
    ScaledGrows(i + 1, j, a);
    ScaledGrows(a, b, j);
    assert Scaled(j, a) == Scaled(a, j) && Scaled(j, b) == Scaled(b, j);
  }

  lemma AppendedInside(added: seq<Buf>, i: nat, count: nat, byteCount: nat, order: nat, alignment: nat)
    requires Appended(added, |added|, count, byteCount, order, alignment) && i < |added| && 0 < alignment <= Span(order)
    requires byteCount + Scaled(|added|, Span(order)) <= ULONG
    ensures byteCount <= added[i].offset == byteCount + Scaled(i, alignment)
    ensures added[i].offset + added[i].total <= byteCount + Scaled(|added|, Span(order))
  {
    hide Span, Scaled;
    ScaledLess(i, |added|, alignment, Span(order));
  }

  lemma AppendedApart(added: seq<Buf>, i: nat, j: nat, count: nat, byteCount: nat, order: nat, alignment: nat)
    requires Appended(added, |added|, count, byteCount, order, alignment) && i < j < |added|
    requires 0 < alignment <= Span(order) && byteCount + Scaled(|added|, Span(order)) <= ULONG
    ensures added[i].offset + added[i].total <= added[j].offset
  {
    hide Span, Scaled;
    AppendedInside(added, i, count, byteCount, order, alignment);
    AppendedInside(added, j, count, byteCount, order, alignment);
    ScaledLess(i, j, alignment, alignment);
  }

  /** Appending buffers of one order keeps the layout. */
  lemma AppendKeepsLayout(bufs: seq<Buf>, added: seq<Buf>, byteCount: nat, order: nat, alignment: nat)
    requires Layout(bufs, byteCount) && Appended(added, |added|, |bufs|, byteCount, order, alignment)
    requires byteCount + Scaled(|added|, Span(order)) <= ULONG
    requires Pow2(order) <= alignment <= Span(order)
    ensures Layout(bufs + added, byteCount + Scaled(|added|, Span(order)))
  {
    hide Span, Pow2, Spans;
    var all, n, end := bufs + added, |bufs|, byteCount + Scaled(|added|, Span(order));
    SpansMore(bufs, added, order);
    assert end >= byteCount;
    forall i | 0 <= i < |added|
      ensures added[i].offset >= byteCount && added[i].offset + added[i].total <= end
      ensures added[i].idx == n + i && Pow2(added[i].order) <= added[i].total
    {
      AppendedInside(added, i, n, byteCount, order, alignment);
    }
    forall i, j | 0 <= i < j < |added|
      ensures added[i].offset + added[i].total <= added[j].offset
    {
      AppendedApart(added, i, j, n, byteCount, order, alignment);
    }
    hide Appended;
    TwoParts(bufs, added, byteCount, end);
  }

  lemma TwoPartsApart(bufs: seq<Buf>, added: seq<Buf>, middle: nat, j: nat, k: nat)
    requires Placed(bufs, middle) && j < k < |bufs + added|
    requires forall i :: 0 <= i < |added| ==> middle <= added[i].offset
    requires forall i, j :: 0 <= i < j < |added| ==> added[i].offset + added[i].total <= added[j].offset
    ensures (bufs + added)[j].offset + (bufs + added)[j].total <= (bufs + added)[k].offset
  {
    hide Pow2;
    var n := |bufs|;
    if k < n {
      assert bufs[j].offset + bufs[j].total <= bufs[k].offset;
    } else if j < n {
      assert bufs[j].offset + bufs[j].total <= middle <= added[k - n].offset;
    } else {
      assert added[j - n].offset + added[j - n].total <= added[k - n].offset;
    }
  }

  /** Putting two parts together, the second behind the first */
  lemma TwoParts(bufs: seq<Buf>, added: seq<Buf>, middle: nat, end: nat)
    requires Layout(bufs, middle) && middle <= end == Spans(bufs + added)
    requires forall i :: 0 <= i < |added| ==>
      added[i].idx == |bufs| + i && Pow2(added[i].order) <= added[i].total &&
      middle <= added[i].offset && added[i].offset + added[i].total <= end
    requires forall i, j :: 0 <= i < j < |added| ==> added[i].offset + added[i].total <= added[j].offset
    ensures Layout(bufs + added, end)
  {
    hide Pow2, Spans;
    var all, n := bufs + added, |bufs|;
    forall j, k | 0 <= j < k < |all|
      ensures all[j].offset + all[j].total <= all[k].offset
    {
      TwoPartsApart(bufs, added, middle, j, k);
    }
    forall k | 0 <= k < |all|
      ensures all[k].idx == k && Pow2(all[k].order) <= all[k].total && all[k].offset + all[k].total <= end
    {
      assert all[k] == if k < n then bufs[k] else added[k - n];
    }
  }

  /** Every span is a number of whole pages. */
  lemma {:induction false} SpansArePages(bufs: seq<Buf>)
    ensures Spans(bufs) % 4096 == 0
  {
    if bufs != [] {
      var order := bufs[|bufs| - 1].order;
      SpansArePages(bufs[..|bufs| - 1]);
      if order > PAGE_SHIFT {
        MultipleOfPage(order);
      }
      hide Pow2;
    }
  }

  /** Where the buffers of one addition lie: with page alignment at page boundaries, otherwise exactly their size
      apart. */
  lemma AddedAreAligned(bufs: seq<Buf>, byteCount: nat, added: seq<Buf>, order: nat, pageAlign: bool, i: nat)
    requires Layout(bufs, byteCount) && byteCount + Scaled(|added|, Span(order)) <= ULONG && i < |added|
    requires Appended(added, |added|, |bufs|, byteCount, order, Alignment(order, pageAlign))
    ensures pageAlign ==> added[i].offset % 4096 == 0
    ensures !pageAlign && i + 1 < |added| ==> added[i + 1].offset == added[i].offset + Pow2(order)
    ensures added[0].offset == byteCount
  {
    hide Span, Pow2, Spans, Scaled, Placed, Alignment, Appended;
    SpansArePages(bufs);
    AlignmentMeans(order);
    AlignmentFits(order, pageAlign);
    var alignment := Alignment(order, pageAlign);
    AppendedInside(added, 0, |bufs|, byteCount, order, alignment);
    AppendedInside(added, i, |bufs|, byteCount, order, alignment);
    ScaledNext(i, alignment);
    if pageAlign {
      ScaledPages(i, alignment);
    } else if i + 1 < |added| {
      AppendedInside(added, i + 1, |bufs|, byteCount, order, alignment);
    }
  }

  lemma {:induction false} ScaledPages(i: nat, a: nat)
    requires a % 4096 == 0
    ensures Scaled(i, a) % 4096 == 0
  {
    hide Scaled;
    if i == 0 {
      ScaledNext(0, a);
    } else {
      ScaledPages(i - 1, a);
      ScaledNext(i - 1, a);
    }
  }

  /** Two different buffers never share a byte. */
  lemma BuffersAreDisjoint(bufs: seq<Buf>, byteCount: nat, j: nat, k: nat, x: nat)
    requires Placed(bufs, byteCount) && j < |bufs| && k < |bufs| && j != k
    requires bufs[j].offset <= x < bufs[j].offset + bufs[j].total
    ensures !(bufs[k].offset <= x < bufs[k].offset + bufs[k].total) && x < byteCount
  {
    hide Pow2, Spans;
    if j < k {
      assert bufs[j].offset + bufs[j].total <= bufs[k].offset;
    } else {
      assert bufs[k].offset + bufs[k].total <= bufs[j].offset;
    }
  }

  // ----- the pool -----

  /** What the allocations and the permission checks of one request come to. */
  datatype Env = Env(featureSg: bool, haveDma: bool, superuser: bool, listMemory: bool, privMemory: nat,
                     vectorMemory: bool)

  /** A signed 32-bit number out of an unbounded one */
  function Int32(n: int): int {
    (n + INT_LIMIT) % (2 * INT_LIMIT) - INT_LIMIT
  }

  /** How many orders are in use. */
  function Used(counts: seq<nat>): (n: nat)
    ensures n <= |counts|
  {
    if counts == [] then 0 else Used(counts[..|counts| - 1]) + if counts[|counts| - 1] > 0 then 1 else 0
  }

  lemma {:induction false} UsedMore(counts: seq<nat>, o: nat, n: nat)
    requires o < |counts| && counts[o] == 0
    ensures Used(counts[o := n]) == Used(counts) + if n > 0 then 1 else 0
  {
    var last := |counts| - 1;
    if o < last {
      UsedMore(counts[..last], o, n);
      assert counts[o := n][..last] == counts[..last][o := n];
    } else {
      assert counts[o := n][..last] == counts[..last];
    }
  }

  /** The pool is laid out, and its byte count is far from the limit of an unsigned long. */
  predicate Sound(bufs: seq<Buf>, byteCount: nat, counts: seq<nat>) {
    Layout(bufs, byteCount) && |counts| == MAX_ORDER + 1 && byteCount <= Used(counts) * INT_LIMIT
  }

  lemma {:induction false} Order22()
    ensures Pow2(22) == 0x40_0000
  {
    OnePage();
    assert Pow2(22) == 2 * Pow2(21) && Pow2(21) == 2 * Pow2(20) && Pow2(20) == 2 * Pow2(19) &&
      Pow2(19) == 2 * Pow2(18) && Pow2(18) == 2 * Pow2(17);
    assert Pow2(17) == 2 * Pow2(16) && Pow2(16) == 2 * Pow2(15) && Pow2(15) == 2 * Pow2(14) &&
      Pow2(14) == 2 * Pow2(13) && Pow2(13) == 2 * Pow2(12);
  }

  lemma SpanBound(order: nat, n: nat)
    requires order <= MAX_ORDER && n <= MAX_COUNT
    ensures Span(order) <= 0x40_0000 && Scaled(n, Span(order)) <= 0x4_0000_0000
  {
    Order22();
    OnePage();
    Pow2Grows(order, MAX_ORDER);
    Pow2Grows(PAGE_SHIFT, MAX_ORDER);
    hide Scaled, Pow2;
    ScaledGrows(n, MAX_COUNT, Span(order));
    FourThousand(Span(order));
  }

  lemma FourThousand(a: nat)
    ensures Scaled(MAX_COUNT, a) == 4096 * a
  {
  }

  /** An addition keeps the byte count the sum of the spans exactly when its bytes fit a signed int; and then the pool
      stays laid out. */
  lemma AddKeepsSumIff(bufs: seq<Buf>, byteCount: nat, counts: seq<nat>, added: seq<Buf>, order: nat, alignment: nat)
    requires Sound(bufs, byteCount, counts) && MIN_ORDER <= order <= MAX_ORDER && counts[order] == 0
    requires |added| <= MAX_COUNT && Appended(added, |added|, |bufs|, byteCount, order, alignment)
    requires Pow2(order) <= alignment <= Span(order)
    ensures var bytes := Scaled(|added|, Span(order)); var now := (byteCount + Int32(bytes)) % ULONG;
      (now == Spans(bufs + added) <==> bytes < INT_LIMIT) &&
      (Sound(bufs + added, now, counts[order := |added|]) <==> bytes < INT_LIMIT)
  {
    hide Span, Scaled, Pow2, Spans, Appended, Placed, Int32, Used;
    var bytes := Scaled(|added|, Span(order));
    SpanBound(order, |added|);
    AppendKeepsLayout(bufs, added, byteCount, order, alignment);
    UsedMore(counts, order, |added|);
    NothingSpansNothing(|added|, order);
    WrapsIff(byteCount, bytes);
  }

  lemma NothingSpansNothing(n: nat, order: nat)
    ensures n == 0 ==> Scaled(n, Span(order)) == 0
  {
  }

  lemma WrapsIff(byteCount: nat, bytes: nat)
    requires bytes <= 0x4_0000_0000 && byteCount <= (MAX_ORDER + 1) * INT_LIMIT
    ensures (byteCount + Int32(bytes)) % ULONG == byteCount + bytes <==> bytes < INT_LIMIT
  {
  }

  /** An addition keeps every buffer in its place and inside the byte count, exactly when its bytes fit a signed int or
      the negative sum makes the unsigned byte count wrap to near its limit. */
  lemma AddKeepsPlacedIff(bufs: seq<Buf>, byteCount: nat, counts: seq<nat>, added: seq<Buf>, order: nat, alignment: nat)
    requires Sound(bufs, byteCount, counts) && MIN_ORDER <= order <= MAX_ORDER && counts[order] == 0
    requires |added| <= MAX_COUNT && Appended(added, |added|, |bufs|, byteCount, order, alignment)
    requires Pow2(order) <= alignment <= Span(order)
    ensures var bytes := Scaled(|added|, Span(order));
      Placed(bufs + added, (byteCount + Int32(bytes)) % ULONG) <==>
      bytes < INT_LIMIT || byteCount + Int32(bytes) < 0
  {
    hide Span, Scaled, Pow2, Spans, Appended, Placed;
    var bytes := Scaled(|added|, Span(order));
    var now := (byteCount + Int32(bytes)) % ULONG;
    SpanBound(order, |added|);
    AppendKeepsLayout(bufs, added, byteCount, order, alignment);
    Wrapped(byteCount, bytes);
    if byteCount + bytes <= now {
      PlacedInMore(bufs + added, byteCount + bytes, now);
    } else {
      ManyBytesMeanBigBuffers(|added|, order);
      LastEnds(added, |bufs|, byteCount, order, alignment);
      NotPlaced(bufs + added, now);
    }
  }

  lemma Wrapped(byteCount: nat, bytes: nat)
    requires bytes <= 0x4_0000_0000 && byteCount <= (MAX_ORDER + 1) * INT_LIMIT
    ensures byteCount + bytes <= (byteCount + Int32(bytes)) % ULONG <==>
      bytes < INT_LIMIT || byteCount + Int32(bytes) < 0
    ensures byteCount + bytes < ULONG
  {
    if bytes >= INT_LIMIT {
      assert -INT_LIMIT <= Int32(bytes) <= bytes - 2 * INT_LIMIT;
    }
  }

  lemma PlacedInMore(bufs: seq<Buf>, byteCount: nat, more: nat)
    requires Placed(bufs, byteCount) && byteCount <= more
    ensures Placed(bufs, more)
  {
    hide Pow2;
  }

  lemma NotPlaced(bufs: seq<Buf>, byteCount: nat)
    requires bufs != [] && bufs[|bufs| - 1].offset + bufs[|bufs| - 1].total > byteCount
    ensures !Placed(bufs, byteCount)
  {
    hide Pow2;
  }

  /** What spans 2 GiB has buffers of more than a page, which have no gaps between them. */
  lemma ManyBytesMeanBigBuffers(n: nat, order: nat)
    requires n <= MAX_COUNT && Scaled(n, Span(order)) >= INT_LIMIT
    ensures n > 0 && Span(order) == Pow2(order)
  {
    hide Pow2;
  }

  lemma LastEnds(added: seq<Buf>, count: nat, byteCount: nat, order: nat, alignment: nat)
    requires Appended(added, |added|, count, byteCount, order, alignment) && added != []
    requires alignment == Span(order) && byteCount + Scaled(|added|, alignment) <= ULONG
    ensures added[|added| - 1].offset + added[|added| - 1].total == byteCount + Scaled(|added|, alignment)
  {
    hide Span, Scaled;
    AppendedInside(added, |added| - 1, count, byteCount, order, alignment);
    ScaledNext(|added| - 1, alignment);
  }

  /** 1024 buffers of 4 MiB make a signed sum of 0: in a new pool all of them lie outside the byte count. */
  lemma FourGigabytesFallOutside(added: seq<Buf>, pageAlign: bool)
    requires Appended(added, 1024, 0, 0, 22, Alignment(22, pageAlign))
    ensures LeastOrder(0x40_0000, 22)
    ensures var byteCount := (0 + Int32(Scaled(1024, Span(22)))) % ULONG;
      byteCount == 0 && !Placed(added, byteCount) &&
      forall k :: 0 <= k < |added| ==> added[k].offset + added[k].total > byteCount
  {
    hide Pow2, Span, Alignment, Scaled;
    Order22();
    Megabytes();
    AlignmentFits(22, pageAlign);
    assert added[0].total > 0;
  }

  lemma Megabytes()
    ensures LeastOrder(0x40_0000, 22)
    ensures Span(22) == Pow2(22) == 0x40_0000
    ensures Scaled(511, Span(22)) < INT_LIMIT == Scaled(512, Span(22))
    ensures Scaled(1024, Span(22)) == 2 * INT_LIMIT
  {
    Order22();
    assert Pow2(22) == 2 * Pow2(21);
  }

  /** 512 of them, the least number that does not fit, make it negative: in a new pool the byte count wraps to 2
      GiB less than 2^64.  It is not the sum of the spans any more, but every buffer lies inside. */
  lemma TwoGigabytesWrap(added: seq<Buf>, pageAlign: bool)
    requires Appended(added, 512, 0, 0, 22, Alignment(22, pageAlign))
    ensures Scaled(511, Span(22)) < INT_LIMIT == Scaled(512, Span(22))
    ensures var byteCount := (0 + Int32(Scaled(512, Span(22)))) % ULONG;
      byteCount == ULONG - INT_LIMIT && Placed(added, byteCount) && byteCount != Spans(added)
  {
    hide Pow2, Spans, Span, Alignment, Scaled, Placed;
    Megabytes();
    AlignmentFits(22, pageAlign);
    NothingPlaced();
    assert [] + added == added;
    AppendKeepsLayout([], added, 0, 22, Alignment(22, pageAlign));
    PlacedInMore(added, INT_LIMIT, ULONG - INT_LIMIT);
  }

  lemma NothingPlaced()
    ensures Layout([], 0)
  {
  }

  class Pool {
    var counts: seq<nat>       // entry->buf_count of each order
    var buflist: seq<Buf>
    var byteCount: nat         // unsigned long
    var bufUse: nat
    var bufAlloc: nat

    predicate Valid()
      reads this
    {
      |counts| == MAX_ORDER + 1 && byteCount < ULONG
    }

    /** drm_dma_setup and the reset of the counters in drm_setup */
    constructor ()
      ensures Valid() && buflist == [] && byteCount == 0 && bufUse == 0 && bufAlloc == 0
      ensures forall o :: 0 <= o <= MAX_ORDER ==> counts[o] == 0
      ensures Layout(buflist, byteCount)
    {
      counts := seq(MAX_ORDER + 1, _ => 0);
      buflist, byteCount, bufUse, bufAlloc := [], 0, 0, 0;
    }

    /** The loop that fills in the buffers of an entry; `made` stops short of `count` when memory runs out. */
    method FillEntry(count: nat, order: nat, alignment: nat, privMemory: nat) returns (made: seq<Buf>, bytes: int)
      requires count <= MAX_COUNT
      ensures Appended(made, |made|, |buflist|, byteCount, order, alignment)
      ensures |made| == if privMemory < count then privMemory else count
      ensures bytes == Int32(Scaled(|made|, Span(order)))
    {
      hide Span, Scaled, Int32;
      made := [];
      bytes := 0;
      var offset: nat := 0;
      FillStarts(alignment, Span(order));
      while |made| < count
        invariant |made| <= count && |made| <= privMemory
        invariant offset == Scaled(|made|, alignment)
        invariant Appended(made, |made|, |buflist|, byteCount, order, alignment)
        invariant bytes == Int32(Scaled(|made|, Span(order)))
        decreases count - |made|
      {
        if |made| == privMemory {
          return;
        }
        var buf := new Buf(|buflist| + |made|, alignment, order, (byteCount + offset) % ULONG);
        ScaledNext(|made|, alignment);
        ScaledNext(|made|, Span(order));
        Int32Adds(Scaled(|made|, Span(order)), Span(order));
        offset := offset + alignment;
        bytes := Int32(bytes + Span(order));
        made := made + [buf];
      }
    }

    /** drm_addbufs_sg.  On every path that counted the allocation in, it is counted out again. */
    method AddBufsSg(count: int, size: int, pageAlign: bool, env: Env)
      returns (err: int, outSize: nat, ghost order: nat, ghost added: seq<Buf>)
      requires |counts| == MAX_ORDER + 1 && -INT_LIMIT <= size < INT_LIMIT
      modifies this
      ensures LeastOrder(size % ULONG, order)
      ensures err == if !env.featureSg || !env.haveDma then -EINVAL
                     else if !env.superuser then -EPERM
                     else if order < MIN_ORDER || order > MAX_ORDER then -EINVAL
                     else if old(bufUse) > 0 then -EBUSY
                     else if old(counts)[order] > 0 then -ENOMEM
                     else if count < 0 || count > MAX_COUNT then -EINVAL
                     else if !env.listMemory || env.privMemory < count || !env.vectorMemory then -ENOMEM
                     else 0
      ensures bufAlloc == old(bufAlloc) && bufUse == old(bufUse)
      ensures err != 0 ==> buflist == old(buflist) && byteCount == old(byteCount) && counts == old(counts)
      ensures err == 0 ==>
        Appended(added, count, |old(buflist)|, old(byteCount), order, Alignment(order, pageAlign)) &&
        buflist == old(buflist) + added && counts == old(counts)[order := count] && outSize == Pow2(order) &&
        byteCount == (old(byteCount) + Int32(Scaled(count, Span(order)))) % ULONG
    {
      hide Alignment, Span, Pow2, Scaled, Appended, Int32;
      var o := Order(size % ULONG);
      order, added, outSize := o, [], 0;
      if !env.featureSg || !env.haveDma {
        return -EINVAL, outSize, order, added;
      }
      if !env.superuser {
        return -EPERM, outSize, order, added;
      }
      if o < MIN_ORDER || o > MAX_ORDER {
        return -EINVAL, outSize, order, added;
      }
      if bufUse > 0 {
        return -EBUSY, outSize, order, added;
      }
      bufAlloc := bufAlloc + 1;
      if counts[o] > 0 {
        bufAlloc := bufAlloc - 1;
        return -ENOMEM, outSize, order, added;
      }
      if count < 0 || count > MAX_COUNT {
        bufAlloc := bufAlloc - 1;
        return -EINVAL, outSize, order, added;
      }
      if !env.listMemory {
        bufAlloc := bufAlloc - 1;
        return -ENOMEM, outSize, order, added;
      }
      var made, bytes := FillEntry(count, o, Alignment(o, pageAlign), env.privMemory);
      if |made| < count {
        bufAlloc := bufAlloc - 1;
        return -ENOMEM, outSize, order, added;
      }
      if !env.vectorMemory {
        bufAlloc := bufAlloc - 1;
        return -ENOMEM, outSize, order, added;
      }
      buflist := buflist + made;
      counts := counts[o := count];
      byteCount := (byteCount + bytes) % ULONG;
      bufAlloc := bufAlloc - 1;
      err, outSize, added := 0, Pow2(o), made;
    }

    /** What drm_infobufs and drm_mapbufs begin with: the pool is frozen from here on. */
    method Freeze(haveDma: bool) returns (err: int)
      modifies `bufUse
      ensures err == if !haveDma then -EINVAL else if bufAlloc > 0 then -EBUSY else 0
      ensures bufUse == old(bufUse) + if err == 0 then 1 else 0
    {
      if !haveDma {
        return -EINVAL;
      }
      if bufAlloc > 0 {
        return -EBUSY;
      }
      bufUse := bufUse + 1;
      err := 0;
    }

    /** drm_freebufs: buffers are given back one after the other, up to the first index that is out of range, or
        names a buffer that the caller does not own (any more), or cannot be copied from the user, which is so from
        position `readable` on. */
    method FreeBufs(file: DrmFile, list: seq<int>, haveDma: bool, readable: nat) returns (err: int, ghost done: nat)
      requires forall k :: 0 <= k < |buflist| ==> buflist[k].idx == k
      modifies buflist
      ensures done <= |list| && done <= readable
      ensures err == if !haveDma then -EINVAL else if done == |list| then 0
                     else if done == readable then -EFAULT else -EINVAL
      ensures !haveDma ==> done == 0
      ensures forall k :: 0 <= k < |buflist| ==>
        if k in list[..done] then old(buflist[k].filePriv) == file && Returned(buflist[k]) else unchanged(buflist[k])
      ensures forall j :: 0 <= j < done ==> 0 <= list[j] < |buflist| && list[j] !in list[..j]
      ensures haveDma && done < |list| && done < readable ==>
        !(0 <= list[done] < |buflist|) || list[done] in list[..done] || old(buflist[list[done]].filePriv) != file
    {
      done := 0;
      if !haveDma {
        return -EINVAL, done;
      }
      for i := 0 to |list|
        invariant done == i <= readable
        invariant forall k :: 0 <= k < |buflist| ==>
          if k in list[..i] then old(buflist[k].filePriv) == file && Returned(buflist[k]) else unchanged(buflist[k])
        invariant forall j :: 0 <= j < i ==> 0 <= list[j] < |buflist| && list[j] !in list[..j]
      {
        if i >= readable {
          return -EFAULT, done;
        }
        var idx := list[i];
        if idx < 0 || idx >= |buflist| {
          return -EINVAL, done;
        }
        var buf := buflist[idx];
        if buf.filePriv != file {
          return -EINVAL, done;
        }
        FreeBuffer(buf);
        assert list[..i + 1] == list[..i] + [idx];
        done := i + 1;
      }
      err := 0;
    }

    /** drm_core_reclaim_buffers: what the closing file owns and the hardware does not have */
    method Reclaim(file: DrmFile)
      requires forall k :: 0 <= k < |buflist| ==> buflist[k].idx == k
      modifies buflist
      ensures forall k :: 0 <= k < |buflist| ==>
        if old(buflist[k].filePriv) != file then unchanged(buflist[k])
        else if old(buflist[k].list) == OnNone then Returned(buflist[k]) && buflist[k].list == OnNone
        else buflist[k].filePriv == file && buflist[k].used == old(buflist[k].used) &&
             buflist[k].list == if old(buflist[k].list) == OnWait then OnReclaim else old(buflist[k].list)
    {
      for i := 0 to |buflist|
        invariant forall k :: i <= k < |buflist| ==> unchanged(buflist[k])
        invariant forall k :: 0 <= k < i ==>
          if old(buflist[k].filePriv) != file then unchanged(buflist[k])
          else if old(buflist[k].list) == OnNone then Returned(buflist[k]) && buflist[k].list == OnNone
          else buflist[k].filePriv == file && buflist[k].used == old(buflist[k].used) &&
               buflist[k].list == if old(buflist[k].list) == OnWait then OnReclaim else old(buflist[k].list)
      {
        var buf := buflist[i];
        if buf.filePriv == file {
          if buf.list == OnNone {
            FreeBuffer(buf);
          } else if buf.list == OnWait {
            buf.list := OnReclaim;
          }
        }
      }
    }

    /** The pool as the protocol of the two counters sees it, between the calls of these threads. */
    ghost function Seen(threads: map<nat, FreezeProtocol.Phase>): FreezeProtocol.State<Contents>
      reads this
    {
      FreezeProtocol.State(bufUse, bufAlloc, Contents(buflist, byteCount, counts), threads, None)
    }

    /** An addition that passes the checks before the counters, as steps of its thread. */
    method AddAsSteps(r: Request, ghost threads: map<nat, FreezeProtocol.Phase>, ghost t: nat) returns (err: int)
      requires |counts| == MAX_ORDER + 1 && -INT_LIMIT <= r.size < INT_LIMIT
      requires r.env.featureSg && r.env.haveDma && r.env.superuser
      requires LeastOrderIn(r.size % ULONG, MIN_ORDER, MAX_ORDER)
      requires t in threads && threads[t] == FreezeProtocol.Idle
      modifies this
      ensures var run := FreezeProtocol.Addition(old(Seen(threads)), t, Seen(threads).pool);
        FreezeProtocol.Possible(old(Seen(threads)), run) &&
        Seen(threads) == FreezeProtocol.Final(old(Seen(threads)), run)
      ensures (err == -EBUSY) == (old(bufUse) > 0)
      ensures err == 0 && r.Fits() ==>
        exists order :: Extends(old(Seen(threads)).pool, Seen(threads).pool, order, r.pageAlign)
      ensures err != 0 ==> Seen(threads).pool == old(Seen(threads)).pool
    {
      hide Scaled, Span, Alignment, Int32, Pow2, LeastOrder, Request.Fits, FreezeProtocol.Possible,
           FreezeProtocol.Final, FreezeProtocol.Addition;
      ghost var before := Seen(threads);
      ghost var order, added;
      var outSize;
      err, outSize, order, added := AddBufsSg(r.count, r.size, r.pageAlign, r.env);
      OneOrder(r.size % ULONG, order);
      FreezeProtocol.AdditionIsRun(before, t, Seen(threads).pool);
      if err == 0 && r.Fits() {
        FitsIff(r, order);
        assert Seen(threads).pool.buflist[|before.pool.buflist|..] == added;
        assert Extends(before.pool, Seen(threads).pool, order, r.pageAlign);
      }
    }

    /** A look at the pool, as a step. */
    method LookAsStep(ghost threads: map<nat, FreezeProtocol.Phase>) returns (err: int)
      modifies `bufUse
      ensures FreezeProtocol.Enabled(old(Seen(threads)), FreezeProtocol.Look)
      ensures Seen(threads) == FreezeProtocol.After(old(Seen(threads)), FreezeProtocol.Look)
    {
      err := Freeze(true);
    }

    /** Any sequence of requests, from a sound pool.  If no successful one spans 2 GiB or more, it is sound in the end.
        Otherwise the byte count is not the sum of the spans, whatever came later. */
    method AddAll(requests: seq<Request>) returns (errs: seq<int>)
      requires Sound(buflist, byteCount, counts)
      requires forall r :: r in requests ==> -INT_LIMIT <= r.size < INT_LIMIT
      modifies this
      ensures |errs| == |requests|
      ensures AllFit(requests, errs) ==> Sound(buflist, byteCount, counts)
      ensures byteCount == Spans(buflist) <==> AllFit(requests, errs)
      ensures bufAlloc == old(bufAlloc) && bufUse == old(bufUse)
      ensures |old(buflist)| <= |buflist| && buflist[..|old(buflist)|] == old(buflist)
    {
      hide *;
      errs := [];
      ghost var lost := 0;
      SoundIsTracked(buflist, byteCount, counts);
      NothingAsked(requests);
      for i := 0 to |requests|
        invariant |errs| == i && bufAlloc == old(bufAlloc) && bufUse == old(bufUse)
        invariant |old(buflist)| <= |buflist| && buflist[..|old(buflist)|] == old(buflist)
        invariant Tracked(buflist, byteCount, counts, lost)
        invariant lost == 0 ==> Sound(buflist, byteCount, counts)
        invariant lost == 0 <==> AllFit(requests[..i], errs)
      {
        var err;
        err, lost := AddTracked(requests[i], lost);
        FitsOneMore(requests, errs, err);
        errs := errs + [err];
      }
      assert requests[..|requests|] == requests;
      LostIsNotSum(buflist, byteCount, counts, lost);
    }

    /** One request, and what the byte count falls short of the spans by afterwards. */
    method AddTracked(r: Request, ghost lost: nat) returns (err: int, ghost more: nat)
      requires Tracked(buflist, byteCount, counts, lost) && -INT_LIMIT <= r.size < INT_LIMIT
      requires lost == 0 ==> Sound(buflist, byteCount, counts)
      modifies this
      ensures Tracked(buflist, byteCount, counts, more) && (more == 0 ==> Sound(buflist, byteCount, counts))
      ensures more == 0 <==> lost == 0 && (err == 0 ==> r.Fits())
      ensures bufAlloc == old(bufAlloc) && bufUse == old(bufUse)
      ensures |old(buflist)| <= |buflist| && buflist[..|old(buflist)|] == old(buflist)
    {
      hide Sound, Alignment, Span, Pow2, Scaled, Int32, LeastOrder, Request.Fits;
      ghost var before, bytes, used := buflist, byteCount, counts;
      var outSize;
      ghost var order, added;
      err, outSize, order, added := AddBufsSg(r.count, r.size, r.pageAlign, r.env);
      more := lost;
      if err == 0 {
        FitsIff(r, order);
        AlignmentFits(order, r.pageAlign);
        AddTracks(before, bytes, used, lost, added, order);
        more := lost + Shortfall(Scaled(|added|, Span(order)));
        if lost == 0 {
          AddKeepsSumIff(before, bytes, used, added, order, Alignment(order, r.pageAlign));
        }
      }
    }
  }

  datatype Request = Request(count: int, size: int, pageAlign: bool, env: Env) {
    /** The buffers asked for span less than 2 GiB. */
    ghost predicate Fits() {
      forall order: nat :: LeastOrder(size % ULONG, order) && count >= 0 ==> Scaled(count, Span(order)) < INT_LIMIT
    }
  }

  /** Every request that succeeded spans less than 2 GiB. */
  ghost predicate AllFit(requests: seq<Request>, errs: seq<int>)
    requires |errs| == |requests|
  {
    forall k :: 0 <= k < |requests| && errs[k] == 0 ==> requests[k].Fits()
  }

  lemma FitsOneMore(requests: seq<Request>, errs: seq<int>, err: int)
    requires |errs| < |requests|
    ensures var n := |errs|; AllFit(requests[..n + 1], errs + [err]) <==>
      AllFit(requests[..n], errs) && (err == 0 ==> requests[n].Fits())
    ensures requests[|errs|] in requests
  {
    hide Request.Fits;
    var n, now := |errs|, errs + [err];
    assert forall k :: 0 <= k < n ==> requests[..n + 1][k] == requests[..n][k] && now[k] == errs[k];
    assert requests[..n + 1][n] == requests[n] && now[n] == err;
  }

  lemma NothingAsked(requests: seq<Request>)
    ensures AllFit(requests[..0], [])
  {
  }

  ghost predicate LeastOrderIn(n: nat, low: nat, high: nat) {
    exists order: nat :: low <= order <= high && LeastOrder(n, order)
  }

  lemma OneOrder(n: nat, order: nat)
    requires LeastOrder(n, order)
    ensures forall other: nat :: LeastOrder(n, other) ==> other == order
  {
    hide Pow2;
    forall other: nat | LeastOrder(n, other)
      ensures other == order
    {
      LeastOrderIsLeast(n, order, other);
      LeastOrderIsLeast(n, other, order);
    }
  }

  lemma FitsIff(r: Request, order: nat)
    requires LeastOrder(r.size % ULONG, order) && r.count >= 0
    ensures r.Fits() <==> Scaled(r.count, Span(order)) < INT_LIMIT
  {
    hide LeastOrder, Scaled, Span;
    OneOrder(r.size % ULONG, order);
  }

  /** By how much the signed count of one addition falls short of its bytes. */
  function Shortfall(bytes: nat): (d: nat)
    ensures d <= bytes + INT_LIMIT && (d == 0 <==> bytes < INT_LIMIT)
  {
    bytes - Int32(bytes)
  }

  /** The byte count is that of the spans less what was lost, as an unsigned long; both are far from its limit. */
  predicate Tracked(bufs: seq<Buf>, byteCount: nat, counts: seq<nat>, lost: nat) {
    |counts| == MAX_ORDER + 1 && byteCount == (Spans(bufs) - lost) % ULONG &&
    Spans(bufs) <= Used(counts) * 0x4_0000_0000 && lost <= Used(counts) * 0x8_0000_0000
  }

  lemma SoundIsTracked(bufs: seq<Buf>, byteCount: nat, counts: seq<nat>)
    requires Sound(bufs, byteCount, counts)
    ensures Tracked(bufs, byteCount, counts, 0)
  {
  }

  lemma LostIsNotSum(bufs: seq<Buf>, byteCount: nat, counts: seq<nat>, lost: nat)
    requires Tracked(bufs, byteCount, counts, lost)
    ensures byteCount == Spans(bufs) <==> lost == 0
  {
    hide Spans, Used;
    assert Used(counts) <= MAX_ORDER + 1;
  }

  lemma AddTracks(bufs: seq<Buf>, byteCount: nat, counts: seq<nat>, lost: nat, added: seq<Buf>, order: nat)
    requires Tracked(bufs, byteCount, counts, lost) && MIN_ORDER <= order <= MAX_ORDER && counts[order] == 0
    requires |added| <= MAX_COUNT && forall i :: 0 <= i < |added| ==> added[i].order == order
    ensures var bytes := Scaled(|added|, Span(order));
      Tracked(bufs + added, (byteCount + Int32(bytes)) % ULONG, counts[order := |added|], lost + Shortfall(bytes))
  {
    hide Span, Scaled, Pow2, Spans, Used;
    var bytes := Scaled(|added|, Span(order));
    SpanBound(order, |added|);
    SpansMore(bufs, added, order);
    UsedMore(counts, order, |added|);
    NothingSpansNothing(|added|, order);
    ModAdds(Spans(bufs) - lost, Int32(bytes));
  }

  lemma ModAdds(a: int, b: int)
    ensures (a % ULONG + b) % ULONG == (a + b) % ULONG
  {
  }

  /** Nobody owns the buffer. */
  predicate Returned(b: Buf)
    reads b
  {
    !b.pending && b.filePriv == null && b.used == 0
  }

  /** drm_free_buffer */
  method FreeBuffer(b: Buf)
    modifies b`pending, b`filePriv, b`used
    ensures Returned(b)
  {
    b.pending, b.filePriv, b.used := false, null, 0;
  }

  lemma FillStarts(a: nat, b: nat)
    ensures Scaled(0, a) == 0 && Int32(Scaled(0, b)) == 0
  {
  }

  lemma Int32Adds(a: int, b: int)
    ensures Int32(Int32(a) + b) == Int32(a + b)
  {
  }

  // ----- additions that interleave -----

  datatype Contents = Contents(buflist: seq<Buf>, byteCount: nat, counts: seq<nat>)

  ghost predicate SoundContents(c: Contents) {
    Sound(c.buflist, c.byteCount, c.counts)
  }

  /** What one successful request that fits makes of the pool */
  ghost predicate Extends(before: Contents, after: Contents, order: nat, pageAlign: bool) {
    MIN_ORDER <= order <= MAX_ORDER && |before.counts| == MAX_ORDER + 1 && before.counts[order] == 0 &&
    before.buflist <= after.buflist &&
    var added := after.buflist[|before.buflist|..];
    |added| <= MAX_COUNT && Scaled(|added|, Span(order)) < INT_LIMIT &&
    Appended(added, |added|, |before.buflist|, before.byteCount, order, Alignment(order, pageAlign)) &&
    after.byteCount == (before.byteCount + Int32(Scaled(|added|, Span(order)))) % ULONG &&
    after.counts == before.counts[order := |added|]
  }

  /** A thread that writes leaves the pool as it was, or extends it; a setup empties it. */
  ghost predicate Honest(s: FreezeProtocol.State<Contents>, step: FreezeProtocol.Step<Contents>) {
    match step
    case Write(_, pool) =>
      pool == s.pool || exists order, pageAlign :: Extends(s.pool, pool, order, pageAlign)
    case Setup(pool) => pool == Contents([], 0, seq(MAX_ORDER + 1, _ => 0))
    case _ => true
  }

  ghost predicate AllHonest(s: FreezeProtocol.State<Contents>, run: seq<FreezeProtocol.Step<Contents>>)
    requires FreezeProtocol.Possible(s, run)
    decreases |run|
  {
    run == [] || (Honest(s, run[0]) && AllHonest(FreezeProtocol.After(s, run[0]), run[1..]))
  }

  lemma HonestKeepsSound(s: FreezeProtocol.State<Contents>, step: FreezeProtocol.Step<Contents>)
    requires SoundContents(s.pool) && FreezeProtocol.Enabled(s, step) && Honest(s, step)
    ensures SoundContents(FreezeProtocol.After(s, step).pool)
    ensures !step.Setup? ==> s.pool.buflist <= FreezeProtocol.After(s, step).pool.buflist
  {
    if step.Write? && step.pool != s.pool {
      var order, pageAlign :| Extends(s.pool, step.pool, order, pageAlign);
      ExtendedIsSound(s.pool, step.pool, order, pageAlign);
    } else if step.Setup? {
      NoneUsed(step.pool.counts);
    }
  }

  lemma ExtendedIsSound(before: Contents, after: Contents, order: nat, pageAlign: bool)
    requires SoundContents(before) && Extends(before, after, order, pageAlign)
    ensures SoundContents(after) && before.buflist <= after.buflist
  {
    hide Sound, Scaled, Span, Alignment, Appended, Int32, Pow2;
    var added := after.buflist[|before.buflist|..];
    assert after.buflist == before.buflist + added;
    AlignmentFits(order, pageAlign);
    AddKeepsSumIff(before.buflist, before.byteCount, before.counts, added, order, Alignment(order, pageAlign));
  }

  lemma {:induction false} NoneUsed(counts: seq<nat>)
    requires |counts| == MAX_ORDER + 1
    ensures Sound([], 0, counts)
  {
  }

  /** Whatever threads add and look in whatever order: the pool stays laid out, and no buffer that is in the
      list leaves it or changes its index before the next setup. */
  lemma {:induction false} InterleavedAdditionsKeepSound(s: FreezeProtocol.State<Contents>,
                                                         run: seq<FreezeProtocol.Step<Contents>>)
    requires FreezeProtocol.Possible(s, run) && SoundContents(s.pool) && AllHonest(s, run)
    ensures SoundContents(FreezeProtocol.Final(s, run).pool)
    ensures (forall step :: step in run ==> !step.Setup?) ==>
      s.pool.buflist <= FreezeProtocol.Final(s, run).pool.buflist
    decreases |run|
  {
    if run != [] {
      HonestKeepsSound(s, run[0]);
      InterleavedAdditionsKeepSound(FreezeProtocol.After(s, run[0]), run[1..]);
    }
  }
}
