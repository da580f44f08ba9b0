/** Reading an EDID over DDC: validation and repair of its 128-byte blocks, and the compaction of those that
    validate. */
module Edid {
  import opened KmsObjects

  type byte = x: int | 0 <= x < 256

  const LENGTH := 128
  const MAX_EXTENSIONS := 4
  const VERSION := 18
  const EXTENSIONS := 0x7e
  const CHECKSUM := 127
  const HEADER: seq<byte> := [0x00, 0xff, 0xff, 0xff, 0xff, 0xff, 0xff, 0x00]
  const FIXUP := 6
  const READS := 4

  function Sum(b: seq<byte>): nat {
    if b == [] then 0 else Sum(b[..|b| - 1]) + b[|b| - 1]
  }

  /** How many of the first k header bytes are right. */
  function Score(b: seq<byte>, k: nat): (score: nat)
    requires k <= 8 <= |b|
    ensures score <= k
  {
    if k == 0 then 0 else Score(b, k - 1) + if b[k - 1] == HEADER[k - 1] then 1 else 0
  }

  /** The score is full exactly when all of these bytes are right. */
  lemma {:induction false} FullScore(b: seq<byte>, k: nat)
    requires k <= 8 <= |b|
    ensures Score(b, k) == k <==> forall i :: 0 <= i < k ==> b[i] == HEADER[i]
  {
    if k > 0 {
      FullScore(b, k - 1);
    }
  }

  lemma PerfectHeader(b: seq<byte>)
    requires |b| >= 8 && b[..8] == HEADER
    ensures Score(b, 8) == 8 && b[0] == 0
  {
    assert forall i :: 0 <= i < 8 ==> b[i] == b[..8][i];
    FullScore(b, 8);
  }

  /** The block with its header repaired, if it is the base block and the header is nearly right. */
  function Fixed(b: seq<byte>, block: nat): (r: seq<byte>)
    requires |b| == LENGTH
    ensures |r| == LENGTH && r[8..] == b[8..]
    ensures block == 0 && Score(b, 8) >= FIXUP ==> r[..8] == HEADER
    ensures block != 0 || Score(b, 8) < FIXUP ==> r == b
  {
    if block == 0 && Score(b, 8) >= FIXUP then HEADER + b[8..] else b
  }

  /** The block is acceptable as the base block (block == 0) or as an extension. */
  predicate BlockValid(b: seq<byte>, block: nat)
    requires |b| == LENGTH
  {
    var f := Fixed(b, block);
    (block == 0 ==> Score(b, 8) >= FIXUP) &&
    (Sum(f) % 256 == 0 || f[0] == 0x02) &&
    (f[0] == 0 ==> f[VERSION] == 1)
  }

  predicate IsZero(b: seq<byte>) {
    forall k :: 0 <= k < |b| ==> b[k] == 0
  }

  /** drm_edid_header_is_valid */
  method HeaderScore(raw: array<byte>, off: nat) returns (score: nat)
    requires off + LENGTH <= raw.Length
    ensures score == Score(raw[off..off + LENGTH], 8)
  {
    score := 0;
    for i := 0 to 8
      invariant score == Score(raw[off..off + LENGTH], i)
    {
      if raw[off + i] == HEADER[i] {
        score := score + 1;
      }
    }
  }

  method Checksum(raw: array<byte>, off: nat) returns (csum: byte)
    requires off + LENGTH <= raw.Length
    ensures csum == Sum(raw[off..off + LENGTH]) % 256
  {
    csum := 0;
    ghost var b := raw[off..off + LENGTH];
    for i := 0 to LENGTH
      invariant csum == Sum(b[..i]) % 256
    {
      assert b[..i + 1][..i] == b[..i];
      csum := (csum + raw[off + i]) % 256;
    }
    assert b[..LENGTH] == b;
  }

  /** The header part of drm_edid_block_valid, on the block at `off`. */
  method FixHeader(raw: array<byte>, off: nat, block: nat) returns (ok: bool)
    requires off + LENGTH <= raw.Length
    modifies raw
    ensures ok == (block == 0 ==> Score(old(raw[off..off + LENGTH]), 8) >= FIXUP)
    ensures raw[..] == old(raw[..off] + Fixed(raw[off..off + LENGTH], block) + raw[off + LENGTH..])
  {
    ghost var b := raw[off..off + LENGTH];
    assert raw[..] == raw[..off] + b + raw[off + LENGTH..];
    FullScore(b, 8);
    ok := true;
    if block == 0 {
      var score := HeaderScore(raw, off);
      if score == 8 {
        assert b == HEADER + b[8..];
      } else if score >= FIXUP {
        forall k | 0 <= k < 8 {
          raw[off + k] := HEADER[k];
        }
      } else {
        ok := false;
      }
    }
  }

  /** drm_edid_block_valid, on the block at `off` */
  method CheckBlock(raw: array<byte>, off: nat, block: nat) returns (ok: bool)
    requires off + LENGTH <= raw.Length
    modifies raw
    ensures ok == BlockValid(old(raw[off..off + LENGTH]), block)
    ensures raw[..] == old(raw[..off] + Fixed(raw[off..off + LENGTH], block) + raw[off + LENGTH..])
  {
    ghost var f := Fixed(raw[off..off + LENGTH], block);
    hide Sum, Fixed, Score;
    ok := FixHeader(raw, off, block);
    if !ok {
      return;
    }
    assert raw[off..off + LENGTH] == f;
    assert raw[off] == f[0] && raw[off + VERSION] == f[VERSION];
    var csum := Checksum(raw, off);
    if csum != 0 {
      if raw[off] != 0x02 {
        return false;
      }
    }
    if raw[off] == 0 {
      if raw[off + VERSION] != 1 {
        return false;
      }
    }
    ok := true;
  }

  function BlockAt(raw: seq<byte>, i: nat): (b: seq<byte>)
    requires LENGTH * (i + 1) <= |raw|
    ensures |b| == LENGTH
  {
    raw[LENGTH * i..LENGTH * (i + 1)]
  }

  /** A whole EDID, base block and the extensions it announces, is acceptable. */
  predicate EdidValid(raw: seq<byte>)
    requires |raw| >= LENGTH && |raw| >= LENGTH + LENGTH * raw[EXTENSIONS]
  {
    forall i {:trigger BlockAt(raw, i)} :: 0 <= i <= raw[EXTENSIONS] ==> BlockValid(BlockAt(raw, i), i)
  }

  /** drm_edid_block_valid on an extension: it changes nothing. */
  method CheckExtension(raw: array<byte>, i: nat, ghost before: seq<byte>) returns (ok: bool)
    requires LENGTH * (i + 1) <= raw.Length == |before| && i > 0 && raw[LENGTH..] == before[LENGTH..]
    modifies raw
    ensures ok == BlockValid(BlockAt(before, i), i)
    ensures raw[..] == old(raw[..])
  {
    ghost var now := raw[..];
    ghost var off := LENGTH * i;
    assert now[off..off + LENGTH] == BlockAt(before, i) by {
      assert forall k :: off <= k < off + LENGTH ==>
        now[k] == raw[LENGTH..][k - LENGTH] == before[LENGTH..][k - LENGTH];
    }
    ok := CheckBlock(raw, LENGTH * i, i);
    assert now == now[..off] + now[off..off + LENGTH] + now[off + LENGTH..];
  }

  lemma BaseOf(raw: seq<byte>)
    requires |raw| >= LENGTH
    ensures BlockAt(raw, 0) == raw[..LENGTH]
    ensures Fixed(raw[..LENGTH], 0)[EXTENSIONS] == raw[EXTENSIONS]
  {
    hide Score;
    assert Fixed(raw[..LENGTH], 0)[8..][EXTENSIONS - 8] == raw[..LENGTH][8..][EXTENSIONS - 8];
  }

  /** drm_edid_is_valid */
  method CheckEdid(raw: array<byte>) returns (ok: bool)
    requires raw.Length >= LENGTH && raw.Length >= LENGTH + LENGTH * raw[EXTENSIONS]
    modifies raw
    ensures ok == EdidValid(old(raw[..]))
    ensures raw[..] == old(Fixed(raw[..LENGTH], 0) + raw[LENGTH..])
  {
    hide BlockValid, Fixed, BlockAt;
    ghost var before := raw[..];
    ghost var n: nat := raw[EXTENSIONS];
    ghost var after := Fixed(before[..LENGTH], 0) + before[LENGTH..];
    BaseOf(before);
    assert raw[0..LENGTH] == before[..LENGTH];
    ok := CheckBlock(raw, 0, 0);
    assert raw[..] == after && after[EXTENSIONS] == n;
    var i := 1;
    while ok && i <= raw[EXTENSIONS]
      invariant 1 <= i <= n + 1 && raw[..] == after
      invariant ok ==> forall k {:trigger BlockAt(before, k)} :: 0 <= k < i ==> BlockValid(BlockAt(before, k), k)
      invariant !ok ==> exists k {:trigger BlockAt(before, k)} :: 0 <= k <= n && !BlockValid(BlockAt(before, k), k)
      decreases n + 1 - i
    {
      ok := CheckExtension(raw, i, before);
      i := i + 1;
    }
  }

  lemma {:induction false} SumOfUpdate(b: seq<byte>, k: nat, v: byte)
    requires k < |b|
    ensures Sum(b[k := v]) == Sum(b) - b[k] + v
  {
    var n := |b| - 1;
    if k < n {
      SumOfUpdate(b[..n], k, v);
      assert b[k := v][..n] == b[..n][k := v];
    } else {
      assert b[k := v][..n] == b[..n];
    }
  }

  /** A block that was accepted stays acceptable, repair included: nothing is left to repair. */
  lemma RepairIsFinal(b: seq<byte>, block: nat)
    requires |b| == LENGTH && BlockValid(b, block)
    ensures Fixed(Fixed(b, block), block) == Fixed(b, block)
    ensures BlockValid(Fixed(b, block), block)
    ensures block == 0 ==> Sum(Fixed(b, block)) % 256 == 0
  {
    var f := Fixed(b, block);
    assert f == f[..8] + f[8..];
    if block == 0 {
      PerfectHeader(f);
    }
  }

  /** Where an extension ends up does not matter for its validity, as long as it stays an extension. */
  lemma ExtensionMoves(b: seq<byte>, i: nat, j: nat)
    requires |b| == LENGTH && i > 0 && j > 0
    ensures BlockValid(b, i) == BlockValid(b, j) && Fixed(b, i) == b
  {
  }

  /** The base block announcing only the extensions that were kept, its checksum patched to match. */
  function Announcing(base: seq<byte>, kept: nat): (r: seq<byte>)
    requires |base| == LENGTH && kept <= base[EXTENSIONS]
    ensures |r| == LENGTH
  {
    base[CHECKSUM := (base[CHECKSUM] + (base[EXTENSIONS] - kept)) % 256][EXTENSIONS := kept]
  }

  lemma PatchKeepsBase(base: seq<byte>, kept: nat)
    requires |base| == LENGTH && kept <= base[EXTENSIONS]
    requires Fixed(base, 0) == base && BlockValid(base, 0)
    ensures BlockValid(Announcing(base, kept), 0)
    ensures Fixed(Announcing(base, kept), 0) == Announcing(base, kept)
    ensures Sum(Announcing(base, kept)) % 256 == 0
    ensures kept == base[EXTENSIONS] ==> Announcing(base, kept) == base
  {
    var v: byte := (base[CHECKSUM] + (base[EXTENSIONS] - kept)) % 256;
    var p := base[CHECKSUM := v];
    var q := Announcing(base, kept);
    SumOfUpdate(base, CHECKSUM, v);
    SumOfUpdate(p, EXTENSIONS, kept);
    assert q[..8] == base[..8] && q[8..][VERSION - 8] == base[VERSION];
    assert q == q[..8] + q[8..];
    PerfectHeader(q);
    PerfectHeader(base);
  }

  // ----- the reader -----

  type Block = b: seq<byte> | |b| == LENGTH witness seq(LENGTH, _ => 0)

  /** What the display answers to the i-th attempt to read block j; None when the transfer failed. */
  type Channel = (nat, nat) -> Option<Block>

  datatype Fetch = Lost | Bad | Good(data: Block)

  /** Reading block j, with attempts from the i-th on. */
  function Fetched(ch: Channel, j: nat, i: nat): (r: Fetch)
    requires i <= READS
    ensures r.Good? ==> BlockValid(r.data, j) && Fixed(r.data, j) == r.data
    ensures r.Good? && j == 0 ==> Sum(r.data) % 256 == 0
    decreases READS - i
  {
    if i == READS then Bad else
    match ch(j, i)
    case None => Lost
    case Some(b) =>
      if !BlockValid(b, j) then Fetched(ch, j, i + 1) else
      RepairIsFinal(b, j);
      Good(Fixed(b, j))
  }

  /** A fetched block is the first valid answer among at most four, with nothing but invalid answers before it. */
  lemma {:induction false} GoodWithinFourReads(ch: Channel, j: nat, i: nat, data: Block)
    requires i <= READS
    ensures Fetched(ch, j, i) == Good(data) <==> exists k: nat :: FirstValid(ch, j, i, k, data)
    decreases READS - i
  {
    if i < READS {
      var next := i + 1;
      GoodWithinFourReads(ch, j, next, data);
      if BadAnswer(ch, j, i) {
        LaterFirstValid(ch, j, i, next, data);
      } else if Fetched(ch, j, i) == Good(data) {
        assert FirstValid(ch, j, i, i, data);
      } else {
        assert forall k: nat :: FirstValid(ch, j, i, k, data) ==> k == i || BadAnswer(ch, j, i);
      }
    }
  }

  lemma LaterFirstValid(ch: Channel, j: nat, i: nat, next: nat, data: Block)
    requires BadAnswer(ch, j, i) && next == i + 1
    ensures forall k: nat :: FirstValid(ch, j, i, k, data) <==> FirstValid(ch, j, next, k, data)
  {
  }

  predicate FirstValid(ch: Channel, j: nat, i: nat, k: nat, data: Block) {
    i <= k < READS && ValidAnswer(ch, j, k, data) && forall l: nat :: i <= l < k ==> BadAnswer(ch, j, l)
  }

  predicate ValidAnswer(ch: Channel, j: nat, k: nat, data: Block) {
    ch(j, k).Some? && BlockValid(ch(j, k).value, j) && data == Fixed(ch(j, k).value, j)
  }

  predicate BadAnswer(ch: Channel, j: nat, k: nat) {
    ch(j, k).Some? && !BlockValid(ch(j, k).value, j)
  }

  /** The extensions 1 to n that validated, in order. */
  function Kept(ch: Channel, n: nat): (kept: seq<Block>)
    ensures |kept| <= n
  {
    if n == 0 then [] else
    Kept(ch, n - 1) + match Fetched(ch, n, 0) case Good(data) => [data] case _ => []
  }

  function Join(blocks: seq<Block>): (raw: seq<byte>)
    ensures |raw| == LENGTH * |blocks|
  {
    if blocks == [] then [] else Join(blocks[..|blocks| - 1]) + blocks[|blocks| - 1]
  }

  lemma {:induction false} JoinAt(blocks: seq<Block>, i: nat)
    requires i < |blocks|
    ensures BlockAt(Join(blocks), i) == blocks[i]
  {
    var n := |blocks| - 1;
    if i < n {
      JoinAt(blocks[..n], i);
      assert BlockAt(Join(blocks), i) == BlockAt(Join(blocks[..n]), i);
    }
  }

  predicate ZeroAnswer(ch: Channel) {
    ch(0, 0).Some? && !BlockValid(ch(0, 0).value, 0) && IsZero(Fixed(ch(0, 0).value, 0))
  }

  /** The base block, unless the first answer is nothing but zeros. */
  function Base(ch: Channel): (r: Fetch)
    ensures r.Good? ==> BlockValid(r.data, 0) && Fixed(r.data, 0) == r.data && Sum(r.data) % 256 == 0
  {
    if ZeroAnswer(ch) then Bad else Fetched(ch, 0, 0)
  }

  /** Every transfer that was needed for the first n extensions succeeded. */
  predicate Answered(ch: Channel, n: nat) {
    forall j: nat :: 0 < j <= n ==> !Fetched(ch, j, 0).Lost?
  }

  /** What reading the EDID yields. */
  function Result(ch: Channel): Option<seq<byte>> {
    match Base(ch)
    case Good(base) =>
      var n := base[EXTENSIONS];
      if Answered(ch, n) then Some(Announcing(base, |Kept(ch, n)|) + Join(Kept(ch, n))) else None
    case _ => None
  }

  lemma {:induction false} KeptAreValid(ch: Channel, n: nat, i: nat)
    requires i < |Kept(ch, n)|
    ensures forall at: nat :: at > 0 ==> BlockValid(Kept(ch, n)[i], at)
  {
    if i < |Kept(ch, n - 1)| {
      KeptAreValid(ch, n - 1, i);
    } else {
      forall at: nat | at > 0
        ensures BlockValid(Kept(ch, n)[i], at)
      {
        ExtensionMoves(Kept(ch, n)[i], n, at);
      }
    }
  }

  lemma BlockBehind(base: seq<byte>, rest: seq<byte>, i: nat)
    requires |base| == LENGTH && LENGTH * (i + 1) <= |rest|
    ensures BlockAt(base + rest, i + 1) == BlockAt(rest, i)
  {
    var from := LENGTH * i;
    assert (base + rest)[LENGTH + from..LENGTH + from + LENGTH] == rest[from..from + LENGTH];
  }

  lemma BlocksOfResult(base: seq<byte>, kept: seq<Block>, i: nat)
    requires |base| == LENGTH && i <= |kept|
    ensures BlockAt(base + Join(kept), i) == if i == 0 then base else kept[i - 1]
  {
    if i > 0 {
      JoinAt(kept, i - 1);
      hide Join, BlockAt;
      BlockBehind(base, Join(kept), i - 1);
    }
  }

  /** Whatever the display answers, an EDID that is returned is valid, its base block sums to zero, and after it
      come exactly the extensions that validated. */
  lemma ReturnedEdidIsValid(ch: Channel)
    requires Result(ch).Some?
    ensures var e := Result(ch).value; var n := Base(ch).data[EXTENSIONS];
            |e| >= LENGTH && e[EXTENSIONS] == |Kept(ch, n)| && |e| == LENGTH + LENGTH * e[EXTENSIONS] &&
            EdidValid(e) && Sum(e[..LENGTH]) % 256 == 0 &&
            forall i: nat {:trigger BlockAt(e, i + 1)} :: i < |Kept(ch, n)| ==> BlockAt(e, i + 1) == Kept(ch, n)[i]
  {
    var e, base := Result(ch).value, Base(ch).data;
    var n := base[EXTENSIONS];
    var kept := Kept(ch, n);
    var front := Announcing(base, |kept|);
    PatchKeepsBase(base, |kept|);
    assert e == front + Join(kept) && e[..LENGTH] == front && e[EXTENSIONS] == |kept|;
    hide Kept, Result, Base, Join, BlockAt, BlockValid, Announcing, Sum;
    forall i: nat | i <= |kept|
      ensures BlockAt(e, i) == if i == 0 then front else kept[i - 1]
      ensures BlockValid(BlockAt(e, i), i)
    {
      BlocksOfResult(front, kept, i);
      if i > 0 {
        KeptAreValid(ch, n, i - 1);
      }
    }
  }

  class EdidConnector {
    var badEdidCounter: nat
    var nullEdidCounter: nat
  }

  /** drm_do_probe_ddc_edid: one read of a block; a failed one leaves anything in the buffer. */
  method Probe(ch: Channel, j: nat, i: nat, buf: array<byte>, off: nat) returns (ok: bool)
    requires off + LENGTH <= buf.Length
    modifies buf
    ensures ok == ch(j, i).Some?
    ensures ok ==> buf[..] == old(buf[..off]) + ch(j, i).value + old(buf[off + LENGTH..])
    ensures buf[..off] == old(buf[..off])
  {
    var answer := ch(j, i);
    ok := answer.Some?;
    for k := 0 to LENGTH
      invariant forall m :: 0 <= m < buf.Length && !(off <= m < off + k) ==> buf[m] == old(buf[m])
      invariant ok ==> forall m :: 0 <= m < k ==> buf[off + m] == answer.value[m]
    {
      if answer.Some? {
        buf[off + k] := answer.value[k];
      } else {
        buf[off + k] := *;
      }
    }
  }

  /** One read and check of block j: what the body of both retry loops does. */
  method TryBlock(ch: Channel, j: nat, i: nat, buf: array<byte>, off: nat) returns (answered: bool, valid: bool)
    requires off + LENGTH <= buf.Length && i < READS
    modifies buf
    ensures answered == ch(j, i).Some?
    ensures valid == (answered && BlockValid(ch(j, i).value, j))
    ensures answered ==> buf[off..off + LENGTH] == Fixed(ch(j, i).value, j)
    ensures buf[..off] == old(buf[..off])
  {
    valid := false;
    answered := Probe(ch, j, i, buf, off);
    if answered {
      assert buf[off..off + LENGTH] == ch(j, i).value;
      label L:
      valid := CheckBlock(buf, off, j);
      assert buf[..off] == old@L(buf[..off]);
    }
  }

  /** The loop that fetches the base block. */
  method ReadBase(c: EdidConnector, ch: Channel, buf: array<byte>) returns (r: Fetch)
    requires LENGTH <= buf.Length
    modifies buf, c
    ensures r == Base(ch)
    ensures r.Good? ==> r.data <= buf[..]
    ensures c.nullEdidCounter == old(c.nullEdidCounter) + if ZeroAnswer(ch) then 1 else 0
    ensures c.badEdidCounter == old(c.badEdidCounter)
  {
    hide Fetched, BlockValid, Fixed;
    var i := 0;
    while i < READS
      invariant 0 <= i <= READS
      invariant Fetched(ch, 0, 0) == Fetched(ch, 0, i)
      invariant c.nullEdidCounter == old(c.nullEdidCounter) && c.badEdidCounter == old(c.badEdidCounter)
      invariant i > 0 ==> !ZeroAnswer(ch)
    {
      FetchedNext(ch, 0, i);
      var answered, valid := TryBlock(ch, 0, i, buf, 0);
      if !answered {
        return Lost;
      }
      if valid {
        return Good(buf[..LENGTH]);
      }
      if i == 0 {
        var zero := AllZero(buf);
        if zero {
          c.nullEdidCounter := c.nullEdidCounter + 1;
          return Bad;
        }
      }
      i := i + 1;
    }
    FetchedNever(ch, 0);
    r := Bad;
  }

  /** drm_edid_is_zero */
  method AllZero(buf: array<byte>) returns (zero: bool)
    requires LENGTH <= buf.Length
    ensures zero == IsZero(buf[..LENGTH])
  {
    for i := 0 to LENGTH
      invariant forall k :: 0 <= k < i ==> buf[k] == 0
    {
      if buf[i] != 0 {
        assert buf[..LENGTH][i] != 0;
        return false;
      }
    }
    zero := true;
  }

  /** The loop that fetches extension j into the slot at `off`. */
  method ReadExtension(ch: Channel, j: nat, buf: array<byte>, off: nat, ghost front: seq<byte>) returns (r: Fetch)
    requires off + LENGTH <= buf.Length && j > 0
    requires |front| == off && front <= buf[..]
    modifies buf
    ensures r == Fetched(ch, j, 0)
    ensures front <= buf[..]
    ensures r.Good? ==> front + r.data <= buf[..]
  {
    hide Fetched, BlockValid, Fixed;
    var i := 0;
    while i < READS
      invariant 0 <= i <= READS
      invariant Fetched(ch, j, 0) == Fetched(ch, j, i)
      invariant buf[..off] == front
    {
      FetchedNext(ch, j, i);
      var answered, valid := TryBlock(ch, j, i, buf, off);
      if !answered {
        return Lost;
      }
      if valid {
        PrefixWith(buf[..], front, off);
        return Good(buf[off..off + LENGTH]);
      }
      i := i + 1;
    }
    FetchedNever(ch, j);
    r := Bad;
  }

  lemma FetchedNext(ch: Channel, j: nat, i: nat)
    requires i < READS
    ensures ch(j, i).None? ==> Fetched(ch, j, i) == Lost
    ensures ch(j, i).Some? && BlockValid(ch(j, i).value, j) ==> Fetched(ch, j, i) == Good(Fixed(ch(j, i).value, j))
    ensures ch(j, i).Some? && !BlockValid(ch(j, i).value, j) ==> Fetched(ch, j, i) == Fetched(ch, j, i + 1)
  {
  }

  lemma FetchedNever(ch: Channel, j: nat)
    ensures Fetched(ch, j, READS) == Bad
  {
  }

  lemma PrefixWith(raw: seq<byte>, front: seq<byte>, off: nat)
    requires off + LENGTH <= |raw| && raw[..off] == front
    ensures front + raw[off..off + LENGTH] <= raw
  {
  }

  /** The base block and the extensions kept so far. */
  function SoFar(ch: Channel, base: Block, n: nat): (raw: seq<byte>)
    ensures |raw| == LENGTH + LENGTH * |Kept(ch, n)| && raw[..LENGTH] == base
  {
    base + Join(Kept(ch, n))
  }

  lemma KeptStep(ch: Channel, j: nat, base: Block)
    requires j > 0 && !Fetched(ch, j, 0).Lost? && Answered(ch, j - 1)
    ensures Answered(ch, j)
    ensures Fetched(ch, j, 0).Bad? ==> Kept(ch, j) == Kept(ch, j - 1) && SoFar(ch, base, j) == SoFar(ch, base, j - 1)
    ensures Fetched(ch, j, 0).Good? ==> |Kept(ch, j)| == |Kept(ch, j - 1)| + 1
    ensures Fetched(ch, j, 0).Good? ==> SoFar(ch, base, j) == SoFar(ch, base, j - 1) + Fetched(ch, j, 0).data
  {
    var a, b := Kept(ch, j - 1), Kept(ch, j);
    if Fetched(ch, j, 0).Good? {
      assert b[..|b| - 1] == a;
    }
  }

  lemma LostIsFinal(ch: Channel, j: nat, n: nat)
    requires 0 < j <= n && Fetched(ch, j, 0).Lost?
    ensures !Answered(ch, n)
  {
  }

  // ----- what it comes to, byte by byte -----

  /** How many of the first eight bytes are not those of an EDID: 00 ff ff ff ff ff ff 00. */
  function WrongBytes(b: seq<byte>): nat
    requires |b| >= 8
  {
    (if b[0] == 0x00 then 0 else 1) + (if b[1] == 0xff then 0 else 1) + (if b[2] == 0xff then 0 else 1) +
    (if b[3] == 0xff then 0 else 1) + (if b[4] == 0xff then 0 else 1) + (if b[5] == 0xff then 0 else 1) +
    (if b[6] == 0xff then 0 else 1) + (if b[7] == 0x00 then 0 else 1)
  }

  /** The block with these bytes in front. */
  function Mended(b: seq<byte>): (r: seq<byte>)
    requires |b| == 128
    ensures |r| == 128 && WrongBytes(r) == 0
  {
    b[0 := 0x00][1 := 0xff][2 := 0xff][3 := 0xff][4 := 0xff][5 := 0xff][6 := 0xff][7 := 0x00]
  }

  lemma ScoreNext(b: seq<byte>, k: nat, right: byte)
    requires k < 8 && |b| == 128 && right == HEADER[k]
    ensures Score(b, 0) == 0 && Score(b, k + 1) == Score(b, k) + if b[k] == right then 1 else 0
  {
  }

  lemma ScoreCounts(b: seq<byte>)
    requires |b| == 128
    ensures Score(b, 8) == 8 - WrongBytes(b)
  {
    hide Score;
    ScoreNext(b, 0, 0x00);
    ScoreNext(b, 1, 0xff);
    ScoreNext(b, 2, 0xff);
    ScoreNext(b, 3, 0xff);
    ScoreNext(b, 4, 0xff);
    ScoreNext(b, 5, 0xff);
    ScoreNext(b, 6, 0xff);
    ScoreNext(b, 7, 0x00);
  }

  lemma MendedIs(b: seq<byte>)
    requires |b| == 128
    ensures HEADER + b[8..] == Mended(b)
  {
  }

  /** A base block is accepted exactly if at most two header bytes are wrong, the sum of all bytes is zero modulo 256
      once they are mended, and the major version is 1.  What is accepted has its header mended; nothing else
      changes. */
  lemma BaseAcceptedIff(b: seq<byte>)
    requires |b| == 128
    ensures BlockValid(b, 0) <==> WrongBytes(b) <= 2 && Sum(Mended(b)) % 256 == 0 && b[18] == 1
    ensures Fixed(b, 0) == if WrongBytes(b) <= 2 then Mended(b) else b
  {
    hide Score, Sum, WrongBytes;
    ScoreCounts(b);
    MendedIs(b);
  }

  /** A base block with the right header, sum and version is accepted as it is. */
  lemma GoodBaseIsKept(b: seq<byte>)
    requires |b| == 128 && b[0] == 0 && (forall k :: 1 <= k <= 6 ==> b[k] == 0xff) && b[7] == 0
    requires Sum(b) % 256 == 0 && b[18] == 1
    ensures BlockValid(b, 0) && Fixed(b, 0) == b
  {
    BaseAcceptedIff(b);
    assert Mended(b) == b;
  }

  /** An extension is accepted exactly if its sum is zero or it is a CEA extension, and if it looks like a base block,
      of major version 1.  It is never changed. */
  lemma ExtensionAcceptedIff(b: seq<byte>, block: nat)
    requires |b| == 128 && block > 0
    ensures BlockValid(b, block) <==> (Sum(b) % 256 == 0 || b[0] == 2) && (b[0] == 0 ==> b[18] == 1)
    ensures Fixed(b, block) == b
  {
  }

  /** A sum counts each byte once. */
  lemma SumCountsEachByte(b: seq<byte>, i: nat, v: byte)
    requires i < |b|
    ensures Sum(b[i := v]) - Sum(b) == v - b[i]
    ensures IsZero(b) ==> Sum(b) == 0
  {
    SumOfUpdate(b, i, v);
    if IsZero(b) {
      ZeroSum(b);
    }
  }

  /** The fourth answer still counts... */
  lemma FourthAnswerCounts(ch: Channel, j: nat)
    requires forall k: nat :: k < 3 ==> BadAnswer(ch, j, k)
    requires ch(j, 3).Some? && BlockValid(ch(j, 3).value, j)
    ensures Fetched(ch, j, 0) == Good(Fixed(ch(j, 3).value, j))
  {
    hide BlockValid, Fixed;
    assert FirstValid(ch, j, 0, 3, Fixed(ch(j, 3).value, j));
    GoodWithinFourReads(ch, j, 0, Fixed(ch(j, 3).value, j));
  }

  /** ...but no fifth is asked for. */
  lemma {:induction false} FourBadAnswersEnd(ch: Channel, j: nat)
    requires forall k: nat :: k < 4 ==> BadAnswer(ch, j, k)
    ensures Fetched(ch, j, 0).Bad?
  {
    hide BlockValid, Fixed;
    assert BadAnswer(ch, j, 0) && BadAnswer(ch, j, 1) && BadAnswer(ch, j, 2) && BadAnswer(ch, j, 3);
    assert Fetched(ch, j, 3) == Fetched(ch, j, 4) && Fetched(ch, j, 2) == Fetched(ch, j, 3);
    assert Fetched(ch, j, 1) == Fetched(ch, j, 2);
  }

  /** The bytes begin 00 ff ff ff ff ff ff 00, are of major version 1, and byte 126 is the number of blocks of 128 bytes
      that follow the first. */
  predicate EdidBytes(e: seq<byte>) {
    && |e| >= 128
    && e[0] == 0 && e[1] == e[2] == e[3] == e[4] == e[5] == e[6] == 0xff && e[7] == 0
    && e[18] == 1
    && var n: nat := e[126]; |e| == 128 + 128 * n
  }

  /** Every EDID that is returned is of that form. */
  lemma ReturnedBytes(ch: Channel, e: seq<byte>)
    requires Result(ch) == Some(e)
    ensures EdidBytes(e)
  {
    hide BlockValid, Fixed, Kept, Join, Sum, Base, Announcing;
    var base := Base(ch).data;
    var kept := Kept(ch, base[EXTENSIONS]);
    FrontIsEdid(base, |kept|, Announcing(base, |kept|));
    WithBlocks(Announcing(base, |kept|), Join(kept), |kept|, e);
  }

  lemma FrontIsEdid(base: Block, kept: nat, front: seq<byte>)
    requires kept <= base[EXTENSIONS] && front == Announcing(base, kept)
    requires Fixed(base, 0) == base && BlockValid(base, 0)
    ensures |front| == 128 && front[126] == kept
    ensures front[0] == 0 && (forall k :: 1 <= k <= 6 ==> front[k] == 0xff) && front[7] == 0 && front[18] == 1
  {
    hide BlockValid, Fixed, Sum;
    PatchKeepsBase(base, kept);
    WrongIsZero(front);
  }

  lemma WithBlocks(front: seq<byte>, rest: seq<byte>, n: nat, e: seq<byte>)
    requires |front| == 128 && front[126] == n && |rest| == 128 * n && e == front + rest
    requires front[0] == 0 && (forall k :: 1 <= k <= 6 ==> front[k] == 0xff) && front[7] == 0 && front[18] == 1
    ensures EdidBytes(e)
  {
    assert forall k :: 0 <= k < 128 ==> e[k] == front[k];
  }

  /** The extension count and the checksum together. */
  function CountAndChecksum(b: seq<byte>): int
    requires |b| >= 128
  {
    var count: int, checksum: int := b[126], b[127];
    (count + checksum) % 256
  }

  /** The first block that is returned is the display's, but for the count in byte 126 and the checksum in byte 127,
      whose sum is kept. */
  lemma ReturnedFirstBlock(ch: Channel, e: seq<byte>, base: Block)
    requires Result(ch) == Some(e) && Base(ch) == Good(base)
    ensures |e| >= 128 && e[..126] == base[..126] && CountAndChecksum(e) == CountAndChecksum(base)
  {
    hide BlockValid, Fixed, Kept, Join, Sum, Base;
    var first := Announcing(base, |Kept(ch, base[EXTENSIONS])|);
    assert e == first + Join(Kept(ch, base[EXTENSIONS]));
    assert forall k :: 0 <= k < LENGTH ==> e[k] == first[k];
  }

  lemma WrongIsZero(b: seq<byte>)
    requires |b| == 128 && Fixed(b, 0) == b && BlockValid(b, 0)
    ensures b[0] == 0 && (forall k :: 1 <= k <= 6 ==> b[k] == 0xff) && b[7] == 0 && b[18] == 1
  {
    BaseAcceptedIff(b);
    assert WrongBytes(Mended(b)) == 0;
  }

  // ----- room in the buffer -----

  /** Where in the buffer the loop starts to read each extension block that it gets to, from block j on, with `valid`
      blocks kept before. */
  function ReadsAt(ch: Channel, j: nat, valid: nat, n: nat): (offsets: seq<nat>)
    decreases n + 1 - j
  {
    if j > n then [] else
    [LENGTH * (valid + 1)] +
    match Fetched(ch, j, 0)
    case Lost => []
    case Bad => ReadsAt(ch, j + 1, valid, n)
    case Good(_) => ReadsAt(ch, j + 1, valid + 1, n)
  }

  /** Every read starts where the buffer still has room for a block. */
  predicate AllInside(offsets: seq<nat>) {
    forall k :: 0 <= k < |offsets| ==> offsets[k] + LENGTH <= LENGTH * (MAX_EXTENSIONS + 1)
  }

  /** As long as there is another block to read, fewer extensions were kept than the buffer has room for. */
  predicate RoomFrom(ch: Channel, from: nat, n: nat) {
    forall j: nat :: from <= j < n && Answered(ch, j) ==> |Kept(ch, j)| < MAX_EXTENSIONS
  }

  predicate RoomFor(ch: Channel, n: nat) {
    RoomFrom(ch, 0, n)
  }

  lemma RoomNext(ch: Channel, j: nat, n: nat)
    requires 0 < j <= n && Answered(ch, j - 1)
    ensures RoomFrom(ch, j - 1, n) <==>
            |Kept(ch, j - 1)| < MAX_EXTENSIONS && (Fetched(ch, j, 0).Lost? || RoomFrom(ch, j, n))
  {
    hide Kept, Fetched;
    if Fetched(ch, j, 0).Lost? {
      assert forall i: nat :: j <= i ==> !Answered(ch, i);
    }
  }

  lemma ReadsNext(ch: Channel, j: nat, valid: nat, n: nat)
    requires j <= n
    ensures ReadsAt(ch, j, valid, n) == [LENGTH * (valid + 1)] +
            if Fetched(ch, j, 0).Lost? then [] else
            ReadsAt(ch, j + 1, if Fetched(ch, j, 0).Good? then valid + 1 else valid, n)
  {
    hide Fetched;
  }

  lemma {:induction false} ReadsFromInsideIff(ch: Channel, j: nat, n: nat)
    requires j > 0 && Answered(ch, j - 1)
    ensures AllInside(ReadsAt(ch, j, |Kept(ch, j - 1)|, n)) <==> RoomFrom(ch, j - 1, n)
    decreases n + 1 - j
  {
    hide Fetched, Answered, Kept, RoomFrom, AllInside, ReadsAt;
    if j <= n {
      var valid := |Kept(ch, j - 1)|;
      RoomNext(ch, j, n);
      ReadsNext(ch, j, valid, n);
      if Fetched(ch, j, 0).Lost? {
        FirstInside(LENGTH * (valid + 1), []);
        NothingInside();
      } else {
        KeptOne(ch, j);
        ReadsFromInsideIff(ch, j + 1, n);
        FirstInside(LENGTH * (valid + 1), ReadsAt(ch, j + 1, |Kept(ch, j)|, n));
      }
    } else {
      NothingInside();
      NoMoreReads(ch, j, |Kept(ch, j - 1)|, n);
      NoneLeft(ch, j - 1, n);
    }
  }

  lemma NothingInside()
    ensures AllInside([])
  {
  }

  lemma NoneLeft(ch: Channel, from: nat, n: nat)
    requires from >= n
    ensures RoomFrom(ch, from, n)
  {
  }

  lemma FirstInside(offset: nat, rest: seq<nat>)
    ensures AllInside([offset] + rest) <==> offset + LENGTH <= LENGTH * (MAX_EXTENSIONS + 1) && AllInside(rest)
  {
    assert ([offset] + rest)[0] == offset;
    assert forall k :: 0 <= k < |rest| ==> ([offset] + rest)[k + 1] == rest[k];
  }

  lemma KeptOne(ch: Channel, j: nat)
    requires j > 0 && !Fetched(ch, j, 0).Lost? && Answered(ch, j - 1)
    ensures Answered(ch, j) && |Kept(ch, j)| == |Kept(ch, j - 1)| + if Fetched(ch, j, 0).Good? then 1 else 0
  {
  }

  /** The reads stay inside the buffer exactly when it has room in that sense. */
  lemma ReadsStayInsideIff(ch: Channel, n: nat)
    ensures AllInside(ReadsAt(ch, 1, 0, n)) <==> RoomFor(ch, n)
  {
    assert |Kept(ch, 0)| == 0;
    ReadsFromInsideIff(ch, 1, n);
  }

  /** There is room for everything that announces at most four extensions... */
  lemma FourAlwaysFit(ch: Channel, n: nat)
    requires n <= 4
    ensures RoomFor(ch, n)
  {
  }

  lemma {:induction false} KeptGrows(ch: Channel, i: nat, j: nat)
    requires i <= j
    ensures |Kept(ch, i)| <= |Kept(ch, j)|
  {
    if i < j {
      hide Fetched;
      KeptGrows(ch, i, j - 1);
    }
  }

  /** ...and for everything else exactly if at most three of the blocks before the last validate, provided the
      transfers succeed. */
  lemma FewValidFit(ch: Channel, n: nat)
    requires n > 0
    ensures |Kept(ch, n - 1)| < MAX_EXTENSIONS ==> RoomFor(ch, n)
    ensures Answered(ch, n - 1) && RoomFor(ch, n) ==> |Kept(ch, n - 1)| < MAX_EXTENSIONS
  {
    hide Kept, Answered;
    forall j: nat | j < n
      ensures |Kept(ch, j)| <= |Kept(ch, n - 1)|
    {
      KeptGrows(ch, j, n - 1);
    }
  }

  lemma {:induction false} AllKept(ch: Channel, n: nat)
    requires forall j: nat :: 0 < j <= n ==> Fetched(ch, j, 0).Good?
    ensures |Kept(ch, n)| == n
  {
    if n > 0 {
      AllKept(ch, n - 1);
    }
  }

  /** A display that announces five extensions or more and has the first five ready at once: the fifth has no room. */
  lemma FifthHasNoRoom(ch: Channel, n: nat)
    requires n > MAX_EXTENSIONS
    requires forall j: nat :: 0 < j <= MAX_EXTENSIONS ==> ch(j, 0).Some? && BlockValid(ch(j, 0).value, j)
    ensures !RoomFor(ch, n) && !AllInside(ReadsAt(ch, 1, 0, n))
  {
    hide BlockValid, Fixed, Kept;
    forall j: nat | 0 < j <= MAX_EXTENSIONS
      ensures Fetched(ch, j, 0).Good?
    {
      FetchedNext(ch, j, 0);
    }
    AllKept(ch, MAX_EXTENSIONS);
    ReadsStayInsideIff(ch, n);
  }

  function ZeroBytes(n: nat): (b: seq<byte>)
    ensures |b| == n && forall k :: 0 <= k < n ==> b[k] == 0
  {
    seq(n, _ => 0)
  }

  lemma {:induction false} ZeroSum(b: seq<byte>)
    requires IsZero(b)
    ensures Sum(b) == 0
  {
    if b != [] {
      ZeroSum(b[..|b| - 1]);
    }
  }

  lemma {:induction false} SumOfConcat(a: seq<byte>, b: seq<byte>)
    ensures Sum(a + b) == Sum(a) + Sum(b)
  {
    if b == [] {
      assert a + b == a;
    } else {
      var s, front := a + b, b[..|b| - 1];
      SumOfConcat(a, front);
      assert s[..|s| - 1] == a + front;
    }
  }

  lemma HeaderSum()
    ensures Sum(HEADER) == 1530
  {
    var h := HEADER;
    assert h == [h[0], h[1], h[2], h[3]] + [h[4], h[5], h[6], h[7]];
    SumOfConcat([h[0], h[1], h[2], h[3]], [h[4], h[5], h[6], h[7]]);
    SumOfFour(h[0], h[1], h[2], h[3]);
    SumOfFour(h[4], h[5], h[6], h[7]);
  }

  lemma SumOfTwo(a: byte, b: byte)
    ensures Sum([a, b]) == (a as int) + b
  {
    assert [a, b][..1] == [a] && [a][..0] == [];
    assert Sum([a]) == a;
  }

  lemma SumOfFour(a: byte, b: byte, c: byte, d: byte)
    ensures Sum([a, b, c, d]) == (a as int) + b + c + d
  {
    SumOfConcat([a, b], [c, d]);
    assert [a, b, c, d] == [a, b] + [c, d];
    SumOfTwo(a, b);
    SumOfTwo(c, d);
  }

  /** A base block of version 1 that announces five extensions; its bytes sum to zero. */
  function FiveAnnounced(): (b: Block) {
    HEADER + ZeroBytes(120)[VERSION - 8 := 1][EXTENSIONS - 8 := 5]
  }

  lemma FiveAnnouncedIsValid()
    ensures BlockValid(FiveAnnounced(), 0) && Fixed(FiveAnnounced(), 0) == FiveAnnounced() &&
      FiveAnnounced()[EXTENSIONS] == 5
  {
    var z := ZeroBytes(120);
    var tail := z[VERSION - 8 := 1][EXTENSIONS - 8 := 5];
    ZeroSum(z);
    SumOfUpdate(z, VERSION - 8, 1);
    SumOfUpdate(z[VERSION - 8 := 1], EXTENSIONS - 8, 5);
    HeaderSum();
    SumOfConcat(HEADER, tail);
    var b := FiveAnnounced();
    assert b[..8] == HEADER && b[8..] == tail;
    PerfectHeader(b);
    hide Sum, Score;
    assert Fixed(b, 0) == HEADER + b[8..];
  }

  /** Such a display: its extensions are marked as CEA blocks, which are accepted with any checksum. */
  lemma FiveExtensionsOverrun() returns (ch: Channel)
    ensures Base(ch).Good? && Base(ch).data[EXTENSIONS] == 5 && !AllInside(ReadsAt(ch, 1, 0, 5))
  {
    hide Sum, Score, Kept, Answered, ReadsAt, FiveAnnounced;
    var ext: Block := ZeroBytes(LENGTH)[0 := 0x02];
    ch := (j, i) => Some(if j == 0 then FiveAnnounced() else ext);
    FiveAnnouncedIsValid();
    FetchedNext(ch, 0, 0);
    FifthHasNoRoom(ch, 5);
  }

  /** After n extension blocks, `valid` of them were kept and `raw` starts with them. */
  predicate Loaded(ch: Channel, base: Block, n: nat, valid: nat, raw: seq<byte>) {
    Answered(ch, n) && valid == |Kept(ch, n)| && SoFar(ch, base, n) <= raw
  }

  /** One round of the loop over the extension blocks: a good block is kept behind those before it. */
  method KeepExtension(ch: Channel, j: nat, buf: array<byte>, kept: nat, ghost base: Block)
    returns (lost: bool, valid: nat)
    requires buf.Length == LENGTH * (MAX_EXTENSIONS + 1) && kept < MAX_EXTENSIONS
    requires j > 0 && Loaded(ch, base, j - 1, kept, buf[..])
    modifies buf
    ensures lost == Fetched(ch, j, 0).Lost?
    ensures !lost ==> Loaded(ch, base, j, valid, buf[..])
    ensures !lost ==> valid == if Fetched(ch, j, 0).Good? then kept + 1 else kept
  {
    valid := kept;
    ghost var soFar := SoFar(ch, base, j - 1);
    hide Kept, SoFar, Join, Fetched, Answered;
    var ext := ReadExtension(ch, j, buf, LENGTH * (valid + 1), soFar);
    lost := ext.Lost?;
    if !lost {
      KeptStep(ch, j, base);
      if ext.Good? {
        valid := valid + 1;
      }
    }
  }

  lemma LoadedStarts(ch: Channel, base: Block, raw: seq<byte>)
    requires base <= raw
    ensures Loaded(ch, base, 0, 0, raw)
  {
    assert SoFar(ch, base, 0) == base;
  }

  lemma LoadedCounts(ch: Channel, base: Block, n: nat, valid: nat, raw: seq<byte>)
    requires Loaded(ch, base, n, valid, raw)
    ensures |raw| >= LENGTH && raw[EXTENSIONS] == base[EXTENSIONS] && base <= raw
  {
    assert raw[..LENGTH] == SoFar(ch, base, n)[..LENGTH];
  }

  /** How the loop over the extension blocks ends: all blocks were read, a transfer failed, or it came to a read outside
      the buffer.  In C that read goes ahead. */
  datatype LoopEnd = AllRead | TransferFailed | OutsideBuffer

  /** The reads that were started, of those the loop is about to make: all of them, or those up to the first outside the
      buffer. */
  predicate Started(starts: seq<nat>, planned: seq<nat>, outside: bool) {
    if outside then
      starts != [] && starts <= planned && AllInside(starts[..|starts| - 1]) &&
      starts[|starts| - 1] + LENGTH > LENGTH * (MAX_EXTENSIONS + 1)
    else starts == planned && AllInside(planned)
  }

  /** The loop over the extension blocks. */
  method ReadExtensions(ch: Channel, buf: array<byte>, ghost base: Block)
    returns (end: LoopEnd, valid: nat, ghost starts: seq<nat>)
    requires buf.Length == LENGTH * (MAX_EXTENSIONS + 1) && base <= buf[..]
    modifies buf
    ensures end == OutsideBuffer <==> !RoomFor(ch, base[EXTENSIONS])
    ensures Started(starts, ReadsAt(ch, 1, 0, base[EXTENSIONS]), end == OutsideBuffer)
    ensures end != OutsideBuffer ==> (end == AllRead <==> Answered(ch, base[EXTENSIONS]))
    ensures end == AllRead ==> Loaded(ch, base, base[EXTENSIONS], valid, buf[..])
  {
    hide Kept, SoFar, Join, Fetched, Answered, ReadsAt, RoomFor, Started, AllInside;
    ghost var n: nat := base[EXTENSIONS];
    LoadedStarts(ch, base, buf[..]);
    FourAlwaysFit(ch, 0);
    NothingInside();
    valid, starts := 0, [];
    var j := 1;
    while j <= buf[EXTENSIONS]
      invariant 1 <= j <= n + 1 && buf[EXTENSIONS] == n
      invariant Loaded(ch, base, j - 1, valid, buf[..])
      invariant RoomFor(ch, j - 1) && AllInside(starts)
      invariant starts + ReadsAt(ch, j, valid, n) == ReadsAt(ch, 1, 0, n)
      decreases n + 1 - j
    {
      hide Loaded;
      RoomMore(ch, base, j - 1, valid, buf[..], n);
      ReadsNext(ch, j, valid, n);
      OneStarted(starts, LENGTH * (valid + 1), ReadsAt(ch, 1, 0, n), ReadsAt(ch, j, valid, n)[1..]);
      starts := starts + [LENGTH * (valid + 1)];
      if valid >= MAX_EXTENSIONS {
        return OutsideBuffer, valid, starts;
      }
      var lost;
      lost, valid := KeepExtension(ch, j, buf, valid, base);
      if lost {
        LostIsFinal(ch, j, n);
        LostHasRoom(ch, j, n);
        return TransferFailed, valid, starts;
      }
      LoadedCounts(ch, base, j, valid, buf[..]);
      j := j + 1;
    }
    NoMoreReads(ch, j, valid, n);
    AllStarted(starts, ReadsAt(ch, 1, 0, n));
    end := AllRead;
  }

  lemma RoomMore(ch: Channel, base: Block, j: nat, valid: nat, raw: seq<byte>, n: nat)
    requires Loaded(ch, base, j, valid, raw) && RoomFor(ch, j) && j < n
    ensures valid < MAX_EXTENSIONS ==> RoomFor(ch, j + 1)
    ensures valid >= MAX_EXTENSIONS ==> !RoomFor(ch, n)
  {
    hide Kept, SoFar;
  }

  lemma LostHasRoom(ch: Channel, j: nat, n: nat)
    requires 0 < j <= n && RoomFor(ch, j) && Fetched(ch, j, 0).Lost?
    ensures RoomFor(ch, n)
  {
    hide Fetched, Kept;
    forall i: nat | j <= i
      ensures !Answered(ch, i)
    {
      LostIsFinal(ch, j, i);
    }
  }

  lemma OneStarted(starts: seq<nat>, offset: nat, planned: seq<nat>, rest: seq<nat>)
    requires AllInside(starts) && starts + ([offset] + rest) == planned
    ensures var inside := offset + LENGTH <= LENGTH * (MAX_EXTENSIONS + 1);
      if inside then AllInside(starts + [offset]) && (rest == [] ==> Started(starts + [offset], planned, false))
      else Started(starts + [offset], planned, true)
  {
    var now := starts + [offset];
    assert now[..|now| - 1] == starts;
    assert planned == now + rest;
  }

  lemma AllStarted(starts: seq<nat>, planned: seq<nat>)
    requires AllInside(starts) && starts + [] == planned
    ensures Started(starts, planned, false)
  {
    assert starts == planned;
  }

  lemma NoMoreReads(ch: Channel, j: nat, valid: nat, n: nat)
    requires j > n
    ensures ReadsAt(ch, j, valid, n) == []
  {
  }

  lemma ResultIs(ch: Channel)
    requires Base(ch).Good?
    ensures var base := Base(ch).data; var n := base[EXTENSIONS];
            (Result(ch).None? <==> !Answered(ch, n)) &&
            (Result(ch).Some? ==> Result(ch).value == Announcing(base, |Kept(ch, n)|) + SoFar(ch, base, n)[LENGTH..]) &&
            (n == 0 ==> Result(ch) == Some(Announcing(base, 0)))
  {
    var base := Base(ch).data;
    var front := Announcing(base, |Kept(ch, base[EXTENSIONS])|);
    assert SoFar(ch, base, base[EXTENSIONS])[LENGTH..] == Join(Kept(ch, base[EXTENSIONS]));
    assert front + [] == front;
  }

  lemma AnnouncingIs(base: Block, kept: nat, raw: seq<byte>)
    requires kept <= base[EXTENSIONS] && base <= raw
    ensures Announcing(base, kept) + raw[LENGTH..] ==
            raw[CHECKSUM := (base[CHECKSUM] + (base[EXTENSIONS] - kept)) % 256][EXTENSIONS := kept]
    ensures kept == base[EXTENSIONS] ==> Announcing(base, kept) + raw[LENGTH..] == raw
  {
  }

  /** The patch of the count and the checksum. */
  method Announce(buf: array<byte>, valid: nat, ghost base: Block, ghost raw: seq<byte>)
    requires buf.Length >= LENGTH && valid <= base[EXTENSIONS] && base <= raw <= buf[..]
    modifies buf
    ensures Announcing(base, valid) + raw[LENGTH..] <= buf[..]
  {
    AnnouncingIs(base, valid, raw);
    hide Announcing;
    if valid != buf[EXTENSIONS] {
      buf[CHECKSUM] := (buf[CHECKSUM] + (buf[EXTENSIONS] - valid)) % 256;
      buf[EXTENSIONS] := valid;
    }
  }

  /** What the display makes the loop do: a good base block, and extensions that the buffer has no room for. */
  predicate Overruns(ch: Channel) {
    Base(ch).Good? && !RoomFor(ch, Base(ch).data[EXTENSIONS])
  }

  /** drm_do_get_edid.  `starts` is where the reads of extension blocks start; `outside` says that one of them started
      outside the buffer, and nothing is said of what happens from there on. */
  method GetEdid(c: EdidConnector, ch: Channel, memory: bool)
    returns (block: array?<byte>, outside: bool, ghost starts: seq<nat>)
    modifies c
    ensures outside <==> memory && Overruns(ch)
    ensures !outside ==> (block == null <==> !memory || Result(ch).None?)
    ensures block != null ==> fresh(block) && block.Length == LENGTH * (MAX_EXTENSIONS + 1)
    ensures block != null ==> !outside && Result(ch).Some? && Result(ch).value <= block[..]
    ensures Started(starts, if memory &&
      Base(ch).Good? then ReadsAt(ch, 1, 0, Base(ch).data[EXTENSIONS]) else [], outside)
    ensures c.nullEdidCounter == old(c.nullEdidCounter) + if memory && ZeroAnswer(ch) then 1 else 0
    ensures c.badEdidCounter == old(c.badEdidCounter) + if memory && Base(ch).Bad? then 1 else 0
  {
    hide Kept, SoFar, Join, Fetched, Answered, Base, Result, Announcing, ReadsAt, RoomFrom, RoomFor, Started;
    ResultUnlessGood(ch);
    NothingInside();
    AllStarted([], []);
    outside, starts := false, [];
    if !memory {
      return null, outside, starts;
    }
    var buf := new byte[LENGTH * (MAX_EXTENSIONS + 1)];
    var first := ReadBase(c, ch, buf);
    if first.Lost? {
      return null, outside, starts;
    }
    if first.Bad? {
      c.badEdidCounter := c.badEdidCounter + 1;
      return null, outside, starts;
    }
    ghost var base := first.data;
    ResultIs(ch);
    if buf[EXTENSIONS] == 0 {
      PatchKeepsBase(base, 0);
      NoMoreReads(ch, 1, 0, 0);
      FourAlwaysFit(ch, 0);
      return buf, outside, starts;
    }
    var end, valid;
    end, valid, starts := ReadExtensions(ch, buf, base);
    outside := end == OutsideBuffer;
    if end != AllRead {
      return null, outside, starts;
    }
    LoadedCounts(ch, base, base[EXTENSIONS], valid, buf[..]);
    Announce(buf, valid, base, SoFar(ch, base, base[EXTENSIONS]));
    block := buf;
  }

  lemma ResultUnlessGood(ch: Channel)
    ensures !Base(ch).Good? ==> Result(ch).None?
  {
  }
}
