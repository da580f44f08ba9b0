/** The data block collection of a CEA extension block: the walk over it, the audio descriptors read from it,
    and the ELD built from it for the audio driver. */
module Cea {
  import opened Errno
  import opened KmsObjects
  import opened Bits
  import opened Edid

  const CEA_EXT := 0x02
  const AUDIO_BLOCK := 1
  const VENDOR_BLOCK := 3
  const SPEAKER_BLOCK := 4
  const HDMI_IDENTIFIER := 0x000C03
  const MAX_ELD_BYTES := 128
  const START := 4

  function PayloadLen(b: byte): nat { b % 32 }
  function Tag(b: byte): nat { b / 32 }

  /** cea_db_offsets: where the data blocks end, or None for -ERANGE.  They start at 4. */
  function End(cea: Block): (end: Option<nat>)
    ensures end.Some? ==> START <= end.value <= 127
  {
    var e := if cea[2] == 0 then 127 else cea[2];
    if e < 4 || e > 127 then None else Some(e)
  }

  /** Data blocks end at the offset in byte 2; 0 stands for the whole block up to its checksum, and what lies before the
      first or behind the last byte for them is an error. */
  lemma EndMeans(cea: Block)
    ensures cea[2] == 0 ==> End(cea) == Some(127)
    ensures 4 <= cea[2] <= 127 ==> End(cea) == Some(cea[2])
    ensures 1 <= cea[2] <= 3 || cea[2] >= 128 ==> End(cea) == None
  {
  }

  /** The upper three bits of a header byte are the tag: 1 for audio, 3 for vendor, 4 for speakers. */
  lemma HeaderByteMeans(b: byte)
    ensures Tag(b) == AUDIO_BLOCK <==> 0x20 <= b <= 0x3f
    ensures Tag(b) == VENDOR_BLOCK <==> 0x60 <= b <= 0x7f
    ensures Tag(b) == SPEAKER_BLOCK <==> 0x80 <= b <= 0x9f
    ensures Tag(b) * 32 + PayloadLen(b) == b && PayloadLen(b) <= 31
  {
  }

  // ----- the collection as a list -----

  datatype DataBlock = DataBlock(tag: nat, payload: seq<byte>) {
    predicate Fits() { tag < 8 && |payload| <= 31 }
  }

  function Encoded(db: DataBlock): (bytes: seq<byte>)
    requires db.Fits()
    ensures |bytes| == |db.payload| + 1
  {
    [db.tag * 32 + |db.payload|] + db.payload
  }

  function Serialised(dbs: seq<DataBlock>): (bytes: seq<byte>)
    requires forall db :: db in dbs ==> db.Fits()
  {
    if dbs == [] then [] else Encoded(dbs[0]) + Serialised(dbs[1..])
  }

  /** The loop condition of for_each_cea_db. */
  predicate AtBlock(cea: Block, i: nat, end: nat)
    requires end <= LENGTH
  {
    i < end && i + PayloadLen(cea[i]) < end
  }

  function BlockFrom(cea: Block, i: nat, end: nat): (db: DataBlock)
    requires end <= LENGTH && AtBlock(cea, i, end)
    ensures db.Fits()
  {
    DataBlock(Tag(cea[i]), cea[i + 1..i + 1 + PayloadLen(cea[i])])
  }

  /** The blocks that for_each_cea_db visits from position i on. */
  function Walk(cea: Block, i: nat, end: nat): (dbs: seq<DataBlock>)
    requires end <= LENGTH
    ensures forall db :: db in dbs ==> db.Fits()
    decreases end - i
  {
    if AtBlock(cea, i, end) then [BlockFrom(cea, i, end)] + Walk(cea, i + PayloadLen(cea[i]) + 1, end) else []
  }

  lemma SplitSlice(s: seq<byte>, i: nat, end: nat, a: seq<byte>, b: seq<byte>, c: seq<byte>)
    requires i <= end <= |s| && s[i..end] == a + b + c
    ensures end == i + |a| + |b| + |c|
    ensures s[i + |a|..i + |a| + |b|] == b && s[i + |a| + |b|..end] == c
  {
    var t := s[i..end];
    assert |t| == |a| + |b| + |c|;
    assert forall k :: 0 <= k < |b| ==> s[i + |a| + k] == t[|a| + k] == b[k];
    assert forall k :: 0 <= k < |c| ==> s[i + |a| + |b| + k] == t[|a| + |b| + k] == c[k];
  }

  lemma FirstReadsBack(cea: Block, i: nat, end: nat, db: DataBlock, rest: seq<byte>)
    requires i <= end <= LENGTH && db.Fits()
    requires cea[i..end] == Encoded(db) + rest
    ensures AtBlock(cea, i, end) && BlockFrom(cea, i, end) == db
    ensures PayloadLen(cea[i]) == |db.payload| && cea[i + |db.payload| + 1..end] == rest
  {
    var n := |db.payload|;
    assert |cea[i..end]| == end - i == 1 + n + |rest|;
    assert cea[i] == cea[i..end][0] == db.tag * 32 + n;
    assert cea[i..end] == [cea[i]] + db.payload + rest;
    SplitSlice(cea, i, end, [cea[i]], db.payload, rest);
  }

  /** Any list of blocks that fills the collection is read back as it was written. */
  lemma {:induction false} WalkOfSerialised(cea: Block, i: nat, end: nat, dbs: seq<DataBlock>)
    requires i <= end <= LENGTH
    requires forall db :: db in dbs ==> db.Fits()
    requires cea[i..end] == Serialised(dbs)
    ensures Walk(cea, i, end) == dbs
    decreases |dbs|
  {
    hide Encoded, BlockFrom;
    if dbs != [] {
      FirstReadsBack(cea, i, end, dbs[0], Serialised(dbs[1..]));
      WalkOfSerialised(cea, i + |dbs[0].payload| + 1, end, dbs[1..]);
      assert dbs == [dbs[0]] + dbs[1..];
    }
  }

  lemma SerialisedFirst(db: DataBlock, rest: seq<DataBlock>)
    requires db.Fits() && forall b :: b in rest ==> b.Fits()
    ensures Serialised([db] + rest) == Encoded(db) + Serialised(rest)
  {
    assert ([db] + rest)[1..] == rest;
  }

  /** `bytes` is the part of the collection from i on that a walk consumed. */
  predicate Consumed(cea: Block, i: nat, end: nat, bytes: seq<byte>)
    requires end < LENGTH
  {
    i + |bytes| <= end && cea[i..i + |bytes|] == bytes &&
    (i + |bytes| < end ==> end <= i + |bytes| + PayloadLen(cea[i + |bytes|]))
  }

  lemma ConsumedMore(cea: Block, i: nat, end: nat, bytes: seq<byte>)
    requires end < LENGTH && AtBlock(cea, i, end)
    requires Consumed(cea, i + PayloadLen(cea[i]) + 1, end, bytes)
    ensures Consumed(cea, i, end, Encoded(BlockFrom(cea, i, end)) + bytes)
  {
    var next := i + PayloadLen(cea[i]) + 1;
    assert Encoded(BlockFrom(cea, i, end)) == cea[i..next];
    assert cea[i..next] + cea[next..next + |bytes|] == cea[i..next + |bytes|];
  }

  /** For arbitrary bytes the visited blocks lie one behind the other wholly below `end`: written out again they are
      the beginning of the collection, and what is left over is shorter than the block it would start. */
  lemma {:induction false} WalkStaysInside(cea: Block, i: nat, end: nat)
    requires i <= end < LENGTH
    ensures Consumed(cea, i, end, Serialised(Walk(cea, i, end)))
    decreases end - i
  {
    if AtBlock(cea, i, end) {
      var next := i + PayloadLen(cea[i]) + 1;
      WalkStaysInside(cea, next, end);
      var db, rest := BlockFrom(cea, i, end), Walk(cea, next, end);
      SerialisedFirst(db, rest);
      hide Serialised, Encoded, BlockFrom, Consumed;
      ConsumedMore(cea, i, end, Serialised(rest));
    }
  }

  // ----- short audio descriptors -----

  datatype Sad = Sad(format: nat, channels: nat, freq: nat, byte2: nat)

  function SadOf(s: seq<byte>): Sad
    requires |s| == 3
  {
    Sad((s[0] / 8) % 16, s[0] % 8, s[1] % 128, s[2])
  }

  /** The fields of a descriptor are read as they were packed; the reserved upper bits do not matter. */
  lemma SadReadsBack(sad: Sad, reserved0: nat, reserved1: nat)
    requires sad.format < 16 && sad.channels < 8 && sad.freq < 128 && sad.byte2 < 256
    requires reserved0 < 2 && reserved1 < 2
    ensures SadOf([128 * reserved0 + 8 * sad.format + sad.channels, 128 * reserved1 + sad.freq, sad.byte2]) == sad
  {
  }

  /** The first n descriptors of a payload, three bytes each. */
  function Sads(payload: seq<byte>, n: nat): (sads: seq<Sad>)
    requires 3 * n <= |payload|
    ensures |sads| == n
  {
    if n == 0 then [] else Sads(payload, n - 1) + [SadOf(payload[3 * n - 3..3 * n])]
  }

  function AllSads(payload: seq<byte>): seq<Sad> {
    Sads(payload, |payload| / 3)
  }

  lemma {:induction false} SadsOfPrefix(a: seq<byte>, b: seq<byte>, n: nat)
    requires 3 * n <= |a| && 3 * n <= |b| && forall k :: 0 <= k < 3 * n ==> a[k] == b[k]
    ensures Sads(a, n) == Sads(b, n)
  {
    if n > 0 {
      SadsOfPrefix(a, b, n - 1);
      assert a[3 * n - 3..3 * n] == b[3 * n - 3..3 * n];
    }
  }

  /** The audio blocks of a collection. */
  function Audio(dbs: seq<DataBlock>): seq<DataBlock> {
    if dbs == [] then [] else
    Audio(dbs[..|dbs| - 1]) + if dbs[|dbs| - 1].tag == AUDIO_BLOCK then [dbs[|dbs| - 1]] else []
  }

  lemma {:induction false} AudioOfConcat(a: seq<DataBlock>, b: seq<DataBlock>)
    ensures Audio(a + b) == Audio(a) + Audio(b)
  {
    if b == [] {
      assert a + b == a;
    } else {
      var s, front := a + b, b[..|b| - 1];
      AudioOfConcat(a, front);
      assert s[..|s| - 1] == a + front && s[|s| - 1] == b[|b| - 1];
    }
  }

  lemma WalkStep(cea: Block, start: nat, i: nat, end: nat, visited: seq<DataBlock>)
    requires end <= LENGTH && AtBlock(cea, i, end)
    requires Walk(cea, start, end) == visited + Walk(cea, i, end)
    ensures Walk(cea, start, end) == visited + [BlockFrom(cea, i, end)] + Walk(cea, i + PayloadLen(cea[i]) + 1, end)
  {
  }

  predicate IsCea(edid: seq<byte>, k: nat)
    requires |edid| >= LENGTH * (k + 1)
  {
    BlockAt(edid, k)[0] == 0x02
  }

  /** drm_find_cea_extension: the first extension that is tagged as one. */
  method FindCeaExtension(edid: seq<byte>) returns (cea: Option<Block>)
    requires |edid| >= LENGTH && |edid| >= LENGTH + LENGTH * edid[EXTENSIONS]
    ensures cea.None? ==> forall k :: 1 <= k <= edid[EXTENSIONS] ==> !IsCea(edid, k)
    ensures cea.Some? ==> exists k :: 1 <= k <= edid[EXTENSIONS] && IsCea(edid, k) && cea.value == BlockAt(edid, k) &&
                                      forall l :: 1 <= l < k ==> !IsCea(edid, l)
  {
    var i: nat := 0;
    while i < edid[EXTENSIONS]
      invariant i <= edid[EXTENSIONS]
      invariant forall l :: 1 <= l <= i ==> !IsCea(edid, l)
    {
      var ext := BlockAt(edid, i + 1);
      if ext[0] == CEA_EXT {
        assert IsCea(edid, i + 1);
        return Some(ext);
      }
      i := i + 1;
    }
    cea := None;
  }

  datatype SadResult = Found(sads: seq<Sad>) | Failed(errno: nat)

  /** The data blocks of the extension, if it has a collection. */
  function Blocks(cea: Block): (dbs: seq<DataBlock>)
    ensures forall db :: db in dbs ==> db.Fits()
  {
    if cea[1] >= 3 && End(cea).Some? then Walk(cea, START, End(cea).value) else []
  }

  lemma FirstAudio(visited: seq<DataBlock>, db: DataBlock, rest: seq<DataBlock>)
    requires Audio(visited) == []
    ensures Audio(visited + [db]) == if db.tag == AUDIO_BLOCK then [db] else []
    ensures db.tag == AUDIO_BLOCK ==> Audio(visited + [db] + rest) != [] && Audio(visited + [db] + rest)[0] == db
  {
    AudioOfConcat(visited, [db]);
    AudioOfConcat(visited + [db], rest);
  }

  lemma SliceOfSlice(s: seq<byte>, a: nat, b: nat, c: nat, d: nat)
    requires a <= b <= |s| && c <= d <= b - a
    ensures s[a..b][c..d] == s[a + c..a + d]
  {
    var t := s[a..b];
    assert |t[c..d]| == |s[a + c..a + d]|;
    assert forall k :: 0 <= k < d - c ==> t[c..d][k] == t[c + k] == s[a + (c + k)] == s[a + c..a + d][k];
  }

  lemma SadsStep(payload: seq<byte>, j: nat, sad: seq<byte>)
    requires 3 * (j + 1) <= |payload| && payload[3 * j..3 * j + 3] == sad
    ensures Sads(payload, j + 1) == Sads(payload, j) + [SadOf(sad)]
  {
  }

  lemma SadsNone(payload: seq<byte>)
    ensures Sads(payload, 0) == []
  {
  }

  /** The loop that decodes the descriptors of the block at i. */
  method ReadSads(cea: Block, i: nat, end: nat) returns (sads: seq<Sad>)
    requires end <= LENGTH && AtBlock(cea, i, end)
    ensures sads == AllSads(BlockFrom(cea, i, end).payload)
  {
    hide Sads, SadOf, BlockFrom;
    ghost var payload := BlockFrom(cea, i, end).payload;
    BlockFields(cea, i, end);
    SadsNone(payload);
    var count := PayloadLen(cea[i]) / 3;
    sads := [];
    for j := 0 to count
      invariant sads == Sads(payload, j)
    {
      var sad := ReadSad(cea, i + 1 + j * 3);
      SliceOfSlice(cea, i + 1, i + 1 + PayloadLen(cea[i]), 3 * j, 3 * j + 3);
      SadsStep(payload, j, cea[i + 1 + 3 * j..i + 1 + 3 * j + 3]);
      sads := sads + [sad];
    }
  }

  method ReadSad(cea: Block, at: nat) returns (sad: Sad)
    requires at + 3 <= LENGTH
    ensures sad == SadOf(cea[at..at + 3])
  {
    sad := Sad((cea[at] / 8) % 16, cea[at] % 8, cea[at + 1] % 128, cea[at + 2]);
  }

  /** drm_edid_to_sad.  `memory` says whether the allocation of the result succeeds. */
  method EdidToSad(ext: Option<Block>, memory: bool) returns (r: SadResult)
    ensures ext.None? ==> r == Failed(ENOENT)
    ensures ext.Some? && ext.value[1] < 3 ==> r == Failed(ENOTSUP)
    ensures ext.Some? && ext.value[1] >= 3 && End(ext.value).None? ==> r == Failed(EPROTO)
    ensures ext.Some? && ext.value[1] >= 3 && End(ext.value).Some? ==>
      var audio := Audio(Blocks(ext.value));
      r == if audio == [] then Found([]) else if memory then Found(AllSads(audio[0].payload)) else Failed(ENOMEM)
  {
    if ext.None? {
      return Failed(ENOENT);
    }
    var cea := ext.value;
    if cea[1] < 3 {
      return Failed(ENOTSUP);
    }
    var e := End(cea);
    if e.None? {
      return Failed(EPROTO);
    }
    var end := e.value;
    var i := START;
    ghost var visited := [];
    while AtBlock(cea, i, end)
      invariant Walk(cea, START, end) == visited + Walk(cea, i, end)
      invariant Audio(visited) == []
      decreases end - i
    {
      ghost var db := BlockFrom(cea, i, end);
      WalkStep(cea, START, i, end, visited);
      FirstAudio(visited, db, Walk(cea, i + PayloadLen(cea[i]) + 1, end));
      if Tag(cea[i]) == AUDIO_BLOCK {
        if !memory {
          return Failed(ENOMEM);
        }
        var sads := ReadSads(cea, i, end);
        return Found(sads);
      }
      visited := visited + [db];
      i := i + PayloadLen(cea[i]) + 1;
    }
    AudioOfConcat(visited, []);
    assert visited + [] == visited;
    r := Found([]);
  }

  // ----- the ELD -----

  function Or(a: byte, b: byte): byte {
    Bits8();
    OrBits(a, b, 8)
  }

  /** Length of the monitor name: it ends before a newline or after 13 characters. */
  function NameLen(name: Option<seq<byte>>, k: nat): (mnl: nat)
    requires name.Some? ==> |name.value| >= 13
    requires k <= 13
    ensures mnl <= 13 && (name.None? ==> mnl == 0)
    ensures name.Some? ==> k <= mnl && (mnl < 13 ==> name.value[mnl] == 0x0a)
    ensures name.Some? ==> forall j :: k <= j < mnl ==> name.value[j] != 0x0a
    decreases 13 - k
  {
    if name.None? then 0 else
    if k == 13 || name.value[k] == 0x0a then k else NameLen(name, k + 1)
  }

  function HdmiId(a: nat, b: nat, c: nat): nat {
    a + 0x100 * b + 0x10000 * c
  }

  /** cea_db_is_hdmi_vsdb */
  predicate IsHdmi(db: DataBlock) {
    db.tag == VENDOR_BLOCK && |db.payload| >= 5 &&
      HdmiId(db.payload[0], db.payload[1], db.payload[2]) == HDMI_IDENTIFIER
  }

  /** HDMI's vendor block begins 03 0c 00. */
  lemma HdmiMeans(db: DataBlock)
    ensures IsHdmi(db) <==>
      db.tag == 3 && |db.payload| >= 5 && db.payload[0] == 0x03 && db.payload[1] == 0x0c && db.payload[2] == 0x00
  {
  }

  /** The HDMI block announces ACP, ISRC1 or ISRC2 handling. */
  predicate SupportsAi(db: DataBlock) {
    IsHdmi(db) && |db.payload| >= 6 && db.payload[5] >= 0x80
  }

  type EldBytes = e: seq<byte> | |e| == MAX_ELD_BYTES witness seq(MAX_ELD_BYTES, _ => 0)

  /** What one data block changes in the ELD. */
  function Entered(e: EldBytes, mnl: nat, db: DataBlock): EldBytes
    requires mnl <= 13 && db.Fits()
  {
    var at, n := 20 + mnl, |db.payload|;
    if n == 0 then e
    else if db.tag == AUDIO_BLOCK then e[..at] + db.payload + e[at + n..]
    else if db.tag == SPEAKER_BLOCK then e[7 := db.payload[0]]
    else if IsHdmi(db) && n >= 6 then e[5 := Or(e[5], (db.payload[5] / 128) * 2)]
    else e
  }

  function AllEntered(e: EldBytes, mnl: nat, dbs: seq<DataBlock>): EldBytes
    requires mnl <= 13 && forall db :: db in dbs ==> db.Fits()
  {
    if dbs == [] then e else Entered(AllEntered(e, mnl, dbs[..|dbs| - 1]), mnl, dbs[|dbs| - 1])
  }

  /** How many descriptors the last audio block holds. */
  function SadCount(dbs: seq<DataBlock>): (n: nat)
    requires forall db :: db in dbs ==> db.Fits()
    ensures n <= 10
  {
    if dbs == [] then 0 else
    assert dbs[|dbs| - 1].Fits();
    if dbs[|dbs| - 1].tag == AUDIO_BLOCK then |dbs[|dbs| - 1].payload| / 3
    else SadCount(dbs[..|dbs| - 1])
  }

  /** memcpy of a payload into the ELD */
  method CopyPayload(eld: array<byte>, at: nat, cea: Block, from: nat, n: nat)
    requires eld.Length == MAX_ELD_BYTES && at + n <= MAX_ELD_BYTES && from + n <= LENGTH
    modifies eld
    ensures eld[..] == old(eld[..at]) + cea[from..from + n] + old(eld[at + n..])
  {
    ghost var payload := cea[from..from + n];
    for k := 0 to n
      invariant forall m :: 0 <= m < k ==> eld[at + m] == payload[m]
      invariant forall m :: 0 <= m < MAX_ELD_BYTES && !(at <= m < at + k) ==> eld[m] == old(eld[m])
    {
      assert payload[k] == cea[from + k];
      eld[at + k] := cea[from + k];
    }
  }

  /** One round of the loop of drm_edid_to_eld. */
  method EnterBlock(eld: array<byte>, mnl: nat, cea: Block, i: nat, end: nat)
    requires eld.Length == MAX_ELD_BYTES && mnl <= 13
    requires end <= LENGTH && AtBlock(cea, i, end)
    modifies eld
    ensures eld[..] == Entered(old(eld[..]), mnl, BlockFrom(cea, i, end))
  {
    hide Entered, Or, BlockFrom, HdmiId;
    var tag, dbl := Tag(cea[i]), PayloadLen(cea[i]);
    ghost var db := BlockFrom(cea, i, end);
    BlockFields(cea, i, end);
    BlockBytes(cea, i, end);
    EnteredByTag(eld[..], mnl, db);
    if tag == AUDIO_BLOCK {
      if dbl >= 1 {
        CopyPayload(eld, 20 + mnl, cea, i + 1, dbl);
      }
    } else if tag == SPEAKER_BLOCK {
      if dbl >= 1 {
        eld[7] := cea[i + 1];
      }
    } else if tag == VENDOR_BLOCK {
      if dbl >= 5 && HdmiId(cea[i + 1], cea[i + 2], cea[i + 3]) == HDMI_IDENTIFIER {
        if dbl >= 6 {
          eld[5] := Or(eld[5], (cea[i + 6] / 128) * 2);
        }
      }
    }
  }

  lemma BlockFields(cea: Block, i: nat, end: nat)
    requires end <= LENGTH && AtBlock(cea, i, end)
    ensures BlockFrom(cea, i, end).tag == Tag(cea[i])
    ensures BlockFrom(cea, i, end).payload == cea[i + 1..i + 1 + PayloadLen(cea[i])]
  {
  }

  lemma BlockBytes(cea: Block, i: nat, end: nat)
    requires end <= LENGTH && AtBlock(cea, i, end)
    ensures |BlockFrom(cea, i, end).payload| == PayloadLen(cea[i])
    ensures forall k :: 0 <= k < PayloadLen(cea[i]) ==> BlockFrom(cea, i, end).payload[k] == cea[i + 1 + k]
  {
  }

  /** What a block of each kind changes. */
  lemma EnteredByTag(e: EldBytes, mnl: nat, db: DataBlock)
    requires mnl <= 13 && db.Fits()
    ensures db.payload == [] ==> Entered(e, mnl, db) == e
    ensures db.tag == AUDIO_BLOCK ==>
              Entered(e, mnl, db) == e[..20 + mnl] + db.payload + e[20 + mnl + |db.payload|..]
    ensures db.tag == SPEAKER_BLOCK && db.payload != [] ==> Entered(e, mnl, db) == e[7 := db.payload[0]]
    ensures IsHdmi(db) && |db.payload| >= 6 ==> Entered(e, mnl, db) == e[5 := Or(e[5], (db.payload[5] / 128) * 2)]
    ensures db.tag == VENDOR_BLOCK && !(IsHdmi(db) && |db.payload| >= 6) ==> Entered(e, mnl, db) == e
    ensures db.tag !in {AUDIO_BLOCK, SPEAKER_BLOCK, VENDOR_BLOCK} ==> Entered(e, mnl, db) == e
  {
    hide Or, HdmiId;
  }

  function Zeros(n: nat): (z: seq<byte>)
    ensures |z| == n && forall k :: 0 <= k < n ==> z[k] == 0
  {
    seq(n, _ => 0)
  }

  function NameBytes(name: Option<seq<byte>>): (b: seq<byte>)
    requires name.Some? ==> |name.value| >= 13
    ensures |b| == NameLen(name, 0)
  {
    if name.None? then [] else name.value[..NameLen(name, 0)]
  }

  /** The ELD before the data blocks are read. */
  function Header(edid: seq<byte>, cea: Block, name: Option<seq<byte>>): EldBytes
    requires |edid| >= LENGTH && (name.Some? ==> |name.value| >= 13)
  {
    [16, 0, 0, 0, Or((cea[1] % 8) * 32, NameLen(name, 0)), 0, 0, 0] + Zeros(8) + edid[8..12] + NameBytes(name) +
    Zeros(108 - NameLen(name, 0))
  }

  function Closed(e: EldBytes, mnl: nat, count: nat): EldBytes
    requires mnl <= 13 && count <= 10
  {
    e[5 := Or(e[5], count * 16)][2 := (20 + mnl + count * 3 + 3) / 4]
  }

  function EldOf(edid: seq<byte>, ext: Option<Block>, name: Option<seq<byte>>): EldBytes
    requires |edid| >= LENGTH && (name.Some? ==> |name.value| >= 13)
  {
    if ext.None? then Zeros(MAX_ELD_BYTES) else
    var mnl := NameLen(name, 0);
    var dbs := Blocks(ext.value);
    Closed(AllEntered(Header(edid, ext.value, name), mnl, dbs), mnl, SadCount(dbs))
  }

  lemma EnteredStep(e: EldBytes, mnl: nat, visited: seq<DataBlock>, db: DataBlock)
    requires mnl <= 13 && db.Fits() && forall b :: b in visited ==> b.Fits()
    ensures forall b :: b in visited + [db] ==> b.Fits()
    ensures AllEntered(e, mnl, visited + [db]) == Entered(AllEntered(e, mnl, visited), mnl, db)
    ensures SadCount(visited + [db]) == if db.tag == AUDIO_BLOCK then |db.payload| / 3 else SadCount(visited)
  {
    assert (visited + [db])[..|visited|] == visited;
  }

  /** The loop that copies the monitor name. */
  method WriteName(eld: array<byte>, name: Option<seq<byte>>) returns (mnl: nat)
    requires eld.Length == MAX_ELD_BYTES && (name.Some? ==> |name.value| >= 13)
    requires forall k :: 0 <= k < MAX_ELD_BYTES ==> eld[k] == 0
    modifies eld
    ensures mnl == NameLen(name, 0)
    ensures forall k :: 0 <= k < mnl ==> eld[20 + k] == NameBytes(name)[k]
    ensures forall k :: 0 <= k < MAX_ELD_BYTES && !(20 <= k < 20 + mnl) ==> eld[k] == 0
  {
    mnl := 0;
    while name.Some? && mnl < 13 && name.value[mnl] != 0x0a
      invariant mnl <= 13 && NameLen(name, 0) == NameLen(name, mnl)
      invariant name.None? ==> mnl == 0
      invariant forall k :: 0 <= k < mnl ==> eld[20 + k] == name.value[k]
      invariant forall k :: 0 <= k < MAX_ELD_BYTES && !(20 <= k < 20 + mnl) ==> eld[k] == 0
      decreases 13 - mnl
    {
      eld[20 + mnl] := name.value[mnl];
      mnl := mnl + 1;
    }
  }

  lemma HeaderAt(edid: seq<byte>, cea: Block, name: Option<seq<byte>>, k: nat)
    requires |edid| >= LENGTH && (name.Some? ==> |name.value| >= 13) && k < MAX_ELD_BYTES
    ensures Header(edid, cea, name)[k] ==
            if k == 0 then 16
            else if k == 4 then Or((cea[1] % 8) * 32, NameLen(name, 0))
            else if 16 <= k < 20 then edid[k - 8]
            else if 20 <= k < 20 + NameLen(name, 0) then NameBytes(name)[k - 20]
            else 0
  {
    hide NameLen, NameBytes, Or;
    var mnl := NameLen(name, 0);
    var a, b := [16, 0, 0, 0, Or((cea[1] % 8) * 32, mnl), 0, 0, 0] + Zeros(8), edid[8..12];
    var h := a + b + NameBytes(name) + Zeros(108 - mnl);
    assert |a| == 16 && |b| == 4;
    if k < 16 {
      assert h[k] == a[k];
    } else if k < 20 {
      assert h[k] == b[k - 16] == edid[k - 8];
    } else if k < 20 + mnl {
      assert h[k] == NameBytes(name)[k - 20];
    } else {
      assert h[k] == Zeros(108 - mnl)[k - 20 - mnl];
    }
  }

  /** The part of drm_edid_to_eld that precedes the data blocks. */
  method WriteHeader(eld: array<byte>, edid: seq<byte>, cea: Block, name: Option<seq<byte>>) returns (mnl: nat)
    requires eld.Length == MAX_ELD_BYTES && |edid| >= LENGTH && (name.Some? ==> |name.value| >= 13)
    requires forall k :: 0 <= k < MAX_ELD_BYTES ==> eld[k] == 0
    modifies eld
    ensures mnl == NameLen(name, 0) && eld[..] == Header(edid, cea, name)
  {
    hide Header, NameLen, NameBytes, Or;
    mnl := WriteName(eld, name);
    eld[4] := Or((cea[1] % 8) * 32, mnl);
    eld[0] := 16;
    eld[16], eld[17], eld[18], eld[19] := edid[8], edid[9], edid[10], edid[11];
    forall k: nat | k < MAX_ELD_BYTES
      ensures eld[k] == Header(edid, cea, name)[k]
    {
      HeaderAt(edid, cea, name, k);
    }
  }

  /** The loop over the data blocks. */
  method EnterBlocks(eld: array<byte>, mnl: nat, cea: Block) returns (count: nat)
    requires eld.Length == MAX_ELD_BYTES && mnl <= 13 && cea[1] >= 3
    modifies eld
    ensures eld[..] == AllEntered(old(eld[..]), mnl, Blocks(cea)) && count == SadCount(Blocks(cea))
  {
    hide Entered, Walk, BlockFrom, Blocks, AllEntered, SadCount;
    ghost var header := eld[..];
    count := 0;
    var e := End(cea);
    var start, end := if e.Some? then START else 0, if e.Some? then e.value else 0;
    var i := start;
    ghost var visited: seq<DataBlock> := [];
    EnterStarts(header, mnl, Walk(cea, i, end));
    while AtBlock(cea, i, end)
      invariant Walk(cea, start, end) == visited + Walk(cea, i, end)
      invariant forall b :: b in visited ==> b.Fits()
      invariant eld[..] == AllEntered(header, mnl, visited) && count == SadCount(visited)
      decreases end - i
    {
      ghost var db := BlockFrom(cea, i, end);
      EnteredStep(header, mnl, visited, db);
      WalkStep(cea, start, i, end, visited);
      BlockBytes(cea, i, end);
      BlockFields(cea, i, end);
      EnterBlock(eld, mnl, cea, i, end);
      if Tag(cea[i]) == AUDIO_BLOCK {
        count := PayloadLen(cea[i]) / 3;
      }
      visited := visited + [db];
      i := i + PayloadLen(cea[i]) + 1;
    }
    WalkEnds(cea, i, end);
    BlocksOf(cea, start, end);
    assert visited + [] == visited;
  }

  lemma EnterStarts(e: EldBytes, mnl: nat, dbs: seq<DataBlock>)
    requires mnl <= 13
    ensures AllEntered(e, mnl, []) == e && SadCount([]) == 0 && [] + dbs == dbs
  {
  }

  lemma BlocksOf(cea: Block, start: nat, end: nat)
    requires cea[1] >= 3
    requires if End(cea).Some? then start == START && end == End(cea).value else start == 0 && end == 0
    ensures end <= LENGTH && Blocks(cea) == Walk(cea, start, end)
  {
  }

  lemma WalkEnds(cea: Block, i: nat, end: nat)
    requires end <= LENGTH && !AtBlock(cea, i, end)
    ensures Walk(cea, i, end) == []
  {
  }

  method Close(eld: array<byte>, mnl: nat, count: nat)
    requires eld.Length == MAX_ELD_BYTES && mnl <= 13 && count <= 10
    modifies eld
    ensures eld[..] == Closed(old(eld[..]), mnl, count)
  {
    eld[5] := Or(eld[5], count * 16);
    eld[2] := (20 + mnl + count * 3 + 3) / 4;
  }

  lemma NothingEntered(edid: seq<byte>, cea: Block, name: Option<seq<byte>>)
    requires |edid| >= LENGTH && (name.Some? ==> |name.value| >= 13)
    ensures cea[1] < 3 ==>
      AllEntered(Header(edid, cea, name), NameLen(name, 0), Blocks(cea)) == Header(edid, cea, name) &&
        SadCount(Blocks(cea)) == 0
  {
  }

  /** drm_edid_to_eld; `name` is the string of the monitor name descriptor, if there is one. */
  method EdidToEld(eld: array<byte>, edid: seq<byte>, ext: Option<Block>, name: Option<seq<byte>>)
    requires eld.Length == MAX_ELD_BYTES && |edid| >= LENGTH && (name.Some? ==> |name.value| >= 13)
    modifies eld
    ensures eld[..] == EldOf(edid, ext, name)
  {
    forall k | 0 <= k < MAX_ELD_BYTES {
      eld[k] := 0;
    }
    if ext.None? {
      assert eld[..] == Zeros(MAX_ELD_BYTES);
      return;
    }
    hide Header, Zeros, Entered, Walk, NameLen, Or, AllEntered, SadCount, Blocks, Closed;
    var cea := ext.value;
    var mnl := WriteHeader(eld, edid, cea, name);
    var count: nat := 0;
    if cea[1] >= 3 {
      count := EnterBlocks(eld, mnl, cea);
    } else {
      NothingEntered(edid, cea, name);
    }
    Close(eld, mnl, count);
  }

  // ----- what the ELD says -----

  /** The payload of the last audio block, empty if there is none. */
  function LastAudio(dbs: seq<DataBlock>): seq<byte> {
    if Audio(dbs) == [] then [] else Audio(dbs)[|Audio(dbs)| - 1].payload
  }

  /** The first byte of the last speaker allocation block that has one. */
  function Speakers(dbs: seq<DataBlock>): byte {
    if dbs == [] then 0
    else if dbs[|dbs| - 1].tag == SPEAKER_BLOCK && dbs[|dbs| - 1].payload != [] then dbs[|dbs| - 1].payload[0]
    else Speakers(dbs[..|dbs| - 1])
  }

  /** Byte 5 before the count is added. */
  function AiBit(dbs: seq<DataBlock>): (bit: byte)
    ensures bit == 0 || bit == 2
  {
    if exists db :: db in dbs && SupportsAi(db) then 2 else 0
  }

  /** An audio block that is not empty: nothing else writes at 20 + mnl. */
  lemma {:induction false} SadCountIsOfLast(dbs: seq<DataBlock>)
    requires forall db :: db in dbs ==> db.Fits()
    ensures SadCount(dbs) == |LastAudio(dbs)| / 3 && |LastAudio(dbs)| <= 31
  {
    if dbs != [] {
      assert dbs[|dbs| - 1].Fits();
      SadCountIsOfLast(dbs[..|dbs| - 1]);
    }
  }

  /** The bytes in front of the audio data, except 5 and 7, and those behind it are those of the header. */
  lemma {:induction false} RestOfEld(e: EldBytes, mnl: nat, dbs: seq<DataBlock>, k: nat)
    requires mnl <= 13 && forall db :: db in dbs ==> db.Fits()
    requires k < MAX_ELD_BYTES && k != 5 && k != 7 && (k < 20 + mnl || k >= 20 + mnl + 31)
    ensures AllEntered(e, mnl, dbs)[k] == e[k]
  {
    if dbs != [] {
      assert dbs[|dbs| - 1].Fits();
      RestOfEld(e, mnl, dbs[..|dbs| - 1], k);
    }
  }

  lemma {:induction false} SpeakersOfEld(e: EldBytes, mnl: nat, dbs: seq<DataBlock>)
    requires mnl <= 13 && forall db :: db in dbs ==> db.Fits()
    requires e[7] == 0
    ensures AllEntered(e, mnl, dbs)[7] == Speakers(dbs)
  {
    if dbs != [] {
      SpeakersOfEld(e, mnl, dbs[..|dbs| - 1]);
    }
  }

  lemma OrOfAi()
    ensures Or(0, 0) == 0 && Or(0, 2) == 2 && Or(2, 0) == 2 && Or(2, 2) == 2
  {
    Bits8();
    OrOfNothing(2, 8);
    OrOfNothing(0, 8);
    assert OrBits(2, 2, 8) == 2 * OrBits(1, 1, 7) && OrBits(1, 1, 7) == 2 * OrBits(0, 0, 6) + 1;
    OrOfNothing(0, 6);
  }

  lemma AiStep(front: seq<DataBlock>, last: DataBlock)
    ensures AiBit(front + [last]) == if SupportsAi(last) then 2 else AiBit(front)
  {
    hide SupportsAi;
    assert last in front + [last];
    assert forall db :: db in front ==> db in front + [last];
  }

  lemma EnteredAi(e: EldBytes, mnl: nat, db: DataBlock)
    requires mnl <= 13 && db.Fits() && (e[5] == 0 || e[5] == 2)
    ensures Entered(e, mnl, db)[5] == if SupportsAi(db) then 2 else e[5]
  {
    OrOfAi();
    hide Or;
  }

  lemma {:induction false} AiOfEld(e: EldBytes, mnl: nat, dbs: seq<DataBlock>)
    requires mnl <= 13 && forall db :: db in dbs ==> db.Fits()
    requires e[5] == 0
    ensures AllEntered(e, mnl, dbs)[5] == AiBit(dbs)
  {
    if dbs != [] {
      var front, last := dbs[..|dbs| - 1], dbs[|dbs| - 1];
      var before := AllEntered(e, mnl, front);
      assert AllEntered(e, mnl, dbs) == Entered(before, mnl, last);
      assert dbs == front + [last];
      hide AiBit, AllEntered;
      AiOfEld(e, mnl, front);
      AiStep(front, last);
      EnteredAi(before, mnl, last);
    }
  }

  lemma EnteredAudio(e: EldBytes, mnl: nat, db: DataBlock)
    requires mnl <= 13 && db.Fits()
    ensures db.tag == AUDIO_BLOCK ==> Entered(e, mnl, db)[20 + mnl..20 + mnl + |db.payload|] == db.payload
    ensures db.tag != AUDIO_BLOCK ==> Entered(e, mnl, db)[20..] == e[20..]
  {
    hide Or, IsHdmi;
  }

  lemma {:induction false} AudioOfEld(e: EldBytes, mnl: nat, dbs: seq<DataBlock>)
    requires mnl <= 13 && forall db :: db in dbs ==> db.Fits()
    ensures |LastAudio(dbs)| <= 31
    ensures AllEntered(e, mnl, dbs)[20 + mnl..20 + mnl + |LastAudio(dbs)|] == LastAudio(dbs)
  {
    if dbs != [] {
      var front, last := dbs[..|dbs| - 1], dbs[|dbs| - 1];
      assert last.Fits();
      AudioOfEld(e, mnl, front);
      var before := AllEntered(e, mnl, front);
      var after := Entered(before, mnl, last);
      assert after == AllEntered(e, mnl, dbs);
      EnteredAudio(before, mnl, last);
      hide Entered, AllEntered, LastAudio;
      if last.tag != AUDIO_BLOCK {
        var p := LastAudio(front);
        AudioOfFront(dbs);
        assert after[20..][mnl..mnl + |p|] == before[20..][mnl..mnl + |p|];
        SliceOfSlice(after, 20, MAX_ELD_BYTES, mnl, mnl + |p|);
        SliceOfSlice(before, 20, MAX_ELD_BYTES, mnl, mnl + |p|);
      } else {
        AudioOfFront(dbs);
      }
    }
  }

  lemma AudioOfFront(dbs: seq<DataBlock>)
    requires dbs != []
    ensures LastAudio(dbs) ==
      if dbs[|dbs| - 1].tag == AUDIO_BLOCK then dbs[|dbs| - 1].payload else LastAudio(dbs[..|dbs| - 1])
  {
  }

  lemma ClosedCount(e: EldBytes, mnl: nat, count: nat)
    requires mnl <= 13 && count <= 10 && (e[5] == 0 || e[5] == 2)
    ensures Closed(e, mnl, count)[5] == e[5] + count * 16
  {
    Bits8();
    OrOfFields(e[5], count, 4, 8);
  }

  /** The fields that come from the base block and the monitor name, and what stays zero. */
  lemma HeaderFields(edid: seq<byte>, cea: Block, name: Option<seq<byte>>, k: nat)
    requires |edid| >= LENGTH && (name.Some? ==> |name.value| >= 13)
    requires k !in {2, 4, 5, 7} && (k < 20 + NameLen(name, 0) || 64 <= k < MAX_ELD_BYTES)
    ensures EldOf(edid, Some(cea), name)[k] ==
            if k == 0 then 16
            else if 16 <= k < 20 then edid[k - 8]
            else if 20 <= k < 20 + NameLen(name, 0) then NameBytes(name)[k - 20]
            else 0
  {
    HeaderAt(edid, cea, name, k);
    RestOfEld(Header(edid, cea, name), NameLen(name, 0), Blocks(cea), k);
    hide Header, NameLen, NameBytes, Or, AllEntered, Blocks, SadCount;
  }

  /** The packed fields: size in words, name length with the CEA revision, descriptor count with the AI bit,
      speakers. */
  lemma PackedFields(edid: seq<byte>, cea: Block, name: Option<seq<byte>>)
    requires |edid| >= LENGTH && (name.Some? ==> |name.value| >= 13)
    ensures var e, dbs, mnl := EldOf(edid, Some(cea), name), Blocks(cea), NameLen(name, 0);
            var count := |LastAudio(dbs)| / 3;
            4 * (e[2] as int - 1) < 20 + mnl + 3 * count <= 4 * e[2] as int &&
            e[4] == cea[1] % 8 * 32 + mnl && e[5] == 16 * count + AiBit(dbs) && e[7] == Speakers(dbs)
  {
    hide Header, NameLen, NameBytes, AllEntered, Blocks, Speakers, LastAudio, AiBit, SadCount, EldOf, Pow2, OrBits;
    var dbs, mnl := Blocks(cea), NameLen(name, 0);
    var header := Header(edid, cea, name);
    var entered := AllEntered(header, mnl, dbs);
    EldIsClosed(edid, cea, name, entered);
    HeaderAt(edid, cea, name, 4);
    HeaderAt(edid, cea, name, 5);
    HeaderAt(edid, cea, name, 7);
    RestOfEld(header, mnl, dbs, 4);
    SpeakersOfEld(header, mnl, dbs);
    AiOfEld(header, mnl, dbs);
    SadCountIsOfLast(dbs);
    ClosedCount(entered, mnl, SadCount(dbs));
    Bits8();
    OrOfFields(mnl, cea[1] % 8, 5, 8);
  }

  lemma ClosedTail(e: EldBytes, mnl: nat, count: nat, from: nat, to: nat)
    requires mnl <= 13 && count <= 10 && 20 <= from <= to <= MAX_ELD_BYTES
    ensures Closed(e, mnl, count)[from..to] == e[from..to]
  {
    hide Or;
  }

  lemma UnpackedFields(edid: seq<byte>, cea: Block, name: Option<seq<byte>>)
    requires |edid| >= LENGTH && (name.Some? ==> |name.value| >= 13)
    ensures EldOf(edid, Some(cea), name)[4] % 32 == NameLen(name, 0)
    ensures EldOf(edid, Some(cea), name)[5] / 16 == |LastAudio(Blocks(cea))| / 3
  {
    hide EldOf, Blocks, NameLen, Or, AiBit, Speakers, LastAudio;
    PackedFields(edid, cea, name);
  }

  lemma EldIsClosed(edid: seq<byte>, cea: Block, name: Option<seq<byte>>, entered: EldBytes)
    requires |edid| >= LENGTH && (name.Some? ==> |name.value| >= 13)
    requires entered == AllEntered(Header(edid, cea, name), NameLen(name, 0), Blocks(cea))
    ensures EldOf(edid, Some(cea), name) == Closed(entered, NameLen(name, 0), SadCount(Blocks(cea)))
  {
    hide Header, AllEntered, Closed, NameLen, SadCount, Blocks;
  }

  /** The audio data lies behind the name and ends inside the buffer. */
  lemma AudioField(edid: seq<byte>, cea: Block, name: Option<seq<byte>>)
    requires |edid| >= LENGTH && (name.Some? ==> |name.value| >= 13)
    ensures var e, at, audio := EldOf(edid, Some(cea), name), 20 + NameLen(name, 0), LastAudio(Blocks(cea));
            |audio| <= 31 && at + |audio| <= 64 && e[at..at + |audio|] == audio
  {
    hide Header, NameLen, AllEntered, Blocks, LastAudio, SadCount, EldOf, Closed;
    var dbs, mnl := Blocks(cea), NameLen(name, 0);
    var entered := AllEntered(Header(edid, cea, name), mnl, dbs);
    EldIsClosed(edid, cea, name, entered);
    AudioOfEld(Header(edid, cea, name), mnl, dbs);
    ClosedTail(entered, mnl, SadCount(dbs), 20 + mnl, 20 + mnl + |LastAudio(dbs)|);
  }

  // ----- reading the ELD back -----

  function EldName(e: EldBytes): seq<byte> {
    e[20..20 + e[4] as int % 32]
  }

  function EldSads(e: EldBytes): seq<Sad> {
    Sads(e[20 + e[4] as int % 32..], e[5] / 16)
  }

  lemma SadsReadBack(e: EldBytes, at: nat, audio: seq<byte>)
    requires 20 <= at && at + |audio| <= MAX_ELD_BYTES && e[at..at + |audio|] == audio
    requires e[4] % 32 == at - 20 && e[5] / 16 == |audio| / 3
    ensures EldSads(e) == AllSads(audio)
  {
    var n := |audio| / 3;
    var tail := e[at..];
    assert forall k :: 0 <= k < |audio| ==> tail[k] == e[at..at + |audio|][k] == audio[k];
    hide Sads;
    SadsOfPrefix(tail, audio, n);
  }

  lemma NameReadsBack(e: EldBytes, name: seq<byte>)
    requires |name| <= 13 && e[4] % 32 == |name|
    requires forall k :: 0 <= k < |name| ==> e[20 + k] == name[k]
    ensures EldName(e) == name
  {
  }

  /** The reader of the ELD gets the monitor name. */
  lemma EldNameReadsBack(edid: seq<byte>, cea: Block, name: Option<seq<byte>>)
    requires |edid| >= LENGTH && (name.Some? ==> |name.value| >= 13)
    ensures EldName(EldOf(edid, Some(cea), name)) == NameBytes(name)
  {
    hide EldOf, Blocks, NameLen, NameBytes, Or, AiBit, Speakers, LastAudio, EldName;
    var e, mnl := EldOf(edid, Some(cea), name), NameLen(name, 0);
    forall k: nat | k < mnl
      ensures e[20 + k] == NameBytes(name)[k]
    {
      HeaderFields(edid, cea, name, 20 + k);
    }
    UnpackedFields(edid, cea, name);
    NameReadsBack(e, NameBytes(name));
  }

  /** The reader of the ELD gets the descriptors of the last audio block. */
  lemma EldSadsReadBack(edid: seq<byte>, cea: Block, name: Option<seq<byte>>)
    requires |edid| >= LENGTH && (name.Some? ==> |name.value| >= 13)
    ensures EldSads(EldOf(edid, Some(cea), name)) == AllSads(LastAudio(Blocks(cea)))
  {
    hide EldOf, Blocks, NameLen, NameBytes, Or, AiBit, Speakers, LastAudio, EldSads, AllSads;
    UnpackedFields(edid, cea, name);
    AudioField(edid, cea, name);
    SadsReadBack(EldOf(edid, Some(cea), name), 20 + NameLen(name, 0), LastAudio(Blocks(cea)));
  }

  /** Both parsers agree exactly when the first and the last audio block hold the same descriptors.  With a single
      audio block they always do. */
  lemma ParsersAgree(edid: seq<byte>, cea: Block, name: Option<seq<byte>>)
    requires |edid| >= LENGTH && (name.Some? ==> |name.value| >= 13)
    requires Audio(Blocks(cea)) != []
    ensures var audio := Audio(Blocks(cea));
            (EldSads(EldOf(edid, Some(cea), name)) == AllSads(audio[0].payload) <==>
             AllSads(audio[|audio| - 1].payload) == AllSads(audio[0].payload)) &&
            (|audio| == 1 ==> EldSads(EldOf(edid, Some(cea), name)) == AllSads(audio[0].payload))
  {
    EldSadsReadBack(edid, cea, name);
    hide EldSads, EldOf, AllSads, Audio, Blocks;
  }

  /** A collection that consists of two audio blocks. */
  lemma TwoAudioBlocks(cea: Block, a: DataBlock, b: DataBlock)
    requires a.Fits() && b.Fits() && a.tag == AUDIO_BLOCK && b.tag == AUDIO_BLOCK
    requires cea[1] >= 3 && End(cea).Some? && cea[START..End(cea).value] == Encoded(a) + Encoded(b)
    ensures Audio(Blocks(cea)) == [a, b]
  {
    hide Encoded, Walk;
    SerialisedFirst(b, []);
    SerialisedFirst(a, [b]);
    assert Encoded(b) + [] == Encoded(b) && [a] + [b] == [a, b] && [b] + [] == [b];
    WalkOfSerialised(cea, START, End(cea).value, [a, b]);
    AudioOfConcat([a], [b]);
  }

  lemma OneSad(a: seq<byte>)
    requires |a| == 3
    ensures AllSads(a) == [SadOf(a)]
  {
    hide Sads, SadOf;
    SadsNone(a);
    assert a[3 * 0..3 * 0 + 3] == a;
    SadsStep(a, 0, a);
  }

  lemma SadsDiffer(a: seq<byte>, b: seq<byte>)
    requires |a| == |b| == 3 && a[2] != b[2]
    ensures AllSads(a) != AllSads(b)
  {
    hide AllSads;
    OneSad(a);
    OneSad(b);
    assert [SadOf(a)][0] != [SadOf(b)][0];
  }

  /** With two different audio blocks the parsers disagree: the ELD describes the second one, drm_edid_to_sad returns
      the first. */
  lemma TwoAudioBlocksDisagree(edid: seq<byte>, name: Option<seq<byte>>) returns (cea: Block)
    requires |edid| >= LENGTH && (name.Some? ==> |name.value| >= 13)
    ensures cea[1] >= 3 && End(cea).Some? && |Audio(Blocks(cea))| == 2
    ensures EldSads(EldOf(edid, Some(cea), name)) != AllSads(Audio(Blocks(cea))[0].payload)
  {
    hide Encoded, Walk, Blocks, EldSads, EldOf, AllSads, Audio;
    var a, b := DataBlock(AUDIO_BLOCK, [9, 7, 7]), DataBlock(AUDIO_BLOCK, [9, 7, 3]);
    cea := [CEA_EXT, 3, 12, 0] + Encoded(a) + Encoded(b) + Zeros(116);
    assert cea[4..12] == Encoded(a) + Encoded(b);
    TwoAudioBlocks(cea, a, b);
    SadsDiffer(a.payload, b.payload);
    ParsersAgree(edid, cea, name);
  }
}
