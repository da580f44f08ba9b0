/** The mode-setting objects of a device: framebuffers, CRTCs, encoders, connectors,
    and the record of the driver callbacks that the helpers make. */
module KmsObjects {
  import opened Bits
  import FramebufferCheck

  /** A display mode.  `timings` is what two modes are compared by besides the visible
      size; `name` is carried along but never compared. */
  datatype DisplayMode = DisplayMode(hdisplay: int, vdisplay: int, timings: nat, name: nat)

  predicate ModeEqual(a: DisplayMode, b: DisplayMode) {
    a.hdisplay == b.hdisplay && a.vdisplay == b.vdisplay && a.timings == b.timings
  }

  /** Modes are equal if they differ in nothing but their name. */
  lemma ModeEqualMeans(a: DisplayMode, b: DisplayMode)
    ensures ModeEqual(a, b) <==> a.(name := b.name) == b
  {
  }

  datatype Status = Connected | Disconnected | UnknownConnection

  datatype Option<+T> = None | Some(value: T)


  class Framebuffer {
    const request: FramebufferCheck.Request   // what the driver was asked to create
    const pixelFormat: FramebufferCheck.Format
    const width: nat
    const height: nat
    var refcount: int
    var id: nat
    ghost var owner: DrmFile?    // the file whose `fbs` list holds the framebuffer
    ghost var destroyed: nat     // how often the destroy callback has run

    constructor (request: FramebufferCheck.Request)
      ensures this.request == request
      ensures pixelFormat == request.format && width == request.width && height == request.height
      ensures refcount == 1 && id == 0 && owner == null && destroyed == 0
    {
      this.request, pixelFormat, width, height := request, request.format, request.width, request.height;
      refcount, id, owner, destroyed := 1, 0, null, 0;
    }
  }

  class DrmFile {
    var fbs: seq<Framebuffer>
  }

  class Crtc {
    var fb: Framebuffer?
    var oldFb: Framebuffer?
    var enabled: bool
    var mode: DisplayMode
    var hwmode: DisplayMode
    var x: int
    var y: int
    const invertDimensions: bool
  }

  class Encoder {
    const possibleCrtcs: nat   // a 32-bit mask
    var crtc: Crtc?
  }

  class Connector {
    var encoder: Encoder?
    var dpms: int
    var status: Status
  }

  class Plane {
    var crtc: Crtc?
    var fb: Framebuffer?
    const formats: seq<FramebufferCheck.Format>
  }

  /** One driver callback, with what it is asked for and the result that the helpers look at; or that there was no
      memory to begin with a mode. */
  datatype Call =
    | NoMemoryForMode
    | EncoderFixup(encoder: Encoder, mode: DisplayMode, ok: bool)
    | CrtcFixup(crtc: Crtc, mode: DisplayMode, ok: bool)
    | EncoderPrepare(encoder: Encoder)
    | EncoderOff(encoder: Encoder)
    | CrtcPrepare(crtc: Crtc)
    | CrtcModeSet(crtc: Crtc, mode: DisplayMode, x: int, y: int, ok: bool)
    | EncoderModeSet(encoder: Encoder, mode: DisplayMode)
    | CrtcCommit(crtc: Crtc)
    | EncoderCommit(encoder: Encoder)
    | CrtcOff(crtc: Crtc)
    | CrtcSetBase(crtc: Crtc, x: int, y: int, ok: bool)
    | ConnectorOn(connector: Connector)

  /** The driver behind the callbacks: an arbitrary one, of which only the calls are recorded. */
  class Driver {
    var calls: seq<Call>
    const hasModeSetBase: bool
    var hwCrtc: map<Encoder, Crtc?>   // what get_crtc reports, for the encoders that have that hook

    method Record(call: Call)
      modifies this`calls
      ensures calls == old(calls) + [call]
    {
      calls := calls + [call];
    }
  }

  ghost predicate Distinct<T>(s: seq<T>) {
    forall i, j :: 0 <= i < j < |s| ==> s[i] != s[j]
  }

  lemma DistinctAt<T>(s: seq<T>, i: int)
    requires Distinct(s) && 0 <= i < |s|
    ensures forall k :: 0 <= k < |s| && k != i ==> s[k] != s[i]
  {
  }

  /** A sequence without the element at a position. */
  function Without<T>(s: seq<T>, k: int): (r: seq<T>)
    requires 0 <= k < |s|
    ensures |r| == |s| - 1
  {
    s[..k] + s[k + 1..]
  }

  /** The object lists of a device.  The lists themselves do not change while the
      mode-config lock is held, so they are constants here. */
  class ModeConfig {
    const crtcs: seq<Crtc>
    const encoders: seq<Encoder>
    const connectors: seq<Connector>

    /** Links lead to objects of this device, and a CRTC mask has a bit for each CRTC. */
    ghost predicate Valid()
      reads connectors`encoder, encoders`crtc
    {
      && Distinct(crtcs) && Distinct(encoders) && Distinct(connectors)
      && |crtcs| <= 32
      && (forall c :: c in connectors && c.encoder != null ==> c.encoder in encoders)
      && (forall e :: e in encoders && e.crtc != null ==> e.crtc in crtcs)
    }

    ghost predicate EncoderInUse(e: Encoder)
      reads connectors`encoder
    {
      exists c :: c in connectors && c.encoder == e
    }

    ghost predicate CrtcInUse(crtc: Crtc)
      reads connectors`encoder, encoders`crtc
    {
      exists e :: e in encoders && e.crtc == crtc && EncoderInUse(e)
    }

    /** The connector is routed, through its encoder, to the CRTC. */
    ghost predicate Reaches(c: Connector, crtc: Crtc)
      reads c`encoder, encoders`crtc
    {
      c.encoder != null && c.encoder in encoders && c.encoder.crtc == crtc
    }

    /** Bit i of an encoder's mask stands for the i-th CRTC of the list. */
    ghost predicate CrtcOk(e: Encoder, crtc: Crtc) {
      exists i :: 0 <= i < |crtcs| && crtcs[i] == crtc && HasBit(e.possibleCrtcs, CrtcBit(i))
    }

    /** An encoder whose mask is that of some positions can be driven by exactly the CRTCs there. */
    lemma CrtcOkIffAt(e: Encoder, crtc: Crtc, positions: set<nat>)
      requires |crtcs| <= 32 && e.possibleCrtcs == MaskOf(positions, 0, 32)
      ensures CrtcOk(e, crtc) <==> exists i :: 0 <= i < |crtcs| && crtcs[i] == crtc && i in positions
    {
      hide HasBit, CrtcBit, MaskOf;
      forall i | 0 <= i < |crtcs|
        ensures HasBit(e.possibleCrtcs, CrtcBit(i)) <==> i in positions
      {
        MaskHasBits(positions, 0, 32, i);
      }
    }

    lemma InUseIffReached(crtc: Crtc)
      requires Valid()
      ensures CrtcInUse(crtc) <==> exists c :: c in connectors && Reaches(c, crtc)
    {
      if CrtcInUse(crtc) {
        var e :| e in encoders && e.crtc == crtc && EncoderInUse(e);
        var c :| c in connectors && c.encoder == e;
        assert Reaches(c, crtc);
      }
      if c :| c in connectors && Reaches(c, crtc) {
        assert EncoderInUse(c.encoder);
      }
    }
  }

  /** The mask bit of the CRTC at a position: one, doubled once per step of the walk. */
  function CrtcBit(position: nat): (bit: nat)
    ensures bit > 0
  {
    Pow2(position)
  }

  /** The number whose binary digits, lowest first, say which of the positions from `from` to n are in the set. */
  function MaskOf(positions: set<nat>, from: nat, n: nat): nat
    decreases n - from
  {
    if from >= n then 0 else (if from in positions then 1 else 0) + 2 * MaskOf(positions, from + 1, n)
  }

  /** The bit that stands for a position is set exactly if the position is in the set. */
  lemma {:induction false} MaskHasBits(positions: set<nat>, from: nat, n: nat, k: nat)
    ensures HasBit(MaskOf(positions, from, n), CrtcBit(k)) <==> from + k < n && from + k in positions
    decreases k
  {
    var mask := MaskOf(positions, from, n);
    if k > 0 {
      NextBit(mask, Pow2(k - 1));
      if from < n {
        MaskHasBits(positions, from + 1, n, k - 1);
      } else {
        NothingHasBit(Pow2(k - 1));
      }
    }
  }

  lemma NothingHasBit(bit: nat)
    requires bit > 0
    ensures !HasBit(0, bit) && 0 / bit == 0
  {
  }

  /** A higher bit of a number is the next lower bit of its half. */
  lemma NextBit(mask: nat, bit: nat)
    requires bit > 0
    ensures HasBit(mask, 2 * bit) == HasBit(mask / 2, bit)
  {
    var q, r := mask / 2 / bit, mask / 2 % bit;
    assert mask / 2 == q * bit + r;
    assert mask == q * (2 * bit) + (2 * r + mask % 2) by {
      assert q * (2 * bit) == 2 * (q * bit);
    }
    QuotientIs(mask, 2 * bit, q, 2 * r + mask % 2);
  }

  lemma QuotientIs(m: nat, d: nat, q: nat, r: nat)
    requires d > 0 && m == q * d + r && r < d
    ensures m / d == q
  {
    var p := m / d;
    assert m == p * d + m % d;
    assert (p - q) * d == p * d - q * d;
    SmallMultiple(p - q, d);
  }

  lemma SmallMultiple(k: int, d: int)
    requires d > 0 && -d < k * d < d
    ensures k == 0
  {
  }

  /** Whether a mask has a bit set: `mask & bit`, for a bit that is a power of two. */
  predicate HasBit(mask: nat, bit: nat)
    requires bit > 0
  {
    mask / bit % 2 == 1
  }
}
