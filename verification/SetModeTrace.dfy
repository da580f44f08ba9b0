/** The order in which programming a mode calls the driver.  `TraceOf` says exactly which calls
    are made for each way the operation can end; the lemmas say what that means as a protocol. */
module SetModeTrace {
  import opened KmsObjects

  /** How programming a mode ended: skipped because nothing uses the CRTC, out of memory, refused
      by the k-th encoder or by the CRTC, failed in the CRTC's mode_set, or done. */
  datatype Outcome =
    | Skipped
    | NoMemory
    | EncoderRejected(k: nat)
    | CrtcRejected
    | SetFailed
    | Done

  /** What is to be programmed. */
  datatype Goal = Goal(crtc: Crtc, mode: DisplayMode, x: int, y: int)

  /** The encoders of a list that belong to a set, in list order. */
  function Members(es: seq<Encoder>, s: set<Encoder>): seq<Encoder> {
    if es == [] then []
    else
      var n := |es| - 1;
      Members(es[..n], s) + if es[n] in s then [es[n]] else []
  }

  /** Looking at one more encoder finds the next member, or none. */
  lemma {:induction false} MembersStep(es: seq<Encoder>, s: set<Encoder>, i: nat)
    requires i < |es|
    ensures var seen := Members(es[..i], s);
      && Members(es[..i + 1], s) == (if es[i] in s then seen + [es[i]] else seen)
      && Members(es[..i + 1], s) <= Members(es, s)
    decreases |es|
  {
    assert es[..i + 1][..i] == es[..i];
    if i + 1 < |es| {
      var shorter := es[..|es| - 1];
      MembersStep(shorter, s, i);
      assert shorter[..i + 1] == es[..i + 1];
    } else {
      assert es[..i + 1] == es;
    }
  }

  /** The encoders of a device that are routed to a CRTC. */
  ghost function Attached(cfg: ModeConfig, crtc: Crtc): set<Encoder>
    reads cfg.encoders
  {
    set e | e in cfg.encoders && e.crtc == crtc
  }

  ghost function Idle(cfg: ModeConfig): set<Encoder>
    reads cfg.encoders
  {
    set e | e in cfg.encoders && e.crtc == null
  }

  /** The encoders that the hardware reports on another CRTC than the one they are routed to. */
  ghost function Misplaced(cfg: ModeConfig, hwCrtc: map<Encoder, Crtc?>): set<Encoder>
    reads cfg.encoders
  {
    set e | e in cfg.encoders && e in hwCrtc && e.crtc != hwCrtc[e]
  }

  /** Before the CRTC is prepared, encoders without a CRTC are switched off, and so (again) are the
      misplaced ones. */
  function SwitchOffs(es: seq<Encoder>, idle: set<Encoder>, misplaced: set<Encoder>): (offs: seq<Call>)
    ensures forall c :: c in offs ==> c.EncoderOff? && c.encoder in idle + misplaced
    ensures forall e :: e in es && e in idle + misplaced ==> EncoderOff(e) in offs
  {
    if es == [] then []
    else
      var n := |es| - 1;
      SwitchOffs(es[..n], idle, misplaced)
      + (if es[n] in idle then [EncoderOff(es[n])] else [])
      + (if es[n] in misplaced then [EncoderOff(es[n])] else [])
  }

  function Fixups(att: seq<Encoder>, mode: DisplayMode): seq<Call> {
    if att == [] then [] else Fixups(att[..|att| - 1], mode) + [EncoderFixup(att[|att| - 1], mode, true)]
  }

  function Prepares(att: seq<Encoder>): seq<Call> {
    if att == [] then [] else Prepares(att[..|att| - 1]) + [EncoderPrepare(att[|att| - 1])]
  }

  function ModeSets(att: seq<Encoder>, mode: DisplayMode): seq<Call> {
    if att == [] then [] else ModeSets(att[..|att| - 1], mode) + [EncoderModeSet(att[|att| - 1], mode)]
  }

  function Commits(att: seq<Encoder>): seq<Call> {
    if att == [] then [] else Commits(att[..|att| - 1]) + [EncoderCommit(att[|att| - 1])]
  }

  lemma BlocksEmpty(s: set<Encoder>, mode: DisplayMode)
    ensures Members([], s) == []
    ensures Fixups([], mode) == [] && Prepares([]) == [] && ModeSets([], mode) == [] && Commits([]) == []
  {
  }

  lemma BlocksGrow(att: seq<Encoder>, e: Encoder, mode: DisplayMode)
    ensures Fixups(att + [e], mode) == Fixups(att, mode) + [EncoderFixup(e, mode, true)]
    ensures Prepares(att + [e]) == Prepares(att) + [EncoderPrepare(e)]
    ensures ModeSets(att + [e], mode) == ModeSets(att, mode) + [EncoderModeSet(e, mode)]
    ensures Commits(att + [e]) == Commits(att) + [EncoderCommit(e)]
  {
    assert (att + [e])[..|att|] == att;
  }

  lemma SwitchOffsEmpty(idle: set<Encoder>, misplaced: set<Encoder>)
    ensures SwitchOffs([], idle, misplaced) == []
  {
  }

  lemma SwitchOffsStep(es: seq<Encoder>, idle: set<Encoder>, misplaced: set<Encoder>, i: nat)
    requires i < |es|
    ensures SwitchOffs(es[..i + 1], idle, misplaced)
      == SwitchOffs(es[..i], idle, misplaced)
         + (if es[i] in idle then [EncoderOff(es[i])] else [])
         + (if es[i] in misplaced then [EncoderOff(es[i])] else [])
  {
    assert es[..i + 1][..i] == es[..i];
  }

  /** The calls up to and including the CRTC's prepare, after some earlier calls. */
  function Prologue(before: seq<Call>, target: Goal, att: seq<Encoder>, offs: seq<Call>): seq<Call> {
    before + Fixups(att, target.mode) + [CrtcFixup(target.crtc, target.mode, true)] + Prepares(att) + offs
    + [CrtcPrepare(target.crtc)]
  }

  function ModeSetCall(target: Goal, ok: bool): Call {
    CrtcModeSet(target.crtc, target.mode, target.x, target.y, ok)
  }

  predicate Fits(o: Outcome, att: seq<Encoder>) {
    o.EncoderRejected? ==> o.k < |att|
  }

  /** The calls made by one attempt to program a mode, after some earlier calls. */
  function TraceOf(before: seq<Call>, target: Goal, att: seq<Encoder>, offs: seq<Call>, o: Outcome): seq<Call>
    requires Fits(o, att)
  {
    match o
    case Skipped => before
    case NoMemory => before + [NoMemoryForMode]
    case EncoderRejected(k) =>
      before + Fixups(att[..k], target.mode) + [EncoderFixup(att[k], target.mode, false)]
    case CrtcRejected => before + Fixups(att, target.mode) + [CrtcFixup(target.crtc, target.mode, false)]
    case SetFailed => Prologue(before, target, att, offs) + [ModeSetCall(target, false)]
    case Done =>
      Prologue(before, target, att, offs) + [ModeSetCall(target, true)] + ModeSets(att, target.mode)
      + [CrtcCommit(target.crtc)] + Commits(att)
  }

  // ----- the protocol, stated without reference to how a trace is built

  function Phase(c: Call): nat {
    match c
    case EncoderFixup(_, _, _) => 0
    case CrtcFixup(_, _, _) => 1
    case EncoderPrepare(_) => 2
    case EncoderOff(_) => 3
    case CrtcPrepare(_) => 4
    case CrtcModeSet(_, _, _, _, _) => 5
    case EncoderModeSet(_, _) => 6
    case CrtcCommit(_) => 7
    case EncoderCommit(_) => 8
    case _ => 9
  }

  function Subject(c: Call): Encoder? {
    match c
    case EncoderFixup(e, _, _) => e
    case EncoderPrepare(e) => e
    case EncoderModeSet(e, _) => e
    case EncoderCommit(e) => e
    case _ => null
  }

  predicate Refusal(c: Call) {
    match c
    case EncoderFixup(_, _, ok) => !ok
    case CrtcFixup(_, _, ok) => !ok
    case CrtcModeSet(_, _, _, _, ok) => !ok
    case _ => false
  }

  /** The call is about the CRTC, the mode and the position that are to be programmed. */
  predicate Meant(c: Call, target: Goal) {
    match c
    case EncoderFixup(_, mode, _) => mode == target.mode
    case CrtcFixup(crtc, mode, _) => crtc == target.crtc && mode == target.mode
    case CrtcPrepare(crtc) => crtc == target.crtc
    case CrtcModeSet(crtc, mode, x, y, _) =>
      crtc == target.crtc && mode == target.mode && x == target.x && y == target.y
    case EncoderModeSet(_, mode) => mode == target.mode
    case CrtcCommit(crtc) => crtc == target.crtc
    case _ => true
  }

  /** The calls respect the phase order, and all lie in the given range of phases. */
  ghost predicate InPhaseOrder(tr: seq<Call>, lo: nat, hi: nat) {
    && (forall i :: 0 <= i < |tr| ==> lo <= Phase(tr[i]) <= hi)
    && (forall i, j :: 0 <= i < j < |tr| ==> Phase(tr[i]) <= Phase(tr[j]))
  }

  /** The encoders that the calls of one phase address, in the order of the calls. */
  function EncodersIn(tr: seq<Call>, phase: nat): seq<Encoder?> {
    if tr == [] then []
    else
      var n := |tr| - 1;
      EncodersIn(tr[..n], phase) + if Phase(tr[n]) == phase then [Subject(tr[n])] else []
  }

  lemma {:induction false} EncodersInConcat(a: seq<Call>, b: seq<Call>, phase: nat)
    ensures EncodersIn(a + b, phase) == EncodersIn(a, phase) + EncodersIn(b, phase)
  {
    if b == [] {
      assert a + b == a;
    } else {
      var n := |b| - 1;
      assert (a + b)[..|a| + n] == a + b[..n];
      EncodersInConcat(a, b[..n], phase);
    }
  }

  /** A run of accepted calls: phases from lo to hi, in order, addressing `es` in the phase looked at. */
  ghost predicate Block(tr: seq<Call>, lo: nat, hi: nat, phase: nat, es: seq<Encoder?>, target: Goal) {
    && InPhaseOrder(tr, lo, hi)
    && EncodersIn(tr, phase) == es
    && (forall c :: c in tr ==> !Refusal(c) && Meant(c, target))
  }

  /** What calls in a phase are about: each attached encoder, or the CRTC once. */
  function Expected(phase: nat, att: seq<Encoder>): seq<Encoder?> {
    if phase in {0, 2, 6, 8} then att else [null]
  }

  /** A mode was set: the calls come in phase order, each is for the CRTC, mode and position in
      question, none was refused, each encoder phase addressed exactly the encoders `es`, in list
      order, and the CRTC had each of its four calls once. */
  ghost predicate Programs(t: seq<Call>, target: Goal, es: seq<Encoder>) {
    && InPhaseOrder(t, 0, 8)
    && (forall c :: c in t ==> !Refusal(c) && Meant(c, target))
    && EncodersIn(t, 0) == EncodersIn(t, 2) == EncodersIn(t, 6) == EncodersIn(t, 8) == es
    && EncodersIn(t, 1) == EncodersIn(t, 4) == EncodersIn(t, 5) == EncodersIn(t, 7) == [null]
  }

  /** A mode was refused: the refusal is the last call.  If a fixup refused, nothing was prepared,
      programmed or committed; if mode_set failed, all had agreed and were prepared, but no encoder
      was programmed and nothing committed. */
  ghost predicate Refused(t: seq<Call>, target: Goal, es: seq<Encoder>) {
    && t != [] && Refusal(t[|t| - 1])
    && (forall i :: 0 <= i < |t| - 1 ==> !Refusal(t[i]))
    && (forall c :: c in t ==> Meant(c, target))
    && InPhaseOrder(t, 0, if t[|t| - 1].CrtcModeSet? then 5 else 1)
    && EncodersIn(t, 0) <= es
    && (Phase(t[|t| - 1]) > 0 ==> EncodersIn(t, 0) == es)
    && (t[|t| - 1].CrtcModeSet? ==> EncodersIn(t, 2) == es)
  }

  lemma Join(a: seq<Call>, b: seq<Call>, lo: nat, mid: nat, mid': nat, hi: nat, phase: nat,
             es: seq<Encoder?>, more: seq<Encoder?>, target: Goal)
    requires Block(a, lo, mid, phase, es, target) && Block(b, mid', hi, phase, more, target)
    requires lo <= mid <= mid' <= hi
    ensures Block(a + b, lo, hi, phase, es + more, target)
    ensures es == [] ==> Block(a + b, lo, hi, phase, more, target)
    ensures more == [] ==> Block(a + b, lo, hi, phase, es, target)
  {
    EncodersInConcat(a, b, phase);
    assert es == [] ==> es + more == more;
    assert more == [] ==> es + more == es;
  }

  lemma SingleBlock(c: Call, phase: nat, target: Goal)
    requires !Refusal(c) && Meant(c, target)
    ensures Block([c], Phase(c), Phase(c), phase, if phase == Phase(c) then [Subject(c)] else [], target)
  {
    var tr := [c];
    assert tr[..0] == [] && EncodersIn([], phase) == [];
    assert EncodersIn(tr, phase) == if phase == Phase(c) then [Subject(c)] else [];
  }

  /** A block of calls to encoders, one longer. */
  lemma GrowBlock(tr: seq<Call>, c: Call, phase: nat, att: seq<Encoder>, target: Goal)
    requires att != [] && !Refusal(c) && Meant(c, target) && Subject(c) == att[|att| - 1]
    requires Block(tr, Phase(c), Phase(c), phase, if phase == Phase(c) then att[..|att| - 1] else [], target)
    ensures Block(tr + [c], Phase(c), Phase(c), phase, if phase == Phase(c) then att else [], target)
  {
    hide Block;
    SingleBlock(c, phase, target);
    Join(tr, [c], Phase(c), Phase(c), Phase(c), Phase(c), phase,
         if phase == Phase(c) then att[..|att| - 1] else [],
         if phase == Phase(c) then [att[|att| - 1]] else [], target);
    assert att == att[..|att| - 1] + [att[|att| - 1]];
  }

  lemma EmptyBlock(own: nat, phase: nat, target: Goal)
    ensures Block([], own, own, phase, [], target)
  {
  }

  lemma {:induction false} FixupBlock(att: seq<Encoder>, phase: nat, target: Goal)
    ensures Block(Fixups(att, target.mode), 0, 0, phase, if phase == 0 then att else [], target)
  {
    hide Block;
    if att == [] {
      EmptyBlock(0, phase, target);
    } else {
      FixupBlock(att[..|att| - 1], phase, target);
      GrowBlock(Fixups(att[..|att| - 1], target.mode), EncoderFixup(att[|att| - 1], target.mode, true), phase, att,
                target);
    }
  }

  lemma {:induction false} PrepareBlock(att: seq<Encoder>, phase: nat, target: Goal)
    ensures Block(Prepares(att), 2, 2, phase, if phase == 2 then att else [], target)
  {
    hide Block;
    if att == [] {
      EmptyBlock(2, phase, target);
    } else {
      PrepareBlock(att[..|att| - 1], phase, target);
      GrowBlock(Prepares(att[..|att| - 1]), EncoderPrepare(att[|att| - 1]), phase, att, target);
    }
  }

  lemma {:induction false} ModeSetBlock(att: seq<Encoder>, phase: nat, target: Goal)
    ensures Block(ModeSets(att, target.mode), 6, 6, phase, if phase == 6 then att else [], target)
  {
    hide Block;
    if att == [] {
      EmptyBlock(6, phase, target);
    } else {
      ModeSetBlock(att[..|att| - 1], phase, target);
      GrowBlock(ModeSets(att[..|att| - 1], target.mode), EncoderModeSet(att[|att| - 1], target.mode), phase, att,
                target);
    }
  }

  lemma {:induction false} CommitBlock(att: seq<Encoder>, phase: nat, target: Goal)
    ensures Block(Commits(att), 8, 8, phase, if phase == 8 then att else [], target)
  {
    hide Block;
    if att == [] {
      EmptyBlock(8, phase, target);
    } else {
      CommitBlock(att[..|att| - 1], phase, target);
      GrowBlock(Commits(att[..|att| - 1]), EncoderCommit(att[|att| - 1]), phase, att, target);
    }
  }

  lemma {:induction false} OffBlock(offs: seq<Call>, phase: nat, target: Goal)
    requires forall c :: c in offs ==> c.EncoderOff?
    requires phase != 3
    ensures Block(offs, 3, 3, phase, [], target)
  {
    if offs != [] { OffBlock(offs[..|offs| - 1], phase, target); }
  }

  function Part(phase: nat, own: nat, att: seq<Encoder?>): seq<Encoder?> {
    if phase == own then att else []
  }

  lemma PrologueBlock(target: Goal, att: seq<Encoder>, offs: seq<Call>, phase: nat)
    requires forall c :: c in offs ==> c.EncoderOff?
    requires phase != 3
    ensures Block(Prologue([], target, att, offs), 0, 4, phase, if phase <= 4 then Expected(phase, att) else [], target)
  {
    hide Block;
    FixupBlock(att, phase, target);
    SingleBlock(CrtcFixup(target.crtc, target.mode, true), phase, target);
    PrepareBlock(att, phase, target);
    OffBlock(offs, phase, target);
    SingleBlock(CrtcPrepare(target.crtc), phase, target);
    assert [] + Fixups(att, target.mode) == Fixups(att, target.mode);
    JoinFive(Fixups(att, target.mode), [CrtcFixup(target.crtc, target.mode, true)], Prepares(att), offs,
             [CrtcPrepare(target.crtc)], 0, phase, Expected(phase, att), target);
  }

  /** Five blocks of consecutive phases, of which at most one has calls of the phase looked at. */
  lemma JoinFive(a: seq<Call>, b: seq<Call>, c: seq<Call>, d: seq<Call>, e: seq<Call>, lo: nat, phase: nat,
                 es: seq<Encoder?>, target: Goal)
    requires Block(a, lo, lo, phase, Part(phase, lo, es), target)
    requires Block(b, lo + 1, lo + 1, phase, Part(phase, lo + 1, es), target)
    requires Block(c, lo + 2, lo + 2, phase, Part(phase, lo + 2, es), target)
    requires Block(d, lo + 3, lo + 3, phase, Part(phase, lo + 3, es), target)
    requires Block(e, lo + 4, lo + 4, phase, Part(phase, lo + 4, es), target)
    ensures Block(a + b + c + d + e, lo, lo + 4, phase, if lo <= phase <= lo + 4 then es else [], target)
  {
    hide Block, Part;
    FiveParts(lo, phase, es);
    var p, q, r, s, t := Part(phase, lo, es), Part(phase, lo + 1, es), Part(phase, lo + 2, es), Part(phase, lo + 3, es),
      Part(phase, lo + 4, es);
    Join(a, b, lo, lo, lo + 1, lo + 1, phase, p, q, target);
    Join(a + b, c, lo, lo + 1, lo + 2, lo + 2, phase, p + q, r, target);
    Join(a + b + c, d, lo, lo + 2, lo + 3, lo + 3, phase, p + q + r, s, target);
    Join(a + b + c + d, e, lo, lo + 3, lo + 4, lo + 4, phase, p + q + r + s, t, target);
  }

  lemma FiveParts(lo: nat, phase: nat, es: seq<Encoder?>)
    ensures Part(phase, lo, es) + Part(phase, lo + 1, es) + Part(phase, lo + 2, es) + Part(phase, lo + 3, es)
      + Part(phase, lo + 4, es) == if lo <= phase <= lo + 4 then es else []
  {
  }

  lemma DonePhase(target: Goal, att: seq<Encoder>, offs: seq<Call>, phase: nat)
    requires forall c :: c in offs ==> c.EncoderOff?
    requires phase <= 8 && phase != 3
    ensures Block(TraceOf([], target, att, offs, Done), 0, 8, phase, Expected(phase, att), target)
  {
    hide Block, Prologue;
    PrologueBlock(target, att, offs, phase);
    SingleBlock(ModeSetCall(target, true), phase, target);
    ModeSetBlock(att, phase, target);
    SingleBlock(CrtcCommit(target.crtc), phase, target);
    CommitBlock(att, phase, target);
    JoinRest(Prologue([], target, att, offs), [ModeSetCall(target, true)], ModeSets(att, target.mode),
             [CrtcCommit(target.crtc)], Commits(att), phase, Expected(phase, att), target);
  }

  lemma JoinRest(a: seq<Call>, b: seq<Call>, c: seq<Call>, d: seq<Call>, e: seq<Call>, phase: nat, es: seq<Encoder?>,
                 target: Goal)
    requires Block(a, 0, 4, phase, if phase <= 4 then es else [], target)
    requires phase <= 8
    requires Block(b, 5, 5, phase, Part(phase, 5, es), target) && Block(d, 7, 7, phase, Part(phase, 7, es), target)
    requires Block(c, 6, 6, phase, Part(phase, 6, es), target) && Block(e, 8, 8, phase, Part(phase, 8, es), target)
    ensures Block(a + b + c + d + e, 0, 8, phase, es, target)
  {
    hide Block;
    var p, q, r, s, t := if phase <= 4 then es else [], Part(phase, 5, es), Part(phase, 6, es), Part(phase, 7, es),
      Part(phase, 8, es);
    Join(a, b, 0, 4, 5, 5, phase, p, q, target);
    Join(a + b, c, 0, 5, 6, 6, phase, p + q, r, target);
    Join(a + b + c, d, 0, 6, 7, 7, phase, p + q + r, s, target);
    Join(a + b + c + d, e, 0, 7, 8, 8, phase, p + q + r + s, t, target);
    assert p + q + r + s + t == es;
  }

  lemma DoneFollowsProtocol(target: Goal, att: seq<Encoder>, offs: seq<Call>)
    requires forall c :: c in offs ==> c.EncoderOff?
    ensures Programs(TraceOf([], target, att, offs, Done), target, att)
  {
    hide TraceOf;
    DonePhase(target, att, offs, 0);
    DonePhase(target, att, offs, 1);
    DonePhase(target, att, offs, 2);
    DonePhase(target, att, offs, 4);
    DonePhase(target, att, offs, 5);
    DonePhase(target, att, offs, 6);
    DonePhase(target, att, offs, 7);
    DonePhase(target, att, offs, 8);
  }

  lemma RefusalEndsTrace(target: Goal, att: seq<Encoder>, offs: seq<Call>, o: Outcome)
    requires Fits(o, att)
    requires forall c :: c in offs ==> c.EncoderOff?
    requires o.EncoderRejected? || o.CrtcRejected? || o.SetFailed?
    ensures Refused(TraceOf([], target, att, offs, o), target, att)
  {
    hide Block, Prologue, Refused;
    match o
    case EncoderRejected(k) =>
      FixupBlock(att[..k], 0, target);
      assert [] + Fixups(att[..k], target.mode) == Fixups(att[..k], target.mode);
      RefusedFixup([] + Fixups(att[..k], target.mode), EncoderFixup(att[k], target.mode, false), target, att, att[..k]);
    case CrtcRejected =>
      FixupBlock(att, 0, target);
      assert [] + Fixups(att, target.mode) == Fixups(att, target.mode);
      RefusedFixup([] + Fixups(att, target.mode), CrtcFixup(target.crtc, target.mode, false), target, att, att);
    case SetFailed =>
      PrologueBlock(target, att, offs, 0);
      PrologueBlock(target, att, offs, 2);
      RefusedModeSet(Prologue([], target, att, offs), ModeSetCall(target, false), target, att);
  }

  lemma RefusedFixup(tr: seq<Call>, c: Call, target: Goal, es: seq<Encoder>, seen: seq<Encoder>)
    requires Block(tr, 0, 0, 0, seen, target) && seen <= es
    requires Refusal(c) && Meant(c, target) && Phase(c) <= 1
    requires if c.EncoderFixup? then |seen| < |es| && c.encoder == es[|seen|] else seen == es
    ensures Refused(tr + [c], target, es)
  {
    var t := tr + [c];
    assert t[..|t| - 1] == tr;
    assert EncodersIn(t, 0) == seen + if Phase(c) == 0 then [Subject(c)] else [];
  }

  lemma RefusedModeSet(tr: seq<Call>, c: Call, target: Goal, es: seq<Encoder>)
    requires Block(tr, 0, 4, 0, es, target) && Block(tr, 0, 4, 2, es, target)
    requires Refusal(c) && Meant(c, target) && c.CrtcModeSet?
    ensures Refused(tr + [c], target, es)
  {
    var t := tr + [c];
    assert t[..|t| - 1] == tr;
    assert EncodersIn(t, 0) == es && EncodersIn(t, 2) == es;
  }

  /** The calls of an attempt are appended to the calls made before it. */
  lemma TraceAppends(before: seq<Call>, target: Goal, att: seq<Encoder>, offs: seq<Call>, o: Outcome)
    requires Fits(o, att)
    ensures TraceOf(before, target, att, offs, o) == before + TraceOf([], target, att, offs, o)
  {
    if o.SetFailed? || o.Done? {
      PrologueAppends(before, target, att, offs);
      var p := Prologue([], target, att, offs);
      var c := [ModeSetCall(target, o.Done?)];
      assert before + p + c == before + (p + c);
      if o.Done? {
        Regroup(before, p + c, ModeSets(att, target.mode), [CrtcCommit(target.crtc)], Commits(att));
      }
    } else if o.EncoderRejected? {
      Regroup(before, [], [], Fixups(att[..o.k], target.mode), [EncoderFixup(att[o.k], target.mode, false)]);
    } else if o.CrtcRejected? {
      Regroup(before, [], [], Fixups(att, target.mode), [CrtcFixup(target.crtc, target.mode, false)]);
    }
  }

  lemma PrologueAppends(before: seq<Call>, target: Goal, att: seq<Encoder>, offs: seq<Call>)
    ensures Prologue(before, target, att, offs) == before + Prologue([], target, att, offs)
  {
    var fix := [CrtcFixup(target.crtc, target.mode, true)];
    Regroup(before, [], Fixups(att, target.mode), fix, Prepares(att));
    var t := [] + Fixups(att, target.mode) + fix + Prepares(att);
    Regroup(before, t, [], offs, [CrtcPrepare(target.crtc)]);
  }

  lemma Regroup(a: seq<Call>, b: seq<Call>, c: seq<Call>, d: seq<Call>, e: seq<Call>)
    ensures a + b + c + d + e == a + (b + c + d + e)
    ensures b == [] ==> a + b == a
    ensures c == [] ==> a + b + c == a + b && b + c == b
  {
  }

  // ----- switching off

  function CrtcOffs(crtcs: seq<Crtc>, unused: set<Crtc>): (offs: seq<Call>)
    ensures forall c :: c in offs ==> c.CrtcOff? && c.crtc in unused
    ensures forall c :: c in crtcs && c in unused ==> CrtcOff(c) in offs
  {
    if crtcs == [] then []
    else
      var n := |crtcs| - 1;
      CrtcOffs(crtcs[..n], unused) + if crtcs[n] in unused then [CrtcOff(crtcs[n])] else []
  }

  lemma CrtcOffsEmpty(unused: set<Crtc>)
    ensures CrtcOffs([], unused) == []
  {
  }

  lemma CrtcOffsStep(crtcs: seq<Crtc>, unused: set<Crtc>, i: nat)
    requires i < |crtcs|
    ensures CrtcOffs(crtcs[..i + 1], unused)
      == CrtcOffs(crtcs[..i], unused) + if crtcs[i] in unused then [CrtcOff(crtcs[i])] else []
  {
    assert crtcs[..i + 1][..i] == crtcs[..i];
  }

  /** The calls of a clean-up: they switch off exactly these encoders and CRTCs, encoders first. */
  ghost predicate CleanUp(offs: seq<Call>, encoders: set<Encoder>, crtcs: set<Crtc>) {
    && (forall c :: c in offs ==> (c.EncoderOff? && c.encoder in encoders) || (c.CrtcOff? && c.crtc in crtcs))
    && (forall e :: e in encoders ==> EncoderOff(e) in offs)
    && (forall c :: c in crtcs ==> CrtcOff(c) in offs)
    && (forall i, j :: 0 <= i < j < |offs| && offs[i].CrtcOff? ==> offs[j].CrtcOff?)
  }

  /** The encoders that were switched off on the way are exactly the given ones. */
  lemma OffsInTrace(target: Goal, att: seq<Encoder>, offs: seq<Call>, o: Outcome)
    requires Fits(o, att) && (o.Done? || o.SetFailed?)
    ensures forall e :: EncoderOff(e) in TraceOf([], target, att, offs, o) <==> EncoderOff(e) in offs
  {
    hide Fixups, Prepares, ModeSets, Commits, Block, InPhaseOrder;
    FixupBlock(att, 0, target);
    PrepareBlock(att, 0, target);
    ModeSetBlock(att, 0, target);
    CommitBlock(att, 0, target);
    NoOffs(Fixups(att, target.mode), 0, 0, att, target);
    NoOffs(Prepares(att), 2, 0, [], target);
    NoOffs(ModeSets(att, target.mode), 6, 0, [], target);
    NoOffs(Commits(att), 8, 0, [], target);
  }

  lemma NoOffs(tr: seq<Call>, own: nat, phase: nat, es: seq<Encoder?>, target: Goal)
    requires Block(tr, own, own, phase, es, target) && own != 3
    ensures forall e :: EncoderOff(e) !in tr
  {
  }

  // ----- the calls of a transaction

  function Ons(connectors: seq<Connector>): (ons: seq<Call>)
    ensures |ons| == |connectors| && forall i :: 0 <= i < |ons| ==> ons[i] == ConnectorOn(connectors[i])
  {
    seq(|connectors|, i requires 0 <= i < |connectors| => ConnectorOn(connectors[i]))
  }

  /** The calls since `before` are those of a CRTC that was programmed, and then of each connector
      that was switched on. */
  ghost predicate ProgrammedAndOn(before: seq<Call>, after: seq<Call>, target: Goal, es: seq<Encoder>,
                                  connectors: seq<Connector>) {
    && |before| + |connectors| <= |after| && before <= after
    && var m := |after| - |connectors|;
      Programs(after[|before|..m], target, es) && after[m..] == Ons(connectors)
  }

  /** The calls since `before` are those of an attempt that failed. */
  ghost predicate FailedAttempt(before: seq<Call>, after: seq<Call>, target: Goal, es: seq<Encoder>) {
    && before <= after
    && (after[|before|..] == [NoMemoryForMode] || Refused(after[|before|..], target, es))
  }

  /** A full mode set that worked: if something uses the CRTC, it is programmed and its connectors
      are switched on; then what is not in use is switched off. */
  ghost predicate FullModeSet(before: seq<Call>, after: seq<Call>, used: bool, target: Goal, es: seq<Encoder>,
                              connectors: seq<Connector>, encoders: set<Encoder>, crtcs: set<Crtc>) {
    exists m: nat ::
      && |before| <= m <= |after| && before <= after
      && (if used then ProgrammedAndOn(before, after[..m], target, es, connectors) else m == |before|)
      && CleanUp(after[m..], encoders, crtcs)
  }

  /** Going back after a full mode set: if something uses the CRTC, one attempt at the old mode. */
  ghost predicate WentBack(before: seq<Call>, after: seq<Call>, used: bool, target: Goal, es: seq<Encoder>) {
    if used then
      FailedAttempt(before, after, target, es) || (before <= after && Programs(after[|before|..], target, es))
    else before == after
  }

  /** A full mode set that failed: its own attempt, if the routing was allowed, then the way back. */
  ghost predicate FailedModeSet(before: seq<Call>, after: seq<Call>, routed: bool, target: Goal, es: seq<Encoder>,
                                oldUsed: bool, oldTarget: Goal, oldEs: seq<Encoder>) {
    exists m: nat ::
      && m <= |after|
      && (if routed then FailedAttempt(before, after[..m], target, es) else after[..m] == before)
      && WentBack(after[..m], after, oldUsed, oldTarget, oldEs)
  }
}
