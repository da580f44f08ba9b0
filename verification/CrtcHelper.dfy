/** The CRTC helper: routing connectors to CRTCs, programming a mode, and turning a mode-set
    request into either a complete new configuration or the old one. */
module CrtcHelper {
  import opened KmsObjects
  import opened SetModeTrace

  method EncoderInUse(cfg: ModeConfig, e: Encoder) returns (inUse: bool)
    ensures inUse == cfg.EncoderInUse(e)
  {
    for i := 0 to |cfg.connectors|
      invariant forall k :: 0 <= k < i ==> cfg.connectors[k].encoder != e
    {
      if cfg.connectors[i].encoder == e {
        assert cfg.connectors[i] in cfg.connectors;
        return true;
      }
    }
    return false;
  }

  method CrtcInUse(cfg: ModeConfig, crtc: Crtc) returns (inUse: bool)
    ensures inUse == cfg.CrtcInUse(crtc)
  {
    for i := 0 to |cfg.encoders|
      invariant forall k :: 0 <= k < i ==> !(cfg.encoders[k].crtc == crtc && cfg.EncoderInUse(cfg.encoders[k]))
    {
      if cfg.encoders[i].crtc == crtc {
        var used := EncoderInUse(cfg, cfg.encoders[i]);
        if used {
          assert cfg.encoders[i] in cfg.encoders;
          return true;
        }
      }
    }
    return false;
  }

  /** The mask bit of a CRTC: walk the list to its position, shifting as we go. */
  method CrtcMask(cfg: ModeConfig, crtc: Crtc) returns (mask: nat, ghost position: nat)
    requires crtc in cfg.crtcs
    ensures position < |cfg.crtcs| && cfg.crtcs[position] == crtc
    ensures mask == CrtcBit(position) > 0
  {
    mask, position := 1, 0;
    for i := 0 to |cfg.crtcs|
      invariant position == i && mask == CrtcBit(position)
      invariant forall k :: 0 <= k < i ==> cfg.crtcs[k] != crtc
    {
      if cfg.crtcs[i] == crtc {
        return;
      }
      mask, position := 2 * mask, position + 1;
    }
  }

  /** Whether the encoder's mask admits the CRTC. */
  method EncoderCrtcOk(cfg: ModeConfig, e: Encoder, crtc: Crtc) returns (ok: bool)
    requires Distinct(cfg.crtcs)
    requires crtc in cfg.crtcs
    ensures ok == cfg.CrtcOk(e, crtc)
  {
    var crtcMask, position := CrtcMask(cfg, crtc);
    ok := HasBit(e.possibleCrtcs, crtcMask);
    assert ok == HasBit(e.possibleCrtcs, CrtcBit(position));
  }

  /** First step of the clean-up: disconnected connectors lose their encoder. */
  method UnrouteDisconnected(cfg: ModeConfig)
    requires cfg.Valid()
    modifies cfg.connectors`encoder
    ensures cfg.Valid()
    ensures forall c :: c in cfg.connectors ==>
      c.encoder == if c.status == Disconnected then null else old(c.encoder)
  {
    for i := 0 to |cfg.connectors|
      invariant forall k :: 0 <= k < |cfg.connectors| ==>
        cfg.connectors[k].encoder ==
        if k < i && cfg.connectors[k].status == Disconnected then null else old(cfg.connectors[k].encoder)
    {
      var connector := cfg.connectors[i];
      if connector.encoder != null && connector.status == Disconnected {
        connector.encoder := null;
      }
    }
  }

  ghost function UnusedEncoders(cfg: ModeConfig): set<Encoder>
    reads cfg.connectors`encoder
  {
    set e | e in cfg.encoders && !cfg.EncoderInUse(e)
  }

  /** The CRTCs that no encoder in use is routed to. */
  ghost function UnusedCrtcs(cfg: ModeConfig): set<Crtc>
    reads cfg.connectors`encoder, cfg.encoders`crtc
  {
    set c | c in cfg.crtcs && !cfg.CrtcInUse(c)
  }

  /** Second step: encoders without a connector are switched off and lose their CRTC. */
  method UnrouteUnusedEncoders(cfg: ModeConfig, drv: Driver)
    requires cfg.Valid()
    modifies cfg.encoders`crtc, drv`calls
    ensures cfg.Valid()
    ensures forall e :: e in cfg.encoders ==>
      e.crtc == if cfg.EncoderInUse(e) then old(e.crtc) else null
    ensures drv.calls == old(drv.calls) + SwitchOffs(cfg.encoders, UnusedEncoders(cfg), {})
  {
    hide SwitchOffs;
    ghost var unused := UnusedEncoders(cfg);
    SwitchOffsEmpty(unused, {});
    assert cfg.encoders[..0] == [];
    for i := 0 to |cfg.encoders|
      invariant forall k :: 0 <= k < i ==>
        cfg.encoders[k].crtc == if cfg.EncoderInUse(cfg.encoders[k]) then old(cfg.encoders[k].crtc) else null
      invariant forall k :: i <= k < |cfg.encoders| ==> cfg.encoders[k].crtc == old(cfg.encoders[k].crtc)
      invariant drv.calls == old(drv.calls) + SwitchOffs(cfg.encoders[..i], unused, {})
    {
      SwitchOffsStep(cfg.encoders, unused, {}, i);
      var used := EncoderInUse(cfg, cfg.encoders[i]);
      if !used {
        drv.Record(EncoderOff(cfg.encoders[i]));
        cfg.encoders[i].crtc := null;
      }
    }
    assert cfg.encoders[..|cfg.encoders|] == cfg.encoders;
  }

  /** Third step: CRTCs that nothing reaches are switched off and show nothing. */
  method SwitchOffUnusedCrtcs(cfg: ModeConfig, drv: Driver)
    requires cfg.Valid()
    modifies cfg.crtcs`enabled, cfg.crtcs`fb, drv`calls
    ensures cfg.Valid()
    ensures forall c :: c in cfg.crtcs ==> c.enabled == cfg.CrtcInUse(c)
    ensures forall c :: c in cfg.crtcs ==> c.fb == if c.enabled then old(c.fb) else null
    ensures drv.calls == old(drv.calls) + CrtcOffs(cfg.crtcs, UnusedCrtcs(cfg))
  {
    hide ModeConfig.CrtcInUse, ModeConfig.EncoderInUse, CrtcOffs;
    ghost var unused := UnusedCrtcs(cfg);
    CrtcOffsEmpty(unused);
    assert cfg.crtcs[..0] == [];
    for i := 0 to |cfg.crtcs|
      invariant forall k :: 0 <= k < i ==> cfg.crtcs[k].enabled == cfg.CrtcInUse(cfg.crtcs[k])
      invariant forall k :: 0 <= k < i ==>
        cfg.crtcs[k].fb == if cfg.crtcs[k].enabled then old(cfg.crtcs[k].fb) else null
      invariant forall k :: i <= k < |cfg.crtcs| ==> cfg.crtcs[k].fb == old(cfg.crtcs[k].fb)
      invariant drv.calls == old(drv.calls) + CrtcOffs(cfg.crtcs[..i], unused)
    {
      CrtcOffsStep(cfg.crtcs, unused, i);
      var crtc := cfg.crtcs[i];
      crtc.enabled := CrtcInUse(cfg, crtc);
      if !crtc.enabled {
        drv.Record(CrtcOff(crtc));
        crtc.fb := null;
      }
    }
    assert cfg.crtcs[..|cfg.crtcs|] == cfg.crtcs;
  }

  /** Unroute and switch off whatever is not in use. */
  method DisableUnused(cfg: ModeConfig, drv: Driver)
    requires cfg.Valid()
    modifies cfg.connectors`encoder, cfg.encoders`crtc, cfg.crtcs`enabled, cfg.crtcs`fb, drv`calls
    ensures cfg.Valid()
    ensures forall c :: c in cfg.connectors ==>
      c.encoder == if c.status == Disconnected then null else old(c.encoder)
    ensures forall e :: e in cfg.encoders ==>
      e.crtc == if cfg.EncoderInUse(e) then old(e.crtc) else null
    ensures forall c :: c in cfg.crtcs ==> c.enabled == cfg.CrtcInUse(c)
    ensures forall c :: c in cfg.crtcs ==> c.fb == if c.enabled then old(c.fb) else null
    ensures forall c :: c in cfg.crtcs && c.enabled ==> old(cfg.CrtcInUse(c))
    ensures old(drv.calls) <= drv.calls
    ensures CleanUp(drv.calls[|old(drv.calls)|..], UnusedEncoders(cfg), UnusedCrtcs(cfg))
  {
    hide SwitchOffs, CrtcOffs, CleanUp, UnusedEncoders, UnusedCrtcs;
    ghost var before := drv.calls;
    UnrouteDisconnected(cfg);
    UnrouteUnusedEncoders(cfg, drv);
    SwitchOffUnusedCrtcs(cfg, drv);
    CleanUpCalls(cfg, before, drv.calls);
  }

  lemma CleanUpCalls(cfg: ModeConfig, before: seq<Call>, after: seq<Call>)
    requires after == before + SwitchOffs(cfg.encoders, UnusedEncoders(cfg), {}) + CrtcOffs(cfg.crtcs, UnusedCrtcs(cfg))
    ensures before <= after && CleanUp(after[|before|..], UnusedEncoders(cfg), UnusedCrtcs(cfg))
  {
    hide SwitchOffs, CrtcOffs, ModeConfig.EncoderInUse, ModeConfig.CrtcInUse;
    var a, b := SwitchOffs(cfg.encoders, UnusedEncoders(cfg), {}), CrtcOffs(cfg.crtcs, UnusedCrtcs(cfg));
    var offs := after[|before|..];
    assert offs == a + b;
    assert forall k :: 0 <= k < |a| ==> a[k].EncoderOff?;
    forall i, j | 0 <= i < j < |offs| && offs[i].CrtcOff?
      ensures offs[j].CrtcOff?
    {
      assert i >= |a|;
      assert offs[j] == b[j - |a|];
    }
  }

  /** Take an encoder off all its connectors. */
  method DetachEncoder(cfg: ModeConfig, e: Encoder)
    requires cfg.Valid()
    modifies cfg.connectors`encoder
    ensures cfg.Valid()
    ensures forall c :: c in cfg.connectors ==> c.encoder == if old(c.encoder) == e then null else old(c.encoder)
  {
    for i := 0 to |cfg.connectors|
      invariant forall k :: 0 <= k < |cfg.connectors| ==>
        cfg.connectors[k].encoder ==
        if k < i && old(cfg.connectors[k].encoder) == e then null else old(cfg.connectors[k].encoder)
    {
      if cfg.connectors[i].encoder == e {
        cfg.connectors[i].encoder := null;
      }
    }
  }

  /** Switch a CRTC off: decouple its encoders from their connectors and clean up.  Afterwards
      nothing reaches the CRTC and it shows nothing. */
  method Disable(cfg: ModeConfig, drv: Driver, crtc: Crtc)
    requires cfg.Valid() && crtc in cfg.crtcs
    modifies cfg.connectors`encoder, cfg.encoders`crtc, cfg.crtcs`enabled, cfg.crtcs`fb, drv`calls
    ensures cfg.Valid()
    ensures forall c :: c in cfg.connectors ==>
      c.encoder == if c.status == Disconnected || old(cfg.Reaches(c, crtc)) then null else old(c.encoder)
    ensures forall e :: e in cfg.encoders ==> e.crtc == if cfg.EncoderInUse(e) then old(e.crtc) else null
    ensures forall c :: c in cfg.crtcs ==> c.enabled == cfg.CrtcInUse(c)
    ensures forall c :: c in cfg.crtcs ==> c.fb == if c.enabled then old(c.fb) else null
    ensures !crtc.enabled && crtc.fb == null
    ensures old(drv.calls) <= drv.calls
    ensures CleanUp(drv.calls[|old(drv.calls)|..], UnusedEncoders(cfg), UnusedCrtcs(cfg))
  {
    hide CleanUp, UnusedEncoders, UnusedCrtcs;
    for i := 0 to |cfg.encoders|
      modifies cfg.connectors`encoder
      invariant cfg.Valid()
      invariant forall c :: c in cfg.connectors ==>
        c.encoder == if Cleared(cfg, i, old(c.encoder), crtc) then null else old(c.encoder)
    {
      if cfg.encoders[i].crtc == crtc {
        DetachEncoder(cfg, cfg.encoders[i]);
      }
    }
    assert forall c :: c in cfg.connectors ==>
      c.encoder == if old(cfg.Reaches(c, crtc)) then null else old(c.encoder);
    DisableUnused(cfg, drv);
    assert forall c :: c in cfg.connectors ==> !cfg.Reaches(c, crtc);
    cfg.InUseIffReached(crtc);
  }

  /** The encoder is among the first n and routed to the CRTC. */
  ghost predicate Cleared(cfg: ModeConfig, n: nat, e: Encoder?, crtc: Crtc)
    requires n <= |cfg.encoders|
    reads cfg.encoders
  {
    exists k :: 0 <= k < n && cfg.encoders[k] == e && cfg.encoders[k].crtc == crtc
  }

  /** Ask each attached encoder to accept the mode, up to the first refusal. */
  method FixupEncoders(cfg: ModeConfig, drv: Driver, crtc: Crtc, mode: DisplayMode, ghost att: set<Encoder>)
    returns (ok: bool, ghost k: nat)
    requires att == Attached(cfg, crtc)
    modifies drv`calls
    ensures var es := Members(cfg.encoders, att);
      && (ok ==> drv.calls == old(drv.calls) + Fixups(es, mode))
      && (!ok ==> k < |es| && drv.calls == old(drv.calls) + Fixups(es[..k], mode) + [EncoderFixup(es[k], mode, false)])
  {
    hide Members, Fixups;
    k := 0;
    assert cfg.encoders[..0] == [];
    BlocksEmpty(att, mode);
    for i := 0 to |cfg.encoders|
      invariant k == |Members(cfg.encoders[..i], att)|
      invariant drv.calls == old(drv.calls) + Fixups(Members(cfg.encoders[..i], att), mode)
    {
      MembersStep(cfg.encoders, att, i);
      BlocksGrow(Members(cfg.encoders[..i], att), cfg.encoders[i], mode);
      if cfg.encoders[i].crtc == crtc {
        ok := *;
        drv.Record(EncoderFixup(cfg.encoders[i], mode, ok));
        if !ok {
          assert Members(cfg.encoders, att)[..k] == Members(cfg.encoders[..i], att);
          return;
        }
        k := k + 1;
      }
    }
    assert cfg.encoders[..|cfg.encoders|] == cfg.encoders;
    ok := true;
  }

  method PrepareEncoders(cfg: ModeConfig, drv: Driver, crtc: Crtc, ghost att: set<Encoder>)
    requires att == Attached(cfg, crtc)
    modifies drv`calls
    ensures drv.calls == old(drv.calls) + Prepares(Members(cfg.encoders, att))
  {
    hide Members, Prepares;
    assert cfg.encoders[..0] == [];
    BlocksEmpty(att, crtc.mode);
    for i := 0 to |cfg.encoders|
      invariant drv.calls == old(drv.calls) + Prepares(Members(cfg.encoders[..i], att))
    {
      MembersStep(cfg.encoders, att, i);
      BlocksGrow(Members(cfg.encoders[..i], att), cfg.encoders[i], crtc.mode);
      if cfg.encoders[i].crtc == crtc {
        drv.Record(EncoderPrepare(cfg.encoders[i]));
      }
    }
    assert cfg.encoders[..|cfg.encoders|] == cfg.encoders;
  }

  /** Switch off encoders that have no CRTC or whose CRTC is about to change. */
  method PrepareOtherEncoders(cfg: ModeConfig, drv: Driver, ghost idle: set<Encoder>, ghost misplaced: set<Encoder>)
    requires idle == Idle(cfg) && misplaced == Misplaced(cfg, drv.hwCrtc)
    modifies drv`calls
    ensures drv.calls == old(drv.calls) + SwitchOffs(cfg.encoders, idle, misplaced)
  {
    hide SwitchOffs;
    SwitchOffsEmpty(idle, misplaced);
    assert cfg.encoders[..0] == [];
    for i := 0 to |cfg.encoders|
      invariant drv.calls == old(drv.calls) + SwitchOffs(cfg.encoders[..i], idle, misplaced)
    {
      var e := cfg.encoders[i];
      ghost var before := drv.calls;
      SwitchOffsStep(cfg.encoders, idle, misplaced, i);
      if e.crtc == null {
        drv.Record(EncoderOff(e));
      }
      if e in drv.hwCrtc && e.crtc != drv.hwCrtc[e] {
        drv.Record(EncoderOff(e));
      }
    }
    assert cfg.encoders[..|cfg.encoders|] == cfg.encoders;
  }

  method SetEncoderModes(cfg: ModeConfig, drv: Driver, crtc: Crtc, mode: DisplayMode, ghost att: set<Encoder>)
    requires att == Attached(cfg, crtc)
    modifies drv`calls
    ensures drv.calls == old(drv.calls) + ModeSets(Members(cfg.encoders, att), mode)
  {
    hide Members, ModeSets;
    assert cfg.encoders[..0] == [];
    BlocksEmpty(att, mode);
    for i := 0 to |cfg.encoders|
      invariant drv.calls == old(drv.calls) + ModeSets(Members(cfg.encoders[..i], att), mode)
    {
      MembersStep(cfg.encoders, att, i);
      BlocksGrow(Members(cfg.encoders[..i], att), cfg.encoders[i], mode);
      if cfg.encoders[i].crtc == crtc {
        drv.Record(EncoderModeSet(cfg.encoders[i], mode));
      }
    }
    assert cfg.encoders[..|cfg.encoders|] == cfg.encoders;
  }

  method CommitEncoders(cfg: ModeConfig, drv: Driver, crtc: Crtc, ghost att: set<Encoder>)
    requires att == Attached(cfg, crtc)
    modifies drv`calls
    ensures drv.calls == old(drv.calls) + Commits(Members(cfg.encoders, att))
  {
    hide Members, Commits;
    assert cfg.encoders[..0] == [];
    BlocksEmpty(att, crtc.mode);
    for i := 0 to |cfg.encoders|
      invariant drv.calls == old(drv.calls) + Commits(Members(cfg.encoders[..i], att))
    {
      MembersStep(cfg.encoders, att, i);
      BlocksGrow(Members(cfg.encoders[..i], att), cfg.encoders[i], crtc.mode);
      if cfg.encoders[i].crtc == crtc {
        drv.Record(EncoderCommit(cfg.encoders[i]));
      }
    }
    assert cfg.encoders[..|cfg.encoders|] == cfg.encoders;
  }

  /** The calls of one attempt, in terms of the routing before it. */
  ghost function Calls(cfg: ModeConfig, before: seq<Call>, target: Goal, att: set<Encoder>, idle: set<Encoder>,
                       misplaced: set<Encoder>, outcome: Outcome): seq<Call>
    requires Fits(outcome, Members(cfg.encoders, att))
  {
    TraceOf(before, target, Members(cfg.encoders, att), SwitchOffs(cfg.encoders, idle, misplaced), outcome)
  }

  /** What an attempt records.  The new calls come after the earlier ones.  Those of a mode that was
      set keep the order of the phases and have every attached encoder in each of its four
      phases, and switch off exactly the idle and misplaced encoders; otherwise a refusal, if there
      was one, is the last of them. */
  lemma CallsFollowProtocol(cfg: ModeConfig, before: seq<Call>, target: Goal, att: set<Encoder>, idle: set<Encoder>,
                            misplaced: set<Encoder>, o: Outcome)
    requires Fits(o, Members(cfg.encoders, att)) && idle <= (set e | e in cfg.encoders)
    requires misplaced <= (set e | e in cfg.encoders)
    ensures Calls(cfg, before, target, att, idle, misplaced, o)
      == before + Calls(cfg, [], target, att, idle, misplaced, o)
    ensures o.Skipped? ==> Calls(cfg, [], target, att, idle, misplaced, o) == []
    ensures o.NoMemory? ==> Calls(cfg, [], target, att, idle, misplaced, o) == [NoMemoryForMode]
    ensures o.Done? ==> Programs(Calls(cfg, [], target, att, idle, misplaced, o), target, Members(cfg.encoders, att))
    ensures o.Done? ==>
      forall e :: EncoderOff(e) in Calls(cfg, [], target, att, idle, misplaced, o) <==> e in idle || e in misplaced
    ensures o.EncoderRejected? || o.CrtcRejected? || o.SetFailed? ==>
      Refused(Calls(cfg, [], target, att, idle, misplaced, o), target, Members(cfg.encoders, att))
  {
    var es, offs := Members(cfg.encoders, att), SwitchOffs(cfg.encoders, idle, misplaced);
    NothingCalled(target, es, offs);
    hide Block, Programs, Refused, TraceOf, Members;
    TraceAppends(before, target, es, offs, o);
    if o.Done? {
      DoneFollowsProtocol(target, es, offs);
      OffsInTrace(target, es, offs, o);
    } else if o.EncoderRejected? || o.CrtcRejected? || o.SetFailed? {
      RefusalEndsTrace(target, es, offs, o);
    }
  }

  lemma NothingCalled(target: Goal, es: seq<Encoder>, offs: seq<Call>)
    ensures TraceOf([], target, es, offs, Skipped) == [] && TraceOf([], target, es, offs, NoMemory) == [NoMemoryForMode]
  {
  }

  lemma CallsNone(cfg: ModeConfig, before: seq<Call>, target: Goal, att: set<Encoder>, idle: set<Encoder>,
                  misplaced: set<Encoder>)
    ensures Calls(cfg, before, target, att, idle, misplaced, Skipped) == before
    ensures Calls(cfg, before, target, att, idle, misplaced, NoMemory) == before + [NoMemoryForMode]
  {
  }

  /** The callback phases, once the new mode is stored in the CRTC. */
  method ProgramCrtc(cfg: ModeConfig, drv: Driver, crtc: Crtc, mode: DisplayMode, x: int, y: int,
                     ghost att: set<Encoder>, ghost idle: set<Encoder>, ghost misplaced: set<Encoder>)
    returns (ok: bool, ghost outcome: Outcome)
    requires att == Attached(cfg, crtc) && idle == Idle(cfg) && misplaced == Misplaced(cfg, drv.hwCrtc)
    modifies crtc`hwmode, drv`calls
    ensures outcome.Done? || outcome.EncoderRejected? || outcome.CrtcRejected? || outcome.SetFailed?
    ensures ok == outcome.Done? && Fits(outcome, Members(cfg.encoders, att))
    ensures drv.calls == Calls(cfg, old(drv.calls), Goal(crtc, mode, x, y), att, idle, misplaced, outcome)
  {
    hide Members, Fixups, Prepares, SwitchOffs, ModeSets, Commits, Attached, Idle, Misplaced;
    ghost var k;
    ok, k := FixupEncoders(cfg, drv, crtc, mode, att);
    if !ok {
      return false, EncoderRejected(k);
    }
    ok := *;
    drv.Record(CrtcFixup(crtc, mode, ok));
    if !ok {
      return false, CrtcRejected;
    }
    PrepareEncoders(cfg, drv, crtc, att);
    PrepareOtherEncoders(cfg, drv, idle, misplaced);
    drv.Record(CrtcPrepare(crtc));
    ok := *;
    drv.Record(CrtcModeSet(crtc, mode, x, y, ok));
    if !ok {
      return false, SetFailed;
    }
    SetEncoderModes(cfg, drv, crtc, mode, att);
    drv.Record(CrtcCommit(crtc));
    CommitEncoders(cfg, drv, crtc, att);
    crtc.hwmode := *;   // the mode as the fixups adjusted it
    outcome := Done;
  }

  /** Program a mode on a CRTC.  The driver may refuse at the fixups or fail in mode_set; then
      the CRTC's mode, hardware mode and position are what they were. */
  method SetMode(cfg: ModeConfig, drv: Driver, crtc: Crtc, mode: DisplayMode, x: int, y: int)
    returns (ok: bool, ghost outcome: Outcome)
    modifies crtc`enabled, crtc`mode, crtc`hwmode, crtc`x, crtc`y, drv`calls
    ensures crtc.enabled == old(cfg.CrtcInUse(crtc))
    ensures ok == (outcome.Skipped? || outcome.Done?)
    ensures crtc.enabled == !outcome.Skipped?
    ensures outcome.Done? ==> crtc.mode == mode && crtc.x == x && crtc.y == y
    ensures !outcome.Done? ==>
      && crtc.mode == old(crtc.mode) && crtc.hwmode == old(crtc.hwmode)
      && crtc.x == old(crtc.x) && crtc.y == old(crtc.y)
    ensures Fits(outcome, Members(cfg.encoders, old(Attached(cfg, crtc))))
    ensures drv.calls == Calls(cfg, old(drv.calls), Goal(crtc, mode, x, y), old(Attached(cfg, crtc)), old(Idle(cfg)),
                               old(Misplaced(cfg, drv.hwCrtc)), outcome)
  {
    hide Calls, Attached, Idle, Misplaced, Members;
    ghost var att, idle, misplaced := Attached(cfg, crtc), Idle(cfg), Misplaced(cfg, drv.hwCrtc);
    crtc.enabled := CrtcInUse(cfg, crtc);
    CallsNone(cfg, drv.calls, Goal(crtc, mode, x, y), att, idle, misplaced);
    if !crtc.enabled {
      return true, Skipped;
    }
    var haveMemory: bool := *;
    if !haveMemory {
      drv.Record(NoMemoryForMode);
      return false, NoMemory;
    }
    var savedHwmode, savedMode, savedX, savedY := crtc.hwmode, crtc.mode, crtc.x, crtc.y;
    crtc.mode, crtc.x, crtc.y := mode, x, y;
    ok, outcome := ProgramCrtc(cfg, drv, crtc, mode, x, y, att, idle, misplaced);
    if !ok {
      crtc.hwmode, crtc.mode, crtc.x, crtc.y := savedHwmode, savedMode, savedX, savedY;
    }
  }
}
