/** The power levels of the display pipeline: a connector asks for one, its encoder and its CRTC get the most
    powered level that any of their connectors asks for. */
module Dpms {
  import opened KmsObjects

  const DPMS_OFF := 3   // 0 is on, 1 standby, 2 suspend

  /** What a connector asks for, and of whom. */
  datatype Ask = Ask(encoder: Encoder?, crtc: Crtc?, dpms: int)

  // ----- the level that a list of connectors comes to -----

  function EncoderChoice(asks: seq<Ask>, e: Encoder): int {
    if asks == [] then DPMS_OFF else
    var level := EncoderChoice(asks[..|asks| - 1], e);
    var last := asks[|asks| - 1];
    if last.encoder == e && last.dpms < level then last.dpms else level
  }

  function CrtcChoice(asks: seq<Ask>, crtc: Crtc): int {
    if asks == [] then DPMS_OFF else
    var level := CrtcChoice(asks[..|asks| - 1], crtc);
    var last := asks[|asks| - 1];
    if last.crtc == crtc && last.dpms < level then last.dpms else level
  }

  /** The choice is the least level asked for, OFF if nobody asks. */
  lemma {:induction false} EncoderChoiceIsLeast(asks: seq<Ask>, e: Encoder)
    ensures EncoderChoice(asks, e) <= DPMS_OFF
    ensures forall i :: 0 <= i < |asks| && asks[i].encoder == e ==> EncoderChoice(asks, e) <= asks[i].dpms
    ensures EncoderChoice(asks, e) == DPMS_OFF ||
      exists i :: 0 <= i < |asks| && asks[i].encoder == e && EncoderChoice(asks, e) == asks[i].dpms
  {
    if asks != [] {
      EncoderChoiceIsLeast(asks[..|asks| - 1], e);
    }
  }

  lemma {:induction false} CrtcChoiceIsLeast(asks: seq<Ask>, crtc: Crtc)
    ensures CrtcChoice(asks, crtc) <= DPMS_OFF
    ensures forall i :: 0 <= i < |asks| && asks[i].crtc == crtc ==> CrtcChoice(asks, crtc) <= asks[i].dpms
    ensures CrtcChoice(asks, crtc) == DPMS_OFF ||
      exists i :: 0 <= i < |asks| && asks[i].crtc == crtc && CrtcChoice(asks, crtc) == asks[i].dpms
  {
    if asks != [] {
      CrtcChoiceIsLeast(asks[..|asks| - 1], crtc);
    }
  }

  /** Levels are 0 to 3.  An encoder or CRTC with a connector gets the least level that one of its connectors asks for,
      and one without gets 3, which is off. */
  lemma ChoiceIsAskedFor(asks: seq<Ask>, e: Encoder, crtc: Crtc)
    requires forall i :: 0 <= i < |asks| ==> 0 <= asks[i].dpms <= 3
    ensures (exists i :: 0 <= i < |asks| && asks[i].encoder == e) ==>
      exists i :: 0 <= i < |asks| && asks[i].encoder == e && EncoderChoice(asks, e) == asks[i].dpms
    ensures (exists i :: 0 <= i < |asks| && asks[i].crtc == crtc) ==>
      exists i :: 0 <= i < |asks| && asks[i].crtc == crtc && CrtcChoice(asks, crtc) == asks[i].dpms
    ensures (forall i :: 0 <= i < |asks| ==> asks[i].encoder != e) ==> EncoderChoice(asks, e) == 3
    ensures (forall i :: 0 <= i < |asks| ==> asks[i].crtc != crtc) ==> CrtcChoice(asks, crtc) == 3
  {
    EncoderChoiceIsLeast(asks, e);
    CrtcChoiceIsLeast(asks, crtc);
    hide EncoderChoice, CrtcChoice;
  }

  /** Connectors of one encoder share its CRTC. */
  predicate Wired(asks: seq<Ask>, e: Encoder, crtc: Crtc?) {
    forall i :: 0 <= i < |asks| && asks[i].encoder == e ==> asks[i].crtc == crtc
  }

  /** What an encoder is told is never more powered than what its CRTC is told. */
  lemma {:induction false} EncoderNotAboveCrtc(asks: seq<Ask>, e: Encoder, crtc: Crtc)
    requires Wired(asks, e, crtc)
    ensures EncoderChoice(asks, e) >= CrtcChoice(asks, crtc)
  {
    if asks != [] {
      EncoderNotAboveCrtc(asks[..|asks| - 1], e, crtc);
    }
  }

  /** A connector that asks for another level only moves its own encoder, and in the same direction. */
  lemma {:induction false} EncoderMoves(asks: seq<Ask>, k: nat, mode: int, e: Encoder)
    requires k < |asks|
    ensures asks[k].encoder != e ==> EncoderChoice(asks[k := asks[k].(dpms := mode)], e) == EncoderChoice(asks, e)
    ensures mode <= asks[k].dpms ==> EncoderChoice(asks[k := asks[k].(dpms := mode)], e) <= EncoderChoice(asks, e)
    ensures mode >= asks[k].dpms ==> EncoderChoice(asks[k := asks[k].(dpms := mode)], e) >= EncoderChoice(asks, e)
  {
    var n := |asks| - 1;
    var after := asks[k := asks[k].(dpms := mode)];
    if k < n {
      EncoderMoves(asks[..n], k, mode, e);
      assert after[..n] == asks[..n][k := asks[..n][k].(dpms := mode)];
    } else {
      assert after[..n] == asks[..n];
    }
  }

  /** And only its own CRTC. */
  lemma {:induction false} CrtcMoves(asks: seq<Ask>, k: nat, mode: int, crtc: Crtc)
    requires k < |asks| && asks[k].crtc != crtc
    ensures CrtcChoice(asks[k := asks[k].(dpms := mode)], crtc) == CrtcChoice(asks, crtc)
  {
    var n := |asks| - 1;
    var after := asks[k := asks[k].(dpms := mode)];
    if k < n {
      CrtcMoves(asks[..n], k, mode, crtc);
      assert after[..n] == asks[..n][k := asks[..n][k].(dpms := mode)];
    } else {
      assert after[..n] == asks[..n];
    }
  }

  // ----- the commanded levels -----

  datatype Levels = Levels(crtc: map<Crtc, int>, encoder: map<Encoder, int>)

  /** The hardware is where the connectors want it, object by object. */
  ghost predicate Commanded(asks: seq<Ask>, levels: Levels) {
    (forall e :: e in levels.encoder ==> levels.encoder[e] == EncoderChoice(asks, e)) &&
    (forall crtc :: crtc in levels.crtc ==> levels.crtc[crtc] == CrtcChoice(asks, crtc))
  }

  /** No encoder is more powered than its CRTC: lower numbers mean more power.  `wiring` is each encoder's CRTC. */
  ghost predicate Ordered(levels: Levels, wiring: map<Encoder, Crtc?>) {
    forall e :: e in levels.encoder && e in wiring && wiring[e] != null && wiring[e] in levels.crtc ==>
      levels.encoder[e] >= levels.crtc[wiring[e]]
  }

  ghost predicate AllWired(asks: seq<Ask>, wiring: map<Encoder, Crtc?>) {
    forall i :: 0 <= i < |asks| ==>
      if asks[i].encoder == null then asks[i].crtc == null
      else asks[i].encoder in wiring && asks[i].crtc == wiring[asks[i].encoder]
  }

  lemma CommandedIsOrdered(asks: seq<Ask>, levels: Levels, wiring: map<Encoder, Crtc?>)
    requires Commanded(asks, levels) && AllWired(asks, wiring)
    ensures Ordered(levels, wiring)
  {
    forall e | e in levels.encoder && e in wiring && wiring[e] != null && wiring[e] in levels.crtc
      ensures levels.encoder[e] >= levels.crtc[wiring[e]]
    {
      EncoderNotAboveCrtc(asks, e, wiring[e]);
    }
  }

  /** Commanding the encoder and the CRTC of the connector that asked is enough. */
  lemma NobodyElseMoves(asks: seq<Ask>, k: nat, mode: int, before: Levels, after: Levels)
    requires k < |asks| && Commanded(asks, before)
    requires var now := asks[k := asks[k].(dpms := mode)];
             after.encoder == (if asks[k].encoder == null then before.encoder else
                               before.encoder[asks[k].encoder := EncoderChoice(now, asks[k].encoder)]) &&
             after.crtc == (if asks[k].crtc == null then before.crtc else
                            before.crtc[asks[k].crtc := CrtcChoice(now, asks[k].crtc)])
    ensures Commanded(asks[k := asks[k].(dpms := mode)], after)
  {
    hide EncoderChoice, CrtcChoice;
    var now := asks[k := asks[k].(dpms := mode)];
    forall e | e in after.encoder
      ensures after.encoder[e] == EncoderChoice(now, e)
    {
      EncoderMoves(asks, k, mode, e);
    }
    forall crtc | crtc in after.crtc
      ensures after.crtc[crtc] == CrtcChoice(now, crtc)
    {
      if asks[k].crtc != crtc {
        CrtcMoves(asks, k, mode, crtc);
      }
    }
  }

  /** Powering up: the CRTC goes first, the encoders are still where they were. */
  lemma CrtcUpFirst(asks: seq<Ask>, k: nat, mode: int, before: Levels, wiring: map<Encoder, Crtc?>, crtc: Crtc)
    requires k < |asks| && Commanded(asks, before) && AllWired(asks, wiring) && mode <= asks[k].dpms
    ensures Ordered(before.(crtc := before.crtc[crtc := CrtcChoice(asks[k := asks[k].(dpms := mode)], crtc)]), wiring)
  {
    CommandedIsOrdered(asks, before, wiring);
    hide EncoderChoice, CrtcChoice;
    var now := asks[k := asks[k].(dpms := mode)];
    forall e | e in before.encoder && e in wiring && wiring[e] == crtc
      ensures before.encoder[e] >= CrtcChoice(now, crtc)
    {
      EncoderMoves(asks, k, mode, e);
      EncoderNotAboveCrtc(now, e, crtc);
    }
  }

  /** Powering down: the encoder goes first, the CRTCs are still where they were. */
  lemma EncoderDownFirst(asks: seq<Ask>, k: nat, mode: int, before: Levels, wiring: map<Encoder, Crtc?>, e: Encoder)
    requires k < |asks| && Commanded(asks, before) && AllWired(asks, wiring) && mode >= asks[k].dpms
    requires e in before.encoder
    ensures var choice := EncoderChoice(asks[k := asks[k].(dpms := mode)], e);
      Ordered(before.(encoder := before.encoder[e := choice]), wiring)
  {
    CommandedIsOrdered(asks, before, wiring);
    EncoderMoves(asks, k, mode, e);
  }

  // ----- the connectors and the driver -----

  /** The hardware as last commanded, and every state it went through. */
  class PowerDriver {
    var levels: Levels
    ghost var history: seq<Levels>

    method CrtcDpms(crtc: Crtc, level: int)
      modifies this
      ensures levels == old(levels).(crtc := old(levels).crtc[crtc := level])
      ensures history == old(history) + [levels]
    {
      levels := levels.(crtc := levels.crtc[crtc := level]);
      history := history + [levels];
    }

    method EncoderDpms(e: Encoder, level: int)
      modifies this
      ensures levels == old(levels).(encoder := old(levels).encoder[e := level])
      ensures history == old(history) + [levels]
    {
      levels := levels.(encoder := levels.encoder[e := level]);
      history := history + [levels];
    }
  }

  /** What one connector asks for now. */
  ghost predicate Asks(c: Connector, ask: Ask, wiring: map<Encoder, Crtc?>)
    reads c
  {
    ask.encoder == c.encoder && ask.dpms == c.dpms &&
    if c.encoder == null then ask.crtc == null else c.encoder in wiring && ask.crtc == wiring[c.encoder]
  }

  ghost predicate AllAsk(cs: seq<Connector>, asks: seq<Ask>, wiring: map<Encoder, Crtc?>)
    reads cs
  {
    |asks| == |cs| && forall i :: 0 <= i < |cs| ==> Asks(cs[i], asks[i], wiring)
  }

  ghost predicate WiredAs(wiring: map<Encoder, Crtc?>)
    reads wiring.Keys`crtc
  {
    forall e :: e in wiring ==> e.crtc == wiring[e]
  }

  /** drm_helper_choose_encoder_dpms */
  method ChooseEncoderDpms(cs: seq<Connector>, e: Encoder, ghost asks: seq<Ask>, ghost wiring: map<Encoder, Crtc?>)
    returns (dpms: int)
    requires AllAsk(cs, asks, wiring)
    ensures dpms == EncoderChoice(asks, e)
  {
    dpms := DPMS_OFF;
    for i := 0 to |cs|
      invariant dpms == EncoderChoice(asks[..i], e)
    {
      assert asks[..i + 1][..i] == asks[..i] && Asks(cs[i], asks[i], wiring);
      if cs[i].encoder == e {
        if cs[i].dpms < dpms {
          dpms := cs[i].dpms;
        }
      }
    }
    assert asks[..|cs|] == asks;
  }

  /** drm_helper_choose_crtc_dpms */
  method ChooseCrtcDpms(cs: seq<Connector>, crtc: Crtc, ghost asks: seq<Ask>, ghost wiring: map<Encoder, Crtc?>)
    returns (dpms: int)
    requires AllAsk(cs, asks, wiring) && WiredAs(wiring)
    ensures dpms == CrtcChoice(asks, crtc)
  {
    dpms := DPMS_OFF;
    for i := 0 to |cs|
      invariant dpms == CrtcChoice(asks[..i], crtc)
    {
      assert asks[..i + 1][..i] == asks[..i] && Asks(cs[i], asks[i], wiring);
      if cs[i].encoder != null && cs[i].encoder.crtc == crtc {
        if cs[i].dpms < dpms {
          dpms := cs[i].dpms;
        }
      }
    }
    assert asks[..|cs|] == asks;
  }

  /** Where the levels go once connector k asks for `mode`. */
  ghost function Adjusted(asks: seq<Ask>, k: nat, mode: int, before: Levels): Levels
    requires k < |asks|
  {
    var now := asks[k := asks[k].(dpms := mode)];
    Levels(if asks[k].crtc == null then before.crtc else before.crtc[asks[k].crtc := CrtcChoice(now, asks[k].crtc)],
           if asks[k].encoder == null then before.encoder else
           before.encoder[asks[k].encoder := EncoderChoice(now, asks[k].encoder)])
  }

  lemma AdjustedIsCommanded(asks: seq<Ask>, k: nat, mode: int, before: Levels, wiring: map<Encoder, Crtc?>)
    requires k < |asks| && Commanded(asks, before) && AllWired(asks, wiring)
    ensures Commanded(asks[k := asks[k].(dpms := mode)], Adjusted(asks, k, mode, before))
    ensures Ordered(Adjusted(asks, k, mode, before), wiring)
  {
    NobodyElseMoves(asks, k, mode, before, Adjusted(asks, k, mode, before));
    CommandedIsOrdered(asks[k := asks[k].(dpms := mode)], Adjusted(asks, k, mode, before), wiring);
  }

  /** From off to on: CRTC, then encoder */
  method PowerUp(cs: seq<Connector>, d: PowerDriver, encoder: Encoder?, crtc: Crtc?,
                 ghost k: nat, ghost mode: int, ghost asks: seq<Ask>, ghost wiring: map<Encoder, Crtc?>)
    requires k < |asks| && asks[k].encoder == encoder && asks[k].crtc == crtc && mode <= asks[k].dpms
    requires AllAsk(cs, asks[k := asks[k].(dpms := mode)], wiring) && WiredAs(wiring)
    requires AllWired(asks, wiring) && Commanded(asks, d.levels)
    modifies d
    ensures d.levels == Adjusted(asks, k, mode, old(d.levels))
    ensures |old(d.history)| <= |d.history| && d.history[..|old(d.history)|] == old(d.history)
    ensures forall h :: |old(d.history)| <= h < |d.history| ==> Ordered(d.history[h], wiring)
  {
    hide Commanded, Ordered, EncoderChoice, CrtcChoice, AllAsk, AllWired;
    ghost var before := d.levels;
    ghost var now := asks[k := asks[k].(dpms := mode)];
    AdjustedIsCommanded(asks, k, mode, before, wiring);
    if crtc != null {
      var level := ChooseCrtcDpms(cs, crtc, now, wiring);
      CrtcUpFirst(asks, k, mode, before, wiring, crtc);
      d.CrtcDpms(crtc, level);
    }
    if encoder != null {
      var level := ChooseEncoderDpms(cs, encoder, now, wiring);
      d.EncoderDpms(encoder, level);
    }
  }

  /** From on to off: encoder, then CRTC */
  method PowerDown(cs: seq<Connector>, d: PowerDriver, encoder: Encoder?, crtc: Crtc?,
                   ghost k: nat, ghost mode: int, ghost asks: seq<Ask>, ghost wiring: map<Encoder, Crtc?>)
    requires k < |asks| && asks[k].encoder == encoder && asks[k].crtc == crtc && mode >= asks[k].dpms
    requires encoder != null ==> encoder in d.levels.encoder
    requires AllAsk(cs, asks[k := asks[k].(dpms := mode)], wiring) && WiredAs(wiring)
    requires AllWired(asks, wiring) && Commanded(asks, d.levels)
    modifies d
    ensures d.levels == Adjusted(asks, k, mode, old(d.levels))
    ensures |old(d.history)| <= |d.history| && d.history[..|old(d.history)|] == old(d.history)
    ensures forall h :: |old(d.history)| <= h < |d.history| ==> Ordered(d.history[h], wiring)
  {
    hide Commanded, Ordered, EncoderChoice, CrtcChoice, AllAsk, AllWired;
    ghost var before := d.levels;
    ghost var now := asks[k := asks[k].(dpms := mode)];
    AdjustedIsCommanded(asks, k, mode, before, wiring);
    if encoder != null {
      var level := ChooseEncoderDpms(cs, encoder, now, wiring);
      EncoderDownFirst(asks, k, mode, before, wiring, encoder);
      d.EncoderDpms(encoder, level);
    }
    if crtc != null {
      var level := ChooseCrtcDpms(cs, crtc, now, wiring);
      d.CrtcDpms(crtc, level);
    }
  }

  /** drm_helper_connector_dpms: afterwards every level is again what the connectors want, and at no point in between
      is an encoder more powered than its CRTC. */
  method ConnectorDpms(cs: seq<Connector>, d: PowerDriver, ghost k: nat, c: Connector, mode: int,
                       ghost asks: seq<Ask>, ghost wiring: map<Encoder, Crtc?>)
    requires Distinct(cs) && k < |cs| && c == cs[k]
    requires AllAsk(cs, asks, wiring) && WiredAs(wiring) && Commanded(asks, d.levels)
    requires forall e :: e in wiring ==> e in d.levels.encoder
    modifies c`dpms, d
    ensures c.dpms == mode
    ensures var now := asks[k := asks[k].(dpms := mode)]; AllAsk(cs, now, wiring) && Commanded(now, d.levels)
    ensures old(d.levels).encoder.Keys <= d.levels.encoder.Keys
    ensures |old(d.history)| <= |d.history| && d.history[..|old(d.history)|] == old(d.history)
    ensures forall h :: |old(d.history)| <= h < |d.history| ==> Ordered(d.history[h], wiring)
    ensures mode == old(c.dpms) ==> d.levels == old(d.levels) && d.history == old(d.history)
  {
    hide Commanded, Ordered, EncoderChoice, CrtcChoice, AllWired;
    assert Asks(c, asks[k], wiring);
    if mode == c.dpms {
      assert asks[k := asks[k].(dpms := mode)] == asks;
      return;
    }
    AskersAreWired(cs, asks, wiring);
    AdjustedIsCommanded(asks, k, mode, d.levels, wiring);
    var encoder := c.encoder;
    var crtc := if encoder != null then encoder.crtc else null;
    var oldDpms := c.dpms;
    c.dpms := mode;
    assert AllAsk(cs, asks[k := asks[k].(dpms := mode)], wiring);
    if mode < oldDpms {
      PowerUp(cs, d, encoder, crtc, k, mode, asks, wiring);
    }
    if mode > oldDpms {
      PowerDown(cs, d, encoder, crtc, k, mode, asks, wiring);
    }
  }

  lemma AskersAreWired(cs: seq<Connector>, asks: seq<Ask>, wiring: map<Encoder, Crtc?>)
    requires AllAsk(cs, asks, wiring)
    ensures AllWired(asks, wiring)
  {
    forall i | 0 <= i < |asks|
      ensures if asks[i].encoder == null then asks[i].crtc == null
              else asks[i].encoder in wiring && asks[i].crtc == wiring[asks[i].encoder]
    {
      assert Asks(cs[i], asks[i], wiring);
    }
  }

  /** Any sequence of requests, with the routing fixed: every level ends up where the connectors want it, and the
      hardware never was in a state in which an encoder was more powered than its CRTC. */
  method Run(cs: seq<Connector>, d: PowerDriver, requests: seq<(nat, int)>,
             ghost start: seq<Ask>, ghost wiring: map<Encoder, Crtc?>) returns (ghost asks: seq<Ask>)
    requires Distinct(cs) && forall r :: r in requests ==> r.0 < |cs|
    requires AllAsk(cs, start, wiring) && WiredAs(wiring) && Commanded(start, d.levels)
    requires forall e :: e in wiring ==> e in d.levels.encoder
    requires forall h :: 0 <= h < |d.history| ==> Ordered(d.history[h], wiring)
    modifies cs`dpms, d
    ensures AllAsk(cs, asks, wiring) && Commanded(asks, d.levels)
    ensures forall h :: 0 <= h < |d.history| ==> Ordered(d.history[h], wiring)
  {
    hide Commanded, Ordered;
    asks := start;
    for i := 0 to |requests|
      invariant AllAsk(cs, asks, wiring) && Commanded(asks, d.levels)
      invariant forall e :: e in wiring ==> e in d.levels.encoder
      invariant forall h :: 0 <= h < |d.history| ==> Ordered(d.history[h], wiring)
    {
      var (k, mode) := requests[i];
      assert (k, mode) in requests;
      ghost var past := d.history;
      ConnectorDpms(cs, d, k, cs[k], mode, asks, wiring);
      asks := asks[k := asks[k].(dpms := mode)];
      assert forall h :: 0 <= h < |past| ==> d.history[h] == d.history[..|past|][h];
    }
  }
}
