/** The reference accounting of framebuffers, on values: what each framebuffer records, the files'
    lists, the id table, and the collection of uses.  Each step of the ioctls changes this table
    in one of the ways below, and each of them keeps the accounts consistent. */
module FbTable {
  import opened KmsObjects

  /** What a framebuffer records: its count, its id (zero once reaped), the file that lists it, and
      how often it was destroyed. */
  datatype Record = Record(refcount: int, id: nat, owner: DrmFile?, destroyed: nat)

  datatype Table = Table(recs: map<Framebuffer, Record>, lists: map<DrmFile, seq<Framebuffer>>,
                         idr: map<nat, Framebuffer>)

  type Uses = multiset<Framebuffer?>

  function One(b: bool): nat { if b then 1 else 0 }

  /** The count is the number of references: one from the id table, one from a file's list, and one
      for each use.  The framebuffer was destroyed once if the count is zero, and not otherwise. */
  predicate Accounted(r: Record, uses: nat) {
    && r.refcount == One(r.id != 0) + One(r.owner != null) + uses
    && r.destroyed == One(r.refcount == 0)
  }

  ghost predicate Counted(t: Table, uses: Uses) {
    && (forall fb :: fb in t.recs ==> Accounted(t.recs[fb], uses[fb]))
    && (forall fb :: fb in uses && fb != null ==> fb in t.recs)
  }

  /** The id table and the lists agree with the records. */
  ghost predicate Indexed(t: Table) {
    && (forall id :: id in t.idr ==> id != 0 && t.idr[id] in t.recs && t.recs[t.idr[id]].id == id)
    && (forall fb :: fb in t.recs && t.recs[fb].id != 0 ==> t.recs[fb].id in t.idr && t.idr[t.recs[fb].id] == fb)
  }

  ghost predicate Listed(t: Table) {
    && (forall f :: f in t.lists ==> Distinct(t.lists[f]))
    && (forall f, fb :: f in t.lists && fb in t.lists[f] ==> fb in t.recs && t.recs[fb].owner == f)
    && (forall fb :: fb in t.recs && t.recs[fb].owner != null ==>
      t.recs[fb].owner in t.lists && fb in t.lists[t.recs[fb].owner] && t.recs[fb].id != 0)
  }

  ghost predicate Consistent(t: Table, uses: Uses) {
    Counted(t, uses) && Indexed(t) && Listed(t)
  }

  // ----- the steps

  function Got(t: Table, fb: Framebuffer): Table
    requires fb in t.recs
  {
    var r := t.recs[fb];
    t.(recs := t.recs[fb := r.(refcount := r.refcount + 1)])
  }

  function Dropped(t: Table, fb: Framebuffer): Table
    requires fb in t.recs
  {
    var r := t.recs[fb];
    t.(recs := t.recs[fb := r.(refcount := r.refcount - 1, destroyed := r.destroyed + One(r.refcount == 1))])
  }

  function Adopted(t: Table, fb: Framebuffer): Table {
    t.(recs := t.recs[fb := Record(1, 0, null, 0)])
  }

  function Identified(t: Table, fb: Framebuffer, id: nat): Table
    requires fb in t.recs
  {
    var r := t.recs[fb];
    t.(recs := t.recs[fb := r.(refcount := r.refcount + 1, id := id)], idr := t.idr[id := fb])
  }

  function Entered(t: Table, f: DrmFile, fb: Framebuffer): Table
    requires fb in t.recs && f in t.lists
  {
    t.(recs := t.recs[fb := t.recs[fb].(owner := f)], lists := t.lists[f := [fb] + t.lists[f]])
  }

  /** Out of the id table, whose reference is dropped. */
  function Unregistered(t: Table, fb: Framebuffer): Table
    requires fb in t.recs
  {
    var r := t.recs[fb];
    t.(recs := t.recs[fb := r.(refcount := r.refcount - 1, id := 0)], idr := t.idr - {r.id})
  }

  /** Off a file's list. */
  function Delisted(t: Table, f: DrmFile, fb: Framebuffer): Table
    requires fb in t.recs && f in t.lists
  {
    t.(recs := t.recs[fb := t.recs[fb].(owner := null)], lists := t.lists[f := ListDel(t.lists[f], fb)])
  }

  function Reaped(t: Table, f: DrmFile, fb: Framebuffer): Table
    requires fb in t.recs && f in t.lists
  {
    Delisted(Unregistered(t, fb), f, fb)
  }

  function Opened(t: Table, f: DrmFile): Table {
    t.(lists := t.lists[f := []])
  }

  /** list_del, on the sequence of a list's entries. */
  function ListDel(s: seq<Framebuffer>, fb: Framebuffer): (r: seq<Framebuffer>) {
    if s == [] then [] else if s[0] == fb then s[1..] else [s[0]] + ListDel(s[1..], fb)
  }

  lemma {:induction false} ListDelMembers(s: seq<Framebuffer>, fb: Framebuffer)
    requires Distinct(s) && fb in s
    ensures Distinct(ListDel(s, fb)) && |ListDel(s, fb)| == |s| - 1
    ensures forall f :: f in ListDel(s, fb) ==> f in s && f != fb
    ensures forall f :: f in s && f != fb ==> f in ListDel(s, fb)
  {
    assert s == [s[0]] + s[1..];
    if s[0] != fb {
      ListDelMembers(s[1..], fb);
      assert s[0] !in s[1..];
    }
  }

  // ----- each step keeps the accounts

  /** What is used, in the id table or on a list exists and has not been destroyed. */
  lemma UsedIsLive(t: Table, uses: Uses, fb: Framebuffer)
    requires Consistent(t, uses)
    requires fb in uses || (fb in t.recs && (t.recs[fb].id != 0 || t.recs[fb].owner != null))
    ensures fb in t.recs && t.recs[fb].refcount > 0 && t.recs[fb].destroyed == 0
  {
    hide Indexed, Listed;
    assert fb in uses ==> uses[fb] > 0;
  }

  lemma ListedIsIdentified(t: Table, uses: Uses, f: DrmFile, fb: Framebuffer)
    requires Consistent(t, uses) && f in t.lists && fb in t.lists[f]
    ensures fb in t.recs && t.recs[fb].owner == f && t.recs[fb].id != 0 && t.recs[fb].refcount > 1
  {
  }

  lemma GotCounted(t: Table, uses: Uses, fb: Framebuffer)
    requires Counted(t, uses) && fb in t.recs && t.recs[fb].refcount > 0
    ensures Counted(Got(t, fb), uses + multiset{fb})
  {
  }

  lemma GotIndexed(t: Table, fb: Framebuffer)
    requires Indexed(t) && fb in t.recs && t.recs[fb].refcount > 0
    ensures Indexed(Got(t, fb))
  {
  }

  lemma GotListed(t: Table, fb: Framebuffer)
    requires Listed(t) && fb in t.recs && t.recs[fb].refcount > 0
    ensures Listed(Got(t, fb))
  {
  }

  lemma GotKeeps(t: Table, uses: Uses, fb: Framebuffer)
    requires Consistent(t, uses)
    requires fb in t.recs && t.recs[fb].refcount > 0
    ensures Consistent(Got(t, fb), uses + multiset{fb})
  {
    hide Counted, Indexed, Listed;
    GotCounted(t, uses, fb);
    GotIndexed(t, fb);
    GotListed(t, fb);
  }

  lemma DroppedCounted(t: Table, uses: Uses, fb: Framebuffer)
    requires Counted(t, uses) && fb in t.recs && fb in uses
    ensures Counted(Dropped(t, fb), uses - multiset{fb})
  {
  }

  lemma DroppedIndexed(t: Table, fb: Framebuffer)
    requires Indexed(t) && fb in t.recs
    ensures Indexed(Dropped(t, fb))
  {
  }

  lemma DroppedListed(t: Table, fb: Framebuffer)
    requires Listed(t) && fb in t.recs
    ensures Listed(Dropped(t, fb))
  {
  }

  lemma DroppedKeeps(t: Table, uses: Uses, fb: Framebuffer)
    requires Consistent(t, uses)
    requires fb in uses
    ensures fb in t.recs && Consistent(Dropped(t, fb), uses - multiset{fb})
  {
    UsedIsLive(t, uses, fb);
    hide Counted, Indexed, Listed;
    DroppedCounted(t, uses, fb);
    DroppedIndexed(t, fb);
    DroppedListed(t, fb);
  }

  lemma AdoptedCounted(t: Table, uses: Uses, fb: Framebuffer)
    requires Counted(t, uses) && fb !in t.recs
    ensures Counted(Adopted(t, fb), uses + multiset{fb})
  {
    assert fb !in uses;
  }

  lemma AdoptedIndexed(t: Table, fb: Framebuffer)
    requires Indexed(t) && fb !in t.recs
    ensures Indexed(Adopted(t, fb))
  {
  }

  lemma AdoptedListed(t: Table, fb: Framebuffer)
    requires Listed(t) && fb !in t.recs
    ensures Listed(Adopted(t, fb))
  {
  }

  lemma AdoptedKeeps(t: Table, uses: Uses, fb: Framebuffer)
    requires Consistent(t, uses)
    requires fb !in t.recs
    ensures Consistent(Adopted(t, fb), uses + multiset{fb})
  {
    hide Counted, Indexed, Listed;
    AdoptedCounted(t, uses, fb);
    AdoptedIndexed(t, fb);
    AdoptedListed(t, fb);
  }

  /** A framebuffer that is there, without an id, and an id that is free. */
  ghost predicate Nameless(t: Table, fb: Framebuffer, id: nat) {
    fb in t.recs && t.recs[fb].refcount > 0 && t.recs[fb].id == 0 && id != 0 && id !in t.idr
  }

  /** A framebuffer with an id that no list has, and an open file. */
  ghost predicate Homeless(t: Table, f: DrmFile, fb: Framebuffer) {
    f in t.lists && fb in t.recs && t.recs[fb].owner == null && t.recs[fb].id != 0
  }

  /** A framebuffer with an id on the list of its owner. */
  ghost predicate AtHome(t: Table, f: DrmFile, fb: Framebuffer) {
    f in t.lists && fb in t.lists[f] && fb in t.recs && t.recs[fb].owner == f && t.recs[fb].id != 0 &&
    t.recs[fb].refcount > 1
  }

  lemma IdentifiedCounted(t: Table, uses: Uses, fb: Framebuffer, id: nat)
    requires Counted(t, uses) && Nameless(t, fb, id)
    ensures Counted(Identified(t, fb, id), uses)
  {
  }

  lemma IdentifiedIndexed(t: Table, fb: Framebuffer, id: nat)
    requires Indexed(t) && Nameless(t, fb, id)
    ensures Indexed(Identified(t, fb, id))
  {
  }

  lemma IdentifiedListed(t: Table, fb: Framebuffer, id: nat)
    requires Listed(t) && Nameless(t, fb, id)
    ensures Listed(Identified(t, fb, id))
  {
  }

  lemma IdentifiedKeeps(t: Table, uses: Uses, fb: Framebuffer, id: nat)
    requires Consistent(t, uses) && Nameless(t, fb, id)
    ensures Consistent(Identified(t, fb, id), uses)
  {
    hide Counted, Indexed, Listed;
    IdentifiedCounted(t, uses, fb, id);
    IdentifiedIndexed(t, fb, id);
    IdentifiedListed(t, fb, id);
  }

  lemma EnteredCounted(t: Table, uses: Uses, f: DrmFile, fb: Framebuffer)
    requires Counted(t, uses) && fb in uses && Homeless(t, f, fb)
    ensures Counted(Entered(t, f, fb), uses - multiset{fb})
  {
  }

  lemma EnteredIndexed(t: Table, f: DrmFile, fb: Framebuffer)
    requires Indexed(t) && Homeless(t, f, fb)
    ensures Indexed(Entered(t, f, fb))
  {
  }

  lemma EnteredListed(t: Table, f: DrmFile, fb: Framebuffer)
    requires Listed(t) && Homeless(t, f, fb)
    ensures Listed(Entered(t, f, fb))
  {
    assert fb !in t.lists[f];
    DistinctCons(fb, t.lists[f]);
    hide Distinct;
  }

  /** Listing a framebuffer takes over one of its uses. */
  lemma EnteredKeeps(t: Table, uses: Uses, f: DrmFile, fb: Framebuffer)
    requires Consistent(t, uses) && fb in uses && Homeless(t, f, fb)
    ensures Consistent(Entered(t, f, fb), uses - multiset{fb})
  {
    hide Counted, Indexed, Listed;
    EnteredCounted(t, uses, f, fb);
    EnteredIndexed(t, f, fb);
    EnteredListed(t, f, fb);
  }

  lemma ReapedCounted(t: Table, uses: Uses, f: DrmFile, fb: Framebuffer)
    requires Counted(t, uses) && AtHome(t, f, fb)
    ensures Counted(Reaped(t, f, fb), uses + multiset{fb})
  {
  }

  lemma ReapedIndexed(t: Table, f: DrmFile, fb: Framebuffer)
    requires Indexed(t) && AtHome(t, f, fb)
    ensures Indexed(Reaped(t, f, fb))
  {
  }

  lemma ReapedListed(t: Table, f: DrmFile, fb: Framebuffer)
    requires Listed(t) && AtHome(t, f, fb)
    ensures Listed(Reaped(t, f, fb))
  {
    ListDelMembers(t.lists[f], fb);
    hide Distinct, ListDel;
    var t' := Reaped(t, f, fb);
    forall o | o in t'.recs && t'.recs[o].owner != null
      ensures t'.recs[o].owner in t'.lists && o in t'.lists[t'.recs[o].owner] && t'.recs[o].id != 0
    {
      assert o != fb && t.recs[o].owner == t'.recs[o].owner && o in t.lists[t.recs[o].owner];
    }
    forall g, o | g in t'.lists && o in t'.lists[g]
      ensures o in t'.recs && t'.recs[o].owner == g
    {
      if g == f {
        assert o in ListDel(t.lists[f], fb);
      }
      assert o in t.lists[g] && o != fb;
    }
  }

  /** Reaping turns the list's reference into a use. */
  lemma ReapedKeeps(t: Table, uses: Uses, f: DrmFile, fb: Framebuffer)
    requires Consistent(t, uses)
    requires f in t.lists && fb in t.lists[f]
    ensures fb in t.recs && Consistent(Reaped(t, f, fb), uses + multiset{fb})
  {
    ListedIsIdentified(t, uses, f, fb);
    hide Counted, Indexed, Listed;
    ReapedCounted(t, uses, f, fb);
    ReapedIndexed(t, f, fb);
    ReapedListed(t, f, fb);
  }

  lemma DistinctCons(fb: Framebuffer, s: seq<Framebuffer>)
    requires Distinct(s) && fb !in s
    ensures Distinct([fb] + s)
  {
  }

  lemma OpenedKeeps(t: Table, uses: Uses, f: DrmFile)
    requires Consistent(t, uses) && f !in t.lists
    ensures Consistent(Opened(t, f), uses)
  {
    hide Counted, Indexed;
    assert Counted(Opened(t, f), uses) by { SameRecs(t, Opened(t, f), uses); }
    assert Indexed(Opened(t, f)) by { SameRecs(t, Opened(t, f), uses); }
  }

  lemma SameRecs(t: Table, t': Table, uses: Uses)
    requires Counted(t, uses) && Indexed(t) && t.recs == t'.recs && t.idr == t'.idr
    ensures Counted(t', uses) && Indexed(t')
  {
  }

  /** Uses are counted by framebuffer, so uses of nothing do not matter. */
  lemma SameUses(t: Table, uses: Uses, uses': Uses)
    requires Consistent(t, uses)
    requires forall fb: Framebuffer {:trigger uses'[fb]} :: uses[fb] == uses'[fb]
    ensures Consistent(t, uses')
  {
    hide Indexed, Listed;
    forall fb: Framebuffer? | fb in uses' && fb != null
      ensures fb in t.recs
    {
      assert uses'[fb] > 0 && uses[fb] > 0 && fb in uses;
    }
  }

  /** The shortcut of drm_framebuffer_remove: a holder that sees a count of one is the last one.
      The framebuffer is in no table, on no list, and nothing else uses it. */
  lemma LastHolder(t: Table, uses: Uses, fb: Framebuffer)
    requires Consistent(t, uses) && fb in uses
    ensures fb in t.recs
    ensures t.recs[fb].refcount == 1 <==>
      uses[fb] == 1 && t.recs[fb].id == 0 && t.recs[fb].owner == null
  {
    UsedIsLive(t, uses, fb);
  }

  // ----- runs: any interleaving of the steps of any number of ioctls

  /** One atomic step.  Moving a use between a lookup in flight and a CRTC or plane changes no
      account, so it is no step here. */
  datatype Step =
    | Open(file: DrmFile)
    | Create(fb: Framebuffer)
    | Identify(fb: Framebuffer, id: nat)
    | Enlist(file: DrmFile, fb: Framebuffer)
    | Look(id: nat)
    | Share(fb: Framebuffer)
    | Release(fb: Framebuffer)
    | Reap(file: DrmFile, fb: Framebuffer)

  /** What a step needs: a lookup finds an id, and everything else works on uses of one's own. */
  predicate Enabled(t: Table, uses: Uses, s: Step) {
    match s
    case Open(f) => f !in t.lists
    case Create(fb) => fb !in t.recs
    case Identify(fb, id) => fb in uses && fb in t.recs && t.recs[fb].id == 0 && t.recs[fb].owner == null &&
      id != 0 && id !in t.idr
    case Enlist(f, fb) => f in t.lists && fb in uses && fb in t.recs && t.recs[fb].id != 0 && t.recs[fb].owner == null
    case Look(id) => id in t.idr && t.idr[id] in t.recs
    case Share(fb) => fb in uses && fb in t.recs
    case Release(fb) => fb in uses && fb in t.recs
    case Reap(f, fb) => f in t.lists && fb in t.lists[f] && fb in t.recs
  }

  function After(t: Table, s: Step, uses: Uses): Table
    requires Enabled(t, uses, s)
  {
    match s
    case Open(f) => Opened(t, f)
    case Create(fb) => Adopted(t, fb)
    case Identify(fb, id) => Identified(t, fb, id)
    case Enlist(f, fb) => Entered(t, f, fb)
    case Look(id) => Got(t, t.idr[id])
    case Share(fb) => Got(t, fb)
    case Release(fb) => Dropped(t, fb)
    case Reap(f, fb) => Reaped(t, f, fb)
  }

  function UsesAfter(t: Table, s: Step, uses: Uses): Uses
    requires Enabled(t, uses, s)
  {
    match s
    case Open(f) => uses
    case Create(fb) => uses + multiset{fb}
    case Identify(fb, id) => uses
    case Enlist(f, fb) => uses - multiset{fb}
    case Look(id) => uses + multiset{t.idr[id]}
    case Share(fb) => uses + multiset{fb}
    case Release(fb) => uses - multiset{fb}
    case Reap(f, fb) => uses + multiset{fb}
  }

  /** A step by whoever owns `uses` keeps the accounts of everybody; `mine` are the uses of others. */
  lemma StepKeeps(t: Table, mine: Uses, uses: Uses, s: Step)
    requires Consistent(t, mine + uses) && Enabled(t, uses, s)
    ensures Consistent(After(t, s, uses), mine + UsesAfter(t, s, uses))
  {
    hide Consistent, Got, Dropped, Adopted, Identified, Entered, Reaped, Opened;
    var total := mine + uses;
    match s
    case Open(f) => OpenedKeeps(t, total, f);
    case Create(fb) => AdoptedKeeps(t, total, fb); assert mine + (uses + multiset{fb}) == total + multiset{fb};
    case Identify(fb, id) => UsedIsLive(t, total, fb); IdentifiedKeeps(t, total, fb, id);
    case Enlist(f, fb) => EnteredKeeps(t, total, f, fb); assert mine + (uses - multiset{fb}) == total - multiset{fb};
    case Look(id) =>
      IdrIsLive(t, total, id);
      GotKeeps(t, total, t.idr[id]);
      assert mine + (uses + multiset{t.idr[id]}) == total + multiset{t.idr[id]};
    case Share(fb) =>
      UsedIsLive(t, total, fb);
      GotKeeps(t, total, fb);
      assert mine + (uses + multiset{fb}) == total + multiset{fb};
    case Release(fb) => DroppedKeeps(t, total, fb); assert mine + (uses - multiset{fb}) == total - multiset{fb};
    case Reap(f, fb) => ReapedKeeps(t, total, f, fb); assert mine + (uses + multiset{fb}) == total + multiset{fb};
  }

  lemma IdrIsLive(t: Table, uses: Uses, id: nat)
    requires Consistent(t, uses) && id in t.idr
    ensures t.idr[id] in t.recs && t.recs[t.idr[id]].id == id && id != 0 && t.recs[t.idr[id]].refcount > 0
  {
    UsedIsLive(t, uses, t.idr[id]);
  }

  /** A destroyed framebuffer is out of reach of every step, so it is never destroyed again. */
  lemma DeadIsUntouched(t: Table, mine: Uses, uses: Uses, s: Step, fb: Framebuffer)
    requires Consistent(t, mine + uses) && Enabled(t, uses, s)
    requires fb in t.recs && t.recs[fb].refcount == 0
    ensures fb in After(t, s, uses).recs && After(t, s, uses).recs[fb] == t.recs[fb]
  {
    var total := mine + uses;
    match s
    case Open(f) =>
    case Create(g) =>
    case Identify(g, id) => UsedIsLive(t, total, g);
    case Enlist(f, g) => UsedIsLive(t, total, g);
    case Look(id) => IdrIsLive(t, total, id);
    case Share(g) => UsedIsLive(t, total, g);
    case Release(g) => UsedIsLive(t, total, g);
    case Reap(f, g) => ListedIsIdentified(t, total, f, g);
  }

  ghost predicate Possible(t: Table, uses: Uses, steps: seq<Step>)
    decreases |steps|
  {
    steps == [] || (Enabled(t, uses, steps[0])
      && Possible(After(t, steps[0], uses), UsesAfter(t, steps[0], uses), steps[1..]))
  }

  ghost function Final(t: Table, uses: Uses, steps: seq<Step>): (Table, Uses)
    requires Possible(t, uses, steps)
    decreases |steps|
  {
    if steps == [] then (t, uses)
    else Final(After(t, steps[0], uses), UsesAfter(t, steps[0], uses), steps[1..])
  }

  /** Every run, however the steps of the ioctls interleave, keeps the accounts; and a framebuffer
      that was destroyed stays as it is: destroyed once, with nothing referring to it. */
  lemma {:induction false} RunKeeps(t: Table, mine: Uses, uses: Uses, steps: seq<Step>)
    requires Consistent(t, mine + uses) && Possible(t, uses, steps)
    ensures var (t', uses') := Final(t, uses, steps);
      && Consistent(t', mine + uses')
      && (forall fb :: fb in t.recs && t.recs[fb].refcount == 0 ==>
        fb in t'.recs && t'.recs[fb] == t.recs[fb] && t'.recs[fb].destroyed == 1)
    decreases |steps|
  {
    hide Consistent, Enabled, After, UsesAfter;
    if steps == [] {
      forall fb | fb in t.recs && t.recs[fb].refcount == 0
        ensures t.recs[fb].destroyed == 1
      {
        DeadOnce(t, mine + uses, fb);
      }
    } else {
      var t1, uses1 := After(t, steps[0], uses), UsesAfter(t, steps[0], uses);
      StepKeeps(t, mine, uses, steps[0]);
      RunKeeps(t1, mine, uses1, steps[1..]);
      forall fb | fb in t.recs && t.recs[fb].refcount == 0
        ensures fb in t1.recs && t1.recs[fb] == t.recs[fb]
      {
        DeadIsUntouched(t, mine, uses, steps[0], fb);
      }
    }
  }

  lemma DeadOnce(t: Table, uses: Uses, fb: Framebuffer)
    requires Consistent(t, uses) && fb in t.recs && t.recs[fb].refcount == 0
    ensures t.recs[fb].destroyed == 1
  {
  }

  /** The count can never increase from one again: while I hold the only reference to a reaped
      framebuffer, no step of anybody else touches it. */
  lemma SoleUseIsUntouched(t: Table, fb: Framebuffer, uses: Uses, s: Step)
    requires Consistent(t, multiset{fb} + uses) && Enabled(t, uses, s)
    requires fb !in uses && fb in t.recs && t.recs[fb].id == 0 && t.recs[fb].owner == null
    ensures fb in After(t, s, uses).recs && After(t, s, uses).recs[fb] == t.recs[fb]
    ensures fb !in UsesAfter(t, s, uses)
  {
    var total := multiset{fb} + uses;
    match s
    case Open(f) =>
    case Create(g) =>
    case Identify(g, id) =>
    case Enlist(f, g) =>
    case Look(id) => IdrIsLive(t, total, id);
    case Share(g) =>
    case Release(g) =>
    case Reap(f, g) => ListedIsIdentified(t, total, f, g);
  }

  lemma {:induction false} LastHolderStaysLast(t: Table, fb: Framebuffer, uses: Uses, steps: seq<Step>)
    requires Consistent(t, multiset{fb} + uses) && Possible(t, uses, steps)
    requires fb in t.recs && t.recs[fb].refcount == 1
    ensures var (t', uses') := Final(t, uses, steps);
      fb in t'.recs && t'.recs[fb] == t.recs[fb] && fb !in uses'
    decreases |steps|
  {
    LastHolder(t, multiset{fb} + uses, fb);
    assert fb !in uses;
    hide Consistent, Enabled, After, UsesAfter;
    if steps != [] {
      SoleUseIsUntouched(t, fb, uses, steps[0]);
      StepKeeps(t, multiset{fb}, uses, steps[0]);
      LastHolderStaysLast(After(t, steps[0], uses), fb, UsesAfter(t, steps[0], uses), steps[1..]);
    }
  }
}
