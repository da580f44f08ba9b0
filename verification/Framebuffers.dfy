/** Framebuffer lifetime: the device with its framebuffers, and the ioctls that move references. */
module Framebuffers {
  import opened Errno
  import opened KmsObjects
  import opened FbTable
  import opened Routing
  import opened SetModeTrace
  import FramebufferCheck
  import opened ModeSetTransaction

  ghost predicate Above(b: nat, used: set<nat>) {
    b > 0 && forall x :: x in used ==> x < b
  }

  /** The id table never runs out of ids. */
  lemma {:induction false} FreshId(used: set<nat>) returns (b: nat)
    ensures Above(b, used)
  {
    b := 1;
    if used != {} {
      var x :| x in used;
      var b' := FreshId(used - {x});
      b := if x < b' then b' else x + 1;
      assert forall y :: y in used ==> y == x || y in used - {x};
    }
  }

  ghost function ShownBy(crtcs: seq<Crtc>): (s: seq<Framebuffer?>)
    reads crtcs`fb
    ensures |s| == |crtcs| && forall i :: 0 <= i < |s| ==> s[i] == crtcs[i].fb
  {
    if crtcs == [] then [] else ShownBy(crtcs[..|crtcs| - 1]) + [crtcs[|crtcs| - 1].fb]
  }

  ghost function OnPlanes(planes: seq<Plane>): (s: seq<Framebuffer?>)
    reads planes`fb
    ensures |s| == |planes| && forall i :: 0 <= i < |s| ==> s[i] == planes[i].fb
  {
    if planes == [] then [] else OnPlanes(planes[..|planes| - 1]) + [planes[|planes| - 1].fb]
  }

  /** A device with its framebuffers.  `held` counts the references of lookups in flight, of this
      ioctl and of all others; `all` collects every framebuffer that was ever created. */
  class Device {
    const cfg: ModeConfig
    const drv: Driver
    const planes: seq<Plane>
    const minWidth: nat
    const maxWidth: nat
    const minHeight: nat
    const maxHeight: nat
    var idr: map<nat, Framebuffer>
    var best: map<Connector, Encoder?>   // the driver's best_encoder
    var files: set<DrmFile>   // the open files
    ghost var all: set<Framebuffer>
    ghost var held: Uses

    ghost function CrtcFbs(): (s: seq<Framebuffer?>)
      reads cfg.crtcs`fb
      ensures |s| == |cfg.crtcs| && forall i :: 0 <= i < |s| ==> s[i] == cfg.crtcs[i].fb
    {
      ShownBy(cfg.crtcs)
    }

    ghost function PlaneFbs(): (s: seq<Framebuffer?>)
      reads planes`fb
      ensures |s| == |planes| && forall i :: 0 <= i < |s| ==> s[i] == planes[i].fb
    {
      OnPlanes(planes)
    }

    /** The uses of framebuffers by CRTCs and planes. */
    ghost function Shown(): Uses
      reads planes`fb, cfg.crtcs`fb
    {
      multiset(CrtcFbs()) + multiset(PlaneFbs())
    }

    ghost function RecsNow(): map<Framebuffer, Record>
      reads this`all, all`refcount, all`destroyed, all`id, all`owner
    {
      map fb | fb in all :: Record(fb.refcount, fb.id, fb.owner, fb.destroyed)
    }

    ghost function ListsNow(): map<DrmFile, seq<Framebuffer>>
      reads this`files, files`fbs
    {
      map f | f in files :: f.fbs
    }

    ghost function TableNow(): Table
      reads this`idr, this`all, this`files, all`refcount, all`destroyed, all`id, all`owner, files`fbs
    {
      Table(RecsNow(), ListsNow(), idr)
    }

    /** The objects of the device and the driver's contract. */
    ghost predicate Shape()
      reads this`best, cfg.connectors`encoder, cfg.encoders`crtc
    {
      && cfg.Valid() && Distinct(planes)
      && (forall c :: c in cfg.connectors ==> c in best && (best[c] != null ==> best[c] in cfg.encoders))
    }

    /** The accounts, for a given collection of uses. */
    ghost predicate Books(uses: Uses)
      reads this`idr, this`all, this`files, all`refcount, all`destroyed, all`id, all`owner, files`fbs
    {
      Consistent(TableNow(), uses)
    }

    /** The invariant between the steps of ioctls: the uses are what CRTCs and planes show, and the
        lookups in flight. */
    ghost predicate Inv()
      reads this, planes`fb, cfg.crtcs`fb, cfg.connectors`encoder, cfg.encoders`crtc
      reads all`refcount, all`destroyed, all`id, all`owner, files`fbs
    {
      Shape() && Books(Shown() + held)
    }

    /** A device at load time: nothing is shown and no framebuffer exists. */
    constructor (cfg: ModeConfig, drv: Driver, planes: seq<Plane>, best: map<Connector, Encoder?>,
                 minWidth: nat, maxWidth: nat, minHeight: nat, maxHeight: nat)
      requires cfg.Valid() && Distinct(planes)
      requires forall c :: c in cfg.connectors ==> c in best && (best[c] != null ==> best[c] in cfg.encoders)
      requires forall c :: c in cfg.crtcs ==> c.fb == null
      requires forall p :: p in planes ==> p.fb == null
      ensures Inv()
      ensures this.cfg == cfg && this.drv == drv && this.planes == planes
      ensures all == {} && files == {} && held == multiset{}
    {
      this.cfg, this.drv, this.planes, this.best := cfg, drv, planes, best;
      this.minWidth, this.maxWidth, this.minHeight, this.maxHeight := minWidth, maxWidth, minHeight, maxHeight;
      idr := map[];
      files, all, held := {}, {}, multiset{};
      new;
      hide *;
      EmptyInv();
    }

    lemma EmptyInv()
      requires cfg.Valid() && Distinct(planes)
      requires forall c :: c in cfg.connectors ==> c in best && (best[c] != null ==> best[c] in cfg.encoders)
      requires forall c :: c in cfg.crtcs ==> c.fb == null
      requires forall p :: p in planes ==> p.fb == null
      requires all == {} && files == {} && held == multiset{} && idr == map[]
      ensures Inv()
    {
      hide ShownBy, OnPlanes, ModeConfig.Valid, Distinct;
      assert TableNow() == Table(map[], map[], map[]);
      NothingUsed(CrtcFbs(), PlaneFbs());
    }

    /** A file is opened: an empty list. */
    method OpenFile(file: DrmFile)
      requires Inv() && file !in files && file.fbs == []
      modifies this`files
      ensures Inv() && files == old(files) + {file}
    {
      hide Shape, Shown, Consistent;
      OpenedKeeps(TableNow(), Shown() + held, file);
      AddFile(file);
    }

    method AddFile(file: DrmFile)
      requires file.fbs == []
      modifies this`files
      ensures files == old(files) + {file}
      ensures TableNow() == Opened(old(TableNow()), file)
    {
      files := files + {file};
    }

    // ----- the steps on the table

    /** drm_framebuffer_reference */
    method Get(fb: Framebuffer)
      requires fb in all
      modifies fb`refcount
      ensures TableNow() == Got(old(TableNow()), fb)
    {
      hide ListsNow;
      fb.refcount := fb.refcount + 1;
    }

    /** drm_framebuffer_unreference: the last reference destroys the framebuffer. */
    method Put(fb: Framebuffer)
      requires fb in all
      modifies fb`refcount, fb`destroyed
      ensures TableNow() == Dropped(old(TableNow()), fb)
    {
      hide ListsNow;
      fb.refcount := fb.refcount - 1;
      if fb.refcount == 0 {
        fb.destroyed := fb.destroyed + 1;
      }
    }

    /** The unreference whose last-reference callback is BUG(): there is always another reference. */
    method PutNotLast(fb: Framebuffer)
      requires fb in all && fb.refcount > 1
      modifies fb`refcount
      ensures fb.refcount == old(fb.refcount) - 1
      ensures TableNow() == FbTable.Dropped(old(TableNow()), fb)
    {
      hide ListsNow;
      fb.refcount := fb.refcount - 1;
      assert fb.refcount != 0;
    }

    /** A new framebuffer: one reference, its creator's. */
    method Adopt(fb: Framebuffer)
      requires fb !in all && fb.refcount == 1 && fb.id == 0 && fb.owner == null && fb.destroyed == 0
      modifies this`all
      ensures all == old(all) + {fb}
      ensures TableNow() == Adopted(old(TableNow()), fb)
    {
      hide ListsNow;
      all := all + {fb};
    }

    /** Enter a framebuffer into the id table, which takes a reference of its own. */
    method AssignId(fb: Framebuffer)
      requires fb in all
      modifies this`idr, fb`id, fb`refcount
      ensures fb.id != 0 && fb.id !in old(idr)
      ensures TableNow() == Identified(old(TableNow()), fb, fb.id)
    {
      hide ListsNow;
      ghost var bound := FreshId(idr.Keys);
      assert bound != 0 && bound !in idr;
      var id: nat :| id != 0 && id !in idr;
      fb.id := id;
      idr := idr[id := fb];
      fb.refcount := fb.refcount + 1;
    }

    method EnterList(file: DrmFile, fb: Framebuffer)
      requires fb in all && file in files
      modifies file`fbs, fb`owner
      ensures TableNow() == Entered(old(TableNow()), file, fb)
    {
      file.fbs := [fb] + file.fbs;
      fb.owner := file;
    }

    /** __drm_framebuffer_unregister: out of the id table, whose reference is dropped. */
    method Unregister(fb: Framebuffer)
      requires fb in all && fb.refcount > 1
      modifies this`idr, fb`id, fb`refcount
      ensures TableNow() == Unregistered(old(TableNow()), fb)
    {
      assert TableNow().recs[fb].refcount == fb.refcount;
      hide TableNow;
      ClearId(fb);
      PutNotLast(fb);
    }

    method ClearId(fb: Framebuffer)
      requires fb in all
      modifies this`idr, fb`id
      ensures TableNow() == var t := old(TableNow());
        t.(recs := t.recs[fb := t.recs[fb].(id := 0)], idr := t.idr - {t.recs[fb].id})
    {
      hide ListsNow;
      idr := idr - {fb.id};
      fb.id := 0;
    }

    /** list_del_init on the file's list. */
    method Delist(file: DrmFile, fb: Framebuffer)
      requires fb in all && file in files
      modifies file`fbs, fb`owner
      ensures TableNow() == Delisted(old(TableNow()), file, fb)
    {
      hide ListDel;
      file.fbs := ListDel(file.fbs, fb);
      fb.owner := null;
    }

    // ----- references in flight

    /** What the accounts say about one framebuffer in use, in the id table or on a list. */
    lemma UsedFacts(uses: Uses, fb: Framebuffer)
      requires Books(uses)
      requires fb in uses || (fb in all && (fb.id != 0 || fb.owner != null))
      ensures fb in all && fb.refcount > 0 && fb.destroyed == 0
    {
      hide Consistent;
      if fb !in uses {
        assert TableNow().recs[fb].id == fb.id;
      }
      UsedIsLive(TableNow(), uses, fb);
      assert fb in TableNow().recs && fb in all && TableNow().recs[fb].refcount == fb.refcount;
    }

    lemma IdFacts(uses: Uses, id: nat)
      requires Books(uses) && id in idr
      ensures idr[id] in all && idr[id].id == id && id != 0
    {
      hide Counted, Listed;
      assert TableNow().idr == idr;
    }

    /** One use more of a framebuffer that somebody uses or can look up. */
    method GetUse(fb: Framebuffer, ghost uses: Uses)
      requires Books(uses) && fb in all && fb.refcount > 0
      modifies fb`refcount
      ensures Books(uses + multiset{fb})
    {
      hide Consistent, Got;
      assert TableNow().recs[fb].refcount == fb.refcount;
      GotKeeps(TableNow(), uses, fb);
      hide TableNow;
      Get(fb);
    }

    /** One use less. */
    method PutUse(fb: Framebuffer, ghost uses: Uses)
      requires Books(uses) && fb in uses
      modifies fb`refcount, fb`destroyed
      ensures Books(uses - multiset{fb})
    {
      hide Consistent, FbTable.Dropped;
      UsedFacts(uses, fb);
      DroppedKeeps(TableNow(), uses, fb);
      hide TableNow;
      Put(fb);
    }

    /** drm_framebuffer_lookup: find a framebuffer by id and take a reference in flight. */
    method Lookup(id: nat) returns (fb: Framebuffer?)
      requires Inv()
      modifies this`held, all`refcount
      ensures Inv()
      ensures (fb == null) == (id !in idr)
      ensures fb != null ==> fb == idr[id] && held == old(held) + multiset{fb}
      ensures fb == null ==> held == old(held)
    {
      hide Shape, Books, Shown;
      fb := null;
      if id in idr {
        fb := idr[id];
        IdFacts(Shown() + held, id);
        UsedFacts(Shown() + held, fb);
        MoreHeld(Shown(), held, fb);
        GetUse(fb, Shown() + held);
        held := held + multiset{fb};
      }
    }

    /** Drop a reference in flight. */
    method Drop(fb: Framebuffer)
      requires Inv() && fb in held
      modifies this`held, fb`refcount, fb`destroyed
      ensures Inv()
      ensures held == old(held) - multiset{fb}
    {
      hide Shape, Books, Shown;
      MoreHeld(Shown(), held, fb);
      PutUse(fb, Shown() + held);
      held := held - multiset{fb};
    }

    // ----- creation and reaping

    /** drm_framebuffer_init: a new framebuffer enters the id table; its creator holds it too. */
    method InitFb(request: FramebufferCheck.Request) returns (fb: Framebuffer)
      requires Inv()
      modifies this`idr, this`all, this`held
      ensures Inv() && fresh(fb) && fb.request == request
      ensures all == old(all) + {fb} && held == old(held) + multiset{fb}
      ensures fb.owner == null && fb.id != 0 && fb.id !in old(idr) && idr == old(idr)[fb.id := fb]
    {
      hide Shape, Shown, Books, ListDel;
      fb := new Framebuffer(request);
      EnterTable(fb, Shown() + held);
      MoreHeld(Shown(), held, fb);
      held := held + multiset{fb};
    }

    method EnterTable(fb: Framebuffer, ghost uses: Uses)
      requires Books(uses) && fb !in all
      requires fb.refcount == 1 && fb.id == 0 && fb.owner == null && fb.destroyed == 0
      modifies this`idr, this`all, fb`id, fb`refcount
      ensures Books(uses + multiset{fb})
      ensures all == old(all) + {fb}
      ensures fb.id != 0 && fb.id !in old(idr) && idr == old(idr)[fb.id := fb]
    {
      hide Consistent;
      assert fb !in TableNow().recs;
      AdoptedKeeps(TableNow(), uses, fb);
      Adopt(fb);
      ghost var t := TableNow();
      assert t.idr == idr;
      AssignId(fb);
      IdentifiedKeeps(t, uses + multiset{fb}, fb, fb.id);
      assert TableNow().idr == idr;
    }

    /** Put a framebuffer on a file's list, which takes over the creator's reference. */
    method ListFb(file: DrmFile, fb: Framebuffer)
      requires Inv() && file in files
      requires fb in all && fb in held && fb.owner == null && fb.id != 0
      modifies this`held, file`fbs, fb`owner
      ensures Inv()
      ensures held == old(held) - multiset{fb} && file.fbs == [fb] + old(file.fbs) && fb.owner == file
    {
      hide Shape, Shown, Books, ListDel;
      MoreHeld(Shown(), held, fb);
      ListFbBooks(file, fb, Shown() + held);
      held := held - multiset{fb};
    }

    method ListFbBooks(file: DrmFile, fb: Framebuffer, ghost uses: Uses)
      requires Books(uses) && file in files
      requires fb in all && fb in uses && fb.owner == null && fb.id != 0
      modifies file`fbs, fb`owner
      ensures Books(uses - multiset{fb})
      ensures file.fbs == [fb] + old(file.fbs) && fb.owner == file
    {
      hide Consistent;
      EnteredKeeps(TableNow(), uses, file, fb);
      EnterList(file, fb);
      assert TableNow().lists[file] == file.fbs && TableNow().recs[fb].owner == fb.owner;
    }

    predicate SizeAllowed(width: nat, height: nat) {
      minWidth <= width <= maxWidth && minHeight <= height <= maxHeight
    }

    /** Make a framebuffer and list it with the file.  The driver's fb_create may fail. */
    method CreateFb(file: DrmFile, r: FramebufferCheck.Request) returns (ret: int, id: nat)
      requires Inv() && file in files
      modifies this`idr, this`all, this`held, file`fbs
      ensures Inv() && held == old(held)
      ensures ret == 0 || ret == -ENOMEM
      ensures ret != 0 ==> all == old(all) && idr == old(idr) && file.fbs == old(file.fbs)
      ensures ret == 0 ==>
        && id !in old(idr) && id in idr && idr == old(idr)[id := idr[id]]
        && fresh(idr[id]) && all == old(all) + {idr[id]} && file.fbs == [idr[id]] + old(file.fbs)
        && idr[id].request == r
    {
      hide Inv;
      var created: bool := *;
      if !created {
        return -ENOMEM, 0;
      }
      var fb := InitFb(r);
      id := fb.id;
      ListFb(file, fb);
      MoreHeld(multiset{}, old(held), fb);
      ret := 0;
    }

    /** drm_mode_addfb2: what it lists passed the check of formats, sizes, pitches and offsets. */
    method AddFb(file: DrmFile, r: FramebufferCheck.Request, flags: nat) returns (ret: int, id: nat)
      requires Inv() && file in files && r.WellFormed()
      modifies this`idr, this`all, this`held, file`fbs
      ensures Inv() && held == old(held)
      ensures ret == 0 ==> flags <= 1 && SizeAllowed(r.width, r.height) && r.Acceptable()
      ensures flags > 1 || !SizeAllowed(r.width, r.height) ==> ret == -EINVAL
      ensures ret != 0 ==> all == old(all) && idr == old(idr) && file.fbs == old(file.fbs)
      ensures ret == 0 ==>
        && id !in old(idr) && id in idr && idr == old(idr)[id := idr[id]]
        && fresh(idr[id]) && all == old(all) + {idr[id]} && file.fbs == [idr[id]] + old(file.fbs)
        && idr[id].request == r
    {
      hide Inv, FramebufferCheck.Request.Acceptable, FramebufferCheck.PlanesError;
      if flags > 1 {
        return -EINVAL, 0;
      }
      if minWidth > r.width || r.width > maxWidth || minHeight > r.height || r.height > maxHeight {
        return -EINVAL, 0;
      }
      ret := FramebufferCheck.Check(r);
      if ret != 0 {
        return ret, 0;
      }
      ret, id := CreateFb(file, r);
    }

    /** drm_mode_addfb, the older request: only the size is checked. */
    method AddLegacyFb(file: DrmFile, width: nat, height: nat, pitch: nat, bpp: nat, depth: nat, handle: nat)
      returns (ret: int, id: nat)
      requires Inv() && file in files
      requires width <= FramebufferCheck.UINT_MAX && height <= FramebufferCheck.UINT_MAX
      requires pitch <= FramebufferCheck.UINT_MAX
      modifies this`idr, this`all, this`held, file`fbs
      ensures Inv() && held == old(held)
      ensures if SizeAllowed(width, height) then ret == 0 || ret == -ENOMEM else ret == -EINVAL
      ensures ret != 0 ==> all == old(all) && idr == old(idr) && file.fbs == old(file.fbs)
      ensures ret == 0 ==>
        && id !in old(idr) && id in idr && idr == old(idr)[id := idr[id]]
        && fresh(idr[id]) && all == old(all) + {idr[id]} && file.fbs == [idr[id]] + old(file.fbs)
        && idr[id].request == FramebufferCheck.LegacyRequest(width, height, pitch, bpp, depth, handle)
    {
      hide Inv;
      if minWidth > width || width > maxWidth || minHeight > height || height > maxHeight {
        return -EINVAL, 0;
      }
      ret, id := CreateFb(file, FramebufferCheck.LegacyRequest(width, height, pitch, bpp, depth, handle));
    }

    /** Reap a listed framebuffer: out of the id table and off the list.  The id table's reference
        is dropped; the list's reference passes to the caller. */
    method Reap(file: DrmFile, fb: Framebuffer)
      requires Inv() && file in files && fb in file.fbs
      modifies this`idr, this`held, file`fbs, fb`id, fb`owner, fb`refcount
      ensures Inv()
      ensures held == old(held) + multiset{fb}
      ensures fb in all && fb.id == 0 && fb.owner == null
      ensures idr == old(idr) - {old(fb.id)}
      ensures file.fbs == ListDel(old(file.fbs), fb)
    {
      hide Shape, Shown, Books, ListDel;
      ReapBooks(file, fb, Shown() + held);
      MoreHeld(Shown(), held, fb);
      held := held + multiset{fb};
    }

    method ReapBooks(file: DrmFile, fb: Framebuffer, ghost uses: Uses)
      requires Books(uses) && file in files && fb in file.fbs
      modifies this`idr, file`fbs, fb`id, fb`owner, fb`refcount
      ensures Books(uses + multiset{fb})
      ensures fb in all && fb.id == 0 && fb.owner == null
      ensures idr == old(idr) - {old(fb.id)}
      ensures file.fbs == ListDel(old(file.fbs), fb)
    {
      hide Consistent, ListDel;
      ghost var t := TableNow();
      assert t.lists[file] == file.fbs;
      ListedIsIdentified(t, uses, file, fb);
      assert fb in all && t.recs[fb].refcount == fb.refcount && t.recs[fb].id == fb.id;
      ReapedKeeps(t, uses, file, fb);
      Unregister(fb);
      Delist(file, fb);
      assert TableNow().recs[fb] == Record(fb.refcount, fb.id, fb.owner, fb.destroyed);
      assert TableNow().idr == idr && TableNow().lists[file] == file.fbs;
    }

    // ----- mode sets

    ghost predicate ValidSet(req: ModeSet)
      reads this`best, this`held
    {
      && (forall c :: c in req.connectors ==> c in best)
      && ValidRequest(cfg, req, best)
      && (req.fb != null ==> req.fb in held)
    }

    /** Remember what each CRTC shows. */
    method RememberFbs()
      modifies cfg.crtcs`oldFb
      ensures forall c :: c in cfg.crtcs ==> c.oldFb == c.fb
    {
      for i := 0 to |cfg.crtcs|
        invariant forall k :: 0 <= k < i ==> cfg.crtcs[k].oldFb == cfg.crtcs[k].fb
      {
        cfg.crtcs[i].oldFb := cfg.crtcs[i].fb;
      }
    }

    /** Account for one CRTC: reference what it shows now, drop what it showed before. */
    method Exchange(crtc: Crtc, ghost rest: Uses, ghost olds: seq<Framebuffer?>, ghost news: seq<Framebuffer?>,
                    ghost i: nat)
      requires i < |olds| == |news| && crtc.oldFb == olds[i] && crtc.fb == news[i]
      requires Books(multiset(Mix(olds, news, i)) + rest)
      requires news[i] == olds[i] || news[i] == null || news[i] in rest
      modifies all`refcount, all`destroyed
      ensures Books(multiset(Mix(olds, news, i + 1)) + rest)
    {
      hide Books, Mix;
      MixStep(olds, news, i);
      ghost var uses := multiset(Mix(olds, news, i)) + rest;
      if crtc.fb != null {
        UsedFacts(uses, crtc.fb);
        GetUse(crtc.fb, uses);
        uses := uses + multiset{crtc.fb};
      }
      if crtc.oldFb != null {
        UsedFacts(uses, crtc.oldFb);
        PutUse(crtc.oldFb, uses);
        uses := uses - multiset{crtc.oldFb};
      }
      ExchangedUses(multiset(Mix(olds, news, i)), rest, olds[i], news[i]);
      SameBooks(uses, multiset(Mix(olds, news, i + 1)) + rest);
    }

    lemma SameBooks(uses: Uses, uses': Uses)
      requires Books(uses)
      requires forall fb: Framebuffer {:trigger uses'[fb]} :: uses[fb] == uses'[fb]
      ensures Books(uses')
    {
      SameUses(TableNow(), uses, uses');
    }

    /** Account for what a mode set did to each CRTC. */
    method ExchangeAll(ghost rest: Uses, ghost olds: seq<Framebuffer?>, ghost news: seq<Framebuffer?>)
      requires |olds| == |news| == |cfg.crtcs|
      requires forall i :: 0 <= i < |olds| ==> cfg.crtcs[i].oldFb == olds[i] && cfg.crtcs[i].fb == news[i]
      requires forall i :: 0 <= i < |olds| ==> news[i] == olds[i] || news[i] == null || news[i] in rest
      requires Books(multiset(olds) + rest)
      modifies all`refcount, all`destroyed
      ensures Books(multiset(news) + rest)
    {
      hide Books, Mix;
      MixEnds(olds, news);
      for i := 0 to |cfg.crtcs|
        invariant Books(multiset(Mix(olds, news, i)) + rest)
      {
        Exchange(cfg.crtcs[i], rest, olds, news, i);
      }
    }

    lemma ValidNow(req: ModeSet)
      requires Shape() && ValidRequest(cfg, req, best)
      ensures cfg.Valid() && (req.fb != null ==> req.mode.Some?)
    {
    }

    lemma CrtcOfRequest(req: ModeSet)
      requires ValidRequest(cfg, req, best)
      ensures req.crtc in cfg.crtcs && (req.fb != null ==> req.mode.Some?)
    {
    }

    /** What the driver was told since `before`. */
    ghost function ToldSince(before: seq<Call>): seq<Call>
      reads drv`calls
    {
      if before <= drv.calls then drv.calls[|before|..] else []
    }

    /** The driver's part of a mode set, with what the CRTCs showed before remembered. */
    method CallSetConfig(req: ModeSet) returns (ret: int, ghost full: bool)
      requires Shape() && ValidRequest(cfg, req, best)
      modifies cfg.crtcs, cfg.encoders, cfg.connectors, drv`calls
      ensures Shape()
      ensures forall c :: c in cfg.crtcs ==> c.oldFb == old(c.fb)
      ensures forall c :: c in cfg.crtcs ==> c.fb == old(c.fb) || c.fb == null || (c == req.crtc && c.fb == req.fb)
      ensures req.fb == null ==> ret == 0 && req.crtc.fb == null
      ensures ret == 0 && req.fb != null ==>
        && Carried(cfg, req, old(PlanOf(cfg, req, best)), full, old(BaseMoves(req)), ToldSince(old(drv.calls)))
        && (old(NeedsMode(req, req.mode.value)) ==> full)
      ensures ret != 0 ==> forall c :: c in cfg.crtcs ==> c.fb == old(c.fb)
      ensures forall c :: c in cfg.connectors ==> c.status == old(c.status)
      ensures forall c :: c in cfg.crtcs && (ret != 0 || c != req.crtc) ==>
        c.mode == old(c.mode) && c.x == old(c.x) && c.y == old(c.y)
    {
      hide ModeConfig.Valid, ValidRequest, Distinct, ModeConfig.CrtcInUse, PlanOf, Carried, Granted, FullCalls,
           FailedModeSet, CleanUp, NeedsFull, Covers, Links, EncodersNow, StartRoutes, Routed, Served, OnCrtc;
      CrtcOfRequest(req);
      ghost var before := drv.calls;
      ghost var moves := BaseMoves(req);
      RememberFbs();
      ghost var plan := PlanOf(cfg, req, best);
      ret, full := SetConfig(cfg, drv, req, best);
      if ret == 0 && req.fb != null {
        CarriedOut(cfg, req, plan, full, moves, before, drv.calls);
      }
    }

    lemma NewsAllowed(olds: seq<Framebuffer?>, news: seq<Framebuffer?>, req: ModeSet, rest: Uses)
      requires |olds| == |news| == |cfg.crtcs|
      requires forall i :: 0 <= i < |olds| ==> cfg.crtcs[i].oldFb == olds[i] && cfg.crtcs[i].fb == news[i]
      requires forall c :: c in cfg.crtcs ==> c.fb == c.oldFb || c.fb == null || (c == req.crtc && c.fb == req.fb)
      requires req.fb != null ==> req.fb in rest
      ensures forall i :: 0 <= i < |olds| ==> news[i] == olds[i] || news[i] == null || news[i] in rest
    {
      forall i | 0 <= i < |olds|
        ensures news[i] == olds[i] || news[i] == null || news[i] in rest
      {
        assert cfg.crtcs[i] in cfg.crtcs;
      }
    }

    /** The mode set itself leaves the accounts alone; they now lag behind what the CRTCs show. */
    method RunSetConfig(req: ModeSet, ghost rest: Uses)
      returns (ret: int, ghost full: bool, ghost olds: seq<Framebuffer?>, ghost news: seq<Framebuffer?>)
      requires Shape() && ValidRequest(cfg, req, best) && Books(multiset(CrtcFbs()) + rest)
      requires req.fb != null ==> req.fb in rest
      modifies cfg.crtcs, cfg.encoders, cfg.connectors, drv`calls
      ensures Shape() && Books(multiset(olds) + rest) && PlaneFbs() == old(PlaneFbs())
      ensures |olds| == |news| == |cfg.crtcs| && news == CrtcFbs()
      ensures forall i :: 0 <= i < |olds| ==> cfg.crtcs[i].oldFb == olds[i] && cfg.crtcs[i].fb == news[i]
      ensures forall i :: 0 <= i < |olds| ==> news[i] == olds[i] || news[i] == null || news[i] in rest
      ensures forall c :: c in cfg.crtcs ==> c.fb == old(c.fb) || c.fb == null || (c == req.crtc && c.fb == req.fb)
      ensures req.fb == null ==> ret == 0 && req.crtc.fb == null
      ensures ret == 0 && req.fb != null ==>
        && Carried(cfg, req, old(PlanOf(cfg, req, best)), full, old(BaseMoves(req)), ToldSince(old(drv.calls)))
        && (old(NeedsMode(req, req.mode.value)) ==> full)
      ensures ret != 0 ==> forall c :: c in cfg.crtcs ==> c.fb == old(c.fb)
      ensures forall c :: c in cfg.connectors ==> c.status == old(c.status)
      ensures forall c :: c in cfg.crtcs && (ret != 0 || c != req.crtc) ==>
        c.mode == old(c.mode) && c.x == old(c.x) && c.y == old(c.y)
    {
      hide Shape, Books, CrtcFbs, PlaneFbs, ValidRequest, PlanOf, Carried, NeedsMode, BaseMoves, ToldSince;
      ValidNow(req);
      olds := CrtcFbs();
      ret, full := CallSetConfig(req);
      news := CrtcFbs();
      NewsAllowed(olds, news, req, rest);
    }

    /** drm_mode_set_config_internal: run set_config and move the CRTCs' references along.  A mode
        set can take the framebuffer away from any CRTC, so all of them are accounted for. */
    method SetConfigInternal(req: ModeSet) returns (ret: int, ghost full: bool)
      requires Inv() && ValidSet(req)
      modifies all`refcount, all`destroyed, cfg.crtcs, cfg.encoders, cfg.connectors, drv`calls
      ensures Inv()
      ensures forall c :: c in cfg.crtcs ==> c.fb == old(c.fb) || c.fb == null || (c == req.crtc && c.fb == req.fb)
      ensures req.fb == null ==> ret == 0 && req.crtc.fb == null
      ensures ret == 0 && req.fb != null ==>
        && Carried(cfg, req, old(PlanOf(cfg, req, best)), full, old(BaseMoves(req)), ToldSince(old(drv.calls)))
        && (old(NeedsMode(req, req.mode.value)) ==> full)
      ensures ret != 0 ==> forall c :: c in cfg.crtcs ==> c.fb == old(c.fb)
      ensures forall c :: c in cfg.connectors ==> c.status == old(c.status)
      ensures forall c :: c in cfg.crtcs && (ret != 0 || c != req.crtc) ==>
        c.mode == old(c.mode) && c.x == old(c.x) && c.y == old(c.y)
    {
      hide Inv, Shape, Books, CrtcFbs, PlaneFbs, Shown, ValidSet, ValidRequest, PlanOf, Carried, NeedsMode, BaseMoves,
           ToldSince;
      ghost var rest := multiset(PlaneFbs()) + held;
      OpenForSet(req, rest);
      ValidNow(req);
      ghost var olds, news;
      ret, full, olds, news := RunSetConfig(req, rest);
      ExchangeAll(rest, olds, news);
      CloseInv(news, rest);
    }

    lemma OpenForSet(req: ModeSet, rest: Uses)
      requires Inv() && ValidSet(req) && rest == multiset(PlaneFbs()) + held
      ensures Shape() && ValidRequest(cfg, req, best) && Books(multiset(CrtcFbs()) + rest)
      ensures req.fb != null ==> req.fb in rest
    {
      hide Shape, Books, CrtcFbs, PlaneFbs, ValidRequest;
      RegroupUses(multiset(CrtcFbs()), multiset(PlaneFbs()), held);
    }

    lemma CloseInv(news: seq<Framebuffer?>, rest: Uses)
      requires news == CrtcFbs() && rest == multiset(PlaneFbs()) + held
      requires Shape() && Books(multiset(news) + rest)
      ensures Inv()
    {
      hide Shape, Books, CrtcFbs, PlaneFbs;
      RegroupUses(multiset(news), multiset(PlaneFbs()), held);
    }

    // ----- removal

    /** Write a plane's framebuffer and CRTC. */
    method WritePlane(i: int, fb: Framebuffer?, crtc: Crtc?)
      requires 0 <= i < |planes| && Distinct(planes)
      modifies planes[i]
      ensures PlaneFbs() == old(PlaneFbs())[i := fb]
      ensures planes[i].fb == fb && planes[i].crtc == crtc
    {
      ghost var before := PlaneFbs();
      DistinctAt(planes, i);
      planes[i].crtc := crtc;
      planes[i].fb := fb;
      assert PlaneFbs() == before[i := fb];
    }

    /** Change what a plane shows.  The plane's use of its old framebuffer becomes a reference in
        flight, and the reference in flight to the new one becomes the plane's. */
    method PointPlane(i: int, fb: Framebuffer?, crtc: Crtc?)
      requires Inv() && 0 <= i < |planes|
      requires fb != null ==> fb in held
      modifies planes[i], this`held
      ensures Inv()
      ensures PlaneFbs() == old(PlaneFbs())[i := fb]
      ensures held == old(held) - Token(fb) + Token(old(planes[i].fb))
      ensures planes[i].crtc == crtc
    {
      hide *;
      ghost var crtcs, before, held0, was := CrtcFbs(), PlaneFbs(), held, planes[i].fb;
      OpenInv();
      WritePlane(i, fb, crtc);
      held := held - Token(fb) + Token(was);
      Rebook(crtcs, before, held0, i, fb);
    }

    lemma OpenInv()
      requires Inv()
      ensures Shape() && Distinct(planes) && Distinct(cfg.crtcs) &&
        Books(multiset(CrtcFbs()) + multiset(PlaneFbs()) + held)
    {
    }

    lemma Rebook(crtcs: seq<Framebuffer?>, before: seq<Framebuffer?>, held0: Uses, i: int, fb: Framebuffer?)
      requires 0 <= i < |before| && (fb != null ==> fb in held0)
      requires Shape() && Books(multiset(crtcs) + multiset(before) + held0)
      requires CrtcFbs() == crtcs && PlaneFbs() == before[i := fb] && held == held0 - Token(fb) + Token(before[i])
      ensures Inv()
    {
      hide Shape, Books, CrtcFbs, PlaneFbs, Token;
      Swap(multiset(crtcs), before, held0, i, fb);
      SameBooks(multiset(crtcs) + multiset(before) + held0, Shown() + held);
    }

    /** The same for a CRTC: what a page flip does. */
    method PointCrtc(crtc: Crtc, fb: Framebuffer, ghost i: int)
      requires Inv() && 0 <= i < |cfg.crtcs| && cfg.crtcs[i] == crtc && fb in held
      modifies crtc`fb, this`held
      ensures Inv()
      ensures CrtcFbs() == old(CrtcFbs())[i := fb]
      ensures held == old(held) - Token(fb) + Token(old(crtc.fb))
    {
      hide *;
      ghost var planes0, before, held0, was := PlaneFbs(), CrtcFbs(), held, crtc.fb;
      OpenInv();
      WriteCrtc(crtc, fb, i);
      held := held - Token(fb) + Token(was);
      RebookCrtc(planes0, before, held0, i, fb);
    }

    method WriteCrtc(crtc: Crtc, fb: Framebuffer, ghost i: int)
      requires 0 <= i < |cfg.crtcs| && cfg.crtcs[i] == crtc && Distinct(cfg.crtcs)
      modifies crtc`fb
      ensures CrtcFbs() == old(CrtcFbs())[i := fb]
      ensures crtc.fb == fb
    {
      ghost var before := CrtcFbs();
      DistinctAt(cfg.crtcs, i);
      crtc.fb := fb;
      assert CrtcFbs() == before[i := fb];
    }

    lemma RebookCrtc(planes0: seq<Framebuffer?>, before: seq<Framebuffer?>, held0: Uses, i: int, fb: Framebuffer)
      requires 0 <= i < |before| && fb in held0
      requires Shape() && Books(multiset(before) + multiset(planes0) + held0)
      requires PlaneFbs() == planes0 && CrtcFbs() == before[i := fb] && held == held0 - Token(fb) + Token(before[i])
      ensures Inv()
    {
      hide Shape, Books, CrtcFbs, PlaneFbs, Token;
      Swap(multiset(planes0), before, held0, i, fb);
      Commute(multiset(planes0), multiset(before), multiset(before[i := fb]));
      SameBooks(multiset(before) + multiset(planes0) + held0, Shown() + held);
    }

    /** Drop one of several references in flight to the same framebuffer: the free_bug variant,
        which must not be the last. */
    method DropNotLast(fb: Framebuffer)
      requires Inv() && held[fb] > 1
      modifies this`held, fb`refcount
      ensures Inv()
      ensures held == old(held) - multiset{fb}
    {
      hide Shape, Books, Shown;
      MoreHeld(Shown(), held, fb);
      assert (Shown() + held)[fb] > 1;
      PutUseNotLast(fb, Shown() + held);
      held := held - multiset{fb};
    }

    method PutUseNotLast(fb: Framebuffer, ghost uses: Uses)
      requires Books(uses) && uses[fb] > 1
      modifies fb`refcount
      ensures Books(uses - multiset{fb})
    {
      hide Consistent, FbTable.Dropped;
      UsedFacts(uses, fb);
      CountFacts(uses, fb);
      DroppedKeeps(TableNow(), uses, fb);
      hide TableNow;
      PutNotLast(fb);
    }

    /** The count of a framebuffer, spelled out. */
    lemma CountFacts(uses: Uses, fb: Framebuffer)
      requires Books(uses) && fb in all
      ensures fb.refcount == One(fb.id != 0) + One(fb.owner != null) + uses[fb]
      ensures fb.destroyed == One(fb.refcount == 0)
    {
      hide Indexed, Listed;
      assert TableNow().recs[fb] == Record(fb.refcount, fb.id, fb.owner, fb.destroyed);
    }

    /** drm_plane_force_disable, for a plane whose framebuffer the caller also holds. */
    method ForceDisable(i: int)
      requires Inv() && 0 <= i < |planes|
      requires planes[i].fb != null ==> planes[i].fb in held
      modifies planes[i], this`held, all`refcount
      ensures Inv()
      ensures PlaneFbs() == old(PlaneFbs())[i := null]
      ensures held == old(held)
      ensures planes[i].crtc == if old(planes[i].fb) == null then old(planes[i].crtc) else null
    {
      hide *;
      var fb := planes[i].fb;
      if fb == null {
        assert PlaneFbs() == PlaneFbs()[i := null];
        return;
      }
      UsedInInv(fb);
      PointPlane(i, null, null);
      TokenFacts(old(held), fb);
      DropNotLast(fb);
    }

    lemma UsedInInv(fb: Framebuffer)
      requires Inv() && (fb in held || fb in multiset(CrtcFbs()) || fb in multiset(PlaneFbs()))
      ensures fb in all && fb.refcount > 0 && fb.destroyed == 0
    {
      hide Books, Shape, CrtcFbs, PlaneFbs;
      assert fb in Shown() + held;
      UsedFacts(Shown() + held, fb);
    }

    /** The request that switches a CRTC off. */
    function OffRequest(crtc: Crtc): ModeSet {
      ModeSet(crtc, null, None, 0, 0, [])
    }

    lemma OffRequestValid(crtc: Crtc)
      requires crtc in cfg.crtcs
      ensures ValidSet(OffRequest(crtc))
    {
    }

    /** Switch off every CRTC that shows the framebuffer. */
    method RemoveFromCrtcs(fb: Framebuffer)
      requires Inv()
      modifies all`refcount, all`destroyed, cfg.crtcs, cfg.encoders, cfg.connectors, drv`calls
      ensures Inv()
      ensures forall c :: c in cfg.crtcs ==> c.fb != fb && (c.fb == old(c.fb) || c.fb == null)
    {
      hide Inv, ValidSet;
      for i := 0 to |cfg.crtcs|
        invariant Inv()
        invariant forall k :: 0 <= k < i ==> cfg.crtcs[k].fb != fb
        invariant forall c :: c in cfg.crtcs ==> c.fb == old(c.fb) || c.fb == null
      {
        if cfg.crtcs[i].fb == fb {
          OffRequestValid(cfg.crtcs[i]);
          var ret, full := SetConfigInternal(OffRequest(cfg.crtcs[i]));
        }
      }
    }

    /** Disable every plane that shows the framebuffer, which the caller holds. */
    method RemoveFromPlanes(fb: Framebuffer)
      requires Inv() && fb in held
      modifies planes, this`held, all`refcount
      ensures Inv() && held == old(held)
      ensures forall k :: 0 <= k < |planes| ==>
        planes[k].fb == if old(planes[k].fb) == fb then null else old(planes[k].fb)
    {
      hide Inv;
      for i := 0 to |planes|
        invariant Inv() && held == old(held)
        invariant forall k :: 0 <= k < |planes| ==>
          PlaneFbs()[k] == if k < i && old(PlaneFbs())[k] == fb then null else old(PlaneFbs())[k]
      {
        if planes[i].fb == fb {
          ForceDisable(i);
        }
      }
      assert forall k :: 0 <= k < |planes| ==> PlaneFbs()[k] == planes[k].fb;
    }

    /** No CRTC and no plane shows the framebuffer. */
    ghost predicate Unshown(fb: Framebuffer)
      reads cfg.crtcs`fb, planes`fb
    {
      (forall c :: c in cfg.crtcs ==> c.fb != fb) && (forall p :: p in planes ==> p.fb != fb)
    }

    /** The shortcut is sound: who holds a framebuffer and sees a count of one is its last user. */
    lemma SoleHolder(fb: Framebuffer)
      requires Inv() && fb in held && fb.refcount == 1
      ensures Unshown(fb) && held[fb] == 1 && fb.id == 0 && fb.owner == null
    {
      hide Books, Shape, CrtcFbs, PlaneFbs;
      UsedInInv(fb);
      CountFacts(Shown() + held, fb);
      assert held[fb] >= 1;
      forall i | 0 <= i < |cfg.crtcs|
        ensures cfg.crtcs[i].fb != fb
      {
        assert CrtcFbs()[i] in multiset(CrtcFbs());
      }
      forall i | 0 <= i < |planes|
        ensures planes[i].fb != fb
      {
        assert PlaneFbs()[i] in multiset(PlaneFbs());
      }
    }

    /** Once nothing shows a reaped framebuffer, the lookups in flight are all that is left. */
    lemma OnlyHeld(fb: Framebuffer)
      requires Inv() && fb in all && fb.id == 0 && fb.owner == null && Unshown(fb)
      ensures fb.refcount == held[fb] && fb.destroyed == One(held[fb] == 0)
    {
      hide Books, Shape;
      CountFacts(Shown() + held, fb);
      assert fb !in CrtcFbs() && fb !in PlaneFbs();
      assert Shown()[fb] == 0;
    }

    /** drm_framebuffer_remove: take the framebuffer off the screen and drop the caller's
        reference.  What is left of it are lookups in flight; without any, it is destroyed. */
    method Remove(fb: Framebuffer)
      requires Inv() && fb in held && fb in all && fb.id == 0 && fb.owner == null
      modifies this`held, all`refcount, all`destroyed, planes, cfg.crtcs, cfg.encoders, cfg.connectors, drv`calls
      ensures Inv()
      ensures held == old(held) - multiset{fb}
      ensures Unshown(fb)
      ensures fb.refcount == held[fb] && fb.destroyed == One(held[fb] == 0)
      ensures forall c :: c in cfg.crtcs ==> c.fb == old(c.fb) || c.fb == null
      ensures forall p :: p in planes ==> p.fb == old(p.fb) || p.fb == null
    {
      hide Inv;
      if fb.refcount > 1 {
        RemoveFromCrtcs(fb);
        RemoveFromPlanes(fb);
      } else {
        UsedInInv(fb);
        SoleHolder(fb);
      }
      assert Unshown(fb);
      Drop(fb);
      OnlyHeld(fb);
    }

    // ----- ioctls

    /** drm_mode_rmfb */
    method RmFb(file: DrmFile, id: nat) returns (ret: int)
      requires Inv() && file in files
      modifies this`idr, this`held, file`fbs, all, planes, cfg.crtcs, cfg.encoders, cfg.connectors, drv`calls
      ensures Inv() && held == old(held)
      ensures ret == 0 <==> id in old(idr) && old(idr)[id] in old(file.fbs)
      ensures ret != 0 ==> idr == old(idr) && file.fbs == old(file.fbs)
      ensures ret == 0 ==> var fb := old(idr)[id];
        && idr == old(idr) - {id} && file.fbs == ListDel(old(file.fbs), fb)
        && Unshown(fb) && fb.refcount == held[fb] && fb.destroyed == One(held[fb] == 0)
    {
      hide Inv, Unshown, ListDel;
      if id !in idr {
        return -EINVAL;
      }
      var fb := idr[id];
      var found := false;
      for i := 0 to |file.fbs|
        invariant found == (fb in file.fbs[..i])
      {
        if fb == file.fbs[i] {
          found := true;
        }
      }
      if !found {
        return -EINVAL;
      }
      IdInInv(id);
      Reap(file, fb);
      MoreHeld(multiset{}, old(held), fb);
      Remove(fb);
      ret := 0;
    }

    lemma IdInInv(id: nat)
      requires Inv() && id in idr
      ensures idr[id] in all && idr[id].id == id && idr[id].refcount > 0
    {
      hide Books, Shape, Shown;
      IdFacts(Shown() + held, id);
      UsedFacts(Shown() + held, idr[id]);
    }

    /** drm_mode_getfb: a lookup that is dropped again.  `driver` is what create_handle answers, if there is one. */
    method GetFb(id: nat, driver: Option<int>) returns (ret: int, width: nat, height: nat, bpp: nat)
      requires Inv()
      modifies this`held, all`refcount, all`destroyed
      ensures Inv() && held == old(held)
      ensures ret == if id !in idr then -EINVAL else if driver.Some? then driver.value else -ENODEV
      ensures id in idr ==>
        width == idr[id].width && height == idr[id].height && bpp == FramebufferCheck.BitsPerPixel(idr[id].pixelFormat)
    {
      hide Inv, FramebufferCheck.BitsPerPixel;
      var fb := Lookup(id);
      if fb == null {
        return -EINVAL, 0, 0, 0;
      }
      width, height, bpp := fb.width, fb.height, FramebufferCheck.BitsPerPixel(fb.pixelFormat);
      ret := if driver.Some? then driver.value else -ENODEV;
      MoreHeld(multiset{}, old(held), fb);
      FreeOthers(fb);
      Drop(fb);
    }

    lemma FreeOthers(fb: Framebuffer)
      requires Inv() && fb in held
      ensures fb in all
    {
      UsedInInv(fb);
    }

    /** drm_fb_release: when a file is closed, its framebuffers go.  Nothing shows them any more, no id and no
        list refers to them, and what is left of each are lookups in flight; without any, it is destroyed.
        Other ids stay. */
    method FbRelease(file: DrmFile)
      requires Inv() && file in files
      modifies this`idr, this`held, file`fbs, all, planes, cfg.crtcs, cfg.encoders, cfg.connectors, drv`calls
      ensures Inv() && held == old(held)
      ensures file.fbs == []
      ensures forall fb :: fb in old(file.fbs) ==> Gone(fb)
      ensures forall fb :: fb in old(file.fbs) ==> fb.refcount == held[fb] && fb.destroyed == One(held[fb] == 0)
      ensures idr == map id | id in old(idr) && old(idr)[id] !in old(file.fbs) :: old(idr)[id]
    {
      hide Inv, ListDel, Gone;
      ghost var mine, ids := file.fbs, idr;
      while file.fbs != []
        invariant Inv() && held == old(held) && all == old(all)
        invariant forall id :: id in idr ==> id in ids && idr[id] == ids[id]
        invariant forall id :: id in ids && ids[id] !in mine ==> id in idr
        invariant forall fb :: fb in file.fbs ==> fb in mine
        invariant forall fb :: fb in mine ==> fb in file.fbs || Gone(fb)
        decreases |file.fbs|
      {
        ReleaseOne(file, file.fbs[0]);
      }
      AllGone(mine);
    }

    /** One framebuffer of a file that is closed: reaped and removed.  Others that are gone stay so. */
    method ReleaseOne(file: DrmFile, fb: Framebuffer)
      requires Inv() && file in files && fb in file.fbs
      modifies this`idr, this`held, file`fbs, all, planes, cfg.crtcs, cfg.encoders, cfg.connectors, drv`calls
      ensures held == old(held)
      ensures |file.fbs| < |old(file.fbs)|
      ensures forall f :: f in file.fbs <==> f in old(file.fbs) && f != fb
      ensures Gone(fb) && forall f :: old(allocated(f)) && old(Gone(f)) ==> Gone(f)
      ensures exists id :: id in old(idr) && old(idr)[id] == fb && idr == old(idr) - {id}
      ensures Inv()
    {
      hide Inv, ListDel, Gone, Unshown;
      ghost var before := file.fbs;
      ListedDistinct(file);
      ListedById(file, fb);
      ListDelMembers(before, fb);
      Reap(file, fb);
      MoreHeld(multiset{}, old(held), fb);
      Remove(fb);
      NowGone(fb);
      forall f | old(allocated(f)) && old(Gone(f))
        ensures Gone(f)
      {
        if f != fb {
          StillGone(f);
        }
      }
    }

    lemma AllGone(fbs: seq<Framebuffer>)
      requires Inv() && forall fb :: fb in fbs ==> Gone(fb)
      ensures forall fb :: fb in fbs ==> fb.refcount == held[fb] && fb.destroyed == One(held[fb] == 0)
      ensures forall id :: id in idr ==> idr[id] !in fbs
    {
      hide Inv, Gone;
      forall fb | fb in fbs
        ensures fb.refcount == held[fb] && fb.destroyed == One(held[fb] == 0)
      {
        GoneIsOnlyHeld(fb);
      }
      forall id | id in idr
        ensures idr[id] !in fbs
      {
        NoIdOfGone(id);
      }
    }

    /** What neither the id table nor a list nor a screen refers to. */
    ghost predicate Gone(fb: Framebuffer)
      reads this`all, fb`id, fb`owner, cfg.crtcs`fb, planes`fb
    {
      fb in all && fb.id == 0 && fb.owner == null && Unshown(fb)
    }

    lemma NowGone(fb: Framebuffer)
      requires fb in all && fb.id == 0 && fb.owner == null && Unshown(fb)
      ensures Gone(fb)
    {
    }

    lemma GoneIsOnlyHeld(fb: Framebuffer)
      requires Inv() && Gone(fb)
      ensures fb.refcount == held[fb] && fb.destroyed == One(held[fb] == 0)
    {
      hide Inv;
      OnlyHeld(fb);
    }

    lemma NoIdOfGone(id: nat)
      requires Inv() && id in idr
      ensures !Gone(idr[id])
    {
      hide Books, Shape, Shown;
      IdFacts(Shown() + held, id);
    }

    /** A listed framebuffer is the one that the table has under its id. */
    lemma ListedById(file: DrmFile, fb: Framebuffer)
      requires Inv() && file in files && fb in file.fbs
      ensures fb.id in idr && idr[fb.id] == fb
    {
      hide Shape, Counted, Shown;
      assert TableNow().lists[file] == file.fbs && TableNow().idr == idr;
      assert TableNow().recs[fb].id == fb.id;
    }

    /** What is gone stays gone while another framebuffer is removed. */
    twostate lemma StillGone(f: Framebuffer)
      requires old(Gone(f))
      requires all == old(all) && f.id == old(f.id) && f.owner == old(f.owner)
      requires forall c :: c in cfg.crtcs ==> c.fb == old(c.fb) || c.fb == null
      requires forall p :: p in planes ==> p.fb == old(p.fb) || p.fb == null
      ensures Gone(f)
    {
    }

    lemma ListedDistinct(file: DrmFile)
      requires Inv() && file in files
      ensures Distinct(file.fbs) && forall fb :: fb in file.fbs ==> fb in all
    {
      hide Shape, Counted, Indexed, Shown;
      assert TableNow().lists[file] == file.fbs;
      assert forall fb :: fb in file.fbs ==> fb in TableNow().recs;
    }

    /** A plane's source rectangle, in 16.16 fixed point, ends inside the framebuffer, whose size is shifted in 32
        bits. */
    predicate SourceInside(r: PlaneRequest, fb: Framebuffer) {
      && r.srcX + r.srcW <= fb.width * 0x1_0000 % 0x1_0000_0000
      && r.srcY + r.srcH <= fb.height * 0x1_0000 % 0x1_0000_0000
    }

    /** Its destination ends within a signed int. */
    predicate DestinationInRange(r: PlaneRequest) {
      && r.crtcW <= INT_MAX && r.crtcX + r.crtcW <= INT_MAX
      && r.crtcH <= INT_MAX && r.crtcY + r.crtcH <= INT_MAX
    }

    /** What a plane request must satisfy before the driver sees it. */
    predicate PlaneAccepts(r: PlaneRequest, plane: Plane, fb: Framebuffer) {
      fb.pixelFormat in plane.formats && SourceInside(r, fb) && DestinationInRange(r)
    }

    function PlaneError(r: PlaneRequest, plane: Plane, fb: Framebuffer): int {
      if fb.pixelFormat !in plane.formats then -EINVAL
      else if !SourceInside(r, fb) then -ENOSPC
      else if !DestinationInRange(r) then -ERANGE
      else 0
    }

    /** An accepted source never reads outside the framebuffer; for framebuffers below 65536 pixels each way every
        source inside is accepted. */
    lemma SourceInsideMeans(r: PlaneRequest, fb: Framebuffer)
      ensures SourceInside(r, fb) ==> r.srcX + r.srcW <= fb.width * 0x1_0000 && r.srcY + r.srcH <= fb.height * 0x1_0000
      ensures fb.width < 0x1_0000 && fb.height < 0x1_0000 ==>
        (SourceInside(r, fb) <==>
          r.srcX + r.srcW <= fb.width * 0x1_0000 && r.srcY + r.srcH <= fb.height * 0x1_0000)
    {
    }

    method CheckPlane(r: PlaneRequest, plane: Plane, fb: Framebuffer) returns (ret: int)
      ensures (ret == 0) == PlaneAccepts(r, plane, fb) && ret == PlaneError(r, plane, fb)
    {
      var i := 0;
      while i < |plane.formats|
        invariant 0 <= i <= |plane.formats|
        invariant fb.pixelFormat !in plane.formats[..i]
      {
        if fb.pixelFormat == plane.formats[i] {
          break;
        }
        i := i + 1;
      }
      if i == |plane.formats| {
        return -EINVAL;
      }
      var fbWidth, fbHeight := fb.width * 0x1_0000 % 0x1_0000_0000, fb.height * 0x1_0000 % 0x1_0000_0000;
      if r.srcW > fbWidth || r.srcX > fbWidth - r.srcW || r.srcH > fbHeight || r.srcY > fbHeight - r.srcH {
        return -ENOSPC;
      }
      if r.crtcW > INT_MAX || r.crtcX > INT_MAX - r.crtcW || r.crtcH > INT_MAX || r.crtcY > INT_MAX - r.crtcH {
        return -ERANGE;
      }
      ret := 0;
    }

    lemma ShownIsKnown()
      requires Inv()
      ensures forall i :: 0 <= i < |cfg.crtcs| && cfg.crtcs[i].fb != null ==> cfg.crtcs[i].fb in all
      ensures forall i :: 0 <= i < |planes| && planes[i].fb != null ==> planes[i].fb in all
    {
      forall i | 0 <= i < |cfg.crtcs| && cfg.crtcs[i].fb != null
        ensures cfg.crtcs[i].fb in all
      {
        assert CrtcFbs()[i] in multiset(CrtcFbs());
        UsedInInv(cfg.crtcs[i].fb);
      }
      forall i | 0 <= i < |planes| && planes[i].fb != null
        ensures planes[i].fb in all
      {
        assert PlaneFbs()[i] in multiset(PlaneFbs());
        UsedInInv(planes[i].fb);
      }
    }

    /** Drop what was shown before, if anything was. */
    method DropOld(oldFb: Framebuffer?)
      requires Inv() && (oldFb != null ==> oldFb in held && oldFb in all)
      modifies this`held, all`refcount, all`destroyed
      ensures Inv() && held == old(held) - Token(oldFb)
    {
      hide *;
      HoldToken(held, oldFb);
      if oldFb != null {
        Drop(oldFb);
      }
    }

    /** drm_mode_setplane */
    method SetPlane(r: PlaneRequest, driver: int) returns (ret: int)
      requires Inv()
      modifies this`held, all`refcount, all`destroyed, planes
      ensures ret == if r.plane >= |planes| then -ENOENT else if r.fbId == 0 then 0
                     else if r.crtc >= |cfg.crtcs| || r.fbId !in idr then -ENOENT
                     else if PlaneAccepts(r, planes[r.plane], idr[r.fbId]) then driver
                     else PlaneError(r, planes[r.plane], idr[r.fbId])
      ensures ret != 0 ==> PlaneFbs() == old(PlaneFbs())
      ensures ret == 0 && r.fbId == 0 ==>
        PlaneFbs() == old(PlaneFbs())[r.plane := null] && planes[r.plane].crtc == null
      ensures ret == 0 && r.fbId != 0 ==>
        && PlaneFbs() == old(PlaneFbs())[r.plane := idr[r.fbId]]
        && planes[r.plane].crtc == cfg.crtcs[r.crtc]
      ensures forall k :: 0 <= k < |planes| && (ret != 0 || k != r.plane) ==> planes[k].crtc == old(planes[k].crtc)
      ensures Inv() && held == old(held)
    {
      hide Inv, CrtcFbs, PlaneFbs, Token, PlaneAccepts, PlaneError, Distinct;
      DropToken(held, null, null);
      if r.plane >= |planes| {
        return -ENOENT;
      }
      OtherPlanes(r.plane);
      if r.fbId == 0 {
        SwitchPlane(r.plane, null, null);
        return 0;
      }
      if r.crtc >= |cfg.crtcs| {
        return -ENOENT;
      }
      var fb := Lookup(r.fbId);
      if fb == null {
        return -ENOENT;
      }
      MoreHeld(multiset{}, old(held), fb);
      ret := UpdatePlane(r, fb, driver);
    }

    lemma OtherPlanes(i: nat)
      requires Inv() && i < |planes|
      ensures forall k :: 0 <= k < |planes| && k != i ==> planes[k] != planes[i]
    {
      DistinctAt(planes, i);
    }

    /** Show a framebuffer in flight on the plane, if the checks and the driver agree; the lookup's
        reference becomes the plane's or is dropped. */
    method UpdatePlane(r: PlaneRequest, fb: Framebuffer, driver: int) returns (ret: int)
      requires Inv() && r.plane < |planes| && r.crtc < |cfg.crtcs| && fb in held
      modifies this`held, all`refcount, all`destroyed, planes[r.plane]
      ensures Inv() && held == old(held) - multiset{fb}
      ensures ret == if PlaneAccepts(r, planes[r.plane], fb) then driver else PlaneError(r, planes[r.plane], fb)
      ensures ret != 0 ==> PlaneFbs() == old(PlaneFbs()) && planes[r.plane].crtc == old(planes[r.plane].crtc)
      ensures ret == 0 ==>
        && PlaneFbs() == old(PlaneFbs())[r.plane := fb]
        && planes[r.plane].crtc == cfg.crtcs[r.crtc]
    {
      hide *;
      FreeOthers(fb);
      DropToken(held, fb, null);
      ret := CheckPlane(r, planes[r.plane], fb);
      if ret == 0 {
        ret := driver;   // what update_plane says
      }
      if ret == 0 {
        SwitchPlane(r.plane, fb, cfg.crtcs[r.crtc]);
      } else {
        Drop(fb);
      }
    }

    /** Point a plane to a framebuffer in flight, or to none, and drop the one it showed. */
    method SwitchPlane(i: nat, fb: Framebuffer?, crtc: Crtc?)
      requires Inv() && i < |planes| && (fb != null ==> fb in held)
      modifies this`held, all`refcount, all`destroyed, planes[i]
      ensures Inv()
      ensures held == old(held) - Token(fb)
      ensures PlaneFbs() == old(PlaneFbs())[i := fb]
      ensures planes[i].crtc == crtc
    {
      hide *;
      var oldFb := planes[i].fb;
      ShownIsKnown();
      PointPlane(i, fb, crtc);
      SwapHeld(old(held), fb, oldFb);
      DropOld(oldFb);
    }

    /** The checks of a page flip; allocating its event can fail too. */
    method CheckFlip(crtc: Crtc, fb: Framebuffer) returns (ret: int)
      requires crtc.fb != null
      ensures ret == 0 ==> FlipFits(crtc, fb)
    {
      var covered := CoversView(crtc, crtc.mode, fb, crtc.x, crtc.y);
      if !covered {
        return -ENOSPC;
      }
      if crtc.fb.pixelFormat != fb.pixelFormat {
        return -EINVAL;
      }
      var haveEvent: bool := *;
      ret := if haveEvent then 0 else -ENOMEM;
    }

    ghost predicate FlipFits(crtc: Crtc, fb: Framebuffer)
      reads crtc
    {
      && Viewport(crtc, crtc.mode, fb, crtc.x, crtc.y)
      && crtc.fb != null && crtc.fb.pixelFormat == fb.pixelFormat
    }

    /** drm_mode_page_flip_ioctl; the bookkeeping of its event is a matter of the file's event space. */
    method PageFlip(crtcIndex: nat, fbId: nat, hasPageFlip: bool) returns (ret: int)
      requires Inv()
      modifies this`held, all`refcount, all`destroyed, cfg.crtcs`fb
      ensures Inv() && held == old(held)
      ensures ret != 0 ==> CrtcFbs() == old(CrtcFbs())
      ensures ret == 0 ==>
        && crtcIndex < |cfg.crtcs| && fbId in idr && old(FlipFits(cfg.crtcs[crtcIndex], idr[fbId]))
        && CrtcFbs() == old(CrtcFbs())[crtcIndex := idr[fbId]]
    {
      hide Inv, CrtcFbs, PlaneFbs, FlipFits;
      if crtcIndex >= |cfg.crtcs| {
        return -EINVAL;
      }
      var crtc := cfg.crtcs[crtcIndex];
      if crtc.fb == null {
        return -EBUSY;
      }
      if !hasPageFlip {
        return -EINVAL;
      }
      var fb := Lookup(fbId);
      if fb == null {
        return -EINVAL;
      }
      MoreHeld(multiset{}, old(held), fb);
      ret := TryFlip(crtc, fb, crtcIndex);
    }

    method TryFlip(crtc: Crtc, fb: Framebuffer, ghost i: nat) returns (ret: int)
      requires Inv() && i < |cfg.crtcs| && cfg.crtcs[i] == crtc && crtc.fb != null && fb in held
      modifies this`held, all`refcount, all`destroyed, crtc`fb
      ensures Inv() && held == old(held) - multiset{fb}
      ensures ret != 0 ==> CrtcFbs() == old(CrtcFbs())
      ensures ret == 0 ==> old(FlipFits(crtc, fb)) && CrtcFbs() == old(CrtcFbs())[i := fb]
    {
      hide *;
      FreeOthers(fb);
      ret := CheckFlip(crtc, fb);
      if ret == 0 {
        ret := *;   // the driver's page_flip, which shows the framebuffer exactly if it succeeds
      }
      if ret == 0 {
        Flip(crtc, fb, i);
      } else {
        Drop(fb);
      }
    }

    /** A successful flip: the CRTC shows the framebuffer in flight, and the one it showed is dropped. */
    method Flip(crtc: Crtc, fb: Framebuffer, ghost i: nat)
      requires Inv() && i < |cfg.crtcs| && cfg.crtcs[i] == crtc && fb in held
      modifies this`held, all`refcount, all`destroyed, crtc`fb
      ensures Inv()
      ensures held == old(held) - multiset{fb}
      ensures CrtcFbs() == old(CrtcFbs())[i := fb]
    {
      hide *;
      var oldFb := crtc.fb;
      ShownIsKnown();
      PointCrtc(crtc, fb, i);
      SwapHeld(old(held), fb, oldFb);
      DropOld(oldFb);
    }

    /** A mode comes with a framebuffer that covers its view and with connectors of the device; without a mode there
        are no connectors either. */
    predicate RequestFits(r: CrtcRequest, fb: Framebuffer?)
      requires r.crtc < |cfg.crtcs|
    {
      if r.modeValid then
        fb != null && Viewport(cfg.crtcs[r.crtc], r.mode, fb, r.x, r.y) && |r.connectors| > 0 &&
        forall k :: k in r.connectors ==> k < |cfg.connectors|
      else r.connectors == []
    }

    /** The framebuffer with an id, if there is one. */
    ghost function ById(id: Option<nat>): Framebuffer?
      reads `idr
    {
      if id.Some? && id.value in idr then idr[id.value] else null
    }

    /** The encoder that the driver chooses for a connector. */
    ghost function Choice(k: nat): Encoder?
      requires k < |cfg.connectors|
      reads `best
    {
      if cfg.connectors[k] in best then best[cfg.connectors[k]] else null
    }

    /** The links that a setcrtc request asks for: the driver's choice for the connectors it names. */
    ghost function LinksFor(r: CrtcRequest): (links: seq<Link>)
      reads `best, cfg.connectors`encoder
      ensures |links| == |cfg.connectors|
      ensures forall k :: 0 <= k < |links| ==>
        links[k] == Link(if k in r.connectors then Choice(k) else cfg.connectors[k].encoder, k in r.connectors)
    {
      LinksUpTo(r, |cfg.connectors|)
    }

    ghost function LinksUpTo(r: CrtcRequest, n: nat): (links: seq<Link>)
      requires n <= |cfg.connectors|
      reads `best, cfg.connectors`encoder
      ensures |links| == n
      ensures forall k :: 0 <= k < n ==>
        links[k] == Link(if k in r.connectors then Choice(k) else cfg.connectors[k].encoder, k in r.connectors)
    {
      if n == 0 then []
      else
        LinksUpTo(r, n - 1) +
        [Link(if n - 1 in r.connectors then Choice(n - 1) else cfg.connectors[n - 1].encoder, n - 1 in r.connectors)]
    }

    /** The connectors of the request are not disconnected, and no other connector holds an encoder that the driver
        chooses for one of them. */
    ghost predicate Undisputed(r: CrtcRequest)
      reads `best, cfg.connectors`encoder, cfg.connectors`status
    {
      forall i :: 0 <= i < |cfg.connectors| && i in r.connectors ==>
        && cfg.connectors[i].status != Disconnected
        && forall k :: 0 <= k < |cfg.connectors| && k !in r.connectors && cfg.connectors[k].encoder != null ==>
          cfg.connectors[k].encoder != Choice(i)
    }

    /** Exactly the connectors of the request reach its CRTC. */
    ghost predicate ReachedAsAsked(r: CrtcRequest)
      requires r.crtc < |cfg.crtcs|
      reads cfg.connectors`encoder, cfg.encoders`crtc
    {
      forall k :: 0 <= k < |cfg.connectors| ==>
        (cfg.Reaches(cfg.connectors[k], cfg.crtcs[r.crtc]) <==> k in r.connectors)
    }

    /** The CRTC is off and shows nothing, or it shows the framebuffer where and in the mode that the request asks for,
        and the driver was told so: by a mode set and by switching on the connectors, or by moving the base. */
    ghost predicate Honoured(r: CrtcRequest, fb: Framebuffer?, full: bool, moves: bool, calls: seq<Call>)
      requires r.crtc < |cfg.crtcs| && forall k :: k in r.connectors ==> k < |cfg.connectors|
      reads cfg.crtcs
    {
      var crtc := cfg.crtcs[r.crtc];
      if crtc.fb == null then !crtc.enabled
      else
        && crtc.fb == fb && crtc.x == r.x && crtc.y == r.y && ModeEqual(r.mode, crtc.mode)
        && (full ==>
          && CrtcModeSet(crtc, r.mode, r.x, r.y, true) in calls
          && forall k :: k in r.connectors ==> ConnectorOn(cfg.connectors[k]) in calls)
        && (!full && moves ==> CrtcSetBase(crtc, r.x, r.y, true) in calls)
    }

    /** The CRTC shows another framebuffer than this, or at another position than is asked for. */
    ghost predicate Moves(r: CrtcRequest, fb: Framebuffer?)
      requires r.crtc < |cfg.crtcs|
      reads cfg.crtcs
    {
      var crtc := cfg.crtcs[r.crtc];
      !(crtc.fb == fb && crtc.x == r.x && crtc.y == r.y)
    }

    /** The CRTC shows nothing, another pixel format or another mode. */
    ghost predicate NewMode(r: CrtcRequest, fb: Framebuffer?)
      requires r.crtc < |cfg.crtcs|
      reads cfg.crtcs
    {
      var crtc := cfg.crtcs[r.crtc];
      fb != null && (crtc.fb == null || crtc.fb.pixelFormat != fb.pixelFormat || !ModeEqual(r.mode, crtc.mode))
    }

    lemma InvValid()
      requires Inv()
      ensures cfg.Valid()
    {
    }

    /** The framebuffer that a setcrtc request is about. */
    ghost function FbFor(r: CrtcRequest): Framebuffer?
      requires r.crtc < |cfg.crtcs|
      reads `idr, cfg.crtcs
    {
      if !r.modeValid then null else if r.fbId == None then cfg.crtcs[r.crtc].fb else ById(r.fbId)
    }

    /** drm_mode_setcrtc.  What is granted is done as it was asked for: framebuffer, position, mode and connectors. */
    method SetCrtc(r: CrtcRequest) returns (ret: int, ghost full: bool)
      requires Inv()
      modifies this`held, all`refcount, all`destroyed, cfg.crtcs, cfg.encoders, cfg.connectors, drv`calls
      ensures ret == 0 ==> r.crtc < |cfg.crtcs| && RequestFits(r, old(FbFor(r)))
      ensures ret != 0 ==> forall c :: c in cfg.crtcs ==> c.fb == old(c.fb)
      ensures forall c :: c in cfg.crtcs && (ret != 0 || c != cfg.crtcs[r.crtc]) ==>
        c.mode == old(c.mode) && c.x == old(c.x) && c.y == old(c.y)
      ensures forall c :: c in cfg.crtcs ==>
        c.fb == old(c.fb) || c.fb == null || (r.crtc < |cfg.crtcs| && c == cfg.crtcs[r.crtc])
      ensures ret == 0 && !r.modeValid ==> cfg.crtcs[r.crtc].fb == null
      ensures ret == 0 && r.modeValid ==>
        && Honoured(r, old(FbFor(r)), full, old(Moves(r, FbFor(r))), ToldSince(old(drv.calls)))
        && (old(NewMode(r, FbFor(r))) ==> full)
        && (!full ==> cfg.crtcs[r.crtc].fb == old(FbFor(r)))
      ensures ret == 0 && r.modeValid ==>
        && (ReachedAsAsked(r) <==> NamedIffKept(old(LinksFor(r)), old(StatusesNow(cfg)), full))
        && (old(Undisputed(r)) ==> ReachedAsAsked(r))
        && (ReachedAsAsked(r) ==> cfg.crtcs[r.crtc].fb == old(FbFor(r)))
      ensures Inv() && held == old(held)
    {
      hide Inv, Token, ValidSet, ById, CrtcFbs, PlaneFbs, Honoured, Moves, NewMode, LinksFor, StatusesNow, NamedIffKept,
           Undisputed, ReachedAsAsked, ToldSince;
      InvValid();
      full := false;
      if r.x > INT_MAX || r.y > INT_MAX {
        return -ERANGE, full;
      }
      if r.crtc >= |cfg.crtcs| {
        return -EINVAL, full;
      }
      var fb;
      ret, fb := RequestedFb(r);
      HoldToken(old(held), fb);
      if ret != 0 {
        return ret, full;
      }
      ret, full := SetCrtcAndDrop(r, fb);
    }

    /** The rest of setcrtc, and the end of the reference that was taken for it. */
    method SetCrtcAndDrop(r: CrtcRequest, fb: Framebuffer?) returns (ret: int, ghost full: bool)
      requires Inv() && r.crtc < |cfg.crtcs|
      requires (fb != null) == r.modeValid && (fb != null ==> fb in held)
      modifies this`held, all`refcount, all`destroyed, cfg.crtcs, cfg.encoders, cfg.connectors, drv`calls
      ensures ret != 0 ==> forall c :: c in cfg.crtcs ==> c.fb == old(c.fb)
      ensures forall c :: c in cfg.crtcs && (ret != 0 || c != cfg.crtcs[r.crtc]) ==>
        c.mode == old(c.mode) && c.x == old(c.x) && c.y == old(c.y)
      ensures forall c :: c in cfg.crtcs ==>
        c.fb == old(c.fb) || c.fb == null || c == cfg.crtcs[r.crtc]
      ensures ret == 0 ==> RequestFits(r, fb)
      ensures ret == 0 && !r.modeValid ==> cfg.crtcs[r.crtc].fb == null
      ensures ret == 0 && r.modeValid ==>
        && Honoured(r, fb, full, old(Moves(r, fb)), ToldSince(old(drv.calls)))
        && (old(NewMode(r, fb)) ==> full)
        && (!full ==> cfg.crtcs[r.crtc].fb == fb)
      ensures ret == 0 && r.modeValid ==>
        && (ReachedAsAsked(r) <==> NamedIffKept(old(LinksFor(r)), old(StatusesNow(cfg)), full))
        && (old(Undisputed(r)) ==> ReachedAsAsked(r))
        && (ReachedAsAsked(r) ==> cfg.crtcs[r.crtc].fb == fb)
      ensures Inv() && held == old(held) - Token(fb)
    {
      hide Inv, Token, Honoured, Moves, NewMode, LinksFor, StatusesNow, NamedIffKept, Undisputed, ReachedAsAsked,
           ToldSince;
      InvValid();
      ret, full := SetCrtcWith(r, fb);
      HeldIsKnown(fb);
      DropOld(fb);
    }

    lemma HeldIsKnown(fb: Framebuffer?)
      requires Inv() && (fb != null ==> fb in held)
      ensures fb != null ==> fb in all
    {
      if fb != null {
        UsedInInv(fb);
      }
    }

    /** The framebuffer of a setcrtc request, with a reference in flight: the one looked up, or the
        one that the CRTC shows already. */
    method RequestedFb(r: CrtcRequest) returns (ret: int, fb: Framebuffer?)
      requires Inv() && r.crtc < |cfg.crtcs|
      modifies this`held, all`refcount
      ensures held == old(held) + Token(fb)
      ensures ret != 0 ==> fb == null
      ensures ret == 0 ==> (fb != null) == r.modeValid
      ensures ret == 0 && r.modeValid ==> fb == if r.fbId == None then cfg.crtcs[r.crtc].fb else ById(r.fbId)
      ensures Inv()
    {
      hide Inv, Shown, Books, Shape, CrtcFbs, PlaneFbs;
      HoldToken(held, null);
      if !r.modeValid {
        return 0, null;
      }
      match r.fbId
      case None =>
        fb := cfg.crtcs[r.crtc].fb;
        if fb == null {
          return -EINVAL, null;
        }
        Reference(fb, r.crtc);
        ret := 0;
      case Some(id) =>
        fb := Lookup(id);
        if fb == null {
          return -EINVAL, null;
        }
        ret := 0;
    }

    /** Reference what a CRTC shows. */
    method Reference(fb: Framebuffer, ghost i: nat)
      requires Inv() && i < |cfg.crtcs| && cfg.crtcs[i].fb == fb
      modifies this`held, all`refcount
      ensures Inv()
      ensures held == old(held) + multiset{fb}
    {
      hide Shape, Books, Shown;
      assert CrtcFbs()[i] == fb;
      UsedInInv(fb);
      MoreHeld(Shown(), held, fb);
      GetUse(fb, Shown() + held);
      held := held + multiset{fb};
    }

    /** The rest of setcrtc, once the framebuffer is at hand: check the mode and the connectors, and
        set the configuration. */
    method SetCrtcWith(r: CrtcRequest, fb: Framebuffer?) returns (ret: int, ghost full: bool)
      requires Inv() && r.crtc < |cfg.crtcs|
      requires (fb != null) == r.modeValid && (fb != null ==> fb in held)
      modifies all`refcount, all`destroyed, cfg.crtcs, cfg.encoders, cfg.connectors, drv`calls
      ensures ret != 0 ==> forall c :: c in cfg.crtcs ==> c.fb == old(c.fb)
      ensures forall c :: c in cfg.crtcs && (ret != 0 || c != cfg.crtcs[r.crtc]) ==>
        c.mode == old(c.mode) && c.x == old(c.x) && c.y == old(c.y)
      ensures ret == 0 ==> RequestFits(r, fb)
      ensures ret == 0 && !r.modeValid ==> cfg.crtcs[r.crtc].fb == null
      ensures ret == 0 && r.modeValid ==>
        && Honoured(r, fb, full, old(Moves(r, fb)), ToldSince(old(drv.calls)))
        && (old(NewMode(r, fb)) ==> full)
        && (!full ==> cfg.crtcs[r.crtc].fb == fb)
      ensures ret == 0 && r.modeValid ==>
        && (ReachedAsAsked(r) <==> NamedIffKept(old(LinksFor(r)), old(StatusesNow(cfg)), full))
        && (old(Undisputed(r)) ==> ReachedAsAsked(r))
        && (ReachedAsAsked(r) ==> cfg.crtcs[r.crtc].fb == fb)
      ensures forall c :: c in cfg.crtcs ==>
        c.fb == old(c.fb) || c.fb == null || (c == cfg.crtcs[r.crtc] && c.fb == fb)
      ensures Inv()
    {
      hide Inv, Viewport, Honoured, Moves, NewMode, LinksFor, StatusesNow, NamedIffKept, Undisputed, ReachedAsAsked,
           ToldSince, PlanOf, Carried, NeedsMode, BaseMoves, ValidSet;
      InvValid();
      full := false;
      var crtc := cfg.crtcs[r.crtc];
      if r.modeValid {
        var created: bool, converted: int := *, *;
        if !created {
          return -ENOMEM, full;
        }
        if converted != 0 {
          return converted, full;
        }
        var covered := CoversView(crtc, r.mode, fb, r.x, r.y);
        if !covered {
          return -ENOSPC, full;
        }
      }
      if |r.connectors| == 0 && r.modeValid {
        return -EINVAL, full;
      }
      if |r.connectors| > 0 && !r.modeValid {
        return -EINVAL, full;
      }
      if |r.connectors| > |cfg.connectors| {
        return -EINVAL, full;
      }
      var connectors: seq<Connector> := [];
      for i := 0 to |r.connectors|
        invariant |connectors| == i
        invariant forall k :: 0 <= k < i ==>
          r.connectors[k] < |cfg.connectors| && connectors[k] == cfg.connectors[r.connectors[k]]
      {
        if r.connectors[i] >= |cfg.connectors| {
          return -EINVAL, full;
        }
        connectors := connectors + [cfg.connectors[r.connectors[i]]];
      }
      var mode := if r.modeValid then Some(r.mode) else None;
      var req := ModeSet(crtc, fb, mode, r.x, r.y, connectors);
      ret, full := SetChecked(r, req);
    }

    /** The request to the helpers says what the one to the ioctl says. */
    predicate Translates(r: CrtcRequest, req: ModeSet)
      requires r.crtc < |cfg.crtcs|
    {
      && req.crtc == cfg.crtcs[r.crtc] && req.x == r.x && req.y == r.y
      && req.mode == (if r.modeValid then Some(r.mode) else None)
      && |req.connectors| == |r.connectors|
      && forall k :: 0 <= k < |r.connectors| ==>
        r.connectors[k] < |cfg.connectors| && req.connectors[k] == cfg.connectors[r.connectors[k]]
    }

    /** Run a checked request, and what that means for the ioctl. */
    method SetChecked(r: CrtcRequest, req: ModeSet) returns (ret: int, ghost full: bool)
      requires Inv() && r.crtc < |cfg.crtcs| && Translates(r, req)
      requires (req.fb != null) == r.modeValid && (req.fb != null ==> req.fb in held && r.connectors != [])
      modifies all`refcount, all`destroyed, cfg.crtcs, cfg.encoders, cfg.connectors, drv`calls
      ensures ret != 0 ==> forall c :: c in cfg.crtcs ==> c.fb == old(c.fb)
      ensures forall c :: c in cfg.crtcs && (ret != 0 || c != req.crtc) ==>
        c.mode == old(c.mode) && c.x == old(c.x) && c.y == old(c.y)
      ensures forall c :: c in cfg.crtcs ==> c.fb == old(c.fb) || c.fb == null || (c == req.crtc && c.fb == req.fb)
      ensures !r.modeValid ==> ret == 0 && req.crtc.fb == null
      ensures ret == 0 && r.modeValid ==>
        && (forall k :: k in r.connectors ==> k < |cfg.connectors|)
        && Honoured(r, req.fb, full, old(Moves(r, req.fb)), ToldSince(old(drv.calls)))
        && (old(NewMode(r, req.fb)) ==> full)
        && (!full ==> req.crtc.fb == req.fb)
      ensures ret == 0 && r.modeValid ==>
        && (ReachedAsAsked(r) <==> NamedIffKept(old(LinksFor(r)), old(StatusesNow(cfg)), full))
        && (old(Undisputed(r)) ==> ReachedAsAsked(r))
        && (ReachedAsAsked(r) ==> req.crtc.fb == req.fb)
      ensures Inv()
    {
      hide Inv, Honoured, Moves, NewMode, LinksFor, StatusesNow, StatusesOf, NamedIffKept, Undisputed, ReachedAsAsked,
           ToldSince, PlanOf, Carried, NeedsMode, BaseMoves, ValidSet, ValidRequest, Translates;
      InvValid();
      Translated(r, req);
      RequestValid(req);
      ValidSetIs(req);
      AskedBefore(r, req);
      ghost var plan, asked, statuses, moves := PlanOf(cfg, req, best), LinksFor(r), StatusesNow(cfg), BaseMoves(req);
      ghost var undisputed := Undisputed(r);
      ret, full := SetConfigInternal(req);
      if ret == 0 && req.fb != null {
        InvValid();
        assert StatusesNow(cfg) == statuses;
        AskedAfter(r, req, plan, full, moves, ToldSince(old(drv.calls)));
        AskedReached(r, req, plan, full, moves, ToldSince(old(drv.calls)), undisputed);
      }
    }

    lemma ValidSetIs(req: ModeSet)
      requires ValidSet(req)
      ensures ValidRequest(cfg, req, best)
    {
    }

    lemma Translated(r: CrtcRequest, req: ModeSet)
      requires r.crtc < |cfg.crtcs| && Translates(r, req)
      ensures req.crtc == cfg.crtcs[r.crtc] && req.crtc in cfg.crtcs
      ensures forall c :: c in req.connectors ==> c in cfg.connectors
      ensures forall k :: k in r.connectors ==> k < |cfg.connectors|
      ensures req.mode.Some? == r.modeValid && (req.connectors == [] <==> r.connectors == [])
    {
    }

    /** Which connectors the request names, by position. */
    lemma NamedIff(r: CrtcRequest, req: ModeSet, k: int)
      requires r.crtc < |cfg.crtcs| && Translates(r, req) && Distinct(cfg.connectors) && 0 <= k < |cfg.connectors|
      ensures cfg.connectors[k] in req.connectors <==> k in r.connectors
    {
      if cfg.connectors[k] in req.connectors {
        var i :| 0 <= i < |req.connectors| && req.connectors[i] == cfg.connectors[k];
        DistinctAt(cfg.connectors, k);
        assert r.connectors[i] == k;
      }
      if k in r.connectors {
        var i :| 0 <= i < |r.connectors| && r.connectors[i] == k;
        assert req.connectors[i] == cfg.connectors[k];
      }
    }

    lemma AskedBefore(r: CrtcRequest, req: ModeSet)
      requires r.crtc < |cfg.crtcs| && Translates(r, req)
      requires cfg.Valid() && ValidRequest(cfg, req, best)
      ensures PlanOf(cfg, req, best).links == LinksFor(r)
      ensures Undisputed(r) ==> Unshared(LinksFor(r)) && NamedConnected(LinksFor(r), StatusesNow(cfg))
      ensures Moves(r, req.fb) == BaseMoves(req)
      ensures NewMode(r, req.fb) ==> r.modeValid ==> req.fb != null && NeedsMode(req, req.mode.value)
    {
      hide ModeConfig.Valid, StartRoutes, PlanOf;
      assert Distinct(cfg.connectors) by { DistinctConnectors(); }
      forall k | 0 <= k < |cfg.connectors|
        ensures cfg.connectors[k] in req.connectors <==> k in r.connectors
      {
        NamedIff(r, req, k);
      }
      hide Translates;
      assert PlanOf(cfg, req, best).links == Links(cfg, req, best, EncodersNow(cfg));
    }

    lemma DistinctConnectors()
      requires cfg.Valid()
      ensures Distinct(cfg.connectors)
    {
    }

    lemma AskedAfter(r: CrtcRequest, req: ModeSet, plan: Plan, full: bool, moves: bool, calls: seq<Call>)
      requires r.crtc < |cfg.crtcs| && Translates(r, req) && r.modeValid
      requires |plan.links| == |cfg.connectors| && Covers(plan.routes, plan.links)
      requires Carried(cfg, req, plan, full, moves, calls)
      ensures (forall k :: k in r.connectors ==> k < |cfg.connectors|) && Honoured(r, req.fb, full, moves, calls)
      ensures !full ==> req.crtc.fb == req.fb
    {
      hide Granted;
      forall k | k in r.connectors
        ensures k < |cfg.connectors| && cfg.connectors[k] in req.connectors
      {
        var i :| 0 <= i < |r.connectors| && r.connectors[i] == k;
        assert req.connectors[i] == cfg.connectors[k];
      }
    }

    lemma AskedReached(r: CrtcRequest, req: ModeSet, plan: Plan, full: bool, moves: bool, calls: seq<Call>,
                       undisputed: bool)
      requires cfg.Valid() && r.crtc < |cfg.crtcs| && Translates(r, req) && r.modeValid && r.connectors != []
      requires forall k :: k in r.connectors ==> k < |cfg.connectors|
      requires |plan.links| == |cfg.connectors| && Covers(plan.routes, plan.links) && req.fb != null
      requires forall k :: 0 <= k < |plan.links| ==> plan.links[k].wanted == (k in r.connectors)
      requires undisputed ==> Unshared(plan.links) && NamedConnected(plan.links, StatusesNow(cfg))
      requires Carried(cfg, req, plan, full, moves, calls)
      ensures ReachedAsAsked(r) <==> NamedIffKept(plan.links, StatusesNow(cfg), full)
      ensures undisputed ==> ReachedAsAsked(r)
      ensures ReachedAsAsked(r) ==> req.crtc.fb == req.fb
    {
      DistinctConnectors();
      forall k | 0 <= k < |cfg.connectors|
        ensures cfg.connectors[k] in req.connectors <==> k in r.connectors
      {
        NamedIff(r, req, k);
      }
      hide Translates, Granted, Covers, Unshared, NamedIffKept, NamedConnected, HoldersConnected, ModeConfig.Valid,
           ModeConfig.Reaches, ModeConfig.CrtcInUse;
      ExactlyTheRequestReachesIff(cfg, req, plan.links, plan.routes, full);
      assert ReachedExactly(cfg, req) <==> ReachedAsAsked(r);
      if ReachedAsAsked(r) {
        var k := r.connectors[0];
        assert cfg.connectors[k] in cfg.connectors && cfg.Reaches(cfg.connectors[k], req.crtc);
        cfg.InUseIffReached(req.crtc);
      }
    }
    lemma RequestValid(req: ModeSet)
      requires Inv() && req.crtc in cfg.crtcs && forall c :: c in req.connectors ==> c in cfg.connectors
      requires (req.fb != null) == req.mode.Some? && (req.fb != null ==> req.fb in held && req.connectors != [])
      ensures ValidSet(req)
    {
      hide Books, Shown;
    }

    // ----- whole runs

    /** One ioctl (or open and close) by a file. */
    method Do(op: Ioctl)
      requires Inv()
      modifies this`idr, this`all, this`held, this`files, all, files, planes
      modifies cfg.crtcs, cfg.encoders, cfg.connectors, drv`calls
      ensures Inv() && held == old(held)
      ensures old(all) <= all && fresh(all - old(all))
      ensures files == old(files) || exists f :: op == OpenFileOp(f) && files == old(files) + {f}
      ensures op.Vets() ==> forall fb :: fb in all && fb !in old(all) ==> Vetted(fb)
    {
      hide Inv, FramebufferCheck.Request.Acceptable, FramebufferCheck.LegacyFormat, RequestFits, Honoured, ToldSince,
           ReachedAsAsked, NamedIffKept, LinksFor, StatusesNow, Undisputed, FbFor, Moves, NewMode, PlaneFbs, CrtcFbs,
           PlaneAccepts, PlaneError, FlipFits, Gone, ListDel;
      match op
      case OpenFileOp(f) =>
        if f !in files && f.fbs == [] {
          OpenFile(f);
        }
      case AddFbOp(f, r, flags) =>
        if f in files && r.WellFormed() {
          var ret, id := AddFb(f, r, flags);
        }
      case AddLegacyFbOp(f, width, height, pitch, bpp, depth, handle) =>
        if f in files && op.In32Bits() {
          var ret, id := AddLegacyFb(f, width, height, pitch, bpp, depth, handle);
        }
      case RmFbOp(f, id) =>
        if f in files {
          var ret := RmFb(f, id);
        }
      case GetFbOp(id) =>
        var driver: Option<int> := *;
        var ret, w, h, bpp := GetFb(id, driver);
      case SetCrtcOp(r) =>
        var ret, full := SetCrtc(r);
      case SetPlaneOp(r) =>
        var driver: int := *;
        var ret := SetPlane(r, driver);
      case PageFlipOp(crtc, id, hasPageFlip) =>
        var ret := PageFlip(crtc, id, hasPageFlip);
      case CloseOp(f) =>
        if f in files {
          FbRelease(f);
        }
    }

    /** Any sequence of ioctls keeps the accounts; at the end, each framebuffer ever created has a
        count equal to the references to it, and was destroyed exactly if there is none.  What was
        added passes the check, unless by the older request with arguments that do not. */
    method Run(ops: seq<Ioctl>)
      requires Inv()
      modifies this`idr, this`all, this`held, this`files, all, files, FilesOf(ops), planes
      modifies cfg.crtcs, cfg.encoders, cfg.connectors, drv`calls
      ensures Inv() && held == old(held)
      ensures old(all) <= all
      ensures (forall op :: op in ops ==> op.Vets()) ==> forall fb :: fb in all && fb !in old(all) ==> Vetted(fb)
      ensures forall fb :: fb in all ==>
        && fb.refcount == One(fb.id != 0) + One(fb.owner != null)
                          + multiset(CrtcFbs())[fb] + multiset(PlaneFbs())[fb] + held[fb]
        && fb.destroyed == One(fb.refcount == 0)
    {
      hide Inv, FilesOf, Vetted, Ioctl.Vets;
      for i := 0 to |ops|
        invariant Inv() && held == old(held)
        invariant old(all) <= all && fresh(all - old(all))
        invariant files <= old(files) + FilesOf(ops)
        invariant (forall op :: op in ops ==> op.Vets()) ==> forall fb :: fb in all && fb !in old(all) ==> Vetted(fb)
      {
        FilesOfOp(ops, i);
        Do(ops[i]);
      }
      forall fb | fb in all
        ensures fb.refcount == One(fb.id != 0) + One(fb.owner != null)
                               + multiset(CrtcFbs())[fb] + multiset(PlaneFbs())[fb] + held[fb]
        ensures fb.destroyed == One(fb.refcount == 0)
      {
        Bill(fb);
      }
    }

    lemma Bill(fb: Framebuffer)
      requires Inv() && fb in all
      ensures fb.refcount == One(fb.id != 0) + One(fb.owner != null)
                             + multiset(CrtcFbs())[fb] + multiset(PlaneFbs())[fb] + held[fb]
      ensures fb.destroyed == One(fb.refcount == 0)
    {
      hide Books, Shape, CrtcFbs, PlaneFbs;
      CountFacts(Shown() + held, fb);
    }
  }

  datatype Ioctl =
    | OpenFileOp(file: DrmFile)
    | AddFbOp(file: DrmFile, fbRequest: FramebufferCheck.Request, flags: nat)
    | AddLegacyFbOp(file: DrmFile, width: nat, height: nat, pitch: nat, bpp: nat, depth: nat, handle: nat)
    | RmFbOp(file: DrmFile, id: nat)
    | GetFbOp(id: nat)
    | SetCrtcOp(crtcRequest: CrtcRequest)
    | SetPlaneOp(planeRequest: PlaneRequest)
    | PageFlipOp(crtc: nat, fbId: nat, hasPageFlip: bool)
    | CloseOp(file: DrmFile)
  {
    predicate In32Bits() {
      AddLegacyFbOp? ==>
        width <= FramebufferCheck.UINT_MAX && height <= FramebufferCheck.UINT_MAX && pitch <= FramebufferCheck.UINT_MAX
    }

    /** What the ioctl adds is acceptable, either because it checks that or, for the older one, because it
        happens to be. */
    predicate Vets() {
      AddLegacyFbOp? && In32Bits() ==>
        FramebufferCheck.LegacyRequest(width, height, pitch, bpp, depth, handle).Acceptable()
    }
  }

  /** The request for the framebuffer is one that the check accepts. */
  predicate Vetted(fb: Framebuffer) {
    fb.request.WellFormed() && fb.request.Acceptable()
  }

  ghost function FilesOf(ops: seq<Ioctl>): set<DrmFile> {
    set i | 0 <= i < |ops| && ops[i].OpenFileOp? :: ops[i].file
  }

  lemma FilesOfOp(ops: seq<Ioctl>, i: int)
    requires 0 <= i < |ops|
    ensures ops[i].OpenFileOp? ==> ops[i].file in FilesOf(ops)
  {
  }

  const INT_MAX := 0x7fff_ffff

  datatype PlaneRequest = PlaneRequest(plane: nat, crtc: nat, fbId: nat, crtcX: int, crtcY: int, crtcW: nat, crtcH: nat,
                                       srcX: nat, srcY: nat, srcW: nat, srcH: nat)

  /** A setcrtc request; an id of None asks for the framebuffer that the CRTC shows already. */
  datatype CrtcRequest = CrtcRequest(crtc: nat, x: nat, y: nat, modeValid: bool, mode: DisplayMode, fbId: Option<nat>,
                                     connectors: seq<nat>)

  /** The CRTC's view of a framebuffer at a position lies inside it: a picture of the mode's size, turned if the CRTC
      is. */
  predicate Viewport(crtc: Crtc, mode: DisplayMode, fb: Framebuffer, x: int, y: int) {
    if crtc.invertDimensions then
      mode.vdisplay <= fb.width && x + mode.vdisplay <= fb.width &&
      mode.hdisplay <= fb.height && y + mode.hdisplay <= fb.height
    else
      mode.hdisplay <= fb.width && x + mode.hdisplay <= fb.width &&
      mode.vdisplay <= fb.height && y + mode.vdisplay <= fb.height
  }

  /** Where pixel (i, j) of the picture comes from. */
  function PixelOf(crtc: Crtc, x: int, y: int, i: nat, j: nat): (int, int) {
    if crtc.invertDimensions then (x + j, y + i) else (x + i, y + j)
  }

  predicate PixelIn(fb: Framebuffer, p: (int, int)) {
    0 <= p.0 < fb.width && 0 <= p.1 < fb.height
  }

  /** That is, every pixel of the picture comes from inside the framebuffer. */
  lemma ViewportMeans(crtc: Crtc, mode: DisplayMode, fb: Framebuffer, x: nat, y: nat)
    requires mode.hdisplay > 0 && mode.vdisplay > 0
    ensures Viewport(crtc, mode, fb, x, y) <==>
      forall i: nat, j: nat :: i < mode.hdisplay && j < mode.vdisplay ==> PixelIn(fb, PixelOf(crtc, x, y, i, j))
  {
    assert PixelIn(fb, PixelOf(crtc, x, y, mode.hdisplay - 1, mode.vdisplay - 1)) <==> Viewport(crtc, mode, fb, x, y);
  }

  method CoversView(crtc: Crtc, mode: DisplayMode, fb: Framebuffer, x: int, y: int) returns (covers: bool)
    ensures covers == Viewport(crtc, mode, fb, x, y)
  {
    var hdisplay, vdisplay := mode.hdisplay, mode.vdisplay;
    if crtc.invertDimensions {
      hdisplay, vdisplay := vdisplay, hdisplay;
    }
    covers := !(hdisplay > fb.width || vdisplay > fb.height || x > fb.width - hdisplay || y > fb.height - vdisplay);
  }

  lemma HoldToken(held: Uses, fb: Framebuffer?)
    ensures fb == null ==> held + Token(fb) == held && held - Token(fb) == held
    ensures fb != null ==> fb in held + Token(fb)
    ensures held + Token(fb) - Token(fb) == held
    ensures fb != null ==> Token(fb) == multiset{fb}
  {
  }

  lemma SwapHeld(held: Uses, fb: Framebuffer?, oldFb: Framebuffer?)
    ensures held - Token(fb) + Token(oldFb) - Token(oldFb) == held - Token(fb)
    ensures oldFb != null ==> oldFb in held - Token(fb) + Token(oldFb)
    ensures fb != null ==> Token(fb) == multiset{fb}
  {
  }

  lemma DropToken(held: Uses, fb: Framebuffer?, oldFb: Framebuffer?)
    ensures oldFb == null ==> held - Token(fb) + Token(oldFb) == held - Token(fb)
    ensures oldFb != null ==> oldFb in held - Token(fb) + Token(oldFb)
    ensures held - Token(fb) + Token(oldFb) - Token(oldFb) == held - Token(fb)
    ensures fb != null ==> Token(fb) == multiset{fb}
    ensures held - Token(null) == held
  {
  }

  lemma TokenFacts(held: Uses, fb: Framebuffer)
    ensures held - Token(null) + Token(fb) == held + multiset{fb}
    ensures fb in held ==> (held + multiset{fb})[fb] > 1
    ensures held + multiset{fb} - multiset{fb} == held
  {
  }

  lemma Commute(a: Uses, b: Uses, c: Uses)
    ensures a + b == b + a && a + c == c + a
  {
  }

  /** A reference in flight, if there is something to refer to. */
  function Token(fb: Framebuffer?): Uses {
    if fb == null then multiset{} else multiset{fb}
  }

  /** Moving a use from the planes to the lookups in flight, and another one back. */
  lemma Swap(crtcs: Uses, planes: seq<Framebuffer?>, held: Uses, i: int, new': Framebuffer?)
    requires 0 <= i < |planes|
    requires new' != null ==> new' in held
    ensures var u := crtcs + multiset(planes[i := new']) + (held - Token(new') + Token(planes[i]));
      forall fb: Framebuffer {:trigger u[fb]} :: (crtcs + multiset(planes) + held)[fb] == u[fb]
  {
    assert planes[i] in multiset(planes);
    assert multiset(planes[i := new']) == multiset(planes) - multiset{planes[i]} + multiset{new'};
  }

  lemma RegroupUses(a: Uses, b: Uses, c: Uses)
    ensures a + b + c == a + (b + c)
  {
  }

  /** What the CRTCs show while a mode set is being accounted for: the first i are done. */
  function Mix(olds: seq<Framebuffer?>, news: seq<Framebuffer?>, i: nat): seq<Framebuffer?>
    requires i <= |olds| == |news|
  {
    news[..i] + olds[i..]
  }

  lemma MixStep(olds: seq<Framebuffer?>, news: seq<Framebuffer?>, i: nat)
    requires i < |olds| == |news|
    ensures multiset(Mix(olds, news, i + 1)) == multiset(Mix(olds, news, i)) - multiset{olds[i]} + multiset{news[i]}
    ensures olds[i] in multiset(Mix(olds, news, i))
  {
    assert Mix(olds, news, i)[i] == olds[i];
    assert Mix(olds, news, i + 1) == Mix(olds, news, i)[i := news[i]];
  }

  lemma MixEnds(olds: seq<Framebuffer?>, news: seq<Framebuffer?>)
    requires |olds| == |news|
    ensures Mix(olds, news, 0) == olds && Mix(olds, news, |olds|) == news
  {
  }

  /** Adding a use of `new'` and dropping one of `old'`, where nothing counts for either, is an exchange. */
  lemma ExchangedUses(mix: Uses, rest: Uses, old': Framebuffer?, new': Framebuffer?)
    requires old' in mix
    ensures var u := mix + rest;
      var u1 := if new' != null then u + multiset{new'} else u;
      var u2 := if old' != null then u1 - multiset{old'} else u1;
      forall fb: Framebuffer {:trigger (mix - multiset{old'} + multiset{new'} + rest)[fb]} ::
        u2[fb] == (mix - multiset{old'} + multiset{new'} + rest)[fb]
  {
  }

  lemma MoreHeld(shown: Uses, held: Uses, fb: Framebuffer?)
    ensures shown + (held + multiset{fb}) == shown + held + multiset{fb}
    ensures held + multiset{fb} - multiset{fb} == held
    ensures fb in held ==> shown + (held - multiset{fb}) == shown + held - multiset{fb} && fb in shown + held
  {
  }

  lemma NothingUsed(a: seq<Framebuffer?>, b: seq<Framebuffer?>)
    requires forall i :: 0 <= i < |a| ==> a[i] == null
    requires forall i :: 0 <= i < |b| ==> b[i] == null
    ensures forall fb :: fb in multiset(a) + multiset(b) + multiset{} ==> fb == null
  {
  }
}
