/** The events of open files: each file may have 4096 bytes of events queued or promised, and reading hands out
    whole events in order. */
module Events {
  import opened Errno
  import opened KmsObjects

  const EVENT_SPACE := 4096
  const EVENT_SIZE := 32        // sizeof(struct drm_event_vblank)
  const UINT := 0x1_0000_0000

  class EventFile {
    var space: int
    var list: seq<Event>

    constructor ()
      ensures space == EVENT_SPACE && list == []
    {
      space, list := EVENT_SPACE, [];
    }
  }

  class Event {
    const file: EventFile
    const pipe: nat
    const wanted: nat     // the vertical blank it waits for
    var sequence: nat     // the one it reports

    constructor (file: EventFile, pipe: nat, wanted: nat)
      ensures this.file == file && this.pipe == pipe && this.wanted == wanted
    {
      this.file, this.pipe, this.wanted, sequence := file, pipe, wanted, wanted;
    }
  }

  /** How many of these events are for this file. */
  function Count(events: seq<Event>, f: EventFile): nat {
    if events == [] then 0 else Count(events[..|events| - 1], f) + if events[|events| - 1].file == f then 1 else 0
  }

  lemma {:induction false} CountOfConcat(a: seq<Event>, b: seq<Event>, f: EventFile)
    ensures Count(a + b, f) == Count(a, f) + Count(b, f)
  {
    if b == [] {
      assert a + b == a;
    } else {
      var s, front := a + b, b[..|b| - 1];
      CountOfConcat(a, front, f);
      assert s[..|s| - 1] == a + front && s[|s| - 1] == b[|b| - 1];
    }
  }

  lemma CountOfOne(e: Event, f: EventFile)
    ensures Count([e], f) == if e.file == f then 1 else 0
  {
    assert [e][..0] == [];
  }

  lemma CountWithout(events: seq<Event>, k: nat, f: EventFile)
    requires k < |events|
    ensures Count(events, f) == Count(Without(events, k), f) + if events[k].file == f then 1 else 0
  {
    hide Count;
    assert events == events[..k] + ([events[k]] + events[k + 1..]);
    CountOfConcat(events[..k], [events[k]] + events[k + 1..], f);
    CountOfConcat([events[k]], events[k + 1..], f);
    CountOfConcat(events[..k], events[k + 1..], f);
    CountOfOne(events[k], f);
  }

  /** The events of a list for this file, in order. */
  function Mine(events: seq<Event>, f: EventFile): seq<Event> {
    if events == [] then [] else
    var front := Mine(events[..|events| - 1], f);
    if events[|events| - 1].file == f then front + [events[|events| - 1]] else front
  }

  /** The vertical blank `wanted` is not in the future: 32-bit counters, at most 2^23 ago. */
  predicate Due(now: nat, wanted: nat) {
    (now - wanted) % UINT <= 0x80_0000
  }

  /** That is, the counter showed it 0 to 2^23 blanks ago. */
  lemma DueMeans(now: nat, wanted: nat)
    requires now < UINT && wanted < UINT
    ensures Due(now, wanted) <==> exists d: nat :: d <= 0x80_0000 && Blank(wanted, d) == now
  {
    var d := (now - wanted) % UINT;
    assert Blank(wanted, d) == now;
  }

  /** The d-th blank after one. */
  function Blank(from: nat, d: nat): nat {
    (from + d) % UINT
  }

  /** An event is due at the blank it asks for and at the next, but not at the one before. */
  lemma DueFromTheFirst(wanted: nat)
    requires wanted < UINT
    ensures Due(wanted, wanted) && Due(Blank(wanted, 1), wanted) && !Due(Blank(wanted, UINT - 1), wanted)
  {
  }

  predicate Goes(e: Event, pipe: nat, now: nat, all: bool) {
    e.pipe == pipe && (all || Due(now, e.wanted))
  }

  /** The events that a vertical blank of this pipe sends, and those that go on waiting. */
  function Sent(events: seq<Event>, pipe: nat, now: nat, all: bool): seq<Event> {
    if events == [] then [] else
    var front := Sent(events[..|events| - 1], pipe, now, all);
    if Goes(events[|events| - 1], pipe, now, all) then front + [events[|events| - 1]] else front
  }

  function Waiting(events: seq<Event>, pipe: nat, now: nat, all: bool): seq<Event> {
    if events == [] then [] else
    var front := Waiting(events[..|events| - 1], pipe, now, all);
    if Goes(events[|events| - 1], pipe, now, all) then front else front + [events[|events| - 1]]
  }

  lemma MineMore(events: seq<Event>, e: Event, f: EventFile)
    ensures Mine(events + [e], f) == if e.file == f then Mine(events, f) + [e] else Mine(events, f)
    ensures Count(events + [e], f) == Count(events, f) + if e.file == f then 1 else 0
  {
    assert (events + [e])[..|events|] == events;
  }

  lemma MineMoreForAll(events: seq<Event>, e: Event)
    ensures forall f :: Mine(events + [e], f) == if e.file == f then Mine(events, f) + [e] else Mine(events, f)
  {
    forall f: EventFile
      ensures Mine(events + [e], f) == if e.file == f then Mine(events, f) + [e] else Mine(events, f)
    {
      MineMore(events, e, f);
    }
  }

  lemma SplitMore(events: seq<Event>, n: nat, pipe: nat, now: nat, all: bool)
    requires n < |events|
    ensures var s, w := Sent(events[..n], pipe, now, all), Waiting(events[..n], pipe, now, all);
            Sent(events[..n + 1], pipe, now, all) == (if Goes(events[n], pipe, now, all) then s + [events[n]] else s) &&
            Waiting(events[..n + 1], pipe, now, all) == (if Goes(events[n], pipe, now, all) then w else w + [events[n]])
  {
    assert events[..n + 1][..n] == events[..n];
  }

  lemma {:induction false} SentOrWaiting(events: seq<Event>, pipe: nat, now: nat, all: bool, f: EventFile)
    ensures Count(events, f) == Count(Waiting(events, pipe, now, all), f) + |Mine(Sent(events, pipe, now, all), f)|
  {
    if events != [] {
      var front, last := events[..|events| - 1], events[|events| - 1];
      SentOrWaiting(front, pipe, now, all, f);
      MineMore(Waiting(front, pipe, now, all), last, f);
      MineMore(Sent(front, pipe, now, all), last, f);
    }
  }

  /** The events of a device: those that wait for a vertical blank, and those that the driver holds for page flips. */
  class EventQueues {
    var vblank: seq<Event>
    var flips: seq<Event>
    var files: set<EventFile>   // the open files

    /** Every byte of a file's event space is free, queued, or reserved by a pending event. */
    ghost predicate Conserved(f: EventFile)
      reads `vblank, `flips, f
    {
      f.space >= 0 && f.space + EVENT_SIZE * (|f.list| + Count(vblank, f) + Count(flips, f)) == EVENT_SPACE
    }

    ghost predicate Valid()
      reads this, files
    {
      (forall f :: f in files ==> Conserved(f)) && (forall e :: e in vblank ==> e.file in files)
    }

    /** The driver holds no flip for a file that was closed: completing one would queue its event on that file. */
    ghost predicate FlipsAtHome()
      reads `flips, `files
    {
      forall e :: e in flips ==> e.file in files
    }

    constructor ()
      ensures Valid() && FlipsAtHome() && files == {} && vblank == [] && flips == []
    {
      vblank, flips, files := [], [], {};
    }

    /** The part of drm_open_helper that is about events */
    method Open() returns (f: EventFile)
      requires Valid()
      modifies `files
      ensures Valid() && fresh(f) && files == old(files) + {f} && f.space == EVENT_SPACE && f.list == []
    {
      f := new EventFile();
      NoneForNew(vblank, f);
      NoneForNew(flips, f);
      files := files + {f};
    }

    /** The part of drm_mode_page_flip_ioctl that is about events; `accepted` is what the driver says to the flip. */
    method PageFlip(f: EventFile, pipe: nat, memory: bool, accepted: bool) returns (ok: bool)
      requires Valid() && f in files
      modifies f`space, `flips
      ensures Valid() && vblank == old(vblank)
      ensures ok == (old(f.space) >= EVENT_SIZE && memory && accepted)
      ensures !ok ==> f.space == old(f.space) && flips == old(flips)
      ensures ok ==>
        f.space == old(f.space) - EVENT_SIZE && |flips| == |old(flips)| + 1 &&
        flips[..|old(flips)|] == old(flips) &&
        fresh(flips[|old(flips)|]) && flips[|old(flips)|].file == f && flips[|old(flips)|].pipe == pipe
    {
      hide Count;
      if f.space < EVENT_SIZE {
        return false;
      }
      f.space := f.space - EVENT_SIZE;
      if !memory {
        f.space := f.space + EVENT_SIZE;
        return false;
      }
      var e := new Event(f, pipe, 0);
      if !accepted {
        f.space := f.space + EVENT_SIZE;
        return false;
      }
      OneMore(flips, e);
      flips := flips + [e];
      ok := true;
    }

    /** drm_send_vblank_event: the driver completes the k-th flip it holds. */
    method FlipDone(k: nat, now: nat)
      requires Valid() && k < |flips| && flips[k].file in files
      modifies `flips, flips`sequence, flips[k].file`list
      ensures Valid() && vblank == old(vblank) && flips == old(Without(flips, k))
      ensures old(flips[k]).sequence == now % UINT
      ensures old(flips[k]).file.list == old(flips[k].file.list) + [old(flips[k])]
    {
      var e := flips[k];
      assert e in flips;
      forall f | f in files
        ensures Count(flips, f) == Count(Without(flips, k), f) + if e.file == f then 1 else 0
      {
        CountWithout(flips, k, f);
      }
      hide Count;
      flips := Without(flips, k);
      e.sequence := now % UINT;
      e.file.list := e.file.list + [e];
    }

    /** drm_queue_vblank_event: 0, or what refuses the request */
    method QueueVblank(f: EventFile, pipe: nat, request: nat, now: nat, nextOnMiss: bool, memory: bool)
      returns (err: int)
      requires Valid() && f in files && request < UINT && now < UINT
      modifies f, `vblank
      ensures Valid() && flips == old(flips)
      ensures err == if !memory then -ENOMEM else if old(f.space) < EVENT_SIZE then -EBUSY else 0
      ensures err != 0 ==> f.space == old(f.space) && f.list == old(f.list) && vblank == old(vblank)
      ensures err == 0 ==> f.space == old(f.space) - EVENT_SIZE
      ensures err == 0 && Due(now, request) && !nextOnMiss ==>
        vblank == old(vblank) && |f.list| == |old(f.list)| + 1 && f.list[..|old(f.list)|] == old(f.list) &&
        var e := f.list[|old(f.list)|]; fresh(e) && e.file == f && e.pipe == pipe && e.sequence == now
      ensures err == 0 && !(Due(now, request) && !nextOnMiss) ==>
        f.list == old(f.list) && |vblank| == |old(vblank)| + 1 && vblank[..|old(vblank)|] == old(vblank) &&
        var e := vblank[|old(vblank)|];
        fresh(e) && e.file == f && e.pipe == pipe && !Due(now, e.wanted) &&
        e.wanted == if Due(now, request) then (now + 1) % UINT else request
    {
      hide Count, Due;
      if !memory {
        return -ENOMEM;
      }
      if f.space < EVENT_SIZE {
        return -EBUSY;
      }
      f.space := f.space - EVENT_SIZE;
      var wanted := request;
      if nextOnMiss && Due(now, wanted) {
        wanted := (now + 1) % UINT;
        NextIsNotDue(now);
      }
      var e := new Event(f, pipe, wanted);
      OneMore(vblank, e);
      if Due(now, wanted) {
        e.sequence := now;
        f.list := f.list + [e];
      } else {
        vblank := vblank + [e];
      }
      err := 0;
    }

    /** One event of the list is sent. */
    method SendOne(e: Event, i: nat, now: nat)
      requires i < |vblank| && e == vblank[i]
      modifies `vblank, e`sequence, e.file`list
      ensures vblank == old(Without(vblank, i))
      ensures e.file.list == old(e.file.list) + [e] && e.sequence == now % UINT
    {
      vblank := Without(vblank, i);
      e.sequence := now % UINT;
      e.file.list := e.file.list + [e];
    }

    /** The loop over the waiting events */
    method SendEach(pipe: nat, now: nat, all: bool)
      requires forall e :: e in vblank ==> e.file in files
      modifies `vblank, vblank`sequence, files`list
      ensures vblank == Waiting(old(vblank), pipe, now, all)
      ensures forall f :: f in files ==> f.list == old(f.list) + Mine(Sent(old(vblank), pipe, now, all), f)
      ensures forall e :: e in old(vblank) ==>
        e.sequence == if Goes(e, pipe, now, all) then now % UINT else old(e.sequence)
    {
      hide Count, Goes, Sent, Waiting, Mine, Without;
      ghost var events := vblank;
      SplitStarts(events, pipe, now, all);
      var i := 0;
      ghost var n := 0;
      while i < |vblank|
        invariant 0 <= n <= |events| && i == |Waiting(events[..n], pipe, now, all)|
        invariant vblank == Waiting(events[..n], pipe, now, all) + events[n..]
        invariant forall f :: f in files ==> f.list == old(f.list) + Mine(Sent(events[..n], pipe, now, all), f)
        invariant forall e :: e in events && !Goes(e, pipe, now, all) ==> e.sequence == old(e.sequence)
        invariant forall k :: 0 <= k < n && Goes(events[k], pipe, now, all) ==> events[k].sequence == now % UINT
        decreases |events| - n
      {
        var e := vblank[i];
        DropNext(Waiting(events[..n], pipe, now, all), events, n);
        assert e in events;
        SplitMore(events, n, pipe, now, all);
        GoesIs(e, pipe, now, all);
        ghost var s := Sent(events[..n], pipe, now, all);
        MineMoreForAll(s, e);
        if e.pipe == pipe && (all || Due(now, e.wanted)) {
          SendOne(e, i, now);
          assert e.file.list == old(e.file.list) + (Mine(s, e.file) + [e]);
          assert Sent(events[..n + 1], pipe, now, all) == s + [e];
        } else {
          assert Sent(events[..n + 1], pipe, now, all) == s;
          i := i + 1;
        }
        n := n + 1;
      }
      assert events[..n] == events;
    }

    /** drm_handle_vblank_events, and drm_vblank_off for all events of the pipe: each file gets its events in order. */
    method SendVblank(pipe: nat, now: nat, all: bool)
      requires Valid()
      modifies `vblank, vblank`sequence, files`list
      ensures Valid() && flips == old(flips)
      ensures vblank == Waiting(old(vblank), pipe, now, all)
      ensures forall f :: f in files ==> f.list == old(f.list) + Mine(Sent(old(vblank), pipe, now, all), f)
      ensures forall e :: e in old(vblank) && Goes(e, pipe, now, all) ==>
        e !in vblank && e in e.file.list[|old(e.file.list)|..] && e.sequence == now % UINT
      ensures forall e :: e in old(vblank) && !Goes(e, pipe, now, all) ==> e in vblank && e.sequence == old(e.sequence)
      ensures forall e :: e in old(vblank) && e.pipe == pipe && (e.wanted == now || all) ==>
        e !in vblank && e in e.file.list[|old(e.file.list)|..] && e.sequence == now % UINT
      ensures forall e :: e in old(vblank) && e.pipe != pipe ==> e in vblank && e.sequence == old(e.sequence)
    {
      hide Count, Goes, Sent, Waiting, Mine, Due;
      ghost var events := vblank;
      WaitingWere(events, pipe, now, all);
      SendEach(pipe, now, all);
      forall f | f in files
        ensures Count(events, f) == Count(vblank, f) + |Mine(Sent(events, pipe, now, all), f)|
      {
        SentOrWaiting(events, pipe, now, all, f);
      }
      forall e | e in events
        ensures Goes(e, pipe, now, all) ==> e !in vblank && e in e.file.list[|old(e.file.list)|..]
        ensures !Goes(e, pipe, now, all) ==> e in vblank
        ensures e.pipe == pipe && (e.wanted == now || all) ==> Goes(e, pipe, now, all)
        ensures e.pipe != pipe ==> !Goes(e, pipe, now, all)
      {
        WhereItGoes(events, pipe, now, all, e);
        GoesOnTime(e, pipe, now, all);
        var f := e.file;
        assert f.list[|old(f.list)|..] == Mine(Sent(events, pipe, now, all), f);
      }
    }

    /** drm_dequeue_event: the first event of the file, if it still fits */
    method Dequeue(f: EventFile, total: nat, max: nat) returns (e: Event?)
      requires Valid() && f in files
      modifies f
      ensures Valid()
      ensures e != null <==> old(f.list) != [] && EVENT_SIZE + total <= max
      ensures e == null ==> f.list == old(f.list) && f.space == old(f.space)
      ensures e != null ==> old(f.list) == [e] + f.list && f.space == old(f.space) + EVENT_SIZE
    {
      hide Count;
      e := null;
      if f.list == [] {
        return;
      }
      if EVENT_SIZE + total > max {
        return;
      }
      f.space := f.space + EVENT_SIZE;
      e := f.list[0];
      f.list := f.list[1..];
    }

    /** drm_read, once there is an event: `copies` is how many copies to the user succeed.  The events that leave the
        queue are a prefix of it, as long as the buffer allows; a failed copy ends the reading with 0, and the event
        it was for is gone. */
    method Read(f: EventFile, max: nat, copies: nat) returns (total: nat, ghost out: seq<Event>)
      requires Valid() && f in files
      modifies f
      ensures Valid()
      ensures old(f.list) == out + f.list && f.space == old(f.space) + EVENT_SIZE * |out|
      ensures EVENT_SIZE * |out| <= max
      ensures copies >= |out| ==> total == EVENT_SIZE * |out| && (f.list == [] || max < EVENT_SIZE * (|out| + 1))
      ensures copies < |out| ==> total == 0 && |out| == copies + 1
    {
      hide Count;
      total, out := 0, [];
      var e := Dequeue(f, total, max);
      while e != null
        invariant Valid()
        invariant e != null ==> old(f.list) == out + [e] + f.list && f.space == old(f.space) + EVENT_SIZE * (|out| + 1)
        invariant e != null ==> EVENT_SIZE * (|out| + 1) <= max
        invariant e == null ==> old(f.list) == out + f.list && f.space == old(f.space) + EVENT_SIZE * |out|
        invariant e == null ==> f.list == [] || max < EVENT_SIZE * (|out| + 1)
        invariant EVENT_SIZE * |out| <= max && total == EVENT_SIZE * |out| && |out| <= copies
        decreases |f.list| + if e != null then 1 else 0
      {
        out := out + [e];
        if total >= EVENT_SIZE * copies {
          return 0, out;
        }
        total := total + EVENT_SIZE;
        e := Dequeue(f, total, max);
      }
    }

    /** The loop of drm_events_release over the waiting events */
    method DropWaiting(f: EventFile)
      modifies `vblank
      ensures vblank == Others(old(vblank), f)
    {
      hide Others;
      ghost var events := vblank;
      OthersStart(events, f);
      var i := 0;
      ghost var n := 0;
      while i < |vblank|
        invariant 0 <= n <= |events| && i == |Others(events[..n], f)|
        invariant vblank == Others(events[..n], f) + events[n..]
        decreases |events| - n
      {
        DropNext(Others(events[..n], f), events, n);
        OthersMore(events, n, f);
        if vblank[i].file == f {
          vblank := Without(vblank, i);
        } else {
          i := i + 1;
        }
        n := n + 1;
      }
      assert events[..n] == events;
    }

    /** drm_events_release: nothing that waits for a vertical blank refers to the closed file any more.  The flips of
        the file are the driver's: it is safe to complete those that it still holds if and only if none is of this
        file. */
    method Release(f: EventFile)
      requires f in files && (forall e :: e in vblank ==> e.file in files)
      requires forall g :: g in files && g != f ==> Conserved(g)
      modifies `vblank, `files, f`list
      ensures Valid() && files == old(files) - {f} && f.list == []
      ensures vblank == Others(old(vblank), f)
      ensures old(FlipsAtHome()) ==> (FlipsAtHome() <==> Count(flips, f) == 0)
    {
      hide Count, Others;
      OthersKeep(vblank, f);
      NobodyLeftIff(flips, f);
      DropWaiting(f);
      f.list := [];
      files := files - {f};
    }

    /** drm_release as far as events go, with a preclose callback that drops the flips of the file */
    method Close(f: EventFile)
      requires Valid() && FlipsAtHome() && f in files
      modifies `vblank, `flips, `files, f`list
      ensures Valid() && FlipsAtHome() && files == old(files) - {f} && f.list == []
      ensures vblank == Others(old(vblank), f) && flips == Others(old(flips), f)
    {
      hide Count, Others;
      OthersKeep(flips, f);
      NobodyLeftIff(Others(flips, f), f);
      flips := Others(flips, f);
      Release(f);
    }

    ghost function Pending(): set<Event>
      reads `vblank, `flips
    {
      (set e | e in vblank) + (set e | e in flips)
    }

    /** One operation, on the i-th file that was opened, if that is still open. */
    method Do(op: EventOp, handles: seq<EventFile>) returns (after: seq<EventFile>)
      requires Valid() && FlipsAtHome()
      modifies this, files, Pending()`sequence
      ensures Valid() && FlipsAtHome()
      ensures forall f :: f in files ==> f in old(files) || fresh(f)
      ensures forall e :: e in Pending() ==> e in old(Pending()) || fresh(e)
    {
      hide Count, Others, Waiting, Sent, Mine, Due, EventQueues.Conserved;
      after := handles;
      assert forall k :: 0 <= k < |vblank| ==> vblank[k] in Pending();
      assert forall k :: 0 <= k < |flips| ==> flips[k] in Pending();
      match op
      case OpenOp =>
        var f := Open();
        after := handles + [f];
      case FlipOp(i, pipe, memory, accepted) =>
        if i < |handles| && handles[i] in files {
          var ok := PageFlip(handles[i], pipe, memory, accepted);
        }
      case FlipDoneOp(k, now) =>
        if k < |flips| {
          FlipDone(k, now);
        }
      case QueueOp(i, pipe, request, now, nextOnMiss, memory) =>
        if i < |handles| && handles[i] in files {
          var err := QueueVblank(handles[i], pipe, request % UINT, now % UINT, nextOnMiss, memory);
        }
      case VblankOp(pipe, now, all) =>
        WaitingWere(vblank, pipe, now, all);
        SendVblank(pipe, now, all);
      case ReadOp(i, max, copies) =>
        if i < |handles| && handles[i] in files {
          var total, out := Read(handles[i], max, copies);
        }
      case CloseOp(i) =>
        if i < |handles| && handles[i] in files {
          OthersKeep(vblank, handles[i]);
          OthersKeep(flips, handles[i]);
          Close(handles[i]);
        }
    }

    /** After any sequence of operations on any files, the space of each open file is what its events leave: those
        in its queue, those that wait and those of flips.  There are never more than 128 of them. */
    method Run(ops: seq<EventOp>) returns (handles: seq<EventFile>)
      requires Valid() && FlipsAtHome()
      modifies this, files, Pending()`sequence
      ensures Valid() && FlipsAtHome()
      ensures forall f :: f in files ==>
        var events := |f.list| + Count(vblank, f) + Count(flips, f);
        events <= 128 && f.space == EVENT_SIZE * (128 - events)
    {
      hide Count;
      handles := [];
      for i := 0 to |ops|
        invariant Valid() && FlipsAtHome()
        invariant forall f :: f in files ==> f in old(files) || fresh(f)
        invariant forall e :: e in Pending() ==> e in old(Pending()) || fresh(e)
      {
        handles := Do(ops[i], handles);
      }
      assert forall f :: f in files ==> Conserved(f);
    }
  }

  datatype EventOp =
    | OpenOp
    | FlipOp(file: nat, pipe: nat, memory: bool, accepted: bool)
    | FlipDoneOp(k: nat, now: nat)
    | QueueOp(file: nat, pipe: nat, request: nat, now: nat, nextOnMiss: bool, memory: bool)
    | VblankOp(pipe: nat, now: nat, all: bool)
    | ReadOp(file: nat, max: nat, copies: nat)
    | CloseOp(file: nat)

  lemma OthersStart(events: seq<Event>, f: EventFile)
    ensures Others(events[..0], f) == [] && events[0..] == events
  {
  }

  lemma OthersMore(events: seq<Event>, n: nat, f: EventFile)
    requires n < |events|
    ensures Others(events[..n + 1], f) ==
      if events[n].file == f then Others(events[..n], f) else Others(events[..n], f) + [events[n]]
  {
    assert events[..n + 1][..n] == events[..n];
  }

  /** The events that are not for this file */
  function Others(events: seq<Event>, f: EventFile): seq<Event> {
    if events == [] then [] else
    var front := Others(events[..|events| - 1], f);
    if events[|events| - 1].file == f then front else front + [events[|events| - 1]]
  }

  lemma {:induction false} OthersKeep(events: seq<Event>, f: EventFile)
    ensures forall e :: e in Others(events, f) ==> e in events && e.file != f
    ensures forall g :: g != f ==> Count(Others(events, f), g) == Count(events, g)
  {
    if events != [] {
      var front, last := events[..|events| - 1], events[|events| - 1];
      OthersKeep(front, f);
      OneMore(Others(front, f), last);
    }
  }

  lemma {:induction false} NobodyLeftIff(events: seq<Event>, f: EventFile)
    ensures Count(events, f) == 0 <==> forall e :: e in events ==> e.file != f
  {
    if events != [] {
      NobodyLeftIff(events[..|events| - 1], f);
    }
  }

  lemma NextIsNotDue(now: nat)
    requires now < UINT
    ensures !Due(now, (now + 1) % UINT)
  {
  }

  lemma DropNext(w: seq<Event>, events: seq<Event>, n: nat)
    requires n < |events|
    ensures (w + events[n..])[|w|] == events[n]
    ensures Without(w + events[n..], |w|) == w + events[n + 1..]
    ensures w + events[n..] == (w + [events[n]]) + events[n + 1..]
  {
  }

  lemma SplitStarts(events: seq<Event>, pipe: nat, now: nat, all: bool)
    ensures Waiting(events[..0], pipe, now, all) == [] && Sent(events[..0], pipe, now, all) == [] &&
      events[0..] == events
    ensures forall f :: Mine([], f) == []
    ensures forall e :: e in Waiting(events, pipe, now, all) ==> e in events
  {
    WaitingWere(events, pipe, now, all);
  }

  lemma {:induction false} WaitingWere(events: seq<Event>, pipe: nat, now: nat, all: bool)
    ensures forall e :: e in Waiting(events, pipe, now, all) ==> e in events
  {
    if events != [] {
      WaitingWere(events[..|events| - 1], pipe, now, all);
    }
  }

  /** Each event either goes to its file or goes on waiting. */
  lemma {:induction false} WhereItGoes(events: seq<Event>, pipe: nat, now: nat, all: bool, e: Event)
    requires e in events
    ensures e in Waiting(events, pipe, now, all) <==> !Goes(e, pipe, now, all)
    ensures e in Mine(Sent(events, pipe, now, all), e.file) <==> Goes(e, pipe, now, all)
  {
    hide Goes;
    var front, last := events[..|events| - 1], events[|events| - 1];
    WaitingAndSentAre(front, pipe, now, all, e);
    MineMore(Sent(front, pipe, now, all), last, e.file);
    if e in front {
      WhereItGoes(front, pipe, now, all, e);
    }
  }

  lemma {:induction false} WaitingAndSentAre(events: seq<Event>, pipe: nat, now: nat, all: bool, e: Event)
    ensures e in Waiting(events, pipe, now, all) ==> !Goes(e, pipe, now, all)
    ensures e in Mine(Sent(events, pipe, now, all), e.file) ==> Goes(e, pipe, now, all)
  {
    hide Goes;
    if events != [] {
      var front, last := events[..|events| - 1], events[|events| - 1];
      WaitingAndSentAre(front, pipe, now, all, e);
      MineMore(Sent(front, pipe, now, all), last, e.file);
    }
  }

  lemma GoesOnTime(e: Event, pipe: nat, now: nat, all: bool)
    ensures e.pipe == pipe && (e.wanted == now || all) ==> Goes(e, pipe, now, all)
    ensures e.pipe != pipe ==> !Goes(e, pipe, now, all)
  {
  }

  /** What a vertical blank sends to a file, by position: the events of that pipe and file that are due, in the order in
      which they waited. */
  lemma {:induction false} SentInOrder(events: seq<Event>, pipe: nat, now: nat, all: bool, f: EventFile)
    returns (at: seq<nat>)
    ensures |at| == |Mine(Sent(events, pipe, now, all), f)|
    ensures forall k :: 0 <= k < |at| ==>
      at[k] < |events| && events[at[k]] == Mine(Sent(events, pipe, now, all), f)[k]
    ensures forall j, k :: 0 <= j < k < |at| ==> at[j] < at[k]
    ensures forall i :: 0 <= i < |events| ==>
      (i in at <==> events[i].file == f && events[i].pipe == pipe && (all || Due(now, events[i].wanted)))
  {
    hide Goes, Due;
    if events == [] {
      at := [];
    } else {
      var n := |events| - 1;
      at := SentInOrder(events[..n], pipe, now, all, f);
      GoesIs(events[n], pipe, now, all);
      MineMore(Sent(events[..n], pipe, now, all), events[n], f);
      if Goes(events[n], pipe, now, all) && events[n].file == f {
        at := at + [n];
      }
    }
  }

  lemma GoesIs(e: Event, pipe: nat, now: nat, all: bool)
    ensures Goes(e, pipe, now, all) == (e.pipe == pipe && (all || Due(now, e.wanted)))
  {
  }

  lemma {:induction false} NoneForNew(events: seq<Event>, f: EventFile)
    requires forall e :: e in events ==> e.file != f
    ensures Count(events, f) == 0
  {
    if events != [] {
      NoneForNew(events[..|events| - 1], f);
    }
  }

  lemma OneMore(events: seq<Event>, e: Event)
    ensures forall f :: Count(events + [e], f) == Count(events, f) + if e.file == f then 1 else 0
  {
    assert (events + [e])[..|events|] == events;
  }
}
