/** Masters and authentication: how files are attached to a master, who is allowed to authenticate whom, and what
    the reference counts and the tables of magic numbers say about it.  Everything here is about one minor. */
module Masters {
  import opened Errno
  import opened KmsObjects
  import opened MagicNumbers

  const MAGICS := 0x1_0000_0000

  class Master {
    var refcount: nat
    const magics: MagicTable<AuthFile>

    /** drm_master_create */
    constructor ()
      ensures refcount == 1 && fresh(magics) && magics.Valid() && magics.contents == map[] && magics.members == {}
    {
      refcount := 1;
      magics := new MagicTable<AuthFile>();
    }
  }

  /** An open file.  `master` is what it is attached to. */
  class AuthFile {
    const master: Master
    var magic: nat
    var authenticated: bool
    var isMaster: bool

    constructor (master: Master, authenticated: bool, isMaster: bool)
      ensures this.master == master && magic == 0 && this.authenticated == authenticated && this.isMaster == isMaster
    {
      this.master, magic, this.authenticated, this.isMaster := master, 0, authenticated, isMaster;
    }
  }

  // ----- the state and its steps -----

  datatype FileState = FileState(magic: nat, authenticated: bool, isMaster: bool)

  /** `current` is the master that the minor points to; `masters` and `seen` are all masters and files there
      ever were. */
  datatype State = State(
    current: Master?,
    files: map<AuthFile, FileState>,
    refs: map<Master, nat>,
    tables: map<Master, map<nat, AuthFile>>,
    sequence: nat,
    masters: set<Master>,
    seen: set<AuthFile>)

  function AttachedTo(files: set<AuthFile>, m: Master): set<AuthFile> {
    set f | f in files && f.master == m
  }

  /** drm_master_put: the master goes when its last reference does. */
  function PutRefs(refs: map<Master, nat>, m: Master): map<Master, nat>
    requires m in refs && refs[m] > 0
  {
    if refs[m] > 1 then refs[m := refs[m] - 1] else refs - {m}
  }

  function Put(s: State, m: Master): State
    requires m in s.refs && s.refs[m] > 0
  {
    s.(refs := PutRefs(s.refs, m), tables := if s.refs[m] > 1 then s.tables else s.tables - {m})
  }

  /** drm_open_helper when there is a current master */
  function Joined(s: State, f: AuthFile, root: bool): State
    requires f.master in s.refs
  {
    s.(files := s.files[f := FileState(0, root, false)],
       refs := s.refs[f.master := s.refs[f.master] + 1],
       seen := s.seen + {f})
  }

  /** drm_open_helper when there is none: a new master, which the minor and the file refer to */
  function Founded(s: State, f: AuthFile): State {
    s.(current := f.master,
       files := s.files[f := FileState(0, true, true)],
       refs := s.refs[f.master := 2],
       tables := s.tables[f.master := map[]],
       masters := s.masters + {f.master},
       seen := s.seen + {f})
  }

  /** The driver refused the new master: both references are dropped again. */
  function Unfounded(s: State, f: AuthFile): State {
    s.(masters := s.masters + {f.master}, seen := s.seen + {f})
  }

  function Deauthorised(files: map<AuthFile, FileState>, f: AuthFile): map<AuthFile, FileState> {
    map g | g in files :: if g.master == f.master && g != f then files[g].(authenticated := false) else files[g]
  }

  /** The table that loses the number of the closing file. */
  function Untokened(s: State, f: AuthFile): map<Master, map<nat, AuthFile>>
    requires f in s.files && f.master in s.tables
  {
    if s.files[f].magic != 0 then s.tables[f.master := s.tables[f.master] - {s.files[f].magic}] else s.tables
  }

  /** The part of drm_release that a master file adds. */
  function Abdicated(s: State, f: AuthFile): State
    requires f in s.files && f.master in s.refs && s.refs[f.master] > 0
  {
    var t := s.(files := Deauthorised(s.files, f));
    if s.current == f.master then Put(t, f.master).(current := null) else t
  }

  /** drm_release */
  function Released(s: State, f: AuthFile): State
    requires f in s.files && f.master in s.refs && f.master in s.tables
    requires s.refs[f.master] > if s.files[f].isMaster && s.current == f.master then 1 else 0
  {
    var t := s.(tables := Untokened(s, f));
    var u := if s.files[f].isMaster then Abdicated(t, f) else t;
    Put(u, f.master).(files := u.files - {f})
  }

  /** drm_getmagic, with k the number it found for a file that has none */
  function Numbered(s: State, f: AuthFile, k: nat, memory: bool): State
    requires f in s.files && f.master in s.tables
  {
    if s.files[f].magic != 0 then s else
    var table: map<nat, AuthFile> := s.tables[f.master];
    s.(sequence := k,
       files := s.files[f := s.files[f].(magic := k)],
       tables := s.tables[f.master := if memory then table[k := f] else table])
  }

  /** drm_authmagic with the permission checks of the ioctl dispatch: authenticated and master */
  function Vouched(s: State, f: AuthFile, k: nat): State
    requires f in s.files && f.master in s.tables
  {
    if !(s.files[f].authenticated && s.files[f].isMaster) || k !in s.tables[f.master] then s else
    var g := s.tables[f.master][k];
    s.(files := if g in s.files then s.files[g := s.files[g].(authenticated := true)] else s.files,
       tables := s.tables[f.master := s.tables[f.master] - {k}])
  }

  // ----- the invariants -----

  /** Every master that is still there is counted exactly: once for the minor, once for each attached file. */
  predicate Counted(current: Master?, files: set<AuthFile>, refs: map<Master, nat>) {
    forall m :: m in refs ==>
      refs[m] == (if current == m then 1 else 0) + |AttachedTo(files, m)| && refs[m] > 0
  }

  /** Nothing refers to a master that is gone. */
  predicate Homed(current: Master?, files: set<AuthFile>, masters: set<Master>, tables: set<Master>,
                  refs: set<Master>) {
    tables == refs && refs <= masters && (current != null ==> current in refs) &&
    forall f :: f in files ==> f.master in refs
  }

  /** At most one file is master, and exactly when the minor has a master. */
  predicate OneMaster(current: Master?, files: map<AuthFile, FileState>) {
    (forall f :: f in files && files[f].isMaster ==> current == f.master) &&
    (forall f, g :: f in files && g in files && files[f].isMaster && files[g].isMaster ==> f == g) &&
    (current != null ==> exists f :: f in files && files[f].isMaster)
  }

  /** Only files of the current master are authenticated. */
  predicate OnlyCurrent(current: Master?, files: map<AuthFile, FileState>) {
    forall f :: f in files && files[f].authenticated ==> current == f.master
  }

  /** A number other than 0 in a table belongs to an open file of that master which has that number. */
  predicate Registered(tables: map<Master, map<nat, AuthFile>>, files: map<AuthFile, FileState>, seen: set<AuthFile>) {
    forall m, k :: m in tables && k in tables[m] ==>
      k < MAGICS && tables[m][k] in seen && tables[m][k].master == m &&
      (k != 0 ==> tables[m][k] in files && files[tables[m][k]].magic == k)
  }

  predicate Inv(s: State) {
    Counted(s.current, s.files.Keys, s.refs) &&
    Homed(s.current, s.files.Keys, s.masters, s.tables.Keys, s.refs.Keys) &&
    OneMaster(s.current, s.files) && OnlyCurrent(s.current, s.files) &&
    Registered(s.tables, s.files, s.seen) && s.files.Keys <= s.seen && s.sequence < MAGICS
  }

  lemma AttachedWithOne(files: set<AuthFile>, f: AuthFile, m: Master)
    requires f !in files
    ensures |AttachedTo(files + {f}, m)| == |AttachedTo(files, m)| + if f.master == m then 1 else 0
  {
    assert AttachedTo(files + {f}, m) == AttachedTo(files, m) + if f.master == m then {f} else {};
  }

  // ----- opening -----

  lemma JoinedCounted(current: Master?, files: set<AuthFile>, refs: map<Master, nat>, f: AuthFile)
    requires Counted(current, files, refs) && f !in files && f.master in refs
    ensures Counted(current, files + {f}, refs[f.master := refs[f.master] + 1])
  {
    forall m | m in refs
      ensures |AttachedTo(files + {f}, m)| == |AttachedTo(files, m)| + if f.master == m then 1 else 0
    {
      AttachedWithOne(files, f, m);
    }
  }

  lemma MoreFiles(current: Master?, files: map<AuthFile, FileState>, f: AuthFile, root: bool)
    requires OneMaster(current, files) && OnlyCurrent(current, files) && current == f.master && f !in files
    ensures OneMaster(current, files[f := FileState(0, root, false)])
    ensures OnlyCurrent(current, files[f := FileState(0, root, false)])
  {
    var g :| g in files && files[g].isMaster;
    assert g in files[f := FileState(0, root, false)] && files[f := FileState(0, root, false)][g].isMaster;
  }

  lemma JoinedKeeps(s: State, f: AuthFile, root: bool)
    requires Inv(s) && f !in s.seen && s.current == f.master
    ensures Inv(Joined(s, f, root))
  {
    hide Counted, OneMaster, OnlyCurrent;
    JoinedCounted(s.current, s.files.Keys, s.refs, f);
    MoreFiles(s.current, s.files, f, root);
    assert Joined(s, f, root).files.Keys == s.files.Keys + {f};
  }

  lemma FoundedCounted(files: set<AuthFile>, refs: map<Master, nat>, f: AuthFile)
    requires Counted(null, files, refs) && f !in files && forall g :: g in files ==> g.master != f.master
    ensures Counted(f.master, files + {f}, refs[f.master := 2])
  {
    forall m | m in refs || m == f.master
      ensures |AttachedTo(files + {f}, m)| == |AttachedTo(files, m)| + if f.master == m then 1 else 0
    {
      AttachedWithOne(files, f, m);
    }
    assert AttachedTo(files, f.master) == {};
  }

  lemma FirstFile(files: map<AuthFile, FileState>, f: AuthFile)
    requires OneMaster(null, files) && OnlyCurrent(null, files) && f !in files
    ensures OneMaster(f.master, files[f := FileState(0, true, true)])
    ensures OnlyCurrent(f.master, files[f := FileState(0, true, true)])
  {
    assert files[f := FileState(0, true, true)][f].isMaster;
  }

  lemma NewMaster(s: State, f: AuthFile)
    requires Inv(s) && f.master !in s.masters
    ensures forall g :: g in s.files ==> g.master != f.master
    ensures Registered(s.tables[f.master := map[]], s.files[f := FileState(0, true, true)], s.seen + {f})
  {
    hide Counted, OneMaster, OnlyCurrent;
  }

  lemma FoundedKeeps(s: State, f: AuthFile)
    requires Inv(s) && f !in s.seen && s.current == null && f.master !in s.masters
    ensures Inv(Founded(s, f))
  {
    hide Counted, OneMaster, OnlyCurrent, Registered;
    NewMaster(s, f);
    FoundedCounted(s.files.Keys, s.refs, f);
    FirstFile(s.files, f);
    assert Founded(s, f).files.Keys == s.files.Keys + {f};
  }

  /** Dropping both references of a master that was just made leaves nothing behind. */
  lemma UnfoundedIsBothPuts(s: State, f: AuthFile)
    requires Inv(s) && f.master !in s.masters && s.current == null && f !in s.files
    ensures var t := Founded(s, f);
            Unfounded(s, f) == Put(Put(t.(current := null), f.master), f.master).(files := t.files - {f})
    ensures Inv(Unfounded(s, f))
  {
    var t := Founded(s, f);
    assert t.files - {f} == s.files;
    assert t.refs[f.master := 1] - {f.master} == s.refs;
    assert t.tables - {f.master} == s.tables;
  }

  // ----- closing -----

  lemma TokensGone(s: State, f: AuthFile)
    requires Inv(s) && f in s.files
    ensures Inv(s.(tables := Untokened(s, f)))
    ensures forall m, k :: m in s.tables && k in Untokened(s, f)[m] && Untokened(s, f)[m][k] == f ==> k == 0
  {
    hide Counted, OneMaster, OnlyCurrent;
  }

  lemma AttachedWithoutOne(files: set<AuthFile>, f: AuthFile, m: Master)
    requires f in files
    ensures |AttachedTo(files, m)| == |AttachedTo(files - {f}, m)| + if f.master == m then 1 else 0
  {
    assert AttachedTo(files, m) == AttachedTo(files - {f}, m) + if f.master == m then {f} else {};
  }

  /** A file lets go of its master. */
  lemma FilePut(current: Master?, files: set<AuthFile>, refs: map<Master, nat>, f: AuthFile)
    requires Counted(current, files, refs) && f in files && f.master in refs
    ensures Counted(current, files - {f}, PutRefs(refs, f.master))
    ensures f.master !in PutRefs(refs, f.master) ==>
      current != f.master && forall g :: g in files && g != f ==> g.master != f.master
  {
    forall m | m in refs
      ensures |AttachedTo(files, m)| == |AttachedTo(files - {f}, m)| + if f.master == m then 1 else 0
    {
      AttachedWithoutOne(files, f, m);
    }
    assert forall g :: g in files - {f} && g.master == f.master ==> g in AttachedTo(files - {f}, f.master);
  }

  /** The minor lets go of its master. */
  lemma MinorPut(files: set<AuthFile>, refs: map<Master, nat>, m: Master, f: AuthFile)
    requires Counted(m, files, refs) && m in refs && f in files && f.master == m
    ensures refs[m] > 1 && Counted(null, files, PutRefs(refs, m))
  {
    assert f in AttachedTo(files, m);
  }

  lemma HomedWithout(current: Master?, files: set<AuthFile>, masters: set<Master>, tables: set<Master>,
                     refs: map<Master, nat>,
                     f: AuthFile)
    requires Homed(current, files, masters, tables, refs.Keys) && Counted(current, files, refs) && f in files
    ensures Homed(current, files - {f}, masters, if refs[f.master] > 1 then tables else tables - {f.master},
                  PutRefs(refs, f.master).Keys)
  {
    FilePut(current, files, refs, f);
    hide Counted;
    if refs[f.master] > 1 {
      assert refs[f.master := refs[f.master] - 1].Keys == refs.Keys;
    }
  }

  lemma OthersStay(current: Master?, files: map<AuthFile, FileState>, f: AuthFile)
    requires OneMaster(current, files) && OnlyCurrent(current, files) && f in files && !files[f].isMaster
    ensures OneMaster(current, files - {f}) && OnlyCurrent(current, files - {f})
  {
    if current != null {
      var g :| g in files && files[g].isMaster;
      assert g in files - {f} && (files - {f})[g].isMaster;
    }
  }

  lemma NoMasterLeft(current: Master?, files: map<AuthFile, FileState>, f: AuthFile)
    requires OneMaster(current, files) && OnlyCurrent(current, files) && f in files && files[f].isMaster
    ensures OneMaster(null, Deauthorised(files, f) - {f}) && OnlyCurrent(null, Deauthorised(files, f) - {f})
  {
  }

  lemma RegisteredWithout(tables: map<Master, map<nat, AuthFile>>, files: map<AuthFile, FileState>, seen: set<AuthFile>,
                          less: map<Master, map<nat, AuthFile>>, left: map<AuthFile, FileState>, f: AuthFile)
    requires Registered(tables, files, seen)
    requires forall m, k :: m in tables && k in tables[m] && tables[m][k] == f ==> k == 0
    requires forall m :: m in less ==> m in tables && less[m] == tables[m]
    requires forall g :: g in files && g != f ==> g in left && left[g].magic == files[g].magic
    ensures Registered(less, left, seen)
  {
  }

  lemma CommonerLeaves(s: State, f: AuthFile)
    requires Inv(s) && f in s.files && !s.files[f].isMaster
    requires forall m, k :: m in s.tables && k in s.tables[m] && s.tables[m][k] == f ==> k == 0
    ensures Inv(Put(s, f.master).(files := s.files - {f}))
  {
    hide Counted, OneMaster, OnlyCurrent, Homed, Registered, PutRefs;
    assert f.master in s.refs && s.refs[f.master] > 0 by {
      MasterThere(s, f);
    }
    var t := Put(s, f.master).(files := s.files - {f});
    assert t.files.Keys == s.files.Keys - {f};
    FilePut(s.current, s.files.Keys, s.refs, f);
    HomedWithout(s.current, s.files.Keys, s.masters, s.tables.Keys, s.refs, f);
    OthersStay(s.current, s.files, f);
    RegisteredWithout(s.tables, s.files, s.seen, t.tables, t.files, f);
  }

  lemma MasterThere(s: State, f: AuthFile)
    requires Inv(s) && f in s.files
    ensures f.master in s.refs && f.master in s.tables && s.refs[f.master] > 0
  {
  }

  lemma MasterPuts(s: State, f: AuthFile)
    requires Inv(s) && f in s.files && s.current == f.master
    ensures f.master in s.refs && s.refs[f.master] > 1
    ensures var refs := PutRefs(s.refs, f.master);
            f.master in refs && Counted(null, s.files.Keys, refs) &&
            Homed(null, s.files.Keys, s.masters, s.tables.Keys, refs.Keys)
  {
    MinorPut(s.files.Keys, s.refs, f.master, f);
  }

  lemma ChiefLeaves(s: State, f: AuthFile)
    requires Inv(s) && f in s.files && s.files[f].isMaster
    requires forall m, k :: m in s.tables && k in s.tables[m] && s.tables[m][k] == f ==> k == 0
    ensures f.master in s.refs && s.refs[f.master] > 1 && s.current == f.master
    ensures Inv(Put(Abdicated(s, f), f.master).(files := Abdicated(s, f).files - {f}))
    ensures Abdicated(s, f).current == null
  {
    hide Counted, Homed, Registered, PutRefs, Deauthorised, Abdicated, OnlyCurrent;
    MasterPuts(s, f);
    AbdicatedIs(s, f);
    var u := Abdicated(s, f);
    DeauthorisedKeys(s.files, f);
    NoMasterLeft(s.current, s.files, f);
    LastPut(s, u, f);
  }

  lemma AbdicatedIs(s: State, f: AuthFile)
    requires f in s.files && f.master in s.refs && s.refs[f.master] > 1 && s.current == f.master
    ensures Abdicated(s, f) == s.(files := Deauthorised(s.files, f), current := null, refs := PutRefs(s.refs, f.master))
  {
  }

  lemma LastPut(s: State, u: State, f: AuthFile)
    requires Registered(s.tables, s.files, s.seen) && s.files.Keys <= s.seen && s.sequence < MAGICS
    requires u.masters == s.masters && u.tables == s.tables && u.seen == s.seen && u.sequence == s.sequence
    requires forall m, k :: m in s.tables && k in s.tables[m] && s.tables[m][k] == f ==> k == 0
    requires u.files.Keys == s.files.Keys && forall g :: g in s.files ==> u.files[g].magic == s.files[g].magic
    requires f in u.files && f.master in u.refs && u.refs[f.master] > 0 && u.current == null
    requires Counted(null, u.files.Keys, u.refs)
    requires Homed(null, u.files.Keys, u.masters, u.tables.Keys, u.refs.Keys)
    requires OneMaster(null, u.files - {f}) && OnlyCurrent(null, u.files - {f})
    ensures Inv(Put(u, f.master).(files := u.files - {f}))
  {
    hide Counted, OneMaster, OnlyCurrent, Homed, Registered, PutRefs;
    var t := Put(u, f.master).(files := u.files - {f});
    FilePut(null, u.files.Keys, u.refs, f);
    HomedWithout(null, u.files.Keys, u.masters, u.tables.Keys, u.refs, f);
    RegisteredWithout(s.tables, s.files, s.seen, t.tables, t.files, f);
    assert t.files.Keys == u.files.Keys - {f};
  }

  lemma DeauthorisedKeys(files: map<AuthFile, FileState>, f: AuthFile)
    ensures Deauthorised(files, f).Keys == files.Keys
    ensures forall g :: g in files ==> Deauthorised(files, f)[g].magic == files[g].magic
  {
  }

  lemma CanRelease(s: State, f: AuthFile)
    requires Inv(s) && f in s.files
    ensures f.master in s.refs && f.master in s.tables
    ensures s.refs[f.master] > if s.files[f].isMaster && s.current == f.master then 1 else 0
  {
    MasterThere(s, f);
    if s.files[f].isMaster {
      MasterPuts(s, f);
    }
  }

  /** Closing a file keeps everything; closing the master file leaves the minor without a master. */
  lemma ReleasedKeeps(s: State, f: AuthFile)
    requires Inv(s) && f in s.files
    ensures f.master in s.refs && f.master in s.tables
    ensures s.refs[f.master] > if s.files[f].isMaster && s.current == f.master then 1 else 0
    ensures Inv(Released(s, f))
    ensures s.files[f].isMaster ==> Released(s, f).current == null
    ensures !s.files[f].isMaster ==> Released(s, f).current == s.current
  {
    CanRelease(s, f);
    TokensGone(s, f);
    var t := s.(tables := Untokened(s, f));
    hide Inv, Untokened, Put, Abdicated;
    if s.files[f].isMaster {
      ChiefLeaves(t, f);
    } else {
      CommonerLeaves(t, f);
    }
  }

  // ----- authentication -----

  lemma NumberedKeeps(s: State, f: AuthFile, k: nat, memory: bool)
    requires Inv(s) && f in s.files && k < MAGICS
    ensures f.master in s.tables
    ensures s.files[f].magic == 0 && k !in s.tables[f.master] ==> Inv(Numbered(s, f, k, memory))
    ensures s.files[f].magic != 0 ==> Numbered(s, f, k, memory) == s
  {
    hide Counted, OneMaster, OnlyCurrent;
    MasterThere(s, f);
    if s.files[f].magic == 0 && k !in s.tables[f.master] {
      var t := Numbered(s, f, k, memory);
      assert t.files.Keys == s.files.Keys && t.tables.Keys == s.tables.Keys;
      SameRoles(s.current, s.files, t.files);
    }
  }

  lemma SameRoles(current: Master?, before: map<AuthFile, FileState>, after: map<AuthFile, FileState>)
    requires OneMaster(current, before) && OnlyCurrent(current, before) && after.Keys == before.Keys
    requires forall g :: g in before ==> after[g].isMaster == before[g].isMaster
    requires forall g :: g in before && after[g].authenticated ==> before[g].authenticated || current == g.master
    ensures OneMaster(current, after) && OnlyCurrent(current, after)
  {
    if current != null {
      var g :| g in before && before[g].isMaster;
      assert g in after && after[g].isMaster;
    }
  }

  lemma Chief(s: State, f: AuthFile)
    requires Inv(s) && f in s.files
    ensures s.files[f].isMaster ==> s.current == f.master
  {
  }

  lemma VouchedKeeps(s: State, f: AuthFile, k: nat)
    requires Inv(s) && f in s.files
    ensures f.master in s.tables && Inv(Vouched(s, f, k))
  {
    hide Counted, OneMaster, OnlyCurrent;
    MasterThere(s, f);
    Chief(s, f);
    if s.files[f].authenticated && s.files[f].isMaster && k in s.tables[f.master] {
      var t := Vouched(s, f, k);
      assert t.files.Keys == s.files.Keys && t.tables.Keys == s.tables.Keys;
      SameRoles(s.current, s.files, t.files);
    }
  }

  /** A number authenticates at most once: after it did, it is unknown until it is handed out again. */
  lemma NumberWorksOnce(s: State, f: AuthFile, g: AuthFile, k: nat)
    requires Inv(s) && f in s.files && g in s.files && g.master == f.master
    requires s.files[f].authenticated && s.files[f].isMaster
    ensures f.master in s.tables && g in Vouched(s, f, k).files && g.master in Vouched(s, f, k).tables
    ensures Vouched(Vouched(s, f, k), g, k) == Vouched(s, f, k)
    ensures k in s.tables[f.master] && s.tables[f.master][k] in s.files ==>
              Vouched(s, f, k).files[s.tables[f.master][k]].authenticated
  {
    hide Counted, OneMaster, OnlyCurrent;
    MasterThere(s, f);
  }

  // ----- whole runs -----

  datatype Step =
    | Open(f: AuthFile, root: bool, accepted: bool)
    | Close(f: AuthFile)
    | GetMagic(f: AuthFile, k: nat, memory: bool)
    | AuthMagic(f: AuthFile, k: nat)
    | Elsewhere(k: nat)    // a file of another minor gets a number: the counter is common to all minors

  /** A new file is attached to the current master, or to a new one when there is none. */
  predicate Enabled(s: State, step: Step) {
    match step
    case Open(f, _, _) => f !in s.seen && if s.current != null then s.current == f.master else f.master !in s.masters
    case Close(f) => f in s.files
    case GetMagic(f, k, _) => f in s.files && k < MAGICS && f.master in s.tables && k !in s.tables[f.master]
    case AuthMagic(f, _) => f in s.files
    case Elsewhere(k) => k < MAGICS
  }

  function After(s: State, step: Step): State
    requires Inv(s) && Enabled(s, step)
  {
    match step
    case Open(f, root, accepted) =>
      if s.current != null then Joined(s, f, root) else if accepted then Founded(s, f) else Unfounded(s, f)
    case Close(f) => CanRelease(s, f); Released(s, f)
    case GetMagic(f, k, memory) => Numbered(s, f, k, memory)
    case AuthMagic(f, k) => MasterThere(s, f); Vouched(s, f, k)
    case Elsewhere(k) => s.(sequence := k)
  }

  lemma StepKeeps(s: State, step: Step)
    requires Inv(s) && Enabled(s, step)
    ensures Inv(After(s, step))
  {
    hide Inv, Joined, Founded, Unfounded, Released, Numbered, Vouched;
    match step
    case Open(f, root, accepted) =>
      if s.current != null { JoinedKeeps(s, f, root); }
      else if accepted { FoundedKeeps(s, f); }
      else { UnfoundedKeeps(s, f); }
    case Close(f) => ReleasedKeeps(s, f);
    case GetMagic(f, k, memory) => NumberedKeeps(s, f, k, memory);
    case AuthMagic(f, k) => VouchedKeeps(s, f, k);
    case Elsewhere(k) => CountedElsewhere(s, k);
  }

  lemma CountedElsewhere(s: State, k: nat)
    requires Inv(s) && k < MAGICS
    ensures Inv(s.(sequence := k))
  {
    hide Counted, Homed, OneMaster, OnlyCurrent, Registered;
  }

  lemma UnfoundedKeeps(s: State, f: AuthFile)
    requires Inv(s)
    ensures Inv(Unfounded(s, f))
  {
    hide Counted, OneMaster, OnlyCurrent;
  }

  predicate Possible(s: State, run: seq<Step>)
    requires Inv(s)
    decreases |run|
  {
    run == [] || (Enabled(s, run[0]) && (StepKeeps(s, run[0]); Possible(After(s, run[0]), run[1..])))
  }

  function Final(s: State, run: seq<Step>): State
    requires Inv(s) && Possible(s, run)
    decreases |run|
  {
    if run == [] then s else StepKeeps(s, run[0]); Final(After(s, run[0]), run[1..])
  }

  const START := State(null, map[], map[], map[], 0, {}, {})

  /** In every state that a run reaches, each master that is still there counts exactly the minor and its files, at
      most one file is master, and only files of the current master are authenticated. */
  lemma {:induction false} RunKeeps(s: State, run: seq<Step>)
    requires Inv(s) && Possible(s, run)
    ensures var t := Final(s, run);
            Inv(t) && Counted(t.current, t.files.Keys, t.refs) && OneMaster(t.current, t.files) &&
            OnlyCurrent(t.current, t.files)
    decreases |run|
  {
    if run != [] {
      StepKeeps(s, run[0]);
      RunKeeps(After(s, run[0]), run[1..]);
    }
  }

  lemma StartKeeps()
    ensures Inv(START)
  {
  }

  lemma MasterStaysOut(s: State, step: Step, m: Master)
    requires Inv(s) && Enabled(s, step) && m in s.masters && s.current != m
    ensures m in After(s, step).masters && After(s, step).current != m
  {
    if step.Close? {
      ReleasedKeeps(s, step.f);
    }
  }

  /** Once a master is not the current one any more, none of the files that are left on it is ever master or
      authenticated again, whatever happens. */
  lemma {:induction false} DethronedForGood(s: State, run: seq<Step>, m: Master)
    requires Inv(s) && Possible(s, run) && m in s.masters && s.current != m
    ensures Final(s, run).current != m
    ensures forall f :: f in Final(s, run).files && f.master == m ==>
              !Final(s, run).files[f].authenticated && !Final(s, run).files[f].isMaster
    decreases |run|
  {
    if run != [] {
      StepKeeps(s, run[0]);
      MasterStaysOut(s, run[0], m);
      DethronedForGood(After(s, run[0]), run[1..], m);
    }
  }

  /** That is what closing the master file does to its master. */
  lemma ClosingTheMasterFileDethrones(s: State, f: AuthFile)
    requires Inv(s) && f in s.files && s.files[f].isMaster
    ensures f.master in After(s, Close(f)).masters && After(s, Close(f)).current != f.master
  {
    MasterThere(s, f);
    ReleasedKeeps(s, f);
  }

  // ----- who is authenticated -----

  /** The step gives the file the right to be authenticated: root opened it, or it founds its master, or a file that is
      master and authenticated vouches for the number under which its master's table has it. */
  predicate Entitles(s: State, step: Step, f: AuthFile) {
    match step
    case Open(g, root, accepted) => g == f && (root || (s.current == null && accepted))
    case AuthMagic(g, k) =>
      g in s.files && s.files[g].authenticated && s.files[g].isMaster &&
      g.master in s.tables && k in s.tables[g.master] && s.tables[g.master][k] == f
    case _ => false
  }

  /** Some step of the run does. */
  predicate Entitled(s: State, run: seq<Step>, f: AuthFile)
    requires Inv(s) && Possible(s, run)
    decreases |run|
  {
    run != [] && (StepKeeps(s, run[0]); Entitles(s, run[0], f) || Entitled(After(s, run[0]), run[1..], f))
  }

  /** What a step does to the files that are open: each keeps its number unless it had none and is given one, stays
      master or not, and keeps its rights unless the master file of its master is closed; rights are only given to
      those entitled.  A closed file is gone, and no other. */
  lemma StepChanges(s: State, step: Step, f: AuthFile)
    requires Inv(s) && Enabled(s, step) && f in s.files
    ensures var t := After(s, step);
      (f in t.files <==> step != Close(f)) &&
      (f in t.files ==>
        t.files[f].isMaster == s.files[f].isMaster &&
        (t.files[f].authenticated <==>
          Entitles(s, step, f) ||
          (s.files[f].authenticated &&
           !(step.Close? && step.f in s.files && s.files[step.f].isMaster && step.f.master == f.master))) &&
        t.files[f].magic ==
          if step.GetMagic? && step.f == f && s.files[f].magic == 0 then step.k else s.files[f].magic)
  {
    hide Counted, Homed, OneMaster, OnlyCurrent, Registered;
    if step.Close? {
      ReleasedFiles(s, step.f);
      hide Released;
    } else if step.AuthMagic? {
      MasterThere(s, step.f);
    }
  }

  lemma ReleasedFiles(s: State, f: AuthFile)
    requires Inv(s) && f in s.files
    ensures var t := After(s, Close(f));
      t.files == (if s.files[f].isMaster then Deauthorised(s.files, f) else s.files) - {f}
  {
    hide Counted, Homed, OneMaster, OnlyCurrent, Registered;
    CanRelease(s, f);
  }

  /** The rights that a file starts with. */
  lemma OpenedRights(s: State, f: AuthFile, root: bool, accepted: bool)
    requires Inv(s) && Enabled(s, Open(f, root, accepted))
    ensures var t := After(s, Open(f, root, accepted));
      (f in t.files <==> s.current != null || accepted) &&
      (f in t.files ==>
        t.files[f].isMaster == (s.current == null) && t.files[f].magic == 0 &&
        (t.files[f].authenticated <==> Entitles(s, Open(f, root, accepted), f)))
  {
    hide Counted, Homed, OneMaster, OnlyCurrent, Registered;
  }

  /** Whoever is authenticated at the end of a run was so before it, or became entitled during it. */
  lemma {:induction false} AuthenticatedWereEntitled(s: State, run: seq<Step>, f: AuthFile)
    requires Inv(s) && Possible(s, run) && f in Final(s, run).files && Final(s, run).files[f].authenticated
    ensures (f in s.files && s.files[f].authenticated) || Entitled(s, run, f)
    decreases |run|
  {
    if run != [] {
      StepKeeps(s, run[0]);
      var t := After(s, run[0]);
      AuthenticatedWereEntitled(t, run[1..], f);
      if f in t.files && t.files[f].authenticated {
        OneStepEntitles(s, run[0], f);
      }
    }
  }

  lemma OneStepEntitles(s: State, step: Step, f: AuthFile)
    requires Inv(s) && Enabled(s, step) && f in After(s, step).files && After(s, step).files[f].authenticated
    ensures (f in s.files && s.files[f].authenticated) || Entitles(s, step, f)
  {
    if f in s.files {
      StepChanges(s, step, f);
    } else {
      NewFileIsOpened(s, step, f);
      OpenedRights(s, f, step.root, step.accepted);
    }
  }

  lemma NewFileIsOpened(s: State, step: Step, f: AuthFile)
    requires Inv(s) && Enabled(s, step) && f in After(s, step).files && f !in s.files
    ensures step.Open? && step.f == f
  {
    hide Counted, Homed, OneMaster, OnlyCurrent, Registered;
    if step.Close? {
      ReleasedFiles(s, step.f);
      hide Released;
    }
  }

  /** From the start: every authenticated file was opened by root, founded its master, or was vouched for. */
  lemma OnlyTheEntitledAreAuthenticated(run: seq<Step>, f: AuthFile)
    requires Inv(START) && Possible(START, run) && f in Final(START, run).files
    ensures Final(START, run).files[f].authenticated ==> Entitled(START, run, f)
  {
    if Final(START, run).files[f].authenticated {
      AuthenticatedWereEntitled(START, run, f);
    }
  }

  // ----- entries of closed files -----

  /** No table has an entry for this file. */
  predicate Forgotten(s: State, f: AuthFile) {
    forall m, k :: m in s.tables && k in s.tables[m] ==> s.tables[m][k] != f
  }

  /** The file was given the number 0, and its master outlives it. */
  predicate NumberedZero(s: State, f: AuthFile)
    requires f.master in s.tables && f.master in s.refs && f in s.files
  {
    0 in s.tables[f.master] && s.tables[f.master][0] == f && s.refs[f.master] > if s.files[f].isMaster then 2 else 1
  }

  lemma ReleasedTables(s: State, f: AuthFile)
    requires Inv(s) && f in s.files
    ensures f.master in s.refs && f.master in s.tables
    ensures s.refs[f.master] > if s.files[f].isMaster && s.current == f.master then 1 else 0
    ensures Released(s, f).tables ==
            if s.refs[f.master] > (if s.files[f].isMaster then 2 else 1) then Untokened(s, f)
              else Untokened(s, f) - {f.master}
  {
    hide Counted, OnlyCurrent, Registered, Untokened;
    CanRelease(s, f);
    Chief(s, f);
  }

  /** Closing a file leaves no entry that refers to it, exactly when it was not given the number 0. */
  lemma ClosedIsForgottenIffNotZero(s: State, f: AuthFile)
    requires Inv(s) && f in s.files
    ensures f.master in s.refs && f.master in s.tables
    ensures Forgotten(After(s, Close(f)), f) <==> !NumberedZero(s, f)
  {
    hide Counted, OneMaster, OnlyCurrent;
    CanRelease(s, f);
    TokensGone(s, f);
    ReleasedTables(s, f);
    var t := After(s, Close(f));
    hide Released;
    assert forall m, k :: m in t.tables && k in t.tables[m] && t.tables[m][k] == f ==> k == 0 && m == f.master;
    if NumberedZero(s, f) {
      assert 0 in t.tables[f.master] && t.tables[f.master][0] == f;
    }
  }

  /** Number 0 is not in use. */
  predicate NoZero(s: State) {
    forall m :: m in s.tables ==> 0 !in s.tables[m]
  }

  /** As long as the counter does not wrap, every entry belongs to an open file, which has that number. */
  lemma EntriesAreOpenFiles(s: State)
    requires Inv(s) && NoZero(s)
    ensures forall m, k :: m in s.tables && k in s.tables[m] ==>
              s.tables[m][k] in s.files && s.tables[m][k].master == m && s.files[s.tables[m][k]].magic == k
  {
    hide Counted, OneMaster, OnlyCurrent;
  }

  lemma NoZeroStays(s: State, step: Step)
    requires Inv(s) && Enabled(s, step) && NoZero(s) && (step.GetMagic? ==> step.k != 0)
    ensures NoZero(After(s, step))
  {
    hide Counted, OneMaster, OnlyCurrent, Registered;
    if step.Close? {
      ReleasedTables(s, step.f);
      hide Released;
    }
  }

  /** The same over whole runs in which nobody gets the number 0. */
  lemma {:induction false} EntriesStayOpenFiles(s: State, run: seq<Step>)
    requires Inv(s) && Possible(s, run) && NoZero(s)
    requires forall step :: step in run && step.GetMagic? ==> step.k != 0
    ensures var t := Final(s, run);
      NoZero(t) && forall m, k :: m in t.tables && k in t.tables[m] ==>
        t.tables[m][k] in t.files && t.tables[m][k].master == m && t.files[t.tables[m][k]].magic == k
    decreases |run|
  {
    if run == [] {
      EntriesAreOpenFiles(s);
    } else {
      StepKeeps(s, run[0]);
      NoZeroStays(s, run[0]);
      EntriesStayOpenFiles(After(s, run[0]), run[1..]);
    }
  }

  // ----- a number authenticates once -----

  /** The master has no entry under this number, or is gone. */
  predicate Unknown(s: State, m: Master, k: nat) {
    m in s.tables ==> k !in s.tables[m]
  }

  predicate HandsOut(step: Step, m: Master, k: nat) {
    step.GetMagic? && step.f.master == m && step.k == k && step.memory
  }

  lemma StaysUnknown(s: State, step: Step, m: Master, k: nat)
    requires Inv(s) && Enabled(s, step) && m in s.masters && Unknown(s, m, k) && !HandsOut(step, m, k)
    ensures m in After(s, step).masters && Unknown(After(s, step), m, k)
  {
    hide Counted, OneMaster, OnlyCurrent, Registered;
    if step.Close? {
      ReleasedKeeps(s, step.f);
      ReleasedTables(s, step.f);
      hide Released;
    }
  }

  lemma {:induction false} StaysUnknownOverRuns(s: State, run: seq<Step>, m: Master, k: nat)
    requires Inv(s) && Possible(s, run) && m in s.masters && Unknown(s, m, k)
    requires forall step :: step in run ==> !HandsOut(step, m, k)
    ensures Unknown(Final(s, run), m, k)
    decreases |run|
  {
    if run != [] {
      StepKeeps(s, run[0]);
      StaysUnknown(s, run[0], m, k);
      StaysUnknownOverRuns(After(s, run[0]), run[1..], m, k);
    }
  }

  /** After a number authenticated a file, presenting it on the same master does nothing any more, until a file of that
      master is handed the number again. */
  lemma NumberWorksOncePerHandingOut(s: State, f: AuthFile, k: nat, run: seq<Step>, g: AuthFile)
    requires Inv(s) && f in s.files && s.files[f].authenticated && s.files[f].isMaster
    requires Inv(After(s, AuthMagic(f, k))) && Possible(After(s, AuthMagic(f, k)), run)
    requires forall step :: step in run ==> !HandsOut(step, f.master, k)
    ensures var t := Final(After(s, AuthMagic(f, k)), run);
      Inv(t) && (g in t.files && g.master == f.master ==> After(t, AuthMagic(g, k)) == t)
  {
    MasterThere(s, f);
    var u := After(s, AuthMagic(f, k));
    assert Unknown(u, f.master, k) && f.master in u.masters;
    RunKeeps(u, run);
    hide Inv;
    StaysUnknownOverRuns(u, run, f.master, k);
    var t := Final(u, run);
    if g in t.files && g.master == f.master {
      MasterThere(t, g);
    }
  }

  // ----- the counter wraps -----

  /** The number that follows 0xFFFFFFFF is 0.  A file that gets it is not cleaned up after when it is closed. */
  lemma WrapLeavesAnEntry(s: State, f: AuthFile, g: AuthFile)
    requires Inv(s) && s.sequence == MAGICS - 1
    requires f in s.files && g in s.files && f != g && f.master == g.master && !s.files[f].isMaster
    requires s.files[f].magic == 0 && f.master in s.tables && s.tables[f.master] == map[]
    ensures var get := GetMagic(f, (s.sequence + 1) % MAGICS, true);
            Enabled(s, get) && Inv(After(s, get)) && Enabled(After(s, get), Close(f))
    ensures var t := After(After(s, GetMagic(f, (s.sequence + 1) % MAGICS, true)), Close(f));
            f !in t.files && f.master in t.tables && t.tables[f.master] == map[0 := f]
  {
    hide OneMaster, OnlyCurrent, Registered;
    var get := GetMagic(f, 0, true);
    StepKeeps(s, get);
    var u := After(s, get);
    assert {f, g} <= AttachedTo(s.files.Keys, f.master) && |{f, g}| == 2;
    SubsetCount({f, g}, AttachedTo(s.files.Keys, f.master));
    ReleasedTables(u, f);
  }

  /** And the counter does get there, if other minors use it enough: a run from the start to such an entry. */
  lemma WrapIsReachable(g: AuthFile, f: AuthFile)
    requires f != g && f.master == g.master
    ensures Inv(START)
    ensures var run := [Open(g, true, true), Open(f, false, true), Elsewhere(0xFFFF_FFFF),
      GetMagic(f, 0, true), Close(f)];
      Possible(START, run) &&
      var t := Final(START, run); f !in t.files && f.master in t.tables && t.tables[f.master] == map[0 := f]
  {
    StartKeeps();
    var run := [Open(g, true, true), Open(f, false, true), Elsewhere(0xFFFF_FFFF), GetMagic(f, 0, true), Close(f)];
    var s1 := After(START, run[0]);
    StepKeeps(START, run[0]);
    var s2 := After(s1, run[1]);
    StepKeeps(s1, run[1]);
    var s3 := After(s2, run[2]);
    StepKeeps(s2, run[2]);
    assert s3.sequence == MAGICS - 1 && f in s3.files && g in s3.files && s3.tables == map[g.master := map[]];
    assert !s3.files[f].isMaster && s3.files[f].magic == 0;
    hide *;
    WrapLeavesAnEntry(s3, f, g);
    var s4 := After(s3, run[3]);
    OneStep(s4, run[4..]);
    OneStep(s3, run[3..]);
    OneStep(s2, run[2..]);
    OneStep(s1, run[1..]);
    OneStep(START, run);
  }

  lemma OneStep(s: State, run: seq<Step>)
    requires Inv(s) && run != [] && Enabled(s, run[0])
    ensures Inv(After(s, run[0]))
    ensures Possible(After(s, run[0]), run[1..]) ==>
      Possible(s, run) && Final(s, run) == Final(After(s, run[0]), run[1..])
    ensures |run| == 1 ==> Possible(s, run) && Final(s, run) == After(s, run[0])
  {
    StepKeeps(s, run[0]);
  }

  lemma SubsetCount<T>(a: set<T>, b: set<T>)
    requires a <= b
    ensures |a| <= |b|
  {
    assert b == a + (b - a);
  }

  // ----- the number that drm_getmagic finds -----

  /** The i-th number after the counter. */
  function Later(sequence: nat, i: nat): (k: nat)
    ensures k < MAGICS
  {
    (sequence + i) % MAGICS
  }

  lemma LaterDiffer(sequence: nat, i: nat, j: nat)
    requires i < j < i + MAGICS
    ensures Later(sequence, i) != Later(sequence, j)
  {
  }

  // ----- the minor and its files in memory -----

  lemma LaterStarts(sequence: nat)
    requires sequence < MAGICS
    ensures Later(sequence, 0) == sequence
  {
  }

  lemma LaterNext(sequence: nat, i: nat)
    ensures Later(sequence, i + 1) == (Later(sequence, i) + 1) % MAGICS
  {
  }

  function Tried(sequence: nat, n: nat): set<nat> {
    if n == 0 then {} else Tried(sequence, n - 1) + {Later(sequence, n)}
  }

  /** The first n numbers after the counter are n different ones. */
  lemma {:induction false} TriedCount(sequence: nat, n: nat)
    requires n <= MAGICS
    ensures |Tried(sequence, n)| == n
    ensures forall x :: x in Tried(sequence, n) ==> exists j :: 0 < j <= n && x == Later(sequence, j)
  {
    if n > 0 {
      TriedCount(sequence, n - 1);
      forall j | 0 < j <= n - 1
        ensures Later(sequence, j) != Later(sequence, n)
      {
        LaterDiffer(sequence, j, n);
      }
    }
  }

  lemma {:induction false} TriedWithin(sequence: nat, n: nat, taken: set<nat>)
    requires forall j :: 0 < j <= n ==> Later(sequence, j) in taken
    ensures Tried(sequence, n) <= taken
  {
    if n > 0 {
      TriedWithin(sequence, n - 1, taken);
    }
  }

  lemma TriedAll(sequence: nat, n: nat, taken: set<nat>)
    requires n <= MAGICS && |taken| < MAGICS && forall j :: 0 < j <= n ==> Later(sequence, j) in taken
    ensures n < MAGICS
  {
    TriedWithin(sequence, n, taken);
    TriedCount(sequence, n);
    SubsetCount(Tried(sequence, n), taken);
  }

  lemma MembersApart(t: MagicTable<AuthFile>, u: MagicTable<AuthFile>)
    requires t.Valid() && u.Valid() && t != u
    ensures t.members !! u.members
  {
  }

  class Minor {
    var master: Master?
    var filelist: seq<AuthFile>
    var sequence: nat                 // the counter of drm_getmagic
    ghost var live: set<Master>       // masters that were not freed yet
    ghost var masters: set<Master>
    ghost var seen: set<AuthFile>

    constructor ()
      ensures Valid() && Now() == START
    {
      master, filelist, sequence := null, [], 0;
      live, masters, seen := {}, {}, {};
    }

    ghost function FilesNow(): map<AuthFile, FileState>
      reads `filelist, filelist
    {
      map f | f in filelist :: FileState(f.magic, f.authenticated, f.isMaster)
    }

    ghost function RefsNow(): map<Master, nat>
      reads `live, live`refcount
    {
      map m | m in live :: m.refcount
    }

    ghost function Tables(): set<MagicTable<AuthFile>>
      reads `live
    {
      set m | m in live :: m.magics
    }

    ghost function TablesNow(): map<Master, map<nat, AuthFile>>
      reads `live, Tables()`contents
    {
      map m | m in live :: m.magics.contents
    }

    ghost function Now(): State
      reads this, filelist, live`refcount, Tables()`contents
    {
      State(master, FilesNow(), RefsNow(), TablesNow(), sequence, masters, seen)
    }

    ghost function Entries(): set<MagicEntry<AuthFile>>
      reads `live, Tables()`members
    {
      set m, e | m in live && e in m.magics.members :: e
    }

    ghost predicate TablesValid()
      reads `live, Tables(), Entries()`next
    {
      (forall m :: m in live ==> m.magics.Valid()) &&
      (forall m, n :: m in live && n in live && m.magics == n.magics ==> m == n)
    }

    ghost predicate Valid()
      reads this, filelist, live`refcount, Tables(), Entries()`next
    {
      Inv(Now()) && TablesValid() && Distinct(filelist)
    }

    /** The loop of drm_getmagic: the first number after the counter that is not in the table.  It ends because the
        table does not hold all numbers. */
    method FindNumber(table: MagicTable<AuthFile>) returns (k: nat, ghost i: nat)
      requires table.Valid() && |table.contents| < MAGICS && sequence < MAGICS
      modifies `sequence
      ensures i > 0 && k == sequence == Later(old(sequence), i) && k !in table.contents
      ensures forall j :: 0 < j < i ==> Later(old(sequence), j) in table.contents
    {
      hide Later, MagicTable.Valid;
      ghost var start := sequence;
      i := 0;
      k := sequence;
      LaterStarts(start);
      var taken := true;
      while taken
        invariant sequence == k == Later(start, i) && sequence < MAGICS
        invariant i < MAGICS || !taken
        invariant i <= MAGICS
        invariant forall j :: 0 < j < i ==> Later(start, j) in table.contents
        invariant taken && i > 0 ==> k in table.contents
        invariant !taken ==> i > 0 && k !in table.contents
        decreases MAGICS - i + if taken then 1 else 0
      {
        k := (sequence + 1) % MAGICS;
        sequence := k;
        LaterNext(start, i);
        i := i + 1;
        var found := table.Find(k);
        taken := found.Some?;
        if taken {
          TriedAll(start, i, table.contents.Keys);
        }
      }
    }

    lemma TablesApart(m: Master)
      requires TablesValid() && m in live
      ensures forall n :: n in live && n != m ==> n.magics != m.magics && n.magics.members !! m.magics.members
    {
      forall n | n in live && n != m
        ensures n.magics.members !! m.magics.members
      {
        MembersApart(n.magics, m.magics);
      }
    }

    /** drm_add_magic, on the tables of all masters */
    method AddMagic(m: Master, k: nat, f: AuthFile, memory: bool)
      requires TablesValid() && m in live && k !in m.magics.contents
      modifies m.magics, m.magics.members`next
      ensures TablesValid() && m.magics.contents ==
        if memory then old(m.magics.contents)[k := f] else old(m.magics.contents)
      ensures forall n :: n in live && n != m ==> n.magics.contents == old(n.magics.contents)
    {
      TablesApart(m);
      var ok := m.magics.Add(k, f, memory);
      hide MagicTable.Valid;
      forall n | n in live
        ensures n.magics.Valid()
      {
        assert n != m ==> old(n.magics.Valid());
      }
    }

    /** drm_remove_magic, on the tables of all masters */
    method RemoveMagic(m: Master, k: nat)
      requires TablesValid() && m in live
      modifies m.magics, m.magics.members`next
      ensures TablesValid() && m.magics.contents == old(m.magics.contents) - {k}
      ensures forall n :: n in live && n != m ==> n.magics.contents == old(n.magics.contents)
    {
      TablesApart(m);
      var ok := m.magics.Remove(k);
      hide MagicTable.Valid;
      forall n | n in live
        ensures n.magics.Valid()
      {
        assert n != m ==> old(n.magics.Valid());
      }
    }

    twostate lemma OneFileChanged(f: AuthFile)
      requires filelist == old(filelist) && f in filelist
      requires forall g :: g in filelist && g != f ==> unchanged(g)
      ensures FilesNow() == old(FilesNow())[f := FileState(f.magic, f.authenticated, f.isMaster)]
    {
    }

    twostate lemma OneTableChanged(m: Master)
      requires live == old(live) && m in live
      requires forall n :: n in live && n != m ==> n.magics.contents == old(n.magics.contents)
      ensures TablesNow() == old(TablesNow())[m := m.magics.contents]
    {
    }

    twostate lemma RefsUnchanged()
      requires live == old(live) && forall m :: m in live ==> m.refcount == old(m.refcount)
      ensures RefsNow() == old(RefsNow())
    {
    }

    /** The number of a file that has none yet */
    method NewMagic(f: AuthFile, memory: bool) returns (magic: nat, ghost i: nat)
      requires TablesValid() && f in filelist && f.master in live && sequence < MAGICS
      requires |f.master.magics.contents| < MAGICS && f.magic == 0
      modifies `sequence, f`magic, f.master.magics, f.master.magics.members`next
      ensures TablesValid() && magic == f.magic == sequence
      ensures FilesNow() == old(FilesNow())[f := FileState(magic, old(f.authenticated), old(f.isMaster))]
      ensures RefsNow() == old(RefsNow())
      ensures TablesNow() == old(TablesNow())[f.master :=
        if memory then old(f.master.magics.contents)[magic := f] else old(f.master.magics.contents)]
      ensures i > 0 && magic == Later(old(sequence), i) && magic !in old(f.master.magics.contents)
      ensures forall j :: 0 < j < i ==> Later(old(sequence), j) in old(f.master.magics.contents)
    {
      hide MagicTable.Valid, Later, FilesNow, RefsNow, TablesNow;
      magic, i := FindNumber(f.master.magics);
      f.magic := magic;
      AddMagic(f.master, magic, f, memory);
      OneFileChanged(f);
      OneTableChanged(f.master);
      RefsUnchanged();
    }

    /** drm_getmagic on another minor: the counter is shared. */
    method Elsewhere(k: nat)
      requires Valid() && k < MAGICS
      modifies `sequence
      ensures Valid() && Now() == old(Now()).(sequence := k)
    {
      hide Inv, FilesNow, RefsNow, TablesNow;
      sequence := k;
      CountedElsewhere(old(Now()), k);
    }

    /** drm_getmagic */
    method GetMagic(f: AuthFile, memory: bool) returns (magic: nat)
      requires Valid() && f in filelist && |f.master.magics.contents| < MAGICS
      modifies `sequence, f`magic, f.master.magics, f.master.magics.members`next
      ensures Valid() && magic == f.magic
      ensures f in old(Now()).files && f.master in old(Now()).tables
      ensures Now() == Numbered(old(Now()), f, magic, memory)
      ensures old(f.magic) != 0 ==> magic == old(f.magic) && f.master.magics.contents == old(f.master.magics.contents)
      ensures old(f.magic) == 0 ==>
        f.master.magics.contents ==
        if memory then old(f.master.magics.contents)[magic := f] else old(f.master.magics.contents)
      ensures old(f.magic) == 0 ==>
        magic !in old(f.master.magics.contents) &&
        exists i: nat :: i > 0 && magic == Later(old(sequence), i) &&
          forall j :: 0 < j < i ==> Later(old(sequence), j) in old(f.master.magics.contents)
    {
      hide TablesValid, Inv, Later, FilesNow, RefsNow, TablesNow;
      KnownFile(f);
      if f.magic != 0 {
        return f.magic;
      }
      ghost var i;
      magic, i := NewMagic(f, memory);
      NumberedKeeps(old(Now()), f, magic, memory);
      KnownFile(f);
    }

    twostate lemma NoFileChanged()
      requires filelist == old(filelist) && forall g :: g in filelist ==> unchanged(g)
      ensures FilesNow() == old(FilesNow())
    {
    }

    /** drm_authmagic, with the permission checks of the ioctl dispatch */
    method AuthMagic(f: AuthFile, k: nat) returns (err: int)
      requires Valid() && f in filelist
      modifies f.master.magics, f.master.magics.members`next, f.master.magics.contents.Values`authenticated
      ensures Valid()
      ensures f in old(Now()).files && f.master in old(Now()).tables
      ensures Now() == Vouched(old(Now()), f, k)
      ensures err == if !(old(f.authenticated) && old(f.isMaster)) then -EACCES
                     else if k in old(f.master.magics.contents) then 0 else -EINVAL
      ensures f.master.magics.contents ==
        if err == 0 then old(f.master.magics.contents) - {k} else old(f.master.magics.contents)
      ensures err == 0 && old(f.master.magics.contents[k]) in filelist ==>
        old(f.master.magics.contents[k]).authenticated
    {
      hide Inv, TablesValid, FilesNow, RefsNow, TablesNow;
      KnownFile(f);
      VouchedKeeps(Now(), f, k);
      if !f.authenticated || !f.isMaster {
        return -EACCES;
      }
      ghost var table := f.master.magics.contents;
      var found := Vouch(f.master, k);
      err := if found then 0 else -EINVAL;
      KnownFile(f);
      if found {
        FileEntry(table[k]);
      }
    }

    lemma FileEntry(g: AuthFile)
      ensures g in FilesNow() <==> g in filelist
      ensures g in filelist ==> FilesNow()[g] == FileState(g.magic, g.authenticated, g.isMaster)
    {
    }

    lemma KnownFile(f: AuthFile)
      requires Valid() && f in filelist
      ensures f.master in live && sequence < MAGICS
      ensures f in Now().files && Now().files[f] == FileState(f.magic, f.authenticated, f.isMaster)
      ensures f.master in Now().tables && Now().tables[f.master] == f.master.magics.contents
      ensures f.master in Now().refs && Now().refs[f.master] == f.master.refcount
      ensures Now().files.Keys == (set g | g in filelist)
    {
      hide MagicTable.Valid, Counted, OneMaster, OnlyCurrent, Registered;
      MasterThere(Now(), f);
    }

    /** The file with this number, if there is one, is authenticated and the number is used up. */
    method Vouch(m: Master, k: nat) returns (found: bool)
      requires TablesValid() && m in live
      modifies m.magics, m.magics.members`next, m.magics.contents.Values`authenticated
      ensures TablesValid() && found == (k in old(m.magics.contents))
      ensures RefsNow() == old(RefsNow())
      ensures !found ==> FilesNow() == old(FilesNow()) && TablesNow() == old(TablesNow())
      ensures found ==> TablesNow() == old(TablesNow())[m := old(m.magics.contents) - {k}]
      ensures found ==> var g := old(m.magics.contents[k]);
        FilesNow() ==
        if g in old(FilesNow()) then old(FilesNow())[g := old(FilesNow())[g].(authenticated := true)]
        else old(FilesNow())
    {
      hide MagicTable.Valid, FilesNow, RefsNow, TablesNow;
      assert m.magics.Valid();
      var file := m.magics.Find(k);
      found := file.Some?;
      if found {
        var g := file.value;
        assert g in m.magics.contents.Values;
        FileEntry(g);
        g.authenticated := true;
        RemoveMagic(m, k);
        if g in filelist {
          OneFileChanged(g);
        } else {
          NoFileChanged();
        }
        OneTableChanged(m);
      } else {
        NoFileChanged();
        NoTableChanged();
      }
      RefsUnchanged();
    }

    twostate lemma NoTableChanged()
      requires live == old(live)
      requires forall n :: n in live ==> n.magics.contents == old(n.magics.contents)
      ensures TablesNow() == old(TablesNow())
    {
    }

    /** drm_master_put */
    method PutMaster(m: Master)
      requires TablesValid() && m in live && m.refcount > 0
      modifies `live, m`refcount
      ensures TablesValid() && m in old(RefsNow()) && old(RefsNow())[m] > 0
      ensures RefsNow() == PutRefs(old(RefsNow()), m)
      ensures TablesNow() == if old(m.refcount) > 1 then old(TablesNow()) else old(TablesNow()) - {m}
      ensures live == if old(m.refcount) > 1 then old(live) else old(live) - {m}
      ensures m.refcount == old(m.refcount) - 1 && old(RefsNow())[m] == old(m.refcount)
    {
      hide MagicTable.Valid;
      m.refcount := m.refcount - 1;
      if m.refcount == 0 {
        live := live - {m};
      }
    }

    twostate lemma FileAdded(new f: AuthFile)
      requires filelist == [f] + old(filelist) && forall g :: g in old(filelist) ==> g != f && unchanged(g)
      ensures FilesNow() == old(FilesNow())[f := FileState(f.magic, f.authenticated, f.isMaster)]
    {
    }

    twostate lemma MasterAdded(new m: Master)
      requires live == old(live) + {m} && m !in old(live)
      requires forall n :: n in old(live) ==>
        n.refcount == old(n.refcount) && n.magics.contents == old(n.magics.contents)
      ensures RefsNow() == old(RefsNow())[m := m.refcount]
      ensures TablesNow() == old(TablesNow())[m := m.magics.contents]
    {
    }

    twostate lemma OneCountChanged(m: Master)
      requires live == old(live) && m in live && forall n :: n in live && n != m ==> n.refcount == old(n.refcount)
      ensures RefsNow() == old(RefsNow())[m := m.refcount]
    {
    }

    lemma KnownMaster()
      requires Valid() && master != null
      ensures master in live && master in Now().refs && Now().refs[master] == master.refcount && Distinct(filelist)
    {
      hide MagicTable.Valid, Counted, OneMaster, OnlyCurrent, Registered;
    }

    /** drm_open_helper under the global mutex, when the minor has a master */
    method Join(root: bool) returns (f: AuthFile)
      requires Valid() && master != null
      modifies `filelist, `seen, master`refcount
      ensures fresh(f) && f.master == master && filelist == [f] + old(filelist)
      ensures f.authenticated == root && !f.isMaster && f.magic == 0
      ensures Enabled(old(Now()), Step.Open(f, root, true))
      ensures Valid() && Now() == Joined(old(Now()), f, root)
    {
      hide Inv, MagicTable.Valid, FilesNow, RefsNow, TablesNow;
      KnownMaster();
      f := new AuthFile(master, root, false);
      master.refcount := master.refcount + 1;
      filelist := [f] + filelist;
      seen := seen + {f};
      FileAdded(f);
      OneCountChanged(master);
      NoTableChanged();
      JoinedKeeps(old(Now()), f, root);
    }

    /** drm_open_helper when the minor has no master: a new one is made.  The driver may refuse it. */
    method Found(accepted: bool) returns (f: AuthFile)
      requires Valid() && master == null
      modifies `filelist, `seen, `master, `masters, `live
      ensures fresh(f) && fresh(f.master)
      ensures filelist == (if accepted then [f] else []) + old(filelist)
      ensures accepted ==> f.authenticated && f.isMaster && f.magic == 0
      ensures Enabled(old(Now()), Step.Open(f, false, accepted))
      ensures Valid() && Now() == if accepted then Founded(old(Now()), f) else Unfounded(old(Now()), f)
    {
      hide Inv, TablesValid, FilesNow, RefsNow, TablesNow;
      FileKeys();
      f := Admit();
      if accepted {
        FoundedKeeps(old(Now()), f);
      } else {
        UnfoundedIsBothPuts(old(Now()), f);
        Dismiss(f);
      }
    }

    lemma FileKeys()
      ensures FilesNow().Keys == set g | g in filelist
    {
    }

    twostate lemma FileRemoved(f: AuthFile)
      requires forall g :: g in filelist <==> g in old(filelist) && g != f
      requires forall g :: g in filelist ==> unchanged(g)
      ensures FilesNow() == old(FilesNow()) - {f}
    {
    }

    /** The driver did not accept the master of f: both references to it are dropped. */
    method Dismiss(f: AuthFile)
      requires TablesValid() && filelist != [] && filelist[0] == f && Distinct(filelist)
      requires master == f.master && f.master in live && f.master.refcount == 2
      modifies `filelist, `master, `live, f.master`refcount
      ensures TablesValid() && filelist == old(filelist[1..]) && Distinct(filelist)
      ensures var t := old(Now());
        f.master in t.refs && t.refs[f.master] == 2 &&
        Now() == Put(Put(t.(current := null), f.master), f.master).(files := t.files - {f})
    {
      hide MagicTable.Valid, FilesNow, RefsNow, TablesNow;
      var m := f.master;
      master := null;
      PutMaster(m);
      PutMaster(m);
      filelist := filelist[1..];
      FileRemoved(f);
    }

    /** A new master, which the minor and a new file refer to */
    method Admit() returns (f: AuthFile)
      requires TablesValid() && master == null && Distinct(filelist)
      modifies `filelist, `seen, `master, `masters, `live
      ensures fresh(f) && fresh(f.master) && filelist == [f] + old(filelist) && Distinct(filelist)
      ensures f.authenticated && f.isMaster && f.magic == 0
      ensures TablesValid() && Now() == Founded(old(Now()), f) && f.master.refcount == 2 && f.master in live
    {
      hide MagicTable.Valid, FilesNow, RefsNow, TablesNow;
      var m := new Master();
      f := new AuthFile(m, true, true);
      m.refcount := m.refcount + 1;
      live := live + {m};
      master := m;
      masters := masters + {m};
      seen := seen + {f};
      filelist := [f] + filelist;
      FileAdded(f);
      MasterAdded(m);
    }

    /** drm_open_helper: attach to the master of the minor, or become it */
    method OpenFile(root: bool, accepted: bool) returns (ok: bool, f: AuthFile)
      requires Valid()
      modifies `filelist, `seen, `master, `masters, `live, if master != null then {master} else {}
      ensures Valid() && fresh(f) && Enabled(old(Now()), Step.Open(f, root, accepted))
      ensures Now() == After(old(Now()), Step.Open(f, root, accepted))
      ensures ok == (old(master) != null || accepted) && ok == (f in filelist)
      ensures ok && old(master) != null ==> f.master == old(master)
      ensures ok ==> f.isMaster == (old(master) == null) && f.authenticated == (old(master) == null || root)
      ensures ok ==> f.magic == 0 && filelist == [f] + old(filelist)
      ensures !ok ==> filelist == old(filelist)
    {
      hide Inv, TablesValid, FilesNow, RefsNow, TablesNow, Joined, Founded, Unfounded;
      if master != null {
        f := Join(root);
        ok := true;
      } else {
        f := Found(accepted);
        ok := accepted;
      }
    }

    /** The loop over the open files that closing a master file runs */
    method Deauthorise(f: AuthFile)
      requires f in filelist
      modifies filelist`authenticated
      ensures FilesNow() == Deauthorised(old(FilesNow()), f)
      ensures RefsNow() == old(RefsNow()) && TablesNow() == old(TablesNow())
    {
      for i := 0 to |filelist|
        invariant forall g :: g in filelist ==> g.magic == old(g.magic) && g.isMaster == old(g.isMaster)
        invariant forall g :: g in filelist ==>
          g.authenticated ==
          if g in filelist[..i] && g.master == f.master && g != f then false else old(g.authenticated)
      {
        var temp := filelist[i];
        if temp.master == f.master && temp != f {
          temp.authenticated := false;
        }
      }
    }

    method DropToken(f: AuthFile)
      requires Valid() && f in filelist
      modifies f.master.magics, f.master.magics.members`next
      ensures f in old(Now()).files && f.master in old(Now()).tables
      ensures TablesValid() && Distinct(filelist) && Now() == old(Now()).(tables := Untokened(old(Now()), f))
      ensures f.master in live && f.isMaster == Now().files[f].isMaster && f.master.refcount == Now().refs[f.master]
    {
      hide Inv, MagicTable.Valid, FilesNow, RefsNow, TablesNow;
      KnownFile(f);
      if f.magic != 0 {
        RemoveMagic(f.master, f.magic);
        OneTableChanged(f.master);
        NoFileChanged();
        RefsUnchanged();
      }
    }

    /** What closing adds for a master file */
    method Abdicate(f: AuthFile)
      requires TablesValid() && f in filelist && f.master in live && f.master.refcount > 1 && master == f.master
      modifies `master, `live, filelist`authenticated, f.master`refcount
      ensures f in old(Now()).files && f.master in old(Now()).refs && old(Now()).refs[f.master] > 1
      ensures TablesValid() && Now() == Abdicated(old(Now()), f)
      ensures f.master in live && f.master.refcount == old(f.master.refcount) - 1
    {
      hide MagicTable.Valid, FilesNow, RefsNow, TablesNow, Deauthorised;
      FileEntry(f);
      Deauthorise(f);
      if master == f.master {
        label L:
        PutMaster(f.master);
        master := null;
        NoFileChanged@L();
      }
    }

    /** drm_release, once the file is deprived of everything: its reference and its place in the list go. */
    method LetGo(f: AuthFile)
      requires TablesValid() && Distinct(filelist) && f in filelist && f.master in live && f.master.refcount > 0
      modifies `filelist, `live, f`isMaster, f.master`refcount
      ensures TablesValid() && Distinct(filelist) && f !in filelist
      ensures f.master in old(Now()).refs && old(Now()).refs[f.master] > 0
      ensures Now() == Put(old(Now()), f.master).(files := old(Now()).files - {f})
    {
      hide MagicTable.Valid, FilesNow, RefsNow, TablesNow;
      PutMaster(f.master);
      label L:
      f.isMaster := false;
      RemoveFile(f);
      FileRemoved(f);
      RefsUnchanged@L();
      NoTableChanged@L();
    }

    /** list_del from the list of open files */
    method RemoveFile(f: AuthFile)
      requires Distinct(filelist) && f in filelist
      modifies `filelist
      ensures Distinct(filelist) && forall g :: g in filelist <==> g in old(filelist) && g != f
    {
      var k :| 0 <= k < |filelist| && filelist[k] == f;
      RemovedAt(filelist, k);
      filelist := Without(filelist, k);
    }

    /** drm_release, as far as masters, authentication and the list of files go */
    method Release(f: AuthFile)
      requires Valid() && f in filelist
      modifies `filelist, `master, `live, filelist`authenticated, f`isMaster, f.master`refcount,
               f.master.magics, f.master.magics.members`next
      ensures Valid() && f !in filelist
      ensures Enabled(old(Now()), Close(f)) && Now() == After(old(Now()), Close(f))
    {
      hide Inv, TablesValid, FilesNow, RefsNow, TablesNow, Abdicated, Untokened;
      KnownFile(f);
      ReleasedKeeps(Now(), f);
      Chief(Now(), f);
      if f.isMaster {
        MasterPuts(Now(), f);
      }
      DropToken(f);
      if f.isMaster {
        Abdicate(f);
      }
      LetGo(f);
    }
  }

  lemma RemovedAt<T>(s: seq<T>, k: int)
    requires Distinct(s) && 0 <= k < |s|
    ensures Distinct(Without(s, k))
    ensures forall x :: x in Without(s, k) <==> x in s && x != s[k]
  {
    var t := Without(s, k);
    forall x | x in s && x != s[k]
      ensures x in t
    {
      var i :| 0 <= i < |s| && s[i] == x;
      assert x == t[if i < k then i else i - 1];
    }
  }
}
