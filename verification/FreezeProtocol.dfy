/** The protocol between those that add DMA buffers and those that look at them, step by step as the locks allow
    the steps to interleave.  `alloc` counts the additions in progress, `use` the successful looks. */
module FreezeProtocol {
  import opened KmsObjects

  datatype Phase = Idle | Counted | Leaving

  /** `mutex` is the thread that holds struct_mutex. */
  datatype State<T> = State(use: nat, alloc: int, pool: T, threads: map<nat, Phase>, mutex: Option<nat>)

  datatype Step<T> =
    | BeginAdd(t: nat)            // under count_lock: refused if the pool is frozen, else counted in
    | Lock(t: nat)
    | Write(t: nat, pool: T)      // any change of the pool under struct_mutex
    | Unlock(t: nat)              // the end of the work, successful or not
    | EndAdd(t: nat)              // counted out
    | Look                        // drm_infobufs or drm_mapbufs, under count_lock
    | Setup(pool: T)              // the first open after the last close

  predicate Enabled<T>(s: State<T>, step: Step<T>) {
    match step
    case BeginAdd(t) => t in s.threads && s.threads[t] == Idle
    case Lock(t) => t in s.threads && s.threads[t] == Counted && s.mutex == None
    case Write(t, _) => s.mutex == Some(t)
    case Unlock(t) => s.mutex == Some(t)
    case EndAdd(t) => t in s.threads && s.threads[t] == Leaving
    case Look => true
    case Setup(_) => forall t :: t in s.threads ==> s.threads[t] == Idle
  }

  function After<T>(s: State<T>, step: Step<T>): State<T>
    requires Enabled(s, step)
  {
    match step
    case BeginAdd(t) =>
      if s.use > 0 then s else s.(alloc := s.alloc + 1, threads := s.threads[t := Counted])
    case Lock(t) => s.(mutex := Some(t))
    case Write(_, pool) => s.(pool := pool)
    case Unlock(t) => s.(mutex := None, threads := s.threads[t := Leaving])
    case EndAdd(t) => s.(alloc := s.alloc - 1, threads := s.threads[t := Idle])
    case Look => if s.alloc > 0 then s else s.(use := s.use + 1)
    case Setup(pool) => s.(use := 0, alloc := 0, pool := pool)
  }

  function Busy(threads: map<nat, Phase>): set<nat> {
    set t | t in threads && threads[t] != Idle
  }

  /** Every addition in progress is counted once; nobody adds to a pool that somebody looked at; and only a
      counted thread holds the mutex. */
  predicate Inv<T>(s: State<T>) {
    s.alloc == |Busy(s.threads)| && !(s.use > 0 && s.alloc > 0) &&
    (s.mutex.Some? ==> s.mutex.value in s.threads && s.threads[s.mutex.value] == Counted)
  }

  lemma BusyOrNot(threads: map<nat, Phase>, t: nat)
    requires t in threads
    ensures |Busy(threads)| == |Busy(threads) - {t}| + if threads[t] != Idle then 1 else 0
  {
    if threads[t] == Idle {
      assert Busy(threads) - {t} == Busy(threads);
    } else {
      assert Busy(threads) == (Busy(threads) - {t}) + {t};
    }
  }

  lemma BusyAfter(threads: map<nat, Phase>, t: nat, phase: Phase)
    requires t in threads
    ensures |Busy(threads[t := phase])| ==
            |Busy(threads)| + (if phase != Idle then 1 else 0) - (if threads[t] != Idle then 1 else 0)
  {
    assert Busy(threads[t := phase]) - {t} == Busy(threads) - {t};
    hide Busy;
    BusyOrNot(threads, t);
    BusyOrNot(threads[t := phase], t);
  }

  lemma StepKeeps<T>(s: State<T>, step: Step<T>)
    requires Inv(s) && Enabled(s, step)
    ensures Inv(After(s, step))
  {
    match step
    case BeginAdd(t) => BusyAfter(s.threads, t, Counted);
    case Unlock(t) => BusyAfter(s.threads, t, Leaving);
    case EndAdd(t) => BusyAfter(s.threads, t, Idle);
    case Setup(_) => assert Busy(s.threads) == {};
    case _ =>
  }

  predicate Possible<T>(s: State<T>, run: seq<Step<T>>)
    decreases |run|
  {
    run == [] || (Enabled(s, run[0]) && Possible(After(s, run[0]), run[1..]))
  }

  function Final<T>(s: State<T>, run: seq<Step<T>>): State<T>
    requires Possible(s, run)
    decreases |run|
  {
    if run == [] then s else Final(After(s, run[0]), run[1..])
  }

  /** In every interleaving, additions and looks exclude each other, and no count is lost or taken back twice. */
  lemma {:induction false} RunKeeps<T>(s: State<T>, run: seq<Step<T>>)
    requires Inv(s) && Possible(s, run)
    ensures Inv(Final(s, run))
    decreases |run|
  {
    if run != [] {
      StepKeeps(s, run[0]);
      RunKeeps(After(s, run[0]), run[1..]);
    }
  }

  /** The steps of an addition that nobody comes between; a frozen pool refuses it at once. */
  function Addition<T>(s: State<T>, t: nat, pool: T): seq<Step<T>> {
    if s.use > 0 then [BeginAdd(t)] else [BeginAdd(t), Lock(t), Write(t, pool), Unlock(t), EndAdd(t)]
  }

  /** Such an addition leaves both counters as they were. */
  lemma AdditionIsRun<T>(s: State<T>, t: nat, pool: T)
    requires t in s.threads && s.threads[t] == Idle && s.mutex == None
    ensures Possible(s, Addition(s, t, pool))
    ensures Final(s, Addition(s, t, pool)) == if s.use > 0 then s else s.(pool := pool)
  {
    var run := Addition(s, t, pool);
    if s.use == 0 {
      var s1 := After(s, run[0]);
      var s2 := After(s1, run[1]);
      var s3 := After(s2, run[2]);
      var s4 := After(s3, run[3]);
      var s5 := After(s4, run[4]);
      assert s5.threads == s.threads;
      Unfold(s4, run[4..]);
      Unfold(s3, run[3..]);
      Unfold(s2, run[2..]);
      Unfold(s1, run[1..]);
    }
    Unfold(s, run);
  }

  lemma Unfold<T>(s: State<T>, run: seq<Step<T>>)
    requires run != [] && Enabled(s, run[0]) && Possible(After(s, run[0]), run[1..])
    ensures Possible(s, run) && Final(s, run) == Final(After(s, run[0]), run[1..])
  {
  }

  lemma HolderIsCounted<T>(s: State<T>)
    requires Inv(s)
    ensures s.mutex.Some? ==> s.alloc > 0
  {
    if s.mutex.Some? {
      assert s.mutex.value in Busy(s.threads);
    }
  }

  /** A frozen pool can only be thawed by a new setup. */
  lemma FrozenStep<T>(s: State<T>, step: Step<T>)
    requires Inv(s) && Enabled(s, step) && s.use > 0 && !step.Setup?
    ensures After(s, step).pool == s.pool && After(s, step).use > 0
  {
    HolderIsCounted(s);
  }

  /** After the first successful look the pool never changes until the next setup, whatever the others do. */
  lemma {:induction false} FrozenForGood<T>(s: State<T>, run: seq<Step<T>>)
    requires Inv(s) && Possible(s, run) && s.use > 0
    requires forall step :: step in run ==> !step.Setup?
    ensures Final(s, run).pool == s.pool && Final(s, run).use > 0
    decreases |run|
  {
    if run != [] {
      FrozenStep(s, run[0]);
      StepKeeps(s, run[0]);
      FrozenForGood(After(s, run[0]), run[1..]);
    }
  }

  /** When every thread is done, nothing is counted. */
  lemma DoneMeansUncounted<T>(s: State<T>)
    requires Inv(s) && forall t :: t in s.threads ==> s.threads[t] == Idle
    ensures s.alloc == 0 && s.mutex == None
  {
    assert Busy(s.threads) == {};
  }
}
