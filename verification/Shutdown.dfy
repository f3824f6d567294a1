/** The end of a mount: the main thread, the session thread and signals, in any interleaving. */
module Shutdown {
  import opened Basics
  import opened Chunking
  import opened Files
  import opened Model
  import opened CacheModel
  import opened CacheTheorems
  import opened Operations

  datatype Message = Signal | SessionEnded(ok: bool)

  /** The session thread. `destroy` flushes, then records the outcome; then the thread reports. */
  datatype Session = Serving | Destroying(result: Reply<()>) | Destroyed | Gone

  /** The main thread, one value for each place it can be interrupted at. */
  datatype Main =
    | Waiting
    | Refusing
    | Flushing
    | Recording(result: Reply<()>)
    | Unmounting
    | Draining
    | Judging(sessionOk: bool)
    | Finished(ok: bool)

  /** `recorded` tells whether any shutdown flush has been recorded in `lastFlush` yet. */
  datatype World = World(fs: Fs, lastFlush: Reply<()>, recorded: bool, session: Session, main: Main,
      channel: seq<Message>)

  predicate Start(w: World) {
    && w.fs.open == map[] && !w.fs.closing && w.lastFlush == Done(()) && !w.recorded
    && w.session == Serving && w.main == Waiting && w.channel == []
  }

  /** The first refusal, and without one success or a store that failed after the last commit. */
  predicate Reports(tried: seq<Attempt>, result: Reply<()>) {
    match FirstRefusal(tried)
    case Some(e) => result == Fail(ErrnoOf(e))
    case None => result.Fail? ==> IsStorageErrno(result.errno)
  }

  /** The outcome of flushing everything, as one operation under the table lock. */
  ghost predicate Flushes(before: Fs, after: Fs, result: Reply<()>) {
    exists tried: seq<Attempt> :: FlushedAll(before, after, tried) && Reports(tried, result)
  }

  /* ----- Steps ----- */

  /** A step of any operation of the session. */
  ghost predicate Serves(w: World, v: World) {
    && w.session == Serving
    && exists e: Event :: Enabled(w.fs, e) && !e.StopWrites? && v == w.(fs := Step(w.fs, e))
  }

  ghost predicate DestroyFlushes(w: World, v: World) {
    && w.session == Serving && v.session.Destroying?
    && v == w.(fs := v.fs, session := v.session) && Flushes(w.fs, v.fs, v.session.result)
  }

  predicate DestroyRecords(w: World, v: World) {
    w.session.Destroying? && v == w.(lastFlush := w.session.result, recorded := true, session := Destroyed)
  }

  predicate SessionEnds(w: World, v: World, ok: bool) {
    w.session == Destroyed && v == w.(session := Gone, channel := w.channel + [SessionEnded(ok)])
  }

  /** A panic is caught and reported as an error; `destroy` may not have run. */
  predicate SessionPanics(w: World, v: World) {
    w.session != Gone && v == w.(session := Gone, channel := w.channel + [SessionEnded(false)])
  }

  predicate SignalArrives(w: World, v: World) {
    v == w.(channel := w.channel + [Signal])
  }

  ghost predicate OtherThreadSteps(w: World, v: World) {
    || Serves(w, v) || DestroyFlushes(w, v) || DestroyRecords(w, v)
    || SessionEnds(w, v, true) || SessionEnds(w, v, false) || SessionPanics(w, v) || SignalArrives(w, v)
  }

  /** Waits for a signal or for the end of the session. */
  predicate Receives(w: World, v: World) {
    && w.main == Waiting && w.channel != []
    && v == w.(channel := w.channel[1..],
               main := match w.channel[0] case Signal => Refusing case SessionEnded(ok) => Judging(ok))
  }

  predicate Refuses(w: World, v: World) {
    w.main == Refusing && v == w.(fs := w.fs.(closing := true), main := Flushing)
  }

  ghost predicate MainFlushes(w: World, v: World) {
    && w.main == Flushing && v.main.Recording?
    && v == w.(fs := v.fs, main := v.main) && Flushes(w.fs, v.fs, v.main.result)
  }

  predicate MainRecords(w: World, v: World) {
    w.main.Recording? && v == w.(lastFlush := w.main.result, recorded := true, main := Unmounting)
  }

  predicate Unmounts(w: World, v: World, ok: bool) {
    w.main == Unmounting && v == w.(main := if ok then Draining else Judging(false))
  }

  /** Waits for the session to end, ignoring more signals, until the grace period is over. */
  predicate Drains(w: World, v: World, timeout: bool) {
    && w.main == Draining
    && if timeout then v == w.(main := Judging(true))
       else
         && w.channel != []
         && v == w.(channel := w.channel[1..],
                    main := match w.channel[0] case Signal => Draining case SessionEnded(ok) => Judging(ok))
  }

  predicate Judges(w: World, v: World) {
    w.main.Judging? && v == w.(main := Finished(w.main.sessionOk && w.lastFlush.Done?))
  }

  ghost predicate MainSteps(w: World, v: World) {
    || Receives(w, v) || Refuses(w, v) || MainFlushes(w, v) || MainRecords(w, v)
    || Unmounts(w, v, true) || Unmounts(w, v, false) || Drains(w, v, true) || Drains(w, v, false) || Judges(w, v)
  }

  ghost predicate Next(w: World, v: World) {
    MainSteps(w, v) || OtherThreadSteps(w, v)
  }

  /* ----- The invariant ----- */

  /** No step can make a file dirty any more. */
  predicate Frozen(w: World) {
    w.fs.closing || w.session != Serving
  }

  predicate PastRefusing(m: Main) {
    m == Flushing || m.Recording? || m == Unmounting || m == Draining
  }

  /** A successful flush that counts, recorded or about to be, holds for good. */
  ghost predicate Safe(w: World) {
    && Inv(w.fs)
    && (PastRefusing(w.main) ==> w.fs.closing)
    && (w.main == Unmounting || w.main == Draining ==> w.recorded)
    && (w.main == Judging(true) || w.main == Finished(true) ==> w.recorded)
    && (w.session == Destroyed ==> w.recorded)
    && (SessionEnded(true) in w.channel ==> w.recorded)
    && (w.main.Recording? && w.main.result.Done? ==> AllLinkedClean(w.fs))
    && (w.session.Destroying? && w.session.result.Done? ==> AllLinkedClean(w.fs))
    && (w.recorded && w.lastFlush.Done? ==> Frozen(w) && AllLinkedClean(w.fs))
    && (w.main == Finished(true) ==> AllLinkedClean(w.fs) && Frozen(w))
  }

  lemma FlushKeepsClean(before: Fs, after: Fs, result: Reply<()>)
    requires Flushes(before, after, result)
    ensures Inv(after) && after.closing == before.closing
    ensures result.Done? || AllLinkedClean(before) ==> AllLinkedClean(after)
  {
    hide Inv, OnlyChanges, EachTriedOnce, Refused, FirstRefusal;
    var tried: seq<Attempt> :| FlushedAll(before, after, tried) && Reports(tried, result);
    FirstOfRefused(tried);
    if result.Done? {
      FlushedAllIsClean(before, after, tried);
    }
    SameClosing(before, after);
    if AllLinkedClean(before) {
      forall i | i in after.open && !after.open[i].unlinked ensures after.open[i].dirty == map[] {
        if i !in Refused(tried) {
          assert FlushedOne(before, after, i);
        }
      }
    }
  }

  lemma SameClosing(before: Fs, after: Fs)
    requires OnlyChanges(before, after, {})
    ensures after.closing == before.closing
  {
    hide Logical;
  }

  lemma ServingKeepsSafe(w: World, v: World)
    requires Safe(w) && Serves(w, v)
    ensures Safe(v)
  {
    hide Enabled, Step, Inv, AllLinkedClean;
    var e: Event :| Enabled(w.fs, e) && !e.StopWrites? && v == w.(fs := Step(w.fs, e));
    StepKeepsInv(w.fs, e);
    StepKeepsClosing(w.fs, e);
    if w.fs.closing && AllLinkedClean(w.fs) {
      StepStaysClean(w.fs, e);
    }
  }

  lemma OtherThreadKeepsSafe(w: World, v: World)
    requires Safe(w) && OtherThreadSteps(w, v)
    ensures Safe(v)
  {
    hide Inv, AllLinkedClean, Flushes, Serves;
    if Serves(w, v) {
      ServingKeepsSafe(w, v);
    } else if DestroyFlushes(w, v) {
      FlushKeepsClean(w.fs, v.fs, v.session.result);
    }
  }

  lemma RefusingKeepsSafe(w: World, v: World)
    requires Safe(w) && Refuses(w, v)
    ensures Safe(v)
  {
    StopWritesStep(w.fs);
    hide Inv;
  }

  lemma MainKeepsSafe(w: World, v: World)
    requires Safe(w) && MainSteps(w, v)
    ensures Safe(v)
  {
    hide Inv, AllLinkedClean, Flushes, Refuses;
    if Refuses(w, v) {
      RefusingKeepsSafe(w, v);
    } else if MainFlushes(w, v) {
      FlushKeepsClean(w.fs, v.fs, v.main.result);
    }
  }

  /* ----- Whole mounts ----- */

  /** A mount from its start, each world one step of one thread after the other. */
  ghost predicate IsMount(worlds: seq<World>) {
    && worlds != [] && Start(worlds[0]) && Inv(worlds[0].fs)
    && forall k :: 0 < k < |worlds| ==> Next(worlds[k - 1], worlds[k])
  }

  lemma {:induction false} MountIsSafe(worlds: seq<World>, k: nat)
    requires IsMount(worlds) && k < |worlds|
    ensures Safe(worlds[k])
    decreases k
  {
    hide Inv, MainSteps, OtherThreadSteps;
    if k > 0 {
      MountIsSafe(worlds, k - 1);
      assert Next(worlds[k - 1], worlds[k]);
      if MainSteps(worlds[k - 1], worlds[k]) {
        MainKeepsSafe(worlds[k - 1], worlds[k]);
      } else {
        OtherThreadKeepsSafe(worlds[k - 1], worlds[k]);
      }
    }
  }

  lemma {:induction false} FinishedStays(worlds: seq<World>, k: nat, j: nat)
    requires IsMount(worlds) && k <= j < |worlds| && worlds[k].main == Finished(true)
    ensures worlds[j].main == Finished(true)
    decreases j
  {
    hide Inv, Flushes;
    if j > k {
      FinishedStays(worlds, k, j - 1);
      assert Next(worlds[j - 1], worlds[j]);
    }
  }

  /** However the session, the signals and the main thread interleave: the mount ends in success
      only when what is stored of every linked file is what the file is, and from then on no
      straggling step of the session changes that. */
  lemma MountSucceedsOnlyWhenStored(worlds: seq<World>, k: nat, j: nat)
    requires IsMount(worlds) && k <= j < |worlds| && worlds[k].main == Finished(true)
    ensures AllLinkedClean(worlds[j].fs)
    ensures forall i :: i in worlds[j].fs.nodes && worlds[j].fs.nodes[i].nlink > 0 ==>
              Stored(worlds[j].fs, i) == Logical(worlds[j].fs, i)
  {
    FinishedStays(worlds, k, j);
    MountIsSafe(worlds, j);
    CleanMeansStored(worlds[j].fs);
  }

  /* ----- Mounts that fail, and mounts that succeed ----- */

  /** The report of a failed session is taken from the channel. */
  predicate TakesFailure(w: World, v: World) {
    w.channel != [] && w.channel[0] == SessionEnded(false) && v.channel == w.channel[1..]
  }

  predicate FailsToUnmount(w: World, v: World) {
    w.main == Unmounting && v.main == Judging(false)
  }

  predicate HasFailedFlush(w: World) {
    || (w.main.Recording? && w.main.result.Fail?)
    || (w.session.Destroying? && w.session.result.Fail?)
  }

  predicate IsFailing(w: World) {
    w.main == Judging(false) || w.main == Finished(false) || w.lastFlush.Fail?
  }

  lemma FailureHasAReason(w: World, v: World)
    requires Next(w, v) && IsFailing(v)
    ensures IsFailing(w) || TakesFailure(w, v) || FailsToUnmount(w, v) || HasFailedFlush(w)
  {
    hide Flushes, Enabled, Step, Inv;
  }

  predicate ReasonAt(worlds: seq<World>, j: nat) {
    && j + 1 < |worlds|
    && (TakesFailure(worlds[j], worlds[j + 1]) || FailsToUnmount(worlds[j], worlds[j + 1]) || HasFailedFlush(worlds[j]))
  }

  /** A mount ends in failure only after the session reported one, or unmounting failed, or some
      flush of everything did. */
  lemma {:induction false} MountFailsOnlyForAReason(worlds: seq<World>, k: nat) returns (j: nat)
    requires IsMount(worlds) && k < |worlds| && IsFailing(worlds[k])
    ensures j < k && ReasonAt(worlds, j)
    decreases k
  {
    hide Inv, Next, IsFailing, TakesFailure, FailsToUnmount, HasFailedFlush;
    if k == 0 {
      NotFailingAtStart(worlds[0]);
    }
    j := k - 1;
    assert Next(worlds[j], worlds[j + 1]);
    FailureHasAReason(worlds[j], worlds[j + 1]);
    if IsFailing(worlds[j]) {
      j := MountFailsOnlyForAReason(worlds, j);
    }
  }

  /** And after the first two of these it never ends otherwise. */
  lemma {:induction false} FailureIsFinal(worlds: seq<World>, j: nat, k: nat)
    requires IsMount(worlds) && j < k < |worlds|
    requires TakesFailure(worlds[j], worlds[j + 1]) || FailsToUnmount(worlds[j], worlds[j + 1])
    ensures worlds[k].main == Judging(false) || worlds[k].main == Finished(false)
    decreases k
  {
    hide Inv, Flushes, Enabled, Step;
    assert Next(worlds[k - 1], worlds[k]);
    if j < k - 1 {
      FailureIsFinal(worlds, j, k - 1);
    }
  }

  lemma NotFailingAtStart(w: World)
    requires Start(w)
    ensures !IsFailing(w)
  {
  }

  /** Whatever is buffered, a flush of everything that no commit of is refused exists and succeeds. */
  lemma FlushCanSucceed(fs: Fs) returns (g: Fs)
    requires Inv(fs)
    ensures Flushes(fs, g, Done(()))
  {
    hide Inv, FlushedSome, MustStore, Refused, FirstRefusal, Settling, After;
    var tried: seq<Attempt>, pending := [], fs.open.Keys;
    g := fs;
    NothingFlushed(fs);
    NothingTried();
    while pending != {}
      invariant FlushedSome(fs, g, tried, pending) && FirstRefusal(tried) == None
      decreases pending
    {
      var i :| i in pending;
      var next := After(g, Settling(g, i, Skip));
      if MustStore(fs, i, Skip) {
        OneStored(fs, g, next, tried, pending, Attempt(i, None));
        RefusedOneMore(tried, Attempt(i, None));
        tried := tried + [Attempt(i, None)];
      } else {
        OneSkipped(fs, g, next, tried, pending, i);
      }
      g, pending := next, pending - {i};
    }
    assert FlushedAll(fs, g, tried) && Reports(tried, Done(()));
  }

  /** One more step of a mount. */
  lemma MountGoesOn(worlds: seq<World>, v: World)
    requires IsMount(worlds) && Next(worlds[|worlds| - 1], v)
    ensures IsMount(worlds + [v])
  {
    hide Next, Inv;
  }

  /** A mount at work: nobody has asked it to end. */
  predicate IsQuiet(w: World) {
    w.session == Serving && w.main == Waiting && w.channel == []
  }

  /** Any mount at work can end in success, by the end of its session. */
  lemma SessionEndSucceeds(worlds: seq<World>) returns (whole: seq<World>)
    requires IsMount(worlds) && IsQuiet(worlds[|worlds| - 1])
    ensures IsMount(whole) && worlds <= whole && whole[|whole| - 1].main == Finished(true)
    ensures whole[|whole| - 1].session == Gone
    ensures forall k :: |worlds| <= k < |whole| ==> Signal !in whole[k].channel
  {
    hide Inv, Flushes;
    MountIsSafe(worlds, |worlds| - 1);
    var w := worlds[|worlds| - 1];
    var g := FlushCanSucceed(w.fs);
    var flushed := w.(fs := g, session := Destroying(Done(())));
    MountGoesOn(worlds, flushed);
    var recorded := flushed.(lastFlush := Done(()), recorded := true, session := Destroyed);
    MountGoesOn(worlds + [flushed], recorded);
    var ended := recorded.(session := Gone, channel := [SessionEnded(true)]);
    MountGoesOn(worlds + [flushed] + [recorded], ended);
    var judging := ended.(channel := [], main := Judging(true));
    MountGoesOn(worlds + [flushed] + [recorded] + [ended], judging);
    var finished := judging.(main := Finished(true));
    whole := worlds + [flushed] + [recorded] + [ended] + [judging] + [finished];
    MountGoesOn(worlds + [flushed] + [recorded] + [ended] + [judging], finished);
  }

  /** Any mount at work can end in success on a signal, with its session still serving. */
  lemma SignalSucceeds(worlds: seq<World>) returns (whole: seq<World>)
    requires IsMount(worlds) && IsQuiet(worlds[|worlds| - 1])
    ensures IsMount(whole) && worlds <= whole && whole[|whole| - 1].main == Finished(true)
    ensures whole[|whole| - 1].session == Serving
  {
    hide Inv, Flushes;
    MountIsSafe(worlds, |worlds| - 1);
    var w := worlds[|worlds| - 1];
    StopWritesStep(w.fs);
    var g := FlushCanSucceed(w.fs.(closing := true));
    var signalled := w.(channel := [Signal]);
    MountGoesOn(worlds, signalled);
    var refusing := w.(main := Refusing);
    MountGoesOn(worlds + [signalled], refusing);
    var flushing := w.(fs := w.fs.(closing := true), main := Flushing);
    var a := worlds + [signalled] + [refusing];
    MountGoesOn(a, flushing);
    var recording := flushing.(fs := g, main := Recording(Done(())));
    MountGoesOn(a + [flushing], recording);
    var unmounting := recording.(lastFlush := Done(()), recorded := true, main := Unmounting);
    MountGoesOn(a + [flushing] + [recording], unmounting);
    var draining := unmounting.(main := Draining);
    var b := a + [flushing] + [recording] + [unmounting];
    MountGoesOn(b, draining);
    var judging := draining.(main := Judging(true));
    MountGoesOn(b + [draining], judging);
    var finished := judging.(main := Finished(true));
    MountGoesOn(b + [draining] + [judging], finished);
    whole := b + [draining] + [judging] + [finished];
  }

  /** Every run of the cache without a shutdown is what the session of some mount does. */
  lemma {:induction false} RunIsServed(init: Fs, log: seq<Event>) returns (worlds: seq<World>)
    requires IsRun(init, log) && init.open == map[] && !init.closing && forall e :: e in log ==> !e.StopWrites?
    ensures IsMount(worlds)
    ensures worlds[|worlds| - 1] == World(After(init, log), Done(()), false, Serving, Waiting, [])
    decreases |log|
  {
    hide Inv, Enabled, Step;
    RunKeepsInv(init, []);
    if log == [] {
      worlds := [World(init, Done(()), false, Serving, Waiting, [])];
    } else {
      var before, e := log[..|log| - 1], log[|log| - 1];
      assert e in log && forall f :: f in before ==> f in log;
      PrefixRun(init, log, |log| - 1);
      worlds := RunIsServed(init, before);
      var w := worlds[|worlds| - 1];
      var v := w.(fs := Step(w.fs, e));
      assert Serves(w, v);
      MountGoesOn(worlds, v);
      worlds := worlds + [v];
    }
  }

  /** So success is not only for mounts with nothing to store: here, on a signal or without one, a
      file of one byte is in memory alone, and stored in the end. */
  lemma DirtyMountSucceeds(signal: bool) returns (worlds: seq<World>, k: nat)
    ensures IsMount(worlds) && k < |worlds| && worlds[|worlds| - 1].main == Finished(true)
    ensures var fs := worlds[k].fs;
            2 in fs.nodes && fs.nodes[2].nlink > 0 && Stored(fs, 2) != Logical(fs, 2)
    ensures worlds[|worlds| - 1].session == if signal then Serving else Gone
  {
    hide Inv, IsRun, After, Next;
    var init, log := OneByteBuffered();
    var served := RunIsServed(init, log);
    k := |served| - 1;
    if signal {
      worlds := SignalSucceeds(served);
    } else {
      worlds := SessionEndSucceeds(served);
    }
  }
}
