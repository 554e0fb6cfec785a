/**
 Whole histories of the collector: over any sequence of events, when standard output stays readable,
 and when every write goes to a file that is locked.
 */
module SadcHistory {
  import opened Common
  import opened Bits
  import opened SaFile
  import opened SadcModel

  /** The state before event n. */
  function Before(w: World, es: seq<Event>, n: nat): (u: World)
    requires n <= |es|
  {
    Run(w, es[..n])
  }

  lemma OneMoreEvent(w: World, es: seq<Event>, n: nat)
    requires n < |es|
    ensures Before(w, es, n + 1) == Step(Before(w, es, n), es[n])
  {
    assert es[..n + 1] == es[..n] + [es[n]];
    RunOneMore(w, es[..n], es[n]);
  }

  predicate AllInRange(es: seq<Event>) {
    forall i :: 0 <= i < |es| ==> es[i].InRange()
  }

  /** The file is rotated only after a sample: the collector looks for a new day at the end of its loop. */
  predicate Orderly(es: seq<Event>) {
    forall i :: 0 <= i < |es| && es[i].Rotation? ==> i > 0 && !es[i - 1].Start?
  }

  /** No other program is started after event i and before event n. */
  predicate SameProgram(es: seq<Event>, i: nat, n: nat)
    requires n <= |es|
  {
    forall k :: i < k < n ==> !es[k].Start?
  }

  // ---------- Standard output ----------

  /** A rotation after which the numbers of the collector are not those of the header on standard output. */
  predicate Misfit(w: World, e: Event) {
    && e.Rotation? && w.stdout && Step(w, e).running
    && !StdoutFits(AtRotation(w, e).c, HeaderIn(AtRotation(w, e), e.name))
  }

  /** Nothing on standard output is lost, and nothing that follows will be. */
  predicate Fine(w: World) {
    StreamOk(w.stream) && InStep(w)
  }

  lemma RotationOutput(w: World, e: Event)
    requires Ok(w) && e.InRange() && e.Rotation? && Fine(w)
    ensures StreamOk(Step(w, e).stream) && (InStep(Step(w, e)) <==> !Misfit(w, e))
  {
    RotationStream(w, e);
    StdoutStays(w, e);
  }

  lemma SampleOutput(w: World, e: Event)
    requires Ok(w) && e.InRange() && e.Sample? && Fine(w)
    ensures Fine(Step(w, e))
  {
    StreamStep(w, e);
  }

  lemma BrokenOutput(w: World, e: Event)
    requires !e.Start? && !Fine(w)
    ensures !StreamOk(Step(w, e).stream)
  {
    if StreamOk(w.stream) {
      OutOfStepBreaks(w, e);
    } else {
      BrokenStays(w, e);
    }
  }

  lemma StdoutStays(w: World, e: Event)
    requires e.Rotation?
    ensures Step(w, e).stdout == w.stdout
  {
    var shown := Shown(w, e.stats, e.mem, R_LAST_STATS);
    FiledSame(shown, e.stats, e.mem, e.lock, e.room);
    if Filed(shown, e.stats, e.mem, e.lock, e.room).running {
      var u := AtRotation(w, e);
      OpenedSame(u, e.name, e.now, e.newLock, e.newRoom);
      FiledSame(Opened(u, e.name, e.now, e.newLock, e.newRoom), e.stats, e.newMem, e.laterLock, e.laterRoom);
    }
  }

  /** The laws of standard output: a start is fine, and other events are as far as nothing bad happens. */
  ghost predicate OutputLaws<W(!new), E(!new)>(step: (W, E) -> W, inv: W -> bool, can: E -> bool, starts: E -> bool,
                                               ok: W -> bool, fine: W -> bool, bad: (W, E) -> bool) {
    forall w, e :: inv(w) && can(e) ==>
      && inv(step(w, e)) && (starts(e) ==> ok(step(w, e)) && fine(step(w, e)) && !bad(w, e))
      && (!starts(e) ==> (ok(step(w, e)) <==> fine(w)) && (fine(step(w, e)) <==> fine(w) && !bad(w, e)))
  }

  ghost predicate Quiet<E>(starts: E -> bool, es: seq<E>, i: nat, n: nat)
    requires n <= |es|
  {
    forall k :: i < k < n ==> !starts(es[k])
  }

  ghost predicate BadAt<W, E>(step: (W, E) -> W, bad: (W, E) -> bool, w: W, es: seq<E>, i: nat)
    requires i < |es|
  {
    bad(Fold(step, w, es[..i]), es[i])
  }

  /** Nothing bad has happened since the last start, if and only if things are fine. */
  lemma {:induction false} FineSoFar<W(!new), E(!new)>(
      step: (W, E) -> W, inv: W -> bool, can: E -> bool, starts: E -> bool, ok: W -> bool, fine: W -> bool,
      bad: (W, E) -> bool, w: W, es: seq<E>, n: nat)
    requires OutputLaws(step, inv, can, starts, ok, fine, bad) && inv(w) && fine(w) && n <= |es|
    requires forall i :: 0 <= i < |es| ==> can(es[i])
    ensures inv(Fold(step, w, es[..n]))
    ensures fine(Fold(step, w, es[..n]))
            <==> forall i: nat :: i < n && Quiet(starts, es, i, n) ==> !BadAt(step, bad, w, es, i)
  {
    if n > 0 {
      FineSoFar(step, inv, can, starts, ok, fine, bad, w, es, n - 1);
      assert es[..n] == es[..n - 1] + [es[n - 1]];
      FoldOneMore(step, w, es[..n - 1], es[n - 1]);
      forall i: nat | i < n
        ensures Quiet(starts, es, i, n) <==> i == n - 1 || (Quiet(starts, es, i, n - 1) && !starts(es[n - 1]))
      {
      }
      assert BadAt(step, bad, w, es, n - 1) <==> bad(Fold(step, w, es[..n - 1]), es[n - 1]);
    } else {
      assert es[..0] == [];
    }
  }

  /** What happened last does not show yet. */
  lemma OkSoFar<W(!new), E(!new)>(
      step: (W, E) -> W, inv: W -> bool, can: E -> bool, starts: E -> bool, ok: W -> bool, fine: W -> bool,
      bad: (W, E) -> bool, w: W, es: seq<E>)
    requires OutputLaws(step, inv, can, starts, ok, fine, bad) && inv(w) && fine(w) && ok(w)
    requires forall i :: 0 <= i < |es| ==> can(es[i])
    ensures ok(Fold(step, w, es))
            <==> forall i: nat :: i < |es| - 1 && Quiet(starts, es, i, |es|) ==> !BadAt(step, bad, w, es, i)
  {
    var n := |es| - 1;
    if n >= 0 {
      FineSoFar(step, inv, can, starts, ok, fine, bad, w, es, n);
      assert es == es[..n] + [es[n]];
      FoldOneMore(step, w, es[..n], es[n]);
      forall i: nat | i < n
        ensures Quiet(starts, es, i, |es|) <==> Quiet(starts, es, i, n) && !starts(es[n])
      {
      }
    }
  }

  /** A rotation that finds numbers that fit, or another event. */
  ghost predicate Fitting(w: World, es: seq<Event>, i: nat)
    requires i < |es|
  {
    !Misfit(Before(w, es, i), es[i])
  }

  lemma OutputObeys()
    ensures OutputLaws(Step, (v: World) => Ok(v), (e: Event) => e.InRange(), (e: Event) => e.Start?,
                       (v: World) => StreamOk(v.stream), Fine, Misfit)
  {
    forall w: World, e: Event | Ok(w) && e.InRange()
      ensures Ok(Step(w, e)) && (e.Start? ==> Fine(Step(w, e)) && !Misfit(w, e))
      ensures !e.Start? ==>
                (StreamOk(Step(w, e).stream) <==> Fine(w)) && (Fine(Step(w, e)) <==> Fine(w) && !Misfit(w, e))
    {
      StepOk(w, e);
      OneOutput(w, e);
    }
  }

  /** Standard output, event by event, whatever state it is in. */
  lemma OneOutput(w: World, e: Event)
    requires Ok(w) && e.InRange()
    ensures e.Start? ==> Fine(Step(w, e)) && !Misfit(w, e)
    ensures !e.Start? ==> (StreamOk(Step(w, e).stream) <==> Fine(w)) && (Fine(Step(w, e)) <==> Fine(w) && !Misfit(w, e))
  {
    if e.Start? {
      StartStream(w, e);
    } else if !Fine(w) {
      BrokenOutput(w, e);
    } else if e.Rotation? {
      RotationOutput(w, e);
    } else {
      SampleOutput(w, e);
    }
  }

  /**
   After any history, everything on the standard output of the last program can be read with the
   headers there, if and only if each of its rotations that other output has followed found numbers
   that fit.
   */
  lemma StreamOverRun(w: World, es: seq<Event>)
    requires Ok(w) && Fine(w) && AllInRange(es)
    ensures StreamOk(Run(w, es).stream)
            <==> forall i: nat :: i < |es| - 1 && SameProgram(es, i, |es|) ==> Fitting(w, es, i)
  {
    OutputObeys();
    OkSoFar(Step, (v: World) => Ok(v), (e: Event) => e.InRange(), (e: Event) => e.Start?,
            (v: World) => StreamOk(v.stream), Fine, Misfit, w, es);
    forall i: nat | i < |es| - 1
      ensures SameProgram(es, i, |es|) <==> Quiet((e: Event) => e.Start?, es, i, |es|)
      ensures Fitting(w, es, i) <==> !BadAt(Step, Misfit, w, es, i)
    {
    }
  }

  // ---------- The lock ----------

  /**
   A write that is made if the lock can be had, asked for in state u: a record to the output file, or a
   header to a file that is emptied before.
   */
  datatype Attempt = ToRecord(u: World, lock: Flock, fatal: bool) | ToHeader(u: World, name: Name, lock: Flock) {
    function File(): (n: Name) {
      if ToRecord? then u.ofile else name
    }

    /** The state in which the write is made, if it is. */
    function Made(): (at: Option<World>) {
      match this
      case ToRecord(u, lock, fatal) => if u.running then AtWrite(u, lock, fatal) else None
      case ToHeader(u, name, lock) => if Asked(u, lock, true).Go? then Some(AfterAsk(u, name, lock)) else None
    }

    /** The collector is to hold locks, and writes to a file it holds none on. */
    predicate Unheld() {
      u.lOption && Made().Some? && Made().value.held != Some(File())
    }
  }

  /** Opening a file empties it and writes a header, if it is to be made. */
  function Opening(u: World, name: Name, lock: Flock): (a: seq<Attempt>) {
    if Planned(u, name).Create? then [ToHeader(u, name, lock)] else []
  }

  /** The state in which a start opens its file. */
  function AtStart(w: World, e: Event): (u: World)
    requires e.Start?
  {
    Recounted(Fresh(w, e.actflag, e.fOption, e.lOption, e.stdout), e.m)
  }

  /** The writes to files that an event tries to make. */
  function Attempts(w: World, e: Event): (a: seq<Attempt>) {
    match e
    case Start(_, _, _, _, _, name, now, lock, room, outNow, markOnly, _, laterLock, _) =>
      var u := AtStart(w, e);
      Opening(u, name, lock)
      + if markOnly then [ToRecord(Announced(Opened(u, name, now, lock, room), outNow), laterLock, true)] else []
    case Sample(stats, mem, lock, room) => [ToRecord(Shown(w, stats, mem, R_STATS), lock, false)]
    case Rotation(stats, mem, lock, room, _, _, name, _, newLock, _, _, _, _) =>
      var shown := Shown(w, stats, mem, R_LAST_STATS);
      [ToRecord(shown, lock, false)]
      + if Filed(shown, stats, mem, lock, room).running then
          Opening(AtRotation(w, e), name, newLock) + [Second(AtRotation(w, e), e)]
        else []
  }

  /** The second write of a rotation, in the file opened in state u. */
  function Second(u: World, e: Event): (a: Attempt)
    requires e.Rotation?
  {
    ToRecord(Opened(u, e.name, e.now, e.newLock, e.newRoom), e.laterLock, false)
  }

  /** No write of an event goes to a file that is not held. */
  ghost predicate AllHeld(w: World, e: Event) {
    forall a :: a in Attempts(w, e) ==> !a.Unheld()
  }

  // ---------- No other writes ----------

  /** From w to v, no file but this one has changed. */
  ghost predicate OnlyIn(w: World, v: World, file: Name) {
    forall n :: n != file ==> BytesOf(v, n) == BytesOf(w, n)
  }

  /** From w to v, the bytes of a file have changed only if one of the writes has been made to it. */
  ghost predicate Through(w: World, v: World, attempts: seq<Attempt>) {
    forall n :: BytesOf(v, n) != BytesOf(w, n) ==> Written(attempts, n)
  }

  ghost predicate Written(attempts: seq<Attempt>, n: Name) {
    exists a :: a in attempts && a.Made().Some? && a.File() == n
  }

  /** One thing after the other. */
  lemma ThroughBoth(u: World, v: World, w: World, before: seq<Attempt>, after: seq<Attempt>)
    requires Through(u, v, before) && Through(v, w, after)
    ensures Through(u, w, before + after)
  {
    forall n | BytesOf(w, n) != BytesOf(u, n)
      ensures Written(before + after, n)
    {
      if BytesOf(v, n) != BytesOf(u, n) {
        var a :| a in before && a.Made().Some? && a.File() == n;
        assert a in before + after;
      } else {
        var a :| a in after && a.Made().Some? && a.File() == n;
        assert a in before + after;
      }
    }
  }

  /** What leaves the files alone makes no difference. */
  lemma ThroughSame(u: World, v: World, w: World, attempts: seq<Attempt>)
    requires Through(v, w, attempts) && u.logs == v.logs && u.junk == v.junk
    ensures Through(u, w, attempts)
  {
    forall n | BytesOf(w, n) != BytesOf(u, n)
      ensures Written(attempts, n)
    {
      assert BytesOf(u, n) == BytesOf(v, n);
    }
  }

  lemma PutOnlyIn(w: World, r: Record, room: nat)
    ensures OnlyIn(w, Put(w, r, room), w.ofile)
  {
    if room >= |Encode(r)| {
      WholeOnlyIn(w, r);
    } else if room > 0 {
      TornOnlyIn(w, Encode(r)[..room]);
    }
  }

  lemma WholeOnlyIn(w: World, r: Record)
    ensures OnlyIn(w, WithRecord(w, r), w.ofile)
  {
  }

  lemma TornOnlyIn(w: World, part: seq<U8>)
    ensures OnlyIn(w, TornOff(w, part).(running := false), w.ofile)
  {
  }

  lemma OneWrite(w: World, v: World, a: Attempt)
    requires a.Made().Some? && OnlyIn(w, v, a.File())
    ensures Through(w, v, [a])
  {
    assert a in [a];
  }

  lemma NoWrite(w: World, v: World, attempts: seq<Attempt>)
    requires w.logs == v.logs && w.junk == v.junk
    ensures Through(w, v, attempts)
  {
    forall n
      ensures BytesOf(v, n) == BytesOf(w, n)
    {
    }
  }

  /** A record is written through the attempt to write it. */
  lemma WroteThrough(w: World, r: Record, lock: Flock, fatal: bool, room: nat)
    requires w.running
    ensures Through(w, Wrote(w, r, lock, fatal, room), [ToRecord(w, lock, fatal)])
  {
    var at := AtWrite(w, lock, fatal);
    if at.Some? {
      PutOnlyIn(at.value, r, room);
      assert forall n :: BytesOf(at.value, n) == BytesOf(w, n);
      OneWrite(w, Put(at.value, r, room), ToRecord(w, lock, fatal));
    } else {
      NoWrite(w, Wrote(w, r, lock, fatal, room), [ToRecord(w, lock, fatal)]);
    }
  }

  lemma FiledThrough(w: World, stats: StatsBytes, mem: Memory, lock: Flock, room: nat)
    ensures Through(w, Filed(w, stats, mem, lock, room), [ToRecord(w, lock, false)])
  {
    if w.running {
      WroteThrough(w, StatsRecord(w.c, Typed(stats, R_STATS), mem), lock, false, room);
    } else {
      NoWrite(w, w, [ToRecord(w, lock, false)]);
    }
  }

  lemma MarkedThrough(w: World, now: Clock, lock: Flock, room: nat)
    ensures Through(w, Marked(w, now, lock, room), [ToRecord(w, lock, true)])
  {
    if w.running {
      var v := Wrote(w, Record(DummyStats(now), NOTHING), lock, true, room);
      WroteThrough(w, Record(DummyStats(now), NOTHING), lock, true, room);
      ThroughThen(w, v, v.(running := false), [ToRecord(w, lock, true)]);
    } else {
      NoWrite(w, w, [ToRecord(w, lock, true)]);
    }
  }

  lemma ThroughThen(u: World, v: World, w: World, attempts: seq<Attempt>)
    requires Through(u, v, attempts) && w.logs == v.logs && w.junk == v.junk
    ensures Through(u, w, attempts)
  {
    forall n | BytesOf(w, n) != BytesOf(u, n)
      ensures Written(attempts, n)
    {
      assert BytesOf(w, n) == BytesOf(v, n);
    }
  }

  /** A file is emptied, and a header written, through the attempt to do so. */
  lemma OpenedThrough(u: World, name: Name, now: Clock, lock: Flock, room: nat)
    ensures Through(u, Opened(u, name, now, lock, room), Opening(u, name, lock))
  {
    OpenedAsThrough(u, name, now, lock, room, HeaderIn(u, name), Planned(u, name));
  }

  lemma OpenedAsThrough(u: World, name: Name, now: Clock, lock: Flock, room: nat, h: Option<Header>, p: Plan)
    ensures Through(u, OpenedAs(u, name, now, lock, room, h, p), if p.Create? then [ToHeader(u, name, lock)] else [])
  {
    if p.Create? {
      CreatedThrough(u, u.(c := Flagged(u.c, h)), name, now, lock, room);
    } else {
      NoWrite(u, OpenedAs(u, name, now, lock, room, h, p), []);
    }
  }

  lemma CreatedThrough(u: World, w: World, name: Name, now: Clock, lock: Flock, room: nat)
    requires u.logs == w.logs && u.junk == w.junk && u.lOption == w.lOption
    ensures Through(u, Created(w, name, now, lock, room), [ToHeader(u, name, lock)])
  {
    var v := Created(w, name, now, lock, room);
    forall n
      ensures n != name || !Asked(w, lock, true).Go? ==> BytesOf(v, n) == BytesOf(u, n)
    {
      if n != name {
        OthersStay(w, name, now, lock, room, n);
      }
      assert BytesOf(u, n) == BytesOf(w, n);
    }
    if Asked(w, lock, true).Go? {
      OneWrite(u, v, ToHeader(u, name, lock));
    }
  }

  /** An event changes the bytes of a file only through one of its attempts to write there. */
  lemma StepThrough(w: World, e: Event)
    ensures Through(w, Step(w, e), Attempts(w, e))
  {
    match e
    case Start(_, _, _, _, _, _, _, _, _, _, _, _, _, _) => StartThrough(w, e);
    case Sample(stats, mem, lock, room) =>
      var shown := Shown(w, stats, mem, R_STATS);
      FiledThrough(shown, stats, mem, lock, room);
      ThroughSame(w, shown, Step(w, e), Attempts(w, e));
    case Rotation(_, _, _, _, _, _, _, _, _, _, _, _, _) => RotationThrough(w, e);
  }

  lemma StartThrough(w: World, e: Event)
    requires e.Start?
    ensures Through(w, Step(w, e), Attempts(w, e))
  {
    var u := AtStart(w, e);
    var v := Announced(Opened(u, e.name, e.now, e.lock, e.room), e.outNow);
    OpenedThrough(u, e.name, e.now, e.lock, e.room);
    ThroughThen(u, Opened(u, e.name, e.now, e.lock, e.room), v, Opening(u, e.name, e.lock));
    ThroughSame(w, u, v, Opening(u, e.name, e.lock));
    if e.markOnly {
      MarkedThrough(v, e.later, e.laterLock, e.laterRoom);
      ThroughBoth(w, v, Step(w, e), Opening(u, e.name, e.lock), [ToRecord(v, e.laterLock, true)]);
    } else {
      assert Attempts(w, e) == Opening(u, e.name, e.lock);
    }
  }

  lemma RotationThrough(w: World, e: Event)
    requires e.Rotation?
    ensures Through(w, Step(w, e), Attempts(w, e))
  {
    var shown := Shown(w, e.stats, e.mem, R_LAST_STATS);
    var v := Filed(shown, e.stats, e.mem, e.lock, e.room);
    var first := [ToRecord(shown, e.lock, false)];
    FiledThrough(shown, e.stats, e.mem, e.lock, e.room);
    ThroughSame(w, shown, v, first);
    if v.running {
      MovedThrough(v, AtRotation(w, e), e);
      ThroughBoth(w, v, Step(w, e), first,
                  Opening(AtRotation(w, e), e.name, e.newLock) + [Second(AtRotation(w, e), e)]);
    } else {
      assert Attempts(w, e) == first;
    }
  }

  /** What a rotation does after the old file has been closed. */
  lemma MovedThrough(v: World, u: World, e: Event)
    requires e.Rotation? && v.logs == u.logs && v.junk == u.junk
    ensures var open := Opened(u, e.name, e.now, e.newLock, e.newRoom);
            Through(v, Filed(open, e.stats, e.newMem, e.laterLock, e.laterRoom),
                    Opening(u, e.name, e.newLock) + [Second(u, e)])
  {
    var open := Opened(u, e.name, e.now, e.newLock, e.newRoom);
    OpenedThrough(u, e.name, e.now, e.newLock, e.newRoom);
    ThroughSame(v, u, open, Opening(u, e.name, e.newLock));
    FiledThrough(open, e.stats, e.newMem, e.laterLock, e.laterRoom);
    ThroughBoth(v, open, Filed(open, e.stats, e.newMem, e.laterLock, e.laterRoom),
                Opening(u, e.name, e.newLock), [Second(u, e)]);
  }

  // ---------- Writes without a lock ----------

  /** A rotation in which a collector that believes to hold the lock appends to the new file. */
  predicate LosesLock(w: World, e: Event) {
    && e.Rotation? && AtRotation(w, e).running
    && AtRotation(w, e).lOption && AtRotation(w, e).locked && Planned(AtRotation(w, e), e.name).Append?
  }

  /** The second write of a rotation is the one in question. */
  lemma HeldStep(w: World, e: Event)
    requires Guarded(w) || LosesLock(w, e)
    ensures AllHeld(w, e) <==> !LosesLock(w, e)
    ensures Guarded(w) && !LosesLock(w, e) ==> Guarded(Step(w, e))
  {
    if Step(w, e).running {
      GuardedNext(w, e);
    }
    match e
    case Start(_, _, _, _, _, _, _, _, _, _, _, _, _, _) => StartHeld(w, e);
    case Sample(stats, mem, lock, room) =>
      HeldIffGuarded(ToRecord(Shown(w, stats, mem, R_STATS), lock, false));
    case Rotation(_, _, _, _, _, _, _, _, _, _, _, _, _) => RotationHeld(w, e);
  }

  /** A running collector is guarded as before, or as its last opening has left it. */
  lemma GuardedNext(w: World, e: Event)
    requires Step(w, e).running
    ensures e.Sample? ==> w.running && (Guarded(Step(w, e)) <==> Guarded(w))
    ensures !e.Sample? ==> (Guarded(Step(w, e)) <==> !LosesLock(w, e))
  {
    GuardedStep(w, e);
    if e.Sample? {
      FiledSame(Shown(w, e.stats, e.mem, R_STATS), e.stats, e.mem, e.lock, e.room);
    } else if e.Rotation? {
      RotationRuns(w, e);
    }
  }

  lemma StartHeld(w: World, e: Event)
    requires e.Start?
    ensures AllHeld(w, e)
  {
    OpenedGuarded(AtStart(w, e), e.name, e.now, e.lock, e.room);
    HeadersHeld(AtStart(w, e), e.name, e.lock);
  }

  /** A file is locked before it is emptied and gets its header. */
  lemma HeadersHeld(u: World, name: Name, lock: Flock)
    ensures forall a :: a in Opening(u, name, lock) ==> !a.Unheld()
  {
  }

  lemma RotationHeld(w: World, e: Event)
    requires e.Rotation? && (Guarded(w) || LosesLock(w, e))
    ensures AllHeld(w, e) <==> !LosesLock(w, e)
  {
    var shown := Shown(w, e.stats, e.mem, R_LAST_STATS);
    if Filed(shown, e.stats, e.mem, e.lock, e.room).running {
      var u := AtRotation(w, e);
      SecondHeldIff(u, e);
      HeadersHeld(u, e.name, e.newLock);
      assert Second(u, e) in Attempts(w, e);
      assert LosesLock(w, e) ==> Second(u, e).Unheld();
      assert Guarded(w) ==> !ToRecord(shown, e.lock, false).Unheld();
    }
  }

  lemma SecondHeldIff(u: World, e: Event)
    requires e.Rotation? && u.held == None
    ensures Second(u, e).Unheld() <==> u.lOption && u.locked && Planned(u, e.name).Append?
  {
    OpenedGuarded(u, e.name, e.now, e.newLock, e.newRoom);
    OpenedLocked(u, e.name, e.now, e.newLock, e.newRoom);
    HeldIffGuarded(Second(u, e));
  }

  lemma HeldIffGuarded(a: Attempt)
    requires a.ToRecord?
    ensures Guarded(a.u) ==> !a.Unheld()
    ensures a.u.running && a.u.lOption && a.u.locked ==> (!a.Unheld() <==> Guarded(a.u))
  {
  }

  /** A collector that appends goes on, with what it believes of the lock. */
  lemma OpenedLocked(u: World, name: Name, now: Clock, lock: Flock, room: nat)
    ensures var v := Opened(u, name, now, lock, room);
            && v.lOption == u.lOption
            && (Planned(u, name).Append? ==> v.running && v.locked == u.locked && v.held == u.held)
  {
    OpenedAsLocked(u, name, now, lock, room, HeaderIn(u, name), Planned(u, name));
  }

  lemma OpenedAsLocked(u: World, name: Name, now: Clock, lock: Flock, room: nat, h: Option<Header>, p: Plan)
    ensures var v := OpenedAs(u, name, now, lock, room, h, p);
            v.lOption == u.lOption && (p.Append? ==> v.running && v.locked == u.locked && v.held == u.held)
  {
  }

  ghost predicate Losing(w: World, es: seq<Event>, i: nat)
    requires i < |es|
  {
    LosesLock(Before(w, es, i), es[i])
  }

  ghost predicate Held(w: World, es: seq<Event>, i: nat)
    requires i < |es|
  {
    AllHeld(Before(w, es, i), es[i])
  }

  /** What every step keeps that is not bad, a history keeps in which nothing bad happens. */
  lemma {:induction false} GoodSoFar<W(!new), E(!new)>(step: (W, E) -> W, good: W -> bool, bad: (W, E) -> bool,
                                                       w: W, es: seq<E>, n: nat)
    requires forall v, e :: good(v) && !bad(v, e) ==> good(step(v, e))
    requires good(w) && n <= |es| && forall i: nat :: i < n ==> !bad(Fold(step, w, es[..i]), es[i])
    ensures good(Fold(step, w, es[..n]))
  {
    if n > 0 {
      GoodSoFar(step, good, bad, w, es, n - 1);
      assert es[..n] == es[..n - 1] + [es[n - 1]];
      FoldOneMore(step, w, es[..n - 1], es[n - 1]);
    } else {
      assert es[..0] == [];
    }
  }

  lemma GuardedSoFar(w: World, es: seq<Event>, n: nat)
    requires Guarded(w) && n <= |es| && forall i: nat :: i < n ==> !Losing(w, es, i)
    ensures Guarded(Before(w, es, n))
  {
    forall v: World, e: Event | Guarded(v) && !LosesLock(v, e)
      ensures Guarded(Step(v, e))
    {
      HeldStep(v, e);
    }
    forall i: nat | i < n
      ensures !LosesLock(Fold(Step, w, es[..i]), es[i])
    {
      assert !Losing(w, es, i);
    }
    GoodSoFar(Step, Guarded, LosesLock, w, es, n);
  }

  /** Seen from one event that has only harmless ones before it. */
  lemma HeldAt(w: World, es: seq<Event>, i: nat)
    requires Guarded(w) && i < |es| && forall k: nat :: k < i ==> !Losing(w, es, k)
    ensures Held(w, es, i) <==> !Losing(w, es, i)
  {
    GuardedSoFar(w, es, i);
    HeldStep(Before(w, es, i), es[i]);
  }

  lemma LosingNotHeld(w: World, es: seq<Event>, i: nat)
    requires i < |es| && Losing(w, es, i)
    ensures !Held(w, es, i)
  {
    HeldStep(Before(w, es, i), es[i]);
  }

  /**
   In any history, all writes of collectors with -L go to files they hold, if and only if no rotation of
   a collector that believes to hold the lock appends to the new file.
   */
  lemma HeldOverRun(w: World, es: seq<Event>)
    requires Guarded(w)
    ensures (forall i: nat :: i < |es| ==> Held(w, es, i)) <==> forall i: nat :: i < |es| ==> !Losing(w, es, i)
  {
    forall i: nat | i < |es|
      ensures Losing(w, es, i) ==> !Held(w, es, i)
      ensures (forall k: nat :: k < |es| ==> !Losing(w, es, k)) ==> Held(w, es, i)
    {
      if Losing(w, es, i) {
        LosingNotHeld(w, es, i);
      } else if forall k: nat :: k < |es| ==> !Losing(w, es, k) {
        HeldAt(w, es, i);
      }
    }
  }

  /** In a history without such a rotation, a collector with -L changes only files that it holds. */
  lemma ChangesAreHeld(w: World, es: seq<Event>, i: nat, n: Name)
    requires Guarded(w) && i < |es| && forall k: nat :: k <= i ==> !Losing(w, es, k)
    requires BytesOf(Before(w, es, i + 1), n) != BytesOf(Before(w, es, i), n)
    ensures exists a :: && a in Attempts(Before(w, es, i), es[i]) && a.Made().Some? && a.File() == n
                        && (a.u.lOption ==> a.Made().value.held == Some(n))
  {
    HeldAt(w, es, i);
    OneMoreEvent(w, es, i);
    StepThrough(Before(w, es, i), es[i]);
    var a :| a in Attempts(Before(w, es, i), es[i]) && a.Made().Some? && a.File() == n;
    assert !a.Unheld();
  }

  /** The last event before event n that opened a file. */
  predicate LastOpening(es: seq<Event>, i: nat, n: nat)
    requires n <= |es|
  {
    i < n && !es[i].Sample? && forall k :: i < k < n ==> es[k].Sample?
  }

  /** When the events that are not still settle how things are, the last of them does. */
  lemma {:induction false} LastSettles<W(!new), E(!new)>(
      step: (W, E) -> W, running: W -> bool, good: W -> bool, still: E -> bool, bad: (W, E) -> bool, w: W, es: seq<E>,
      n: nat)
    requires forall v, e :: running(step(v, e)) ==>
               if still(e) then running(v) && (good(step(v, e)) <==> good(v)) else (good(step(v, e)) <==> !bad(v, e))
    requires good(w) && n <= |es| && running(Fold(step, w, es[..n]))
    ensures good(Fold(step, w, es[..n]))
            <==> forall i: nat :: i < n && !still(es[i]) && (forall k :: i < k < n ==> still(es[k])) ==>
                   !bad(Fold(step, w, es[..i]), es[i])
  {
    if n > 0 {
      assert es[..n] == es[..n - 1] + [es[n - 1]];
      FoldOneMore(step, w, es[..n - 1], es[n - 1]);
      if still(es[n - 1]) {
        LastSettles(step, running, good, still, bad, w, es, n - 1);
      }
    } else {
      assert es[..0] == [];
    }
  }

  /**
   At any point of a history, what a collector writes next goes to a file it holds, unless it has
   opened that file in a rotation that loses the lock.
   */
  lemma GuardedOverRun(w: World, es: seq<Event>, n: nat)
    requires Guarded(w) && n <= |es| && Before(w, es, n).running
    ensures Guarded(Before(w, es, n)) <==> forall i: nat :: LastOpening(es, i, n) ==> !Losing(w, es, i)
  {
    forall v: World, e: Event | Step(v, e).running
      ensures if e.Sample? then v.running && (Guarded(Step(v, e)) <==> Guarded(v))
              else (Guarded(Step(v, e)) <==> !LosesLock(v, e))
    {
      GuardedNext(v, e);
    }
    LastSettles(Step, (v: World) => v.running, Guarded, (e: Event) => e.Sample?, LosesLock, w, es, n);
    forall i: nat | i < n
      ensures LastOpening(es, i, n) <==> !es[i].Sample? && forall k :: i < k < n ==> es[k].Sample?
      ensures Losing(w, es, i) <==> LosesLock(Fold(Step, w, es[..i]), es[i])
    {
    }
  }

  lemma RotationRuns(w: World, e: Event)
    requires e.Rotation? && Step(w, e).running
    ensures AtRotation(w, e).running
  {
  }

  // ---------- Two histories ----------

  /** Nothing has happened yet. */
  const NEW: World := World(map[], map[], Counts(0, 0, 0, 0, 0, 0), false, false, false, None, false, [], Name(""),
                            false)

  /** The activities that every collector starts with: all but those for options and for what is counted. */
  const BASE_FLAG := 0x1FC0EF
  const ONE_IRQ_FLAG := 0x10
  const ROOM := 10000

  /**
   A machine with one processor, and with a count of network interfaces: that is zero, or the number of interfaces
   and two to spare.
   */
  function Plain(iface: nat): (m: Machine) {
    Machine(0, 0, 0, iface, 0)
  }

  /**
   In a new directory a collector makes file b and is stopped.  Another one, with -L and with standard
   output, makes file a, takes a sample, goes on in file b, and takes one more sample.
   */
  function Story(older: Machine, flag: nat, newer: Machine, begun: nat, f: bool, now: Clock, stats: StatsBytes,
                 mem: Memory): (es: seq<Event>) {
    [Start(flag, false, false, false, older, Name("b"), now, Granted, ROOM, now, false, now, Granted, ROOM),
     Start(begun, f, true, true, newer, Name("a"), now, Granted, ROOM, now, false, now, Granted, ROOM),
     Sample(stats, mem, Granted, ROOM),
     RotationToB(newer, now, stats, mem),
     Sample(stats, mem, Granted, ROOM)]
  }

  function RotationToB(newer: Machine, now: Clock, stats: StatsBytes, mem: Memory): (e: Event)
    ensures e.Rotation?
  {
    Rotation(stats, mem, Granted, ROOM, newer, now, Name("b"), now, Granted, ROOM, mem, Granted, ROOM)
  }

  /** The numbers of a collector just started. */
  function Begun(flag: nat, m: Machine): (c: Counts) {
    Counted(Counts(ClearBit(flag, PID), 0, 0, 0, 0, 0), m)
  }

  /** A collector that starts on a file that is not there makes it. */
  lemma Makes(w: World, e: Event)
    requires e.Start? && e.name !in w.logs && e.name !in w.junk && e.lock == Granted && e.room >= FILE_HDR_SIZE
             && !e.markOnly
    ensures var c, v := Begun(e.actflag, e.m), Step(w, e);
            && v.logs == w.logs[e.name := Contents(NewHeader(c, e.now), [])] && v.junk == w.junk - {e.name}
            && v.running && v.c == c && v.ofile == e.name && v.fOption == e.fOption && v.lOption == e.lOption
            && v.locked == e.lOption && v.stdout == e.stdout
            && (e.lOption ==> v.held == Some(e.name))
  {
  }

  /** Before the sample both files are there. */
  lemma BothFiles(older: Machine, flag: nat, newer: Machine, begun: nat, f: bool, now: Clock, stats: StatsBytes,
                  mem: Memory)
    ensures var v := Before(NEW, Story(older, flag, newer, begun, f, now, stats, mem), 2);
            && v.logs == map[Name("b") := Contents(NewHeader(Begun(flag, older), now), []),
                             Name("a") := Contents(NewHeader(Begun(begun, newer), now), [])]
            && v.junk == map[] && v.running && v.c == Begun(begun, newer) && v.ofile == Name("a") && v.fOption == f
            && v.lOption && v.locked && v.stdout && v.held == Some(Name("a"))
  {
    var es := Story(older, flag, newer, begun, f, now, stats, mem);
    assert es[..0] == [];
    OneMoreEvent(NEW, es, 0);
    OneMoreEvent(NEW, es, 1);
    Makes(NEW, es[0]);
    Makes(Before(NEW, es, 1), es[1]);
  }

  /** A small record fits into the room. */
  lemma SmallRecord(c: Counts, stats: StatsBytes, mem: Memory)
    requires c.cpu == 0 && c.serial == 0 && c.irqcpu == 0 && c.iface <= 3 && c.disk == 0
    ensures 0 < |Encode(StatsRecord(c, stats, mem))| <= ROOM
  {
    assert IrqCpuSize(0, 0) == 0;
  }

  /** Where a small record is written, and what stays as it is. */
  lemma SmallFiled(w: World, stats: StatsBytes, mem: Memory)
    requires w.running && w.c.cpu == 0 && w.c.serial == 0 && w.c.irqcpu == 0 && w.c.iface <= 3 && w.c.disk == 0
    ensures var v := Filed(w, stats, mem, Granted, ROOM);
            && v.running && v.c == w.c && v.fOption == w.fOption && v.lOption == w.lOption && v.stdout == w.stdout
            && v.ofile == w.ofile && (w.locked ==> v.locked)
    ensures var v := Filed(w, stats, mem, Granted, ROOM);
            w.ofile in w.logs && w.locked ==> v.ofile in v.logs && forall n :: HeaderIn(v, n) == HeaderIn(w, n)
  {
    SmallRecord(w.c, Typed(stats, R_STATS), mem);
    var r := StatsRecord(w.c, Typed(stats, R_STATS), mem);
    PutFrame(w, r, ROOM);
    PutFrame(AfterAsk(w, w.ofile, Granted), r, ROOM);
  }

  /** Between its two files, the collector of the story. */
  predicate Between(v: World, older: Machine, flag: nat, iface: nat, begun: nat, f: bool, now: Clock) {
    && v.running && v.stdout && v.lOption && v.locked && v.fOption == f
    && v.ofile in v.logs && v.c == Begun(begun, Plain(iface))
    && HeaderIn(v, Name("b")) == Some(NewHeader(Begun(flag, older), now))
  }

  lemma SampleBetween(w: World, older: Machine, flag: nat, iface: nat, begun: nat, f: bool, now: Clock,
                      stats: StatsBytes, mem: Memory, mark: U8)
    requires Between(w, older, flag, iface, begun, f, now) && iface <= 3 && mark != R_DUMMY
    ensures Between(Filed(Shown(w, stats, mem, mark), stats, mem, Granted, ROOM), older, flag, iface, begun, f, now)
  {
    var shown := Shown(w, stats, mem, mark);
    SmallFiled(shown, stats, mem);
    assert HeaderIn(shown, Name("b")) == HeaderIn(w, Name("b"));
  }

  /** When the collector opens file b. */
  ghost predicate OpeningB(w: World, e: Event, older: Machine, flag: nat, iface: nat, begun: nat, f: bool, now: Clock) {
    && e.Rotation? && w.stdout
    && var u := AtRotation(w, e);
       && u.running && u.lOption && u.locked && u.fOption == f
       && HeaderIn(u, Name("b")) == Some(NewHeader(Begun(flag, older), now))
       && u.c == Counted(Begun(begun, Plain(iface)), Plain(iface))
  }

  /** The same, in a form that keeps its contents out of the proofs that only pass it on. */
  ghost predicate AtB(w: World, e: Event, older: Machine, flag: nat, iface: nat, begun: nat, f: bool, now: Clock) {
    forall v :: v == w ==> OpeningB(v, e, older, flag, iface, begun, f, now)
  }

  lemma OpensB(older: Machine, flag: nat, iface: nat, begun: nat, f: bool, now: Clock, stats: StatsBytes, mem: Memory)
    requires iface <= 3
    ensures var es := Story(older, flag, Plain(iface), begun, f, now, stats, mem);
            AtB(Before(NEW, es, 3), es[3], older, flag, iface, begun, f, now)
  {
    var es := Story(older, flag, Plain(iface), begun, f, now, stats, mem);
    BothFiles(older, flag, Plain(iface), begun, f, now, stats, mem);
    OneMoreEvent(NEW, es, 2);
    assert Name("a") != Name("b");
    assert Between(Before(NEW, es, 2), older, flag, iface, begun, f, now);
    SampleBetween(Before(NEW, es, 2), older, flag, iface, begun, f, now, stats, mem, R_STATS);
    SampleBetween(Before(NEW, es, 3), older, flag, iface, begun, f, now, stats, mem, R_LAST_STATS);
    assert OpeningB(Before(NEW, es, 3), es[3], older, flag, iface, begun, f, now);
  }

  lemma NewIsOk()
    ensures Ok(NEW) && Fine(NEW) && Guarded(NEW)
  {
    forall n
      ensures Sound(NEW.logs, NEW.junk, n)
    {
    }
  }

  lemma StoryInRange(older: Machine, flag: nat, iface: nat, begun: nat, f: bool, now: Clock, stats: StatsBytes,
                     mem: Memory)
    requires now.InRange() && older.cpu <= 1 && older.serial == older.irqcpu == older.iface == older.disk == 0
    requires iface <= 3 && flag <= BASE_FLAG + ONE_IRQ_FLAG && begun <= BASE_FLAG
    ensures AllInRange(Story(older, flag, Plain(iface), begun, f, now, stats, mem))
  {
    LargeEnough();
  }

  lemma LargeEnough()
    ensures Pow2(32) > 0x20_0000
  {
    Pow2Byte(24);
    Pow2Byte(16);
    Pow2Byte(8);
    Pow2Byte(0);
  }

  /** A rotation that does not fit shows with the next sample. */
  lemma MisfitShows(es: seq<Event>)
    requires |es| == 5 && AllInRange(es) && !es[4].Start? && Misfit(Before(NEW, es, 3), es[3])
    ensures !StreamOk(Run(NEW, es).stream)
  {
    NewIsOk();
    StreamOverRun(NEW, es);
    assert SameProgram(es, 3, |es|) && !Fitting(NEW, es, 3);
  }

  /**
   File b was made when the machine had no network interface, and is appended to when it has one, which counts as
   three.  The stream on standard output is broken, and file b is written to without a lock.
   */
  lemma AppendHistory(now: Clock, stats: StatsBytes, mem: Memory)
    requires now.InRange()
    ensures var es := Story(Plain(0), BASE_FLAG, Plain(3), BASE_FLAG, false, now, stats, mem);
            && AllInRange(es) && Orderly(es) && Before(NEW, es, 4).running
            && !StreamOk(Run(NEW, es).stream)
            && Losing(NEW, es, 3) && !Held(NEW, es, 3) && Before(NEW, es, 4).held != Some(Before(NEW, es, 4).ofile)
  {
    AppendStory(BASE_FLAG, now, stats, mem);
  }

  lemma AppendStory(flag: nat, now: Clock, stats: StatsBytes, mem: Memory)
    requires now.InRange() && flag <= BASE_FLAG
    ensures var es := Story(Plain(0), flag, Plain(3), flag, false, now, stats, mem);
            && AllInRange(es) && Orderly(es) && Before(NEW, es, 4).running
            && !StreamOk(Run(NEW, es).stream)
            && Losing(NEW, es, 3) && !Held(NEW, es, 3) && Before(NEW, es, 4).held != Some(Before(NEW, es, 4).ofile)
  {
    var es := Story(Plain(0), flag, Plain(3), flag, false, now, stats, mem);
    StoryInRange(Plain(0), flag, 3, flag, false, now, stats, mem);
    OpensB(Plain(0), flag, 3, flag, false, now, stats, mem);
    AppendEnds(es, flag, now, stats, mem);
  }

  lemma AppendEnds(es: seq<Event>, flag: nat, now: Clock, stats: StatsBytes, mem: Memory)
    requires |es| == 5 && AllInRange(es) && es[3] == RotationToB(Plain(3), now, stats, mem) && !es[4].Start?
    requires AtB(Before(NEW, es, 3), es[3], Plain(0), flag, 3, flag, false, now)
    ensures Before(NEW, es, 4).running && !StreamOk(Run(NEW, es).stream)
    ensures Losing(NEW, es, 3) && !Held(NEW, es, 3) && Before(NEW, es, 4).held != Some(Before(NEW, es, 4).ofile)
  {
    Appends(Before(NEW, es, 3), es[3], flag, now, stats, mem);
    OneMoreEvent(NEW, es, 3);
    LosingNotHeld(NEW, es, 3);
    GuardedNext(Before(NEW, es, 3), es[3]);
    MisfitShows(es);
  }

  /** The rotation of the first history. */
  lemma Appends(w: World, e: Event, flag: nat, now: Clock, stats: StatsBytes, mem: Memory)
    requires e == RotationToB(Plain(3), now, stats, mem) && AtB(w, e, Plain(0), flag, 3, flag, false, now)
    ensures Step(w, e).running && LosesLock(w, e) && Misfit(w, e)
  {
    assert OpeningB(w, e, Plain(0), flag, 3, flag, false, now);
    var u := AtRotation(w, e);
    OpenedCounts(u, Name("b"), now, Granted, ROOM);
    SmallFiled(Opened(u, Name("b"), now, Granted, ROOM), stats, mem);
    RotationGoesOn(w, e);
  }

  lemma RotationGoesOn(w: World, e: Event)
    requires e.Rotation? && Filed(Shown(w, e.stats, e.mem, R_LAST_STATS), e.stats, e.mem, e.lock, e.room).running
    ensures Step(w, e) == Filed(Opened(AtRotation(w, e), e.name, e.now, e.newLock, e.newRoom),
                                e.stats, e.newMem, e.laterLock, e.laterRoom)
  {
  }

  /** With -F, the file of another machine is replaced. */
  lemma Replaces(u: World, name: Name, now: Clock)
    requires u.fOption && HeaderIn(u, name).Some? && HeaderIn(u, name).value.proc != u.c.cpu
    ensures var v := Opened(u, name, now, Granted, ROOM);
            && Planned(u, name).Create? && v.running
            && v.c == u.c.(actflag := HeaderIn(u, name).value.actflag)
  {
    OpenedAsReplaces(u, name, now, HeaderIn(u, name));
  }

  lemma OpenedAsReplaces(u: World, name: Name, now: Clock, h: Option<Header>)
    requires h.Some?
    ensures var v := OpenedAs(u, name, now, Granted, ROOM, h, Create);
            v.running && v.c == u.c.(actflag := h.value.actflag)
  {
  }

  /** A machine of no devices leaves the choice of single interrupts as it is. */
  lemma OneIrqOf(flag: nat, cpu: nat)
    ensures Bit(Begun(flag, Machine(cpu, 0, 0, 0, 0)).actflag, ONE_IRQ) <==> flag / 2 / 2 / 2 / 2 % 2 == 1
  {
    BitOfClearBit(flag, PID, ONE_IRQ);
    FifthBit(flag);
  }

  lemma FifthBit(x: nat)
    ensures Bit(x, ONE_IRQ) <==> x / 2 / 2 / 2 / 2 % 2 == 1
  {
    assert Bit(x, 4) == Bit(x / 2, 3);
    assert Bit(x / 2, 3) == Bit(x / 2 / 2, 2);
    assert Bit(x / 2 / 2, 2) == Bit(x / 2 / 2 / 2, 1);
    assert Bit(x / 2 / 2 / 2, 1) == Bit(x / 2 / 2 / 2 / 2, 0);
  }

  /**
   File b was made with single interrupts by a machine of two processors, and is replaced, by option -F.
   Nothing is appended, and still the stream on standard output is broken.
   */
  lemma ReplaceHistory(now: Clock, stats: StatsBytes, mem: Memory)
    requires now.InRange()
    ensures var es := Story(Machine(1, 0, 0, 0, 0), BASE_FLAG + ONE_IRQ_FLAG, Plain(0), BASE_FLAG, true, now, stats,
                            mem);
            && AllInRange(es) && Orderly(es) && Before(NEW, es, 4).running
            && Planned(AtRotation(Before(NEW, es, 3), es[3]), Name("b")).Create?
            && !StreamOk(Run(NEW, es).stream)
  {
    ReplaceStory(BASE_FLAG + ONE_IRQ_FLAG, BASE_FLAG, now, stats, mem);
  }

  lemma ReplaceStory(flag: nat, begun: nat, now: Clock, stats: StatsBytes, mem: Memory)
    requires now.InRange() && flag <= BASE_FLAG + ONE_IRQ_FLAG && begun <= BASE_FLAG
    requires flag / 2 / 2 / 2 / 2 % 2 == 1 && begun / 2 / 2 / 2 / 2 % 2 == 0
    ensures var es := Story(Machine(1, 0, 0, 0, 0), flag, Plain(0), begun, true, now, stats, mem);
            && AllInRange(es) && Orderly(es) && Before(NEW, es, 4).running
            && Planned(AtRotation(Before(NEW, es, 3), es[3]), Name("b")).Create?
            && !StreamOk(Run(NEW, es).stream)
  {
    var older := Machine(1, 0, 0, 0, 0);
    var es := Story(older, flag, Plain(0), begun, true, now, stats, mem);
    StoryInRange(older, flag, 0, begun, true, now, stats, mem);
    OpensB(older, flag, 0, begun, true, now, stats, mem);
    OneIrqOf(flag, 1);
    OneIrqOf(begun, 0);
    ReplaceEnds(es, flag, begun, now, stats, mem);
  }

  lemma ReplaceEnds(es: seq<Event>, flag: nat, begun: nat, now: Clock, stats: StatsBytes, mem: Memory)
    requires |es| == 5 && AllInRange(es) && es[3] == RotationToB(Plain(0), now, stats, mem) && !es[4].Start?
    requires AtB(Before(NEW, es, 3), es[3], Machine(1, 0, 0, 0, 0), flag, 0, begun, true, now)
    requires Bit(Begun(flag, Machine(1, 0, 0, 0, 0)).actflag, ONE_IRQ) && !Bit(Begun(begun, Plain(0)).actflag, ONE_IRQ)
    ensures Before(NEW, es, 4).running && !StreamOk(Run(NEW, es).stream)
    ensures Planned(AtRotation(Before(NEW, es, 3), es[3]), Name("b")).Create?
  {
    ReplacesB(Before(NEW, es, 3), es[3], flag, begun, now, stats, mem);
    OneMoreEvent(NEW, es, 3);
    MisfitShows(es);
  }

  /** The rotation of the second history. */
  lemma ReplacesB(w: World, e: Event, flag: nat, begun: nat, now: Clock, stats: StatsBytes, mem: Memory)
    requires e == RotationToB(Plain(0), now, stats, mem)
    requires AtB(w, e, Machine(1, 0, 0, 0, 0), flag, 0, begun, true, now)
    requires Bit(Begun(flag, Machine(1, 0, 0, 0, 0)).actflag, ONE_IRQ) && !Bit(Begun(begun, Plain(0)).actflag, ONE_IRQ)
    ensures Step(w, e).running && Planned(AtRotation(w, e), Name("b")).Create? && Misfit(w, e)
  {
    assert OpeningB(w, e, Machine(1, 0, 0, 0, 0), flag, 0, begun, true, now);
    var u := AtRotation(w, e);
    Replaces(u, Name("b"), now);
    SmallFiled(Opened(u, Name("b"), now, Granted, ROOM), stats, mem);
    RotationGoesOn(w, e);
  }
}
