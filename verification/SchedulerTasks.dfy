// One one-time task among any others: what a task still has to go through, step by step and over whole runs, in loops
// that also hold recurring and cron tasks.
module SchedulerTasks {
  import opened SchedulerSpec

  function TaskRef(s: State, id: nat): Ref
    requires id < |s.journal|
  {
    Ref(s.journal[id].cron, s.journal[id].name, id)
  }

  // A one-time task that nobody has stopped or erased before it ran.
  ghost predicate TaskOk(s: State, id: nat) {
    && id < |s.journal| && s.journal[id].kind.SelfRemoving()
    && if s.Live(TaskRef(s, id)) then !s.At(TaskRef(s, id)).cancelled else |s.journal[id].ran| == 1
  }

  // 4: its start is posted; 3: its timer is armed; 2: its wait is over; 1: it has run and its shutdown is posted;
  // 0: it is gone.
  function Remaining(s: State, id: nat): nat
    requires id < |s.journal|
  {
    var ref := TaskRef(s, id);
    if !s.Live(ref) then 0
    else if s.queue[Start(ref)] > 0 then 4
    else if s.At(ref).waits > 0 then 3
    else if s.queue[Fired(ref, false)] > 0 then 2
    else 1
  }

  // The steps that are this task's own: its timer expires, one of its handlers runs, or the shutdown it posted runs.
  predicate Own(s: State, ev: Event, id: nat)
    requires id < |s.journal|
  {
    var ref := TaskRef(s, id);
    match ev
    case Expire(r) => r == ref
    case Handle(h, _) => (Calls(h) && h.ref == ref) || (h == SelfShutdown(ref.name) && s.Live(ref))
    case _ => false
  }

  // Exactly one thing is outstanding for a task until it is gone, and it is gone exactly after it ran once.
  lemma TaskState(s: State, id: nat)
    requires Good(s) && TaskOk(s, id)
    ensures var ref, ran := TaskRef(s, id), s.journal[id].ran;
      && |ran| <= 1
      && (ran == [] ==> s.Live(ref) && s.Posted(ref) + s.At(ref).waits == 1 && s.queue[SelfShutdown(ref.name)] == 0)
      && (ran != [] && s.Live(ref) ==>
           s.Posted(ref) + s.At(ref).waits == 0 && s.queue[SelfShutdown(ref.name)] == 1)
      && (Remaining(s, id) == 0 <==> !s.Live(ref))
      && (Remaining(s, id) >= 2 <==> ran == [])
  {
    var ref := TaskRef(s, id);
    if s.Live(ref) {
      assert EntryOk(s, ref);
      assert s.queue[SelfShutdown(ref.name)] == Owed(s, ref.name);
    }
  }

  ghost predicate SameTask(s: State, t: State, id: nat) {
    && id < |s.journal| && id < |t.journal| && t.journal[id] == s.journal[id]
    && var ref := TaskRef(s, id);
      && (t.Live(ref) <==> s.Live(ref))
      && (s.Live(ref) ==> t.At(ref) == s.At(ref))
      && t.queue[Start(ref)] == s.queue[Start(ref)] && t.queue[Fired(ref, false)] == s.queue[Fired(ref, false)]
  }

  lemma SameTaskKeeps(s: State, t: State, id: nat)
    requires TaskOk(s, id) && SameTask(s, t, id)
    ensures TaskOk(t, id) && Remaining(t, id) == Remaining(s, id)
  {
  }

  lemma OnlyOneRef(s: State, r: Ref, id: nat)
    requires Inv(s) && id < |s.journal| && s.Live(r) && r.id == id
    ensures r == TaskRef(s, id)
  {
    assert EntryOk(s, r);
  }

  lemma ElsewhereSameTask(s: State, t: State, r: Ref, id: nat)
    requires Inv(s) && SameElse(s, t, r) && id < |s.journal| && r != TaskRef(s, id)
    ensures SameTask(s, t, id)
  {
    var ref := TaskRef(s, id);
    if r.id == id { OnlyOneRef(s, r, id); }
    assert Calls(Start(ref)) && Calls(Fired(ref, false));
  }

  lemma RegisterSameTask(s: State, isCron: bool, name: string, kind: Kind, id: nat)
    requires id < |s.journal| && name !in s.Table(isCron)
    ensures SameTask(s, Register(s, isCron, name, kind), id)
  {
  }

  lemma AddSameTask(s: State, ev: Event, id: nat)
    requires id < |s.journal|
    requires ev.AddTask? || ev.AddOneTimeTask? || ev.AddWaitableOneTimeTask? || ev.AddCronTask?
    ensures SameTask(s, Step(s, ev), id)
  {
    match ev
    case AddTask(name, interval, delay) =>
      if name !in s.periodic { RegisterSameTask(s, false, name, Timed(interval, delay, Plain), id); }
    case AddOneTimeTask(name, delay) =>
      if name !in s.periodic { RegisterSameTask(s, false, name, Timed(0, delay, OneTime), id); }
    case AddWaitableOneTimeTask(name, delay) =>
      if name !in s.periodic { RegisterSameTask(s, false, name, Timed(0, delay, Waitable(|s.futures|)), id); }
    case AddCronTask(name) =>
      if name !in s.cron { RegisterSameTask(s, true, name, Cron, id); }
  }

  lemma ShutdownSameTask(s: State, name: string, id: nat)
    requires id < |s.journal| && name != s.journal[id].name
    ensures SameTask(s, ShutdownName(s, name), id)
  {
    hide ShutdownName;
    ShutdownFrame(s, name);
  }

  lemma TimerSameTask(s: State, r: Ref, id: nat)
    requires s.Live(r) && id < |s.journal| && r != TaskRef(s, id)
    ensures SameTask(s, Stop(s, r), id) && SameTask(s, OnExpire(s, r), id)
  {
  }

  lemma PopSameTask(s: State, h: Handler, id: nat)
    requires h in s.queue && !Calls(h) && id < |s.journal|
    ensures SameTask(s, Popped(s, h), id)
  {
  }

  // A handler of the task arms its timer or runs it.
  lemma OwnCall(s: State, h: Handler, o: Outcome, id: nat)
    requires Good(s) && TaskOk(s, id) && h in s.queue && Calls(h) && h.ref == TaskRef(s, id)
    ensures var t := Step(s, Handle(h, o)); TaskOk(t, id) && Remaining(t, id) < Remaining(s, id)
  {
    var ref := h.ref;
    assert Defined(s, h) && EntryOk(s, ref);
    OneTimeCall(s, h, o);
    var t := Popped(s, h);
    ArmFrame(t, ref);
    RunTaskFrame(t, ref, o);
  }

  lemma OneTimeCall(s: State, h: Handler, o: Outcome)
    requires h in s.queue && Calls(h) && s.Live(h.ref)
    requires s.At(h.ref).kind.SelfRemoving() && s.At(h.ref).kind.WellFormed()
    ensures var t := Popped(s, h); var u := Step(s, Handle(h, o));
      (h.Start? && u == Arm(t, h.ref)) || u == RunTask(t, h.ref, o)
  {
    hide Arm, RunTask;
  }

  // The shutdown a task posted removes it, and frees its name in both tables.
  lemma OwnShutdown(s: State, id: nat, o: Outcome)
    requires Good(s) && TaskOk(s, id) && s.Live(TaskRef(s, id)) && SelfShutdown(s.journal[id].name) in s.queue
    ensures var t := Step(s, Handle(SelfShutdown(s.journal[id].name), o));
      && TaskOk(t, id) && Remaining(t, id) == 0 && t.journal[id] == s.journal[id] && |t.journal[id].ran| == 1
      && s.journal[id].name !in t.periodic && s.journal[id].name !in t.cron
  {
    hide ShutdownName, Inv, FutureInv;
    var name := s.journal[id].name;
    TaskState(s, id);
    ShutdownFrame(Popped(s, SelfShutdown(name)), name);
  }

  lemma ForeignShutdown(s: State, name: string, o: Outcome, id: nat)
    requires TaskOk(s, id) && SelfShutdown(name) in s.queue
    requires name != s.journal[id].name || !s.Live(TaskRef(s, id))
    ensures SameTask(s, Step(s, Handle(SelfShutdown(name), o)), id)
  {
    hide ShutdownName;
    var p := Popped(s, SelfShutdown(name));
    PopSameTask(s, SelfShutdown(name), id);
    ShutdownFrame(p, name);
  }

  // No step of anyone else touches the task, and each of its own brings it nearer to its end.
  lemma SparingStep(s: State, ev: Event, id: nat)
    requires Good(s) && TaskOk(s, id) && Enabled(s, ev) && Follows(Sparing(id), s, ev)
    ensures Good(Step(s, ev)) && TaskOk(Step(s, ev), id)
    ensures if Own(s, ev, id) then Remaining(Step(s, ev), id) < Remaining(s, id) else SameTask(s, Step(s, ev), id)
    ensures Remaining(Step(s, ev), id) <= Remaining(s, id)
  {
    PoliteKeepsGood(s, ev);
    hide Good, Polite, Remaining, TaskOk, SameTask;
    if Own(s, ev, id) { OwnStep(s, ev, id); } else {
      OtherStep(s, ev, id);
      SameTaskKeeps(s, Step(s, ev), id);
    }
  }

  lemma OwnStep(s: State, ev: Event, id: nat)
    requires Good(s) && TaskOk(s, id) && Enabled(s, ev) && Own(s, ev, id)
    ensures TaskOk(Step(s, ev), id) && Remaining(Step(s, ev), id) < Remaining(s, id)
  {
    match ev
    case Expire(ref) => assert EntryOk(s, ref);
    case Handle(h, o) =>
      if h.SelfShutdown? { OwnShutdown(s, id, o); } else { OwnCall(s, h, o, id); }
  }

  lemma OtherStep(s: State, ev: Event, id: nat)
    requires Good(s) && TaskOk(s, id) && Enabled(s, ev) && !Own(s, ev, id) && !Disturbs(s, ev, id)
    ensures SameTask(s, Step(s, ev), id)
  {
    hide SameTask;
    match ev
    case Shutdown(name) => ShutdownSameTask(s, name, id);
    case Halt(ref) => TimerSameTask(s, ref, id);
    case Expire(ref) => TimerSameTask(s, ref, id);
    case Handle(h, o) =>
      if h.SelfShutdown? { ForeignShutdown(s, h.name, o, id); }
      else if Calls(h) {
        CallSameElse(s, h, o);
        ElsewhereSameTask(s, Step(s, ev), h.ref, id);
      } else {
        PopSameTask(s, h, id);
      }
    case _ => AddSameTask(s, ev, id);
  }

  // A task that is not gone always has a step of its own that the loop can take, whatever else is in the loop.
  lemma TaskCanStep(s: State, id: nat) returns (ev: Event)
    requires Good(s) && TaskOk(s, id) && Remaining(s, id) > 0
    ensures Enabled(s, ev) && Own(s, ev, id) && Follows(Internal, s, ev) && Follows(Sparing(id), s, ev)
  {
    TaskState(s, id);
    var ref := TaskRef(s, id);
    if s.queue[Start(ref)] > 0 {
      ev := Handle(Start(ref), Completed);
    } else if s.At(ref).waits > 0 {
      ev := Expire(ref);
    } else if s.queue[Fired(ref, false)] > 0 {
      ev := Handle(Fired(ref, false), Completed);
    } else {
      ev := Handle(SelfShutdown(ref.name), Completed);
    }
  }

  ghost function OwnSteps(s: State, evs: seq<Event>, id: nat): nat
    requires id < |s.journal|
    decreases |evs|
  {
    if evs == [] || !Enabled(s, evs[0]) || id >= |Step(s, evs[0]).journal| then 0
    else (if Own(s, evs[0], id) then 1 else 0) + OwnSteps(Step(s, evs[0]), evs[1..], id)
  }

  lemma {:induction false} SparingRun(s: State, evs: seq<Event>, id: nat)
    requires Good(s) && TaskOk(s, id) && Run(Sparing(id), s, evs)
    ensures var t := After(s, evs);
      && Good(t) && TaskOk(t, id)
      && OwnSteps(s, evs, id) + Remaining(t, id) <= Remaining(s, id)
    decreases |evs|
  {
    if evs != [] {
      SparingStep(s, evs[0], id);
      SparingRun(Step(s, evs[0]), evs[1..], id);
    }
  }

  // What is promised of an accepted one-time task, whatever other tasks the loop holds.
  ghost predicate RunsExactlyOnce(s: State, id: nat) {
    && id < |s.journal|
    && var ref, ran := TaskRef(s, id), s.journal[id].ran;
      && |ran| <= 1
      && (ran == [] ==> s.Live(ref) && s.Posted(ref) + s.At(ref).waits == 1)
      && (|ran| == 1 && s.Live(ref) ==> s.queue[SelfShutdown(ref.name)] == 1)
      && (Remaining(s, id) == 0 <==> |ran| == 1 && !s.Live(ref))
  }

  predicate AddsOneTimeTask(s: State, add: Event) {
    (add.AddOneTimeTask? || add.AddWaitableOneTimeTask?) && add.name !in s.periodic
  }

  // From its acceptance on a one-time task takes at most four steps of its own: until then the loop can take the next
  // one, and after the last it has run exactly once and is gone.
  lemma AcceptedTaskRunsOnce(before: seq<Event>, add: Event, evs: seq<Event>)
    requires Run(Courteous, EMPTY, before)
    requires var s := After(EMPTY, before);
      && AddsOneTimeTask(s, add) && Follows(Courteous, s, add)
      && Run(Sparing(|s.journal|), Step(s, add), evs)
    ensures var s := After(EMPTY, before);
      var id, t := |s.journal|, After(Step(s, add), evs);
      && id < |Step(s, add).journal| && RunsExactlyOnce(t, id)
      && OwnSteps(Step(s, add), evs, id) + Remaining(t, id) <= 4
      && (Remaining(t, id) > 0 ==> exists ev :: Enabled(t, ev) && Own(t, ev, id) && Follows(Internal, t, ev))
  {
    var s := After(EMPTY, before);
    EmptyIsGood();
    CourteousRun(EMPTY, before);
    PoliteKeepsGood(s, add);
    var id := |s.journal|;
    NewTask(s, add);
    var u := Step(s, add);
    SparingRun(u, evs, id);
    var t := After(u, evs);
    TaskState(t, id);
    if Remaining(t, id) > 0 { var ev := TaskCanStep(t, id); }
  }

  // ---- tasks that wait before their first run ----

  predicate WaitsFirst(kind: Kind) {
    kind.Cron? || kind.delay > 0
  }

  // Neither run nor on the point of running.
  ghost predicate NotYet(s: State, id: nat) {
    && id < |s.journal| && WaitsFirst(s.journal[id].kind) && s.journal[id].ran == []
    && s.queue[Fired(TaskRef(s, id), false)] == 0
  }

  lemma NotYetSame(s: State, t: State, id: nat)
    requires NotYet(s, id) && id < |t.journal| && t.journal[id] == s.journal[id]
    requires t.queue[Fired(TaskRef(s, id), false)] == s.queue[Fired(TaskRef(s, id), false)]
    ensures NotYet(t, id) && TaskRef(t, id) == TaskRef(s, id)
  {
  }

  lemma NotYetStep(s: State, ev: Event, id: nat)
    requires Inv(s) && NotYet(s, id) && Enabled(s, ev) && ev != Expire(TaskRef(s, id))
    ensures NotYet(Step(s, ev), id) && TaskRef(Step(s, ev), id) == TaskRef(s, id)
  {
    hide Inv, Register, ShutdownName, OnStart, OnFired, NotYet;
    assert id < |s.journal| by { NotYetInJournal(s, id); }
    match ev
    case Shutdown(name) =>
      ShutdownFrame(s, name);
      NotYetSame(s, Step(s, ev), id);
    case Halt(ref) => NotYetSame(s, Step(s, ev), id);
    case Expire(ref) => NotYetSame(s, Step(s, ev), id);
    case Handle(h, o) =>
      if h.SelfShutdown? {
        ShutdownFrame(Popped(s, h), h.name);
        NotYetSame(s, Step(s, ev), id);
      } else if Calls(h) {
        NotYetCall(s, h, o, id);
      } else {
        NotYetSame(s, Step(s, ev), id);
      }
    case _ =>
      AddSameTask(s, ev, id);
      NotYetSame(s, Step(s, ev), id);
  }

  lemma NotYetInJournal(s: State, id: nat)
    requires NotYet(s, id)
    ensures id < |s.journal|
  {
  }

  lemma NotYetCall(s: State, h: Handler, o: Outcome, id: nat)
    requires Inv(s) && NotYet(s, id) && h in s.queue && Calls(h)
    ensures NotYet(Step(s, Handle(h, o)), id) && TaskRef(Step(s, Handle(h, o)), id) == TaskRef(s, id)
  {
    hide Step;
    var t, ref := Step(s, Handle(h, o)), TaskRef(s, id);
    CallSameElse(s, h, o);
    if h.ref == ref {
      assert EntryOk(s, ref);
      FirstStart(s, h, o);
    } else {
      ElsewhereSameTask(s, t, h.ref, id);
      NotYetSame(s, t, id);
    }
  }

  lemma FirstStart(s: State, h: Handler, o: Outcome)
    requires h in s.queue && h.Start? && s.Live(h.ref) && WaitsFirst(s.At(h.ref).kind)
    ensures var t := Step(s, Handle(h, o));
      t.journal == s.journal && t.queue[Fired(h.ref, false)] == s.queue[Fired(h.ref, false)]
  {
  }

  lemma {:induction false} NotYetRun(s: State, evs: seq<Event>, id: nat)
    requires Inv(s) && NotYet(s, id) && Run(Guarded, s, evs) && Expire(TaskRef(s, id)) !in evs
    ensures id < |After(s, evs).journal| && After(s, evs).journal[id].ran == []
    decreases |evs|
  {
    if evs != [] {
      assert evs[0] in evs;
      NotYetStep(s, evs[0], id);
      StepInv(s, evs[0]);
      NotYetRun(Step(s, evs[0]), evs[1..], id);
    }
  }

  // A cron task, and any task with a delay, recurring or not, does not run before its timer has expired.
  lemma FirstRunWaits(before: seq<Event>, add: Event, evs: seq<Event>)
    requires Run(Guarded, EMPTY, before)
    requires var s := After(EMPTY, before);
      && (add.AddTask? || add.AddOneTimeTask? || add.AddWaitableOneTimeTask? || add.AddCronTask?)
      && |Step(s, add).journal| > |s.journal| && Run(Guarded, Step(s, add), evs)
    ensures var s := After(EMPTY, before);
      var id, u := |s.journal|, Step(s, add);
      && (WaitsFirst(u.journal[id].kind) <==> add.AddCronTask? || add.delay > 0)
      && ((add.AddCronTask? || add.delay > 0) && Expire(Ref(add.AddCronTask?, add.name, id)) !in evs ==>
           id < |After(u, evs).journal| && After(u, evs).journal[id].ran == [])
  {
    var s := After(EMPTY, before);
    EmptyIsGood();
    GuardedRun(EMPTY, before);
    StepInv(s, add);
    NewEntry(s, add);
    var id, u := |s.journal|, Step(s, add);
    if (add.AddCronTask? || add.delay > 0) && Expire(TaskRef(u, id)) !in evs { NotYetRun(u, evs, id); }
  }

  lemma NewEntry(s: State, add: Event)
    requires add.AddTask? || add.AddOneTimeTask? || add.AddWaitableOneTimeTask? || add.AddCronTask?
    requires Inv(s) && |Step(s, add).journal| > |s.journal|
    ensures var id, u := |s.journal|, Step(s, add);
      && TaskRef(u, id) == Ref(add.AddCronTask?, add.name, id)
      && (WaitsFirst(u.journal[id].kind) <==> add.AddCronTask? || add.delay > 0)
      && (WaitsFirst(u.journal[id].kind) ==> NotYet(u, id))
  {
    var ref := Ref(add.AddCronTask?, add.name, |s.journal|);
    PostedIsKnown(s, ref);
  }

  lemma PostedIsKnown(s: State, ref: Ref)
    requires Inv(s)
    ensures Fired(ref, false) in s.queue ==> ref.id < |s.journal|
  {
    if Fired(ref, false) in s.queue { assert Defined(s, Fired(ref, false)) && EntryOk(s, ref); }
  }

  lemma EmptyIsGood()
    ensures Good(EMPTY) && OnceInv(EMPTY)
  {
  }

  lemma NewTask(s: State, add: Event)
    requires AddsOneTimeTask(s, add)
    ensures TaskOk(Step(s, add), |s.journal|) && Remaining(Step(s, add), |s.journal|) == 4
  {
  }

  // Without outside shutdowns this holds of every one-time task at once, and a drained loop has freed all their names.
  lemma OneTimeTasksRunOnce(evs: seq<Event>)
    requires Run(Undisturbed, EMPTY, evs)
    ensures var s := After(EMPTY, evs);
      && (forall id: nat | id < |s.journal| && s.journal[id].kind.SelfRemoving() :: RunsExactlyOnce(s, id))
      && (Drained(s) ==>
           && (forall id: nat | id < |s.journal| && s.journal[id].kind.SelfRemoving() :: |s.journal[id].ran| == 1)
           && (forall name <- s.periodic :: !s.periodic[name].kind.SelfRemoving()))
  {
    EmptyIsGood();
    UndisturbedRun(EMPTY, evs);
    var s := After(EMPTY, evs);
    forall id: nat | id < |s.journal| && s.journal[id].kind.SelfRemoving() ensures RunsExactlyOnce(s, id) {
      assert OnceOk(s, id);
      OnceIsTaskOk(s, id);
      TaskState(s, id);
    }
    if Drained(s) { DrainedRanOnce(s); }
  }

  lemma OnceIsTaskOk(s: State, id: nat)
    requires Good(s) && OnceInv(s) && id < |s.journal| && OnceOk(s, id) && s.journal[id].kind.SelfRemoving()
    ensures TaskOk(s, id)
  {
  }
}
