// The task scheduler as a transition system over values: one step for each call from outside, each expiry of a timer
// and each handler that the event loop runs.
module SchedulerSpec {

  // What the body of a task does.
  datatype Outcome = Completed | Threw

  // Whether the task is wrapped to shut itself down, and the future it then settles.
  datatype Job = Plain | OneTime | Waitable(future: nat)

  datatype Kind = Timed(interval: int, delay: int, job: Job) | Cron {
    predicate Recurring() { Cron? || interval > 0 }
    predicate SelfRemoving() { Timed? && !job.Plain? }
    predicate WellFormed() { SelfRemoving() ==> interval == 0 }
  }

  // waits counts the completions its timer still owes; cancelled says that a Stop has taken one away.
  datatype Entry = Entry(id: nat, kind: Kind, waits: nat, cancelled: bool)

  // An entry by identity: a name that is used again gets another id.
  datatype Ref = Ref(cron: bool, name: string, id: nat)

  datatype Handler = Start(ref: Ref) | Fired(ref: Ref, aborted: bool) | SelfShutdown(name: string)

  // The journal of an entry outlives it.
  datatype Life = Life(cron: bool, name: string, kind: Kind, ran: seq<Outcome>)

  datatype Status = Pending | Succeeded | Failed | Broken

  datatype Owner = Nobody | Task(id: nat)

  datatype Future = Future(owner: Owner, status: Status)

  datatype State = State(
    periodic: map<string, Entry>,
    cron: map<string, Entry>,
    queue: multiset<Handler>,  // in any order
    journal: seq<Life>,
    futures: seq<Future>)
  {
    function Table(isCron: bool): map<string, Entry> {
      if isCron then cron else periodic
    }

    function WithTable(isCron: bool, table: map<string, Entry>): State {
      if isCron then this.(cron := table) else this.(periodic := table)
    }

    predicate Live(ref: Ref) {
      ref.name in Table(ref.cron) && Table(ref.cron)[ref.name].id == ref.id
    }

    function At(ref: Ref): Entry
      requires Live(ref)
    {
      Table(ref.cron)[ref.name]
    }

    function Put(ref: Ref, e: Entry): State {
      WithTable(ref.cron, Table(ref.cron)[ref.name := e])
    }

    function Post(h: Handler, n: nat): State {
      this.(queue := queue[h := queue[h] + n])
    }

    function Posted(ref: Ref): nat {
      queue[Start(ref)] + queue[Fired(ref, false)]
    }
  }

  const EMPTY := State(map[], map[], multiset{}, [], [])

  datatype Event =
    | AddTask(name: string, interval: int, delay: int)
    | AddOneTimeTask(name: string, delay: int)
    | AddWaitableOneTimeTask(name: string, delay: int)
    | AddCronTask(name: string)
    | Shutdown(name: string)
    | Halt(ref: Ref)
    | Expire(ref: Ref)
    | Handle(h: Handler, outcome: Outcome)

  predicate Enabled(s: State, ev: Event) {
    match ev
    case Halt(ref) => s.Live(ref)
    case Expire(ref) => s.Live(ref) && s.At(ref).waits > 0
    case Handle(h, _) => h in s.queue
    case _ => true
  }

  // ---- what the code does ----

  function Register(s: State, isCron: bool, name: string, kind: Kind): State {
    var ref := Ref(isCron, name, |s.journal|);
    s.Put(ref, Entry(ref.id, kind, 0, false))
     .Post(Start(ref), 1)
     .(journal := s.journal + [Life(isCron, name, kind, [])])
  }

  function AddWaitable(s: State, name: string, delay: int): State {
    var f := |s.futures|;
    if name in s.periodic then
      s.(futures := s.futures + [Future(Nobody, Broken)])
    else
      Register(s, false, name, Timed(0, delay, Waitable(f)))
        .(futures := s.futures + [Future(Task(|s.journal|), Pending)])
  }

  function Stop(s: State, ref: Ref): State
    requires s.Live(ref)
  {
    var e := s.At(ref);
    s.Put(ref, e.(waits := 0, cancelled := e.cancelled || e.waits > 0)).Post(Fired(ref, true), e.waits)
  }

  function BreakPromise(s: State, kind: Kind): State {
    if kind.Timed? && kind.job.Waitable? && kind.job.future < |s.futures|
       && s.futures[kind.job.future].status == Pending
    then
      var f := kind.job.future;
      s.(futures := s.futures[f := s.futures[f].(status := Broken)])
    else s
  }

  function Erase(s: State, isCron: bool, name: string): State {
    if name !in s.Table(isCron) then s else
    var e := s.Table(isCron)[name];
    var t := Stop(s, Ref(isCron, name, e.id));
    BreakPromise(t.WithTable(isCron, t.Table(isCron) - {name}), e.kind)
  }

  function ShutdownName(s: State, name: string): State {
    Erase(Erase(s, false, name), true, name)
  }

  function Arm(s: State, ref: Ref): State
    requires s.Live(ref)
  {
    var e := s.At(ref);
    s.Put(ref, e.(waits := 1)).Post(Fired(ref, true), e.waits)
  }

  function Verdict(o: Outcome): Status {
    if o == Completed then Succeeded else Failed
  }

  function Record(s: State, id: nat, o: Outcome): State {
    if id < |s.journal| then s.(journal := s.journal[id := s.journal[id].(ran := s.journal[id].ran + [o])]) else s
  }

  // What the wrapper around a task does once the task has ended.
  function Conclude(s: State, name: string, job: Job, o: Outcome): State {
    match job
    case Plain => s
    case OneTime => s.Post(SelfShutdown(name), 1)
    case Waitable(f) =>
      if f < |s.futures| && s.futures[f].status == Pending then
        s.(futures := s.futures[f := s.futures[f].(status := Verdict(o))]).Post(SelfShutdown(name), 1)
      else s
  }

  function RunTask(s: State, ref: Ref, o: Outcome): State
    requires s.Live(ref)
  {
    var kind := s.At(ref).kind;
    var t := Record(s, ref.id, o);
    if kind.Cron? then t else Conclude(t, ref.name, kind.job, o)
  }

  function OnStart(s: State, ref: Ref, o: Outcome): State
    requires s.Live(ref)
  {
    var kind := s.At(ref).kind;
    if kind.Cron? || kind.delay > 0 then Arm(s, ref)
    else if kind.interval > 0 then Arm(RunTask(s, ref, o), ref)
    else RunTask(s, ref, o)
  }

  function OnFired(s: State, ref: Ref, o: Outcome): State
    requires s.Live(ref)
  {
    if s.At(ref).kind.Recurring() then Arm(RunTask(s, ref, o), ref) else RunTask(s, ref, o)
  }

  predicate Defined(s: State, h: Handler) {
    h.SelfShutdown? || (h.Fired? && h.aborted) || s.Live(h.ref)
  }

  function OnHandler(s: State, h: Handler, o: Outcome): State
    requires Defined(s, h)
  {
    match h
    case Start(ref) => OnStart(s, ref, o)
    case Fired(ref, aborted) => if aborted then s else OnFired(s, ref, o)
    case SelfShutdown(name) => ShutdownName(s, name)
  }

  function OnExpire(s: State, ref: Ref): State
    requires s.Live(ref)
  {
    var e := s.At(ref);
    s.Put(ref, e.(waits := 0)).Post(Fired(ref, false), e.waits)
  }

  function Step(s: State, ev: Event): State
    requires Enabled(s, ev)
  {
    match ev
    case AddTask(name, interval, delay) =>
      if name in s.periodic then s else Register(s, false, name, Timed(interval, delay, Plain))
    case AddOneTimeTask(name, delay) =>
      if name in s.periodic then s else Register(s, false, name, Timed(0, delay, OneTime))
    case AddWaitableOneTimeTask(name, delay) => AddWaitable(s, name, delay)
    case AddCronTask(name) =>
      if name in s.cron then s else Register(s, true, name, Cron)
    case Shutdown(name) => ShutdownName(s, name)
    case Halt(ref) => Stop(s, ref)
    case Expire(ref) => OnExpire(s, ref)
    case Handle(h, o) =>
      var t := Popped(s, h);
      if Defined(t, h) then OnHandler(t, h, o) else t
  }

  // ---- invariants ----

  ghost predicate EntryOk(s: State, ref: Ref)
    requires s.Live(ref)
  {
    var e := s.At(ref);
    var load := s.Posted(ref) + e.waits;
    && ref.id < |s.journal|
    && s.journal[ref.id].cron == ref.cron
    && s.journal[ref.id].name == ref.name
    && s.journal[ref.id].kind == e.kind
    && e.kind.WellFormed()
    && (e.kind.Cron? <==> ref.cron)
    && load <= 1
    && (e.cancelled ==> load == 0 && (!e.kind.Recurring() ==> s.journal[ref.id].ran == []))
    && (!e.cancelled ==> if e.kind.Recurring() then load == 1 else load + |s.journal[ref.id].ran| == 1)
  }

  ghost predicate NoDangling(s: State) {
    forall h <- s.queue :: Defined(s, h)
  }

  ghost predicate Inv(s: State) {
    && (forall ref: Ref | s.Live(ref) :: EntryOk(s, ref))
    && NoDangling(s)
  }

  ghost predicate Quiet(s: State, name: string) {
    forall ref: Ref | ref.name == name && s.Live(ref) :: s.Posted(ref) == 0
  }

  lemma RegisterInv(s: State, isCron: bool, name: string, kind: Kind)
    requires Inv(s) && name !in s.Table(isCron)
    requires kind.WellFormed() && (kind.Cron? <==> isCron)
    ensures Inv(Register(s, isCron, name, kind))
  {
    var t := Register(s, isCron, name, kind);
    var me := Ref(isCron, name, |s.journal|);
    forall ref: Ref | t.Live(ref) ensures EntryOk(t, ref) {
      if ref == me {
        assert !s.Live(me);
        assert !Defined(s, Start(me)) && !Defined(s, Fired(me, false));
      } else {
        assert s.Live(ref) && EntryOk(s, ref);
      }
    }
    forall h <- t.queue ensures Defined(t, h) {
      if h != Start(me) { assert h in s.queue && Defined(s, h); }
    }
  }

  // t differs from s only in what belongs to ref, apart from aborted completions and self-posted shutdowns.
  ghost predicate SameElse(s: State, t: State, ref: Ref) {
    && s.Live(ref) && t.Live(ref)
    && t.Table(!ref.cron) == s.Table(!ref.cron)
    && t.Table(ref.cron) == s.Table(ref.cron)[ref.name := t.At(ref)]
    && t.At(ref).kind == s.At(ref).kind
    && |t.journal| == |s.journal|
    && (forall i | 0 <= i < |s.journal| && i != ref.id :: t.journal[i] == s.journal[i])
    && (forall h: Handler | Calls(h) && h.ref != ref :: t.queue[h] == s.queue[h])
  }

  predicate Calls(h: Handler) {
    h.Start? || (h.Fired? && !h.aborted)
  }

  lemma LocalInv(s: State, t: State, ref: Ref)
    requires Inv(s) && SameElse(s, t, ref) && EntryOk(t, ref)
    ensures Inv(t)
  {
    forall r: Ref | t.Live(r) ensures EntryOk(t, r) {
      if r != ref {
        assert s.Live(r) && EntryOk(s, r) && EntryOk(s, ref);
        assert t.At(r) == s.At(r);
        assert t.queue[Start(r)] == s.queue[Start(r)] && t.queue[Fired(r, false)] == s.queue[Fired(r, false)];
      }
    }
    forall h <- t.queue ensures Defined(t, h) {
      if Calls(h) && h.ref != ref { assert h in s.queue && Defined(s, h); }
    }
  }

  lemma StopInv(s: State, ref: Ref)
    requires Inv(s) && s.Live(ref)
    ensures Inv(Stop(s, ref))
  {
    assert EntryOk(s, ref);
    LocalInv(s, Stop(s, ref), ref);
  }

  lemma ExpireInv(s: State, ref: Ref)
    requires Inv(s) && s.Live(ref)
    ensures Inv(OnExpire(s, ref))
  {
    assert EntryOk(s, ref);
    LocalInv(s, OnExpire(s, ref), ref);
  }

  lemma EraseFrame(s: State, isCron: bool, name: string)
    ensures var t := Erase(s, isCron, name);
      && t.Table(isCron) == s.Table(isCron) - {name}
      && t.Table(!isCron) == s.Table(!isCron)
      && t.journal == s.journal
      && (forall h: Handler | !h.Fired? || !h.aborted :: t.queue[h] == s.queue[h])
  {
  }

  lemma ShutdownFrame(s: State, name: string)
    ensures var t := ShutdownName(s, name);
      && t.periodic == s.periodic - {name}
      && t.cron == s.cron - {name}
      && t.journal == s.journal
      && (forall h: Handler | !h.Fired? || !h.aborted :: t.queue[h] == s.queue[h])
  {
    var u := Erase(s, false, name);
    EraseFrame(s, false, name);
    EraseFrame(u, true, name);
    assert u.Table(true) == u.cron && u.Table(false) == u.periodic;
    var t := Erase(u, true, name);
    assert t.Table(true) == t.cron && t.Table(false) == t.periodic;
  }

  lemma ShutdownInv(s: State, name: string)
    requires Inv(s)
    ensures Inv(ShutdownName(s, name)) <==> Quiet(s, name)
    ensures NoDangling(ShutdownName(s, name)) <==> Quiet(s, name)
  {
    ShutdownFrame(s, name);
    var t := ShutdownName(s, name);
    RemovalInv(s, t, name);
  }

  lemma RemovalInv(s: State, t: State, name: string)
    requires Inv(s)
    requires t.periodic == s.periodic - {name} && t.cron == s.cron - {name} && t.journal == s.journal
    requires forall h: Handler | !h.Fired? || !h.aborted :: t.queue[h] == s.queue[h]
    ensures Inv(t) <==> Quiet(s, name)
    ensures NoDangling(t) <==> Quiet(s, name)
  {
    if Quiet(s, name) {
      forall r: Ref | t.Live(r) ensures EntryOk(t, r) {
        assert s.Live(r) && EntryOk(s, r) && t.At(r) == s.At(r);
      }
      forall h <- t.queue ensures Defined(t, h) {
        if Calls(h) {
          assert h in s.queue && Defined(s, h);
        }
      }
    } else {
      var ref: Ref :| ref.name == name && s.Live(ref) && s.Posted(ref) != 0;
      var h := if s.queue[Start(ref)] > 0 then Start(ref) else Fired(ref, false);
      assert h in t.queue && !Defined(t, h);
    }
  }

  function Popped(s: State, h: Handler): State
    requires h in s.queue
  {
    s.(queue := s.queue[h := s.queue[h] - 1])
  }

  lemma SameElseTrans(s: State, t: State, u: State, ref: Ref)
    requires SameElse(s, t, ref) && SameElse(t, u, ref)
    ensures SameElse(s, u, ref)
  {
  }

  lemma ConcludeFrame(s: State, name: string, job: Job, o: Outcome)
    ensures var t := Conclude(s, name, job, o);
      && t.periodic == s.periodic && t.cron == s.cron && t.journal == s.journal
      && (forall h: Handler | !h.SelfShutdown? :: t.queue[h] == s.queue[h])
  {
  }

  lemma RanSameElse(s: State, t: State, ref: Ref)
    requires s.Live(ref) && t.periodic == s.periodic && t.cron == s.cron
    requires |t.journal| == |s.journal|
    requires forall i | 0 <= i < |s.journal| && i != ref.id :: t.journal[i] == s.journal[i]
    requires forall h: Handler | !h.SelfShutdown? :: t.queue[h] == s.queue[h]
    ensures SameElse(s, t, ref)
  {
  }

  lemma RunTaskFrame(s: State, ref: Ref, o: Outcome)
    requires s.Live(ref) && ref.id < |s.journal|
    ensures var t := RunTask(s, ref, o);
      && t.periodic == s.periodic && t.cron == s.cron
      && t.journal == s.journal[ref.id := s.journal[ref.id].(ran := s.journal[ref.id].ran + [o])]
      && (forall h: Handler | !h.SelfShutdown? :: t.queue[h] == s.queue[h])
      && SameElse(s, t, ref)
  {
    var kind := s.At(ref).kind;
    var r := Record(s, ref.id, o);
    if kind.Timed? { ConcludeFrame(r, ref.name, kind.job, o); }
    var t := RunTask(s, ref, o);
    assert t == if kind.Cron? then r else Conclude(r, ref.name, kind.job, o);
    RanSameElse(s, t, ref);
  }

  lemma ArmFrame(s: State, ref: Ref)
    requires s.Live(ref)
    ensures var t := Arm(s, ref);
      && SameElse(s, t, ref)
      && t.At(ref) == s.At(ref).(waits := 1)
      && t.journal == s.journal
      && t.Posted(ref) == s.Posted(ref)
  {
  }

  // A handler of a live entry that runs the task, or re-arms the timer, or both, leaves the entry well kept.
  lemma CallInv(s: State, h: Handler, o: Outcome, run: bool, arm: bool)
    requires Inv(s) && h in s.queue && Calls(h) && (run || arm)
    requires s.Live(h.ref) && (s.At(h.ref).kind.Recurring() ==> arm)
    requires !s.At(h.ref).kind.Recurring() ==> run != arm
    ensures var t := Popped(s, h);
      var u := if run then RunTask(t, h.ref, o) else t;
      Inv(if arm then Arm(u, h.ref) else u)
  {
    var ref := h.ref;
    var t := Popped(s, h);
    assert EntryOk(s, ref);
    assert SameElse(s, t, ref);
    var u := if run then RunTask(t, ref, o) else t;
    if run { RunTaskFrame(t, ref, o); SameElseTrans(s, t, u, ref); }
    assert SameElse(s, u, ref) && u.At(ref) == s.At(ref);
    assert u.Posted(ref) == s.Posted(ref) - 1;
    if arm { ArmFrame(u, ref); SameElseTrans(s, u, Arm(u, ref), ref); }
    LocalInv(s, if arm then Arm(u, ref) else u, ref);
  }

  // The events that erase entries, and the name they erase.
  predicate Erasing(ev: Event) {
    ev.Shutdown? || (ev.Handle? && ev.h.SelfShutdown?)
  }

  function Erased(ev: Event): string
    requires Erasing(ev)
  {
    if ev.Shutdown? then ev.name else ev.h.name
  }

  lemma AddInv(s: State, ev: Event)
    requires Inv(s)
    requires ev.AddTask? || ev.AddOneTimeTask? || ev.AddCronTask?
    ensures Inv(Step(s, ev))
  {
    match ev
    case AddTask(name, interval, delay) =>
      if name !in s.periodic { RegisterInv(s, false, name, Timed(interval, delay, Plain)); }
    case AddOneTimeTask(name, delay) =>
      if name !in s.periodic { RegisterInv(s, false, name, Timed(0, delay, OneTime)); }
    case AddCronTask(name) =>
      if name !in s.cron { RegisterInv(s, true, name, Cron); }
  }

  lemma SelfShutdownInv(s: State, name: string)
    requires Inv(s) && SelfShutdown(name) in s.queue
    ensures var t := ShutdownName(Popped(s, SelfShutdown(name)), name);
      && (Inv(t) <==> Quiet(s, name)) && (NoDangling(t) <==> Quiet(s, name))
  {
    var t := Popped(s, SelfShutdown(name));
    SameQueueInv(s, t);
    QuietSame(s, t, name);
    ShutdownInv(t, name);
  }

  lemma HandleInv(s: State, h: Handler, o: Outcome)
    requires Inv(s) && h in s.queue
    ensures var t := Step(s, Handle(h, o));
      && (Inv(t) <==> (h.SelfShutdown? ==> Quiet(s, h.name)))
      && (NoDangling(t) <==> (h.SelfShutdown? ==> Quiet(s, h.name)))
  {
    match h
    case SelfShutdown(name) => SelfShutdownInv(s, name);
    case Start(ref) =>
      assert Defined(s, h);
      var kind := s.At(ref).kind;
      CallInv(s, h, o, !(kind.Cron? || kind.delay > 0), kind.Cron? || kind.delay > 0 || kind.interval > 0);
    case Fired(ref, aborted) =>
      if aborted {
        SameQueueInv(s, Step(s, Handle(h, o)));
      } else {
        assert Defined(s, h);
        CallInv(s, h, o, true, s.At(ref).kind.Recurring());
      }
  }

  lemma StepInv(s: State, ev: Event)
    requires Inv(s) && Enabled(s, ev)
    ensures Inv(Step(s, ev)) <==> (Erasing(ev) ==> Quiet(s, Erased(ev)))
    ensures NoDangling(Step(s, ev)) <==> (Erasing(ev) ==> Quiet(s, Erased(ev)))
  {
    match ev
    case Shutdown(name) => ShutdownInv(s, name);
    case Halt(ref) => StopInv(s, ref);
    case Expire(ref) => ExpireInv(s, ref);
    case AddWaitableOneTimeTask(name, delay) => AddWaitableInv(s, name, delay);
    case Handle(h, o) => HandleInv(s, h, o);
    case _ => AddInv(s, ev);
  }

  lemma QuietSame(s: State, t: State, name: string)
    requires t.periodic == s.periodic && t.cron == s.cron
    requires forall ref: Ref :: t.Posted(ref) == s.Posted(ref)
    ensures Quiet(s, name) <==> Quiet(t, name)
  {
    forall r: Ref ensures t.Live(r) <==> s.Live(r) { }
  }

  // Invariance does not depend on futures or on self-posted shutdowns.
  lemma SameQueueInv(s: State, t: State)
    requires Inv(s)
    requires t.periodic == s.periodic && t.cron == s.cron && t.journal == s.journal
    requires forall ref: Ref ::
      t.queue[Start(ref)] == s.queue[Start(ref)] && t.queue[Fired(ref, false)] == s.queue[Fired(ref, false)]
    ensures Inv(t)
  {
    forall r: Ref | t.Live(r) ensures EntryOk(t, r) { assert s.Live(r) && EntryOk(s, r); }
    forall h <- t.queue ensures Defined(t, h) {
      if h.Start? || (h.Fired? && !h.aborted) { assert h in s.queue && Defined(s, h); }
    }
  }

  lemma AddWaitableInv(s: State, name: string, delay: int)
    requires Inv(s)
    ensures Inv(AddWaitable(s, name, delay))
  {
    var t := AddWaitable(s, name, delay);
    if name in s.periodic {
      SameQueueInv(s, t);
    } else {
      RegisterInv(s, false, name, Timed(0, delay, Waitable(|s.futures|)));
      SameQueueInv(Register(s, false, name, Timed(0, delay, Waitable(|s.futures|))), t);
    }
  }

  // ---- futures ----

  // Futures are only added, and a settled one keeps its status.
  ghost predicate Settles(s: State, t: State) {
    && |s.futures| <= |t.futures|
    && forall f | 0 <= f < |s.futures| && s.futures[f].status != Pending :: t.futures[f] == s.futures[f]
  }

  lemma EraseSettles(s: State, isCron: bool, name: string)
    ensures Settles(s, Erase(s, isCron, name))
  {
  }

  lemma RunTaskSettles(s: State, ref: Ref, o: Outcome)
    requires s.Live(ref)
    ensures Settles(s, RunTask(s, ref, o))
  {
  }

  lemma HandlerSettles(s: State, h: Handler, o: Outcome)
    requires Defined(s, h)
    ensures Settles(s, OnHandler(s, h, o))
  {
    match h
    case SelfShutdown(name) =>
      EraseSettles(s, false, name);
      EraseSettles(Erase(s, false, name), true, name);
    case Start(ref) => RunTaskSettles(s, ref, o);
    case Fired(ref, aborted) => if !aborted { RunTaskSettles(s, ref, o); }
  }

  lemma StepSettles(s: State, ev: Event)
    requires Enabled(s, ev)
    ensures Settles(s, Step(s, ev))
  {
    match ev
    case Handle(h, o) => if Defined(Popped(s, h), h) { HandlerSettles(Popped(s, h), h, o); }
    case Shutdown(name) => HandlerSettles(s, SelfShutdown(name), Completed);
    case _ =>
  }

  function Expected(s: State, id: nat): Status
    requires id < |s.journal|
  {
    var l := s.journal[id];
    if l.ran != [] then Verdict(l.ran[0])
    else if s.Live(Ref(l.cron, l.name, id)) then Pending
    else Broken
  }

  predicate FutureOk(s: State, f: nat)
    requires f < |s.futures|
  {
    match s.futures[f].owner
    case Nobody => s.futures[f].status == Broken
    case Task(id) =>
      && id < |s.journal|
      && s.journal[id].kind.Timed? && s.journal[id].kind.job == Waitable(f)
      && s.futures[f].status == Expected(s, id)
  }

  predicate PromiseOk(s: State, id: nat)
    requires id < |s.journal|
  {
    var kind := s.journal[id].kind;
    kind.Timed? && kind.job.Waitable? ==>
      kind.job.future < |s.futures| && s.futures[kind.job.future].owner == Task(id)
  }

  ghost predicate FutureInv(s: State) {
    && (forall f: nat | f < |s.futures| :: FutureOk(s, f))
    && (forall id: nat | id < |s.journal| :: PromiseOk(s, id))
  }

  predicate Known(s: State, ref: Ref)
    requires s.Live(ref)
  {
    && ref.id < |s.journal|
    && s.journal[ref.id].cron == ref.cron
    && s.journal[ref.id].name == ref.name
    && s.journal[ref.id].kind == s.At(ref).kind
  }

  ghost predicate AllKnown(s: State) {
    forall ref: Ref | s.Live(ref) :: Known(s, ref)
  }

  lemma InvKnown(s: State)
    requires Inv(s)
    ensures AllKnown(s)
  {
    forall ref: Ref | s.Live(ref) ensures Known(s, ref) { assert EntryOk(s, ref); }
  }

  lemma RegisterFutures(s: State, isCron: bool, name: string, kind: Kind)
    requires AllKnown(s) && FutureInv(s) && name !in s.Table(isCron)
    requires kind.Timed? ==> !kind.job.Waitable?
    ensures FutureInv(Register(s, isCron, name, kind))
  {
    var t := Register(s, isCron, name, kind);
    forall f: nat | f < |t.futures| ensures FutureOk(t, f) { assert FutureOk(s, f); }
    forall id: nat | id < |t.journal| ensures PromiseOk(t, id) { if id < |s.journal| { assert PromiseOk(s, id); } }
  }

  lemma AddWaitableFutures(s: State, name: string, delay: int)
    requires AllKnown(s) && FutureInv(s)
    ensures FutureInv(AddWaitable(s, name, delay))
  {
    hide AddWaitable, FutureOk, PromiseOk;
    var t := AddWaitable(s, name, delay);
    forall f: nat | f < |t.futures| ensures FutureOk(t, f) {
      if f < |s.futures| { assert FutureOk(s, f); }
      FutureAfterAdd(s, name, delay, f);
    }
    forall id: nat | id < |t.journal| ensures PromiseOk(t, id) {
      if id < |s.journal| { assert PromiseOk(s, id); }
      PromiseAfterAdd(s, name, delay, id);
    }
  }

  lemma FutureAfterAdd(s: State, name: string, delay: int, f: nat)
    requires AllKnown(s) && f < |AddWaitable(s, name, delay).futures|
    requires f < |s.futures| ==> FutureOk(s, f)
    ensures FutureOk(AddWaitable(s, name, delay), f)
  {
  }

  lemma PromiseAfterAdd(s: State, name: string, delay: int, id: nat)
    requires id < |AddWaitable(s, name, delay).journal|
    requires id < |s.journal| ==> PromiseOk(s, id)
    ensures PromiseOk(AddWaitable(s, name, delay), id)
  {
  }

  // Steps that leave the journal, the futures and the live references alone.
  lemma SameFutures(s: State, t: State)
    requires FutureInv(s) && t.journal == s.journal && t.futures == s.futures
    requires forall ref: Ref :: t.Live(ref) <==> s.Live(ref)
    ensures FutureInv(t)
  {
    forall f: nat | f < |t.futures| ensures FutureOk(t, f) { assert FutureOk(s, f); }
    forall id: nat | id < |t.journal| ensures PromiseOk(t, id) { assert PromiseOk(s, id); }
  }

  lemma EraseFutures(s: State, isCron: bool, name: string)
    requires FutureInv(s) && AllKnown(s)
    ensures FutureInv(Erase(s, isCron, name)) && AllKnown(Erase(s, isCron, name))
  {
    hide Erase, FutureOk, PromiseOk;
    var t := Erase(s, isCron, name);
    EraseFrame(s, isCron, name);
    EraseKeepsFutures(s, isCron, name);
    forall r: Ref | t.Live(r) ensures Known(t, r) { assert s.Live(r) && Known(s, r); }
    if name in s.Table(isCron) {
      var ref := Ref(isCron, name, s.Table(isCron)[name].id);
      assert s.Live(ref) && Known(s, ref) && PromiseOk(s, ref.id);
      forall f: nat | f < |t.futures| ensures FutureOk(t, f) {
        assert FutureOk(s, f);
        FutureAfterErase(s, isCron, name, f);
      }
      forall id: nat | id < |t.journal| ensures PromiseOk(t, id) {
        assert PromiseOk(s, id);
        PromiseAfterErase(s, isCron, name, id);
      }
    }
  }

  lemma EraseKeepsFutures(s: State, isCron: bool, name: string)
    ensures |Erase(s, isCron, name).futures| == |s.futures|
    ensures name !in s.Table(isCron) ==> Erase(s, isCron, name) == s
  {
  }

  lemma FutureAfterErase(s: State, isCron: bool, name: string, f: nat)
    requires name in s.Table(isCron)
    requires var ref := Ref(isCron, name, s.Table(isCron)[name].id); Known(s, ref) && PromiseOk(s, ref.id)
    requires f < |Erase(s, isCron, name).futures| == |s.futures| && FutureOk(s, f)
    ensures FutureOk(Erase(s, isCron, name), f)
  {
  }

  lemma PromiseAfterErase(s: State, isCron: bool, name: string, id: nat)
    requires name in s.Table(isCron) && id < |Erase(s, isCron, name).journal| == |s.journal| && PromiseOk(s, id)
    ensures PromiseOk(Erase(s, isCron, name), id)
  {
  }

  lemma RunTaskFutures(s: State, ref: Ref, o: Outcome)
    requires FutureInv(s) && AllKnown(s) && s.Live(ref)
    ensures FutureInv(RunTask(s, ref, o)) && AllKnown(RunTask(s, ref, o))
  {
    hide RunTask, FutureOk, PromiseOk, Known;
    var t := RunTask(s, ref, o);
    assert Known(s, ref);
    KnownInJournal(s, ref);
    RunTaskShape(s, ref, o);
    forall r: Ref | t.Live(r) ensures Known(t, r) { assert Known(s, r); StaysKnown(s, ref, o, r); }
    assert PromiseOk(s, ref.id);
    forall f: nat | f < |t.futures| ensures FutureOk(t, f) {
      assert FutureOk(s, f);
      FutureAfterRun(s, ref, o, f);
    }
    forall id: nat | id < |t.journal| ensures PromiseOk(t, id) {
      assert PromiseOk(s, id);
      PromiseAfterRun(s, ref, o, id);
    }
  }

  lemma KnownInJournal(s: State, ref: Ref)
    requires s.Live(ref) && Known(s, ref)
    ensures ref.id < |s.journal|
  {
  }

  function Settled(futures: seq<Future>, kind: Kind, o: Outcome): (r: seq<Future>)
    ensures |r| == |futures|
  {
    if kind.Timed? && kind.job.Waitable? && kind.job.future < |futures|
       && futures[kind.job.future].status == Pending
    then
      futures[kind.job.future := futures[kind.job.future].(status := Verdict(o))]
    else futures
  }

  // What running a task leaves behind, apart from the queue.
  lemma RunTaskShape(s: State, ref: Ref, o: Outcome)
    requires s.Live(ref) && ref.id < |s.journal|
    ensures var t := RunTask(s, ref, o);
      && t.periodic == s.periodic && t.cron == s.cron && t.futures == Settled(s.futures, s.At(ref).kind, o)
      && t.journal == s.journal[ref.id := s.journal[ref.id].(ran := s.journal[ref.id].ran + [o])]
  {
    hide Verdict;
    var kind := s.At(ref).kind;
    var r := Record(s, ref.id, o);
    if kind.Timed? { ConcludeShape(r, ref.name, kind, o); }
  }

  lemma ConcludeShape(s: State, name: string, kind: Kind, o: Outcome)
    requires kind.Timed?
    ensures var t := Conclude(s, name, kind.job, o);
      t.periodic == s.periodic && t.cron == s.cron && t.journal == s.journal && t.futures == Settled(s.futures, kind, o)
  {
    hide Verdict;
  }

  lemma StaysKnown(s: State, ref: Ref, o: Outcome, r: Ref)
    requires s.Live(ref) && ref.id < |s.journal| && s.Live(r) && Known(s, r)
    ensures var t := RunTask(s, ref, o); t.Live(r) && Known(t, r)
  {
    hide RunTask;
    RunTaskShape(s, ref, o);
  }

  lemma FutureAfterRun(s: State, ref: Ref, o: Outcome, f: nat)
    requires s.Live(ref) && Known(s, ref) && PromiseOk(s, ref.id) && f < |s.futures| && FutureOk(s, f)
    ensures var t := RunTask(s, ref, o); f < |t.futures| && FutureOk(t, f)
  {
    hide RunTask;
    RunTaskShape(s, ref, o);
  }

  lemma PromiseAfterRun(s: State, ref: Ref, o: Outcome, id: nat)
    requires s.Live(ref) && ref.id < |s.journal| && id < |s.journal| && PromiseOk(s, id)
    ensures var t := RunTask(s, ref, o); id < |t.journal| && PromiseOk(t, id)
  {
    hide RunTask;
    RunTaskShape(s, ref, o);
  }

  lemma HandlerFutures(s: State, h: Handler, o: Outcome)
    requires FutureInv(s) && AllKnown(s) && Defined(s, h)
    ensures FutureInv(OnHandler(s, h, o))
  {
    match h
    case SelfShutdown(name) =>
      EraseFutures(s, false, name);
      EraseFutures(Erase(s, false, name), true, name);
    case Start(ref) =>
      RunTaskFutures(s, ref, o);
      ArmFutures(s, ref);
      ArmFutures(RunTask(s, ref, o), ref);
    case Fired(ref, aborted) =>
      if !aborted {
        RunTaskFutures(s, ref, o);
        ArmFutures(RunTask(s, ref, o), ref);
      }
  }

  lemma ArmFutures(s: State, ref: Ref)
    requires FutureInv(s) && s.Live(ref)
    ensures FutureInv(Arm(s, ref))
  {
    SameFutures(s, Arm(s, ref));
  }

  lemma StepFutures(s: State, ev: Event)
    requires Inv(s) && FutureInv(s) && Enabled(s, ev)
    ensures FutureInv(Step(s, ev))
  {
    InvKnown(s);
    hide Register, AddWaitable, Stop, OnExpire, OnStart, OnFired, Inv, FutureInv;
    match ev
    case AddTask(name, interval, delay) =>
      if name !in s.periodic { RegisterFutures(s, false, name, Timed(interval, delay, Plain)); }
    case AddOneTimeTask(name, delay) =>
      if name !in s.periodic { RegisterFutures(s, false, name, Timed(0, delay, OneTime)); }
    case AddCronTask(name) =>
      if name !in s.cron { RegisterFutures(s, true, name, Cron); }
    case AddWaitableOneTimeTask(name, delay) => AddWaitableFutures(s, name, delay);
    case Shutdown(name) => HandlerFutures(s, SelfShutdown(name), Completed);
    case Halt(ref) => SameFutures(s, Stop(s, ref));
    case Expire(ref) => SameFutures(s, OnExpire(s, ref));
    case Handle(h, o) =>
      var t := Popped(s, h);
      SameFutures(s, t);
      assert AllKnown(t) by {
        forall ref: Ref | t.Live(ref) ensures Known(t, ref) { assert s.Live(ref) && Known(s, ref); }
      }
      if Defined(t, h) { HandlerFutures(t, h, o); }
  }

  // ---- the shutdown a one-time task posts for itself ----

  predicate SelfRemovingAt(s: State, name: string) {
    name in s.periodic && s.periodic[name].kind.SelfRemoving()
  }

  function Owed(s: State, name: string): nat {
    if SelfRemovingAt(s, name) && s.periodic[name].id < |s.journal| && s.journal[s.periodic[name].id].ran != [] then 1
    else 0
  }

  ghost predicate TagInv(s: State) {
    && (forall name: string :: s.queue[SelfShutdown(name)] == Owed(s, name))
    && (forall name <- s.cron :: !SelfRemovingAt(s, name))
  }

  ghost predicate Polite(s: State, ev: Event) {
    match ev
    case Shutdown(name) => Quiet(s, name) && SelfShutdown(name) !in s.queue
    case AddOneTimeTask(name, _) => name in s.cron ==> name in s.periodic
    case AddWaitableOneTimeTask(name, _) => name in s.cron ==> name in s.periodic
    case AddCronTask(name) => !SelfRemovingAt(s, name)
    case _ => true
  }

  ghost predicate Good(s: State) {
    Inv(s) && TagInv(s) && FutureInv(s)
  }

  // A one-time task that has posted its own shutdown has nothing else outstanding, and no cron task shares its name.
  lemma OwnShutdownIsQuiet(s: State, name: string)
    requires Inv(s) && TagInv(s) && SelfShutdown(name) in s.queue
    ensures Quiet(s, name)
  {
    assert Owed(s, name) == 1;
    forall ref: Ref | ref.name == name && s.Live(ref) ensures s.Posted(ref) == 0 {
      assert !ref.cron;
      assert EntryOk(s, ref);
    }
  }

  lemma PoliteKeepsInv(s: State, ev: Event)
    requires Inv(s) && TagInv(s) && Enabled(s, ev) && Polite(s, ev)
    ensures Inv(Step(s, ev))
  {
    if ev.Handle? && ev.h.SelfShutdown? { OwnShutdownIsQuiet(s, ev.h.name); }
    StepInv(s, ev);
  }

  lemma RegisterTags(s: State, isCron: bool, name: string, kind: Kind)
    requires Inv(s) && TagInv(s) && name !in s.Table(isCron)
    requires kind.Cron? <==> isCron
    requires isCron ==> !SelfRemovingAt(s, name)
    requires kind.SelfRemoving() ==> name !in s.cron
    ensures TagInv(Register(s, isCron, name, kind))
  {
    var t := Register(s, isCron, name, kind);
    forall n: string ensures t.queue[SelfShutdown(n)] == Owed(t, n) {
      assert s.queue[SelfShutdown(n)] == Owed(s, n);
      if n in s.periodic { assert EntryOk(s, Ref(false, n, s.periodic[n].id)); }
    }
  }

  // Steps that leave kinds, journal and posted shutdowns alone.
  lemma SameTags(s: State, t: State)
    requires TagInv(s)
    requires t.periodic.Keys == s.periodic.Keys && t.cron.Keys == s.cron.Keys && t.journal == s.journal
    requires forall n <- s.periodic :: t.periodic[n].kind == s.periodic[n].kind && t.periodic[n].id == s.periodic[n].id
    requires forall n: string :: t.queue[SelfShutdown(n)] == s.queue[SelfShutdown(n)]
    ensures TagInv(t)
  {
    forall n: string ensures t.queue[SelfShutdown(n)] == Owed(t, n) {
      assert s.queue[SelfShutdown(n)] == Owed(s, n);
    }
  }

  lemma RemovalTags(s: State, t: State, name: string)
    requires TagInv(s)
    requires t.periodic == s.periodic - {name} && t.cron == s.cron - {name} && t.journal == s.journal
    requires forall n: string | n != name :: t.queue[SelfShutdown(n)] == s.queue[SelfShutdown(n)]
    requires t.queue[SelfShutdown(name)] == 0
    ensures TagInv(t)
  {
    forall n: string ensures t.queue[SelfShutdown(n)] == Owed(t, n) {
      assert s.queue[SelfShutdown(n)] == Owed(s, n);
    }
  }

  // The first run of a one-time task posts its shutdown: its promise, if it has one, is still pending.
  lemma RunTaskTags(s: State, ref: Ref, o: Outcome)
    requires TagInv(s) && FutureInv(s) && s.Live(ref) && Known(s, ref)
    requires s.At(ref).kind.Cron? <==> ref.cron
    requires s.At(ref).kind.SelfRemoving() ==> s.journal[ref.id].ran == []
    requires forall r: Ref | s.Live(r) && r.id == ref.id :: r == ref
    ensures TagInv(RunTask(s, ref, o))
  {
    var t := RunTask(s, ref, o);
    var kind := s.At(ref).kind;
    RunTaskFrame(s, ref, o);
    if kind.Timed? && kind.job.Waitable? {
      assert PromiseOk(s, ref.id) && FutureOk(s, kind.job.future);
    }
    forall n: string ensures t.queue[SelfShutdown(n)] == Owed(t, n) {
      assert s.queue[SelfShutdown(n)] == Owed(s, n);
      if n in s.periodic && n != ref.name { assert s.Live(Ref(false, n, s.periodic[n].id)); }
    }
  }

  lemma ArmTags(s: State, ref: Ref)
    requires TagInv(s) && s.Live(ref)
    ensures TagInv(Arm(s, ref))
  {
    SameTags(s, Arm(s, ref));
  }

  lemma PoppedCall(s: State, h: Handler)
    requires Good(s) && h in s.queue && Calls(h)
    ensures var t := Popped(s, h);
      && TagInv(t) && FutureInv(t) && t.Live(h.ref) && Known(t, h.ref)
      && (t.At(h.ref).kind.Cron? <==> h.ref.cron)
      && (t.At(h.ref).kind.SelfRemoving() ==> t.journal[h.ref.id].ran == [])
      && (forall r: Ref | t.Live(r) && r.id == h.ref.id :: r == h.ref)
  {
    assert Defined(s, h);
    var t := Popped(s, h);
    assert EntryOk(s, h.ref);
    SameTags(s, t);
    SameFutures(s, t);
    forall r: Ref | t.Live(r) && r.id == h.ref.id ensures r == h.ref { assert s.Live(r) && EntryOk(s, r); }
  }

  // A called handler re-arms the timer, runs the task, or runs the task and then re-arms the timer.
  lemma CallCases(s: State, h: Handler, o: Outcome)
    requires h in s.queue && Calls(h) && s.Live(h.ref)
    ensures var t := Popped(s, h); var u := Step(s, Handle(h, o));
      u == Arm(t, h.ref) || u == RunTask(t, h.ref, o) || u == Arm(RunTask(t, h.ref, o), h.ref)
  {
  }

  lemma CallTags(s: State, h: Handler, o: Outcome)
    requires Good(s) && h in s.queue && Calls(h)
    ensures TagInv(Step(s, Handle(h, o)))
  {
    hide TagInv, Step, Arm;
    PoppedCall(s, h);
    CallCases(s, h, o);
    var t := Popped(s, h);
    RunTaskTags(t, h.ref, o);
    ArmTags(t, h.ref);
    ArmTags(RunTask(t, h.ref, o), h.ref);
  }

  lemma StepTags(s: State, ev: Event)
    requires Good(s) && Enabled(s, ev) && Polite(s, ev)
    ensures TagInv(Step(s, ev))
  {
    hide Register, ShutdownName, OnStart, OnFired, Inv, NoDangling;
    match ev
    case AddTask(name, interval, delay) =>
      if name !in s.periodic { RegisterTags(s, false, name, Timed(interval, delay, Plain)); }
    case AddOneTimeTask(name, delay) =>
      if name !in s.periodic { RegisterTags(s, false, name, Timed(0, delay, OneTime)); }
    case AddCronTask(name) =>
      if name !in s.cron { RegisterTags(s, true, name, Cron); }
    case AddWaitableOneTimeTask(name, delay) =>
      if name in s.periodic { SameTags(s, Step(s, ev)); }
      else {
        var t := Register(s, false, name, Timed(0, delay, Waitable(|s.futures|)));
        RegisterTags(s, false, name, Timed(0, delay, Waitable(|s.futures|)));
        SameTags(t, Step(s, ev));
      }
    case Shutdown(name) =>
      ShutdownFrame(s, name);
      RemovalTags(s, ShutdownName(s, name), name);
    case Halt(ref) => SameTags(s, Stop(s, ref));
    case Expire(ref) => SameTags(s, OnExpire(s, ref));
    case Handle(h, o) =>
      if h.SelfShutdown? {
        assert s.queue[h] == Owed(s, h.name);
        ShutdownFrame(Popped(s, h), h.name);
        RemovalTags(s, ShutdownName(Popped(s, h), h.name), h.name);
      } else if h.Fired? && h.aborted {
        SameTags(s, Popped(s, h));
      } else {
        CallTags(s, h, o);
      }
  }

  lemma PoliteKeepsGood(s: State, ev: Event)
    requires Good(s) && Enabled(s, ev) && Polite(s, ev)
    ensures Good(Step(s, ev))
  {
    PoliteKeepsInv(s, ev);
    StepTags(s, ev);
    StepFutures(s, ev);
  }

  // ---- runs ----

  datatype Policy = Free | Guarded | Courteous | Undisturbed | Sparing(id: nat) | Internal

  // Stops the timer of one task, or shuts its name down from outside.
  predicate Disturbs(s: State, ev: Event, id: nat) {
    match ev
    case Halt(ref) => ref.id == id
    case Shutdown(name) => id < |s.journal| && name == s.journal[id].name
    case _ => false
  }

  ghost predicate Follows(p: Policy, s: State, ev: Event) {
    match p
    case Free => true
    case Guarded => Erasing(ev) ==> Quiet(s, Erased(ev))
    case Courteous => Polite(s, ev)
    case Undisturbed => Polite(s, ev) && !ev.Shutdown? && !ev.Halt?
    case Sparing(id) => Polite(s, ev) && !Disturbs(s, ev, id)
    case Internal => ev.Expire? || ev.Handle?
  }

  ghost predicate Run(p: Policy, s: State, evs: seq<Event>)
    decreases |evs|
  {
    evs == [] || (Enabled(s, evs[0]) && Follows(p, s, evs[0]) && Run(p, Step(s, evs[0]), evs[1..]))
  }

  ghost function After(s: State, evs: seq<Event>): State
    decreases |evs|
  {
    if evs == [] || !Enabled(s, evs[0]) then s else After(Step(s, evs[0]), evs[1..])
  }

  ghost predicate NeverDangles(s: State, evs: seq<Event>)
    decreases |evs|
  {
    NoDangling(s) && (evs == [] || (Enabled(s, evs[0]) && NeverDangles(Step(s, evs[0]), evs[1..])))
  }

  lemma {:induction false} GuardedRun(s: State, evs: seq<Event>)
    requires Inv(s) && Run(Guarded, s, evs)
    ensures Inv(After(s, evs))
    decreases |evs|
  {
    if evs != [] {
      StepInv(s, evs[0]);
      GuardedRun(Step(s, evs[0]), evs[1..]);
    }
  }

  lemma {:induction false} SafeIffGuarded(s: State, evs: seq<Event>)
    requires Inv(s) && Run(Free, s, evs)
    ensures NeverDangles(s, evs) <==> Run(Guarded, s, evs)
    decreases |evs|
  {
    if evs != [] {
      StepInv(s, evs[0]);
      var t := Step(s, evs[0]);
      if Inv(t) {
        SafeIffGuarded(t, evs[1..]);
      } else {
        assert !NeverDangles(t, evs[1..]);
      }
    }
  }

  lemma {:induction false} CourteousRun(s: State, evs: seq<Event>)
    requires Good(s) && Run(Courteous, s, evs)
    ensures Good(After(s, evs)) && Run(Guarded, s, evs)
    decreases |evs|
  {
    if evs != [] {
      PoliteKeepsGood(s, evs[0]);
      StepInv(s, evs[0]);
      CourteousRun(Step(s, evs[0]), evs[1..]);
    }
  }

  // ---- one-time tasks run exactly once ----

  predicate OnceOk(s: State, id: nat)
    requires id < |s.journal|
  {
    var l := s.journal[id];
    l.kind.SelfRemoving() ==> |l.ran| <= 1 && (l.ran == [] ==> s.Live(Ref(l.cron, l.name, id)))
  }

  ghost predicate OnceInv(s: State) {
    && (forall ref: Ref | s.Live(ref) :: !s.At(ref).cancelled)
    && (forall id: nat | id < |s.journal| :: OnceOk(s, id))
  }

  lemma RegisterOnce(s: State, isCron: bool, name: string, kind: Kind)
    requires Inv(s) && OnceInv(s) && name !in s.Table(isCron)
    ensures OnceInv(Register(s, isCron, name, kind))
  {
    var t := Register(s, isCron, name, kind);
    forall ref: Ref | t.Live(ref) ensures !t.At(ref).cancelled {
      if ref != Ref(isCron, name, |s.journal|) { assert s.Live(ref); }
    }
    forall id: nat | id < |t.journal| ensures OnceOk(t, id) {
      if id < |s.journal| { assert OnceOk(s, id); }
    }
  }

  lemma SameOnce(s: State, t: State)
    requires OnceInv(s) && t.journal == s.journal
    requires forall ref: Ref :: t.Live(ref) <==> s.Live(ref)
    requires forall ref: Ref | t.Live(ref) :: t.At(ref).cancelled == s.At(ref).cancelled
    ensures OnceInv(t)
  {
    forall id: nat | id < |t.journal| ensures OnceOk(t, id) { assert OnceOk(s, id); }
  }

  lemma RunTaskOnce(s: State, ref: Ref, o: Outcome)
    requires OnceInv(s) && s.Live(ref) && Known(s, ref)
    requires s.At(ref).kind.SelfRemoving() ==> s.journal[ref.id].ran == []
    ensures OnceInv(RunTask(s, ref, o))
  {
    var t := RunTask(s, ref, o);
    RunTaskFrame(s, ref, o);
    forall r: Ref | t.Live(r) ensures !t.At(r).cancelled { assert s.Live(r); }
    forall id: nat | id < |t.journal| ensures OnceOk(t, id) { assert OnceOk(s, id); }
  }

  lemma ArmOnce(s: State, ref: Ref)
    requires OnceInv(s) && s.Live(ref)
    ensures OnceInv(Arm(s, ref))
  {
    SameOnce(s, Arm(s, ref));
  }

  lemma CallOnce(s: State, h: Handler, o: Outcome)
    requires Good(s) && OnceInv(s) && h in s.queue && Calls(h)
    ensures OnceInv(Step(s, Handle(h, o)))
  {
    PoppedCall(s, h);
    CallCases(s, h, o);
    var t := Popped(s, h);
    SameOnce(s, t);
    RunTaskOnce(t, h.ref, o);
    ArmOnce(t, h.ref);
    ArmOnce(RunTask(t, h.ref, o), h.ref);
  }

  // Only a self-posted shutdown removes entries here, and it removes a task that has run.
  lemma SelfShutdownOnce(s: State, name: string)
    requires Good(s) && OnceInv(s) && SelfShutdown(name) in s.queue
    ensures OnceInv(ShutdownName(Popped(s, SelfShutdown(name)), name))
  {
    var t := ShutdownName(Popped(s, SelfShutdown(name)), name);
    ShutdownFrame(Popped(s, SelfShutdown(name)), name);
    assert s.queue[SelfShutdown(name)] == Owed(s, name);
    forall r: Ref | t.Live(r) ensures !t.At(r).cancelled { assert s.Live(r); }
    forall id: nat | id < |t.journal| ensures OnceOk(t, id) { assert OnceOk(s, id); }
  }

  lemma StepOnce(s: State, ev: Event)
    requires Good(s) && OnceInv(s) && Enabled(s, ev) && Follows(Undisturbed, s, ev)
    ensures OnceInv(Step(s, ev))
  {
    match ev
    case AddTask(name, interval, delay) =>
      if name !in s.periodic { RegisterOnce(s, false, name, Timed(interval, delay, Plain)); }
    case AddOneTimeTask(name, delay) =>
      if name !in s.periodic { RegisterOnce(s, false, name, Timed(0, delay, OneTime)); }
    case AddCronTask(name) =>
      if name !in s.cron { RegisterOnce(s, true, name, Cron); }
    case AddWaitableOneTimeTask(name, delay) =>
      if name in s.periodic { SameOnce(s, Step(s, ev)); }
      else {
        var t := Register(s, false, name, Timed(0, delay, Waitable(|s.futures|)));
        RegisterOnce(s, false, name, Timed(0, delay, Waitable(|s.futures|)));
        SameOnce(t, Step(s, ev));
      }
    case Expire(ref) => SameOnce(s, OnExpire(s, ref));
    case Handle(h, o) =>
      if h.SelfShutdown? { SelfShutdownOnce(s, h.name); }
      else if h.Fired? && h.aborted { SameOnce(s, Popped(s, h)); }
      else { CallOnce(s, h, o); }
  }

  lemma {:induction false} UndisturbedRun(s: State, evs: seq<Event>)
    requires Good(s) && OnceInv(s) && Run(Undisturbed, s, evs)
    ensures Good(After(s, evs)) && OnceInv(After(s, evs))
    decreases |evs|
  {
    if evs != [] {
      PoliteKeepsGood(s, evs[0]);
      StepOnce(s, evs[0]);
      UndisturbedRun(Step(s, evs[0]), evs[1..]);
    }
  }

  ghost predicate Drained(s: State) {
    s.queue == multiset{} && forall ref: Ref | s.Live(ref) :: s.At(ref).waits == 0
  }

  lemma NotDrainedCanStep(s: State) returns (ev: Event)
    requires NoDangling(s) && !Drained(s)
    ensures Enabled(s, ev) && Follows(Internal, s, ev)
  {
    if s.queue != multiset{} {
      var h :| h in s.queue;
      ev := Handle(h, Completed);
    } else {
      var ref: Ref :| s.Live(ref) && s.At(ref).waits != 0;
      ev := Expire(ref);
    }
  }

  lemma DrainedRanOnce(s: State)
    requires Good(s) && OnceInv(s) && Drained(s)
    ensures forall id: nat | id < |s.journal| && s.journal[id].kind.SelfRemoving() :: |s.journal[id].ran| == 1
    ensures forall name <- s.periodic :: !s.periodic[name].kind.SelfRemoving()
  {
    InvKnown(s);
    forall name <- s.periodic ensures !s.periodic[name].kind.SelfRemoving() {
      var ref := Ref(false, name, s.periodic[name].id);
      assert s.Live(ref) && EntryOk(s, ref);
      assert s.queue[SelfShutdown(name)] == Owed(s, name);
    }
    forall id: nat | id < |s.journal| && s.journal[id].kind.SelfRemoving() ensures |s.journal[id].ran| == 1 {
      assert OnceOk(s, id);
    }
  }

  // ---- the loop drains ----

  ghost function Sum(m: map<string, nat>): nat {
    if m == map[] then 0 else
    var k :| k in m;
    m[k] + Sum(m - {k})
  }

  lemma {:induction false} SumTake(m: map<string, nat>, k: string)
    requires k in m
    ensures Sum(m) == m[k] + Sum(m - {k})
  {
    var j :| j in m && Sum(m) == m[j] + Sum(m - {j});
    if j != k {
      SumTake(m - {j}, k);
      SumTake(m - {k}, j);
      assert m - {j} - {k} == m - {k} - {j};
    }
  }

  function Rank(s: State, name: string): nat
    requires name in s.periodic
  {
    var e := s.periodic[name];
    var ref := Ref(false, name, e.id);
    if s.queue[Start(ref)] > 0 then 3
    else if e.waits > 0 then 2
    else if s.queue[Fired(ref, false)] > 0 then 1
    else 0
  }

  function Ranks(s: State): map<string, nat> {
    map name | name in s.periodic :: Rank(s, name)
  }

  ghost function Potential(s: State): nat {
    2 * Sum(Ranks(s)) + |s.queue|
  }

  predicate OneShotsOnly(s: State) {
    s.cron == map[] && forall name <- s.periodic :: !s.periodic[name].kind.Recurring()
  }

  lemma OtherRank(s: State, t: State, ref: Ref, n: string)
    requires SameElse(s, t, ref) && !ref.cron && n in s.periodic && n != ref.name
    ensures n in t.periodic && Rank(t, n) == Rank(s, n)
  {
    var r := Ref(false, n, s.periodic[n].id);
    assert Calls(Start(r)) && Calls(Fired(r, false));
  }

  lemma LowerOne(s: State, t: State, ref: Ref)
    requires Inv(s) && SameElse(s, t, ref) && !ref.cron
    requires 2 * Rank(t, ref.name) + |t.queue| < 2 * Rank(s, ref.name) + |s.queue|
    ensures Potential(t) < Potential(s)
  {
    SamePeriodicNames(s, t, ref);
    hide Inv, SameElse, Rank, Sum;
    forall n <- s.periodic | n != ref.name ensures Rank(t, n) == Rank(s, n) { OtherRank(s, t, ref, n); }
    assert Ranks(t) - {ref.name} == Ranks(s) - {ref.name};
    SumTake(Ranks(s), ref.name);
    SumTake(Ranks(t), ref.name);
  }

  lemma SamePeriodicNames(s: State, t: State, ref: Ref)
    requires SameElse(s, t, ref) && !ref.cron
    ensures ref.name in s.periodic && t.periodic.Keys == s.periodic.Keys
  {
  }

  lemma RunTaskPosts(s: State, ref: Ref, o: Outcome)
    requires s.Live(ref)
    ensures |RunTask(s, ref, o).queue| <= |s.queue| + 1
  {
  }

  lemma ArmLowers(s: State, ref: Ref)
    requires Good(s) && Start(ref) in s.queue && !ref.cron && s.Live(ref)
    ensures Potential(Arm(Popped(s, Start(ref)), ref)) < Potential(s)
  {
    var t := Popped(s, Start(ref));
    assert EntryOk(s, ref);
    ArmFrame(t, ref);
    SameElseTrans(s, t, Arm(t, ref), ref);
    LowerOne(s, Arm(t, ref), ref);
  }

  lemma RunLowers(s: State, h: Handler, o: Outcome)
    requires Good(s) && h in s.queue && Calls(h) && !h.ref.cron && s.Live(h.ref)
    ensures Potential(RunTask(Popped(s, h), h.ref, o)) < Potential(s)
  {
    var t := Popped(s, h);
    assert EntryOk(s, h.ref);
    RunTaskFrame(t, h.ref, o);
    RunTaskPosts(t, h.ref, o);
    SameElseTrans(s, t, RunTask(t, h.ref, o), h.ref);
    LowerOne(s, RunTask(t, h.ref, o), h.ref);
  }

  lemma ExpireLowers(s: State, ref: Ref)
    requires Good(s) && !ref.cron && s.Live(ref) && s.At(ref).waits > 0
    ensures Potential(OnExpire(s, ref)) < Potential(s)
  {
    assert EntryOk(s, ref);
    LowerOne(s, OnExpire(s, ref), ref);
  }

  lemma IdleShutdownPostsNothing(s: State, name: string)
    requires name in s.periodic && s.periodic[name].waits == 0 && name !in s.cron
    ensures ShutdownName(s, name).queue == s.queue
  {
  }

  lemma RemovalLowers(s: State, t: State, name: string)
    requires name in s.periodic && t.periodic == s.periodic - {name}
    requires |t.queue| < |s.queue|
    requires forall h: Handler | Calls(h) :: t.queue[h] == s.queue[h]
    ensures Potential(t) < Potential(s)
  {
    assert Ranks(t) == Ranks(s) - {name};
    SumTake(Ranks(s), name);
  }

  lemma SelfShutdownLowers(s: State, name: string)
    requires Good(s) && OneShotsOnly(s) && SelfShutdown(name) in s.queue
    ensures Potential(ShutdownName(Popped(s, SelfShutdown(name)), name)) < Potential(s)
  {
    var p := Popped(s, SelfShutdown(name));
    assert s.queue[SelfShutdown(name)] == Owed(s, name);
    var ref := Ref(false, name, s.periodic[name].id);
    assert s.Live(ref) && EntryOk(s, ref);
    IdleShutdownPostsNothing(p, name);
    ShutdownFrame(p, name);
    RemovalLowers(s, ShutdownName(p, name), name);
  }

  lemma AbortedLowers(s: State, h: Handler)
    requires h in s.queue && h.Fired? && h.aborted
    ensures Potential(Popped(s, h)) < Potential(s)
  {
    assert Ranks(Popped(s, h)) == Ranks(s);
  }

  lemma InternalLowers(s: State, ev: Event)
    requires Good(s) && OneShotsOnly(s) && Enabled(s, ev) && Follows(Internal, s, ev)
    ensures Potential(Step(s, ev)) < Potential(s)
  {
    match ev
    case Expire(ref) => ExpireLowers(s, ref);
    case Handle(h, o) =>
      match h {
        case SelfShutdown(name) => SelfShutdownLowers(s, name);
        case Start(ref) =>
          assert Defined(s, h);
          ArmLoop(s, h, o);
        case Fired(ref, aborted) =>
          if aborted { AbortedLowers(s, h); } else { assert Defined(s, h); ArmLoop(s, h, o); }
      }
  }

  lemma ArmLoop(s: State, h: Handler, o: Outcome)
    requires Good(s) && OneShotsOnly(s) && h in s.queue && Calls(h) && s.Live(h.ref)
    ensures Potential(Step(s, Handle(h, o))) < Potential(s)
  {
    hide Step, Good, OneShotsOnly, Potential, Arm, RunTask;
    OneShotCall(s, h, o);
    if h.Start? { ArmLowers(s, h.ref); }
    RunLowers(s, h, o);
  }

  lemma OneShotCall(s: State, h: Handler, o: Outcome)
    requires OneShotsOnly(s) && h in s.queue && Calls(h) && s.Live(h.ref)
    ensures !h.ref.cron
    ensures var t, kind := Popped(s, h), s.At(h.ref).kind;
      Step(s, Handle(h, o))
        == if h.Start? && (kind.Cron? || kind.delay > 0) then Arm(t, h.ref) else RunTask(t, h.ref, o)
  {
    hide Arm, RunTask;
  }

  lemma InternalOneShots(s: State, ev: Event)
    requires OneShotsOnly(s) && Enabled(s, ev) && Follows(Internal, s, ev)
    ensures OneShotsOnly(Step(s, ev))
  {
    if ev.Handle? && ev.h.SelfShutdown? { ShutdownFrame(Popped(s, ev.h), ev.h.name); }
  }

  lemma {:induction false} LoopDrains(s: State, evs: seq<Event>)
    requires Good(s) && OneShotsOnly(s) && Run(Internal, s, evs)
    ensures |evs| <= Potential(s)
    ensures Good(After(s, evs)) && OneShotsOnly(After(s, evs))
    decreases |evs|
  {
    if evs != [] {
      PoliteKeepsGood(s, evs[0]);
      InternalLowers(s, evs[0]);
      InternalOneShots(s, evs[0]);
      LoopDrains(Step(s, evs[0]), evs[1..]);
    }
  }

  // ---- what the timers and Shutdown() do ----

  // Setting a new expiry never cancels a wait that is still pending.
  lemma RearmCancelsNothing(s: State, h: Handler, o: Outcome)
    requires Inv(s) && h in s.queue && Calls(h)
    ensures forall ref: Ref :: Step(s, Handle(h, o)).queue[Fired(ref, true)] == s.queue[Fired(ref, true)]
  {
    assert Defined(s, h);
    var ref := h.ref;
    assert EntryOk(s, ref);
    var t := Popped(s, h);
    CallCases(s, h, o);
    RunTaskFrame(t, ref, o);
    IdleArmPostsNothing(t, ref);
    IdleArmPostsNothing(RunTask(t, ref, o), ref);
  }

  lemma IdleArmPostsNothing(s: State, ref: Ref)
    requires s.Live(ref) && s.At(ref).waits == 0
    ensures Arm(s, ref).queue == s.queue
  {
  }

  ghost predicate Spent(s: State, id: nat) {
    && id < |s.journal|
    && forall ref: Ref | ref.id == id && s.Live(ref) :: s.Posted(ref) + s.At(ref).waits == 0
  }

  lemma SpentElsewhere(s: State, t: State, ref: Ref, id: nat)
    requires Spent(s, id) && SameElse(s, t, ref) && ref.id != id
    ensures Spent(t, id) && t.journal[id] == s.journal[id]
  {
    forall r: Ref | r.id == id && t.Live(r) ensures t.Posted(r) + t.At(r).waits == 0 {
      assert s.Live(r);
      assert t.queue[Start(r)] == s.queue[Start(r)] && t.queue[Fired(r, false)] == s.queue[Fired(r, false)];
    }
  }

  lemma SpentRemoval(s: State, t: State, id: nat)
    requires Spent(s, id) && t.journal == s.journal
    requires forall r: Ref | t.Live(r) :: s.Live(r) && t.At(r).waits <= s.At(r).waits
    requires forall h: Handler | Calls(h) :: t.queue[h] == s.queue[h]
    ensures Spent(t, id)
  {
    forall r: Ref | r.id == id && t.Live(r) ensures t.Posted(r) + t.At(r).waits == 0 { assert s.Live(r); }
  }

  lemma SpentRegister(s: State, isCron: bool, name: string, kind: Kind, id: nat)
    requires Inv(s) && Spent(s, id) && name !in s.Table(isCron)
    ensures var t := Register(s, isCron, name, kind);
      Spent(t, id) && t.journal[id] == s.journal[id]
  {
    var t := Register(s, isCron, name, kind);
    forall r: Ref | r.id == id && t.Live(r) ensures t.Posted(r) + t.At(r).waits == 0 { assert s.Live(r); }
  }

  // A called handler changes only what belongs to its entry.
  lemma CallSameElse(s: State, h: Handler, o: Outcome)
    requires Inv(s) && h in s.queue && Calls(h)
    ensures s.Live(h.ref) && SameElse(s, Step(s, Handle(h, o)), h.ref)
  {
    assert Defined(s, h) && EntryOk(s, h.ref);
    var t := Popped(s, h);
    CallCases(s, h, o);
    RunTaskFrame(t, h.ref, o);
    var u := RunTask(t, h.ref, o);
    ArmFrame(t, h.ref);
    ArmFrame(u, h.ref);
    SameElseTrans(s, t, u, h.ref);
    SameElseTrans(s, t, Arm(t, h.ref), h.ref);
    SameElseTrans(s, u, Arm(u, h.ref), h.ref);
  }

  lemma SpentCall(s: State, h: Handler, o: Outcome, id: nat)
    requires Inv(s) && Spent(s, id) && h in s.queue && Calls(h)
    ensures var t := Step(s, Handle(h, o));
      Spent(t, id) && t.journal[id] == s.journal[id]
  {
    assert Defined(s, h);
    CallSameElse(s, h, o);
    SpentElsewhere(s, Step(s, Handle(h, o)), h.ref, id);
  }

  lemma SpentAdd(s: State, ev: Event, id: nat)
    requires Inv(s) && Spent(s, id) && (ev.AddTask? || ev.AddOneTimeTask? || ev.AddCronTask?)
    ensures Spent(Step(s, ev), id) && Step(s, ev).journal[id] == s.journal[id]
  {
    match ev
    case AddTask(name, interval, delay) =>
      if name !in s.periodic { SpentRegister(s, false, name, Timed(interval, delay, Plain), id); }
    case AddOneTimeTask(name, delay) =>
      if name !in s.periodic { SpentRegister(s, false, name, Timed(0, delay, OneTime), id); }
    case AddCronTask(name) =>
      if name !in s.cron { SpentRegister(s, true, name, Cron, id); }
  }

  lemma SpentAddWaitable(s: State, name: string, delay: int, id: nat)
    requires Inv(s) && Spent(s, id)
    ensures var t := AddWaitable(s, name, delay); Spent(t, id) && t.journal[id] == s.journal[id]
  {
    var t := AddWaitable(s, name, delay);
    if name in s.periodic {
      SpentRemoval(s, t, id);
    } else {
      var u := Register(s, false, name, Timed(0, delay, Waitable(|s.futures|)));
      SpentRegister(s, false, name, Timed(0, delay, Waitable(|s.futures|)), id);
      SpentRemoval(u, t, id);
    }
  }

  lemma SpentShutdown(s: State, name: string, id: nat)
    requires Spent(s, id)
    ensures var t := ShutdownName(s, name); Spent(t, id) && t.journal == s.journal
  {
    ShutdownFrame(s, name);
    SpentRemoval(s, ShutdownName(s, name), id);
  }

  lemma SpentStep(s: State, ev: Event, id: nat)
    requires Inv(s) && Spent(s, id) && Enabled(s, ev)
    ensures Spent(Step(s, ev), id) && Step(s, ev).journal[id].ran == s.journal[id].ran
  {
    match ev
    case AddWaitableOneTimeTask(name, delay) => SpentAddWaitable(s, name, delay, id);
    case Shutdown(name) => SpentShutdown(s, name, id);
    case Halt(ref) => SpentRemoval(s, Stop(s, ref), id);
    case Expire(ref) => SpentElsewhere(s, OnExpire(s, ref), ref, id);
    case Handle(h, o) =>
      if Calls(h) { SpentCall(s, h, o, id); }
      else {
        SpentRemoval(s, Popped(s, h), id);
        if h.SelfShutdown? { SpentShutdown(Popped(s, h), h.name, id); }
      }
    case _ => SpentAdd(s, ev, id);
  }

  lemma {:induction false} SpentRun(s: State, evs: seq<Event>, id: nat)
    requires Inv(s) && Spent(s, id) && Run(Guarded, s, evs)
    ensures id < |After(s, evs).journal| && After(s, evs).journal[id].ran == s.journal[id].ran
    decreases |evs|
  {
    if evs != [] {
      StepInv(s, evs[0]);
      SpentStep(s, evs[0], id);
      SpentRun(Step(s, evs[0]), evs[1..], id);
    }
  }

  ghost predicate CanRunAgain(s: State, id: nat) {
    exists evs: seq<Event> :: Run(Guarded, s, evs)
      && id < |s.journal| && id < |After(s, evs).journal|
      && After(s, evs).journal[id].ran != s.journal[id].ran
  }

  lemma RunsByHandle(s: State, h: Handler)
    requires Inv(s) && h in s.queue && Calls(h) && s.Live(h.ref)
    requires var kind := s.At(h.ref).kind; h.Fired? || (kind.Timed? && kind.delay <= 0)
    ensures Step(s, Handle(h, Completed)).journal[h.ref.id].ran != s.journal[h.ref.id].ran
    ensures h.ref.id < |s.journal| && CanRunAgain(s, h.ref.id)
  {
    assert EntryOk(s, h.ref);
    RunTaskFrame(Popped(s, h), h.ref, Completed);
    var ev := Handle(h, Completed);
    var t := Step(s, ev);
    assert Run(Guarded, t, []) && After(t, []) == t;
    assert [ev][1..] == [];
    assert Run(Guarded, s, [ev]) && After(s, [ev]) == t;
  }

  lemma CanRunAgainBefore(s: State, ev: Event, id: nat)
    requires Inv(s) && Enabled(s, ev) && Follows(Guarded, s, ev) && id < |s.journal|
    requires id < |Step(s, ev).journal| && Step(s, ev).journal[id].ran == s.journal[id].ran
    requires CanRunAgain(Step(s, ev), id)
    ensures CanRunAgain(s, id)
  {
    var t := Step(s, ev);
    var evs: seq<Event> :|
      Run(Guarded, t, evs) && id < |After(t, evs).journal| && After(t, evs).journal[id].ran != t.journal[id].ran;
    var more := [ev] + evs;
    assert more[0] == ev && more[1..] == evs;
    assert Run(Guarded, s, more) && After(s, more) == After(t, evs);
  }

  lemma DelayedStartRuns(s: State, ref: Ref)
    requires Inv(s) && Start(ref) in s.queue && s.Live(ref)
    requires s.At(ref).kind.Cron? || s.At(ref).kind.delay > 0
    ensures ref.id < |s.journal| && CanRunAgain(s, ref.id)
  {
    assert EntryOk(s, ref);
    var ev1 := Handle(Start(ref), Completed);
    var s1 := Step(s, ev1);
    StepInv(s, ev1);
    ArmFrame(Popped(s, Start(ref)), ref);
    assert s1 == Arm(Popped(s, Start(ref)), ref);
    var s2 := Step(s1, Expire(ref));
    StepInv(s1, Expire(ref));
    RunsByHandle(s2, Fired(ref, false));
    CanRunAgainBefore(s1, Expire(ref), ref.id);
    CanRunAgainBefore(s, ev1, ref.id);
  }

  // The journal keeps what each run was: the outcome that came with the handler.
  lemma RunIsRecorded(s: State, h: Handler, o: Outcome)
    requires Inv(s) && h in s.queue && Calls(h)
    ensures s.Live(h.ref) && h.ref.id < |s.journal|
    ensures var l, kind, after := s.journal[h.ref.id], s.At(h.ref).kind, Step(s, Handle(h, o)).journal;
      && h.ref.id < |after|
      && after[h.ref.id].ran == if h.Start? && (kind.Cron? || kind.delay > 0) then l.ran else l.ran + [o]
  {
    assert Defined(s, h) && EntryOk(s, h.ref);
    RunIsRecordedAt(s, h, o);
  }

  lemma RunIsRecordedAt(s: State, h: Handler, o: Outcome)
    requires h in s.queue && Calls(h) && s.Live(h.ref) && h.ref.id < |s.journal|
    ensures var l, kind, after := s.journal[h.ref.id], s.At(h.ref).kind, Step(s, Handle(h, o)).journal;
      && h.ref.id < |after|
      && after[h.ref.id].ran == if h.Start? && (kind.Cron? || kind.delay > 0) then l.ran else l.ran + [o]
  {
    hide Conclude, EntryOk, Inv;
    RunTaskFrame(Popped(s, h), h.ref, o);
  }

  // A task whose timer is not armed can run again exactly when it has a posted start or a completed wait.
  lemma UnarmedRunsIfPosted(t: State, ref: Ref)
    requires Inv(t) && t.Live(ref) && t.At(ref).waits == 0
    ensures CanRunAgain(t, ref.id) <==> t.Posted(ref) > 0
  {
    assert EntryOk(t, ref);
    if t.Posted(ref) > 0 {
      if Start(ref) in t.queue {
        if t.At(ref).kind.Cron? || t.At(ref).kind.delay > 0 {
          DelayedStartRuns(t, ref);
        } else {
          RunsByHandle(t, Start(ref));
        }
      } else {
        RunsByHandle(t, Fired(ref, false));
      }
    } else {
      assert Spent(t, ref.id) by {
        forall r: Ref | r.id == ref.id && t.Live(r) ensures t.Posted(r) + t.At(r).waits == 0 {
          assert EntryOk(t, r);
        }
      }
      forall evs: seq<Event> | Run(Guarded, t, evs)
        ensures ref.id < |After(t, evs).journal| && After(t, evs).journal[ref.id].ran == t.journal[ref.id].ran
      {
        SpentRun(t, evs, ref.id);
      }
    }
  }

  // Stopping any task, recurring or not, silences it exactly when nothing of it is posted at that moment.
  lemma HaltSilencesUnposted(s: State, ref: Ref)
    requires Inv(s) && s.Live(ref)
    ensures CanRunAgain(Stop(s, ref), ref.id) <==> s.Posted(ref) > 0
  {
    StopInv(s, ref);
    UnarmedRunsIfPosted(Stop(s, ref), ref);
  }

  // For a recurring task that was not stopped before, nothing posted means that its timer is armed.
  lemma HaltSilencesOnlyArmed(s: State, ref: Ref)
    requires Inv(s) && s.Live(ref) && s.At(ref).kind.Recurring() && !s.At(ref).cancelled
    ensures CanRunAgain(Stop(s, ref), ref.id) <==> s.At(ref).waits == 0
  {
    assert EntryOk(s, ref);
    HaltSilencesUnposted(s, ref);
  }

  lemma {:induction false} HaltRun(s: State, evs: seq<Event>)
    requires Inv(s) && Run(Free, s, evs) && forall ev <- evs :: ev.Halt?
    ensures var t := After(s, evs);
      && Inv(t) && t.journal == s.journal
      && (forall ref: Ref :: t.Live(ref) <==> s.Live(ref))
      && (forall ref: Ref :: t.Posted(ref) == s.Posted(ref))
      && (forall ref: Ref | s.Live(ref) :: t.At(ref).waits == if Halt(ref) in evs then 0 else s.At(ref).waits)
    decreases |evs|
  {
    if evs != [] {
      var ev := evs[0];
      assert ev in evs && forall e <- evs[1..] :: e in evs;
      var u := Step(s, ev);
      StopInv(s, ev.ref);
      StopFrame(s, ev.ref);
      HaltRun(u, evs[1..]);
      forall ref: Ref | s.Live(ref)
        ensures After(u, evs[1..]).At(ref).waits == if Halt(ref) in evs then 0 else s.At(ref).waits
      {
        assert u.Live(ref);
        assert Halt(ref) in evs <==> Halt(ref) == ev || Halt(ref) in evs[1..];
      }
    }
  }

  lemma StopFrame(s: State, ref: Ref)
    requires s.Live(ref)
    ensures var t := Stop(s, ref);
      && t.journal == s.journal
      && (forall r: Ref :: t.Live(r) <==> s.Live(r))
      && (forall r: Ref :: t.Posted(r) == s.Posted(r))
      && (forall r: Ref | s.Live(r) :: t.At(r).waits == if r == ref then 0 else s.At(r).waits)
  {
  }

  // Shutdown(): when every entry has been stopped, exactly the tasks with something posted can still run.
  lemma ShutdownSilencesUnposted(s: State, evs: seq<Event>)
    requires Inv(s) && Run(Free, s, evs) && (forall ev <- evs :: ev.Halt?)
    requires forall ref: Ref | s.Live(ref) :: Halt(ref) in evs
    ensures forall ref: Ref | s.Live(ref) :: CanRunAgain(After(s, evs), ref.id) <==> s.Posted(ref) > 0
  {
    HaltRun(s, evs);
    var t := After(s, evs);
    forall ref: Ref | s.Live(ref) ensures CanRunAgain(t, ref.id) <==> s.Posted(ref) > 0 {
      assert t.Live(ref) && Halt(ref) in evs;
      UnarmedRunsIfPosted(t, ref);
    }
  }

  // ---- why quietness of outside calls alone is not enough ----

  lemma PostedShutdownDangles(s: State, ref: Ref, o: Outcome)
    requires Start(ref) in s.queue && SelfShutdown(ref.name) in s.queue
    ensures !NoDangling(Step(s, Handle(SelfShutdown(ref.name), o)))
  {
    var p := Popped(s, SelfShutdown(ref.name));
    ShutdownFrame(p, ref.name);
    var t := ShutdownName(p, ref.name);
    assert Start(ref) in t.queue && !Defined(t, Start(ref));
  }

  // A task added under a name freed from outside while a posted shutdown of that name is queued is destroyed by it.
  lemma ReusedNameDangles(s: State, name: string, interval: int, delay: int, o: Outcome)
    requires SelfShutdown(name) in s.queue
    ensures var s2 := Step(Step(s, Shutdown(name)), AddTask(name, interval, delay));
      SelfShutdown(name) in s2.queue && !NoDangling(Step(s2, Handle(SelfShutdown(name), o)))
  {
    var s1 := Step(s, Shutdown(name));
    ShutdownFrame(s, name);
    assert name !in s1.periodic;
    PostedShutdownDangles(Step(s1, AddTask(name, interval, delay)), Ref(false, name, |s1.journal|), o);
  }

  // The situation arises as soon as a one-time task has run, although its entry is then quiet.
  lemma RanOneTimeTaskIsQuiet(name: string, o: Outcome)
    ensures var s1 := Step(EMPTY, AddOneTimeTask(name, 0));
      var h := Start(Ref(false, name, 0));
      h in s1.queue && SelfShutdown(name) in Step(s1, Handle(h, o)).queue && Quiet(Step(s1, Handle(h, o)), name)
  {
  }

  // A cron task under the same name is destroyed with its start still queued.
  lemma SharedNameDangles(name: string, o: Outcome)
    ensures var s1 := Step(Step(EMPTY, AddCronTask(name)), AddOneTimeTask(name, 0));
      var h := Start(Ref(false, name, 1));
      h in s1.queue &&
      var s2 := Step(s1, Handle(h, o));
      SelfShutdown(name) in s2.queue && !NoDangling(Step(s2, Handle(SelfShutdown(name), o)))
  {
    var s1 := Step(Step(EMPTY, AddCronTask(name)), AddOneTimeTask(name, 0));
    var s2 := Step(s1, Handle(Start(Ref(false, name, 1)), o));
    assert s2.queue[Start(Ref(true, name, 0))] == 1;
    PostedShutdownDangles(s2, Ref(true, name, 0), o);
  }

  // ---- what the calls that add tasks do ----

  // A new entry holds what was asked for, with only its start posted.
  ghost predicate Accepted(s: State, t: State, isCron: bool, name: string, kind: Kind) {
    var ref := Ref(isCron, name, |s.journal|);
    && t.journal == s.journal + [Life(isCron, name, kind, [])]
    && t.Live(ref) && t.At(ref).kind == kind && t.At(ref).waits == 0 && t.queue[Start(ref)] == s.queue[Start(ref)] + 1
    && t.Table(!isCron) == s.Table(!isCron) && forall n <- s.Table(isCron) | n != name :: n in t.Table(isCron)
  }

  lemma AddedTasks(s: State, name: string, interval: int, delay: int)
    ensures name !in s.periodic ==>
      && Accepted(s, Step(s, AddTask(name, interval, delay)), false, name, Timed(interval, delay, Plain))
      && Accepted(s, Step(s, AddOneTimeTask(name, delay)), false, name, Timed(0, delay, OneTime))
      && Accepted(s, Step(s, AddWaitableOneTimeTask(name, delay)), false, name, Timed(0, delay, Waitable(|s.futures|)))
    ensures name !in s.cron ==> Accepted(s, Step(s, AddCronTask(name)), true, name, Cron)
    ensures name in s.periodic ==>
      && Step(s, AddTask(name, interval, delay)) == Step(s, AddOneTimeTask(name, delay)) == s
      && Step(s, AddWaitableOneTimeTask(name, delay)) == s.(futures := s.futures + [Future(Nobody, Broken)])
    ensures name in s.cron ==> Step(s, AddCronTask(name)) == s
  {
    hide Accepted, Register;
    var futures := s.futures + [Future(Task(|s.journal|), Pending)];
    if name !in s.periodic {
      RegisterAccepted(s, false, name, Timed(interval, delay, Plain), s.futures);
      RegisterAccepted(s, false, name, Timed(0, delay, OneTime), s.futures);
      RegisterAccepted(s, false, name, Timed(0, delay, Waitable(|s.futures|)), futures);
    }
    if name !in s.cron { RegisterAccepted(s, true, name, Cron, s.futures); }
  }

  lemma RegisterAccepted(s: State, isCron: bool, name: string, kind: Kind, futures: seq<Future>)
    requires name !in s.Table(isCron)
    ensures var t := Register(s, isCron, name, kind);
      Accepted(s, t, isCron, name, kind) && Accepted(s, t.(futures := futures), isCron, name, kind)
  {
  }

  // ---- what holds in every reachable state ----

  lemma EveryEntryHasOneEvent(evs: seq<Event>)
    requires Run(Guarded, EMPTY, evs)
    ensures var s := After(EMPTY, evs);
      && (forall ref: Ref | s.Live(ref) :: s.Posted(ref) + s.At(ref).waits <= 1)
      && (forall ref: Ref | s.Live(ref) && s.At(ref).kind.Recurring() && !s.At(ref).cancelled ::
           s.Posted(ref) + s.At(ref).waits == 1)
      && (forall h <- s.queue | Calls(h) :: s.Live(h.ref))
  {
    GuardedRun(EMPTY, evs);
    var s := After(EMPTY, evs);
    forall ref: Ref | s.Live(ref)
      ensures s.Posted(ref) + s.At(ref).waits <= 1
      ensures s.At(ref).kind.Recurring() && !s.At(ref).cancelled ==> s.Posted(ref) + s.At(ref).waits == 1
    {
      assert EntryOk(s, ref);
    }
    forall h <- s.queue | Calls(h) ensures s.Live(h.ref) { assert Defined(s, h); }
  }

  lemma {:induction false} FuturesKeptByRun(s: State, evs: seq<Event>)
    requires Inv(s) && FutureInv(s) && Run(Guarded, s, evs)
    ensures FutureInv(After(s, evs)) && Settles(s, After(s, evs))
    decreases |evs|
  {
    if evs != [] {
      StepInv(s, evs[0]);
      StepFutures(s, evs[0]);
      StepSettles(s, evs[0]);
      FuturesKeptByRun(Step(s, evs[0]), evs[1..]);
    }
  }

  // A future carries the outcome of its task if the task ran, an error if it never can, and is pending otherwise.
  lemma FuturesTellTheOutcome(evs: seq<Event>, f: nat)
    requires Run(Guarded, EMPTY, evs) && f < |After(EMPTY, evs).futures|
    ensures var s := After(EMPTY, evs);
      match s.futures[f].owner
      case Nobody => s.futures[f].status == Broken
      case Task(id) =>
        id < |s.journal| &&
        var l := s.journal[id];
        if l.ran != [] then
          && (l.ran[0] == Completed ==> s.futures[f].status == Succeeded)
          && (l.ran[0] == Threw ==> s.futures[f].status == Failed)
        else s.futures[f].status == if s.Live(Ref(l.cron, l.name, id)) then Pending else Broken
  {
    FuturesKeptByRun(EMPTY, evs);
    assert FutureOk(After(EMPTY, evs), f);
  }
}
