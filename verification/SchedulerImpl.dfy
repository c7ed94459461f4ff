// The scheduler's classes. Every method is proved to take the step that SchedulerSpec gives for it.
module Scheduler {
  import opened SchedulerSpec

  // What handlers and tasks share: the posted handlers, the shared states of promises, and a journal of task runs.
  class Runtime {
    var queue: seq<Handler>
    var futures: seq<Future>
    var journal: seq<Life>

    constructor ()
      ensures queue == [] && futures == [] && journal == []
    {
      queue := [];
      futures := [];
      journal := [];
    }

    method Post(h: Handler)
      modifies this`queue
      ensures queue == old(queue) + [h]
      ensures multiset(queue) == multiset(old(queue))[h := multiset(old(queue))[h] + 1]
    {
      queue := queue + [h];
    }

    method Record(id: nat, o: Outcome)
      modifies this`journal
      ensures journal == if id < |old(journal)|
                         then old(journal)[id := old(journal)[id].(ran := old(journal)[id].ran + [o])]
                         else old(journal)
    {
      if id < |journal| {
        journal := journal[id := journal[id].(ran := journal[id].ran + [o])];
      }
    }

    method PostEach(h: Handler, n: nat)
      modifies this`queue
      ensures multiset(queue) == multiset(old(queue))[h := multiset(old(queue))[h] + n]
    {
      var i := 0;
      while i < n
        invariant i <= n
        invariant multiset(queue) == multiset(old(queue))[h := multiset(old(queue))[h] + i]
      {
        Post(h);
        i := i + 1;
      }
    }
  }

  class PeriodicEntry {
    const rt: Runtime
    const ref: Ref
    const interval: int
    const delay: int
    const job: Job
    var waits: nat
    var expiry: int
    ghost var cancelled: bool

    ghost function View(): Entry
      reads this
    {
      Entry(ref.id, Timed(interval, delay, job), waits, cancelled)
    }

    // The state in which this entry is the only one.
    ghost function Alone(): State
      reads this, rt
    {
      State(map[ref.name := View()], map[], multiset(rt.queue), rt.journal, rt.futures)
    }

    constructor (rt: Runtime, name: string, id: nat, interval: int, delay: int, job: Job)
      modifies rt`queue
      ensures this.rt == rt && ref == Ref(false, name, id)
      ensures this.interval == interval && this.delay == delay && this.job == job
      ensures View() == Entry(id, Timed(interval, delay, job), 0, false)
      ensures rt.queue == old(rt.queue) + [Handler.Start(ref)]
    {
      this.rt := rt;
      this.ref := Ref(false, name, id);
      this.interval := interval;
      this.delay := delay;
      this.job := job;
      this.waits := 0;
      this.expiry := 0;
      this.cancelled := false;
      new;
      rt.Post(Handler.Start(ref));
    }

    // The task has run once more, with this outcome.
    twostate predicate Ran(o: Outcome)
      reads rt
    {
      && |rt.journal| == |old(rt.journal)|
      && forall i | 0 <= i < |rt.journal| ::
           rt.journal[i] == if i == ref.id then old(rt.journal)[i].(ran := old(rt.journal)[i].ran + [o])
                            else old(rt.journal)[i]
    }

    // The wrapper that AddOneTimeTask and AddWaitableOneTimeTask put around the task: the future gets a value after a
    // task that completes and an exception after one that throws, and the shutdown is posted last.
    method Conclude(o: Outcome)
      modifies rt`queue, rt`futures
      ensures Alone() == SchedulerSpec.Conclude(old(Alone()), ref.name, job, o)
      ensures job.OneTime? ==> rt.queue == old(rt.queue) + [SelfShutdown(ref.name)] && rt.futures == old(rt.futures)
      ensures job.Waitable? && job.future < |old(rt.futures)| && old(rt.futures)[job.future].status == Pending ==>
        && rt.queue == old(rt.queue) + [SelfShutdown(ref.name)] && |rt.futures| == |old(rt.futures)|
        && (o == Completed ==> rt.futures[job.future].status == Succeeded)
        && (o == Threw ==> rt.futures[job.future].status == Failed)
    {
      match job
      case Plain =>
      case OneTime => rt.Post(SelfShutdown(ref.name));
      case Waitable(f) =>
        if f < |rt.futures| && rt.futures[f].status == Pending {
          Settle(f, o);
        }
    }

    method Settle(f: nat, o: Outcome)
      requires f < |rt.futures|
      modifies rt`queue, rt`futures
      ensures Alone() == old(Alone())
        .(futures := old(rt.futures)[f := old(rt.futures)[f].(status := Verdict(o))])
        .Post(SelfShutdown(ref.name), 1)
      ensures rt.queue == old(rt.queue) + [SelfShutdown(ref.name)]
    {
      rt.futures := rt.futures[f := rt.futures[f].(status := Verdict(o))];
      rt.Post(SelfShutdown(ref.name));
    }

    method Task(o: Outcome)
      requires !ref.cron
      modifies rt
      ensures Alone() == RunTask(old(Alone()), ref, o) && Ran(o)
    {
      rt.Record(ref.id, o);
      assert Alone() == Record(old(Alone()), ref.id, o);
      Conclude(o);
    }

    // expires_after cancels what is pending; async_wait arms the timer.
    method ExpireAfterAndWait(seconds: int)
      requires !ref.cron
      modifies this`waits, this`expiry, rt`queue
      ensures Alone() == Arm(old(Alone()), ref) && waits == 1 && expiry == seconds
    {
      ghost var s := Alone();
      expiry := seconds;
      rt.PostEach(Fired(ref, true), waits);
      waits := 0;
      StartWait();
      assert map[ref.name := View()] == s.periodic[ref.name := s.At(ref).(waits := 1)];
    }

    method StartWait()
      modifies this`waits
      ensures waits == old(waits) + 1
    {
      waits := waits + 1;
    }

    // A delay is waited for before the first run, whatever the interval; otherwise the task runs at once, and an
    // interval arms the timer again.
    method Start(o: Outcome)
      requires !ref.cron
      modifies this`waits, this`expiry, rt
      ensures Alone() == OnStart(old(Alone()), ref, o)
      ensures delay > 0 ==>
        rt.journal == old(rt.journal) && rt.futures == old(rt.futures) && waits == 1 && expiry == delay
      ensures delay <= 0 ==> Ran(o)
      ensures delay <= 0 ==> if interval > 0 then waits == 1 && expiry == interval else waits == old(waits)
    {
      if delay > 0 {
        ExpireAfterAndWait(delay);
      } else if interval > 0 {
        Task(o);
        ExpireAfterAndWait(interval);
      } else {
        Task(o);
      }
    }

    method Execute(aborted: bool, o: Outcome)
      requires !ref.cron
      modifies this`waits, this`expiry, rt
      ensures Alone() == if aborted then old(Alone()) else OnFired(old(Alone()), ref, o)
      ensures !aborted ==> Ran(o)
      ensures !aborted ==> if interval > 0 then waits == 1 && expiry == interval else waits == old(waits)
    {
      if !aborted {
        Task(o);
        if interval > 0 {
          ExpireAfterAndWait(interval);
        }
      }
    }

    method Stop()
      requires !ref.cron
      modifies this, rt`queue
      ensures Alone() == SchedulerSpec.Stop(old(Alone()), ref)
      ensures var h := Fired(ref, true);
        waits == 0 && multiset(rt.queue) == multiset(old(rt.queue))[h := multiset(old(rt.queue))[h] + old(waits)]
    {
      rt.PostEach(Fired(ref, true), waits);
      cancelled := cancelled || waits > 0;
      waits := 0;
    }

    // The clock reaches the expiry of the timer.
    method Expire()
      requires !ref.cron
      modifies this`waits, rt`queue
      ensures Alone() == OnExpire(old(Alone()), ref)
      ensures var h := Fired(ref, false);
        waits == 0 && multiset(rt.queue) == multiset(old(rt.queue))[h := multiset(old(rt.queue))[h] + old(waits)]
    {
      rt.PostEach(Fired(ref, false), waits);
      waits := 0;
    }
  }

  class CronEntry {
    const rt: Runtime
    const ref: Ref
    var next: int
    var waits: nat
    ghost var cancelled: bool

    ghost function View(): Entry
      reads this
    {
      Entry(ref.id, Cron, waits, cancelled)
    }

    ghost function Alone(): State
      reads this, rt
    {
      State(map[], map[ref.name := View()], multiset(rt.queue), rt.journal, rt.futures)
    }

    constructor (rt: Runtime, name: string, id: nat)
      modifies rt`queue
      ensures this.rt == rt && ref == Ref(true, name, id)
      ensures View() == Entry(id, Cron, 0, false)
      ensures rt.queue == old(rt.queue) + [Handler.Start(ref)]
    {
      this.rt := rt;
      this.ref := Ref(true, name, id);
      this.next := 0;
      this.waits := 0;
      this.cancelled := false;
      new;
      rt.Post(Handler.Start(ref));
    }

    method ExpireAfterAndWait(delay: int)
      requires ref.cron
      modifies this`waits, this`next, rt`queue
      ensures Alone() == Arm(old(Alone()), ref) && next == delay && waits == 1
    {
      ghost var s := Alone();
      next := delay;
      rt.PostEach(Fired(ref, true), waits);
      waits := 0;
      StartWait();
      assert map[ref.name := View()] == s.cron[ref.name := s.At(ref).(waits := 1)];
    }

    method StartWait()
      modifies this`waits
      ensures waits == old(waits) + 1
    {
      waits := waits + 1;
    }

    method Start(o: Outcome, delay: int)
      requires ref.cron
      modifies this`waits, this`next, rt`queue
      ensures Alone() == OnStart(old(Alone()), ref, o) && waits == 1 && next == delay
    {
      ExpireAfterAndWait(delay);
    }

    method Execute(aborted: bool, o: Outcome, delay: int)
      requires ref.cron
      modifies this`waits, this`next, rt
      ensures Alone() == if aborted then old(Alone()) else OnFired(old(Alone()), ref, o)
      ensures !aborted ==> waits == 1 && next == delay
      ensures !aborted && ref.id < |old(rt.journal)| ==>
        |rt.journal| == |old(rt.journal)| && rt.journal[ref.id].ran == old(rt.journal)[ref.id].ran + [o]
    {
      if !aborted {
        rt.Record(ref.id, o);
        ExpireAfterAndWait(delay);
      }
    }

    method Stop()
      requires ref.cron
      modifies this`waits, this`cancelled, rt`queue
      ensures Alone() == SchedulerSpec.Stop(old(Alone()), ref)
      ensures var h := Fired(ref, true);
        waits == 0 && multiset(rt.queue) == multiset(old(rt.queue))[h := multiset(old(rt.queue))[h] + old(waits)]
    {
      rt.PostEach(Fired(ref, true), waits);
      cancelled := cancelled || waits > 0;
      waits := 0;
    }

    method Expire()
      requires ref.cron
      modifies this`waits, rt`queue
      ensures Alone() == OnExpire(old(Alone()), ref)
      ensures var h := Fired(ref, false);
        waits == 0 && multiset(rt.queue) == multiset(old(rt.queue))[h := multiset(old(rt.queue))[h] + old(waits)]
    {
      rt.PostEach(Fired(ref, false), waits);
      waits := 0;
    }
  }

  function Only(s: State, ref: Ref): State
    requires s.Live(ref)
  {
    if ref.cron then s.(periodic := map[], cron := map[ref.name := s.At(ref)])
    else s.(periodic := map[ref.name := s.At(ref)], cron := map[])
  }

  // s with the entry of ref, the queue, the journal and the futures taken from v.
  function Graft(s: State, ref: Ref, v: State): State
    requires v.Live(ref)
  {
    v.(periodic := s.periodic, cron := s.cron).Put(ref, v.At(ref))
  }

  lemma PostIsLocal(s: State, h: Handler, n: nat, ref: Ref)
    requires s.Live(ref)
    ensures var t := s.Post(h, n);
      t.Live(ref) && Only(s, ref).Post(h, n) == Only(t, ref) && t.At(ref) == s.At(ref)
      && t.periodic == s.periodic && t.cron == s.cron
  {
  }

  lemma ConcludeIsLocal(s: State, ref: Ref, job: Job, o: Outcome)
    requires s.Live(ref)
    ensures var t := Conclude(s, ref.name, job, o);
      t.Live(ref) && Conclude(Only(s, ref), ref.name, job, o) == Only(t, ref) && t.At(ref) == s.At(ref)
      && t.periodic == s.periodic && t.cron == s.cron
  {
    match job
    case Plain =>
    case OneTime => PostIsLocal(s, SelfShutdown(ref.name), 1, ref);
    case Waitable(f) =>
      if f < |s.futures| {
        PostIsLocal(s.(futures := s.futures[f := s.futures[f].(status := Verdict(o))]), SelfShutdown(ref.name), 1, ref);
      }
  }

  lemma RecordIsLocal(s: State, ref: Ref, o: Outcome)
    requires s.Live(ref)
    ensures var t := Record(s, ref.id, o);
      && t.Live(ref) && Record(Only(s, ref), ref.id, o) == Only(t, ref)
      && t.periodic == s.periodic && t.cron == s.cron
  {
  }

  lemma SameTablesGraft(s: State, t: State, ref: Ref)
    requires s.Live(ref) && t.periodic == s.periodic && t.cron == s.cron
    ensures Only(t, ref).Live(ref) && t == Graft(s, ref, Only(t, ref))
  {
  }

  lemma RunTaskIsLocal(s: State, ref: Ref, o: Outcome)
    requires s.Live(ref)
    ensures var t := RunTask(s, ref, o); var v := RunTask(Only(s, ref), ref, o);
      v == Only(t, ref) && t == Graft(s, ref, v)
  {
    var kind := s.At(ref).kind;
    var r := Record(s, ref.id, o);
    RecordIsLocal(s, ref, o);
    if kind.Timed? {
      ConcludeIsLocal(r, ref, kind.job, o);
      SameTablesGraft(s, Conclude(r, ref.name, kind.job, o), ref);
    } else {
      SameTablesGraft(s, r, ref);
    }
  }

  lemma ArmIsLocal(s: State, ref: Ref)
    requires s.Live(ref)
    ensures var t := Arm(s, ref); var v := Arm(Only(s, ref), ref);
      v == Only(t, ref) && t == Graft(s, ref, v)
  {
  }

  lemma GraftTwice(s: State, ref: Ref, u: State, v: State)
    requires u.Live(ref) && v.Live(ref)
    ensures Graft(Graft(s, ref, u), ref, v) == Graft(s, ref, v)
  {
  }

  // What a handler of one entry does to the whole state is what it does to that entry alone.
  lemma StartIsLocal(s: State, ref: Ref, o: Outcome)
    requires s.Live(ref)
    ensures var v := OnStart(Only(s, ref), ref, o);
      v.Live(ref) && OnStart(s, ref, o) == Graft(s, ref, v)
  {
    ArmIsLocal(s, ref);
    RunTaskIsLocal(s, ref, o);
    var t := RunTask(s, ref, o);
    ArmIsLocal(t, ref);
    GraftTwice(s, ref, Only(t, ref), Only(Arm(t, ref), ref));
  }

  lemma FiredIsLocal(s: State, ref: Ref, o: Outcome)
    requires s.Live(ref)
    ensures var v := OnFired(Only(s, ref), ref, o);
      v.Live(ref) && OnFired(s, ref, o) == Graft(s, ref, v)
  {
    RunTaskIsLocal(s, ref, o);
    var t := RunTask(s, ref, o);
    ArmIsLocal(t, ref);
    GraftTwice(s, ref, Only(t, ref), Only(Arm(t, ref), ref));
  }

  lemma TimerIsLocal(s: State, ref: Ref)
    requires s.Live(ref)
    ensures var v := Stop(Only(s, ref), ref); v.Live(ref) && Stop(s, ref) == Graft(s, ref, v)
    ensures var v := OnExpire(Only(s, ref), ref); v.Live(ref) && OnExpire(s, ref) == Graft(s, ref, v)
  {
  }

  class Scheduler {
    const ioc: Runtime
    var periodicTasks: map<string, PeriodicEntry>
    var cronTasks: map<string, CronEntry>

    ghost predicate Valid()
      reads this
    {
      && (forall n <- periodicTasks ::
            periodicTasks[n].rt == ioc && periodicTasks[n].ref.name == n && !periodicTasks[n].ref.cron)
      && (forall n <- cronTasks :: cronTasks[n].rt == ioc && cronTasks[n].ref.name == n && cronTasks[n].ref.cron)
    }

    ghost function State(): State
      reads this, ioc, periodicTasks.Values, cronTasks.Values
    {
      SchedulerSpec.State(
        map n | n in periodicTasks :: periodicTasks[n].View(),
        map n | n in cronTasks :: cronTasks[n].View(),
        multiset(ioc.queue), ioc.journal, ioc.futures)
    }

    constructor (ioc: Runtime)
      requires ioc.queue == [] && ioc.futures == [] && ioc.journal == []
      ensures Valid() && this.ioc == ioc && State() == EMPTY
    {
      this.ioc := ioc;
      periodicTasks := map[];
      cronTasks := map[];
    }

    // The entry of the name has just been made, for this task, and its start is posted last.
    predicate HasTask(name: string, interval: int, delay: int, job: Job)
      requires name in periodicTasks
      reads this, periodicTasks[name], ioc
    {
      var e := periodicTasks[name];
      && e.interval == interval && e.delay == delay && e.job == job
      && ioc.queue != [] && ioc.queue[|ioc.queue| - 1] == Handler.Start(e.ref)
    }

    method Register(name: string, interval: int, delay: int, job: Job)
      requires Valid() && name !in periodicTasks
      modifies this`periodicTasks, ioc`queue, ioc`journal
      ensures Valid() && State() == SchedulerSpec.Register(old(State()), false, name, Timed(interval, delay, job))
      ensures name in periodicTasks && HasTask(name, interval, delay, job)
      ensures fresh(periodicTasks.Values - old(periodicTasks.Values))
    {
      var e := new PeriodicEntry(ioc, name, |ioc.journal|, interval, delay, job);
      periodicTasks := periodicTasks[name := e];
      ioc.journal := ioc.journal + [Life(false, name, Timed(interval, delay, job), [])];
      assert State().periodic == old(State()).periodic[name := e.View()];
      assert State().cron == old(State()).cron;
    }

    method AddTask(name: string, interval: int, delay: int)
      requires Valid()
      modifies this`periodicTasks, ioc
      ensures Valid() && State() == Step(old(State()), Event.AddTask(name, interval, delay))
      ensures name !in old(periodicTasks) ==> name in periodicTasks && HasTask(name, interval, delay, Plain)
      ensures fresh(periodicTasks.Values - old(periodicTasks.Values))
    {
      if name !in periodicTasks {
        Register(name, interval, delay, Plain);
      }
    }

    method AddOneTimeTask(name: string, delay: int)
      requires Valid()
      modifies this`periodicTasks, ioc
      ensures Valid() && State() == Step(old(State()), Event.AddOneTimeTask(name, delay))
      ensures name !in old(periodicTasks) ==> name in periodicTasks && HasTask(name, 0, delay, OneTime)
      ensures fresh(periodicTasks.Values - old(periodicTasks.Values))
    {
      if name !in periodicTasks {
        Register(name, 0, delay, OneTime);
      }
    }

    // Returns the position of the shared state of the future.
    method AddWaitableOneTimeTask(name: string, delay: int) returns (future: nat)
      requires Valid()
      modifies this`periodicTasks, ioc
      ensures Valid() && State() == Step(old(State()), Event.AddWaitableOneTimeTask(name, delay))
      ensures future == |old(ioc.futures)| < |ioc.futures|
      ensures name !in old(periodicTasks) ==> name in periodicTasks && HasTask(name, 0, delay, Waitable(future))
      ensures fresh(periodicTasks.Values - old(periodicTasks.Values))
    {
      future := |ioc.futures|;
      if name !in periodicTasks {
        var id := |ioc.journal|;
        Register(name, 0, delay, Waitable(future));
        NewFuture(Future(Task(id), Pending));
      } else {
        NewFuture(Future(Nobody, Broken));
      }
    }

    method NewFuture(f: Future)
      requires Valid()
      modifies ioc`futures
      ensures Valid() && ioc.futures == old(ioc.futures) + [f]
      ensures State() == old(State()).(futures := old(ioc.futures) + [f])
    {
      ioc.futures := ioc.futures + [f];
    }

    method AddCronTask(name: string)
      requires Valid()
      modifies this`cronTasks, ioc
      ensures Valid() && State() == Step(old(State()), Event.AddCronTask(name))
      ensures fresh(cronTasks.Values - old(cronTasks.Values))
    {
      if name !in cronTasks {
        RegisterCron(name);
      }
    }

    method RegisterCron(name: string)
      requires Valid() && name !in cronTasks
      modifies this`cronTasks, ioc`queue, ioc`journal
      ensures Valid() && State() == SchedulerSpec.Register(old(State()), true, name, Cron)
      ensures fresh(cronTasks.Values - old(cronTasks.Values))
    {
      var e := new CronEntry(ioc, name, |ioc.journal|);
      cronTasks := cronTasks[name := e];
      ioc.journal := ioc.journal + [Life(true, name, Cron, [])];
      assert State().cron == old(State()).cron[name := e.View()];
      assert State().periodic == old(State()).periodic;
    }

    method BreakPromise(e: PeriodicEntry)
      requires Valid()
      modifies ioc`futures
      ensures Valid() && State() == SchedulerSpec.BreakPromise(old(State()), Timed(e.interval, e.delay, e.job))
    {
      match e.job
      case Waitable(f) =>
        if f < |ioc.futures| && ioc.futures[f].status == Pending {
          ioc.futures := ioc.futures[f := ioc.futures[f].(status := Broken)];
        }
      case _ =>
    }

    // When only one entry has changed, the new state is the old one with that entry grafted in.
    twostate lemma PeriodicChanged(name: string)
      requires old(Valid()) && Valid() && name in periodicTasks
      requires periodicTasks == old(periodicTasks) && cronTasks == old(cronTasks)
      requires forall n <- periodicTasks :: old(allocated(periodicTasks[n]))
      requires forall n <- periodicTasks | n != name :: unchanged(periodicTasks[n])
      requires forall n <- cronTasks :: old(allocated(cronTasks[n])) && unchanged(cronTasks[n])
      ensures old(periodicTasks[name].Alone()) == Only(old(State()), periodicTasks[name].ref)
      ensures State() == Graft(old(State()), periodicTasks[name].ref, periodicTasks[name].Alone())
    {
      assert State().cron == old(State()).cron;
      assert State().periodic == old(State()).periodic[name := periodicTasks[name].View()];
    }

    twostate lemma CronChanged(name: string)
      requires old(Valid()) && Valid() && name in cronTasks
      requires periodicTasks == old(periodicTasks) && cronTasks == old(cronTasks)
      requires forall n <- cronTasks :: old(allocated(cronTasks[n]))
      requires forall n <- cronTasks | n != name :: unchanged(cronTasks[n])
      requires forall n <- periodicTasks :: old(allocated(periodicTasks[n])) && unchanged(periodicTasks[n])
      ensures old(cronTasks[name].Alone()) == Only(old(State()), cronTasks[name].ref)
      ensures State() == Graft(old(State()), cronTasks[name].ref, cronTasks[name].Alone())
    {
      assert State().periodic == old(State()).periodic;
      assert State().cron == old(State()).cron[name := cronTasks[name].View()];
    }

    method StopPeriodic(name: string)
      requires Valid() && name in periodicTasks
      modifies periodicTasks[name], ioc`queue
      ensures Valid() && State() == Stop(old(State()), periodicTasks[name].ref)
    {
      var e := periodicTasks[name];
      TimerIsLocal(State(), e.ref);
      e.Stop();
      PeriodicChanged(name);
    }

    method StopCron(name: string)
      requires Valid() && name in cronTasks
      modifies cronTasks[name], ioc`queue
      ensures Valid() && State() == Stop(old(State()), cronTasks[name].ref)
    {
      var e := cronTasks[name];
      TimerIsLocal(State(), e.ref);
      e.Stop();
      CronChanged(name);
    }

    // Shutdown(name)
    method ShutdownTask(name: string)
      requires Valid()
      modifies this, ioc, periodicTasks.Values, cronTasks.Values
      ensures Valid() && State() == ShutdownName(old(State()), name)
      ensures fresh(periodicTasks.Values - old(periodicTasks.Values))
      ensures fresh(cronTasks.Values - old(cronTasks.Values))
    {
      ErasePeriodic(name);
      EraseCron(name);
    }

    method RemovePeriodic(name: string)
      requires Valid()
      modifies this`periodicTasks
      ensures Valid() && State() == old(State()).(periodic := old(State()).periodic - {name})
      ensures periodicTasks == old(periodicTasks) - {name}
    {
      periodicTasks := periodicTasks - {name};
    }

    method ErasePeriodic(name: string)
      requires Valid()
      modifies this`periodicTasks, ioc, periodicTasks.Values
      ensures Valid() && State() == Erase(old(State()), false, name)
      ensures fresh(periodicTasks.Values - old(periodicTasks.Values))
    {
      if name in periodicTasks {
        var e := periodicTasks[name];
        StopPeriodic(name);
        RemovePeriodic(name);
        BreakPromise(e);
      }
    }

    method RemoveCron(name: string)
      requires Valid()
      modifies this`cronTasks
      ensures Valid() && State() == old(State()).(cron := old(State()).cron - {name})
      ensures cronTasks == old(cronTasks) - {name}
    {
      cronTasks := cronTasks - {name};
    }

    method EraseCron(name: string)
      requires Valid()
      modifies this`cronTasks, ioc, cronTasks.Values
      ensures Valid() && State() == Erase(old(State()), true, name)
      ensures fresh(cronTasks.Values - old(cronTasks.Values))
    {
      if name in cronTasks {
        StopCron(name);
        RemoveCron(name);
      }
    }

    // Shutdown() stops every entry, in both tables and once each; the events it amounts to are returned for the proof.
    // Afterwards exactly the tasks that had something posted can still run.
    method StopAll() returns (ghost evs: seq<Event>)
      requires Valid()
      modifies ioc`queue, periodicTasks.Values, cronTasks.Values
      ensures Valid() && HaltsOf(old(State()), evs) && State() == After(old(State()), evs)
      ensures forall ref: Ref | old(State()).Live(ref) :: Halt(ref) in evs
      ensures Inv(old(State())) ==>
        forall ref: Ref | old(State()).Live(ref) :: CanRunAgain(State(), ref.id) <==> old(State()).Posted(ref) > 0
    {
      hide Inv, CanRunAgain, After, HaltsOf, State;
      ghost var s := State();
      LiveEntries();
      evs := HaltAll();
      assert forall ref: Ref | s.Live(ref) :: Halt(ref) in evs;
      if Inv(s) { HaltsSilence(s, evs); }
    }

    method HaltAll() returns (ghost evs: seq<Event>)
      requires Valid()
      modifies ioc`queue, periodicTasks.Values, cronTasks.Values
      ensures Valid() && HaltsOf(old(State()), evs) && State() == After(old(State()), evs)
      ensures forall n <- periodicTasks :: Halt(periodicTasks[n].ref) in evs
      ensures forall n <- cronTasks :: Halt(cronTasks[n].ref) in evs
    {
      hide After, HaltsOf, State;
      ghost var s := State();
      NothingHalted(s);
      LiveEntries();
      ghost var first := StopAllPeriodic(s, []);
      evs := StopAllCron(s, first);
    }

    lemma LiveEntries()
      requires Valid()
      ensures forall n <- periodicTasks :: State().Live(periodicTasks[n].ref)
      ensures forall n <- cronTasks :: State().Live(cronTasks[n].ref)
      ensures forall ref: Ref | State().Live(ref) ::
        if ref.cron then ref.name in cronTasks && cronTasks[ref.name].ref == ref
        else ref.name in periodicTasks && periodicTasks[ref.name].ref == ref
    {
    }

    method HaltPeriodic(name: string, ghost s0: State, ghost evs: seq<Event>)
      requires Valid() && name in periodicTasks && s0.Live(periodicTasks[name].ref)
      requires HaltsOf(s0, evs) && Halt(periodicTasks[name].ref) !in evs && State() == After(s0, evs)
      modifies ioc`queue, periodicTasks[name]
      ensures Valid() && HaltsOf(s0, evs + [Halt(periodicTasks[name].ref)])
      ensures State() == After(s0, evs + [Halt(periodicTasks[name].ref)])
    {
      hide Run, After, HaltsOf;
      AnotherHalt(s0, evs, periodicTasks[name].ref);
      StopPeriodic(name);
    }

    // Continues the halts evs, which led from s0 to the present state, with one halt for each periodic entry.
    method StopAllPeriodic(ghost s0: State, ghost evs: seq<Event>) returns (ghost all: seq<Event>)
      requires Valid() && HaltsOf(s0, evs) && State() == After(s0, evs)
      requires forall n <- periodicTasks :: s0.Live(periodicTasks[n].ref) && Halt(periodicTasks[n].ref) !in evs
      modifies ioc`queue, periodicTasks.Values
      ensures Valid() && HaltsOf(s0, all) && State() == After(s0, all)
      ensures forall ev :: ev in all <==> ev in evs || exists n <- periodicTasks :: ev == Halt(periodicTasks[n].ref)
    {
      hide Run, After, HaltsOf;
      all := evs;
      var names := periodicTasks.Keys;
      while names != {}
        invariant Valid() && names <= periodicTasks.Keys
        invariant HaltsOf(s0, all) && State() == After(s0, all)
        invariant forall ev <- all ::
          ev in evs || exists n <- periodicTasks.Keys - names :: ev == Halt(periodicTasks[n].ref)
        invariant evs <= all && forall n <- periodicTasks.Keys - names :: Halt(periodicTasks[n].ref) in all
        decreases names
      {
        var n :| n in names;
        assert forall m <- periodicTasks | Halt(periodicTasks[m].ref) == Halt(periodicTasks[n].ref) :: m == n;
        HaltPeriodic(n, s0, all);
        all := all + [Halt(periodicTasks[n].ref)];
        names := names - {n};
      }
    }

    method HaltCron(name: string, ghost s0: State, ghost evs: seq<Event>)
      requires Valid() && name in cronTasks && s0.Live(cronTasks[name].ref)
      requires HaltsOf(s0, evs) && Halt(cronTasks[name].ref) !in evs && State() == After(s0, evs)
      modifies ioc`queue, cronTasks[name]
      ensures Valid() && HaltsOf(s0, evs + [Halt(cronTasks[name].ref)])
      ensures State() == After(s0, evs + [Halt(cronTasks[name].ref)])
    {
      hide Run, After, HaltsOf;
      AnotherHalt(s0, evs, cronTasks[name].ref);
      StopCron(name);
    }

    // Continues the halts evs, which led from s0 to the present state, with one halt for each cron entry.
    method StopAllCron(ghost s0: State, ghost evs: seq<Event>) returns (ghost all: seq<Event>)
      requires Valid() && HaltsOf(s0, evs) && State() == After(s0, evs)
      requires forall n <- cronTasks :: s0.Live(cronTasks[n].ref) && Halt(cronTasks[n].ref) !in evs
      modifies ioc`queue, cronTasks.Values
      ensures Valid() && HaltsOf(s0, all) && State() == After(s0, all)
      ensures forall ev :: ev in all <==> ev in evs || exists n <- cronTasks :: ev == Halt(cronTasks[n].ref)
    {
      hide Run, After, HaltsOf;
      all := evs;
      var names := cronTasks.Keys;
      while names != {}
        invariant Valid() && names <= cronTasks.Keys
        invariant HaltsOf(s0, all) && State() == After(s0, all)
        invariant forall ev <- all ::
          ev in evs || exists n <- cronTasks.Keys - names :: ev == Halt(cronTasks[n].ref)
        invariant evs <= all && forall n <- cronTasks.Keys - names :: Halt(cronTasks[n].ref) in all
        decreases names
      {
        var n :| n in names;
        assert forall m <- cronTasks | Halt(cronTasks[m].ref) == Halt(cronTasks[n].ref) :: m == n;
        HaltCron(n, s0, all);
        all := all + [Halt(cronTasks[n].ref)];
        names := names - {n};
      }
    }

    method ExpirePeriodic(name: string)
      requires Valid() && name in periodicTasks
      modifies periodicTasks[name], ioc`queue
      ensures Valid() && State() == OnExpire(old(State()), periodicTasks[name].ref)
    {
      var e := periodicTasks[name];
      TimerIsLocal(State(), e.ref);
      e.Expire();
      PeriodicChanged(name);
    }

    method ExpireCron(name: string)
      requires Valid() && name in cronTasks
      modifies cronTasks[name], ioc`queue
      ensures Valid() && State() == OnExpire(old(State()), cronTasks[name].ref)
    {
      var e := cronTasks[name];
      TimerIsLocal(State(), e.ref);
      e.Expire();
      CronChanged(name);
    }

    method StartPeriodic(name: string, o: Outcome)
      requires Valid() && name in periodicTasks
      modifies periodicTasks[name], ioc
      ensures Valid() && State() == OnStart(old(State()), periodicTasks[name].ref, o)
    {
      var e := periodicTasks[name];
      StartIsLocal(State(), e.ref, o);
      e.Start(o);
      PeriodicChanged(name);
    }

    method StartCron(name: string, o: Outcome, delay: int)
      requires Valid() && name in cronTasks
      modifies cronTasks[name], ioc
      ensures Valid() && State() == OnStart(old(State()), cronTasks[name].ref, o)
    {
      var e := cronTasks[name];
      StartIsLocal(State(), e.ref, o);
      e.Start(o, delay);
      CronChanged(name);
    }

    method ExecutePeriodic(name: string, o: Outcome)
      requires Valid() && name in periodicTasks
      modifies periodicTasks[name], ioc
      ensures Valid() && State() == OnFired(old(State()), periodicTasks[name].ref, o)
    {
      var e := periodicTasks[name];
      FiredIsLocal(State(), e.ref, o);
      e.Execute(false, o);
      PeriodicChanged(name);
    }

    method ExecuteCron(name: string, o: Outcome, delay: int)
      requires Valid() && name in cronTasks
      modifies cronTasks[name], ioc
      ensures Valid() && State() == OnFired(old(State()), cronTasks[name].ref, o)
    {
      var e := cronTasks[name];
      FiredIsLocal(State(), e.ref, o);
      e.Execute(false, o, delay);
      CronChanged(name);
    }

    method Pop() returns (h: Handler)
      requires Valid() && ioc.queue != []
      modifies ioc`queue
      ensures Valid() && h == old(ioc.queue)[0] && h in old(State()).queue
      ensures State() == Popped(old(State()), h)
    {
      h := ioc.queue[0];
      assert ioc.queue == [h] + ioc.queue[1..];
      ioc.queue := ioc.queue[1..];
    }

    // An entry is reached only while the map still owns it.
    method RunStart(ref: Ref, o: Outcome, delay: int)
      requires Valid()
      modifies ioc, periodicTasks.Values, cronTasks.Values
      ensures Valid()
      ensures var s := old(State()); State() == if s.Live(ref) then OnStart(s, ref, o) else s
    {
      hide OnStart;
      if ref.cron {
        if ref.name in cronTasks && cronTasks[ref.name].ref == ref { StartCron(ref.name, o, delay); }
      } else if ref.name in periodicTasks && periodicTasks[ref.name].ref == ref {
        StartPeriodic(ref.name, o);
      }
    }

    method RunFired(ref: Ref, o: Outcome, delay: int)
      requires Valid()
      modifies ioc, periodicTasks.Values, cronTasks.Values
      ensures Valid()
      ensures var s := old(State()); State() == if s.Live(ref) then OnFired(s, ref, o) else s
    {
      hide OnFired;
      if ref.cron {
        if ref.name in cronTasks && cronTasks[ref.name].ref == ref { ExecuteCron(ref.name, o, delay); }
      } else if ref.name in periodicTasks && periodicTasks[ref.name].ref == ref {
        ExecutePeriodic(ref.name, o);
      }
    }

    // The loop runs the handler at the front.
    method RunOne(o: Outcome, delay: int)
      requires Valid() && ioc.queue != []
      modifies this, ioc, periodicTasks.Values, cronTasks.Values
      ensures Valid() && State() == Step(old(State()), Handle(old(ioc.queue)[0], o))
      ensures fresh(periodicTasks.Values - old(periodicTasks.Values))
      ensures fresh(cronTasks.Values - old(cronTasks.Values))
    {
      hide OnStart, OnFired, ShutdownName, State;
      var h := Pop();
      match h
      case SelfShutdown(name) => ShutdownTask(name);
      case Start(ref) => RunStart(ref, o, delay);
      case Fired(ref, aborted) => if !aborted { RunFired(ref, o, delay); }
    }

    // ---- whole runs of the class ----

    method Expire(isCron: bool, name: string) returns (ghost evs: seq<Event>)
      requires Valid()
      modifies ioc`queue, periodicTasks.Values, cronTasks.Values
      ensures Valid() && Run(Free, old(State()), evs) && State() == After(old(State()), evs)
    {
      evs := [];
      ghost var s := State();
      if isCron {
        if name in cronTasks && cronTasks[name].waits > 0 {
          evs := [Event.Expire(cronTasks[name].ref)];
          SingleEvent(s, evs[0]);
          ExpireCron(name);
        }
      } else if name in periodicTasks && periodicTasks[name].waits > 0 {
        evs := [Event.Expire(periodicTasks[name].ref)];
        SingleEvent(s, evs[0]);
        ExpirePeriodic(name);
      }
    }

    // What the request amounts to: nothing for a timer that is not armed or a loop without handlers.
    method Perform(request: Request) returns (ghost evs: seq<Event>)
      requires Valid()
      modifies this, ioc, periodicTasks.Values, cronTasks.Values
      ensures Valid() && Run(Free, old(State()), evs) && State() == After(old(State()), evs)
      ensures fresh(periodicTasks.Values - old(periodicTasks.Values))
      ensures fresh(cronTasks.Values - old(cronTasks.Values))
    {
      hide Step, State;
      ghost var s := State();
      evs := [];
      match request
      case Add(name, interval, delay) =>
        evs := [Event.AddTask(name, interval, delay)];
        SingleEvent(s, evs[0]);
        AddTask(name, interval, delay);
      case AddOneTime(name, delay) =>
        evs := [Event.AddOneTimeTask(name, delay)];
        SingleEvent(s, evs[0]);
        AddOneTimeTask(name, delay);
      case AddWaitable(name, delay) =>
        evs := [Event.AddWaitableOneTimeTask(name, delay)];
        SingleEvent(s, evs[0]);
        var _ := AddWaitableOneTimeTask(name, delay);
      case AddCron(name) =>
        evs := [Event.AddCronTask(name)];
        SingleEvent(s, evs[0]);
        AddCronTask(name);
      case ShutDown(name) =>
        evs := [Event.Shutdown(name)];
        SingleEvent(s, evs[0]);
        ShutdownIsStep(s, name);
        ShutdownTask(name);
      case ShutDownAll =>
        evs := StopAll();
      case TimerExpires(isCron, name) =>
        evs := Expire(isCron, name);
      case RunNext(o, delay) =>
        if ioc.queue != [] {
          evs := [Handle(ioc.queue[0], o)];
          HandlerIsQueued();
          SingleEvent(s, evs[0]);
          RunOne(o, delay);
        }
    }

    lemma HandlerIsQueued()
      requires Valid() && ioc.queue != []
      ensures ioc.queue[0] in State().queue
    {
    }
  }

  // A call from outside, the expiry of a timer, or the next handler of the loop with what its task does and the delay
  // a cron expression gives next.
  datatype Request =
    | Add(name: string, interval: int, delay: int)
    | AddOneTime(name: string, delay: int)
    | AddWaitable(name: string, delay: int)
    | AddCron(name: string)
    | ShutDown(name: string)
    | ShutDownAll
    | TimerExpires(isCron: bool, name: string)
    | RunNext(outcome: Outcome, delay: int)

  // Any run of the class is a run of the specification. If it is courteous, every handler keeps its entry and every
  // future tells the outcome of its task; and whatever it is, handlers keep their entries exactly in guarded runs.
  method Drive(scheduler: Scheduler, requests: seq<Request>) returns (ghost evs: seq<Event>)
    requires scheduler.Valid()
    modifies scheduler, scheduler.ioc, scheduler.periodicTasks.Values, scheduler.cronTasks.Values
    ensures scheduler.Valid()
    ensures Run(Free, old(scheduler.State()), evs) && scheduler.State() == After(old(scheduler.State()), evs)
    ensures Inv(old(scheduler.State())) ==>
      (NeverDangles(old(scheduler.State()), evs) <==> Run(Guarded, old(scheduler.State()), evs))
    ensures Good(old(scheduler.State())) && Run(Courteous, old(scheduler.State()), evs) ==>
      && Run(Guarded, old(scheduler.State()), evs) && Inv(scheduler.State())
      && Settles(old(scheduler.State()), scheduler.State())
      && forall f: nat | f < |scheduler.ioc.futures| :: FutureOk(scheduler.State(), f)
  {
    evs := [];
    ghost var start := scheduler.State();
    for i := 0 to |requests|
      invariant scheduler.Valid() && Run(Free, start, evs) && scheduler.State() == After(start, evs)
      invariant fresh(scheduler.periodicTasks.Values - old(scheduler.periodicTasks.Values))
      invariant fresh(scheduler.cronTasks.Values - old(scheduler.cronTasks.Values))
    {
      ghost var more := scheduler.Perform(requests[i]);
      RunConcat(start, evs, more);
      evs := evs + more;
    }
    if Inv(start) { SafeIffGuarded(start, evs); }
    if Good(start) && Run(Courteous, start, evs) {
      CourteousRun(start, evs);
      FuturesKeptByRun(start, evs);
    }
  }

  // A run that stops entries, none of them twice.
  ghost predicate HaltsOf(s: State, evs: seq<Event>) {
    && Run(Free, s, evs)
    && (forall ev <- evs :: ev.Halt? && s.Live(ev.ref))
    && forall i, j | 0 <= i < j < |evs| :: evs[i] != evs[j]
  }

  lemma NothingHalted(s: State)
    ensures HaltsOf(s, []) && After(s, []) == s
  {
  }

  lemma HaltsSilence(s: State, evs: seq<Event>)
    requires HaltsOf(s, evs) && Inv(s) && forall ref: Ref | s.Live(ref) :: Halt(ref) in evs
    ensures forall ref: Ref | s.Live(ref) :: CanRunAgain(After(s, evs), ref.id) <==> s.Posted(ref) > 0
  {
    hide Inv, CanRunAgain, After;
    ShutdownSilencesUnposted(s, evs);
  }

  lemma AnotherHalt(s: State, evs: seq<Event>, ref: Ref)
    requires HaltsOf(s, evs) && s.Live(ref) && After(s, evs).Live(ref) && Halt(ref) !in evs
    ensures HaltsOf(s, evs + [Halt(ref)]) && After(s, evs + [Halt(ref)]) == Stop(After(s, evs), ref)
  {
    AfterOne(s, evs, Halt(ref));
  }

  lemma SingleEvent(s: State, ev: Event)
    requires Enabled(s, ev)
    ensures Run(Free, s, [ev]) && After(s, [ev]) == Step(s, ev)
  {
    assert [ev][1..] == [];
  }

  lemma ShutdownIsStep(s: State, name: string)
    ensures Step(s, Event.Shutdown(name)) == ShutdownName(s, name)
  {
  }

  lemma {:induction false} RunConcat(s: State, evs: seq<Event>, more: seq<Event>)
    requires Run(Free, s, evs) && Run(Free, After(s, evs), more)
    ensures Run(Free, s, evs + more) && After(s, evs + more) == After(After(s, evs), more)
    decreases |evs|
  {
    hide Step, Enabled;
    if evs == [] {
      assert evs + more == more;
    } else {
      RunConcat(Step(s, evs[0]), evs[1..], more);
      assert (evs + more)[1..] == evs[1..] + more;
    }
  }

  lemma AfterOne(s: State, evs: seq<Event>, ev: Event)
    requires Run(Free, s, evs) && Enabled(After(s, evs), ev)
    ensures Run(Free, s, evs + [ev]) && After(s, evs + [ev]) == Step(After(s, evs), ev)
  {
    SingleEvent(After(s, evs), ev);
    RunConcat(s, evs, [ev]);
  }
}
