// The two-stage log filter: a filter in the logging core and one in each sink.
module LogStream {
  import opened Bytes
  import opened Wrappers

  datatype Level = Trace | Debug | Info | Warning | Error | Fatal {
    function Rank(): nat {
      match this
      case Trace => 0
      case Debug => 1
      case Info => 2
      case Warning => 3
      case Error => 4
      case Fatal => 5
    }
  }

  // boost::log::trivial::from_string
  function LevelOf(name: Bytes): Option<Level> {
    if name == "trace" then Some(Trace)
    else if name == "debug" then Some(Debug)
    else if name == "info" then Some(Info)
    else if name == "warning" then Some(Warning)
    else if name == "error" then Some(Error)
    else if name == "fatal" then Some(Fatal)
    else None
  }

  const LEVEL_NAMES: seq<Bytes> := ["trace", "debug", "info", "warning", "error", "fatal"]

  // Six names in the order of their severity, and no others.
  lemma LevelTable(name: Bytes)
    ensures LevelOf(name).Some? <==> name in LEVEL_NAMES
    ensures LevelOf(name).Some? ==> LEVEL_NAMES[LevelOf(name).value.Rank()] == name
  {
  }

  // A record may lack either attribute.
  datatype Record = Record(severity: Option<Level>, channel: Option<Bytes>)

  predicate AtLeast(record: Record, level: Level) {
    record.severity.Some? && record.severity.value.Rank() >= level.Rank()
  }

  // ---- the core filter is a copy of the levels at the time it was set ----

  datatype CoreFilter = CoreFilter(channelLevels: map<Bytes, Level>, globalLevel: Level)

  function EffectiveLevel(f: CoreFilter, channel: Option<Bytes>): Level {
    if channel.Some? && channel.value in f.channelLevels then f.channelLevels[channel.value] else f.globalLevel
  }

  predicate CorePasses(f: CoreFilter, record: Record) {
    AtLeast(record, EffectiveLevel(f, record.channel))
  }

  // ---- sinks ----

  class Sink {
    var minimum: Option<Level>

    constructor ()
      ensures minimum == None
    {
      minimum := None;
    }

    method SetFilter(level: Level)
      modifies this
      ensures minimum == Some(level)
    {
      minimum := Some(level);
    }

    predicate Passes(record: Record)
      reads this
    {
      minimum.None? || AtLeast(record, minimum.value)
    }
  }

  class Core {
    var filter: Option<CoreFilter>
    var sinks: seq<Sink>

    constructor ()
      ensures filter == None && sinks == []
    {
      filter, sinks := None, [];
    }

    // Whether the record comes out of the sink: without a filter the core passes everything.
    predicate Emits(sink: Sink, record: Record)
      reads this, sink
    {
      sink in sinks && (filter.None? || CorePasses(filter.value, record)) && sink.Passes(record)
    }
  }

  // ---- levels over a run ----

  datatype Levels = Levels(severity: Level, currentLevel: Bytes, channelLevels: map<Bytes, Level>)

  datatype Event = SetSeverity(name: Bytes) | SetChannelSeverity(channel: Bytes, name: Bytes)
                 | AddFile | AddWebSocket | AddLoggingWebSocket

  function Apply(s: Levels, event: Event): Levels {
    match event
    case SetSeverity(name) =>
      if LevelOf(name).Some? then Levels(LevelOf(name).value, name, map[]) else s
    case SetChannelSeverity(channel, name) =>
      if LevelOf(name).Some? then s.(channelLevels := s.channelLevels[channel := LevelOf(name).value]) else s
    case _ => s
  }

  function After(s: Levels, events: seq<Event>): Levels {
    if events == [] then s else Apply(After(s, events[..|events| - 1]), events[|events| - 1])
  }

  function FilterOf(s: Levels): CoreFilter {
    CoreFilter(s.channelLevels, s.severity)
  }

  // The one rule a reader of the history would state: the latest call with a known level that concerns the channel, a
  // global one or one for this channel, decides.
  function Rule(events: seq<Event>, channel: Option<Bytes>, initial: Level): Level {
    if events == [] then initial
    else
      var before := events[..|events| - 1];
      match events[|events| - 1]
      case SetSeverity(name) => if LevelOf(name).Some? then LevelOf(name).value else Rule(before, channel, initial)
      case SetChannelSeverity(c, name) =>
        if LevelOf(name).Some? && channel == Some(c) then LevelOf(name).value else Rule(before, channel, initial)
      case _ => Rule(before, channel, initial)
  }

  lemma {:induction false} RunFollowsRule(s: Levels, events: seq<Event>, channel: Option<Bytes>)
    requires s.channelLevels == map[]
    ensures EffectiveLevel(FilterOf(After(s, events)), channel) == Rule(events, channel, s.severity)
  {
    if events != [] { RunFollowsRule(s, events[..|events| - 1], channel); }
  }

  // The name reported for the global level is the name of that level.
  lemma {:induction false} CurrentLevelNamesSeverity(s: Levels, events: seq<Event>)
    requires LevelOf(s.currentLevel) == Some(s.severity)
    ensures LevelOf(After(s, events).currentLevel) == Some(After(s, events).severity)
  {
    if events != [] { CurrentLevelNamesSeverity(s, events[..|events| - 1]); }
  }

  predicate Known(event: Event) {
    match event
    case SetSeverity(name) => LevelOf(name).Some?
    case SetChannelSeverity(_, name) => LevelOf(name).Some?
    case _ => false
  }

  function KnownOnly(events: seq<Event>): seq<Event> {
    if events == [] then []
    else KnownOnly(events[..|events| - 1]) + if Known(events[|events| - 1]) then [events[|events| - 1]] else []
  }

  lemma {:induction false} UnknownLevelsChangeNothing(s: Levels, events: seq<Event>)
    ensures After(s, events) == After(s, KnownOnly(events))
  {
    if events != [] {
      var before, last := events[..|events| - 1], events[|events| - 1];
      UnknownLevelsChangeNothing(s, before);
      var kept := KnownOnly(before);
      if Known(last) {
        assert (kept + [last])[..|kept + [last]| - 1] == kept;
      } else {
        assert kept + [] == kept;
      }
    }
  }

  // ---- the minimum over all levels ----

  predicate IsMinimum(level: Level, channelLevels: map<Bytes, Level>, globalLevel: Level) {
    && level.Rank() <= globalLevel.Rank()
    && (forall c <- channelLevels :: level.Rank() <= channelLevels[c].Rank())
    && (level == globalLevel || exists c <- channelLevels :: level == channelLevels[c])
  }

  // A sink that filters by the minimum drops nothing the core passes, and no higher filter would do.
  lemma MinimumIsTheBound(level: Level, f: CoreFilter, minimum: Level)
    requires IsMinimum(minimum, f.channelLevels, f.globalLevel)
    ensures (forall r: Record | CorePasses(f, r) :: AtLeast(r, level)) <==> level.Rank() <= minimum.Rank()
  {
    if level.Rank() <= minimum.Rank() {
      forall r: Record | CorePasses(f, r) ensures AtLeast(r, level) {}
    } else {
      var channel: Option<Bytes> := None;
      if minimum != f.globalLevel {
        var c :| c in f.channelLevels && f.channelLevels[c] == minimum;
        channel := Some(c);
        assert EffectiveLevel(f, channel) == minimum;
      }
      var r := Record(Some(minimum), channel);
      assert CorePasses(f, r) && !AtLeast(r, level);
    }
  }

  // ---- the static members of the class ----

  class LogStream {
    const core: Core
    var severity: Level
    var currentLevel: Bytes
    var channelLevels: map<Bytes, Level>
    var consoleSink: Option<Sink>
    var fileSink: Option<Sink>
    var webSocketSink: Option<Sink>
    var loggingWsSink: Option<Sink>

    ghost function State(): Levels
      reads this
    {
      Levels(severity, currentLevel, channelLevels)
    }

    ghost function Referenced(): set<Sink>
      reads this
    {
      SinkSet(consoleSink) + SinkSet(fileSink) + SinkSet(webSocketSink) + SinkSet(loggingWsSink)
    }

    ghost predicate Registered()
      reads this, core
    {
      forall s <- Referenced() :: s in core.sinks
    }

    // Both stages are up to date.
    ghost predicate Consistent()
      reads this, core, Referenced()
    {
      && Registered()
      && core.filter == Some(FilterOf(State()))
      && forall s <- Referenced() :: s.minimum.Some? && IsMinimum(s.minimum.value, channelLevels, severity)
    }

    // A zero-initialised severity beside the name "info": the two differ until Initialize.
    constructor (core: Core)
      ensures this.core == core && Referenced() == {}
      ensures State() == Levels(Trace, "info", map[])
    {
      this.core := core;
      severity, currentLevel, channelLevels := Trace, "info", map[];
      consoleSink, fileSink, webSocketSink, loggingWsSink := None, None, None, None;
    }

    method MostVerbose() returns (minLevel: Level)
      ensures IsMinimum(minLevel, channelLevels, severity)
    {
      minLevel := severity;
      var channels := Ascending(channelLevels.Keys);
      for i := 0 to |channels|
        invariant minLevel.Rank() <= severity.Rank()
        invariant forall j | 0 <= j < i ::
          channels[j] in channels && minLevel.Rank() <= channelLevels[channels[j]].Rank()
        invariant minLevel == severity || exists c <- channelLevels :: minLevel == channelLevels[c]
      {
        assert channels[i] in channels;
        var level := channelLevels[channels[i]];
        if level.Rank() < minLevel.Rank() { minLevel := level; }
      }
      forall c <- channelLevels ensures minLevel.Rank() <= channelLevels[c].Rank() { assert c in channels; }
    }

    method UpdateFilter()
      requires Registered()
      modifies core`filter, Referenced()
      ensures Consistent()
    {
      var minLevel := MostVerbose();
      hide IsMinimum;
      if consoleSink.Some? { consoleSink.value.SetFilter(minLevel); }
      if fileSink.Some? { fileSink.value.SetFilter(minLevel); }
      if webSocketSink.Some? { webSocketSink.value.SetFilter(minLevel); }
      if loggingWsSink.Some? { loggingWsSink.value.SetFilter(minLevel); }
      core.filter := Some(CoreFilter(channelLevels, severity));
    }

    method SetSeverity(name: Bytes)
      requires Registered()
      modifies `severity, `currentLevel, `channelLevels, core`filter, Referenced()
      ensures State() == Apply(old(State()), Event.SetSeverity(name))
      ensures Registered() && (LevelOf(name).Some? || old(Consistent()) ==> Consistent())
      ensures LevelOf(name).None? ==> core.filter == old(core.filter) && forall s <- Referenced() :: unchanged(s)
    {
      if LevelOf(name).None? { return; }
      severity := LevelOf(name).value;
      currentLevel := name;
      channelLevels := map[];
      UpdateFilter();
    }

    method SetChannelSeverity(channel: Bytes, name: Bytes)
      requires Registered()
      modifies `channelLevels, core`filter, Referenced()
      ensures State() == Apply(old(State()), Event.SetChannelSeverity(channel, name))
      ensures Registered() && (LevelOf(name).Some? || old(Consistent()) ==> Consistent())
      ensures LevelOf(name).None? ==> core.filter == old(core.filter) && forall s <- Referenced() :: unchanged(s)
    {
      var level := LevelOf(name);
      if level.None? { return; }
      channelLevels := channelLevels[channel := level.value];
      UpdateFilter();
    }

    method Initialize(consoleActive: bool)
      requires Registered() && LevelOf(currentLevel).Some?
      modifies `severity, `currentLevel, `channelLevels, `consoleSink, core, Referenced()
      ensures State() == Levels(LevelOf(old(currentLevel)).value, old(currentLevel), map[])
      ensures Consistent() && fresh(Referenced() - old(Referenced())) && (consoleActive ==> consoleSink.Some?)
    {
      if consoleActive {
        var sink := new Sink();
        core.sinks := core.sinks + [sink];
        consoleSink := Some(sink);
      }
      SetSeverity(currentLevel);
    }

    // A sink added before stays registered with the core, but is not referenced any more.
    method AddFile()
      requires Registered()
      modifies `fileSink, core, Referenced()
      ensures State() == old(State()) && Consistent() && fileSink.Some? && fresh(fileSink.value)
      ensures forall s <- old(Referenced()) - Referenced() :: unchanged(s)
      ensures core.sinks == old(core.sinks) + [fileSink.value] && Referenced() <= old(Referenced()) + {fileSink.value}
    {
      var sink := new Sink();
      core.sinks := core.sinks + [sink];
      fileSink := Some(sink);
      UpdateFilter();
    }

    method AddWebSocket()
      requires Registered()
      modifies `webSocketSink, core, Referenced()
      ensures State() == old(State()) && Consistent() && webSocketSink.Some? && fresh(webSocketSink.value)
      ensures forall s <- old(Referenced()) - Referenced() :: unchanged(s)
      ensures core.sinks == old(core.sinks) + [webSocketSink.value]
        && Referenced() <= old(Referenced()) + {webSocketSink.value}
    {
      var sink := new Sink();
      core.sinks := core.sinks + [sink];
      webSocketSink := Some(sink);
      UpdateFilter();
    }

    method AddLoggingWebSocket()
      requires Registered()
      modifies `loggingWsSink, core, Referenced()
      ensures State() == old(State()) && Consistent() && loggingWsSink.Some? && fresh(loggingWsSink.value)
      ensures forall s <- old(Referenced()) - Referenced() :: unchanged(s)
      ensures core.sinks == old(core.sinks) + [loggingWsSink.value]
        && Referenced() <= old(Referenced()) + {loggingWsSink.value}
    {
      var sink := new Sink();
      core.sinks := core.sinks + [sink];
      loggingWsSink := Some(sink);
      UpdateFilter();
    }

    method Handle(event: Event)
      requires Consistent()
      modifies this, core, Referenced()
      ensures Consistent() && State() == Apply(old(State()), event)
      ensures fresh(Referenced() - old(Referenced()))
    {
      match event
      case SetSeverity(name) => SetSeverity(name);
      case SetChannelSeverity(channel, name) => SetChannelSeverity(channel, name);
      case AddFile => AddFile();
      case AddWebSocket => AddWebSocket();
      case AddLoggingWebSocket => AddLoggingWebSocket();
    }

    lemma TwoStagesAreOne(record: Record)
      requires Consistent()
      ensures forall s <- Referenced() :: core.Emits(s, record) <==> CorePasses(FilterOf(State()), record)
    {
      forall s <- Referenced() ensures core.Emits(s, record) <==> CorePasses(FilterOf(State()), record) {
        MinimumIsTheBound(s.minimum.value, FilterOf(State()), s.minimum.value);
      }
    }
  }

  ghost function SinkSet(s: Option<Sink>): set<Sink> {
    if s.Some? then {s.value} else {}
  }

  // Any run after initialisation: every sink the class still refers to emits a record exactly when the level that
  // the history gives to its channel lets it through.
  method Run(log: LogStream, events: seq<Event>)
    requires log.Consistent() && log.channelLevels == map[]
    modifies log, log.core, log.Referenced()
    ensures log.Consistent() && log.State() == After(old(log.State()), events)
    ensures forall s <- log.Referenced(), r: Record ::
      log.core.Emits(s, r) <==>
        r.severity.Some? && r.severity.value.Rank() >= Rule(events, r.channel, old(log.severity)).Rank()
  {
    ghost var start := log.State();
    for i := 0 to |events|
      invariant log.Consistent() && log.State() == After(start, events[..i])
      invariant fresh(log.Referenced() - old(log.Referenced()))
    {
      assert events[..i + 1][..i] == events[..i];
      log.Handle(events[i]);
    }
    assert events[..|events|] == events;
    forall s <- log.Referenced(), r: Record
      ensures log.core.Emits(s, r) <==> AtLeast(r, Rule(events, r.channel, old(log.severity)))
    {
      log.TwoStagesAreOne(r);
      RunFollowsRule(start, events, r.channel);
    }
  }

  // A replaced sink is not such a sink: it is still registered, but keeps the filter of the time it was replaced.
  method ReplacedSinkFallsBehind(log: LogStream) returns (replaced: Sink, record: Record)
    requires log.Consistent() && log.fileSink.Some? && log.State() == Levels(Info, "info", map[])
    requires forall s <- SinkSet(log.consoleSink) + SinkSet(log.webSocketSink) + SinkSet(log.loggingWsSink) ::
      s != log.fileSink.value
    modifies log, log.core, log.Referenced()
    ensures log.Consistent() && replaced == old(log.fileSink).value && replaced in log.core.sinks
    ensures CorePasses(FilterOf(log.State()), record) && !log.core.Emits(replaced, record)
  {
    hide IsMinimum;
    replaced := log.fileSink.value;
    record := Record(Some(Trace), None);
    assert replaced in SinkSet(log.fileSink);
    assert replaced in log.Referenced();
    assert replaced !in SinkSet(log.consoleSink) + SinkSet(log.webSocketSink) + SinkSet(log.loggingWsSink);
    OnlyMinimum(replaced.minimum.value, Info);
    label before:
    log.AddFile();
    assert replaced !in SinkSet(log.fileSink);
    assert replaced !in log.Referenced();
    assert replaced in old@before(log.Referenced()) - log.Referenced();
    assert unchanged@before(replaced);
    log.SetSeverity("trace");
  }

  lemma OnlyMinimum(level: Level, globalLevel: Level)
    requires IsMinimum(level, map[], globalLevel)
    ensures level == globalLevel
  {
  }
}
