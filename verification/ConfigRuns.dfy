/** What holds over every run of reloads, conf sets and reconnecting servers. */
module ConfigRuns {
  import opened Wrappers
  import opened Alerts
  import opened ConfigTransfer

  /** A change of one configuration key, by the part of the configuration it touches. */
  datatype Edit =
    | SetStructure(structure: Structure)
    | SetCacheSize(size: nat)
    | SetLogging(logging: Logging)
    | SetTunables(tunables: Tunables)
    | SetEndpoints(endpoints: seq<Endpoint>)
    | SetMetrics(tunables: Tunables, metrics: seq<Metric>, numberOfMetrics: nat, metricNames: seq<string>)
    | SetServer(index: nat, host: string, port: int, settings: ServerSettings)

  datatype Step =
    | Reload(next: Config)
    | ConfSet(edit: Edit)
    | Connected(slot: nat, runtime: Runtime)

  /** What validation asks of the servers; no configuration is transferred before it has passed. */
  predicate Validated(config: Config)
    requires Shaped(config)
  {
    && config.numberOfServers > 0
    && forall i :: 0 <= i < config.numberOfServers ==> config.servers[i].host != "" && config.servers[i].port != 0
  }

  /** A validated configuration whose unused server slots are cleared. */
  ghost predicate Sound(config: Config) {
    && Shaped(config) && Validated(config)
    && forall i :: config.numberOfServers <= i < NUMBER_OF_SERVERS ==> config.servers[i] == ZERO_SERVER
  }

  /** The connection part of a copied server: databases and extensions are copied, the rest is zero. */
  function CopiedRuntime(runtime: Runtime): Runtime {
    ZERO_RUNTIME.(databases := runtime.databases, extensions := runtime.extensions)
  }

  /** The copy that conf set edits. The list of metric names and the TLS files of the history are not copied. */
  function CopiedValues(config: Config): (copy: Config)
    requires Shaped(config)
    ensures Shaped(copy)
  {
    var s := config.settings;
    Config(s.(lists := s.lists.(metricNames := []), startup := Startup("", "", "", s.startup.globalExtensions)),
           seq(NUMBER_OF_SERVERS, i requires 0 <= i < NUMBER_OF_SERVERS =>
             if i < config.numberOfServers
             then config.servers[i].(runtime := CopiedRuntime(config.servers[i].runtime)) else ZERO_SERVER),
           config.numberOfServers,
           seq(NUMBER_OF_METRICS, i requires 0 <= i < NUMBER_OF_METRICS =>
             if i < config.numberOfMetrics then CarriedMetric(ZERO_METRIC, config.metrics[i]) else ZERO_METRIC),
           config.numberOfMetrics)
  }

  /** An edit of the metrics fills the slots there are. */
  predicate Fitting(edit: Edit) {
    edit.SetMetrics? ==> |edit.metrics| == NUMBER_OF_METRICS && edit.numberOfMetrics <= NUMBER_OF_METRICS
  }

  function Edited(config: Config, edit: Edit): (next: Config)
    requires Shaped(config) && Fitting(edit)
    ensures Shaped(next) && next.numberOfServers == config.numberOfServers
  {
    var s := config.settings;
    match edit
    case SetStructure(structure) => config.(settings := s.(structure := structure))
    case SetCacheSize(size) => config.(settings := s.(metricsCacheMaxSize := size))
    case SetLogging(logging) => config.(settings := s.(logging := logging))
    case SetTunables(tunables) => config.(settings := s.(tunables := tunables))
    case SetEndpoints(endpoints) => config.(settings := s.(lists := s.lists.(endpoints := endpoints)))
    case SetMetrics(tunables, metrics, n, names) =>
      config.(settings := s.(tunables := tunables, lists := s.lists.(metricNames := names)), metrics := metrics,
              numberOfMetrics := n)
    case SetServer(index, host, port, settings) =>
      if index < config.numberOfServers then
        config.(servers := config.servers[index := config.servers[index].(host := host, port := port,
                                                                          settings := settings)])
      else config
  }

  /** A transfer as a whole. */
  ghost function Transferred(config: Config, reload: Config): (after: Config)
    requires Shaped(config) && Shaped(reload)
    ensures Shaped(after)
  {
    if Compatible(config, reload) then Applied(config, reload) else config
  }

  /** A reload reads a whole configuration, but never any alerts. */
  ghost predicate Legal(step: Step) {
    && (step.Reload? ==> Shaped(step.next) && step.next.settings.lists.alerts == [])
    && (step.ConfSet? ==> Fitting(step.edit))
  }

  ghost function After(config: Config, step: Step): Config
    requires Sound(config) && Legal(step)
  {
    match step
    case Reload(next) => if Validated(next) then Transferred(config, next) else config
    case ConfSet(edit) =>
      var next := Edited(CopiedValues(config), edit);
      if Validated(next) then Transferred(config, next) else config
    case Connected(slot, runtime) =>
      if slot < config.numberOfServers
      then config.(servers := config.servers[slot := config.servers[slot].(runtime := runtime)]) else config
  }

  // ----- one transfer -----

  /** Whatever never changes while the exporter runs. */
  ghost predicate Keeps(before: Config, after: Config)
    requires Shaped(before) && Shaped(after)
  {
    && after.settings.structure == before.settings.structure
    && after.settings.startup == before.settings.startup
    && (after.settings.metricsCacheMaxSize - before.settings.metricsCacheMaxSize) % INT_RANGE == 0
    && before.numberOfServers <= after.numberOfServers
    && forall i :: 0 <= i < before.numberOfServers ==> SameServer(before.servers[i], after.servers[i])
  }

  /** A denied transfer changes nothing; an applied one keeps the structure, the servers and their connections. */
  lemma {:induction false} TransferKeeps(config: Config, reload: Config)
    requires Sound(config) && Shaped(reload) && Validated(reload)
    ensures Sound(Transferred(config, reload)) && Keeps(config, Transferred(config, reload))
    ensures forall i :: 0 <= i < config.numberOfServers
              ==> Transferred(config, reload).servers[i].runtime == config.servers[i].runtime
  {
    SameInt(config.settings.metricsCacheMaxSize, reload.settings.metricsCacheMaxSize);
  }

  /** The text in a buffer, up to the first zero or the end. */
  function TextOf(buffer: string): string {
    if buffer == [] || buffer[0] == '\0' then [] else [buffer[0]] + TextOf(buffer[1..])
  }

  lemma {:induction false} TextOfHalves(a: string, b: string)
    ensures TextOf(a + b) == if '\0' in a then TextOf(a) else a + TextOf(b)
  {
    if a == [] {
      assert a + b == b;
    } else {
      assert (a + b)[1..] == a[1..] + b;
      TextOfHalves(a[1..], b);
      assert '\0' in a <==> a[0] == '\0' || '\0' in a[1..];
      assert a == [a[0]] + a[1..];
      assert [a[0]] + (a[1..] + TextOf(b)) == [a[0]] + a[1..] + TextOf(b);
    }
  }

  /** Two metrics that are the same to a reader. */
  predicate SameMetric(a: Metric, b: Metric) {
    TextOf(a.tag) == TextOf(b.tag) && a.(tag := b.tag) == b
  }

  /**
   What must agree beforehand for a metric to be taken over: the two flags, and the part of the name behind the first
   128 characters if it reaches so far.
   */
  predicate MetricFollows(current: Metric, next: Metric) {
    && current.execOnAllDbs == next.execOnAllDbs && current.optional == next.optional
    && ('\0' in next.tag[..128] || TextOf(current.tag[128..]) == TextOf(next.tag[128..]))
  }

  lemma {:induction false} MetricTaken(current: Metric, next: Metric)
    ensures SameMetric(CarriedMetric(current, next), next) <==> MetricFollows(current, next)
    ensures |CarriedMetric(current, next).tag| == 256
  {
    hide TextOf;
    var head := next.tag[..MISC_LENGTH];
    TextOfHalves(head, current.tag[MISC_LENGTH..]);
    TextOfHalves(head, next.tag[MISC_LENGTH..]);
    assert next.tag == head + next.tag[MISC_LENGTH..];
    var x, y := TextOf(current.tag[MISC_LENGTH..]), TextOf(next.tag[MISC_LENGTH..]);
    assert head + x == head + y ==> x == (head + x)[|head|..] == (head + y)[|head|..] == y;
  }

  /** Two metrics that differ at most in what a slot keeps. */
  predicate SameButKept(a: Metric, b: Metric) {
    a.(tag := b.tag, execOnAllDbs := b.execOnAllDbs, optional := b.optional) == b
  }

  /** The whole new configuration is in effect: all settings, all metrics, and all of the servers but connections. */
  ghost predicate TakenOver(after: Config, reload: Config)
    requires Shaped(after) && Shaped(reload)
  {
    && after.settings == reload.settings
    && after.numberOfServers == reload.numberOfServers && after.numberOfMetrics == reload.numberOfMetrics
    && (forall i :: 0 <= i < reload.numberOfServers
          ==> after.servers[i].(runtime := ZERO_RUNTIME) == reload.servers[i].(runtime := ZERO_RUNTIME))
    && (forall i :: 0 <= i < reload.numberOfMetrics ==> SameMetric(after.metrics[i], reload.metrics[i]))
  }

  /** What a caller can check of the running and the new configuration to know that the whole of it will take effect. */
  ghost predicate Follows(config: Config, reload: Config)
    requires Shaped(config) && Shaped(reload)
  {
    var log, next := config.settings.logging, reload.settings.logging;
    && (LoggingMoved(log, next) || log.linePrefix == next.linePrefix)
    && config.settings.startup == reload.settings.startup
    && forall i :: 0 <= i < reload.numberOfMetrics ==> MetricFollows(config.metrics[i], reload.metrics[i])
  }

  /**
   A compatible configuration takes effect as a whole exactly when its log line prefix is the present one or another
   log setting changes, its history TLS files and global extensions are the present ones, and its metrics have the
   flags that their slots have already. Everything else is taken over in any case.
   */
  lemma {:induction false} TransferFollows(config: Config, reload: Config)
    requires Shaped(config) && Shaped(reload) && Compatible(config, reload)
    ensures TakenOver(Transferred(config, reload), reload) <==> Follows(config, reload)
    ensures var after := Transferred(config, reload).settings;
            && after.(logging := reload.settings.logging, startup := reload.settings.startup) == reload.settings
            && after.logging.(linePrefix := reload.settings.logging.linePrefix) == reload.settings.logging
    ensures var after := Transferred(config, reload);
            && after.numberOfServers == reload.numberOfServers && after.numberOfMetrics == reload.numberOfMetrics
            && (forall i :: 0 <= i < reload.numberOfServers
                  ==> after.servers[i].(runtime := ZERO_RUNTIME) == reload.servers[i].(runtime := ZERO_RUNTIME))
            && (forall i :: 0 <= i < reload.numberOfMetrics ==> SameButKept(after.metrics[i], reload.metrics[i]))
  {
    hide SameMetric, MetricFollows;
    var after := Transferred(config, reload);
    forall i | 0 <= i < reload.numberOfMetrics
      ensures SameMetric(after.metrics[i], reload.metrics[i]) <==> MetricFollows(config.metrics[i], reload.metrics[i])
    {
      MetricTaken(config.metrics[i], reload.metrics[i]);
    }
  }

  /** A server that a transfer adds starts unconnected: no SSL, fd -1, not new, nothing known, FIPS unknown. */
  lemma {:induction false} AddedServer(config: Config, reload: Config, i: nat)
    requires Sound(config) && Shaped(reload) && Validated(reload) && Compatible(config, reload)
    requires config.numberOfServers <= i < reload.numberOfServers
    ensures Transferred(config, reload).servers[i]
            == reload.servers[i].(runtime := Runtime(None, -1, false, 0, 0, 0, 0, 0, -1, [], []))
  {
    assert config.servers[i] == ZERO_SERVER;
  }

  /**
   A reload is accepted and in force if there are servers, all with a host and a port, the structural fields are the
   same, the cache sizes are the same int, no server is gone, and every server in use has the host and the port it had.
   Otherwise nothing changes.
   */
  lemma {:induction false} ReloadDecided(config: Config, next: Config)
    requires Sound(config) && Shaped(next) && next.settings.lists.alerts == []
    ensures Legal(Reload(next))
    ensures var after := After(config, Reload(next));
            if && next.numberOfServers > 0
               && (forall i :: 0 <= i < next.numberOfServers
                     ==> next.servers[i].host != "" && next.servers[i].port != 0)
               && config.settings.structure == next.settings.structure
               && (next.settings.metricsCacheMaxSize - config.settings.metricsCacheMaxSize) % 0x1_0000_0000 == 0
               && config.numberOfServers <= next.numberOfServers
               && forall i :: 0 <= i < config.numberOfServers
                    ==> config.servers[i].host == next.servers[i].host && config.servers[i].port == next.servers[i].port
            then
              && after.settings.metricsCacheMaxSize == next.settings.metricsCacheMaxSize
              && after.settings.tunables == next.settings.tunables && after.settings.lists == next.settings.lists
              && after.numberOfServers == next.numberOfServers && after.numberOfMetrics == next.numberOfMetrics
              && forall i :: 0 <= i < next.numberOfServers
                   ==> after.servers[i] == next.servers[i].(runtime := after.servers[i].runtime)
            else
              after == config
  {
    SameInt(config.settings.metricsCacheMaxSize, next.settings.metricsCacheMaxSize);
  }

  /** Applying the same configuration twice is applying it once. */
  lemma {:induction false} TransferTwice(config: Config, reload: Config)
    requires Shaped(config) && Shaped(reload)
    ensures var once := Transferred(config, reload); Transferred(once, reload) == once
  {
    var once := Transferred(config, reload);
    if Compatible(config, reload) {
      assert Compatible(once, reload);
      var twice := Applied(once, reload);
      assert twice.servers == once.servers;
      forall i | 0 <= i < reload.numberOfMetrics ensures twice.metrics[i] == once.metrics[i] {
        CarriedTwice(config.metrics[i], reload.metrics[i]);
      }
      assert twice.metrics == once.metrics;
    }
  }

  lemma {:induction false} CarriedTwice(current: Metric, next: Metric)
    ensures CarriedMetric(CarriedMetric(current, next), next) == CarriedMetric(current, next)
  {
    assert (next.tag[..MISC_LENGTH] + current.tag[MISC_LENGTH..])[MISC_LENGTH..] == current.tag[MISC_LENGTH..];
  }

  /** An applied reload leaves no alerts, whatever was configured: only the start reads them. */
  lemma {:induction false} ReloadDropsAlerts(config: Config, next: Config)
    requires Sound(config) && Legal(Reload(next)) && Validated(next)
    ensures Compatible(config, next) ==> After(config, Reload(next)).settings.lists.alerts == []
    ensures After(config, Reload(next)).settings.lists.alerts == config.settings.lists.alerts
            <==> !Compatible(config, next) || config.settings.lists.alerts == []
  {
  }

  // ----- conf set -----

  /** A metric slot that was copied and copied back is as it was. */
  lemma {:induction false} CopiedBack(metric: Metric)
    ensures CarriedMetric(metric, CarriedMetric(ZERO_METRIC, metric)) == metric
  {
    var half := metric.tag[..MISC_LENGTH];
    assert (half + ZERO_METRIC.tag[MISC_LENGTH..])[..MISC_LENGTH] == half;
    assert half + metric.tag[MISC_LENGTH..] == metric.tag;
  }

  /** The part of the copy's way back that an edit may leave alone. */
  lemma {:induction false} SlotsBack(config: Config)
    requires Sound(config)
    ensures Compatible(config, CopiedValues(config)) && Validated(CopiedValues(config))
    ensures Applied(config, CopiedValues(config)).servers == config.servers
    ensures Applied(config, CopiedValues(config)).metrics == config.metrics
  {
    var copy := CopiedValues(config);
    var after := Applied(config, copy);
    forall i | 0 <= i < NUMBER_OF_METRICS ensures after.metrics[i] == config.metrics[i] {
      CopiedBack(config.metrics[i]);
    }
    forall i | 0 <= i < NUMBER_OF_SERVERS ensures after.servers[i] == config.servers[i] {
    }
  }

  function WithoutNames(config: Config): Config {
    config.(settings := config.settings.(lists := config.settings.lists.(metricNames := [])))
  }

  /**
   Without an edit, the round trip through the copy gives back the configuration, its connections and metrics
   included, except that the metric names are gone.
   */
  lemma {:induction false} CopyTransferred(config: Config)
    requires Sound(config)
    ensures Transferred(config, CopiedValues(config)) == WithoutNames(config)
  {
    SlotsBack(config);
  }

  /** An edit that validation and the check for a restart let through. */
  ghost predicate Accepted(config: Config, edit: Edit)
    requires Sound(config) && Fitting(edit)
  {
    var next := Edited(CopiedValues(config), edit);
    Validated(next) && Compatible(config, next)
  }

  /** Every accepted edit empties the metric names, unless it reads the metrics again. */
  lemma {:induction false} ConfSetNames(config: Config, edit: Edit)
    requires Sound(config) && Fitting(edit) && Accepted(config, edit)
    ensures After(config, ConfSet(edit)).settings.lists.metricNames == if edit.SetMetrics? then edit.metricNames else []
  {
  }

  /**
   What an accepted edit makes of the running configuration: the edit itself, with the metric names gone, and with the
   log settings as they were if only their line prefix was to change. It is exact if and only if there were no metric
   names and that is not the case.
   */
  lemma {:induction false} ConfSetExact(config: Config, edit: Edit)
    requires Sound(config) && Fitting(edit) && Accepted(config, edit) && !edit.SetMetrics?
    ensures var after, wanted := After(config, ConfSet(edit)), Edited(config, edit);
            var log, next := config.settings.logging, wanted.settings.logging;
            var kept := if LoggingMoved(log, next) then next else log;
            && after == WithoutNames(wanted.(settings := wanted.settings.(logging := kept)))
            && (after == wanted <==> config.settings.lists.metricNames == [] && kept == next)
  {
    var copy := CopiedValues(config);
    SlotsBack(config);
    var next := Edited(copy, edit);
    var after, wanted := Applied(config, next), Edited(config, edit);
    assert after.metrics == Applied(config, copy).metrics == wanted.metrics;
    forall i | 0 <= i < NUMBER_OF_SERVERS ensures after.servers[i] == wanted.servers[i] {
      assert Applied(config, copy).servers[i] == config.servers[i];
    }
    assert after.servers == wanted.servers;
  }

  /** What the answer to a conf set says. */
  datatype Status = Success | RestartRequired | NoChange

  /** The answer compares the texts of the value before and after; an empty text counts as a change. */
  function Answer(restart: bool, before: string, after: string): Status {
    if restart then RestartRequired
    else if before != "" && after != "" && before == after then NoChange
    else Success
  }

  lemma {:induction false} AnswerMeans(restart: bool, before: string, after: string)
    ensures Answer(restart, before, after) == RestartRequired <==> restart
    ensures Answer(restart, before, after) == NoChange <==> !restart && before == after && before != ""
  {
  }

  /**
   Setting the line prefix of the log alone is accepted and leaves it as it was, yet empties the metric names. The
   answer is that the value is unchanged, or success if there was no prefix before.
   */
  lemma {:induction false} LinePrefixAlone(config: Config, prefix: string)
    requires Sound(config)
    ensures var edit := SetLogging(config.settings.logging.(linePrefix := prefix));
            var was, after := config.settings.logging.linePrefix, After(config, ConfSet(edit));
            && Accepted(config, edit) && after == WithoutNames(config)
            && Answer(false, was, after.settings.logging.linePrefix) == if was == "" then Success else NoChange
  {
    SlotsBack(config);
    ConfSetExact(config, SetLogging(config.settings.logging.(linePrefix := prefix)));
  }

  /**
   Every edit of tunables, logging, endpoints, metrics or server settings is accepted; an edit of the structure, of the
   cache size, or of a server's host or port is refused unless it changes nothing that is compared, and then nothing
   changes at all.
   */
  lemma {:induction false} ConfSetDecided(config: Config, edit: Edit)
    requires Sound(config) && Fitting(edit)
    ensures var accepted :=
              match edit
              case SetStructure(structure) => structure == config.settings.structure
              case SetCacheSize(size) => (size - config.settings.metricsCacheMaxSize) % 0x1_0000_0000 == 0
              case SetServer(i, host, port, _) =>
                i < config.numberOfServers ==> host == config.servers[i].host && port == config.servers[i].port
              case _ => true;
            && (accepted <==> Accepted(config, edit))
            && (!accepted ==> After(config, ConfSet(edit)) == config)
  {
    var next := Edited(CopiedValues(config), edit);
    SlotsBack(config);
    SameInt(config.settings.metricsCacheMaxSize, next.settings.metricsCacheMaxSize);
    if edit.SetServer? && edit.index < config.numberOfServers {
      assert SameServer(config.servers[edit.index], next.servers[edit.index])
          <==> edit.host == config.servers[edit.index].host && edit.port == config.servers[edit.index].port;
    }
  }

  /** What an accepted edit has put in force. */
  lemma {:induction false} ConfSetInForce(config: Config, edit: Edit)
    requires Sound(config) && Fitting(edit) && Accepted(config, edit)
    ensures var after := After(config, ConfSet(edit));
            match edit
            case SetStructure(structure) => after.settings.structure == structure
            case SetCacheSize(size) => after.settings.metricsCacheMaxSize == size
            case SetLogging(logging) => after.settings.logging.(linePrefix := logging.linePrefix) == logging
            case SetTunables(tunables) => after.settings.tunables == tunables
            case SetEndpoints(endpoints) => after.settings.lists.endpoints == endpoints
            case SetMetrics(tunables, metrics, n, names) =>
              && after.settings.tunables == tunables && after.numberOfMetrics == n
              && after.settings.lists.metricNames == names
              && forall i :: 0 <= i < n ==> SameButKept(after.metrics[i], metrics[i])
            case SetServer(i, host, port, settings) =>
              i < config.numberOfServers ==>
                after.servers[i] == config.servers[i].(host := host, port := port, settings := settings)
  {
  }

  // ----- an example -----

  /** One server, one metric name, one alert, and a certificate for the history. */
  function Example(): Config {
    var structure := Structure("localhost", 5002, -1, -1, -1, -1, -1, -1, 0, "/tmp", "", 0, 0);
    var tunables := Tunables(0, 0, 300, 0, 0, 0, 0, 0, "", 0, 0, 0, "", true, true, false, 0, "", "", "", "", "", "",
                             30, 5, true, true, true, 16, 0, [], [], "", "");
    var alert := Zeroed("down");
    var settings := Settings(structure, 0, Logging("", 0, 0, 0, ""), tunables, Startup("history.crt", "", "", ""),
                             Lists([], [], ["pgexporter_state"], [alert], []));
    var server := Server("primary", "localhost", 5432, ServerSettings(0, 0, "user", "", "", "", "", "", ""),
                         FRESH_RUNTIME);
    Config(settings, seq(NUMBER_OF_SERVERS, i => if i == 0 then server else ZERO_SERVER), 1,
           seq(NUMBER_OF_METRICS, _ => ZERO_METRIC), 0)
  }

  /** Setting the tunables to what they are loses the metric name. */
  lemma {:induction false} NamesForgotten()
    ensures Sound(Example()) && Example().settings.lists.metricNames == ["pgexporter_state"]
    ensures var edit := SetTunables(Example().settings.tunables);
            Accepted(Example(), edit) && After(Example(), ConfSet(edit)).settings.lists.metricNames == []
  {
    var edit := SetTunables(Example().settings.tunables);
    SlotsBack(Example());
    assert Edited(CopiedValues(Example()), edit) == CopiedValues(Example());
    ConfSetNames(Example(), edit);
  }

  /** Reloading with another certificate for the history is accepted, keeps the old certificate and loses the alert. */
  lemma {:induction false} CertificateKept()
    ensures var s := Example().settings;
            var next := Example().(settings := s.(startup := s.startup.(historyCertFile := "new.crt"),
                                                  lists := s.lists.(alerts := [])));
            var after := After(Example(), Reload(next)).settings;
            && Sound(Example()) && Legal(Reload(next)) && Compatible(Example(), next)
            && after.startup.historyCertFile == "history.crt" && after.lists.alerts == []
            && |s.lists.alerts| == 1 && !Follows(Example(), next)
  {
  }

  // ----- runs -----

  ghost predicate AllLegal(steps: seq<Step>) {
    forall k :: 0 <= k < |steps| ==> Legal(steps[k])
  }

  lemma {:induction false} StepKeeps(config: Config, step: Step)
    requires Sound(config) && Legal(step)
    ensures Sound(After(config, step)) && Keeps(config, After(config, step))
    ensures forall i :: 0 <= i < config.numberOfServers && !step.Connected?
                        ==> After(config, step).servers[i].runtime == config.servers[i].runtime
  {
    match step
    case Reload(next) =>
      if Validated(next) {
        TransferKeeps(config, next);
      }
    case ConfSet(edit) =>
      var next := Edited(CopiedValues(config), edit);
      if Validated(next) {
        TransferKeeps(config, next);
      }
    case Connected(_, _) =>
  }

  ghost function Run(config: Config, steps: seq<Step>): (after: Config)
    requires Sound(config) && AllLegal(steps)
    ensures Sound(after) && |after.servers| == 64 && |after.metrics| == 256
  {
    if steps == [] then config
    else
      var before := Run(config, steps[..|steps| - 1]);
      StepKeeps(before, steps[|steps| - 1]);
      After(before, steps[|steps| - 1])
  }

  /**
   The structural parameters and every server's host and port survive any run, no server ever goes away, and the slots
   stay the 64 and 256 there are.
   */
  lemma {:induction false} RunKeeps(config: Config, steps: seq<Step>)
    requires Sound(config) && AllLegal(steps)
    ensures Keeps(config, Run(config, steps))
    ensures |Run(config, steps).servers| == 64 && |Run(config, steps).metrics| == 256
  {
    hide Sound, Legal, After, Edited;
    if steps != [] {
      var before := Run(config, steps[..|steps| - 1]);
      RunKeeps(config, steps[..|steps| - 1]);
      StepKeeps(before, steps[|steps| - 1]);
      KeepsTransitive(config, before, Run(config, steps));
    }
  }

  lemma {:induction false} KeepsTransitive(a: Config, b: Config, c: Config)
    requires Sound(a) && Sound(b) && Sound(c) && Keeps(a, b) && Keeps(b, c)
    ensures Keeps(a, c)
  {
    var x, y := b.settings.metricsCacheMaxSize - a.settings.metricsCacheMaxSize,
                c.settings.metricsCacheMaxSize - b.settings.metricsCacheMaxSize;
    assert x == x / INT_RANGE * INT_RANGE && y == y / INT_RANGE * INT_RANGE;
    assert x + y == (x / INT_RANGE + y / INT_RANGE) * INT_RANGE;
  }

  /** The connection a server last reported over the run. */
  function LastConnected(steps: seq<Step>, slot: nat): Option<Runtime> {
    if steps == [] then None
    else
      var last := steps[|steps| - 1];
      if last.Connected? && last.slot == slot then Some(last.runtime)
      else LastConnected(steps[..|steps| - 1], slot)
  }

  /**
   Reloads and conf sets never touch a connection: at the end every server has the connection that was last made for
   its slot, however many configurations were applied or denied in between.
   */
  lemma {:induction false} ConnectionsSurvive(config: Config, steps: seq<Step>, slot: nat)
    requires Sound(config) && AllLegal(steps) && slot < config.numberOfServers
    ensures Run(config, steps).servers[slot].runtime
            == LastConnected(steps, slot).GetOr(config.servers[slot].runtime)
  {
    if steps != [] {
      hide Legal;
      var front, last := steps[..|steps| - 1], steps[|steps| - 1];
      var before := Run(config, front);
      ConnectionsSurvive(config, front, slot);
      RunKeeps(config, front);
      StepKeeps(before, last);
      if last.Connected? {
        assert Run(config, steps) == After(before, last);
      }
    }
  }
}
