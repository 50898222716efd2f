/** The running configuration and how a new one is transferred into it, by a reload or by conf set. */
module ConfigTransfer {
  import opened Wrappers
  import opened Alerts

  const NUMBER_OF_SERVERS := 64
  const NUMBER_OF_METRICS := 256
  const PROMETHEUS_LENGTH := 256
  const MISC_LENGTH := 128
  const SERVER_UNKNOWN := 0
  const SERVER_UNDETERMINED_VERSION := 0
  const SERVER_FIPS_UNKNOWN := -1
  const INT_RANGE := 0x1_0000_0000

  /** The connection an exporter holds to a server and what it has learned over it. */
  datatype Runtime = Runtime(ssl: Option<nat>, fd: int, isNew: bool, state: int, version: int, minorVersion: int,
                             numberOfDatabases: int, numberOfExtensions: int, fipsEnabled: int,
                             databases: seq<string>, extensions: seq<string>)

  datatype ServerSettings = ServerSettings(serverType: int, tlsMode: int, username: string, data: string, wal: string,
                                           tlsCertFile: string, tlsKeyFile: string, tlsCaFile: string,
                                           extensionsConfig: string)

  datatype Server = Server(name: string, host: string, port: int, settings: ServerSettings, runtime: Runtime)

  const ZERO_RUNTIME := Runtime(None, 0, false, 0, 0, 0, 0, 0, 0, [], [])
  const ZERO_SERVER := Server("", "", 0, ServerSettings(0, 0, "", "", "", "", "", "", ""), ZERO_RUNTIME)

  /** What a slot starts with when it takes over another host or port. */
  const FRESH_RUNTIME :=
    Runtime(None, -1, false, SERVER_UNKNOWN, SERVER_UNDETERMINED_VERSION, 0, 0, 0, SERVER_FIPS_UNKNOWN, [], [])

  datatype User = User(username: string, password: string)
  datatype Endpoint = Endpoint(host: string, port: int)

  /** The buffer of a metric's name; the name is the text up to the first zero. */
  type Tag = s: string | |s| == PROMETHEUS_LENGTH witness seq(PROMETHEUS_LENGTH, _ => '\0')

  datatype Metric = Metric(tag: Tag, collector: string, sortType: int, serverQueryType: int, execOnAllDbs: bool,
                           optional: bool, queries: seq<string>)

  const ZERO_METRIC := Metric(seq(PROMETHEUS_LENGTH, _ => '\0'), "", 0, 0, false, false, [])

  /** The parameters that only a restart can change. The cache size is compared after conversion to a 32-bit int. */
  datatype Structure = Structure(host: string, metrics: int, management: int, console: int, history: int, bridge: int,
                                 bridgeJson: int, bridgeHistory: int, logType: int, unixSocketDir: string,
                                 pidfile: string, evBackend: int, hugepage: int)

  datatype Logging = Logging(path: string, rotationSize: nat, rotationAgeMs: int, mode: int, linePrefix: string)

  /** The parameters that a transfer takes over as they are. */
  datatype Tunables = Tunables(
    metricsCacheMaxAge: int, metricsQueryTimeout: int, bridgeCacheMaxAge: int, bridgeCacheMaxSize: nat,
    bridgeJsonCacheMaxSize: nat, historyInterval: int, historyRetention: int, historyBackend: int, historyPath: string,
    bridgeHistoryInterval: int, bridgeHistoryRetention: int, bridgeHistoryBackend: int, bridgeHistoryPath: string,
    cache: bool, alertsEnabled: bool, tls: bool, logLevel: int, tlsCertFile: string, tlsKeyFile: string,
    tlsCaFile: string, metricsCertFile: string, metricsKeyFile: string, metricsCaFile: string, blockingTimeout: int,
    authenticationTimeout: int, keepAlive: bool, nodelay: bool, nonBlocking: bool, backlog: int,
    updateProcessTitle: int, allowedCollectors: seq<string>, excludedCollectors: seq<string>, metricsPath: string,
    alertsPath: string)

  /** The parameters that are read with every configuration and that no transfer takes over. */
  datatype Startup = Startup(historyCertFile: string, historyKeyFile: string, historyCaFile: string,
                             globalExtensions: string)

  datatype Lists = Lists(users: seq<User>, admins: seq<User>, metricNames: seq<string>, alerts: seq<Alert>,
                         endpoints: seq<Endpoint>)

  datatype Settings = Settings(structure: Structure, metricsCacheMaxSize: nat, logging: Logging, tunables: Tunables,
                               startup: Startup, lists: Lists)

  /** A configuration as a value: the settings, and the slots for servers and metrics with the numbers in use. */
  datatype Config = Config(settings: Settings, servers: seq<Server>, numberOfServers: nat, metrics: seq<Metric>,
                           numberOfMetrics: nat)

  /** As many slots as the arrays have, and no more of them in use. */
  predicate Shaped(config: Config) {
    && |config.servers| == NUMBER_OF_SERVERS && config.numberOfServers <= NUMBER_OF_SERVERS
    && |config.metrics| == NUMBER_OF_METRICS && config.numberOfMetrics <= NUMBER_OF_METRICS
  }

  /** A size_t passed as an int. */
  function ToInt(size: nat): int {
    (size + INT_RANGE / 2) % INT_RANGE - INT_RANGE / 2
  }

  /** Sizes are the same int when they differ by a multiple of 2^32; below 2^31 they are then equal. */
  lemma {:induction false} SameInt(a: nat, b: nat)
    ensures ToInt(a) == ToInt(b) <==> (b - a) % 0x1_0000_0000 == 0
    ensures a < 0x8000_0000 ==> ToInt(a) == a
    ensures a < 0x8000_0000 && b < 0x8000_0000 && ToInt(a) == ToInt(b) ==> a == b
  {
    var x, y := a + INT_RANGE / 2, b + INT_RANGE / 2;
    assert x == x / INT_RANGE * INT_RANGE + x % INT_RANGE && y == y / INT_RANGE * INT_RANGE + y % INT_RANGE;
    assert (b - a) == (b - a) / INT_RANGE * INT_RANGE + (b - a) % INT_RANGE;
  }

  predicate SameServer(a: Server, b: Server) {
    a.host == b.host && a.port == b.port
  }

  /** Nothing differs that would need a restart. */
  ghost predicate Compatible(config: Config, reload: Config)
    requires Shaped(config) && Shaped(reload)
  {
    && config.settings.structure == reload.settings.structure
    && ToInt(config.settings.metricsCacheMaxSize) == ToInt(reload.settings.metricsCacheMaxSize)
    && config.numberOfServers <= reload.numberOfServers
    && forall i :: 0 <= i < config.numberOfServers ==> SameServer(config.servers[i], reload.servers[i])
  }

  /** A slot after a transfer: the new settings, with the old connection if host and port are the same. */
  function Carried(current: Server, next: Server): Server {
    next.(runtime := if SameServer(current, next) then current.runtime else FRESH_RUNTIME)
  }

  predicate LoggingMoved(current: Logging, next: Logging) {
    current.path != next.path || current.rotationSize != next.rotationSize
    || current.rotationAgeMs != next.rotationAgeMs || current.mode != next.mode
  }

  /** A metric slot after a transfer: the two flags and the second half of the tag buffer stay behind. */
  function CarriedMetric(current: Metric, next: Metric): Metric {
    next.(tag := next.tag[..MISC_LENGTH] + current.tag[MISC_LENGTH..], execOnAllDbs := current.execOnAllDbs,
          optional := current.optional)
  }

  function Applied(config: Config, reload: Config): (after: Config)
    requires Shaped(config) && Shaped(reload)
    ensures Shaped(after)
  {
    var c, r := config.settings, reload.settings;
    Config(r.(logging := if LoggingMoved(c.logging, r.logging) then r.logging else c.logging, startup := c.startup),
           seq(NUMBER_OF_SERVERS, i requires 0 <= i < NUMBER_OF_SERVERS =>
             if i < reload.numberOfServers then Carried(config.servers[i], reload.servers[i]) else ZERO_SERVER),
           reload.numberOfServers,
           seq(NUMBER_OF_METRICS, i requires 0 <= i < NUMBER_OF_METRICS =>
             if i < reload.numberOfMetrics then CarriedMetric(config.metrics[i], reload.metrics[i])
             else config.metrics[i]),
           reload.numberOfMetrics)
  }

  class Configuration {
    var settings: Settings
    var servers: array<Server>
    var numberOfServers: nat
    var metrics: array<Metric>
    var numberOfMetrics: nat

    /** Numbers of servers and metrics within the arrays. */
    ghost predicate Valid()
      reads this
    {
      && servers.Length == NUMBER_OF_SERVERS && numberOfServers <= NUMBER_OF_SERVERS
      && metrics.Length == NUMBER_OF_METRICS && numberOfMetrics <= NUMBER_OF_METRICS
    }

    ghost function View(): (c: Config)
      requires Valid()
      reads this, servers, metrics
      ensures Shaped(c)
    {
      Config(settings, servers[..], numberOfServers, metrics[..], numberOfMetrics)
    }

    /** A structural parameter, the cache size as an int, or a host or port in use differs, or servers are gone. */
    method CheckRestartRequired(reload: Configuration) returns (restart: bool)
      requires Valid() && reload.Valid()
      ensures restart <==> || settings.structure != reload.settings.structure
                           || (reload.settings.metricsCacheMaxSize - settings.metricsCacheMaxSize) % 0x1_0000_0000 != 0
                           || numberOfServers > reload.numberOfServers
                           || exists i :: 0 <= i < numberOfServers
                                && (servers[i].host != reload.servers[i].host
                                    || servers[i].port != reload.servers[i].port)
      ensures restart <==> !Compatible(View(), reload.View())
    {
      SameInt(settings.metricsCacheMaxSize, reload.settings.metricsCacheMaxSize);
      restart := false;
      var current, next := settings.structure, reload.settings.structure;
      if current.host != next.host || current.metrics != next.metrics || current.management != next.management
         || current.console != next.console || current.history != next.history || current.bridge != next.bridge
         || current.bridgeJson != next.bridgeJson || current.bridgeHistory != next.bridgeHistory {
        restart := true;
      }
      if current.logType != next.logType || current.unixSocketDir != next.unixSocketDir
         || current.pidfile != next.pidfile || current.evBackend != next.evBackend
         || current.hugepage != next.hugepage {
        restart := true;
      }
      if ToInt(settings.metricsCacheMaxSize) != ToInt(reload.settings.metricsCacheMaxSize) {
        restart := true;
      }
      if numberOfServers > reload.numberOfServers {
        restart := true;
      }
      ghost var before := restart;
      for i := 0 to reload.numberOfServers
        invariant restart <==> before || exists j :: 0 <= j < i && j < numberOfServers
                                                     && !SameServer(servers[j], reload.servers[j])
      {
        if i < numberOfServers && !SameServer(reload.servers[i], servers[i]) {
          restart := true;
        }
      }
      assert before <==> !(current == next && numberOfServers <= reload.numberOfServers
                           && ToInt(settings.metricsCacheMaxSize) == ToInt(reload.settings.metricsCacheMaxSize));
    }

    /** Overwrites one slot; the connection survives only when host and port stay the same. */
    method CopyServer(i: nat, source: Server)
      requires Valid() && i < NUMBER_OF_SERVERS
      modifies servers
      ensures servers[..] == old(servers[..])[i := Carried(old(servers[i]), source)]
    {
      var runtime := FRESH_RUNTIME;
      if SameServer(servers[i], source) {
        runtime := servers[i].runtime;
      }
      servers[i] := ZERO_SERVER;
      servers[i] := Server(source.name, source.host, source.port, source.settings, servers[i].runtime);
      servers[i] := servers[i].(runtime := runtime);
    }

    /** The slots in use take over the new servers, the others are cleared. */
    method CopyServers(reload: Configuration)
      requires Valid() && reload.Valid() && servers != reload.servers
      modifies this`numberOfServers, servers
      ensures Valid() && numberOfServers == reload.numberOfServers
      ensures forall i :: 0 <= i < NUMBER_OF_SERVERS
                ==> servers[i] == if i < reload.numberOfServers then Carried(old(servers[i]), reload.servers[i])
                                  else ZERO_SERVER
    {
      for i := 0 to reload.numberOfServers
        invariant Valid()
        invariant forall j :: 0 <= j < i ==> servers[j] == Carried(old(servers[j]), reload.servers[j])
        invariant forall j :: i <= j < NUMBER_OF_SERVERS ==> servers[j] == old(servers[j])
      {
        ghost var was := servers[..];
        CopyServer(i, reload.servers[i]);
        assert forall j :: 0 <= j < NUMBER_OF_SERVERS ==> servers[j] == servers[..][j];
      }
      for i := reload.numberOfServers to NUMBER_OF_SERVERS
        invariant forall j :: 0 <= j < reload.numberOfServers
                    ==> servers[j] == Carried(old(servers[j]), reload.servers[j])
        invariant forall j :: reload.numberOfServers <= j < i ==> servers[j] == ZERO_SERVER
      {
        servers[i] := ZERO_SERVER;
      }
      numberOfServers := reload.numberOfServers;
    }

    /** Overwrites one metric slot, except for the two flags and the second half of the tag buffer. */
    method CopyMetric(i: nat, source: Metric)
      requires Valid() && i < NUMBER_OF_METRICS
      modifies metrics
      ensures metrics[..] == old(metrics[..])[i := CarriedMetric(old(metrics[i]), source)]
    {
      metrics[i] := metrics[i].(tag := source.tag[..MISC_LENGTH] + metrics[i].tag[MISC_LENGTH..]);
      metrics[i] := metrics[i].(collector := source.collector, sortType := source.sortType);
      metrics[i] := metrics[i].(serverQueryType := source.serverQueryType);
      metrics[i] := metrics[i].(queries := source.queries);
    }

    /** The metrics of the new configuration overwrite the slots from the first on; slots behind them stay. */
    method CopyMetrics(reload: Configuration)
      requires Valid() && reload.Valid() && metrics != reload.metrics
      modifies this`numberOfMetrics, metrics
      ensures Valid() && numberOfMetrics == reload.numberOfMetrics
      ensures forall i :: 0 <= i < NUMBER_OF_METRICS
                ==> metrics[i] == if i < reload.numberOfMetrics then CarriedMetric(old(metrics[i]), reload.metrics[i])
                                  else old(metrics[i])
    {
      for i := 0 to reload.numberOfMetrics
        invariant Valid()
        invariant forall j :: 0 <= j < i ==> metrics[j] == CarriedMetric(old(metrics[j]), reload.metrics[j])
        invariant forall j :: i <= j < NUMBER_OF_METRICS ==> metrics[j] == old(metrics[j])
      {
        CopyMetric(i, reload.metrics[i]);
        assert forall j :: 0 <= j < NUMBER_OF_METRICS ==> metrics[j] == metrics[..][j];
      }
      numberOfMetrics := reload.numberOfMetrics;
    }

    /** All or nothing: either nothing changes and a restart is reported, or the new configuration is applied. */
    method Transfer(reload: Configuration) returns (restart: bool)
      requires Valid() && reload.Valid()
      requires this != reload && servers != reload.servers && metrics != reload.metrics
      modifies this`settings, this`numberOfServers, this`numberOfMetrics, servers, metrics
      ensures Valid()
      ensures restart <==> !Compatible(old(View()), old(reload.View()))
      ensures restart ==> View() == old(View())
      ensures !restart ==> View() == Applied(old(View()), old(reload.View()))
    {
      restart := CheckRestartRequired(reload);
      if restart {
        return;
      }
      var next := reload.settings;
      settings := settings.(structure := next.structure, metricsCacheMaxSize := next.metricsCacheMaxSize);
      settings := settings.(tunables := next.tunables);
      if LoggingMoved(settings.logging, next.logging) {
        settings := settings.(logging := next.logging);
      }
      CopyServers(reload);
      CopyMetrics(reload);
      settings := settings.(lists := next.lists);
    }
  }
}
