/** What the updates of the configuration promise: the precedence of the layers written
    by init, the keys init derives, the worker-port guard, and what merge and set leave
    behind for the accessors. */
module ConfigurationProperties {
  import opened Common
  import Text
  import Keys
  import opened Placeholder
  import Accessors
  import PlaceholderProperties
  import opened AlluxioConfiguration

  // ---------------------------------------------------------------------------
  // Layer precedence

  /** The value of key k in the highest layer that has it: system properties (when
      included) over the site layer over the default layer over what the map held. */
  function HighestLayer(start: Store, defaults: Store, site: Option<Store>, system: Store,
                        includeSystem: bool, k: string): Option<string>
  {
    if includeSystem && k in system then Some(system[k])
    else if site.Some? && k in site.value then Some(site.value[k])
    else if k in defaults then Some(defaults[k])
    else Raw(start, k)
  }

  /** Writing the layers in increasing priority leaves each key with the value of its
      highest layer; an absent site layer and excluded system properties add nothing. */
  lemma LayeredPrecedence(start: Store, defaults: Store, site: Option<Store>, system: Store,
                          includeSystem: bool, k: string)
    ensures Raw(Layered(start, defaults, site, system, includeSystem), k) ==
      HighestLayer(start, defaults, site, system, includeSystem, k)
  {
  }

  /** The end of init changes no key but the three worker ports. */
  lemma DeriveFrame(addressed: Store, system: Store, parse: string -> Option<Long>, k: string)
    requires k !in WorkerPorts
    ensures Raw(Derive(addressed, system, parse).props, k) == Raw(addressed, k)
  {
  }

  /** After init, every key other than the derived ones holds the value of its highest
      layer, the default layer carrying the local host name and channel type. */
  lemma InitPrecedence(start: Store, defaults: Store, site: Option<Store>, system: Store, includeSystem: bool,
                       localHostName: string, channel: string, parse: string -> Option<Long>, k: string)
    requires k != Keys.MasterAddress && k !in WorkerPorts
    ensures Raw(InitSpec(start, Some(defaults), site, system, includeSystem, localHostName, channel, parse).props, k) ==
      HighestLayer(start, DefaultLayer(defaults, localHostName, channel), site, system, includeSystem, k)
  {
    var layered := Layered(start, DefaultLayer(defaults, localHostName, channel), site, system, includeSystem);
    DeriveFrame(Addressed(layered), system, parse, k);
    LayeredPrecedence(start, DefaultLayer(defaults, localHostName, channel), site, system, includeSystem, k);
  }

  /** The worker ports keep the value of their highest layer whenever init does not force
      them to "0": when a host runs at most one worker, and when init fails before or at
      the guard. */
  lemma InitPortsKept(start: Store, defaults: Store, site: Option<Store>, system: Store, includeSystem: bool,
                      localHostName: string, channel: string, parse: string -> Option<Long>, k: string)
    requires k in WorkerPorts
    requires var a := Addressed(Layered(start, DefaultLayer(defaults, localHostName, channel), site, system, includeSystem));
      var limit := Accessors.GetInt(a, Keys.WorkersPerHostMax);
      !(Accessors.CheckUserFileBufferBytes(a, parse) == Pass && limit.Ok? && limit.value > 1 && FirstPortSet(system).None?)
    ensures Raw(InitSpec(start, Some(defaults), site, system, includeSystem, localHostName, channel, parse).props, k) ==
      HighestLayer(start, DefaultLayer(defaults, localHostName, channel), site, system, includeSystem, k)
  {
    LayeredPrecedence(start, DefaultLayer(defaults, localHostName, channel), site, system, includeSystem, k);
  }

  /** Without the default file init fails at once and changes nothing. */
  lemma InitDefaultsMissing(start: Store, site: Option<Store>, system: Store, includeSystem: bool,
                            localHostName: string, channel: string, parse: string -> Option<Long>)
    ensures InitSpec(start, None, site, system, includeSystem, localHostName, channel, parse) ==
      Step(start, Fail(DefaultPropertiesMissing))
  {
  }

  // ---------------------------------------------------------------------------
  // Derived keys

  /** The master host name after the layers: never null, because the default layer always
      carries the local host name. */
  function HostName(site: Option<Store>, system: Store, includeSystem: bool, localHostName: string): string {
    if includeSystem && Keys.MasterHostname in system then system[Keys.MasterHostname]
    else if site.Some? && Keys.MasterHostname in site.value then site.value[Keys.MasterHostname]
    else localHostName
  }

  /** After init the master address is the fault-tolerant scheme when ZooKeeper is enabled
      ("true" in any case), the plain one otherwise, followed by the host name of the
      highest layer, ":" and the port ("null" when no layer sets it). */
  lemma InitMasterAddress(start: Store, defaults: Store, site: Option<Store>, system: Store, includeSystem: bool,
                          localHostName: string, channel: string, parse: string -> Option<Long>)
    ensures var d := DefaultLayer(defaults, localHostName, channel);
      var zk := HighestLayer(start, d, site, system, includeSystem, Keys.ZookeeperEnabled);
      var port := HighestLayer(start, d, site, system, includeSystem, Keys.MasterRpcPort);
      var p := InitSpec(start, Some(defaults), site, system, includeSystem, localHostName, channel, parse).props;
      && Keys.MasterAddress in p
      && p[Keys.MasterAddress] ==
        (if zk.Some? && Text.EqualsIgnoreCase(zk.value, "true") then Keys.HeaderFt else Keys.Header)
        + HostName(site, system, includeSystem, localHostName) + ":" + (if port.Some? then port.value else "null")
  {
    var d := DefaultLayer(defaults, localHostName, channel);
    var layered := Layered(start, d, site, system, includeSystem);
    LayeredPrecedence(start, d, site, system, includeSystem, Keys.ZookeeperEnabled);
    LayeredPrecedence(start, d, site, system, includeSystem, Keys.MasterRpcPort);
    LayeredPrecedence(start, d, site, system, includeSystem, Keys.MasterHostname);
    DeriveFrame(Addressed(layered), system, parse, Keys.MasterAddress);
  }

  // ---------------------------------------------------------------------------
  // The worker-port guard

  /** With several workers allowed per host, init fails on the first worker port given as
      a system property (whether or not the system properties were included as a layer),
      and otherwise forces all three ports to "0" and leaves every other key alone. */
  lemma InitWorkerPorts(start: Store, defaults: Store, site: Option<Store>, system: Store, includeSystem: bool,
                        localHostName: string, channel: string, parse: string -> Option<Long>, n: Int32)
    requires var a := Addressed(Layered(start, DefaultLayer(defaults, localHostName, channel), site, system, includeSystem));
      Accessors.CheckUserFileBufferBytes(a, parse) == Pass && Accessors.GetInt(a, Keys.WorkersPerHostMax) == Ok(n)
    requires n > 1
    ensures var a := Addressed(Layered(start, DefaultLayer(defaults, localHostName, channel), site, system, includeSystem));
      var s := InitSpec(start, Some(defaults), site, system, includeSystem, localHostName, channel, parse);
      && (FirstPortSet(system).Some? ==> s == Step(a, Fail(WorkerPortSet(FirstPortSet(system).value))))
      && (FirstPortSet(system).None? ==>
            && s.status == Pass
            && (forall i :: 0 <= i < |WorkerPorts| ==> Raw(s.props, WorkerPorts[i]) == Some("0"))
            && (forall k :: k !in WorkerPorts ==> Raw(s.props, k) == Raw(a, k)))
  {
    var a := Addressed(Layered(start, DefaultLayer(defaults, localHostName, channel), site, system, includeSystem));
    DeriveWorkerPorts(a, system, parse, n);
  }

  /** The worker-port guard on the map init has built. */
  lemma DeriveWorkerPorts(a: Store, system: Store, parse: string -> Option<Long>, n: Int32)
    requires Accessors.CheckUserFileBufferBytes(a, parse) == Pass && Accessors.GetInt(a, Keys.WorkersPerHostMax) == Ok(n)
    requires n > 1
    ensures var s := Derive(a, system, parse);
      && (FirstPortSet(system).Some? ==> s == Step(a, Fail(WorkerPortSet(FirstPortSet(system).value))))
      && (FirstPortSet(system).None? ==>
            && s.status == Pass
            && (forall i :: 0 <= i < |WorkerPorts| ==> Raw(s.props, WorkerPorts[i]) == Some("0"))
            && (forall k :: k !in WorkerPorts ==> Raw(s.props, k) == Raw(a, k)))
  {
  }

  /** The order of the guard: the data port first, then the rpc port, then the web port. */
  lemma FirstPortSetOrder(system: Store)
    ensures Keys.WorkerDataPort in system ==> FirstPortSet(system) == Some(Keys.WorkerDataPort)
    ensures Keys.WorkerDataPort !in system && Keys.WorkerRpcPort in system ==>
      FirstPortSet(system) == Some(Keys.WorkerRpcPort)
    ensures Keys.WorkerDataPort !in system && Keys.WorkerRpcPort !in system && Keys.WorkerWebPort in system ==>
      FirstPortSet(system) == Some(Keys.WorkerWebPort)
  {
  }

  /** init succeeds exactly when the buffer size passes its check, the workers-per-host
      limit reads as an int, and either that limit is at most one or no worker port is a
      system property. */
  lemma InitSucceeds(start: Store, defaults: Store, site: Option<Store>, system: Store, includeSystem: bool,
                     localHostName: string, channel: string, parse: string -> Option<Long>)
    ensures var a := Addressed(Layered(start, DefaultLayer(defaults, localHostName, channel), site, system, includeSystem));
      var maxWorkers := Accessors.GetInt(a, Keys.WorkersPerHostMax);
      InitSpec(start, Some(defaults), site, system, includeSystem, localHostName, channel, parse).status == Pass <==>
        && Accessors.CheckUserFileBufferBytes(a, parse) == Pass
        && maxWorkers.Ok?
        && (maxWorkers.value <= 1 || forall i :: 0 <= i < |WorkerPorts| ==> WorkerPorts[i] !in system)
  {
  }

  // ---------------------------------------------------------------------------
  // merge and set

  /** Merging the same properties twice gives the map merging them once gives. */
  lemma MergeIdempotent(props: Store, properties: Option<Store>)
    ensures Merged(Merged(props, properties), properties) == Merged(props, properties)
  {
  }

  /** After set(key, value) with a value free of '$', get(key) returns that value. */
  lemma SetThenGet(props: Store, key: string, value: string)
    requires PlaceholderProperties.DollarFree(value)
    ensures Accessors.Get(props[key := value], key) == Ok(value)
  {
    Accessors.GetLiteral(props[key := value], key);
  }

  /** After set(key, Integer.toString(n)), getInt(key) returns n. */
  lemma SetThenGetInt(props: Store, key: string, n: Int32)
    ensures Accessors.GetInt(props[key := Text.FormatDecimal(n)], key) == Ok(n)
  {
    Accessors.GetIntFormat(props[key := Text.FormatDecimal(n)], key, n);
  }

  /** Setting the user file buffer size to a literal size passes the check exactly when
      the size parses to a non-negative int; an unparsable size fails with KeyNotBytes. */
  lemma SetUserFileBufferBytes(props: Store, parse: string -> Option<Long>, value: string)
    requires PlaceholderProperties.DollarFree(value)
    ensures var check := Accessors.CheckUserFileBufferBytes(props[Keys.UserFileBufferBytes := value], parse);
      && (check == Pass <==> parse(value).Some? && 0 <= parse(value).value <= MaxInt)
      && (parse(value).None? ==> check == Fail(KeyNotBytes(Keys.UserFileBufferBytes)))
      && (parse(value).Some? && check.Fail? ==> check == Fail(InvalidBufferBytes(parse(value).value)))
  {
    Accessors.GetLiteral(props[Keys.UserFileBufferBytes := value], Keys.UserFileBufferBytes);
  }
}
