/** The configuration class itself: its property map, written by init from the default,
    site and system layers and then by merge and set, each update followed by the check
    on the user file buffer size. The Java class keeps the map in a static field; here
    it is the field of one Configuration object. */
module AlluxioConfiguration {
  import opened Common
  import Text
  import Keys
  import opened Placeholder
  import Accessors

  // ---------------------------------------------------------------------------
  // What init computes

  /** The default layer with the three values init overrides at run time: the master
      host name (the local host name) and the two netty channel types. */
  function DefaultLayer(defaults: Store, localHostName: string, channel: string): (r: Store)
    ensures r.Keys == defaults.Keys + {Keys.MasterHostname, Keys.WorkerNettyChannel, Keys.UserNettyChannel}
    ensures r[Keys.MasterHostname] == localHostName
    ensures r[Keys.WorkerNettyChannel] == channel && r[Keys.UserNettyChannel] == channel
    ensures forall k :: k in defaults && k !in {Keys.MasterHostname, Keys.WorkerNettyChannel, Keys.UserNettyChannel} ==>
      r[k] == defaults[k]
  {
    defaults[Keys.MasterHostname := localHostName][Keys.WorkerNettyChannel := channel][Keys.UserNettyChannel := channel]
  }

  /** The map after the layers are written over start in increasing priority: default,
      then site when there is one, then the system properties when they are included. */
  function Layered(start: Store, defaults: Store, site: Option<Store>, system: Store, includeSystem: bool): Store {
    var withSite := if site.Some? then start + defaults + site.value else start + defaults;
    withSite + SystemLayer(system, includeSystem)
  }

  /** The system-property layer: all system properties, or none when they are excluded. */
  function SystemLayer(system: Store, includeSystem: bool): Store {
    if includeSystem then system else map[]
  }

  /** Boolean.parseBoolean: true exactly for a non-null "true", ignoring case. */
  function ParseBoolean(s: Option<string>): bool {
    s.Some? && Text.EqualsIgnoreCase(s.value, "true")
  }

  /** String concatenation renders a null reference as "null". */
  function Show(s: Option<string>): string {
    if s.Some? then s.value else "null"
  }

  /** The master address init derives from the raw (unresolved) host name, port and
      ZooKeeper flag. */
  function MasterAddressValue(props: Store): string {
    var header := if ParseBoolean(Raw(props, Keys.ZookeeperEnabled)) then Keys.HeaderFt else Keys.Header;
    header + Show(Raw(props, Keys.MasterHostname)) + ":" + Show(Raw(props, Keys.MasterRpcPort))
  }

  /** The worker ports that must not be given as system properties when a host may run
      several workers, in the order init checks them. */
  const WorkerPorts: seq<string> := [Keys.WorkerDataPort, Keys.WorkerRpcPort, Keys.WorkerWebPort]

  /** The first of the worker ports that is a system property, if any. */
  function FirstPortSet(system: Store): (r: Option<string>)
    ensures r.Some? ==> r.value in WorkerPorts && r.value in system
    ensures r.None? <==> forall i :: 0 <= i < |WorkerPorts| ==> WorkerPorts[i] !in system
  {
    if Keys.WorkerDataPort in system then Some(Keys.WorkerDataPort)
    else if Keys.WorkerRpcPort in system then Some(Keys.WorkerRpcPort)
    else if Keys.WorkerWebPort in system then Some(Keys.WorkerWebPort)
    else None
  }

  /** The map after an operation and what the operation threw. */
  datatype Step = Step(props: Store, status: Status)

  /** init(sitePropertiesFile, includeSystemProperties) over the map start, with the loaded
      files, the system properties, the local host name and the default channel type given
      as values (defaults is None when the default file cannot be loaded). */
  function InitSpec(start: Store, defaults: Option<Store>, site: Option<Store>, system: Store,
                    includeSystem: bool, localHostName: string, channel: string,
                    parse: string -> Option<Long>): Step
  {
    if defaults.None? then Step(start, Fail(DefaultPropertiesMissing))
    else
      var layered := Layered(start, DefaultLayer(defaults.value, localHostName, channel), site, system, includeSystem);
      Derive(Addressed(layered), system, parse)
  }

  /** The map of init once the layers are written and the master address is put. */
  function Addressed(layered: Store): Store {
    layered[Keys.MasterAddress := MasterAddressValue(layered)]
  }

  /** The end of init, once the master address is in place: the buffer size check, then
      the guard on the worker ports, which are set to "0" when a host may run several
      workers. */
  function Derive(addressed: Store, system: Store, parse: string -> Option<Long>): Step {
    match Accessors.CheckUserFileBufferBytes(addressed, parse)
    case Fail(e) => Step(addressed, Fail(e))
    case Pass =>
      match Accessors.GetInt(addressed, Keys.WorkersPerHostMax)
      case Err(e) => Step(addressed, Fail(e))
      case Ok(n) =>
        if n <= 1 then Step(addressed, Pass)
        else
          match FirstPortSet(system)
          case Some(port) => Step(addressed, Fail(WorkerPortSet(port)))
          case None => Step(addressed[Keys.WorkerDataPort := "0"][Keys.WorkerRpcPort := "0"][Keys.WorkerWebPort := "0"], Pass)
  }

  /** The map after merge(properties): the keys of properties take its values, every other
      key keeps its own; a null map adds nothing. */
  function Merged(props: Store, properties: Option<Store>): (r: Store)
    ensures properties.Some? ==> forall k :: k in properties.value ==> k in r && r[k] == properties.value[k]
    ensures forall k :: (properties.None? || k !in properties.value) ==>
      (k in r <==> k in props) && (k in props ==> r[k] == props[k])
  {
    if properties.Some? then props + properties.value else props
  }

  // ---------------------------------------------------------------------------
  // The class

  class Configuration {
    /** PROPERTIES_MAP. */
    var props: Store
    /** FormatUtils.parseSpaceSize, which reads sizes such as "8MB"; None where it throws. */
    const parse: string -> Option<Long>

    /** The map before the first init, which the static initializer runs next. */
    constructor (parse: string -> Option<Long>)
      ensures props == map[] && this.parse == parse
    {
      this.parse := parse;
      props := map[];
    }

    /** putFromProperties(properties): every entry of the layer is put into the map. */
    method PutFromProperties(layer: Store)
      modifies this
      ensures props == old(props) + layer
    {
      var pending := layer.Keys;
      while pending != {}
        invariant pending <= layer.Keys
        invariant props == old(props) + map k | k in layer.Keys - pending :: layer[k]
        decreases |pending|
      {
        var k :| k in pending;
        props := props[k := layer[k]];
        pending := pending - {k};
      }
      assert layer == map k | k in layer.Keys - pending :: layer[k];
    }

    /** init(sitePropertiesFile, includeSystemProperties). It writes over the map as it
        finds it; any failure leaves the map as far as init got. */
    method Init(defaults: Option<Store>, site: Option<Store>, system: Store, includeSystem: bool,
                localHostName: string, channel: string) returns (r: Status)
      modifies this
      ensures Step(props, r) == InitSpec(old(props), defaults, site, system, includeSystem, localHostName, channel, parse)
    {
      if defaults.None? {
        return Fail(DefaultPropertiesMissing);
      }
      var defaultProps := defaults.value;
      defaultProps := defaultProps[Keys.MasterHostname := localHostName];
      defaultProps := defaultProps[Keys.WorkerNettyChannel := channel];
      defaultProps := defaultProps[Keys.UserNettyChannel := channel];
      var systemProps: Store := map[];
      if includeSystem {
        systemProps := system;
      }
      assert systemProps == SystemLayer(system, includeSystem);
      assert defaultProps == DefaultLayer(defaults.value, localHostName, channel);
      PutFromProperties(defaultProps);
      if site.Some? {
        PutFromProperties(site.value);
      }
      PutFromProperties(systemProps);
      ghost var layered := props;
      props := props[Keys.MasterAddress := MasterAddressValue(props)];
      assert props == Addressed(layered);
      r := FinishInit(system);
    }

    /** The end of init, from checkUserFileBufferBytes() on: the guard on the worker ports
        and the ports forced to "0" when a host may run several workers. */
    method FinishInit(system: Store) returns (r: Status)
      modifies this
      ensures Step(props, r) == Derive(old(props), system, parse)
    {
      r := Accessors.CheckUserFileBufferBytes(props, parse);
      if r.Fail? {
        return;
      }
      var maxWorkersPerHost := Accessors.GetInt(props, Keys.WorkersPerHostMax);
      if maxWorkersPerHost.Err? {
        return Fail(maxWorkersPerHost.error);
      }
      if maxWorkersPerHost.value > 1 {
        if Keys.WorkerDataPort in system {
          return Fail(WorkerPortSet(Keys.WorkerDataPort));
        }
        if Keys.WorkerRpcPort in system {
          return Fail(WorkerPortSet(Keys.WorkerRpcPort));
        }
        if Keys.WorkerWebPort in system {
          return Fail(WorkerPortSet(Keys.WorkerWebPort));
        }
        props := props[Keys.WorkerDataPort := "0"];
        props := props[Keys.WorkerRpcPort := "0"];
        props := props[Keys.WorkerWebPort := "0"];
      }
    }

    /** merge(properties): the entries of properties win over the map's, then the buffer
        size is checked (also for a null map). */
    method Merge(properties: Option<Store>) returns (r: Status)
      modifies this
      ensures props == Merged(old(props), properties)
      ensures r == Accessors.CheckUserFileBufferBytes(props, parse)
    {
      if properties.Some? {
        PutFromProperties(properties.value);
      }
      r := Accessors.CheckUserFileBufferBytes(props, parse);
    }

    /** set(key, value): both must be non-null; the entry is put, then the buffer size is
        checked, so a failing check leaves the new entry in place. */
    method Set(key: Option<string>, value: Option<string>) returns (r: Status)
      modifies this
      ensures key.None? || value.None? ==> props == old(props) && r == Fail(NullArgument)
      ensures key.Some? && value.Some? ==>
        && props == old(props)[key.value := value.value]
        && r == Accessors.CheckUserFileBufferBytes(props, parse)
    {
      if key.None? || value.None? {
        return Fail(NullArgument);
      }
      props := props[key.value := value.value];
      r := Accessors.CheckUserFileBufferBytes(props, parse);
    }

    /** get(key) on the current map. */
    method Get(key: string) returns (r: Result<string>)
      ensures r == Accessors.Get(props, key)
    {
      r := Accessors.Get(props, key);
    }
  }
}
