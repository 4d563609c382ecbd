/**
 * Building a connection from the property bag (`initConnection`) and choosing
 * how the driver's client is constructed (`getClient`).
 */
module Connection {
  import opened Wrappers
  import opened JavaStrings
  import opened MongoFailures
  import opened HostParsing
  import opened ConnectionOptions

  /** The connection properties the wrapper reads; a None is a property that is not set. */
  datatype Props = Props(
    host: Option<string>,
    port: Option<string>,
    connectTimeout: Option<string>,
    socketTimeout: Option<string>,
    writeConcern: Option<string>,
    writeTimeout: Option<string>,
    journaled: Option<string>,
    useAllReplicaSetMembers: Option<string>)

  /**
   * How the client is constructed: from the whole endpoint list (the driver
   * then discovers the replica set or the mongos routers), from one standalone
   * server, or from the driver's default `localhost` address.
   */
  datatype ClientTarget = SeedList(seeds: seq<Endpoint>) | SingleServer(server: Endpoint) | Localhost

  /** The endpoints a target names; the localhost fallback names none of the parsed ones. */
  function TargetEndpoints(t: ClientTarget): seq<Endpoint> {
    match t
    case SeedList(seeds) => seeds
    case SingleServer(server) => [server]
    case Localhost => []
  }

  /**
   * The selection in `getClient`: the list when it has more than one endpoint,
   * or at least one and all replica-set members are wanted; the single endpoint
   * otherwise; localhost when there is none.
   */
  function SelectClient(repSet: seq<Endpoint>, useAllReplicaSetMembers: bool): (t: ClientTarget)
    ensures t.SeedList? <==> |repSet| > 1 || (useAllReplicaSetMembers && |repSet| >= 1)
    ensures t.SingleServer? <==> |repSet| == 1 && !useAllReplicaSetMembers
    ensures t.Localhost? <==> repSet == []
    ensures TargetEndpoints(t) == repSet
  {
    if |repSet| > 1 || (useAllReplicaSetMembers && |repSet| >= 1) then SeedList(repSet)
    else if |repSet| == 1 then SingleServer(repSet[0])
    else Localhost
  }

  /** What `initConnection` hands to the driver. */
  datatype ClientSetup = ClientSetup(target: ClientTarget, options: Options)

  /**
   * `initConnection`: the host list first (its failures win), then the options,
   * then the client selection over the parsed endpoints.
   */
  method InitConnection(props: Props) returns (r: Result<ClientSetup, MongoFailure>)
    ensures HostList(props.host, props.port).Failure? ==> r == Failure(HostList(props.host, props.port).error)
    ensures HostList(props.host, props.port).Success? ==>
      var opts := ConfigureOptions(props.connectTimeout, props.socketTimeout, props.writeConcern,
                                   props.writeTimeout, ParseBoolean(props.journaled));
      && (opts.Failure? ==> r == Failure(opts.error))
      && (opts.Success? ==> r == Success(ClientSetup(
            SelectClient(HostList(props.host, props.port).value, ParseBoolean(props.useAllReplicaSetMembers)),
            opts.value)))
  {
    var journaled := ParseBoolean(props.journaled);
    var useAllReplicaSetMembers := ParseBoolean(props.useAllReplicaSetMembers);
    var repSet :- ParseHosts(props.host, props.port);
    var opts :- ConfigureOptions(props.connectTimeout, props.socketTimeout, props.writeConcern,
                                 props.writeTimeout, journaled);
    return Success(ClientSetup(SelectClient(repSet, useAllReplicaSetMembers), opts));
  }

  /**
   * The client falls back to localhost only for a HOST property that, once
   * trimmed, is a non-empty run of commas; every other successful setup
   * connects to exactly the parsed endpoints.
   */
  lemma LocalhostOnlyForCommaRuns(props: Props)
    requires HostList(props.host, props.port).Success?
    ensures var t := SelectClient(HostList(props.host, props.port).value, ParseBoolean(props.useAllReplicaSetMembers));
      t.Localhost? <==>
        Trim(props.host.value) != [] && forall i :: 0 <= i < |Trim(props.host.value)| ==> Trim(props.host.value)[i] == ','
  {
    NoEndpointsIff(props.host, props.port);
  }
}
