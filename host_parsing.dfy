/**
 * Parsing of the comma-separated `host[:port]` list into an ordered list of
 * server endpoints (the first half of `initConnection`).
 */
module HostParsing {
  import opened Wrappers
  import opened JavaStrings
  import opened MongoFailures

  /** The port a fragment without its own port falls back to when no shared port is usable. */
  const MongoDefaultPort: int := 27017

  /** A server address: what the wrapper hands to the driver's ServerAddress. */
  datatype Endpoint = Endpoint(host: string, port: int)

  /**
   * The port shared by fragments that name none: the PORT property when it
   * parses to anything but -1 (an unparsable or absent one is ignored), else 27017.
   */
  function SharedPort(singlePort: Option<string>): (port: int)
    ensures port == MongoDefaultPort || (singlePort.Some? && ParseInt(singlePort.value) == Some(port))
    ensures port != -1
    ensures singlePort.Some? && ParseInt(singlePort.value).Some? && ParseInt(singlePort.value).value != -1 ==>
      port == ParseInt(singlePort.value).value
    ensures (singlePort.None? || ParseInt(singlePort.value).None? || ParseInt(singlePort.value) == Some(-1)) ==>
      port == MongoDefaultPort
  {
    var singlePortI := if singlePort.Some? && ParseInt(singlePort.value).Some? then ParseInt(singlePort.value).value else -1;
    if singlePortI != -1 then singlePortI else MongoDefaultPort
  }

  /** A printed 32-bit port other than -1 becomes the shared port; an absent one gives 27017. */
  lemma SharedPortOf(n: int)
    requires Int32Min <= n <= Int32Max && n != -1
    ensures SharedPort(Some(IntToString(n))) == n
    ensures SharedPort(None) == MongoDefaultPort
  {
    ParseIntOfToString(n);
  }

  /**
   * One comma-separated fragment: more than two colon-separated parts is a
   * malformed host; no part at all (a fragment of colons) fails on `hp[0]`; a
   * second part must parse, once trimmed, as the port; otherwise the default port.
   */
  function ParseFragment(part: string, defaultPort: int): (r: Result<Endpoint, MongoFailure>)
    ensures ':' !in part ==> r == Success(Endpoint(part, defaultPort))
  {
    var hp := Split(part, ':');
    if |hp| > 2 then
      Failure(MalformedHost(part))
    else if |hp| == 0 then
      Failure(MissingHostPart(part))
    else if |hp| == 2 then
      match ParseInt(Trim(hp[1]))
      case None => Failure(UnableToParsePortNumber(hp[1]))
      case Some(port) => Success(Endpoint(hp[0], port))
    else
      Success(Endpoint(hp[0], defaultPort))
  }

  /** The host of a parsed fragment is exactly the text before its first colon. */
  lemma FragmentHostIsPrefix(part: string, defaultPort: int)
    requires ParseFragment(part, defaultPort).Success?
    ensures var h := ParseFragment(part, defaultPort).value.host;
      |h| <= |part| && h == part[..|h|] && ':' !in h && (|h| == |part| || part[|h|] == ':')
  {
    SplitOnHead(part, ':');
  }

  /** The outcome of every fragment, in order. */
  function FragmentResults(parts: seq<string>, defaultPort: int): (rs: seq<Result<Endpoint, MongoFailure>>)
    ensures |rs| == |parts|
  {
    seq(|parts|, i requires 0 <= i < |parts| => ParseFragment(parts[i], defaultPort))
  }

  /** All endpoints when every fragment parsed; otherwise the failure of the first fragment that did not. */
  function Collect(rs: seq<Result<Endpoint, MongoFailure>>): (r: Result<seq<Endpoint>, MongoFailure>)
    ensures r.Success? <==> forall i :: 0 <= i < |rs| ==> rs[i].Success?
    ensures r.Success? ==> |r.value| == |rs| && forall i :: 0 <= i < |rs| ==> rs[i] == Success(r.value[i])
  {
    if rs == [] then
      Success([])
    else
      match rs[0]
      case Failure(e) => Failure(e)
      case Success(ep) =>
        match Collect(rs[1..])
        case Failure(e) =>
          assert forall i :: 1 <= i < |rs| ==> rs[i] == rs[1..][i - 1];
          Failure(e)
        case Success(eps) =>
          assert forall i :: 1 <= i < |rs| ==> rs[i] == rs[1..][i - 1];
          Success([ep] + eps)
  }

  lemma AppendKeepsCollected(rs: seq<Result<Endpoint, MongoFailure>>, done: seq<Endpoint>, i: nat, e: Endpoint)
    requires i < |rs| && |done| == i && rs[i] == Success(e)
    requires forall k :: 0 <= k < i ==> rs[k] == Success(done[k])
    ensures forall k :: 0 <= k < i + 1 ==> rs[k] == Success((done + [e])[k])
  {
  }

  /** The host list of a connection: an empty or null HOST fails before any parsing. */
  function HostList(hostsPorts: Option<string>, singlePort: Option<string>): (r: Result<seq<Endpoint>, MongoFailure>)
    ensures IsEmpty(hostsPorts) ==> r == Failure(EmptyHostsString)
    ensures r.Success? ==> !IsEmpty(hostsPorts) && |r.value| == |Split(Trim(hostsPorts.value), ',')|
    ensures r.Success? ==> var parts := Split(Trim(hostsPorts.value), ',');
      forall i :: 0 <= i < |parts| ==> ParseFragment(parts[i], SharedPort(singlePort)) == Success(r.value[i])
  {
    if IsEmpty(hostsPorts) then
      Failure(EmptyHostsString)
    else
      Collect(FragmentResults(Split(Trim(hostsPorts.value), ','), SharedPort(singlePort)))
  }

  /** When every outcome before the i-th succeeded and the i-th did not, the list fails with its failure. */
  lemma {:induction false} FirstFailureWins(rs: seq<Result<Endpoint, MongoFailure>>, i: nat)
    requires i < |rs|
    requires forall k :: 0 <= k < i ==> rs[k].Success?
    requires rs[i].Failure?
    ensures Collect(rs) == Failure(rs[i].error)
  {
    if i > 0 {
      assert rs[0].Success?;
      assert forall k :: 0 <= k < i - 1 ==> rs[1..][k] == rs[k + 1];
      FirstFailureWins(rs[1..], i - 1);
    }
  }

  /**
   * The loop of `initConnection` over the fragments, appending each endpoint to
   * the replica-set list and leaving at the first fragment that fails.
   */
  method ParseHosts(hostsPorts: Option<string>, singlePort: Option<string>) returns (r: Result<seq<Endpoint>, MongoFailure>)
    ensures r == HostList(hostsPorts, singlePort)
  {
    var singlePortI := -1;
    if singlePort.Some? && ParseInt(singlePort.value).Some? {
      singlePortI := ParseInt(singlePort.value).value;
    }
    if IsEmpty(hostsPorts) {
      return Failure(EmptyHostsString);
    }
    var repSet: seq<Endpoint> := [];
    var parts := Split(Trim(hostsPorts.value), ',');
    ghost var results := FragmentResults(parts, SharedPort(singlePort));
    var i := 0;
    while i < |parts|
      invariant 0 <= i <= |parts|
      invariant |repSet| == i
      invariant forall k :: 0 <= k < i ==> results[k] == Success(repSet[k])
    {
      var part := parts[i];
      assert results[i] == ParseFragment(part, SharedPort(singlePort));
      var port := if singlePortI != -1 then singlePortI else MongoDefaultPort;
      var hp := Split(part, ':');
      if |hp| > 2 {
        FirstFailureWins(results, i);
        return Failure(MalformedHost(part));
      }
      if |hp| == 0 {
        FirstFailureWins(results, i);
        return Failure(MissingHostPart(part));
      }
      var host := hp[0];
      if |hp| == 2 {
        var parsed := ParseInt(Trim(hp[1]));
        if parsed.None? {
          FirstFailureWins(results, i);
          return Failure(UnableToParsePortNumber(hp[1]));
        }
        port := parsed.value;
      }
      assert results[i] == Success(Endpoint(host, port));
      AppendKeepsCollected(results, repSet, i, Endpoint(host, port));
      repSet := repSet + [Endpoint(host, port)];
      i := i + 1;
    }
    var all := Collect(results);
    assert all.Success?;
    assert all.value == repSet;
    return Success(repSet);
  }

  // ------------------------------------------------------------ fragment shapes

  /** `host:port` splits on colons into the host and the port text. */
  lemma SplitHostPort(host: string, portText: string)
    requires ':' !in host && ':' !in portText && portText != ""
    ensures Split(host + ":" + portText, ':') == [host, portText]
  {
    var part := host + ":" + portText;
    assert part == host + [':'] + portText;
    assert ':' in part by { assert part[|host|] == ':'; }
    SplitOnCons(host, portText, ':');
    SplitOnNoDelimiter(portText, ':');
    assert SplitOn(part, ':') == [host, portText];
  }

  /** `host:port:` splits the same way: the empty piece after the last colon is dropped. */
  lemma SplitHostPortColon(host: string, portText: string)
    requires ':' !in host && ':' !in portText && portText != ""
    ensures Split(host + ":" + portText + ":", ':') == [host, portText]
  {
    var part := host + ":" + portText + ":";
    assert part == host + [':'] + (portText + [':'] + []);
    assert ':' in part by { assert part[|host|] == ':'; }
    SplitOnCons(host, portText + [':'] + [], ':');
    SplitOnCons(portText, [], ':');
    assert SplitOn(part, ':') == [host, portText, ""];
    assert [host, portText, ""][..2] == [host, portText];
    assert DropTrailingEmpty([host, portText]) == [host, portText];
    assert DropTrailingEmpty([host, portText, ""]) == [host, portText];
  }

  /** `host:port` with a colon-free host and a colon-free, non-empty port text parses that port. */
  lemma FragmentWithPort(host: string, portText: string, defaultPort: int)
    requires ':' !in host && ':' !in portText && portText != ""
    ensures ParseFragment(host + ":" + portText, defaultPort) ==
      match ParseInt(Trim(portText))
      case None => Failure(UnableToParsePortNumber(portText))
      case Some(port) => Success(Endpoint(host, port))
  {
    SplitHostPort(host, portText);
  }

  /** Three colon-separated parts whose last is non-empty are a malformed host. */
  lemma FragmentWithTooManyParts(a: string, b: string, c: string, defaultPort: int)
    requires ':' !in a && ':' !in b && ':' !in c && c != ""
    ensures ParseFragment(a + ":" + b + ":" + c, defaultPort) == Failure(MalformedHost(a + ":" + b + ":" + c))
  {
    var part := a + ":" + b + ":" + c;
    assert part == a + [':'] + (b + [':'] + c);
    assert ':' in part by { assert part[|a|] == ':'; }
    SplitOnCons(a, b + [':'] + c, ':');
    SplitOnCons(b, c, ':');
    SplitOnNoDelimiter(c, ':');
    assert SplitOn(part, ':') == [a, b, c];
  }

  /**
   * A trailing colon is dropped with the empty piece after it, so `h:5:` has two
   * colons and still parses exactly as `h:5`.
   */
  lemma FragmentWithTrailingColon(host: string, portText: string, defaultPort: int)
    requires ':' !in host && ':' !in portText && portText != ""
    ensures ParseFragment(host + ":" + portText + ":", defaultPort) == ParseFragment(host + ":" + portText, defaultPort)
  {
    SplitHostPort(host, portText);
    SplitHostPortColon(host, portText);
  }

  // ------------------------------------------------------------ whole host lists

  /** One entry of a host list as a user writes it: a host and perhaps its own port. */
  datatype HostSpec = HostSpec(host: string, port: Option<int>)

  predicate WellFormedHostSpec(h: HostSpec) {
    && h.host != []
    && ',' !in h.host && ':' !in h.host
    && !IsBlank(h.host[0]) && !IsBlank(h.host[|h.host| - 1])
    && (h.port.Some? ==> Int32Min <= h.port.value <= Int32Max)
  }

  function RenderFragment(h: HostSpec): string {
    if h.port.Some? then h.host + ":" + IntToString(h.port.value) else h.host
  }

  function RenderFragments(hs: seq<HostSpec>): (fs: seq<string>)
    ensures |fs| == |hs| && forall i :: 0 <= i < |hs| ==> fs[i] == RenderFragment(hs[i])
  {
    if hs == [] then [] else [RenderFragment(hs[0])] + RenderFragments(hs[1..])
  }

  /** The HOST property that lists these entries, separated by commas. */
  function RenderHostList(hs: seq<HostSpec>): string
    requires |hs| >= 1
  {
    Join(RenderFragments(hs), ',')
  }

  /** The endpoint an entry denotes: its own port, or the shared one. */
  function Resolve(h: HostSpec, sharedPort: int): Endpoint {
    Endpoint(h.host, if h.port.Some? then h.port.value else sharedPort)
  }

  /** A written-out entry is comma-free and starts and ends with a non-blank character. */
  lemma RenderedFragmentShape(h: HostSpec, f: string)
    requires WellFormedHostSpec(h) && f == RenderFragment(h)
    ensures ',' !in f && f != [] && !IsBlank(f[0]) && !IsBlank(f[|f| - 1])
  {
    if h.port.Some? {
      var pt := IntToString(h.port.value);
      assert ',' !in pt by {
        forall i | 0 <= i < |pt| ensures pt[i] != ',' {
          assert IsDigit(pt[i]) || pt[i] == '-';
        }
      }
      assert f == h.host + [':'] + pt;
      assert f[0] == h.host[0] && f[|f| - 1] == pt[|pt| - 1];
    }
  }

  /** A well-formed entry, written out, parses to the endpoint it denotes. */
  lemma RenderedFragmentParses(h: HostSpec, defaultPort: int)
    requires WellFormedHostSpec(h)
    ensures ParseFragment(RenderFragment(h), defaultPort) == Success(Resolve(h, defaultPort))
  {
    if h.port.Some? {
      var pt := IntToString(h.port.value);
      assert ':' !in pt by {
        forall i | 0 <= i < |pt| ensures pt[i] != ':' {
          assert IsDigit(pt[i]) || pt[i] == '-';
        }
      }
      TrimOfTrimmed(pt);
      ParseIntOfToString(h.port.value);
      FragmentWithPort(h.host, pt, defaultPort);
    }
  }

  /** The written-out entries are comma-free, and the list starts and ends with a non-blank character. */
  lemma RenderedFragmentsShape(hs: seq<HostSpec>, fs: seq<string>)
    requires |hs| >= 1
    requires forall i :: 0 <= i < |hs| ==> WellFormedHostSpec(hs[i])
    requires fs == RenderFragments(hs)
    ensures |fs| >= 1
    ensures forall i :: 0 <= i < |fs| ==> ',' !in fs[i]
    ensures fs[0] != "" && !IsBlank(fs[0][0])
    ensures fs[|fs| - 1] != "" && !IsBlank(fs[|fs| - 1][|fs[|fs| - 1]| - 1])
  {
    forall i | 0 <= i < |fs|
      ensures ',' !in fs[i] && fs[i] != [] && !IsBlank(fs[i][0]) && !IsBlank(fs[i][|fs[i]| - 1])
    {
      RenderedFragmentShape(hs[i], fs[i]);
    }
  }

  /** Trimming and splitting a rendered host list on commas gives back the rendered fragments. */
  lemma RenderedHostListSplits(hs: seq<HostSpec>)
    requires |hs| >= 1
    requires forall i :: 0 <= i < |hs| ==> WellFormedHostSpec(hs[i])
    ensures Split(Trim(RenderHostList(hs)), ',') == RenderFragments(hs)
  {
    var fs := RenderFragments(hs);
    RenderedFragmentsShape(hs, fs);
    TrimSplitOfJoin(fs, ',');
  }

  /**
   * Any list of well-formed entries, written out as a HOST property, parses back
   * to exactly one endpoint per entry, in the same order, each with its own port
   * or else the shared one.
   */
  lemma HostListRoundTrip(hs: seq<HostSpec>, singlePort: Option<string>)
    requires |hs| >= 1
    requires forall i :: 0 <= i < |hs| ==> WellFormedHostSpec(hs[i])
    ensures var r := HostList(Some(RenderHostList(hs)), singlePort);
      && r.Success?
      && |r.value| == |hs|
      && forall i :: 0 <= i < |hs| ==> r.value[i] == Resolve(hs[i], SharedPort(singlePort))
  {
    var fs := RenderFragments(hs);
    var d := SharedPort(singlePort);
    RenderedHostListSplits(hs);
    var rs := FragmentResults(fs, d);
    forall i | 0 <= i < |hs|
      ensures rs[i] == Success(Resolve(hs[i], d))
    {
      RenderedFragmentParses(hs[i], d);
    }
    assert HostList(Some(RenderHostList(hs)), singlePort) == Collect(rs);
  }

  /**
   * No endpoint at all (the case in which the client falls back to localhost)
   * comes only from a HOST property that, once trimmed, is a non-empty run of commas.
   */
  lemma NoEndpointsIff(hostsPorts: Option<string>, singlePort: Option<string>)
    ensures HostList(hostsPorts, singlePort) == Success([]) <==>
      !IsEmpty(hostsPorts) && Trim(hostsPorts.value) != [] &&
      forall i :: 0 <= i < |Trim(hostsPorts.value)| ==> Trim(hostsPorts.value)[i] == ','
  {
    if !IsEmpty(hostsPorts) {
      SplitEmptyIff(Trim(hostsPorts.value), ',');
    }
  }
}
