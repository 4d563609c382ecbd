/**
 * Resolution of the connection options the wrapper sets on the driver's
 * options builder: the connect and socket timeouts and the write concern
 * (`configureConnectionOptions`).
 */
module ConnectionOptions {
  import opened Wrappers
  import opened JavaStrings
  import opened MongoFailures

  /** The acknowledgement level of a write concern: a number of servers or a named mode. */
  datatype W = Num(n: int) | Named(name: string)

  datatype WriteConcern = WriteConcern(w: W, wtimeout: int, fsync: bool, j: bool)

  /**
   * The options the builder ends up with; a timeout of None means the builder's
   * own default was left untouched.
   */
  datatype Options = Options(connectTimeout: Option<int>, socketTimeout: Option<int>, writeConcern: WriteConcern)

  /**
   * A timeout property: an empty one leaves the option untouched, a non-numeric
   * one fails, a positive one is applied and any other number is silently ignored.
   */
  function ResolveTimeout(raw: Option<string>): (r: Result<Option<int>, MongoFailure>)
    ensures IsEmpty(raw) ==> r == Success(None)
    ensures r.Failure? <==> !IsEmpty(raw) && ParseInt(raw.value).None?
    ensures r.Success? && r.value.Some? ==> 0 < r.value.value <= Int32Max && ParseInt(raw.value) == r.value
    ensures !IsEmpty(raw) && ParseInt(raw.value).Some? && ParseInt(raw.value).value > 0 ==> r == Success(ParseInt(raw.value))
    ensures !IsEmpty(raw) && ParseInt(raw.value).Some? && ParseInt(raw.value).value <= 0 ==> r == Success(None)
  {
    if IsEmpty(raw) then
      Success(None)
    else
      match ParseInt(raw.value)
      case None => Failure(NumberFormat(raw.value))
      case Some(t) => if t > 0 then Success(Some(t)) else Success(None)
  }

  /** A printed positive timeout is applied as it is; a printed zero or negative one is not applied. */
  lemma ResolvePrintedTimeout(t: int)
    requires Int32Min <= t <= Int32Max
    ensures ResolveTimeout(Some(IntToString(t))) == if t > 0 then Success(Some(t)) else Success(None)
  {
    ParseIntOfToString(t);
  }

  /** The simplest concern: one acknowledgement, no timeout, no fsync, no journaling. */
  const DefaultConcern := WriteConcern(Num(1), 0, false, false)

  /**
   * The acknowledgement level a write-concern property asks for on the general
   * path: 1 when empty, its number when numeric, otherwise the mode it names.
   */
  function RequestedW(spec: Option<string>): (w: W)
    ensures IsEmpty(spec) ==> w == Num(1)
    ensures !IsEmpty(spec) ==> (w.Named? <==> ParseInt(spec.value).None?)
    ensures w.Named? ==> spec == Some(w.name)
    ensures !IsEmpty(spec) && ParseInt(spec.value).Some? ==> w == Num(ParseInt(spec.value).value)
  {
    if IsEmpty(spec) then Num(1)
    else match ParseInt(spec.value)
      case Some(n) => Num(n)
      case None => Named(spec.value)
  }

  /** The fast path of the write-concern resolution: a spec is given, but no wtimeout and no journaling. */
  predicate TakesFastPath(spec: Option<string>, wTimeout: Option<string>, journaled: bool) {
    !IsEmpty(spec) && IsEmpty(wTimeout) && !journaled
  }

  /**
   * The write concern: the fast path gives the default concern whatever the
   * spec says; otherwise the wtimeout must parse (0 when empty), and the spec
   * gives the level, with fsync off and journaling as configured.
   */
  function ResolveWriteConcern(spec: Option<string>, wTimeout: Option<string>, journaled: bool): (r: Result<WriteConcern, MongoFailure>)
    ensures TakesFastPath(spec, wTimeout, journaled) ==> r == Success(DefaultConcern)
    ensures r.Failure? <==> !IsEmpty(wTimeout) && ParseInt(wTimeout.value).None?
    ensures r.Success? ==> !r.value.fsync && r.value.j == journaled
    ensures r.Success? ==> r.value.wtimeout == if IsEmpty(wTimeout) then 0 else ParseInt(wTimeout.value).value
  {
    if TakesFastPath(spec, wTimeout, journaled) then
      Success(DefaultConcern)
    else
      var wt :- if IsEmpty(wTimeout) then Success(0)
                else match ParseInt(wTimeout.value)
                  case Some(t) => Success(t)
                  case None => Failure(NumberFormat(wTimeout.value));
      if !IsEmpty(spec) then
        match ParseInt(spec.value)
        case Some(wc) => Success(WriteConcern(Num(wc), wt, false, journaled))
        case None => Success(WriteConcern(Named(spec.value), wt, false, journaled))
      else
        Success(WriteConcern(Num(1), wt, false, journaled))
  }

  /**
   * The spec's own level is what the concern carries unless the fast path
   * replaces it; the fast path changes the outcome exactly when the spec is not
   * the number 1.
   */
  lemma WriteConcernHonoursSpecUnlessFastPath(spec: Option<string>, wTimeout: Option<string>, journaled: bool)
    requires ResolveWriteConcern(spec, wTimeout, journaled).Success?
    ensures var c := ResolveWriteConcern(spec, wTimeout, journaled).value;
      c.w == RequestedW(spec) <==> !TakesFastPath(spec, wTimeout, journaled) || ParseInt(spec.value) == Some(1)
  {
  }

  /** Nothing configured at all: acknowledgement level 1, no timeout, no journaling. */
  lemma NothingConfiguredGivesDefault()
    ensures ResolveWriteConcern(None, None, false) == Success(DefaultConcern)
    ensures ResolveWriteConcern(Some(""), Some(""), false) == Success(DefaultConcern)
  {
  }

  /** A printed level and a printed wtimeout are both honoured. */
  lemma NumericConcern(n: int, t: int, journaled: bool)
    requires Int32Min <= n <= Int32Max && Int32Min <= t <= Int32Max
    ensures ResolveWriteConcern(Some(IntToString(n)), Some(IntToString(t)), journaled)
      == Success(WriteConcern(Num(n), t, false, journaled))
  {
    ParseIntOfToString(n);
    ParseIntOfToString(t);
  }

  /**
   * A non-numeric spec names the mode, unless the fast path applies (no wtimeout
   * and no journaling), which replaces it with level 1.
   */
  lemma NamedConcern(name: string, wTimeout: Option<string>, journaled: bool)
    requires name != "" && ParseInt(name).None?
    requires IsEmpty(wTimeout) || ParseInt(wTimeout.value).Some?
    ensures var r := ResolveWriteConcern(Some(name), wTimeout, journaled);
      r.Success? && (r.value.w == Named(name) <==> !IsEmpty(wTimeout) || journaled)
  {
  }

  /**
   * All options of the builder, in the order the wrapper sets them: the first
   * of the connect timeout, the socket timeout and the write concern that fails
   * decides the failure.
   */
  function ConfigureOptions(connTimeout: Option<string>, socketTimeout: Option<string>,
                            writeConcern: Option<string>, wTimeout: Option<string>, journaled: bool): (r: Result<Options, MongoFailure>)
    ensures r.Success? <==>
      && ResolveTimeout(connTimeout).Success?
      && ResolveTimeout(socketTimeout).Success?
      && ResolveWriteConcern(writeConcern, wTimeout, journaled).Success?
    ensures r.Success? ==> r.value == Options(ResolveTimeout(connTimeout).value, ResolveTimeout(socketTimeout).value,
                                              ResolveWriteConcern(writeConcern, wTimeout, journaled).value)
    ensures ResolveTimeout(connTimeout).Failure? ==> r == Failure(ResolveTimeout(connTimeout).error)
    ensures ResolveTimeout(connTimeout).Success? && ResolveTimeout(socketTimeout).Failure? ==>
              r == Failure(ResolveTimeout(socketTimeout).error)
  {
    var c :- ResolveTimeout(connTimeout);
    var s :- ResolveTimeout(socketTimeout);
    var w :- ResolveWriteConcern(writeConcern, wTimeout, journaled);
    Success(Options(c, s, w))
  }
}
