/**
 * The ways configuring a connection or reading the replica-set configuration can fail.
 * Every one of them surfaces as a MongoDbException in the wrapper, except
 * MissingHostPart, which is the ArrayIndexOutOfBoundsException raised by `hp[0]`
 * on a host fragment made only of colons.
 */
module MongoFailures {

  datatype MongoFailure =
    | EmptyHostsString
    | MalformedHost(part: string)
    | UnableToParsePortNumber(portText: string)
    | MissingHostPart(part: string)
    | NumberFormat(text: string)
    | ClassCast(key: string)
}
