# A model of the no-authentication MongoDB client wrapper

This project models in Dafny the core of `NoAuthMongoClientWrapper` from the
Pentaho MongoDB utilities. The wrapper turns a bag of string connection
properties into a MongoDB driver client and shapes replica-set configuration
records for its callers.

What is modelled, in the wrapper's own terms:

- **Host list (`initConnection`).** The HOST property is trimmed and split on
  commas. Each fragment is split on colons into a host and an optional port. A
  fragment without a port takes the PORT property, or 27017 when PORT is absent,
  unparsable or -1. The first bad fragment ends the parse, with its own error:
  an empty HOST, a malformed host, a missing host part or an unparsable port.
- **Client selection (`getClient`).** The whole list becomes a seed list, a
  single server, or the driver's `localhost` default.
- **Connection options (`configureConnectionOptions`).** The connect and socket
  timeouts are applied only when positive and fail when non-numeric. The write
  concern has a fast path and a general path.
- **Replica-set records.** Three operations are modelled:
  - the custom `getLastErrorModes` names;
  - `setupAllTags` and its `quote`;
  - `checkForReplicaSetMembersThatSatisfyTagSets`. A member qualifies when it
    satisfies at least one candidate tag set (OR across sets). It satisfies a
    set when it carries every tag of that set with an equal value (AND within
    a set). Each qualifying member appears once.

The Java library behaviour these rely on is stated in `java_strings.dfy`:
- `String.trim`;
- `String.split` on one character, including the dropped trailing empty
  pieces, and `":"` splitting to no pieces at all;
- `Integer.parseInt` with the 32-bit range;
- `Boolean.valueOf`.

Nulls are `Option` values, and exceptions are the `Failure` side of a `Result`.

Two behaviours of the code that are easy to misread:
- **Write-concern fast path.** The code takes the fast path whenever a concern is
  given without a wtimeout and without journaling. Its own comment calls this
  case "all defaults" (NoAuthMongoClientWrapper.java:257), and it ignores the
  concern's value. So `"majority"` alone yields acknowledgement level 1, not the
  named concern (`ResolveWriteConcern`, `NamedConcern`).
- **Member deduplication.** A satisfying member is added "only if its not already
  there" (NoAuthMongoClientWrapper.java:614-616). The test is `List.contains`,
  which compares with `equals`, so two equal member records count as one. The
  model compares members as values.

Files:
- `wrappers.dfy`: `Option` and `Result`.
- `failures.dfy`: the wrapper's failure kinds.
- `java_strings.dfy`: the Java string, integer and boolean operations.
- `host_parsing.dfy`: the host list.
- `connection_options.dfy`: the timeouts and the write concern.
- `connection.dfy`: `initConnection` and `getClient`.
- `replica_set.dfy`: the replica-set records.

## Model

| member | source | states |
|---|---|---|
| JavaStrings.ParseInt | src/org/pentaho/mongo/wrapper/NoAuthMongoClientWrapper.java:80 | parsing succeeds exactly for an optional sign followed by at least one digit whose value fits in 32 bits, and then returns that value |
| JavaStrings.ParseIntSignsAndZeros | src/org/pentaho/mongo/wrapper/NoAuthMongoClientWrapper.java:80 | `+8080` and `08080` parse to 8080, and `-0` parses to 0 |
| JavaStrings.ParseIntRangeEnds | src/org/pentaho/mongo/wrapper/NoAuthMongoClientWrapper.java:80 | `-2147483648` parses, and `2147483648` does not |
| JavaStrings.ParseIntRejects | src/org/pentaho/mongo/wrapper/NoAuthMongoClientWrapper.java:80 | a leading blank, a bare sign and the empty string do not parse |
| JavaStrings.ParseIntOfToString | src/org/pentaho/mongo/wrapper/NoAuthMongoClientWrapper.java:80 | every 32-bit integer, printed in decimal, parses back to itself |
| JavaStrings.ParseBoolean | src/org/pentaho/mongo/wrapper/NoAuthMongoClientWrapper.java:74-76 | a property reads as true exactly when it is present and is "true" once its ASCII capitals are lowered |
| JavaStrings.ParseBooleanCases | src/org/pentaho/mongo/wrapper/NoAuthMongoClientWrapper.java:74-76 | "true", "TRUE" and "True" read as true; an absent property, "yes", " true" and "1" read as false |
| JavaStrings.TrimLeading | src/org/pentaho/mongo/wrapper/NoAuthMongoClientWrapper.java:92 | trimming the front leaves a suffix, drops only blanks, and stops at a non-blank |
| JavaStrings.TrimTrailing | src/org/pentaho/mongo/wrapper/NoAuthMongoClientWrapper.java:92 | trimming the back leaves a prefix, drops only blanks, and stops at a non-blank |
| JavaStrings.Trim | src/org/pentaho/mongo/wrapper/NoAuthMongoClientWrapper.java:92 | a trimmed string is empty or starts and ends with a non-blank character |
| JavaStrings.SplitOnPieces | src/org/pentaho/mongo/wrapper/NoAuthMongoClientWrapper.java:92 | the raw pieces hold no separator, and joining them with the separator gives back the string |
| JavaStrings.DropTrailingEmpty | src/org/pentaho/mongo/wrapper/NoAuthMongoClientWrapper.java:92 | split keeps a prefix of the raw pieces and drops only empty ones, so its last piece is non-empty |
| JavaStrings.Split | src/org/pentaho/mongo/wrapper/NoAuthMongoClientWrapper.java:96 | a string without the separator splits into itself alone |
| JavaStrings.SplitOfJoin | src/org/pentaho/mongo/wrapper/NoAuthMongoClientWrapper.java:92 | separator-free pieces with a non-empty last one, joined and split again, come back unchanged |
| JavaStrings.TrimSplitOfJoin | src/org/pentaho/mongo/wrapper/NoAuthMongoClientWrapper.java:92 | separator-free pieces whose outer ends are non-blank survive join, trim and split |
| JavaStrings.SplitEmptyIff | src/org/pentaho/mongo/wrapper/NoAuthMongoClientWrapper.java:92 | split gives no pieces exactly when the string is a non-empty run of separators |
| JavaStrings.NatToString | src/org/pentaho/mongo/wrapper/NoAuthMongoClientWrapper.java:106 | decimal printing gives non-empty digits whose value is the number |
| HostParsing.SharedPort | src/org/pentaho/mongo/wrapper/NoAuthMongoClientWrapper.java:77-95 | fragments without a port use the parsed PORT property when it parses to anything but -1, and 27017 when it is absent, unparsable or -1 |
| HostParsing.SharedPortOf | src/org/pentaho/mongo/wrapper/NoAuthMongoClientWrapper.java:77-95 | a printed port other than -1 is used as the shared port; no PORT property gives 27017 |
| HostParsing.ParseFragment | src/org/pentaho/mongo/wrapper/NoAuthMongoClientWrapper.java:95-111 | a fragment without a colon always parses, as itself on the default port (blanks and the empty fragment included) |
| HostParsing.FragmentHostIsPrefix | src/org/pentaho/mongo/wrapper/NoAuthMongoClientWrapper.java:96-102 | the host of a parsed fragment is exactly its text up to the first colon |
| HostParsing.SplitHostPort | src/org/pentaho/mongo/wrapper/NoAuthMongoClientWrapper.java:96 | `host:port` splits on the colon into the host and the port text |
| HostParsing.SplitHostPortColon | src/org/pentaho/mongo/wrapper/NoAuthMongoClientWrapper.java:96 | `host:port:` splits into the same two pieces, because the empty trailing piece is dropped |
| HostParsing.FragmentWithPort | src/org/pentaho/mongo/wrapper/NoAuthMongoClientWrapper.java:103-110 | `host:port` takes the trimmed port when it parses, and fails with the untrimmed port text otherwise |
| HostParsing.FragmentWithTooManyParts | src/org/pentaho/mongo/wrapper/NoAuthMongoClientWrapper.java:97-100 | three colon-separated parts are a malformed host |
| HostParsing.FragmentWithTrailingColon | src/org/pentaho/mongo/wrapper/NoAuthMongoClientWrapper.java:96-103 | a trailing colon is dropped with the empty piece after it, so `h:5:` parses as `h:5` |
| HostParsing.Collect | src/org/pentaho/mongo/wrapper/NoAuthMongoClientWrapper.java:93-119 | the list succeeds exactly when every fragment does, with the endpoints in fragment order |
| HostParsing.FirstFailureWins | src/org/pentaho/mongo/wrapper/NoAuthMongoClientWrapper.java:93-119 | the first failing fragment decides the failure, whatever follows it |
| HostParsing.HostList | src/org/pentaho/mongo/wrapper/NoAuthMongoClientWrapper.java:85-119 | an absent or empty HOST fails with the empty-hosts error; a successful parse gives one endpoint per comma-separated fragment of the trimmed HOST, each the parse of its fragment with the shared port |
| HostParsing.ParseHosts | src/org/pentaho/mongo/wrapper/NoAuthMongoClientWrapper.java:77-119 | the imperative fragment loop computes exactly the host-list specification, early exits included |
| HostParsing.RenderedFragmentParses | src/org/pentaho/mongo/wrapper/NoAuthMongoClientWrapper.java:95-111 | a well-formed host with or without a port, written out, parses to its endpoint |
| HostParsing.RenderedFragmentShape | src/org/pentaho/mongo/wrapper/NoAuthMongoClientWrapper.java:92-96 | a written-out entry is non-empty, comma-free and has non-blank ends |
| HostParsing.RenderedFragmentsShape | src/org/pentaho/mongo/wrapper/NoAuthMongoClientWrapper.java:92 | every written-out entry of a list is non-empty, comma-free and has non-blank ends |
| HostParsing.RenderedHostListSplits | src/org/pentaho/mongo/wrapper/NoAuthMongoClientWrapper.java:92 | a written-out host list trims and splits back into its fragments |
| HostParsing.HostListRoundTrip | src/org/pentaho/mongo/wrapper/NoAuthMongoClientWrapper.java:85-119 | any list of well-formed entries, written out, parses to one endpoint per entry, in order, each with its own port or the shared one |
| HostParsing.NoEndpointsIff | src/org/pentaho/mongo/wrapper/NoAuthMongoClientWrapper.java:85-119 | the parse yields no endpoint exactly when the trimmed HOST is a non-empty run of commas |
| ConnectionOptions.ResolveTimeout | src/org/pentaho/mongo/wrapper/NoAuthMongoClientWrapper.java:172-195 | an empty timeout leaves the option alone; a non-numeric one fails (and only then); a positive parsed value is applied, and a zero or negative one is ignored |
| ConnectionOptions.ResolvePrintedTimeout | src/org/pentaho/mongo/wrapper/NoAuthMongoClientWrapper.java:172-195 | a printed timeout is applied when positive and ignored otherwise |
| ConnectionOptions.RequestedW | src/org/pentaho/mongo/wrapper/NoAuthMongoClientWrapper.java:275-287 | the general path asks for level 1 when no concern is given, the parsed number when the concern is numeric, and otherwise the mode the concern names |
| ConnectionOptions.ResolveWriteConcern | src/org/pentaho/mongo/wrapper/NoAuthMongoClientWrapper.java:250-295 | the fast path gives the default concern; failure exactly for an unparsable wtimeout; fsync is always off, journaling as configured, and wtimeout is 0 or the parsed value |
| ConnectionOptions.WriteConcernHonoursSpecUnlessFastPath | src/org/pentaho/mongo/wrapper/NoAuthMongoClientWrapper.java:256-287 | the concern carries the requested level unless the fast path applies to a concern other than the number 1 |
| ConnectionOptions.NothingConfiguredGivesDefault | src/org/pentaho/mongo/wrapper/NoAuthMongoClientWrapper.java:266-286 | with nothing configured, the concern is level 1, no timeout, no journaling |
| ConnectionOptions.NumericConcern | src/org/pentaho/mongo/wrapper/NoAuthMongoClientWrapper.java:266-279 | a printed level and a printed wtimeout are both honoured |
| ConnectionOptions.NamedConcern | src/org/pentaho/mongo/wrapper/NoAuthMongoClientWrapper.java:256-283 | a non-numeric concern is kept as a named mode exactly when a wtimeout or journaling is given |
| ConnectionOptions.ConfigureOptions | src/org/pentaho/mongo/wrapper/NoAuthMongoClientWrapper.java:165-296 | the options succeed exactly when both timeouts and the write concern do; the connect timeout's failure comes first, then the socket timeout's |
| Connection.SelectClient | src/org/pentaho/mongo/wrapper/NoAuthMongoClientWrapper.java:142-144 | seed list, single server or localhost under exactly the source's three conditions; the target names exactly the parsed endpoints |
| Connection.InitConnection | src/org/pentaho/mongo/wrapper/NoAuthMongoClientWrapper.java:65-128 | host-list failures come first, then option failures; otherwise the client is chosen from the parsed endpoints with the resolved options |
| Connection.LocalhostOnlyForCommaRuns | src/org/pentaho/mongo/wrapper/NoAuthMongoClientWrapper.java:85-144 | after a successful parse, the localhost fallback happens only for a HOST made of commas |
| ReplicaSet.LastErrorModeNames | src/org/pentaho/mongo/wrapper/NoAuthMongoClientWrapper.java:378-392 | array values aside, when `settings.getLastErrorModes` is a document the names are exactly its keys; there are none when a level is absent; the lookup fails exactly when `settings` or `getLastErrorModes` is present but is not a document, naming the first such level |
| ReplicaSet.StringList.Add | src/org/pentaho/mongo/wrapper/NoAuthMongoClientWrapper.java:387 | appending a name puts it at the end of the caller's list |
| ReplicaSet.ExtractLastErrorModes | src/org/pentaho/mongo/wrapper/NoAuthMongoClientWrapper.java:378-392 | keeps the caller's entries and appends every mode name once and nothing else; a non-document level fails and leaves the list unchanged |
| ReplicaSet.EscapedQuotesArePreceded | src/org/pentaho/mongo/wrapper/NoAuthMongoClientWrapper.java:536-542 | after escaping, every double quote follows a backslash |
| ReplicaSet.EscapeQuotes | src/org/pentaho/mongo/wrapper/NoAuthMongoClientWrapper.java:537-541 | a string without double quotes is left as it is, as the guard in the source expects |
| ReplicaSet.UnescapeOfEscape | src/org/pentaho/mongo/wrapper/NoAuthMongoClientWrapper.java:536-542 | escaping loses nothing: unescaping gives the original string |
| ReplicaSet.QuoteIsReversible | src/org/pentaho/mongo/wrapper/NoAuthMongoClientWrapper.java:536-547 | a quoted string is delimited by double quotes, holds no unescaped quote inside, and unquotes to the original |
| ReplicaSet.Quote | src/org/pentaho/mongo/wrapper/NoAuthMongoClientWrapper.java:536-547 | the result starts and ends with a double quote and is two characters longer than the escaped string; a string without double quotes is only wrapped in quotes |
| ReplicaSet.EscapeQuotesInjective | src/org/pentaho/mongo/wrapper/NoAuthMongoClientWrapper.java:536-542 | two strings with the same escaped form are equal |
| ReplicaSet.TagPairLayout | src/org/pentaho/mongo/wrapper/NoAuthMongoClientWrapper.java:526 | a tag string is the quoted name, then ` : `, then the quoted value, with both escaped parts at fixed places |
| ReplicaSet.QuotesAfterBlank | src/org/pentaho/mongo/wrapper/NoAuthMongoClientWrapper.java:526 | inside a tag string a double quote that follows a blank is only ever one of the three quotes `quote` adds next to a blank |
| ReplicaSet.TagPairInjective | src/org/pentaho/mongo/wrapper/NoAuthMongoClientWrapper.java:524-528 | two tags with the same tag string have the same name and the same value, so the set of strings loses no tag |
| ReplicaSet.RenderOneMoreTag | src/org/pentaho/mongo/wrapper/NoAuthMongoClientWrapper.java:524-528 | visiting one more tag adds exactly its `"name" : "value"` string |
| ReplicaSet.MemberTagPairsIff | src/org/pentaho/mongo/wrapper/NoAuthMongoClientWrapper.java:516-528 | a member contributes exactly the strings of its own tags |
| ReplicaSet.AllTagPairsIff | src/org/pentaho/mongo/wrapper/NoAuthMongoClientWrapper.java:511-531 | a tag string is collected exactly when some non-null member with tags carries that tag |
| ReplicaSet.SetToSeq | src/org/pentaho/mongo/wrapper/NoAuthMongoClientWrapper.java:533 | the list holds every element of the set, each once |
| ReplicaSet.SetupAllTags | src/org/pentaho/mongo/wrapper/NoAuthMongoClientWrapper.java:511-534 | the result has no duplicates and holds exactly the tag strings of all members |
| ReplicaSet.MatchesTagSet | src/org/pentaho/mongo/wrapper/NoAuthMongoClientWrapper.java:587-611 | the early-exit loop decides exactly whether the member has every tag of the candidate set with an equal value |
| ReplicaSet.CheckForReplicaSetMembersThatSatisfyTagSets | src/org/pentaho/mongo/wrapper/NoAuthMongoClientWrapper.java:575-626 | the nested loops compute exactly the satisfying-members specification |
| ReplicaSet.SatisfyingMembersIff | src/org/pentaho/mongo/wrapper/NoAuthMongoClientWrapper.java:575-626 | a member is returned exactly when it is in the list, has tags, and satisfies at least one candidate set |
| ReplicaSet.SatisfyingMembersNoDuplicates | src/org/pentaho/mongo/wrapper/NoAuthMongoClientWrapper.java:613-619 | no member is returned twice |
| ReplicaSet.FirstIndex | src/org/pentaho/mongo/wrapper/NoAuthMongoClientWrapper.java:578 | the first position at which a member occurs |
| ReplicaSet.SatisfyingMembersInMemberOrder | src/org/pentaho/mongo/wrapper/NoAuthMongoClientWrapper.java:576-622 | returned members come from the list, in the order of their first appearance |
| ReplicaSet.NoCandidatesNoMembers | src/org/pentaho/mongo/wrapper/NoAuthMongoClientWrapper.java:587 | with no candidate tag set, nothing is returned |
| ReplicaSet.EmptyCandidateSetMatchesTagged | src/org/pentaho/mongo/wrapper/NoAuthMongoClientWrapper.java:587-613 | an empty candidate set selects every member that has tags |
| ReplicaSet.TaggedMemberExample | src/org/pentaho/mongo/wrapper/NoAuthMongoClientWrapper.java:575-626 | a member tagged zone east and rack 1 satisfies {zone: east} but not {zone: east, rack: 2}, and is returned once although listed twice |

## Left out

- **Driver construction.**
  - Building `MongoClient` and `ServerAddress`, host-name resolution (`UnknownHostException`), and the driver's own checks on hosts, ports and write concerns are not modelled.
  - The model stops at the endpoints, the chosen target and the option values handed to the driver.
- **Read preference and its tag sets.** The read-preference tag-set parsing and selection (NoAuthMongoClientWrapper.java:206-248) is not modelled. The tag-set list is hard-wired to null and the preference name to null. The outcome then depends on `NamedReadPreference.byName(null)`, which is not part of this model. The model treats READ_PREFERENCE as not set.
- **Logging** is left out. Log calls have no effect on the result.
- **Fetching configuration.** Fetching the replica-set configuration and its member records from the server (`getLastErrorModes`, `getRepSetMemberRecords`) is I/O and is not modelled. The fetched documents are inputs.
- **`getReplicaSetMembersThatSatisfyTagSets`.** Its `toString` rendering of the returned members is left out, as is its exception wrapping.
- **The other wrapper methods** are left out, because each of them is a call into the driver: `getDatabaseNames`, `getDb`, `getCollectionsNames`, `getIndexInfo`, `getCollection`, `createCollection`, `wrap`, `dispose` and `getMongo`. Their own logic is not modelled either:
  - `getIndexInfo` rejects a missing database and an empty collection name (NoAuthMongoClientWrapper.java:396-406).
  - It creates the collection when it does not exist (:408-410), and fails on a missing collection or an empty index list (:412-424).
  - These methods re-throw a `MongoDbException` as it is and wrap every other exception in one (for example :306-311, :318-323, :337-342, :432-439).
- ReplicaSet.LastErrorModeNames: array values (`BasicDBList`) are not modelled; a `Value` is a scalar or a document. In the driver an array is itself a `DBObject` keyed by positions, so an array at `getLastErrorModes` makes the source append the names "0", "1", …, and an array at `settings` makes the `get( "getLastErrorModes" )` lookup throw `IllegalArgumentException`. The model reports a failed cast for both, since it sees a non-document there.
- **Document values.**
  - Values inside tag documents are modelled as their `toString` strings.
  - Null values inside documents are not modelled, so the `NullPointerException` from `toString` on a null tag value is left out.
  - A member record that is not a document (a `ClassCastException`) is not modelled, since members are `Member` values.
  - A member's `tags` field that is present but is not a document is not modelled either. The `(DBObject)` cast at NoAuthMongoClientWrapper.java:519 and :582 throws `ClassCastException` there. `Member.tags` is either absent or a tag map, so that failure cannot arise in the model.
  - A null list of candidate tag sets is not modelled (`tagSets` is a sequence).
- **Java parsing in full.**
  - `Integer.parseInt` accepts only ASCII decimal digits here; Java also accepts other Unicode digits.
  - `Boolean.valueOf` compares with ASCII case folding only.
  - `Util.isEmpty` is not part of this model. It is taken to mean null or zero-length.
- **Key order.** Key-set iteration order of documents and of the `HashSet` is unspecified. The loops pick keys in any order, so the orders of `ExtractLastErrorModes` and `SetupAllTags` are not pinned down.
- ReplicaSet.SetupAllTags: states membership and uniqueness of the result, not its order, because the source's order comes from a `HashSet`.
