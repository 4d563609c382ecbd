/**
 * The shaping of replica-set configuration records: the custom
 * `getLastErrorModes` names, the `"name" : "value"` strings of all member tags,
 * and the members whose tags satisfy one of several candidate tag sets.
 * The configuration document itself comes from the driver and is an input here.
 */
module ReplicaSet {
  import opened Wrappers
  import opened MongoFailures

  predicate NoDuplicates<T(==)>(s: seq<T>) {
    forall i, j :: 0 <= i < j < |s| ==> s[i] != s[j]
  }

  // ------------------------------------------------------------ documents

  /** A field value of a configuration document: a sub-document, or any other value. */
  datatype Value = Scalar(text: string) | Doc(fields: map<string, Value>)

  type Document = map<string, Value>

  const ReplSetSettings: string := "settings"
  const ReplSetLastErrorModes: string := "getLastErrorModes"

  /** `DBObject.get`: the value of a field, or null when the field is absent. */
  function Get(doc: Document, key: string): (r: Option<Value>)
    ensures r.Some? <==> key in doc
    ensures r.Some? ==> r.value == doc[key]
  {
    if key in doc then Some(doc[key]) else None
  }

  /** The configuration holds a `settings` sub-document with a `getLastErrorModes` sub-document `modes`. */
  ghost predicate HasModesDocument(config: Option<Document>, modes: Document) {
    && config.Some?
    && ReplSetSettings in config.value
    && config.value[ReplSetSettings].Doc?
    && ReplSetLastErrorModes in config.value[ReplSetSettings].fields
    && config.value[ReplSetSettings].fields[ReplSetLastErrorModes] == Doc(modes)
  }

  /** `settings` is present but is not a document, so the cast to DBObject fails. */
  predicate SettingsNotADocument(config: Option<Document>) {
    config.Some? && ReplSetSettings in config.value && config.value[ReplSetSettings].Scalar?
  }

  /** `settings` is a document whose `getLastErrorModes` is present but is not a document. */
  predicate ModesNotADocument(config: Option<Document>) {
    && config.Some? && ReplSetSettings in config.value && config.value[ReplSetSettings].Doc?
    && ReplSetLastErrorModes in config.value[ReplSetSettings].fields
    && config.value[ReplSetSettings].fields[ReplSetLastErrorModes].Scalar?
  }

  /**
   * The custom last-error mode names under `config.settings.getLastErrorModes`:
   * the keys of that sub-document, none when any level is absent, and a failed
   * cast when a level is present but is not a document.
   */
  function LastErrorModeNames(config: Option<Document>): (r: Result<set<string>, MongoFailure>)
    ensures forall modes :: HasModesDocument(config, modes) ==> r == Success(modes.Keys)
    ensures r.Success? && r.value != {} ==> exists modes :: HasModesDocument(config, modes) && r.value == modes.Keys
    ensures (forall modes :: !HasModesDocument(config, modes)) && r.Success? ==> r.value == {}
    ensures r.Failure? <==> SettingsNotADocument(config) || ModesNotADocument(config)
    ensures r.Failure? ==> r.error == if SettingsNotADocument(config) then ClassCast(ReplSetSettings) else ClassCast(ReplSetLastErrorModes)
  {
    if config.None? || ReplSetSettings !in config.value then
      Success({})
    else
      match config.value[ReplSetSettings]
      case Scalar(_) => Failure(ClassCast(ReplSetSettings))
      case Doc(settings) =>
        if ReplSetLastErrorModes !in settings then
          Success({})
        else
          match settings[ReplSetLastErrorModes]
          case Scalar(_) => Failure(ClassCast(ReplSetLastErrorModes))
          case Doc(modes) =>
            assert HasModesDocument(config, modes);
            Success(modes.Keys)
  }

  /** A list of strings that its owner hands over to be appended to (an `ArrayList<String>`). */
  class StringList {
    var elems: seq<string>

    constructor ()
      ensures elems == []
    {
      elems := [];
    }

    method Add(s: string)
      modifies this
      ensures elems == old(elems) + [s]
    {
      elems := elems + [s];
    }
  }

  /**
   * `extractLastErrorModes`: appends every custom mode name, once each, after the
   * entries the list already had, and nothing when a level of the lookup is
   * absent; a level that is not a document fails before anything is appended.
   */
  method ExtractLastErrorModes(config: Option<Document>, customLastErrorModes: StringList) returns (outcome: Result<(), MongoFailure>)
    modifies customLastErrorModes
    ensures outcome.Failure? <==> LastErrorModeNames(config).Failure?
    ensures outcome.Failure? ==> outcome.error == LastErrorModeNames(config).error
    ensures outcome.Failure? ==> customLastErrorModes.elems == old(customLastErrorModes.elems)
    ensures outcome.Success? ==>
      && |old(customLastErrorModes.elems)| <= |customLastErrorModes.elems|
      && customLastErrorModes.elems[..|old(customLastErrorModes.elems)|] == old(customLastErrorModes.elems)
      && NoDuplicates(customLastErrorModes.elems[|old(customLastErrorModes.elems)|..])
      && forall m :: m in customLastErrorModes.elems[|old(customLastErrorModes.elems)|..] <==> m in LastErrorModeNames(config).value
  {
    if config.Some? {
      var settings := Get(config.value, ReplSetSettings);
      if settings.Some? {
        if settings.value.Scalar? {
          return Failure(ClassCast(ReplSetSettings));
        }
        var getLastErrModes := Get(settings.value.fields, ReplSetLastErrorModes);
        if getLastErrModes.Some? {
          if getLastErrModes.value.Scalar? {
            return Failure(ClassCast(ReplSetLastErrorModes));
          }
          var modes := getLastErrModes.value.fields;
          var remaining := modes.Keys;
          ghost var added: seq<string> := [];
          while remaining != {}
            invariant remaining <= modes.Keys
            invariant customLastErrorModes.elems == old(customLastErrorModes.elems) + added
            invariant NoDuplicates(added)
            invariant forall m :: m in added <==> m in modes.Keys && m !in remaining
            decreases remaining
          {
            var m :| m in remaining;
            customLastErrorModes.Add(m);
            added := added + [m];
            remaining := remaining - {m};
          }
          assert customLastErrorModes.elems[|old(customLastErrorModes.elems)|..] == added;
        }
      }
    }
    return Success(());
  }

  // ------------------------------------------------------------ quoting

  /** `replace("\"", "\\\"")`: every double quote preceded by a backslash. */
  function EscapeQuotes(s: string): (r: string)
    ensures '"' !in s ==> r == s
  {
    if s == [] then [] else (if s[0] == '"' then ['\\', '"'] else [s[0]]) + EscapeQuotes(s[1..])
  }

  /** The inverse of EscapeQuotes: every backslash-quote pair read as a quote. */
  function UnescapeQuotes(t: string): string {
    if t == [] then []
    else if |t| >= 2 && t[0] == '\\' && t[1] == '"' then ['"'] + UnescapeQuotes(t[2..])
    else [t[0]] + UnescapeQuotes(t[1..])
  }

  /** In an escaped string every double quote comes right after a backslash. */
  lemma {:induction false} EscapedQuotesArePreceded(s: string)
    ensures forall i :: 0 <= i < |EscapeQuotes(s)| && EscapeQuotes(s)[i] == '"' ==> i > 0 && EscapeQuotes(s)[i - 1] == '\\'
  {
    if s != [] {
      EscapedQuotesArePreceded(s[1..]);
      var head := if s[0] == '"' then ['\\', '"'] else [s[0]];
      assert EscapeQuotes(s) == head + EscapeQuotes(s[1..]);
      forall i | 0 <= i < |EscapeQuotes(s)| && EscapeQuotes(s)[i] == '"'
        ensures i > 0 && EscapeQuotes(s)[i - 1] == '\\'
      {
        if i >= |head| {
          assert EscapeQuotes(s)[i] == EscapeQuotes(s[1..])[i - |head|];
          if i - |head| == 0 {
            assert false;
          }
        }
      }
    }
  }

  /** Escaping loses nothing: unescaping gives the original string back. */
  lemma {:induction false} UnescapeOfEscape(s: string)
    ensures UnescapeQuotes(EscapeQuotes(s)) == s
  {
    if s != [] {
      var rest := EscapeQuotes(s[1..]);
      UnescapeOfEscape(s[1..]);
      EscapedQuotesArePreceded(s[1..]);
      if s[0] == '"' {
        assert EscapeQuotes(s) == ['\\', '"'] + rest;
        assert (['\\', '"'] + rest)[2..] == rest;
      } else {
        assert EscapeQuotes(s) == [s[0]] + rest;
        assert ([s[0]] + rest)[1..] == rest;
        if s[0] == '\\' && rest != [] {
          assert rest[0] != '"';
        }
      }
      assert s == [s[0]] + s[1..];
    }
  }

  /** `quote`: the string between double quotes, its own double quotes escaped. */
  function Quote(s: string): (r: string)
    ensures |r| == |EscapeQuotes(s)| + 2 && r[0] == '"' && r[|r| - 1] == '"'
    ensures '"' !in s ==> r == "\"" + s + "\""
  {
    "\"" + EscapeQuotes(s) + "\""
  }

  /**
   * A quoted string starts and ends with a double quote, the text between them
   * unescapes to the original, and every double quote inside is escaped.
   */
  lemma QuoteIsReversible(s: string)
    ensures var r := Quote(s);
      && |r| >= 2 && r[0] == '"' && r[|r| - 1] == '"'
      && UnescapeQuotes(r[1..|r| - 1]) == s
      && forall i :: 1 <= i < |r| - 1 && r[i] == '"' ==> r[i - 1] == '\\'
  {
    UnescapeOfEscape(s);
    EscapedQuotesArePreceded(s);
    var r := Quote(s);
    assert r[1..|r| - 1] == EscapeQuotes(s);
    assert forall i :: 1 <= i < |r| - 1 ==> r[i] == EscapeQuotes(s)[i - 1];
  }

  // ------------------------------------------------------------ member tags

  /** The tags of a member or of a candidate set, each value in its string form. */
  type TagSet = map<string, string>

  /** A replica-set member record: its tags, if it has any, and all its other fields. */
  datatype Member = Member(attributes: map<string, string>, tags: Option<TagSet>)

  /** The member list of the replica-set configuration; null (None) when none was found. */
  function MembersOf(members: Option<seq<Option<Member>>>): seq<Option<Member>> {
    if members.Some? then members.value else []
  }

  /** One tag as `getAllTags` reports it: `"name" : "value"`, both quoted. */
  function TagPair(name: string, value: string): string {
    Quote(name) + " : " + Quote(value)
  }

  /** Escaping is one-to-one. */
  lemma EscapeQuotesInjective(a: string, c: string)
    requires EscapeQuotes(a) == EscapeQuotes(c)
    ensures a == c
  {
    UnescapeOfEscape(a);
    UnescapeOfEscape(c);
  }

  /** Where the name, the separator and the value sit inside a tag string. */
  lemma TagPairLayout(name: string, value: string)
    ensures var t, n := TagPair(name, value), |EscapeQuotes(name)|;
      |t| == n + |EscapeQuotes(value)| + 7 && t[0] == '"' && t[|t| - 1] == '"' &&
      t[1..n + 1] == EscapeQuotes(name) && t[n + 1..n + 6] == "\" : \"" &&
      t[n + 6..|t| - 1] == EscapeQuotes(value)
  {
    var en, ev := EscapeQuotes(name), EscapeQuotes(value);
    var n := |en|;
    var t := ['"'] + en + ['"', ' ', ':', ' ', '"'] + ev + ['"'];
    assert TagPair(name, value) == t;
    assert t[1..n + 1] == en;
    assert t[n + 1..n + 6] == "\" : \"";
    assert t[n + 6..|t| - 1] == ev;
  }

  /**
   * In a tag string, a double quote right after a blank can only be the closing
   * quote of the name, the opening quote of the value, or the closing quote of the
   * value: escaped quotes always follow a backslash.
   */
  lemma QuotesAfterBlank(name: string, value: string, k: int)
    requires var t := TagPair(name, value); 0 < k < |t| && t[k] == '"' && t[k - 1] == ' '
    ensures var n := |EscapeQuotes(name)|;
      k == n + 1 || k == n + 5 || k == |TagPair(name, value)| - 1
  {
    TagPairLayout(name, value);
    EscapedQuotesArePreceded(name);
    EscapedQuotesArePreceded(value);
  }

  /**
   * Distinct tags give distinct tag strings, although `quote` leaves backslashes
   * alone: the set of tag strings loses no (name, value) pair.
   */
  lemma TagPairInjective(a: string, b: string, c: string, d: string)
    requires TagPair(a, b) == TagPair(c, d)
    ensures a == c && b == d
  {
    var t := TagPair(a, b);
    var na, nc := |EscapeQuotes(a)|, |EscapeQuotes(c)|;
    TagPairLayout(a, b);
    TagPairLayout(c, d);
    assert t[na + 5] == t[na + 1..na + 6][4] == '"';
    assert t[na + 4] == t[na + 1..na + 6][3] == ' ';
    assert t[nc + 5] == t[nc + 1..nc + 6][4] == '"';
    assert t[nc + 4] == t[nc + 1..nc + 6][3] == ' ';
    QuotesAfterBlank(c, d, na + 5);
    QuotesAfterBlank(a, b, nc + 5);
    EscapeQuotesInjective(a, c);
    EscapeQuotesInjective(b, d);
  }

  /** The tag strings of the named tags. */
  function RenderTags(tags: TagSet, names: set<string>): set<string>
    requires names <= tags.Keys
  {
    set name | name in names :: TagPair(name, tags[name])
  }

  /** Rendering one more tag adds exactly its string. */
  lemma RenderOneMoreTag(tags: TagSet, names: set<string>, name: string)
    requires names <= tags.Keys && name in tags
    ensures RenderTags(tags, names + {name}) == RenderTags(tags, names) + {TagPair(name, tags[name])}
  {
  }

  function MemberTagPairs(m: Option<Member>): set<string> {
    if m.Some? && m.value.tags.Some? then RenderTags(m.value.tags.value, m.value.tags.value.Keys) else {}
  }

  /** The tag strings of the first members, collected member after member. */
  function AllTagPairs(ms: seq<Option<Member>>): set<string> {
    if ms == [] then {} else AllTagPairs(ms[..|ms| - 1]) + MemberTagPairs(ms[|ms| - 1])
  }

  /** The member is non-null, has tags, and one of them renders as `t`. */
  ghost predicate CarriesTag(m: Option<Member>, t: string) {
    m.Some? && m.value.tags.Some? &&
    exists name :: name in m.value.tags.value && t == TagPair(name, m.value.tags.value[name])
  }

  lemma MemberTagPairsIff(m: Option<Member>, t: string)
    ensures t in MemberTagPairs(m) <==> CarriesTag(m, t)
  {
  }

  /** A tag string is collected exactly when some non-null member with tags carries that tag. */
  lemma {:induction false} AllTagPairsIff(ms: seq<Option<Member>>, t: string)
    ensures t in AllTagPairs(ms) <==> exists i :: 0 <= i < |ms| && CarriesTag(ms[i], t)
  {
    if ms != [] {
      var init := ms[..|ms| - 1];
      AllTagPairsIff(init, t);
      MemberTagPairsIff(ms[|ms| - 1], t);
      assert forall i :: 0 <= i < |init| ==> init[i] == ms[i];
    }
  }

  /** The elements of a set, each once, in some order (`new ArrayList<String>(set)`). */
  method SetToSeq(s: set<string>) returns (r: seq<string>)
    ensures NoDuplicates(r)
    ensures forall x :: x in r <==> x in s
  {
    r := [];
    var rest := s;
    while rest != {}
      invariant rest <= s
      invariant NoDuplicates(r)
      invariant forall x :: x in r <==> x in s && x !in rest
      decreases rest
    {
      var x :| x in rest;
      r := r + [x];
      rest := rest - {x};
    }
  }

  /**
   * `setupAllTags`: every tag of every non-null member with tags, as a quoted
   * `"name" : "value"` string, each string once, in no particular order.
   */
  method SetupAllTags(members: Option<seq<Option<Member>>>) returns (allTags: seq<string>)
    ensures NoDuplicates(allTags)
    ensures forall t :: t in allTags <==> t in AllTagPairs(MembersOf(members))
  {
    var tempTags: set<string> := {};
    if members.Some? && |members.value| > 0 {
      var ms := members.value;
      for i := 0 to |ms|
        invariant tempTags == AllTagPairs(ms[..i])
      {
        assert ms[..i + 1][..i] == ms[..i];
        var m := ms[i];
        if m.Some? {
          var tags := m.value.tags;
          if tags.None? {
            continue;
          }
          var remaining := tags.value.Keys;
          while remaining != {}
            invariant remaining <= tags.value.Keys
            invariant tempTags == AllTagPairs(ms[..i]) + RenderTags(tags.value, tags.value.Keys - remaining)
            decreases remaining
          {
            var tagName :| tagName in remaining;
            var tagVal := tags.value[tagName];
            RenderOneMoreTag(tags.value, tags.value.Keys - remaining, tagName);
            assert tags.value.Keys - (remaining - {tagName}) == (tags.value.Keys - remaining) + {tagName};
            tempTags := tempTags + {TagPair(tagName, tagVal)};
            remaining := remaining - {tagName};
          }
          assert tags.value.Keys - remaining == tags.value.Keys;
        }
      }
      assert ms[..|ms|] == ms;
    }
    allTags := SetToSeq(tempTags);
  }

  // ------------------------------------------------------------ tag-set matching

  /** Every tag of the candidate set is on the member, with an equal value. */
  predicate SatisfiesTagSet(tags: TagSet, toMatch: TagSet) {
    forall tagName :: tagName in toMatch ==> tagName in tags && tags[tagName] == toMatch[tagName]
  }

  /** Some of the first `n` candidate sets is satisfied. */
  predicate SatisfiesOneOf(tags: TagSet, tagSets: seq<TagSet>, n: nat)
    requires n <= |tagSets|
  {
    exists j :: 0 <= j < n && SatisfiesTagSet(tags, tagSets[j])
  }

  /** A member qualifies when it has tags satisfying at least one candidate set. */
  predicate Qualifies(m: Member, tagSets: seq<TagSet>) {
    m.tags.Some? && SatisfiesOneOf(m.tags.value, tagSets, |tagSets|)
  }

  /** The qualifying members of the list, collected member after member, skipping any already collected. */
  function SatisfyingMembers(tagSets: seq<TagSet>, ms: seq<Option<Member>>): seq<Member> {
    if ms == [] then []
    else
      var prev := SatisfyingMembers(tagSets, ms[..|ms| - 1]);
      var m := ms[|ms| - 1];
      if m.Some? && Qualifies(m.value, tagSets) && m.value !in prev then prev + [m.value] else prev
  }

  /**
   * The innermost loop of the matching: walks the candidate set's tags and stops
   * at the first one the member lacks or holds with another value.
   */
  method MatchesTagSet(tags: TagSet, toMatch: TagSet) returns (matches: bool)
    ensures matches == SatisfiesTagSet(tags, toMatch)
  {
    matches := true;
    var remaining := toMatch.Keys;
    while remaining != {}
      invariant remaining <= toMatch.Keys
      invariant matches
      invariant forall tagName :: tagName in toMatch && tagName !in remaining ==> tagName in tags && tags[tagName] == toMatch[tagName]
      decreases remaining
    {
      var tagName :| tagName in remaining;
      var tagValue := toMatch[tagName];
      if tagName !in tags {
        matches := false;
        break;
      }
      if tags[tagName] != tagValue {
        matches := false;
        break;
      }
      remaining := remaining - {tagName};
    }
  }

  /**
   * `checkForReplicaSetMembersThatSatisfyTagSets`: for each non-null member with
   * tags and each candidate set, adds the member when it satisfies the set and is
   * not already in the result.
   */
  method CheckForReplicaSetMembersThatSatisfyTagSets(tagSets: seq<TagSet>, members: Option<seq<Option<Member>>>)
    returns (satisfy: seq<Member>)
    ensures satisfy == SatisfyingMembers(tagSets, MembersOf(members))
  {
    satisfy := [];
    if members.Some? && |members.value| > 0 {
      var ms := members.value;
      for i := 0 to |ms|
        invariant satisfy == SatisfyingMembers(tagSets, ms[..i])
      {
        assert ms[..i + 1][..i] == ms[..i];
        var m := ms[i];
        if m.Some? {
          var tags := m.value.tags;
          if tags.None? {
            continue;
          }
          ghost var prev := satisfy;
          for j := 0 to |tagSets|
            invariant satisfy == if m.value !in prev && SatisfiesOneOf(tags.value, tagSets, j) then prev + [m.value] else prev
          {
            var matches := MatchesTagSet(tags.value, tagSets[j]);
            if matches {
              if m.value !in satisfy {
                satisfy := satisfy + [m.value];
              }
            }
          }
        }
      }
      assert ms[..|ms|] == ms;
    }
  }

  // ------------------------------------------------------------ properties of the matching

  /** A member is in the result exactly when it is in the list and qualifies. */
  lemma {:induction false} SatisfyingMembersIff(tagSets: seq<TagSet>, ms: seq<Option<Member>>, x: Member)
    ensures x in SatisfyingMembers(tagSets, ms) <==> Some(x) in ms && Qualifies(x, tagSets)
  {
    if ms != [] {
      var init := ms[..|ms| - 1];
      SatisfyingMembersIff(tagSets, init, x);
      assert ms == init + [ms[|ms| - 1]];
    }
  }

  /** No member is in the result twice. */
  lemma {:induction false} SatisfyingMembersNoDuplicates(tagSets: seq<TagSet>, ms: seq<Option<Member>>)
    ensures NoDuplicates(SatisfyingMembers(tagSets, ms))
  {
    if ms != [] {
      SatisfyingMembersNoDuplicates(tagSets, ms[..|ms| - 1]);
    }
  }

  /** The position at which a member first appears in the list. */
  function FirstIndex(ms: seq<Option<Member>>, x: Member): (i: nat)
    requires Some(x) in ms
    ensures i < |ms| && ms[i] == Some(x) && Some(x) !in ms[..i]
  {
    if ms[0] == Some(x) then 0
    else
      var i := 1 + FirstIndex(ms[1..], x);
      assert ms[..i] == [ms[0]] + ms[1..][..i - 1];
      i
  }

  lemma FirstIndexAt(ms: seq<Option<Member>>, x: Member, i: nat)
    requires i < |ms| && ms[i] == Some(x) && Some(x) !in ms[..i]
    ensures FirstIndex(ms, x) == i
  {
    var j := FirstIndex(ms, x);
  }

  lemma FirstIndexInPrefix(p: seq<Option<Member>>, q: seq<Option<Member>>, x: Member)
    requires Some(x) in p
    ensures FirstIndex(p + q, x) == FirstIndex(p, x)
  {
    var j := FirstIndex(p, x);
    assert (p + q)[..j] == p[..j];
    FirstIndexAt(p + q, x, j);
  }

  /** The result keeps the order in which the members first appear in the list. */
  lemma {:induction false} SatisfyingMembersInMemberOrder(tagSets: seq<TagSet>, ms: seq<Option<Member>>)
    ensures forall x :: x in SatisfyingMembers(tagSets, ms) ==> Some(x) in ms
    ensures var r := SatisfyingMembers(tagSets, ms);
      forall a, b :: 0 <= a < b < |r| ==> FirstIndex(ms, r[a]) < FirstIndex(ms, r[b])
  {
    if ms != [] {
      var init := ms[..|ms| - 1];
      var last := ms[|ms| - 1];
      SatisfyingMembersInMemberOrder(tagSets, init);
      assert ms == init + [last];
      var prev := SatisfyingMembers(tagSets, init);
      forall y | y in prev
        ensures FirstIndex(ms, y) == FirstIndex(init, y)
      {
        FirstIndexInPrefix(init, [last], y);
      }
      if last.Some? && Qualifies(last.value, tagSets) && last.value !in prev {
        SatisfyingMembersIff(tagSets, init, last.value);
        FirstIndexAt(ms, last.value, |ms| - 1);
        var r := prev + [last.value];
        forall a, b | 0 <= a < b < |r|
          ensures FirstIndex(ms, r[a]) < FirstIndex(ms, r[b])
        {
          if b == |r| - 1 {
            assert r[a] == prev[a];
            assert FirstIndex(init, r[a]) < |init|;
          } else {
            assert r[a] == prev[a] && r[b] == prev[b];
          }
        }
      }
    }
  }

  /** With no candidate set at all, no member is returned. */
  lemma {:induction false} NoCandidatesNoMembers(ms: seq<Option<Member>>)
    ensures SatisfyingMembers([], ms) == []
  {
    if ms != [] {
      NoCandidatesNoMembers(ms[..|ms| - 1]);
    }
  }

  /** An empty candidate set is satisfied by every member that has tags. */
  lemma EmptyCandidateSetMatchesTagged(tagSets: seq<TagSet>, ms: seq<Option<Member>>, x: Member)
    requires map[] in tagSets
    ensures x in SatisfyingMembers(tagSets, ms) <==> Some(x) in ms && x.tags.Some?
  {
    SatisfyingMembersIff(tagSets, ms, x);
    if x.tags.Some? {
      var j :| 0 <= j < |tagSets| && tagSets[j] == map[];
      assert SatisfiesTagSet(x.tags.value, tagSets[j]);
    }
  }

  /**
   * A member tagged zone "east" and rack "1" satisfies {zone: "east"} but not
   * {zone: "east", rack: "2"}, and is returned once for either list holding the former.
   */
  lemma TaggedMemberExample(attributes: map<string, string>)
    ensures var m := Member(attributes, Some(map["zone" := "east", "rack" := "1"]));
      && SatisfiesTagSet(m.tags.value, map["zone" := "east"])
      && !SatisfiesTagSet(m.tags.value, map["zone" := "east", "rack" := "2"])
      && SatisfyingMembers([map["zone" := "east", "rack" := "2"], map["zone" := "east"]], [Some(m), None, Some(m)]) == [m]
  {
    var m := Member(attributes, Some(map["zone" := "east", "rack" := "1"]));
    var wanted := [map["zone" := "east", "rack" := "2"], map["zone" := "east"]];
    assert !SatisfiesTagSet(m.tags.value, wanted[0]) by {
      assert "rack" in wanted[0];
    }
    assert SatisfiesTagSet(m.tags.value, wanted[1]);
    var ms := [Some(m), None, Some(m)];
    assert Qualifies(m, wanted);
    assert ms[..1] == [Some(m)] && ms[..2] == [Some(m), None] && ms[..3] == ms;
    assert [Some(m)][..0] == [] && [Some(m), None][..1] == [Some(m)];
    assert SatisfyingMembers(wanted, []) == [];
    assert SatisfyingMembers(wanted, [Some(m)]) == [m];
    assert SatisfyingMembers(wanted, [Some(m), None]) == [m];
  }
}
