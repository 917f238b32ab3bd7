/**
 * The reading extractor of temperature_from_api.c: the parsed response is a
 * JSON tree, and the reading is the number at `root."current"."temp_c"`.
 * The parser itself (cJSON_Parse) stays abstract: callers pass it in as a
 * function from the body text to an optional tree.
 */
module JsonReading {
  import opened Wrappers

  datatype Json =
    | Null
    | Boolean(b: bool)
    | Number(n: real)
    | Str(s: string)
    | Array(items: seq<Json>)
    | Object(members: seq<Member>)

  datatype Member = Member(key: string, value: Json)

  /** The "no reading" value of every temperature in the firmware. */
  const TemperatureErrorCode: real := -1000.0

  /** ASCII `tolower`, which cJSON uses to compare keys. */
  function Lower(c: char): (l: char)
    ensures !('A' <= l <= 'Z')
    ensures l != c ==> 'A' <= c <= 'Z' && l as int == c as int + 32
  {
    if 'A' <= c <= 'Z' then (c as int + 32) as char else c
  }

  /** Two keys are equal for `cJSON_GetObjectItem`: same length, same letters ignoring ASCII case. */
  predicate KeyMatches(name: string, key: string)
    ensures name == key ==> KeyMatches(name, key)
  {
    |name| == |key| && forall i :: 0 <= i < |name| ==> Lower(name[i]) == Lower(key[i])
  }

  /** Index of the first member whose key matches `name`. */
  function FirstMember(members: seq<Member>, name: string): (r: Option<nat>)
    ensures r.Some? ==> r.value < |members| && KeyMatches(name, members[r.value].key)
    ensures r.Some? ==> forall k :: 0 <= k < r.value ==> !KeyMatches(name, members[k].key)
    ensures r.None? ==> forall k :: 0 <= k < |members| ==> !KeyMatches(name, members[k].key)
  {
    if members == [] then None
    else if KeyMatches(name, members[0].key) then Some(0)
    else match FirstMember(members[1..], name)
      case None => None
      case Some(i) => Some(i + 1)
  }

  /** `cJSON_GetObjectItem`: the value of the first member of an object whose
      key matches `name`; NULL (None) for a missing key or a non-object. */
  function GetObjectItem(j: Json, name: string): (r: Option<Json>)
    ensures r.Some? <==> j.Object? && exists k :: 0 <= k < |j.members| && KeyMatches(name, j.members[k].key)
    ensures r.Some? ==> exists k :: 0 <= k < |j.members| && KeyMatches(name, j.members[k].key)
                                    && r.value == j.members[k].value
                                    && forall i :: 0 <= i < k ==> !KeyMatches(name, j.members[i].key)
  {
    if !j.Object? then None
    else match FirstMember(j.members, name)
      case None => None
      case Some(k) => Some(j.members[k].value)
  }

  /** The document carries the reading `v`: "current" is present and its "temp_c" is the number `v`. */
  predicate ReadingIs(doc: Option<Json>, v: real) {
    && doc.Some?
    && var current := GetObjectItem(doc.value, "current");
    && current.Some?
    && GetObjectItem(current.value, "temp_c") == Some(Number(v))
  }

  /** `get_temperature_from_json`, with the parse result as input: the reading
      when there is one, the error code for every failure. */
  function GetTemperature(doc: Option<Json>): (t: real)
    ensures forall v :: ReadingIs(doc, v) ==> t == v
    ensures (forall v :: !ReadingIs(doc, v)) ==> t == TemperatureErrorCode
  {
    match doc
    case None => TemperatureErrorCode
    case Some(root) =>
      match GetObjectItem(root, "current")
      case None => TemperatureErrorCode
      case Some(current) =>
        match GetObjectItem(current, "temp_c")
        case Some(Number(v)) => assert ReadingIs(doc, v); v
        case _ => TemperatureErrorCode
  }

  /** The reading is found when, and only when, the parse succeeded, the root
      has a "current" member and that member has a numeric "temp_c". */
  lemma ReadingFound(doc: Option<Json>)
    ensures GetTemperature(doc) != TemperatureErrorCode ==> ReadingIs(doc, GetTemperature(doc))
    ensures (exists v :: ReadingIs(doc, v) && v != TemperatureErrorCode) <==> GetTemperature(doc) != TemperatureErrorCode
  {
  }

  /** A reading is taken from the first matching members, whatever follows
      them, and the keys are matched without regard to case. */
  lemma {:induction false} FirstMatchWins(v: real, w: Json, rest: seq<Member>)
    ensures GetTemperature(Some(Object([Member("CURRENT", Object([Member("Temp_C", Number(v))] + rest)), Member("current", w)]))) == v
  {
    var inner := Object([Member("Temp_C", Number(v))] + rest);
    assert KeyMatches("temp_c", "Temp_C");
    assert FirstMember(inner.members, "temp_c") == Some(0);
    assert KeyMatches("current", "CURRENT");
  }

  /** A parse failure, a missing section and a missing or non-numeric field all give the error code. */
  lemma FailuresGiveErrorCode(s: string)
    ensures GetTemperature(None) == TemperatureErrorCode
    ensures GetTemperature(Some(Object([]))) == TemperatureErrorCode
    ensures GetTemperature(Some(Object([Member("current", Object([]))]))) == TemperatureErrorCode
    ensures GetTemperature(Some(Object([Member("current", Object([Member("temp_c", Str(s))]))]))) == TemperatureErrorCode
    ensures GetTemperature(Some(Array([Object([Member("current", Number(1.0))])]))) == TemperatureErrorCode
  {
    assert KeyMatches("current", "current");
    assert KeyMatches("temp_c", "temp_c");
  }

  /** `{"current":{"temp_c": -3.5}}` reads as -3.5. */
  lemma NegativeReading()
    ensures GetTemperature(Some(Object([Member("current", Object([Member("temp_c", Number(-3.5))]))]))) == -3.5
  {
    assert KeyMatches("current", "current");
    assert KeyMatches("temp_c", "temp_c");
  }

  /** A genuine reading of exactly -1000 cannot be told apart from a failure. */
  lemma ErrorCodeReadingIsAFailure()
    ensures GetTemperature(Some(Object([Member("current", Object([Member("temp_c", Number(-1000.0))]))]))) == TemperatureErrorCode
  {
    assert KeyMatches("current", "current");
    assert KeyMatches("temp_c", "temp_c");
  }
}
