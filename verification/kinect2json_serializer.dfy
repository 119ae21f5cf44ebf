/**
 * `BodyCollectionSerializer` of the Kinect v2 server: every body slot becomes a
 * `JSONBody` (tracking id as decimal text, the joint records, both hand states
 * as integers) inside a `{"bodies": [...]}` document.
 */
module Kinect2JsonSerializer {
  import opened Wrappers
  import opened Kinect
  import opened Text
  import opened JointRecords
  import Json
  import JsonReader
  import Seqs

  /** `JSONBody`: `id`, `joints`, `lhandstate`, `rhandstate`. */
  datatype JsonBody = JsonBody(id: string, joints: seq<JsonJoint>, lState: int, rState: int)

  /** `JSONBodyCollection`: the single member `bodies`. */
  datatype JsonBodyCollection = JsonBodyCollection(bodies: seq<JsonBody>)

  /**
   * The record of one body, whatever its tracking state: its `id` is the canonical
   * decimal text of the 64-bit tracking id and parses back to it, its hand states
   * are the enumeration ordinals and map back to the states, and its joints are
   * the joint records of the body's dictionary.
   */
  function BodyDto(b: Body): (r: JsonBody)
    ensures IsCanonicalDecimal(r.id) && ParseUInt64(r.id) == Some(b.trackingId as nat)
    ensures HandStateOf(r.lState) == Some(b.handLeftState)
    ensures HandStateOf(r.rState) == Some(b.handRightState)
    ensures r.joints == JointDtos(b.joints)
  {
    DecimalRoundTrip(b.trackingId);
    OrdinalRoundTrip(b.handLeftState);
    OrdinalRoundTrip(b.handRightState);
    JsonBody(Decimal(b.trackingId), JointDtos(b.joints), Ordinal(b.handLeftState), Ordinal(b.handRightState))
  }

  function BodyDtos(bs: seq<Body>): seq<JsonBody>
  {
    Seqs.Map(bs, BodyDto)
  }

  /** The outer `foreach` of `Serialize`: one `JSONBody` per array element, in array order. */
  method SerializeBodies(bodies: array<Body>) returns (dto: JsonBodyCollection)
    ensures dto == JsonBodyCollection(BodyDtos(bodies[..]))
  {
    var out: seq<JsonBody> := [];
    for k := 0 to bodies.Length
      invariant out == BodyDtos(bodies[..k])
    {
      var b := bodies[k];
      var joints := SerializeJoints(b.joints);
      Seqs.MapSnoc(bodies[..k], b, BodyDto);
      assert bodies[..k + 1] == bodies[..k] + [b];
      out := out + [JsonBody(Decimal(b.trackingId), joints, Ordinal(b.handLeftState), Ordinal(b.handRightState))];
    }
    assert bodies[..bodies.Length] == bodies[..];
    dto := JsonBodyCollection(out);
  }

  /** The JSON tree of a body; the data-contract serializer writes the members in this (alphabetical) order. */
  function BodyToJson(b: JsonBody): Json.Value
  {
    Json.Object([
      Json.Member("id", Json.String(b.id)),
      Json.Member("joints", Json.Array(JointsToJson(b.joints))),
      Json.Member("lhandstate", Json.Int(b.lState)),
      Json.Member("rhandstate", Json.Int(b.rState))])
  }

  function ToJson(c: JsonBodyCollection): Json.Value
  {
    Json.Object([Json.Member("bodies", Json.Array(Seqs.Map(c.bodies, BodyToJson)))])
  }

  /** A reader of a body object: exactly the four members, in order, of the right kinds. */
  function BodyOfJson(v: Json.Value): Option<JsonBody>
  {
    if v.Object? && Json.Names(v.members) == ["id", "joints", "lhandstate", "rhandstate"]
       && v.members[0].value.String? && v.members[1].value.Array?
       && v.members[2].value.Int? && v.members[3].value.Int?
    then match JointsOfJson(v.members[1].value.items)
      case Some(joints) => Some(JsonBody(v.members[0].value.s, joints, v.members[2].value.n, v.members[3].value.n))
      case None => None
    else None
  }

  function BodiesOfJson(vs: seq<Json.Value>): Option<seq<JsonBody>>
  {
    Seqs.MapOption(vs, BodyOfJson)
  }

  function OfJson(v: Json.Value): Option<JsonBodyCollection>
  {
    if v.Object? && Json.Names(v.members) == ["bodies"] && v.members[0].value.Array? then
      match BodiesOfJson(v.members[0].value.items)
      case Some(bs) => Some(JsonBodyCollection(bs))
      case None => None
    else None
  }

  /** `Serialize(this Body[] bodies)`: the records, then the library's JSON writer (number text injected as `num`). */
  method Serialize(bodies: array<Body>, num: Single -> string) returns (json: string)
    ensures json == Json.Render(ToJson(JsonBodyCollection(BodyDtos(bodies[..]))), num)
  {
    var dto := SerializeBodies(bodies);
    json := Json.Render(ToJson(dto), num);
  }

  /**
   * Every slot yields a record, in slot order, whether tracked or not. Its `id`
   * is the canonical decimal text of the 64-bit tracking id and parses back to
   * it; its hand states are the enumeration ordinals and map back to the states;
   * its joints are the joint records of the body's dictionary.
   */
  lemma BodyDtosAt(bs: seq<Body>)
    ensures |BodyDtos(bs)| == |bs|
    ensures forall k | 0 <= k < |bs| ::
      var r, b := BodyDtos(bs)[k], bs[k];
      IsCanonicalDecimal(r.id) && ParseUInt64(r.id) == Some(b.trackingId as nat)
      && HandStateOf(r.lState) == Some(b.handLeftState) && HandStateOf(r.rState) == Some(b.handRightState)
      && r.joints == JointDtos(b.joints)
  {
    Seqs.MapAt(bs, BodyDto);
  }

  /** Two bodies with different tracking ids get different `id` strings. */
  lemma DistinctIds(a: Body, b: Body)
    requires a.trackingId != b.trackingId
    ensures BodyDto(a).id != BodyDto(b).id
  {
  }

  /** The `id` needs no escaping: it is written as the digits in quotes. */
  lemma IdRendering(b: Body, num: Single -> string)
    ensures Json.Render(Json.String(BodyDto(b).id), num) == "\"" + Decimal(b.trackingId) + "\""
  {
    var s := Decimal(b.trackingId);
    assert Json.IsPlain(s) by {
      assert forall i | 0 <= i < |s| :: IsDigit(s[i]);
    }
    Json.PlainEscape(s);
  }

  lemma BodyJsonRoundTrip(b: JsonBody)
    ensures Json.Names(BodyToJson(b).members) == ["id", "joints", "lhandstate", "rhandstate"]
    ensures BodyOfJson(BodyToJson(b)) == Some(b)
  {
    JointsJsonRoundTrip(b.joints);
  }

  lemma BodiesJsonRoundTrip(bs: seq<JsonBody>)
    ensures BodiesOfJson(Seqs.Map(bs, BodyToJson)) == Some(bs)
  {
    forall b: JsonBody
      ensures BodyOfJson(BodyToJson(b)) == Some(b)
    {
      BodyJsonRoundTrip(b);
    }
    Seqs.MapOptionInverse(bs, BodyToJson, BodyOfJson);
  }

  /** A reader of the document recovers every record the serializer built. */
  lemma JsonRoundTrip(c: JsonBodyCollection)
    ensures OfJson(ToJson(c)) == Some(c)
  {
    BodiesJsonRoundTrip(c.bodies);
  }

  /** The document text for no bodies, joined from its pieces. */
  lemma EmptyDocumentText()
    ensures "{\"" + "bodies" + "\":[]}" == "{\"bodies\":[]}"
  {
    var r := "{\"" + "bodies" + "\":[]}";
    forall i | 0 <= i < |r|
      ensures r[i] == "{\"bodies\":[]}"[i]
    {}
  }

  /** With no body slots the document is `{"bodies":[]}`. */
  lemma EmptyDocument(num: Single -> string)
    ensures Json.Render(ToJson(JsonBodyCollection(BodyDtos([]))), num) == "{\"bodies\":[]}"
  {
    assert ToJson(JsonBodyCollection(BodyDtos([]))) == Json.Object([Json.Member("bodies", Json.Array([]))]);
    Json.RenderEmptyArrayMember("bodies", num);
    EmptyDocumentText();
  }

  // ---------------------------------------------------------------- the text a socket receives

  /** The shape a consumer expects of a body object: `id`, `joints`, `lhandstate`, `rhandstate`. */
  const BodyShape: JsonReader.Shape :=
    JsonReader.ObjectShape(["id", "joints", "lhandstate", "rhandstate"],
      [JsonReader.StringShape, JsonReader.ArrayShape(JointShape), JsonReader.IntShape, JsonReader.IntShape])

  const DocumentShape: JsonReader.Shape := JsonReader.ObjectShape(["bodies"], [JsonReader.ArrayShape(BodyShape)])

  /** What a consumer makes of a message: the document text read as a value, then its records. */
  function ReadDocument(text: string, numOf: string -> Option<Single>): Option<JsonBodyCollection>
  {
    match JsonReader.Read(DocumentShape, text, numOf)
    case Some(v) => OfJson(v)
    case None => None
  }

  lemma BodyConforms(b: JsonBody)
    ensures JsonReader.Conforms(BodyToJson(b), BodyShape)
  {
    BodyJsonRoundTrip(b);
    JointsConform(b.joints);
  }

  /** Every document the serializer builds has the document shape. */
  lemma DocumentConforms(c: JsonBodyCollection)
    ensures JsonReader.Conforms(ToJson(c), DocumentShape)
  {
    var items := Seqs.Map(c.bodies, BodyToJson);
    Seqs.MapAt(c.bodies, BodyToJson);
    forall i | 0 <= i < |items|
      ensures JsonReader.Conforms(items[i], BodyShape)
    {
      BodyConforms(c.bodies[i]);
    }
  }

  /**
   * The text the serializer writes reads back as the records it was written
   * from, for any number formatter that a number parser inverts.
   */
  lemma TextRoundTrip(c: JsonBodyCollection, num: Single -> string, numOf: string -> Option<Single>)
    requires JsonReader.NumberFormat(num, numOf)
    ensures ReadDocument(Json.Render(ToJson(c), num), numOf) == Some(c)
  {
    DocumentConforms(c);
    JsonReader.ReadRendered(DocumentShape, ToJson(c), num, numOf);
    JsonRoundTrip(c);
  }

  /** Different record collections are written as different texts. */
  lemma TextInjective(c: JsonBodyCollection, d: JsonBodyCollection, num: Single -> string, numOf: string -> Option<Single>)
    requires JsonReader.NumberFormat(num, numOf)
    ensures Json.Render(ToJson(c), num) == Json.Render(ToJson(d), num) ==> c == d
  {
    TextRoundTrip(c, num, numOf);
    TextRoundTrip(d, num, numOf);
  }
}
