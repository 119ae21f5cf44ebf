/**
 * `BodyCollectionSerializer` of WebsocketServer3: the same document as the
 * Kinect v2 server's, except that a body record carries only `id` and `joints`.
 */
module Ws3Serializer {
  import opened Wrappers
  import opened Kinect
  import opened Text
  import opened JointRecords
  import Json
  import JsonReader
  import Seqs
  import Kinect2JsonSerializer

  /** `JSONBody`: `id`, `joints`. */
  datatype JsonBody = JsonBody(id: string, joints: seq<JsonJoint>)

  datatype JsonBodyCollection = JsonBodyCollection(bodies: seq<JsonBody>)

  /**
   * The record of one body, whatever its tracking state: its `id` is the canonical
   * decimal text of the 64-bit tracking id and parses back to it, and its joints
   * are the joint records of the body's dictionary.
   */
  function BodyDto(b: Body): (r: JsonBody)
    ensures IsCanonicalDecimal(r.id) && ParseUInt64(r.id) == Some(b.trackingId as nat)
    ensures r.joints == JointDtos(b.joints)
  {
    DecimalRoundTrip(b.trackingId);
    JsonBody(Decimal(b.trackingId), JointDtos(b.joints))
  }

  function BodyDtos(bs: seq<Body>): seq<JsonBody>
  {
    Seqs.Map(bs, BodyDto)
  }

  /** The outer `foreach` of `Serialize`: one `JSONBody` per array element, in array order. */
  method SerializeBodies(bodies: array<Body>) returns (dto: JsonBodyCollection)
    ensures dto == JsonBodyCollection(BodyDtos(bodies[..]))
  {
    var out: seq<JsonBody> := [];
    for k := 0 to bodies.Length
      invariant out == BodyDtos(bodies[..k])
    {
      var b := bodies[k];
      var joints := SerializeJoints(b.joints);
      Seqs.MapSnoc(bodies[..k], b, BodyDto);
      assert bodies[..k + 1] == bodies[..k] + [b];
      out := out + [JsonBody(Decimal(b.trackingId), joints)];
    }
    assert bodies[..bodies.Length] == bodies[..];
    dto := JsonBodyCollection(out);
  }

  function BodyToJson(b: JsonBody): Json.Value
  {
    Json.Object([
      Json.Member("id", Json.String(b.id)),
      Json.Member("joints", Json.Array(JointsToJson(b.joints)))])
  }

  function ToJson(c: JsonBodyCollection): Json.Value
  {
    Json.Object([Json.Member("bodies", Json.Array(Seqs.Map(c.bodies, BodyToJson)))])
  }

  function BodyOfJson(v: Json.Value): Option<JsonBody>
  {
    if v.Object? && Json.Names(v.members) == ["id", "joints"]
       && v.members[0].value.String? && v.members[1].value.Array?
    then match JointsOfJson(v.members[1].value.items)
      case Some(joints) => Some(JsonBody(v.members[0].value.s, joints))
      case None => None
    else None
  }

  function OfJson(v: Json.Value): Option<JsonBodyCollection>
  {
    if v.Object? && Json.Names(v.members) == ["bodies"] && v.members[0].value.Array? then
      match Seqs.MapOption(v.members[0].value.items, BodyOfJson)
      case Some(bs) => Some(JsonBodyCollection(bs))
      case None => None
    else None
  }

  /** `Serialize(this Body[] bodies)`: the records, then the library's JSON writer (number text injected as `num`). */
  method Serialize(bodies: array<Body>, num: Single -> string) returns (json: string)
    ensures json == Json.Render(ToJson(JsonBodyCollection(BodyDtos(bodies[..]))), num)
  {
    var dto := SerializeBodies(bodies);
    json := Json.Render(ToJson(dto), num);
  }

  /**
   * Every slot yields a record, in slot order; its `id` and `joints` are exactly
   * those the Kinect v2 server writes for the same body, and it has no hand states.
   */
  lemma SameAsKinect2Json(bs: seq<Body>)
    ensures |BodyDtos(bs)| == |Kinect2JsonSerializer.BodyDtos(bs)| == |bs|
    ensures forall k | 0 <= k < |bs| ::
      var r, full := BodyDtos(bs)[k], Kinect2JsonSerializer.BodyDtos(bs)[k];
      r.id == full.id && r.joints == full.joints
  {
    Seqs.MapAt(bs, BodyDto);
    Seqs.MapAt(bs, Kinect2JsonSerializer.BodyDto);
  }

  /** A body object carries exactly `id` and `joints`, and a reader recovers the record. */
  lemma BodyJsonRoundTrip(b: JsonBody)
    ensures Json.Names(BodyToJson(b).members) == ["id", "joints"]
    ensures BodyOfJson(BodyToJson(b)) == Some(b)
  {
    JointsJsonRoundTrip(b.joints);
  }

  /** A reader of the document recovers every record the serializer built. */
  lemma JsonRoundTrip(c: JsonBodyCollection)
    ensures OfJson(ToJson(c)) == Some(c)
  {
    forall b: JsonBody
      ensures BodyOfJson(BodyToJson(b)) == Some(b)
    {
      BodyJsonRoundTrip(b);
    }
    Seqs.MapOptionInverse(c.bodies, BodyToJson, BodyOfJson);
  }

  // ---------------------------------------------------------------- the text a socket receives

  /** The shape a consumer expects of a body object: `id`, `joints`. */
  const BodyShape: JsonReader.Shape :=
    JsonReader.ObjectShape(["id", "joints"], [JsonReader.StringShape, JsonReader.ArrayShape(JointShape)])

  const DocumentShape: JsonReader.Shape := JsonReader.ObjectShape(["bodies"], [JsonReader.ArrayShape(BodyShape)])

  /** What a consumer makes of a message: the document text read as a value, then its records. */
  function ReadDocument(text: string, numOf: string -> Option<Single>): Option<JsonBodyCollection>
  {
    match JsonReader.Read(DocumentShape, text, numOf)
    case Some(v) => OfJson(v)
    case None => None
  }

  lemma BodyConforms(b: JsonBody)
    ensures JsonReader.Conforms(BodyToJson(b), BodyShape)
  {
    BodyJsonRoundTrip(b);
    JointsConform(b.joints);
  }

  /** Every document the serializer builds has the document shape. */
  lemma DocumentConforms(c: JsonBodyCollection)
    ensures JsonReader.Conforms(ToJson(c), DocumentShape)
  {
    var items := Seqs.Map(c.bodies, BodyToJson);
    Seqs.MapAt(c.bodies, BodyToJson);
    forall i | 0 <= i < |items|
      ensures JsonReader.Conforms(items[i], BodyShape)
    {
      BodyConforms(c.bodies[i]);
    }
  }

  /**
   * The text the serializer writes reads back as the records it was written
   * from, for any number formatter that a number parser inverts.
   */
  lemma TextRoundTrip(c: JsonBodyCollection, num: Single -> string, numOf: string -> Option<Single>)
    requires JsonReader.NumberFormat(num, numOf)
    ensures ReadDocument(Json.Render(ToJson(c), num), numOf) == Some(c)
  {
    DocumentConforms(c);
    JsonReader.ReadRendered(DocumentShape, ToJson(c), num, numOf);
    JsonRoundTrip(c);
  }

  /** Different record collections are written as different texts. */
  lemma TextInjective(c: JsonBodyCollection, d: JsonBodyCollection, num: Single -> string, numOf: string -> Option<Single>)
    requires JsonReader.NumberFormat(num, numOf)
    ensures Json.Render(ToJson(c), num) == Json.Render(ToJson(d), num) ==> c == d
  {
    TextRoundTrip(c, num, numOf);
    TextRoundTrip(d, num, numOf);
  }
}
