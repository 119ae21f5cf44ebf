/**
 * The `JSONJoint` record that both serializers emit for each entry of
 * `body.Joints`: the joint identifier lower-cased, and the position copied.
 */
module JointRecords {
  import opened Wrappers
  import opened Kinect
  import opened Text
  import Json
  import JsonReader
  import Seqs

  /** `JSONJoint`: `name`, `x`, `y`, `z`. */
  datatype JsonJoint = JsonJoint(name: string, x: Single, y: Single, z: Single)

  /** `joint.Key.ToString().ToLower()`. */
  function WireName(j: JointType): string
  {
    ToLower(JointTypeName(j))
  }

  /** The wire names as the consumer matches them. */
  function LowerCaseName(j: JointType): string
  {
    match j
    case SpineBase => "spinebase"
    case SpineMid => "spinemid"
    case Neck => "neck"
    case Head => "head"
    case ShoulderLeft => "shoulderleft"
    case ElbowLeft => "elbowleft"
    case WristLeft => "wristleft"
    case HandLeft => "handleft"
    case ShoulderRight => "shoulderright"
    case ElbowRight => "elbowright"
    case WristRight => "wristright"
    case HandRight => "handright"
    case HipLeft => "hipleft"
    case KneeLeft => "kneeleft"
    case AnkleLeft => "ankleleft"
    case FootLeft => "footleft"
    case HipRight => "hipright"
    case KneeRight => "kneeright"
    case AnkleRight => "ankleright"
    case FootRight => "footright"
    case SpineShoulder => "spineshoulder"
    case HandTipLeft => "handtipleft"
    case ThumbLeft => "thumbleft"
    case HandTipRight => "handtipright"
    case ThumbRight => "thumbright"
  }

  /** The joint a wire name stands for, if any: looked up by first letter and length, then compared. */
  function JointTypeOfName(s: string): Option<JointType>
  {
    if |s| == 0 then None
    else if s[0] == 'a' then
      if |s| == 9 then if s == "ankleleft" then Some(AnkleLeft) else None
      else if |s| == 10 then if s == "ankleright" then Some(AnkleRight) else None
      else None
    else if s[0] == 'e' then
      if |s| == 9 then if s == "elbowleft" then Some(ElbowLeft) else None
      else if |s| == 10 then if s == "elbowright" then Some(ElbowRight) else None
      else None
    else if s[0] == 'f' then
      if |s| == 8 then if s == "footleft" then Some(FootLeft) else None
      else if |s| == 9 then if s == "footright" then Some(FootRight) else None
      else None
    else if s[0] == 'h' then
      if |s| == 4 then if s == "head" then Some(Head) else None
      else if |s| == 7 then if s == "hipleft" then Some(HipLeft) else None
      else if |s| == 8 then if s == "handleft" then Some(HandLeft) else if s == "hipright" then Some(HipRight) else None
      else if |s| == 9 then if s == "handright" then Some(HandRight) else None
      else if |s| == 11 then if s == "handtipleft" then Some(HandTipLeft) else None
      else if |s| == 12 then if s == "handtipright" then Some(HandTipRight) else None
      else None
    else if s[0] == 'k' then
      if |s| == 8 then if s == "kneeleft" then Some(KneeLeft) else None
      else if |s| == 9 then if s == "kneeright" then Some(KneeRight) else None
      else None
    else if s[0] == 'n' then
      if |s| == 4 then if s == "neck" then Some(Neck) else None
      else None
    else if s[0] == 's' then
      if |s| == 8 then if s == "spinemid" then Some(SpineMid) else None
      else if |s| == 9 then if s == "spinebase" then Some(SpineBase) else None
      else if |s| == 12 then if s == "shoulderleft" then Some(ShoulderLeft) else None
      else if |s| == 13 then if s == "shoulderright" then Some(ShoulderRight) else if s == "spineshoulder" then Some(SpineShoulder) else None
      else None
    else if s[0] == 't' then
      if |s| == 9 then if s == "thumbleft" then Some(ThumbLeft) else None
      else if |s| == 10 then if s == "thumbright" then Some(ThumbRight) else None
      else None
    else if s[0] == 'w' then
      if |s| == 9 then if s == "wristleft" then Some(WristLeft) else None
      else if |s| == 10 then if s == "wristright" then Some(WristRight) else None
      else None
    else None
  }

  // The literal facts behind WireNameRoundTrip, a pair of joints at a time to keep each proof small.

  lemma WireNameSpine(j: JointType)
    requires j.SpineBase? || j.SpineMid?
    ensures WireName(j) == LowerCaseName(j) && JointTypeOfName(WireName(j)) == Some(j)
    ensures forall i | 0 <= i < |WireName(j)| :: 'a' <= WireName(j)[i] <= 'z'
  {
    var s, t := JointTypeName(j), LowerCaseName(j);
    forall i | 0 <= i < |s|
      ensures ToLower(s)[i] == t[i]
    {
    }
    assert ToLower(s) == t;
  }

  lemma WireNameNeck(j: JointType)
    requires j.SpineShoulder? || j.Neck?
    ensures WireName(j) == LowerCaseName(j) && JointTypeOfName(WireName(j)) == Some(j)
    ensures forall i | 0 <= i < |WireName(j)| :: 'a' <= WireName(j)[i] <= 'z'
  {
    var s, t := JointTypeName(j), LowerCaseName(j);
    if j.Neck? {
      assert ToLower(s) == t by {
        forall i | 0 <= i < |s|
          ensures ToLower(s)[i] == t[i]
        {
        }
      }
    } else {
      assert ToLower(s) == t by {
        forall i | 0 <= i < |s|
          ensures ToLower(s)[i] == t[i]
        {
        }
      }
    }
  }

  lemma WireNameHead(j: JointType)
    requires j.Head?
    ensures WireName(j) == LowerCaseName(j) && JointTypeOfName(WireName(j)) == Some(j)
    ensures forall i | 0 <= i < |WireName(j)| :: 'a' <= WireName(j)[i] <= 'z'
  {
    var s, t := JointTypeName(j), LowerCaseName(j);
    forall i | 0 <= i < |s|
      ensures ToLower(s)[i] == t[i]
    {
    }
    assert ToLower(s) == t;
  }

  lemma WireNameShoulders(j: JointType)
    requires j.ShoulderLeft? || j.ShoulderRight?
    ensures WireName(j) == LowerCaseName(j) && JointTypeOfName(WireName(j)) == Some(j)
    ensures forall i | 0 <= i < |WireName(j)| :: 'a' <= WireName(j)[i] <= 'z'
  {
    var s, t := JointTypeName(j), LowerCaseName(j);
    forall i | 0 <= i < |s|
      ensures ToLower(s)[i] == t[i]
    {
    }
    assert ToLower(s) == t;
  }

  lemma WireNameElbows(j: JointType)
    requires j.ElbowLeft? || j.ElbowRight?
    ensures WireName(j) == LowerCaseName(j) && JointTypeOfName(WireName(j)) == Some(j)
    ensures forall i | 0 <= i < |WireName(j)| :: 'a' <= WireName(j)[i] <= 'z'
  {
    var s, t := JointTypeName(j), LowerCaseName(j);
    forall i | 0 <= i < |s|
      ensures ToLower(s)[i] == t[i]
    {
    }
    assert ToLower(s) == t;
  }

  lemma WireNameWrists(j: JointType)
    requires j.WristLeft? || j.WristRight?
    ensures WireName(j) == LowerCaseName(j) && JointTypeOfName(WireName(j)) == Some(j)
    ensures forall i | 0 <= i < |WireName(j)| :: 'a' <= WireName(j)[i] <= 'z'
  {
    var s, t := JointTypeName(j), LowerCaseName(j);
    forall i | 0 <= i < |s|
      ensures ToLower(s)[i] == t[i]
    {
    }
    assert ToLower(s) == t;
  }

  lemma WireNameHands(j: JointType)
    requires j.HandLeft? || j.HandRight?
    ensures WireName(j) == LowerCaseName(j) && JointTypeOfName(WireName(j)) == Some(j)
    ensures forall i | 0 <= i < |WireName(j)| :: 'a' <= WireName(j)[i] <= 'z'
  {
    var s, t := JointTypeName(j), LowerCaseName(j);
    forall i | 0 <= i < |s|
      ensures ToLower(s)[i] == t[i]
    {
    }
    assert ToLower(s) == t;
  }

  lemma WireNameHandTips(j: JointType)
    requires j.HandTipLeft? || j.HandTipRight?
    ensures WireName(j) == LowerCaseName(j) && JointTypeOfName(WireName(j)) == Some(j)
    ensures forall i | 0 <= i < |WireName(j)| :: 'a' <= WireName(j)[i] <= 'z'
  {
    var s, t := JointTypeName(j), LowerCaseName(j);
    forall i | 0 <= i < |s|
      ensures ToLower(s)[i] == t[i]
    {
    }
    assert ToLower(s) == t;
  }

  lemma WireNameThumbs(j: JointType)
    requires j.ThumbLeft? || j.ThumbRight?
    ensures WireName(j) == LowerCaseName(j) && JointTypeOfName(WireName(j)) == Some(j)
    ensures forall i | 0 <= i < |WireName(j)| :: 'a' <= WireName(j)[i] <= 'z'
  {
    var s, t := JointTypeName(j), LowerCaseName(j);
    forall i | 0 <= i < |s|
      ensures ToLower(s)[i] == t[i]
    {
    }
    assert ToLower(s) == t;
  }

  lemma WireNameHips(j: JointType)
    requires j.HipLeft? || j.HipRight?
    ensures WireName(j) == LowerCaseName(j) && JointTypeOfName(WireName(j)) == Some(j)
    ensures forall i | 0 <= i < |WireName(j)| :: 'a' <= WireName(j)[i] <= 'z'
  {
    var s, t := JointTypeName(j), LowerCaseName(j);
    forall i | 0 <= i < |s|
      ensures ToLower(s)[i] == t[i]
    {
    }
    assert ToLower(s) == t;
  }

  lemma WireNameKnees(j: JointType)
    requires j.KneeLeft? || j.KneeRight?
    ensures WireName(j) == LowerCaseName(j) && JointTypeOfName(WireName(j)) == Some(j)
    ensures forall i | 0 <= i < |WireName(j)| :: 'a' <= WireName(j)[i] <= 'z'
  {
    var s, t := JointTypeName(j), LowerCaseName(j);
    forall i | 0 <= i < |s|
      ensures ToLower(s)[i] == t[i]
    {
    }
    assert ToLower(s) == t;
  }

  lemma WireNameAnkles(j: JointType)
    requires j.AnkleLeft? || j.AnkleRight?
    ensures WireName(j) == LowerCaseName(j) && JointTypeOfName(WireName(j)) == Some(j)
    ensures forall i | 0 <= i < |WireName(j)| :: 'a' <= WireName(j)[i] <= 'z'
  {
    var s, t := JointTypeName(j), LowerCaseName(j);
    forall i | 0 <= i < |s|
      ensures ToLower(s)[i] == t[i]
    {
    }
    assert ToLower(s) == t;
  }

  lemma WireNameFeet(j: JointType)
    requires j.FootLeft? || j.FootRight?
    ensures WireName(j) == LowerCaseName(j) && JointTypeOfName(WireName(j)) == Some(j)
    ensures forall i | 0 <= i < |WireName(j)| :: 'a' <= WireName(j)[i] <= 'z'
  {
    var s, t := JointTypeName(j), LowerCaseName(j);
    forall i | 0 <= i < |s|
      ensures ToLower(s)[i] == t[i]
    {
    }
    assert ToLower(s) == t;
  }

  /**
   * Lower-casing the identifier gives the consumer's name for the joint, a word of
   * lower-case letters, and that name identifies the joint.
   */
  lemma WireNameRoundTrip(j: JointType)
    ensures WireName(j) == LowerCaseName(j)
    ensures JointTypeOfName(WireName(j)) == Some(j)
    ensures forall i | 0 <= i < |WireName(j)| :: 'a' <= WireName(j)[i] <= 'z'
  {
    match j
    case SpineBase | SpineMid => WireNameSpine(j);
    case SpineShoulder | Neck => WireNameNeck(j);
    case Head => WireNameHead(j);
    case ShoulderLeft | ShoulderRight => WireNameShoulders(j);
    case ElbowLeft | ElbowRight => WireNameElbows(j);
    case WristLeft | WristRight => WireNameWrists(j);
    case HandLeft | HandRight => WireNameHands(j);
    case HandTipLeft | HandTipRight => WireNameHandTips(j);
    case ThumbLeft | ThumbRight => WireNameThumbs(j);
    case HipLeft | HipRight => WireNameHips(j);
    case KneeLeft | KneeRight => WireNameKnees(j);
    case AnkleLeft | AnkleRight => WireNameAnkles(j);
    case FootLeft | FootRight => WireNameFeet(j);
  }

  /** Lower-casing is injective on the joint vocabulary. */
  lemma WireNameInjective(a: JointType, b: JointType)
    ensures WireName(a) == WireName(b) ==> a == b
  {
    WireNameRoundTrip(a);
    WireNameRoundTrip(b);
  }

  /** A wire name is already lower case and needs no JSON escaping. */
  lemma WireNameIsPlain(j: JointType)
    ensures ToLower(WireName(j)) == WireName(j)
    ensures Json.IsPlain(WireName(j))
  {
    WireNameRoundTrip(j);
    ToLowerShape(WireName(j));
  }

  /** The record for one dictionary entry. */
  function JointDto(entry: (JointType, Joint)): JsonJoint
  {
    JsonJoint(WireName(entry.0), entry.1.position.x, entry.1.position.y, entry.1.position.z)
  }

  function JointDtos(entries: seq<(JointType, Joint)>): seq<JsonJoint>
  {
    Seqs.Map(entries, JointDto)
  }

  /** The inner `foreach` of `Serialize`: one `Add` per dictionary entry. */
  method SerializeJoints(entries: seq<(JointType, Joint)>) returns (joints: seq<JsonJoint>)
    ensures joints == JointDtos(entries)
  {
    joints := [];
    for k := 0 to |entries|
      invariant joints == JointDtos(entries[..k])
    {
      Seqs.MapSnoc(entries[..k], entries[k], JointDto);
      assert entries[..k + 1] == entries[..k] + [entries[k]];
      joints := joints + [JointDto(entries[k])];
    }
    assert entries[..|entries|] == entries;
  }

  /**
   * One record per entry, in enumeration order; its name is the key lower-cased
   * and its coordinates are the position's, unchanged.
   */
  lemma JointDtosAt(entries: seq<(JointType, Joint)>)
    ensures |JointDtos(entries)| == |entries|
    ensures forall k | 0 <= k < |entries| ::
      var r, e := JointDtos(entries)[k], entries[k];
      r.name == WireName(e.0) && JointTypeOfName(r.name) == Some(e.0)
      && r.x == e.1.position.x && r.y == e.1.position.y && r.z == e.1.position.z
  {
    Seqs.MapAt(entries, JointDto);
    forall k | 0 <= k < |entries|
      ensures JointTypeOfName(JointDtos(entries)[k].name) == Some(entries[k].0)
    {
      WireNameRoundTrip(entries[k].0);
    }
  }

  /** Bodies with the same key sequence get equally long joint lists with the same names in the same order. */
  lemma SameKeysSameNames(a: seq<(JointType, Joint)>, b: seq<(JointType, Joint)>)
    requires |a| == |b| && forall k | 0 <= k < |a| :: a[k].0 == b[k].0
    ensures |JointDtos(a)| == |JointDtos(b)| == |a|
    ensures forall k | 0 <= k < |a| :: JointDtos(a)[k].name == JointDtos(b)[k].name
  {
    Seqs.MapAt(a, JointDto);
    Seqs.MapAt(b, JointDto);
  }

  /** The JSON object of a joint, members in the serializer's order. */
  function JointToJson(j: JsonJoint): Json.Value
  {
    Json.Object([
      Json.Member("name", Json.String(j.name)),
      Json.Member("x", Json.Number(j.x)),
      Json.Member("y", Json.Number(j.y)),
      Json.Member("z", Json.Number(j.z))])
  }

  /** A reader of a joint object: exactly the four members, in order, of the right kinds. */
  function JointOfJson(v: Json.Value): Option<JsonJoint>
  {
    if v.Object? && Json.Names(v.members) == ["name", "x", "y", "z"]
       && v.members[0].value.String? && v.members[1].value.Number?
       && v.members[2].value.Number? && v.members[3].value.Number?
    then Some(JsonJoint(v.members[0].value.s, v.members[1].value.bits, v.members[2].value.bits, v.members[3].value.bits))
    else None
  }

  function JointsToJson(js: seq<JsonJoint>): seq<Json.Value>
  {
    Seqs.Map(js, JointToJson)
  }

  function JointsOfJson(vs: seq<Json.Value>): Option<seq<JsonJoint>>
  {
    Seqs.MapOption(vs, JointOfJson)
  }

  /** A joint object carries exactly the fields `name`, `x`, `y`, `z`, and a reader recovers the record. */
  lemma JointJsonRoundTrip(j: JsonJoint)
    ensures Json.Names(JointToJson(j).members) == ["name", "x", "y", "z"]
    ensures JointOfJson(JointToJson(j)) == Some(j)
  {
  }

  /** A reader recovers the whole joint list. */
  lemma JointsJsonRoundTrip(js: seq<JsonJoint>)
    ensures JointsOfJson(JointsToJson(js)) == Some(js)
  {
    forall j: JsonJoint
      ensures JointOfJson(JointToJson(j)) == Some(j)
    {
      JointJsonRoundTrip(j);
    }
    Seqs.MapOptionInverse(js, JointToJson, JointOfJson);
  }

  /** The shape a consumer expects of a joint object: a string name, then three numbers. */
  const JointShape: JsonReader.Shape :=
    JsonReader.ObjectShape(["name", "x", "y", "z"],
      [JsonReader.StringShape, JsonReader.NumberShape, JsonReader.NumberShape, JsonReader.NumberShape])

  /** Every joint object the serializer builds has the joint shape. */
  lemma JointsConform(js: seq<JsonJoint>)
    ensures forall i | 0 <= i < |JointsToJson(js)| :: JsonReader.Conforms(JointsToJson(js)[i], JointShape)
  {
    Seqs.MapAt(js, JointToJson);
    forall i | 0 <= i < |js|
      ensures JsonReader.Conforms(JointToJson(js[i]), JointShape)
    {
      JointJsonRoundTrip(js[i]);
    }
  }
}
