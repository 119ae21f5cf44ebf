/**
 * The value types of the Kinect v2 SDK as the body-transmission pipeline sees them.
 * SDK calls (frame acquisition, body refresh) are not modelled: their results
 * reach the pipeline as values of these types.
 */
module Kinect {
  import opened Wrappers

  /** A 32-bit IEEE-754 coordinate kept as its bit pattern: the pipeline copies it, never computes with it. */
  type Single = bv32

  /** C#'s `ulong`, the type of `Body.TrackingId`. */
  type UInt64 = n: nat | n < 0x1_0000_0000_0000_0000

  /** A point in camera space (metres), as `CameraSpacePoint`. */
  datatype CameraSpacePoint = CameraSpacePoint(x: Single, y: Single, z: Single)

  datatype TrackingState = NotTracked | Inferred | Tracked

  /** `Joint` without its redundant `JointType` (the dictionary key carries it). */
  datatype Joint = Joint(position: CameraSpacePoint, trackingState: TrackingState)

  /** `JointType`, in the SDK's declaration order: SpineBase is 0, ThumbRight is 24. */
  datatype JointType =
    | SpineBase | SpineMid | Neck | Head
    | ShoulderLeft | ElbowLeft | WristLeft | HandLeft
    | ShoulderRight | ElbowRight | WristRight | HandRight
    | HipLeft | KneeLeft | AnkleLeft | FootLeft
    | HipRight | KneeRight | AnkleRight | FootRight
    | SpineShoulder | HandTipLeft | ThumbLeft | HandTipRight | ThumbRight

  /** `HandState`; its integer values are fixed by `Ordinal` below. */
  datatype HandState = Unknown | NotTracked | Open | Closed | Lasso

  /**
   * One slot of a body frame (`Body`). `joints` is the `Joints` dictionary as its
   * enumeration yields it: key/value pairs in enumeration order.
   */
  datatype Body = Body(
    isTracked: bool,
    trackingId: UInt64,
    handLeftState: HandState,
    handRightState: HandState,
    joints: seq<(JointType, Joint)>)

  /** `BodyFrameSource.BodyCount`: the sensor reports six body slots per frame. */
  const BodyCount: nat := 6

  /** The slots a body frame refreshes an array with: always `BodyCount` of them. */
  type BodyFrame = s: seq<Body> | |s| == BodyCount
    witness seq(BodyCount, _ => Body(false, 0, Unknown, Unknown, []))

  /** One multi-source frame; its colour or infrared part is not modelled, its body frame may be missing. */
  datatype MultiSourceFrame = MultiSourceFrame(bodyFrame: Option<BodyFrame>)

  /** The tracked test of the frame filter. */
  predicate IsTracked(b: Body) { b.isTracked }

  /** `JointType.ToString()`: the enumerator's identifier. */
  function JointTypeName(j: JointType): string
  {
    match j
    case SpineBase => "SpineBase"
    case SpineMid => "SpineMid"
    case Neck => "Neck"
    case Head => "Head"
    case ShoulderLeft => "ShoulderLeft"
    case ElbowLeft => "ElbowLeft"
    case WristLeft => "WristLeft"
    case HandLeft => "HandLeft"
    case ShoulderRight => "ShoulderRight"
    case ElbowRight => "ElbowRight"
    case WristRight => "WristRight"
    case HandRight => "HandRight"
    case HipLeft => "HipLeft"
    case KneeLeft => "KneeLeft"
    case AnkleLeft => "AnkleLeft"
    case FootLeft => "FootLeft"
    case HipRight => "HipRight"
    case KneeRight => "KneeRight"
    case AnkleRight => "AnkleRight"
    case FootRight => "FootRight"
    case SpineShoulder => "SpineShoulder"
    case HandTipLeft => "HandTipLeft"
    case ThumbLeft => "ThumbLeft"
    case HandTipRight => "HandTipRight"
    case ThumbRight => "ThumbRight"
  }

  /** `(int)state`: the hand-state ordinal sent as `lhandstate`/`rhandstate`. */
  function Ordinal(h: HandState): (n: int)
    ensures 0 <= n <= 4
  {
    match h
    case Unknown => 0
    case NotTracked => 1
    case Open => 2
    case Closed => 3
    case Lasso => 4
  }

  /** The consumer's reading of a hand-state ordinal. */
  function HandStateOf(n: int): Option<HandState>
  {
    if n == 0 then Some(Unknown)
    else if n == 1 then Some(HandState.NotTracked)
    else if n == 2 then Some(Open)
    else if n == 3 then Some(Closed)
    else if n == 4 then Some(Lasso)
    else None
  }

  /** Decoding an ordinal by index recovers the state, for each of the five states. */
  lemma OrdinalRoundTrip(h: HandState)
    ensures HandStateOf(Ordinal(h)) == Some(h)
  {
  }

  /** Every integer in 0..4 is the ordinal of exactly the state it decodes to, and nothing else decodes. */
  lemma OrdinalOnto(n: int)
    ensures HandStateOf(n).Some? <==> 0 <= n <= 4
    ensures HandStateOf(n).Some? ==> Ordinal(HandStateOf(n).value) == n
  {
  }

  /** Distinct hand states get distinct integers. */
  lemma OrdinalInjective(a: HandState, b: HandState)
    ensures Ordinal(a) == Ordinal(b) ==> a == b
  {
    OrdinalRoundTrip(a);
    OrdinalRoundTrip(b);
  }
}
