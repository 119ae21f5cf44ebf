/**
 * `MainWindow` of v1Kinect2JSON (Kinect SDK 1.x): the first connected sensor is
 * started; a local server only when a sensor is there, a public one on first
 * activation; every skeleton frame replaces `bodies` with a fresh array, and from
 * the first one on every skeleton event sends the tracked skeletons to a copy of
 * the registry. The skeleton serializer (`Skeleton[].Serialize`) is not part of
 * this model: it is the parameter `encode`.
 */
module V1Window {
  import opened Wrappers
  import opened Broadcast
  import FrameFilter
  import PublicIp

  datatype SkeletonTrackingState = NotTracked | PositionOnly | Tracked

  /** The part of an SDK 1.x skeleton the server itself reads. */
  datatype Skeleton = Skeleton(trackingState: SkeletonTrackingState, trackingId: int)

  /** The filter of `TransmitBodyJoints`: only `Tracked`, not `PositionOnly`. */
  predicate IsSkeletonTracked(s: Skeleton)
  {
    s.trackingState == Tracked
  }

  datatype KinectStatus =
    | Undefined | Disconnected | Connected | Initializing | Error
    | NotPowered | NotReady | DeviceNotGenuine | DeviceNotSupported | InsufficientBandwidth

  const LocalAddress: string := "ws://127.0.0.1:8181"

  /** The sensor status shown until a connected sensor is found. */
  const NotReadyText: string := "Kinect not ready. Please connect the Kinect and relaunch."

  function PublicAddress(ip: string): string
  {
    "ws://" + ip + ":8181"
  }

  /**
   * The position of the first connected sensor among `KinectSensor.KinectSensors`,
   * if any: that sensor is connected and none before it is, and there is none
   * only when no sensor is connected.
   */
  function FirstConnected(statuses: seq<KinectStatus>): (r: Option<nat>)
    ensures r.None? <==> Connected !in statuses
    ensures r.Some? ==>
              && r.value < |statuses|
              && statuses[r.value] == Connected
              && Connected !in statuses[..r.value]
  {
    if statuses == [] then None
    else if statuses[0] == Connected then Some(0)
    else
      var tail := statuses[1..];
      assert statuses == [statuses[0]] + tail;
      match FirstConnected(tail)
      case None => None
      case Some(i) =>
        assert statuses[..i + 1] == [statuses[0]] + tail[..i];
        Some(i + 1)
  }

  class MainWindow {
    const registry: ClientList
    /** `validBodies.Serialize()`. */
    const encode: seq<Skeleton> -> string
    /** Which entry of `KinectSensor.KinectSensors` is in use; None for no sensor. */
    var kinectSensor: Option<nat>
    var kinectStatusText: string
    var bodies: array?<Skeleton>
    var validBodies: array?<Skeleton>
    var dataReceived: bool
    var publicStarted: bool
    var publicConnectionStatusText: string
    var servers: seq<string>

    ghost predicate Valid()
      reads this
    {
      (dataReceived ==> bodies != null)
    }

    /**
     * `InitializeKinect`: the first sensor whose status is `Connected` is taken and
     * started; a start that throws sets the sensor back to none.
     */
    method InitializeKinect(statuses: seq<KinectStatus>, startThrows: bool)
      modifies this
      ensures kinectSensor == (if startThrows then None else FirstConnected(statuses))
      ensures FirstConnected(statuses).Some? ==> kinectStatusText == "Connected"
      ensures FirstConnected(statuses).None? ==> kinectStatusText == old(kinectStatusText)
      ensures bodies == old(bodies) && validBodies == old(validBodies) && dataReceived == old(dataReceived)
      ensures publicStarted == old(publicStarted) && servers == old(servers)
      ensures publicConnectionStatusText == old(publicConnectionStatusText)
    {
      kinectSensor := None;
      var k := 0;
      while k < |statuses| && statuses[k] != Connected
        invariant 0 <= k <= |statuses|
        invariant Connected !in statuses[..k]
      {
        assert statuses[..k + 1] == statuses[..k] + [statuses[k]];
        k := k + 1;
      }
      if k < |statuses| {
        FirstConnectedUnique(statuses, k);
        kinectSensor := Some(k);
      } else {
        assert statuses[..k] == statuses;
      }
      if kinectSensor.Some? {
        kinectStatusText := "Connected";
        if startThrows {
          kinectSensor := None;
        }
      }
    }

    /** The constructor: the sensor first, then the local server only when a sensor is in use. */
    constructor(registry: ClientList, encode: seq<Skeleton> -> string, statuses: seq<KinectStatus>, startThrows: bool)
      ensures Valid()
      ensures this.registry == registry && this.encode == encode
      ensures kinectSensor == (if startThrows then None else FirstConnected(statuses))
      ensures servers == (if kinectSensor.Some? then [LocalAddress] else [])
      ensures bodies == null && validBodies == null && !dataReceived && !publicStarted
      ensures publicConnectionStatusText == "hello!"
      ensures kinectStatusText == (if FirstConnected(statuses).Some? then "Connected" else NotReadyText)
    {
      this.registry := registry;
      this.encode := encode;
      kinectSensor := None;
      kinectStatusText := NotReadyText;
      bodies := null;
      validBodies := null;
      dataReceived := false;
      publicStarted := false;
      publicConnectionStatusText := "hello!";
      servers := [];
      new;
      InitializeKinect(statuses, startThrows);
      if kinectSensor.Some? {
        servers := [LocalAddress];
      }
    }

    /**
     * `TransmitBodyJoints`: `validBodies` becomes the tracked skeletons in slot
     * order, they are encoded, and the text goes to every socket registered when
     * the registry is copied; `during` are the handlers that run meanwhile.
     */
    method TransmitBodyJoints(during: seq<RegistryEvent>)
      requires Valid() && bodies != null
      modifies this, registry
      ensures Valid()
      ensures bodies == old(bodies) && validBodies != null
      ensures validBodies[..] == FrameFilter.Filter(bodies[..], IsSkeletonTracked)
      ensures registry.sent == old(registry.sent) + Deliveries(old(registry.clients), encode(FrameFilter.Filter(bodies[..], IsSkeletonTracked)))
      ensures registry.clients == ApplyAll(old(registry.clients), during)
      ensures dataReceived == old(dataReceived) && kinectSensor == old(kinectSensor)
      ensures publicStarted == old(publicStarted) && servers == old(servers)
      ensures publicConnectionStatusText == old(publicConnectionStatusText)
    {
      var valid := FrameFilter.Compact(bodies, IsSkeletonTracked);
      validBodies := valid;
      var json := encode(valid[..]);
      registry.BroadcastSnapshot(json, during);
    }

    /**
     * `SensorSkeletonFrameReady`: a skeleton frame is copied into a new array; once
     * any frame has arrived, every event sends the current `bodies` (stale when
     * this event had no frame).
     */
    method SensorSkeletonFrameReady(frame: Option<seq<Skeleton>>, during: seq<RegistryEvent>)
      requires Valid()
      modifies this, registry
      ensures Valid()
      ensures dataReceived == (old(dataReceived) || frame.Some?)
      ensures frame.Some? ==> bodies != null && fresh(bodies) && bodies[..] == frame.value
      ensures frame.None? ==> bodies == old(bodies)
      ensures frame.None? && !dataReceived ==> validBodies == old(validBodies)
      ensures dataReceived ==>
        bodies != null
        && registry.sent == old(registry.sent) + Deliveries(old(registry.clients), encode(FrameFilter.Filter(bodies[..], IsSkeletonTracked)))
        && registry.clients == ApplyAll(old(registry.clients), during)
      ensures !dataReceived ==> registry.sent == old(registry.sent) && registry.clients == old(registry.clients)
      ensures kinectSensor == old(kinectSensor) && publicStarted == old(publicStarted) && servers == old(servers)
      ensures publicConnectionStatusText == old(publicConnectionStatusText)
    {
      if frame.Some? {
        var copy := new Skeleton[|frame.value|];
        forall i | 0 <= i < copy.Length {
          copy[i] := frame.value[i];
        }
        bodies := copy;
        dataReceived := true;
      }
      if dataReceived {
        TransmitBodyJoints(during);
      }
    }

    /**
     * `InitializePublicConnection`, given how its two `GetPublicIP()` calls end
     * (`PublicIp.GetPublicIp`): the first names the server, the second the status
     * text. A failed request is caught and reported, even after the server
     * started; a parse failure escapes as an exception (`escaped`).
     */
    method InitializePublicConnection(first: PublicIp.Lookup, second: PublicIp.Lookup) returns (escaped: bool)
      modifies this
      ensures first.Address? ==> servers == old(servers) + [PublicAddress(first.ip)]
      ensures !first.Address? ==> servers == old(servers)
      ensures escaped <==> first.ParseFailure? || (first.Address? && second.ParseFailure?)
      ensures first.Address? && second.Address? ==>
        publicConnectionStatusText == "Public Connection Started at " + second.ip
      ensures first.WebFailure? || (first.Address? && second.WebFailure?) ==>
        publicConnectionStatusText == "Public Connection Failed"
      ensures escaped ==> publicConnectionStatusText == old(publicConnectionStatusText)
      ensures publicStarted == old(publicStarted) && kinectSensor == old(kinectSensor)
      ensures bodies == old(bodies) && validBodies == old(validBodies) && dataReceived == old(dataReceived)
    {
      escaped := false;
      match first
      case WebFailure =>
        publicConnectionStatusText := "Public Connection Failed";
      case ParseFailure =>
        escaped := true;
      case Address(ip) =>
        servers := servers + [PublicAddress(ip)];
        match second
        case Address(ip2) =>
          publicConnectionStatusText := "Public Connection Started at " + ip2;
        case WebFailure =>
          publicConnectionStatusText := "Public Connection Failed";
        case ParseFailure =>
          escaped := true;
    }

    /**
     * `MainWindow_Activated`: until some activation gets through
     * `InitializePublicConnection`, each one runs it; after that, activation does
     * nothing. A second lookup that escapes leaves a started server behind with
     * `publicStarted` unset, so the next activation starts another one.
     */
    method Activated(first: PublicIp.Lookup, second: PublicIp.Lookup) returns (escaped: bool)
      requires Valid()
      modifies this
      ensures Valid()
      ensures old(publicStarted) ==>
        !escaped && publicStarted && servers == old(servers)
        && publicConnectionStatusText == old(publicConnectionStatusText)
      ensures !old(publicStarted) ==>
        publicStarted == !escaped
        && servers == old(servers) + (if first.Address? then [PublicAddress(first.ip)] else [])
      ensures !old(publicStarted) && first.Address? && second.ParseFailure? ==>
        escaped && !publicStarted && |servers| == |old(servers)| + 1
      ensures kinectSensor == old(kinectSensor) && bodies == old(bodies) && dataReceived == old(dataReceived)
      ensures validBodies == old(validBodies)
    {
      escaped := false;
      if !publicStarted {
        escaped := InitializePublicConnection(first, second);
        if !escaped {
          publicStarted := true;
        }
      }
    }
  }

  /** A connected sensor with none connected before it is the one FirstConnected finds. */
  lemma FirstConnectedUnique(statuses: seq<KinectStatus>, k: nat)
    requires k < |statuses| && statuses[k] == Connected && Connected !in statuses[..k]
    ensures FirstConnected(statuses) == Some(k)
  {
    var i := FirstConnected(statuses).value;
    assert forall j | 0 <= j < k :: statuses[j] == statuses[..k][j];
    assert forall j | 0 <= j < i :: statuses[j] == statuses[..i][j];
  }
}
