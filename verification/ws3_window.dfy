/**
 * `MainWindow` of WebsocketServer3: one WebSocket server; a body frame is read
 * and sent in the same call, with `dataReceived` a local that starts false on
 * every call, so only a frame that carries a body frame is sent.
 */
module Ws3Window {
  import opened Wrappers
  import opened Kinect
  import opened Broadcast
  import FrameFilter
  import Ws3Serializer
  import Json

  const ServerAddress: string := "ws://0.0.0.0:8181"

  /** The text `TransmitBodyJoints` sends for the slots `bodies`: the tracked ones, serialized. */
  function FrameMessage(bodies: seq<Body>, num: Single -> string): string
  {
    Json.Render(Ws3Serializer.ToJson(Ws3Serializer.JsonBodyCollection(Ws3Serializer.BodyDtos(FrameFilter.Filter(bodies, IsTracked)))), num)
  }

  class MainWindow {
    const registry: ClientList
    const num: Single -> string
    var bodies: array?<Body>
    var validBodies: array?<Body>
    var servers: seq<string>

    ghost predicate Valid()
      reads this
    {
      (bodies != null ==> bodies.Length == BodyCount)
      && servers == [ServerAddress]
    }

    /** The constructor's connection part: `InitializeConnection`. */
    constructor(registry: ClientList, num: Single -> string)
      ensures Valid()
      ensures this.registry == registry && this.num == num
      ensures bodies == null && validBodies == null
    {
      this.registry := registry;
      this.num := num;
      bodies := null;
      validBodies := null;
      servers := [ServerAddress];
    }

    /**
     * `TransmitBodyJoints`: nothing while `bodies` is null; otherwise the tracked
     * slots in slot order, serialized, sent to every socket of the live registry.
     */
    method TransmitBodyJoints()
      requires Valid()
      modifies this, registry
      ensures Valid()
      ensures bodies == old(bodies) && registry.clients == old(registry.clients)
      ensures bodies == null ==> validBodies == old(validBodies) && registry.sent == old(registry.sent)
      ensures bodies != null ==>
        validBodies != null && validBodies[..] == FrameFilter.Filter(bodies[..], IsTracked)
        && registry.sent == old(registry.sent) + Deliveries(registry.clients, FrameMessage(bodies[..], num))
    {
      if bodies != null {
        var valid := FrameFilter.Compact(bodies, IsTracked);
        validBodies := valid;
        var json := Ws3Serializer.Serialize(valid, num);
        assert json == FrameMessage(bodies[..], num);
        registry.BroadcastLive(json);
      }
    }

    /**
     * `ShowBodyJoints(bodyFrame)`: a body frame allocates `bodies` the first time,
     * refreshes it in place and is sent; a call without one sends nothing.
     */
    method ShowBodyJoints(bodyFrame: Option<BodyFrame>)
      requires Valid()
      modifies this, bodies, registry
      ensures Valid()
      ensures registry.clients == old(registry.clients)
      ensures bodyFrame.None? ==>
        bodies == old(bodies) && validBodies == old(validBodies) && registry.sent == old(registry.sent)
      ensures bodyFrame.None? && bodies != null ==> bodies[..] == old(bodies[..])
      ensures bodyFrame.Some? ==>
        bodies != null && bodies[..] == bodyFrame.value
        && (old(bodies) != null ==> bodies == old(bodies))
        && registry.sent == old(registry.sent) + Deliveries(registry.clients, FrameMessage(bodyFrame.value, num))
    {
      var dataReceived := false;
      if bodyFrame.Some? {
        if bodies == null {
          bodies := new Body[BodyCount];
        }
        forall i | 0 <= i < bodies.Length {
          bodies[i] := bodyFrame.value[i];
        }
        dataReceived := true;
      }
      if dataReceived {
        TransmitBodyJoints();
      }
    }

    /** `Reader_MultiSourceFrameArrived`: a dropped frame returns with nothing read or sent. */
    method ReaderMultiSourceFrameArrived(frame: Option<MultiSourceFrame>)
      requires Valid()
      modifies this, bodies, registry
      ensures Valid()
      ensures registry.clients == old(registry.clients)
      ensures frame.None? || frame.value.bodyFrame.None? ==>
        bodies == old(bodies) && validBodies == old(validBodies) && registry.sent == old(registry.sent)
      ensures (frame.None? || frame.value.bodyFrame.None?) && bodies != null ==> bodies[..] == old(bodies[..])
      ensures frame.Some? && frame.value.bodyFrame.Some? ==>
        bodies != null && bodies[..] == frame.value.bodyFrame.value
        && registry.sent == old(registry.sent) + Deliveries(registry.clients, FrameMessage(frame.value.bodyFrame.value, num))
    {
      if frame.None? {
        return;
      }
      ShowBodyJoints(frame.value.bodyFrame);
    }
  }
}
