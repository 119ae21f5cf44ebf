/**
 * `MainWindow` of KinectinScratchServer: one WebSocket server, the same body-frame
 * latch as Kinect2JSON, and a send loop over the live client registry.
 * This server's own `BodyCollectionSerializer.cs` is not part of this model: its
 * encoder is the parameter `encode`.
 */
module ScratchServerWindow {
  import opened Wrappers
  import opened Kinect
  import opened Broadcast
  import FrameFilter

  const ServerAddress: string := "ws://0.0.0.0:8181"

  class MainWindow {
    const registry: ClientList
    /** `validBodies.Serialize()`. */
    const encode: seq<Body> -> string
    var bodies: array?<Body>
    var validBodies: array?<Body>
    var dataReceived: bool
    var servers: seq<string>

    ghost predicate Valid()
      reads this
    {
      (dataReceived ==> bodies != null)
      && (bodies != null ==> bodies.Length == BodyCount)
      && servers == [ServerAddress]
    }

    /** The constructor's connection part: `InitializeConnection`. */
    constructor(registry: ClientList, encode: seq<Body> -> string)
      ensures Valid()
      ensures this.registry == registry && this.encode == encode
      ensures bodies == null && validBodies == null && !dataReceived
    {
      this.registry := registry;
      this.encode := encode;
      bodies := null;
      validBodies := null;
      dataReceived := false;
      servers := [ServerAddress];
    }

    /** `GetBodyJoints`: allocate on the first body frame, refresh in place, latch `dataReceived`. */
    method GetBodyJoints(bodyFrame: Option<BodyFrame>)
      requires Valid()
      modifies this, bodies
      ensures Valid()
      ensures bodyFrame.None? ==> bodies == old(bodies) && dataReceived == old(dataReceived)
      ensures bodyFrame.None? && bodies != null ==> bodies[..] == old(bodies[..])
      ensures bodyFrame.Some? ==>
        bodies != null && bodies[..] == bodyFrame.value && dataReceived
        && (old(bodies) != null ==> bodies == old(bodies))
        && (old(bodies) == null ==> fresh(bodies))
      ensures validBodies == old(validBodies)
    {
      if bodyFrame.Some? {
        if bodies == null {
          bodies := new Body[BodyCount];
        }
        forall i | 0 <= i < bodies.Length {
          bodies[i] := bodyFrame.value[i];
        }
        dataReceived := true;
      }
    }

    /**
     * `TransmitBodyJoints`: the tracked slots in slot order, encoded, sent to every
     * socket of the live registry, which no handler changes meanwhile.
     */
    method TransmitBodyJoints()
      requires Valid() && bodies != null
      modifies this, registry
      ensures Valid()
      ensures bodies == old(bodies) && validBodies != null
      ensures validBodies[..] == FrameFilter.Filter(bodies[..], IsTracked)
      ensures registry.sent == old(registry.sent) + Deliveries(registry.clients, encode(FrameFilter.Filter(bodies[..], IsTracked)))
      ensures registry.clients == old(registry.clients)
      ensures dataReceived == old(dataReceived)
    {
      var valid := FrameFilter.Compact(bodies, IsTracked);
      validBodies := valid;
      var json := encode(valid[..]);
      registry.BroadcastLive(json);
    }

    /**
     * `Reader_MultiSourceFrameArrived`: a dropped frame returns before reading or
     * sending; otherwise, once any body frame has arrived, the current `bodies`
     * (stale when this frame has none) are sent.
     */
    method ReaderMultiSourceFrameArrived(frame: Option<MultiSourceFrame>)
      requires Valid()
      modifies this, bodies, registry
      ensures Valid()
      ensures registry.clients == old(registry.clients)
      ensures frame.None? ==>
        bodies == old(bodies) && dataReceived == old(dataReceived) && validBodies == old(validBodies)
        && registry.sent == old(registry.sent)
      ensures frame.None? && bodies != null ==> bodies[..] == old(bodies[..])
      ensures frame.Some? ==> dataReceived == (old(dataReceived) || frame.value.bodyFrame.Some?)
      ensures frame.Some? && frame.value.bodyFrame.Some? ==> bodies != null && bodies[..] == frame.value.bodyFrame.value
      ensures frame.Some? && frame.value.bodyFrame.None? && old(bodies) != null ==>
        bodies == old(bodies) && bodies[..] == old(bodies[..])
      ensures frame.Some? && dataReceived ==>
        bodies != null
        && registry.sent == old(registry.sent) + Deliveries(registry.clients, encode(FrameFilter.Filter(bodies[..], IsTracked)))
      ensures !(frame.Some? && dataReceived) ==> registry.sent == old(registry.sent)
    {
      if frame.None? {
        return;
      }
      GetBodyJoints(frame.value.bodyFrame);
      if dataReceived {
        TransmitBodyJoints();
      }
    }
  }
}
