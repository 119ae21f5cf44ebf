/**
 * `MainWindow` of the Kinect2JSON server: a local and (once the window is first
 * activated) a public WebSocket server share one client registry; every body
 * frame refreshes `bodies`, and from the first body frame on every multi-source
 * frame sends the tracked bodies, as the Kinect2JSON document, to a copy of the registry.
 */
module Kinect2JsonWindow {
  import opened Wrappers
  import opened Kinect
  import opened Broadcast
  import FrameFilter
  import Kinect2JsonSerializer
  import Json
  import PublicIp
  import Seqs

  const LocalAddress: string := "ws://127.0.0.1:8181"

  /** The public server's address for a looked-up IP. */
  function PublicAddress(ip: string): string
  {
    "ws://" + ip + ":8181"
  }

  /** The text `TransmitBodyJoints` sends for the slots `bodies`: the tracked ones, serialized. */
  function FrameMessage(bodies: seq<Body>, num: Single -> string): string
  {
    Json.Render(Kinect2JsonSerializer.ToJson(FrameDocument(bodies)), num)
  }

  function FrameDocument(bodies: seq<Body>): Kinect2JsonSerializer.JsonBodyCollection
  {
    Kinect2JsonSerializer.JsonBodyCollection(Kinect2JsonSerializer.BodyDtos(FrameFilter.Filter(bodies, IsTracked)))
  }

  /**
   * The document holds one record per tracked slot and none for an untracked one,
   * in slot order: the k-th record is that of the slot at the k-th tracked index.
   */
  lemma FrameDocumentRecords(bodies: seq<Body>)
    ensures var recs, idx := FrameDocument(bodies).bodies, FrameFilter.KeptIndices(bodies, IsTracked);
      |recs| == |idx| == FrameFilter.KeptCount(bodies, IsTracked)
      && (forall k | 0 <= k < |idx| :: idx[k] < |bodies| && bodies[idx[k]].isTracked
            && recs[k] == Kinect2JsonSerializer.BodyDto(bodies[idx[k]]))
      && (forall i | 0 <= i < |bodies| :: bodies[i].isTracked <==> i in idx)
  {
    var kept := FrameFilter.Filter(bodies, IsTracked);
    FrameFilter.FilterIsKeptSubsequence(bodies, IsTracked);
    FrameFilter.FilterLength(bodies, IsTracked);
    Kinect2JsonSerializer.BodyDtosAt(kept);
    Seqs.MapAt(kept, Kinect2JsonSerializer.BodyDto);
  }

  /** With no tracked slot the message is still sent, and it is `{"bodies":[]}`. */
  lemma NoTrackedBodies(bodies: seq<Body>, num: Single -> string)
    requires forall i | 0 <= i < |bodies| :: !bodies[i].isTracked
    ensures FrameMessage(bodies, num) == "{\"bodies\":[]}"
  {
    FrameFilter.FilterLength(bodies, IsTracked);
    Kinect2JsonSerializer.EmptyDocument(num);
  }

  class MainWindow {
    /** The static `_clients` list, shared by both servers. */
    const registry: ClientList
    /** How the JSON writer spells a coordinate. */
    const num: Single -> string
    var bodies: array?<Body>
    var validBodies: array?<Body>
    var dataReceived: bool
    var publicStarted: bool
    var publicConnectionStatusText: string
    /** The addresses of the WebSocket servers started so far. */
    var servers: seq<string>

    /**
     * `bodies` exists once a body frame has arrived and always has `BodyCount`
     * slots; the local server comes first, and a public one is started at most once.
     */
    ghost predicate Valid()
      reads this
    {
      (dataReceived ==> bodies != null)
      && (bodies != null ==> bodies.Length == BodyCount)
      && 1 <= |servers| <= 2 && servers[0] == LocalAddress
      && (|servers| == 2 ==> publicStarted)
    }

    /** The constructor's connection part: `InitializeLocalConnection`. */
    constructor(registry: ClientList, num: Single -> string)
      ensures Valid()
      ensures this.registry == registry && this.num == num
      ensures bodies == null && validBodies == null && !dataReceived
      ensures !publicStarted && publicConnectionStatusText == "hello!"
      ensures servers == [LocalAddress]
    {
      this.registry := registry;
      this.num := num;
      bodies := null;
      validBodies := null;
      dataReceived := false;
      publicStarted := false;
      publicConnectionStatusText := "hello!";
      servers := [LocalAddress];
    }

    /**
     * `GetBodyJoints`: a body frame allocates `bodies` the first time and refreshes
     * it in place (`GetAndRefreshBodyData`), and sets the `dataReceived` latch; a
     * missing body frame changes nothing.
     */
    method GetBodyJoints(bodyFrame: Option<BodyFrame>)
      requires Valid()
      modifies this, bodies
      ensures Valid()
      ensures bodyFrame.None? ==> bodies == old(bodies) && dataReceived == old(dataReceived)
      ensures bodyFrame.None? && bodies != null ==> bodies[..] == old(bodies[..])
      ensures bodyFrame.Some? ==>
        bodies != null && bodies[..] == bodyFrame.value && dataReceived
        && (old(bodies) != null ==> bodies == old(bodies))
        && (old(bodies) == null ==> fresh(bodies))
      ensures validBodies == old(validBodies) && publicStarted == old(publicStarted)
      ensures servers == old(servers) && publicConnectionStatusText == old(publicConnectionStatusText)
    {
      if bodyFrame.Some? {
        if bodies == null {
          bodies := new Body[BodyCount];
        }
        forall i | 0 <= i < bodies.Length {
          bodies[i] := bodyFrame.value[i];
        }
        dataReceived := true;
      }
    }

    /**
     * `TransmitBodyJoints`: `validBodies` becomes the tracked slots in slot order,
     * they are serialized, and the text goes to every socket registered when the
     * registry is copied; `during` are the handlers that run while the copy is sent to.
     */
    method TransmitBodyJoints(during: seq<RegistryEvent>)
      requires Valid() && bodies != null
      modifies this, registry
      ensures Valid()
      ensures bodies == old(bodies) && validBodies != null
      ensures validBodies[..] == FrameFilter.Filter(bodies[..], IsTracked)
      ensures registry.sent == old(registry.sent) + Deliveries(old(registry.clients), FrameMessage(bodies[..], num))
      ensures registry.clients == ApplyAll(old(registry.clients), during)
      ensures bodies == old(bodies) && dataReceived == old(dataReceived) && publicStarted == old(publicStarted)
      ensures servers == old(servers) && publicConnectionStatusText == old(publicConnectionStatusText)
    {
      var valid := FrameFilter.Compact(bodies, IsTracked);
      validBodies := valid;
      var json := Kinect2JsonSerializer.Serialize(valid, num);
      assert json == FrameMessage(bodies[..], num);
      registry.BroadcastSnapshot(json, during);
    }

    /**
     * `Reader_MultiSourceFrameArrived`: a dropped frame returns at once; otherwise the
     * body frame, if any, is read, and once any body frame has ever arrived the
     * current `bodies` (stale when this frame has none) are sent.
     */
    method ReaderMultiSourceFrameArrived(frame: Option<MultiSourceFrame>, during: seq<RegistryEvent>)
      requires Valid()
      modifies this, bodies, registry
      ensures Valid()
      ensures frame.None? ==>
        bodies == old(bodies) && dataReceived == old(dataReceived) && validBodies == old(validBodies)
        && registry.sent == old(registry.sent) && registry.clients == old(registry.clients)
      ensures frame.None? && bodies != null ==> bodies[..] == old(bodies[..])
      ensures frame.Some? ==> dataReceived == (old(dataReceived) || frame.value.bodyFrame.Some?)
      ensures frame.Some? && frame.value.bodyFrame.Some? ==> bodies != null && bodies[..] == frame.value.bodyFrame.value
      ensures frame.Some? && frame.value.bodyFrame.None? && old(bodies) != null ==>
        bodies == old(bodies) && bodies[..] == old(bodies[..])
      ensures frame.Some? && dataReceived ==>
        bodies != null
        && registry.sent == old(registry.sent) + Deliveries(old(registry.clients), FrameMessage(bodies[..], num))
        && registry.clients == ApplyAll(old(registry.clients), during)
      ensures !(frame.Some? && dataReceived) ==>
        registry.sent == old(registry.sent) && registry.clients == old(registry.clients)
      ensures publicStarted == old(publicStarted) && servers == old(servers)
      ensures publicConnectionStatusText == old(publicConnectionStatusText)
    {
      if frame.None? {
        return;
      }
      GetBodyJoints(frame.value.bodyFrame);
      if dataReceived {
        TransmitBodyJoints(during);
      }
    }

    /**
     * `InitializePublicConnection`, given how its `GetPublicIP()` call ends
     * (`PublicIp.GetPublicIp`): an address starts the public server, a failed
     * request is caught and reported, and a parse failure escapes as an
     * exception (`escaped`).
     */
    method InitializePublicConnection(lookup: PublicIp.Lookup) returns (escaped: bool)
      requires Valid() && !publicStarted
      modifies this
      ensures escaped <==> lookup.ParseFailure?
      ensures lookup.Address? ==>
        servers == old(servers) + [PublicAddress(lookup.ip)]
        && publicConnectionStatusText == "Public Connection Started"
      ensures lookup.WebFailure? ==>
        servers == old(servers) && publicConnectionStatusText == "Public Connection Failed"
      ensures escaped ==> servers == old(servers) && publicConnectionStatusText == old(publicConnectionStatusText)
      ensures publicStarted == old(publicStarted) && bodies == old(bodies) && dataReceived == old(dataReceived)
      ensures validBodies == old(validBodies)
    {
      escaped := false;
      match lookup
      case Address(ip) =>
        servers := servers + [PublicAddress(ip)];
        publicConnectionStatusText := "Public Connection Started";
      case WebFailure =>
        publicConnectionStatusText := "Public Connection Failed";
      case ParseFailure =>
        escaped := true;
    }

    /**
     * `MainWindow_Activated`: the first activation that gets through
     * `InitializePublicConnection` sets `publicStarted`, after which activation does
     * nothing; an escaping exception leaves the flag unset. Valid() keeps the public
     * server count at most one.
     */
    method Activated(lookup: PublicIp.Lookup) returns (escaped: bool)
      requires Valid()
      modifies this
      ensures Valid()
      ensures old(publicStarted) ==>
        !escaped && publicStarted && servers == old(servers)
        && publicConnectionStatusText == old(publicConnectionStatusText)
      ensures !old(publicStarted) ==>
        (escaped <==> lookup.ParseFailure?) && publicStarted == !escaped
        && servers == old(servers) + (if lookup.Address? then [PublicAddress(lookup.ip)] else [])
      ensures bodies == old(bodies) && dataReceived == old(dataReceived) && validBodies == old(validBodies)
    {
      escaped := false;
      if !publicStarted {
        escaped := InitializePublicConnection(lookup);
        if !escaped {
          publicStarted := true;
        }
      }
    }
  }
}
