/**
 * The static `_clients` list that every server's `OnOpen`/`OnClose` handlers
 * edit, and the send loops of `TransmitBodyJoints`. A socket is a connection
 * identity; `Send` appends to a log of deliveries instead of writing to the network.
 */
module Broadcast {
  import Seqs

  /** A connection's identity (`IWebSocketConnection`). */
  type Socket = nat

  /** One `socket.Send(message)`. */
  datatype Delivery = Delivery(socket: Socket, message: string)

  /** A handler that edits the registry: `OnOpen` or `OnClose` of some socket. */
  datatype RegistryEvent = Opened(socket: Socket) | Closed(socket: Socket)

  /**
   * `List.Remove`: drops the first occurrence of `x`, if any. Closing a socket
   * that is not registered leaves the registry unchanged; closing a registered
   * one cuts out exactly its first entry and keeps every other entry, in order.
   */
  function RemoveFirst(s: seq<Socket>, x: Socket): (r: seq<Socket>)
    ensures x !in s ==> r == s
    ensures x in s ==> r == s[..FirstIndex(s, x)] + s[FirstIndex(s, x) + 1..]
    decreases |s|
  {
    if s == [] then []
    else if s[0] == x then
      assert s[..0] + s[1..] == s[1..];
      s[1..]
    else
      RemoveFirstStep(s, x, RemoveFirst(s[1..], x));
      [s[0]] + RemoveFirst(s[1..], x)
  }

  /** The step of `RemoveFirst` past an entry that is not `x`, for any result `u` of the tail. */
  lemma RemoveFirstStep(s: seq<Socket>, x: Socket, u: seq<Socket>)
    requires s != [] && s[0] != x
    requires x !in s[1..] ==> u == s[1..]
    requires x in s[1..] ==> u == s[1..][..FirstIndex(s[1..], x)] + s[1..][FirstIndex(s[1..], x) + 1..]
    ensures x !in s ==> [s[0]] + u == s
    ensures x in s ==> [s[0]] + u == s[..FirstIndex(s, x)] + s[FirstIndex(s, x) + 1..]
  {
    var t := s[1..];
    assert s == [s[0]] + t;
    if x in s {
      assert x in t;
      var i, j := FirstIndex(s, x), FirstIndex(t, x);
      assert i == j + 1;
      assert u == t[..j] + t[j + 1..];
      assert [s[0]] + t[..j] == s[..i];
      assert t[j + 1..] == s[i + 1..];
      Assoc([s[0]], t[..j], t[j + 1..]);
    }
  }

  lemma Assoc(a: seq<Socket>, b: seq<Socket>, c: seq<Socket>)
    ensures a + (b + c) == (a + b) + c
  {
  }

  /** The index of the first occurrence of `x`, or `|s|`. */
  function FirstIndex(s: seq<Socket>, x: Socket): (i: nat)
    ensures i <= |s| && (i < |s| ==> s[i] == x)
    ensures forall k | 0 <= k < i :: s[k] != x
    decreases |s|
  {
    if s == [] then 0 else if s[0] == x then 0 else 1 + FirstIndex(s[1..], x)
  }

  /** As multisets, closing takes away one entry of the socket, if it had one, and no other entry. */
  lemma RemoveFirstMultiset(s: seq<Socket>, x: Socket)
    ensures multiset(RemoveFirst(s, x)) == multiset(s) - multiset{x}
  {
    if x in s {
      var i := FirstIndex(s, x);
      var before, after := s[..i], s[i + 1..];
      assert s == before + [x] + after;
      assert multiset(s) == multiset(before) + multiset{x} + multiset(after);
      assert multiset(RemoveFirst(s, x)) == multiset(before) + multiset(after);
      assert multiset(s) - multiset{x} == multiset(before) + multiset(after);
    } else {
      assert x !in multiset(s);
      assert multiset(s) - multiset{x} == multiset(s);
    }
  }

  /** A socket that opens and then closes, with nothing in between, leaves the registry as it was. */
  lemma OpenThenClose(s: seq<Socket>, x: Socket)
    requires x !in s
    ensures RemoveFirst(s + [x], x) == s
  {
    var i := FirstIndex(s + [x], x);
    assert i == |s| by {
      assert (s + [x])[|s|] == x;
      assert forall k | 0 <= k < |s| :: (s + [x])[k] == s[k];
    }
    assert (s + [x])[..|s|] == s;
  }

  /** The registry after one handler runs. */
  function Apply(clients: seq<Socket>, e: RegistryEvent): seq<Socket>
  {
    match e
    case Opened(x) => clients + [x]
    case Closed(x) => RemoveFirst(clients, x)
  }

  /** The registry after a series of handlers, in order. */
  function ApplyAll(clients: seq<Socket>, es: seq<RegistryEvent>): seq<Socket>
    decreases |es|
  {
    if es == [] then clients else ApplyAll(Apply(clients, es[0]), es[1..])
  }

  lemma {:induction false} ApplyAllSnoc(clients: seq<Socket>, es: seq<RegistryEvent>, e: RegistryEvent)
    ensures ApplyAll(clients, es + [e]) == Apply(ApplyAll(clients, es), e)
    decreases |es|
  {
    if es == [] {
      assert [e][1..] == [];
    } else {
      assert (es + [e])[1..] == es[1..] + [e];
      ApplyAllSnoc(Apply(clients, es[0]), es[1..], e);
    }
  }

  /** One more handler of a series, as the send loop runs them. */
  lemma ApplyAllStep(clients: seq<Socket>, es: seq<RegistryEvent>, h: nat)
    requires h < |es|
    ensures ApplyAll(clients, es[..h + 1]) == Apply(ApplyAll(clients, es[..h]), es[h])
  {
    ApplyAllSnoc(clients, es[..h], es[h]);
    assert es[..h + 1] == es[..h] + [es[h]];
  }

  function DeliveryTo(message: string): Socket -> Delivery
  {
    (s: Socket) => Delivery(s, message)
  }

  /** One send of `message` per recipient entry, in list order. */
  function Deliveries(recipients: seq<Socket>, message: string): seq<Delivery>
  {
    Seqs.Map(recipients, DeliveryTo(message))
  }

  /**
   * Every delivery carries the same message, the k-th goes to the k-th recipient,
   * and each socket receives exactly as many copies as it has entries in the list
   * (once, for a socket registered once).
   */
  lemma DeliveriesSpec(recipients: seq<Socket>, message: string)
    ensures |Deliveries(recipients, message)| == |recipients|
    ensures forall k | 0 <= k < |recipients| ::
      Deliveries(recipients, message)[k] == Delivery(recipients[k], message)
    ensures forall x :: multiset(Deliveries(recipients, message))[Delivery(x, message)] == multiset(recipients)[x]
  {
    Seqs.MapAt(recipients, DeliveryTo(message));
    DeliveriesCount(recipients, message);
  }

  /** One more send of the loop. */
  lemma DeliveriesStep(recipients: seq<Socket>, k: nat, message: string)
    requires k < |recipients|
    ensures Deliveries(recipients[..k + 1], message) == Deliveries(recipients[..k], message) + [Delivery(recipients[k], message)]
  {
    Seqs.MapSnoc(recipients[..k], recipients[k], DeliveryTo(message));
    assert recipients[..k + 1] == recipients[..k] + [recipients[k]];
  }

  lemma DeliveriesCount(recipients: seq<Socket>, message: string)
    ensures forall x :: multiset(Deliveries(recipients, message))[Delivery(x, message)] == multiset(recipients)[x]
  {
    forall x
      ensures multiset(Deliveries(recipients, message))[Delivery(x, message)] == multiset(recipients)[x]
    {
      Seqs.MapCount(recipients, DeliveryTo(message), x);
    }
  }

  /** `_clients` together with everything sent so far. */
  class ClientList {
    var clients: seq<Socket>
    var sent: seq<Delivery>

    constructor()
      ensures clients == [] && sent == []
    {
      clients := [];
      sent := [];
    }

    /** `socket.OnOpen`: `_clients.Add(socket)`. */
    method OnOpen(socket: Socket)
      modifies this
      ensures clients == old(clients) + [socket]
      ensures sent == old(sent)
    {
      clients := clients + [socket];
    }

    /** `socket.OnClose`: `_clients.Remove(socket)`. */
    method OnClose(socket: Socket)
      modifies this
      ensures clients == RemoveFirst(old(clients), socket)
      ensures sent == old(sent)
    {
      clients := RemoveFirst(clients, socket);
    }

    /** Runs one registry handler. */
    method Handle(e: RegistryEvent)
      modifies this
      ensures clients == Apply(old(clients), e)
      ensures sent == old(sent)
    {
      match e
      case Opened(x) => OnOpen(x);
      case Closed(x) => OnClose(x);
    }

    /** Runs the next handler of a series, `es[h]`, after the `h` before it. */
    method HandleNext(ghost start: seq<Socket>, es: seq<RegistryEvent>, h: nat)
      requires h < |es| && clients == ApplyAll(start, es[..h])
      modifies this
      ensures clients == ApplyAll(start, es[..h + 1])
      ensures sent == old(sent)
    {
      ApplyAllStep(start, es, h);
      Handle(es[h]);
    }

    /** Runs the handlers of a series from `es[h]` on, after the `h` before them. */
    method HandleRest(ghost start: seq<Socket>, es: seq<RegistryEvent>, h: nat)
      requires h <= |es| && clients == ApplyAll(start, es[..h])
      modifies this
      ensures clients == ApplyAll(start, es)
      ensures sent == old(sent)
    {
      var k := h;
      while k < |es|
        invariant h <= k <= |es|
        invariant clients == ApplyAll(start, es[..k])
        invariant sent == old(sent)
      {
        HandleNext(start, es, k);
        k := k + 1;
      }
      assert es[..k] == es;
    }

    /** `socket.Send(message)`. */
    method Send(socket: Socket, message: string)
      modifies this
      ensures sent == old(sent) + [Delivery(socket, message)]
      ensures clients == old(clients)
    {
      sent := sent + [Delivery(socket, message)];
    }

    /** The send to the `k`-th recipient, after the sends to the `k` before it. */
    method SendNext(ghost before: seq<Delivery>, recipients: seq<Socket>, k: nat, message: string)
      requires k < |recipients| && sent == before + Deliveries(recipients[..k], message)
      modifies this
      ensures sent == before + Deliveries(recipients[..k + 1], message)
      ensures clients == old(clients)
    {
      DeliveriesStep(recipients, k, message);
      Send(recipients[k], message);
    }

    /**
     * The Kinect2JSON and v1 send loop: copy `_clients`, then send to every socket of
     * the copy. `during[k]` is the registry handler that runs just before the k-th
     * send (the rest run after the loop): they change the registry but not the
     * recipients, which are the sockets registered when the copy was taken.
     */
    method BroadcastSnapshot(message: string, during: seq<RegistryEvent>)
      modifies this
      ensures sent == old(sent) + Deliveries(old(clients), message)
      ensures clients == ApplyAll(old(clients), during)
    {
      var transmit := clients;
      ghost var before := sent;
      var h := 0;
      for k := 0 to |transmit|
        invariant h == if k < |during| then k else |during|
        invariant sent == old(sent) + Deliveries(transmit[..k], message)
        invariant clients == ApplyAll(old(clients), during[..h])
      {
        if h < |during| {
          HandleNext(old(clients), during, h);
          h := h + 1;
        }
        SendNext(old(sent), transmit, k, message);
      }
      assert transmit[..|transmit|] == transmit;
      assert sent == before + Deliveries(transmit, message);
      HandleRest(old(clients), during, h);
      assert sent == before + Deliveries(transmit, message);
    }

    /**
     * The KinectinScratchServer and WebsocketServer3 send loop: `foreach` over the
     * live `_clients`. No handler may run during it (the enumerator would throw), so
     * the registry is unchanged and every registered socket gets the message.
     */
    method BroadcastLive(message: string)
      modifies this
      ensures sent == old(sent) + Deliveries(clients, message)
      ensures clients == old(clients)
    {
      for k := 0 to |clients|
        invariant clients == old(clients)
        invariant sent == old(sent) + Deliveries(clients[..k], message)
      {
        SendNext(old(sent), clients, k, message);
      }
      assert clients[..|clients|] == clients;
    }
  }
}
