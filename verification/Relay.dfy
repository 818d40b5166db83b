/** cli/relay.py: the registered clients of a node, and the fan-out of one message to all the others. */
module Relay {
  import opened Bytes
  import H = Handshake
  import opened Results
  import opened Session

  datatype Chat = Chat(text: string, sender: string)

  // The libraries the relay leans on: HMAC, and the JSON form of a chat message.
  datatype Codec = Codec(mac: Mac, encode: Chat -> Bytes, decode: Bytes -> Result<Chat>)

  // Frames a node sends.
  datatype OutFrame =
    | HelloAck(passwordRequired: bool)
    | ErrorFrame(code: nat)
    | Covenant(message: H.Frame)
    | ChatFrame(chat: Chat)
    | Sealed(frame: SealedFrame)

  // The frame deliver makes of a message: sealed when the client has a session, plain when it has none.
  ghost function Prepare(codec: Codec, session: Option<Endpoint>, chat: Chat): (Option<Endpoint>, Result<OutFrame>) {
    if session.None? then (None, Success(ChatFrame(chat)))
    else
      var (next, sealed) := Sealing(codec.mac, session.value, codec.encode(chat));
      (Some(next), if sealed.Success? then Success(Sealed(sealed.value)) else Failure(sealed.error))
  }

  // What can be seen of a client: its session, and all that has been sent to it.
  datatype View = View(session: Option<Endpoint>, wire: seq<OutFrame>)

  // A client before and after a message, if it stays registered and if it is dropped.
  ghost predicate Served(codec: Codec, chat: Chat, kept: bool, before: View, after: View) {
    var (next, frame) := Prepare(codec, before.session, chat);
    && after.session == next
    && (kept ==> frame.Success? && after.wire == before.wire + [frame.value])
    && (!kept ==> after.wire == before.wire)
  }

  // The sending half of a WebSocket; a send may raise at any time, and then nothing has been sent.
  class FrameSocket {
    var wire: seq<OutFrame>

    method Send(frame: OutFrame) returns (r: Result<()>)
      modifies this
      ensures wire == if r.Success? then old(wire) + [frame] else old(wire)
    {
      var broken: bool := *;
      if broken {
        return Failure(ConnectionClosed);
      }
      wire := wire + [frame];
      return Success(());
    }
  }

  class RegisteredClient {
    const ws: FrameSocket
    const session: SessionState?
    const codec: Codec

    ghost predicate Valid()
    {
      session != null ==> session.mac == codec.mac
    }

    constructor (ws: FrameSocket, session: SessionState?, codec: Codec)
      ensures this.ws == ws && this.session == session && this.codec == codec
    {
      this.ws := ws;
      this.session := session;
      this.codec := codec;
    }

    function Seen(): View
      reads session, ws
    {
      View(if session == null then None else Some(session.State()), ws.wire)
    }

    // deliver: the session moves on even when sealing or sending raises.
    method Deliver(chat: Chat) returns (r: Result<()>)
      requires Valid()
      modifies ws, session
      ensures Served(codec, chat, r.Success?, old(Seen()), Seen())
    {
      var frame := ChatFrame(chat);
      if session != null {
        var sealed :- session.Seal(codec.encode(chat));
        frame := Sealed(sealed);
      }
      r := ws.Send(frame);
    }
  }

  // Connections share neither sockets nor sessions.
  ghost predicate Apart(c: RegisteredClient, d: RegisteredClient) {
    c.ws != d.ws && (c.session == null || c.session != d.session)
  }

  // The objects that a broadcast by this sender may change.
  ghost function Touched(clients: set<RegisteredClient>, sender: RegisteredClient): set<object> {
    (set c | c in clients && c != sender :: c.ws) +
    (set c | c in clients && c != sender && c.session != null :: c.session)
  }

  lemma FewerTouched(fewer: set<RegisteredClient>, clients: set<RegisteredClient>, sender: RegisteredClient)
    requires fewer <= clients
    ensures Touched(fewer, sender) <= Touched(clients, sender)
  {
  }

  class ClientRegistry {
    var clients: set<RegisteredClient>
    // The broadcasts made so far, with their authors.
    ghost var relayed: seq<(RegisteredClient, Chat)>

    constructor ()
      ensures clients == {} && relayed == []
    {
      clients := {};
      relayed := [];
    }

    method Add(client: RegisteredClient)
      modifies this`clients
      ensures clients == old(clients) + {client}
    {
      clients := clients + {client};
    }

    method Remove(client: RegisteredClient)
      modifies this`clients
      ensures clients == old(clients) - {client}
    {
      clients := clients - {client};
    }

    // The other clients, in the order the set happens to be walked.
    method Others(sender: RegisteredClient) returns (list: seq<RegisteredClient>, ghost views: seq<View>)
      ensures forall c :: c in list <==> c in clients && c != sender
      ensures forall i, j :: 0 <= i < j < |list| ==> list[i] != list[j]
      ensures |views| == |list| && forall i :: 0 <= i < |list| ==> views[i] == list[i].Seen()
    {
      list, views := [], [];
      var todo: set<RegisteredClient> := clients - {sender};
      while todo != {}
        invariant forall c :: c in clients && c != sender <==> c in todo || c in list
        invariant forall c :: c in todo ==> c !in list
        invariant forall i, j :: 0 <= i < j < |list| ==> list[i] != list[j]
        invariant |views| == |list| && forall i :: 0 <= i < |list| ==> views[i] == list[i].Seen()
        decreases |todo|
      {
        var c :| c in todo;
        todo := todo - {c};
        list, views := list + [c], views + [c.Seen()];
      }
    }

    // One turn of the fan-out: a client that cannot be served is dropped.
    method Serve(client: RegisteredClient, chat: Chat, ghost i: nat, ghost everyone: seq<RegisteredClient>)
      requires forall j :: 0 <= j < |everyone| && j != i ==> Apart(client, everyone[j])
      requires client.Valid()
      modifies this`clients, client.ws, client.session
      ensures clients == old(clients) || clients == old(clients) - {client}
      ensures client in old(clients) ==>
        Served(client.codec, chat, client in clients, old(client.Seen()), client.Seen())
      ensures forall j :: 0 <= j < |everyone| && j != i ==> everyone[j].Seen() == old(everyone[j].Seen())
    {
      var sent := client.Deliver(chat);
      if sent.Failure? {
        Remove(client);
      }
    }

    // broadcast, when no other thread runs: every client but the sender has either been sent exactly this
    // message, under its own session, or has been dropped; nothing else is touched.
    method Broadcast(sender: RegisteredClient, chat: Chat)
      requires forall c, d :: c in clients + {sender} && d in clients && c != d ==> Apart(c, d)
      requires forall c :: c in clients ==> c.Valid()
      modifies this, Touched(clients, sender)
      ensures clients <= old(clients) && (sender in clients <==> sender in old(clients))
      ensures relayed == old(relayed) + [(sender, chat)]
      ensures forall c :: c in old(clients) && c != sender ==>
        Served(c.codec, chat, c in clients, old(c.Seen()), c.Seen())
    {
      relayed := relayed + [(sender, chat)];
      var recipients, before := Others(sender);
      for i := 0 to |recipients|
        invariant relayed == old(relayed) + [(sender, chat)]
        invariant clients <= old(clients) && (sender in clients <==> sender in old(clients))
        invariant forall k :: i <= k < |recipients| ==> recipients[k].Seen() == before[k] && recipients[k] in clients
        invariant forall k :: 0 <= k < i ==>
          Served(recipients[k].codec, chat, recipients[k] in clients, before[k], recipients[k].Seen())
      {
        Serve(recipients[i], chat, i, recipients);
      }
    }
  }
}
