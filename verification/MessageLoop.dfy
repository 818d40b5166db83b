/** cli/server.py, _message_loop: one connection's loop, on the objects it works with. */
module MessageLoop {
  import opened Relay
  import opened Results
  import opened ServerNode
  import opened Session

  // One frame: opened or taken as it is, relayed, answered, or the end of the loop.
  method Dispatch(codec: Codec, client: RegisteredClient, name: string, incoming: Incoming) returns (r: Reaction)
    requires client.Valid() && client.codec == codec
    modifies client.session
    ensures (client.Seen().session, r) == React(codec, old(client.Seen().session), name, incoming)
    ensures client.ws.wire == old(client.ws.wire)
    ensures r.Pass? ==>
      && (incoming.ChatIn? || (incoming.SealedIn? && old(client.Seen().session).Some?))
      && var said := if incoming.ChatIn? then Success(incoming.chat)
           else OpenedChat(codec, old(client.Seen().session).value, incoming.frame);
      && said.Success? && r.chat.text == said.value.text
      && r.chat.sender == if said.value.sender == "" then name else said.value.sender
    ensures incoming.SealedIn? && old(client.Seen().session).None? ==> r == Reply(403)
    ensures incoming.SealedIn? && old(client.Seen().session).Some? ==>
      var said := OpenedChat(codec, old(client.Seen().session).value, incoming.frame);
      said.Failure? ==>
        r == if said.error in {AuthenticationError, ReplayError, ValueError} then Reply(400) else Raise
    ensures incoming.ChatIn? && old(client.Seen().session).Some? ==> r == Reply(400)
    ensures incoming.Hello? || incoming.CovenantIn? || incoming.OtherIn? ==> r == Reply(422)
    ensures incoming.Garbage? || incoming.HungUp? ==> r == Raise
  {
    match incoming
    case SealedIn(frame) =>
      if client.session == null {
        return Reply(403);
      }
      var before := client.session.State();
      var plaintext := client.session.Open(frame);
      if plaintext.Failure? {
        return if IsAnswered(plaintext.error) then Reply(400) else Raise;
      }
      var chat := codec.decode(plaintext.value);
      if chat.Failure? {
        return if IsAnswered(chat.error) then Reply(400) else Raise;
      }
      return Pass(Signed(chat.value, name), Opened(before, frame));
    case ChatIn(chat) =>
      if client.session != null {
        return Reply(400);
      }
      return Pass(Signed(chat, name), PlainChat(chat));
    case Garbage => return Raise;
    case HungUp => return Raise;
    case _ => return Reply(422);
  }

  // The receiving half of a WebSocket; past the last frame the connection has ended.
  class Receiver {
    var inbox: seq<Incoming>

    method Recv() returns (incoming: Incoming)
      modifies this
      ensures incoming == if old(inbox) == [] then HungUp else old(inbox)[0]
      ensures inbox == if old(inbox) == [] then [] else old(inbox)[1..]
    {
      if inbox == [] {
        return HungUp;
      }
      incoming := inbox[0];
      inbox := inbox[1..];
    }
  }

  // What a loop has done with the frames it has heard: its session, the texts it relayed, its answers, and
  // whether it is over.
  datatype Course = Course(session: Option<Endpoint>, passed: seq<Chat>, replies: seq<OutFrame>, over: bool)

  ghost function After(codec: Codec, session: Option<Endpoint>, name: string, heard: seq<Incoming>): Course {
    if heard == [] then Course(session, [], [], false)
    else Further(codec, name, After(codec, session, name, heard[..|heard| - 1]), heard[|heard| - 1])
  }

  ghost function Further(codec: Codec, name: string, c: Course, incoming: Incoming): Course {
    if c.over then c
    else
      var (session, reaction) := React(codec, c.session, name, incoming);
      match reaction
      case Pass(chat, _) => Course(session, c.passed + [chat], c.replies, false)
      case Reply(code) => Course(session, c.passed, c.replies + [ErrorFrame(code)], false)
      case Raise => Course(session, c.passed, c.replies, true)
  }

  // The broadcasts of one author.
  function By(author: RegisteredClient, chats: seq<Chat>): seq<(RegisteredClient, Chat)> {
    seq(|chats|, i requires 0 <= i < |chats| => (author, chats[i]))
  }

  // A registry whose clients, with this one, share nothing.
  ghost predicate Ready(hub: ClientRegistry, client: RegisteredClient)
    reads hub
  {
    && (forall c, d :: c in hub.clients + {client} && d in hub.clients && c != d ==> Apart(c, d))
    && (forall c :: c in hub.clients + {client} ==> c.Valid())
  }

  method Fan(hub: ClientRegistry, client: RegisteredClient, chat: Chat)
    requires Ready(hub, client)
    modifies hub, Touched(hub.clients, client)
    ensures Ready(hub, client) && hub.clients <= old(hub.clients)
    ensures hub.relayed == old(hub.relayed) + [(client, chat)]
    ensures client.Seen() == old(client.Seen())
  {
    assert forall d :: d in hub.clients && d != client ==> Apart(client, d);
    hub.Broadcast(client, chat);
  }

  // One turn of the loop, up to and with its effect. `over` ends the loop.
  method Turn(hub: ClientRegistry, client: RegisteredClient, name: string, incoming: Incoming)
    returns (over: bool, ghost reaction: Reaction)
    requires Ready(hub, client)
    modifies hub, client.ws, client.session, Touched(hub.clients, client)
    ensures Ready(hub, client) && hub.clients <= old(hub.clients)
    ensures (client.Seen().session, reaction) == React(client.codec, old(client.Seen().session), name, incoming)
    ensures hub.relayed == old(hub.relayed) + (if reaction.Pass? then [(client, reaction.chat)] else [])
    ensures client.ws.wire ==
      old(client.ws.wire) + (if reaction.Reply? && !over then [ErrorFrame(reaction.code)] else [])
    ensures reaction.Pass? ==> !over
    ensures reaction.Raise? ==> over
  {
    var r := Dispatch(client.codec, client, name, incoming);
    reaction := r;
    match r
    case Pass(chat, _) =>
      Fan(hub, client, chat);
      over := false;
    case Reply(code) =>
      var sent := client.ws.Send(ErrorFrame(code));
      over := sent.Failure?;
    case Raise =>
      over := true;
  }

  lemma OneMore(codec: Codec, session: Option<Endpoint>, name: string, heard: seq<Incoming>, incoming: Incoming)
    ensures After(codec, session, name, heard + [incoming])
         == Further(codec, name, After(codec, session, name, heard), incoming)
  {
    assert (heard + [incoming])[..|heard|] == heard;
  }

  lemma ByMore(author: RegisteredClient, chats: seq<Chat>, chat: Chat, before: seq<(RegisteredClient, Chat)>)
    ensures before + By(author, chats + [chat]) == before + By(author, chats) + [(author, chat)]
  {
  }

  // All answers of the course have been sent; if the last one could not be, all but that.
  ghost predicate Sent(course: Course, unsent: bool, before: seq<OutFrame>, wire: seq<OutFrame>) {
    if unsent then course.replies != [] && wire == before + course.replies[..|course.replies| - 1]
    else wire == before + course.replies
  }

  lemma SentMore(course: Course, codec: Codec, name: string, incoming: Incoming, unsent: bool,
                 before: seq<OutFrame>, wire: seq<OutFrame>, after: seq<OutFrame>)
    requires !course.over && Sent(course, false, before, wire)
    requires var reaction := React(codec, course.session, name, incoming).1;
      && after == wire + (if reaction.Reply? && !unsent then [ErrorFrame(reaction.code)] else [])
      && (unsent ==> reaction.Reply?)
    ensures Sent(Further(codec, name, course, incoming), unsent, before, after)
  {
    var next := Further(codec, name, course, incoming);
    if unsent {
      assert next.replies[..|next.replies| - 1] == course.replies;
    }
  }

  // A frame received, its turn, and the course it continues.
  method Advance(recv: Receiver, hub: ClientRegistry, client: RegisteredClient, name: string,
                 ghost course: Course, ghost before: seq<OutFrame>, ghost relayed: seq<(RegisteredClient, Chat)>)
    returns (over: bool, ghost incoming: Incoming, ghost next: Course, ghost unsent: bool)
    requires Ready(hub, client) && !course.over && client.Seen().session == course.session
    requires Sent(course, false, before, client.ws.wire) && hub.relayed == relayed + By(client, course.passed)
    modifies recv, hub, client.ws, client.session, Touched(hub.clients, client)
    ensures Ready(hub, client) && hub.clients <= old(hub.clients)
    ensures incoming == (if old(recv.inbox) == [] then HungUp else old(recv.inbox)[0])
    ensures recv.inbox == if old(recv.inbox) == [] then [] else old(recv.inbox)[1..]
    ensures next == Further(client.codec, name, course, incoming) && client.Seen().session == next.session
    ensures Sent(next, unsent, before, client.ws.wire) && hub.relayed == relayed + By(client, next.passed)
    ensures over <==> next.over || unsent
    ensures incoming == HungUp ==> over
  {
    ghost var wire := client.ws.wire;
    var frame := recv.Recv();
    incoming := frame;
    ghost var reaction;
    over, reaction := Turn(hub, client, name, frame);
    next := Further(client.codec, name, course, frame);
    unsent := over && reaction.Reply?;
    SentMore(course, client.codec, name, frame, unsent, before, wire, client.ws.wire);
    if reaction.Pass? {
      ByMore(client, course.passed, reaction.chat, relayed);
    }
  }

  lemma HeardMore(heard: seq<Incoming>, inbox: seq<Incoming>, all: seq<Incoming>)
    requires heard + inbox == all
    ensures inbox == [] ==> heard + [HungUp] <= all + [HungUp]
    ensures inbox != [] ==> heard + [inbox[0]] + inbox[1..] == all && heard + [inbox[0]] <= all + [HungUp]
  {
    if inbox != [] {
      assert inbox == [inbox[0]] + inbox[1..];
    }
  }

  // _message_loop: frame after frame until one raises or an answer cannot be sent. `unsent` says that the
  // last answer did not go out.
  method Loop(recv: Receiver, hub: ClientRegistry, client: RegisteredClient, name: string)
    returns (ghost heard: seq<Incoming>, ghost unsent: bool)
    requires Ready(hub, client)
    modifies recv, hub, client.ws, client.session, Touched(hub.clients, client)
    ensures hub.clients <= old(hub.clients)
    ensures heard <= old(recv.inbox) + [HungUp]
    ensures Followed(After(client.codec, old(client.Seen().session), name, heard), unsent, hub, client,
                     old(client.ws.wire), old(hub.relayed))
  {
    ghost var session, wire, relayed, all := client.Seen().session, client.ws.wire, hub.relayed, recv.inbox;
    heard, unsent := [], false;
    ghost var course, incoming := After(client.codec, session, name, heard), HungUp;
    var over := false;
    while !over
      invariant Ready(hub, client) && hub.clients <= old(hub.clients)
      invariant if over then heard <= all + [HungUp] else heard + recv.inbox == all
      invariant course == After(client.codec, session, name, heard) && client.Seen().session == course.session
      invariant Sent(course, unsent, wire, client.ws.wire) && hub.relayed == relayed + By(client, course.passed)
      invariant over <==> course.over || unsent
      decreases !over, |recv.inbox|
    {
      FewerTouched(hub.clients, old(hub.clients), client);
      HeardMore(heard, recv.inbox, all);
      over, incoming, course, unsent := Advance(recv, hub, client, name, course, wire, relayed);
      OneMore(client.codec, session, name, heard, incoming);
      heard := heard + [incoming];
    }
  }

  // What a loop that is over leaves behind: the session moved on, the texts relayed in order, the answers
  // sent, but for a last one that could not be.
  ghost predicate Followed(course: Course, unsent: bool, hub: ClientRegistry, client: RegisteredClient,
                           before: seq<OutFrame>, relayed: seq<(RegisteredClient, Chat)>)
    reads hub, client.ws, client.session
  {
    && (course.over || unsent)
    && client.Seen().session == course.session
    && hub.relayed == relayed + By(client, course.passed)
    && Sent(course, unsent, before, client.ws.wire)
  }

  // handle_session, from the registration on: whatever ends the loop, the client is not left registered.
  method ServeClient(recv: Receiver, hub: ClientRegistry, client: RegisteredClient, name: string)
    returns (ghost heard: seq<Incoming>, ghost unsent: bool)
    requires Ready(hub, client)
    modifies recv, hub, client.ws, client.session, Touched(hub.clients, client)
    ensures client !in hub.clients && hub.clients <= old(hub.clients)
    ensures heard <= old(recv.inbox) + [HungUp]
    ensures Followed(After(client.codec, old(client.Seen().session), name, heard), unsent, hub, client,
                     old(client.ws.wire), old(hub.relayed))
  {
    hub.Add(client);
    assert Touched(hub.clients, client) == Touched(old(hub.clients), client);
    heard, unsent := Loop(recv, hub, client, name);
    hub.Remove(client);
  }
}
