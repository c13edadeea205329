/**
  One connection of a client, end to end: the command and its fields as bytes,
  the handlers that read them and work on the heap-linked list of peers, and the
  reply. The socket server acts by itself; the other one forwards each request
  to the RPC service.
*/
module RegistryService {
  import opened Wrappers
  import opened LinkedList
  import opened PeerRegistry
  import opened Framing

  const PORT_SIZE := 7

  datatype Operation = Registering | Unregistering | Connecting | Disconnecting | Publishing | Deleting

  function Command(op: Operation): string {
    match op
    case Registering => "REGISTER"
    case Unregistering => "UNREGISTER"
    case Connecting => "CONNECT"
    case Disconnecting => "DISCONNECT"
    case Publishing => "PUBLISH"
    case Deleting => "DELETE"
  }

  /** The operation a command line asks for; listing commands are not among them. */
  function Selected(command: string): Option<Operation> {
    if command == "REGISTER" then Some(Registering)
    else if command == "UNREGISTER" then Some(Unregistering)
    else if command == "CONNECT" then Some(Connecting)
    else if command == "DISCONNECT" then Some(Disconnecting)
    else if command == "PUBLISH" then Some(Publishing)
    else if command == "DELETE" then Some(Deleting)
    else None
  }

  /** The buffers that the fields of a request are read into, in order. */
  function FieldSizes(op: Operation): (l: seq<nat>)
    ensures forall k :: 0 <= k < |l| ==> l[k] > 0
  {
    match op
    case Connecting => [MESSAGE_SIZE, PORT_SIZE]
    case Publishing => [MESSAGE_SIZE, MESSAGE_SIZE, MESSAGE_SIZE]
    case Deleting => [MESSAGE_SIZE, MESSAGE_SIZE]
    case _ => [MESSAGE_SIZE]
  }

  /** The reply when a field cannot be read. */
  function ReadError(op: Operation): int {
    match op
    case Registering => OTHER_ERROR_2
    case Unregistering => OTHER_ERROR_2
    case Connecting => OTHER_ERROR_3
    case Disconnecting => OTHER_ERROR_3
    case _ => OTHER_ERROR_4
  }

  function Text(bytes: seq<byte>): (s: string)
    ensures |s| == |bytes| && forall i :: 0 <= i < |s| ==> s[i] as int == bytes[i] as int
  {
    seq(|bytes|, i requires 0 <= i < |bytes| => bytes[i] as int as char)
  }

  function Bytes(s: string): (bytes: seq<byte>)
    ensures |bytes| == |s| && forall i :: 0 <= i < |s| ==> bytes[i] as int == s[i] as int % 256
  {
    seq(|s|, i requires 0 <= i < |s| => (s[i] as int % 256) as byte)
  }

  /** The names among the fields are ordinary. */
  predicate Fitting(op: Operation, texts: seq<seq<byte>>)
    requires |texts| == |FieldSizes(op)|
  {
    Ordinary(Text(texts[0])) && (op.Publishing? || op.Deleting? ==> Ordinary(Text(texts[1])))
  }

  function RequestOf(op: Operation, texts: seq<seq<byte>>): Request
    requires |texts| == |FieldSizes(op)| && Fitting(op, texts)
  {
    match op
    case Registering => Register(Text(texts[0]))
    case Unregistering => Unregister(Text(texts[0]))
    case Connecting => Connect(Text(texts[0]), Text(texts[1]))
    case Disconnecting => Disconnect(Text(texts[0]))
    case Publishing => Publish(Text(texts[0]), Text(texts[1]), Text(texts[2]))
    case Deleting => Delete(Text(texts[0]), Text(texts[1]))
  }

  // ---------- what a stream makes of a server ----------

  /** No field is cut off by the end of the stream before its first byte. */
  predicate Supplied(incoming: seq<Read>, n: nat)
    decreases n
  {
    n == 0 || match NextLine(incoming)
      case Broken(_) => true
      case Line(text, rest, ended) => (ended ==> text != []) && Supplied(rest, n - 1)
  }

  /** If all fields arrive, they are there and the names are ordinary. */
  predicate Proper(op: Operation, incoming: seq<Read>) {
    var texts := Lines(incoming, FieldSizes(op)).0;
    LinesArrive(incoming, FieldSizes(op));
    texts.Some? ==> Fitting(op, texts.value) && Supplied(incoming, |FieldSizes(op)|)
  }

  /** The fields are read one after the other; then the request is served. */
  function Served(server: Server, s: State, op: Operation, incoming: seq<Read>, env: Env): (State, int)
    requires Proper(op, incoming)
  {
    var texts := Lines(incoming, FieldSizes(op)).0;
    LinesArrive(incoming, FieldSizes(op));
    if texts.None? then (s, ReadError(op)) else Step(server, s, RequestOf(op, texts.value), env)
  }

  /** The command line and the stream behind it; None if it cannot be read. */
  function CommandLine(incoming: seq<Read>): (Option<string>, seq<Read>) {
    match NextLine(incoming)
    case Broken(rest) => (None, rest)
    case Line(text, rest, _) => (Some(Text(Prefix(text, MESSAGE_SIZE - 1))), rest)
  }

  predicate ProperConnection(incoming: seq<Read>) {
    var (command, rest) := CommandLine(incoming);
    command.Some? ==>
      Supplied(incoming, 1) && Selected(command.value).Some? && Proper(Selected(command.value).value, rest)
  }

  /** One whole connection; no reply is sent when there is no command. */
  function Answered(server: Server, s: State, incoming: seq<Read>, env: Env): (State, Option<int>)
    requires ProperConnection(incoming)
  {
    var (command, rest) := CommandLine(incoming);
    if command.None? then (s, None)
    else
      var (t, code) := Served(server, s, Selected(command.value).value, rest, env);
      (t, Some(code))
  }

  // ---------- what a client's bytes do ----------

  /** The client sends the command and the fields, each truncated and closed by a NUL. */
  ghost predicate Sent(incoming: seq<Read>, op: Operation, fields: seq<seq<byte>>, more: seq<byte>) {
    && |fields| == |FieldSizes(op)| && Reliable(incoming)
    && (forall k :: 0 <= k < |fields| ==> Clean(fields[k]))
    && Payload(incoming) == Encode(Bytes(Command(op))) + (Encodings(fields) + more)
  }

  /** What is left of the fields in the buffers of the server. */
  function Arrivals(op: Operation, fields: seq<seq<byte>>): (texts: seq<seq<byte>>)
    requires |fields| == |FieldSizes(op)|
    ensures |texts| == |fields|
  {
    seq(|fields|, k requires 0 <= k < |fields| => Prefix(Truncated(fields[k]), FieldSizes(op)[k] - 1))
  }

  predicate Capital(s: string) {
    |s| < 20 && forall k :: 0 <= k < |s| ==> 'A' <= s[k] <= 'Z'
  }

  lemma CommandIsSelected(op: Operation)
    ensures Capital(Command(op)) && Selected(Command(op)) == Some(op)
  {
    assert "UNREGISTER"[0] != "DISCONNECT"[0] && "CONNECT"[0] != "PUBLISH"[0];
  }

  lemma CapitalsArrive(s: string)
    requires Capital(s)
    ensures Clean(Bytes(s)) && Truncated(Bytes(s)) == Bytes(s) && Text(Bytes(s)) == s
  {
    forall k | 0 <= k < |s| ensures Text(Bytes(s))[k] == s[k] && !Ends(Bytes(s)[k]) {
      assert 65 <= s[k] as int <= 90;
    }
  }

  lemma CommandArrives(incoming: seq<Read>, op: Operation, fields: seq<seq<byte>>, more: seq<byte>)
    requires Sent(incoming, op, fields, more)
    ensures var (command, rest) := CommandLine(incoming);
            && command == Some(Command(op)) && Supplied(incoming, 1)
            && Reliable(rest) && Payload(rest) == Encodings(fields) + more
  {
    CommandIsSelected(op);
    CapitalsArrive(Command(op));
    CleanFieldArrives(incoming, Bytes(Command(op)), Encodings(fields) + more);
    assert Supplied(NextLine(incoming).rest, 0);
  }

  lemma {:induction false} FieldsAreSupplied(incoming: seq<Read>, fields: seq<seq<byte>>, more: seq<byte>)
    requires Reliable(incoming) && Payload(incoming) == Encodings(fields) + more
    requires forall k :: 0 <= k < |fields| ==> Clean(fields[k])
    ensures Supplied(incoming, |fields|) && Unbroken(incoming, |fields|)
    decreases |fields|
  {
    hide Reliable, Payload, Clean, NextLine;
    if fields != [] {
      EncodingsFront(fields, more);
      CleanFieldArrives(incoming, fields[0], Encodings(fields[1..]) + more);
      FieldsAreSupplied(NextLine(incoming).rest, fields[1..], more);
    }
  }

  /** The server reads exactly the client's fields, cut to its buffers. */
  lemma RequestArrives(incoming: seq<Read>, op: Operation, fields: seq<seq<byte>>, more: seq<byte>)
    requires Sent(incoming, op, fields, more) && Fitting(op, Arrivals(op, fields))
    ensures var (command, rest) := CommandLine(incoming);
            && command == Some(Command(op)) && Selected(Command(op)) == Some(op) && ProperConnection(incoming)
            && Lines(rest, FieldSizes(op)).0 == Some(Arrivals(op, fields))
  {
    hide FieldSizes, Arrivals, Lines, Fitting;
    CommandArrives(incoming, op, fields, more);
    CommandIsSelected(op);
    var rest := CommandLine(incoming).1;
    FieldsAreSupplied(rest, fields, more);
    ArrivalsAre(rest, op, fields, more);
  }

  lemma ArrivalsAre(rest: seq<Read>, op: Operation, fields: seq<seq<byte>>, more: seq<byte>)
    requires |fields| == |FieldSizes(op)| && Reliable(rest) && Payload(rest) == Encodings(fields) + more
    requires forall k :: 0 <= k < |fields| ==> Clean(fields[k])
    ensures Lines(rest, FieldSizes(op)).0 == Some(Arrivals(op, fields))
  {
    hide FieldSizes, Lines;
    FieldsStayAligned(rest, fields, FieldSizes(op), more);
    assert Lines(rest, FieldSizes(op)).0.value == Arrivals(op, fields);
  }

  /** What the registry answers to a stream: nothing, a read error, or what it answers to the request read. */
  function AskedBy(reg: Registry, incoming: seq<Read>, env: Env): (Registry, Option<int>)
    requires ProperConnection(incoming) && Readable(env)
  {
    var (command, rest) := CommandLine(incoming);
    if command.None? then (reg, None)
    else
      var op := Selected(command.value).value;
      var texts := Lines(rest, FieldSizes(op)).0;
      LinesArrive(rest, FieldSizes(op));
      if texts.None? then (reg, Some(ReadError(op)))
      else
        var (next, code) := Ask(reg, RequestOf(op, texts.value), env);
        (next, Some(code))
  }

  /** Whatever bytes arrive, and wherever they break off, either server does what the registry does. */
  lemma ConnectionIsAsked(server: Server, s: State, incoming: seq<Read>, env: Env)
    requires Consistent(s) && Readable(env) && ProperConnection(incoming)
    ensures var (t, reply) := Answered(server, s, incoming, env);
            Consistent(t) && (RegistryOf(t), reply) == AskedBy(RegistryOf(s), incoming, env)
  {
    hide Ask, Step, Consistent, RequestOf;
    var (command, rest) := CommandLine(incoming);
    if command.Some? {
      var op := Selected(command.value).value;
      LinesArrive(rest, FieldSizes(op));
      var texts := Lines(rest, FieldSizes(op)).0;
      if texts.Some? {
        StepIsAsked(server, s, RequestOf(op, texts.value), env);
      }
    }
  }

  datatype Connection = Connection(incoming: seq<Read>, env: Env)

  /** The connection carries, in a client's encoding, the request of the visit. */
  ghost predicate Brings(c: Connection, v: Visit) {
    exists op, fields, more ::
      && Sent(c.incoming, op, fields, more) && Fitting(op, Arrivals(op, fields))
      && v == Visit(RequestOf(op, Arrivals(op, fields)), c.env)
  }

  /**
    End to end: a client's request changes the registry, and is answered, as the
    registry answers the request made of the first 255 bytes of its fields.
  */
  lemma ClientIsServed(server: Server, s: State, c: Connection, v: Visit)
    requires Consistent(s) && Readable(c.env) && Brings(c, v)
    ensures ProperConnection(c.incoming)
    ensures var (t, reply) := Answered(server, s, c.incoming, c.env);
            var (reg, code) := Ask(RegistryOf(s), v.req, v.env);
            Consistent(t) && RegistryOf(t) == reg && reply == Some(code)
  {
    hide Fitting, Arrivals, Lines, Ask, Step, Consistent, RequestOf;
    var op, fields, more :|
      && Sent(c.incoming, op, fields, more) && Fitting(op, Arrivals(op, fields))
      && v == Visit(RequestOf(op, Arrivals(op, fields)), c.env);
    RequestArrives(c.incoming, op, fields, more);
    ConnectionIsAsked(server, s, c.incoming, c.env);
  }

  /** A request whose fields do not all arrive is answered with its error and changes nothing. */
  lemma BrokenRequestChangesNothing(server: Server, s: State, incoming: seq<Read>, env: Env)
    requires ProperConnection(incoming)
    ensures var (command, rest) := CommandLine(incoming);
            && (command.None? <==> !Unbroken(incoming, 1))
            && (command.None? ==> Answered(server, s, incoming, env) == (s, None))
            && (command.Some? && !Unbroken(rest, |FieldSizes(Selected(command.value).value)|) ==>
                  Answered(server, s, incoming, env) == (s, Some(ReadError(Selected(command.value).value))))
  {
    var (command, rest) := CommandLine(incoming);
    if command.Some? {
      assert Unbroken(rest, 0);
      LinesArrive(rest, FieldSizes(Selected(command.value).value));
    }
  }

  /** The same bytes get the same answer from both servers exactly if they break off or the request is treated alike. */
  lemma ServersAgreeOnTheWire(s: State, incoming: seq<Read>, env: Env)
    requires ProperConnection(incoming)
    ensures var (command, rest) := CommandLine(incoming);
            Answered(Socket, s, incoming, env) == Answered(Rpc, s, incoming, env) <==>
              || command.None?
              || (var op := Selected(command.value).value;
                  LinesArrive(rest, FieldSizes(op));
                  var texts := Lines(rest, FieldSizes(op)).0;
                  texts.None? || Alike(s, RequestOf(op, texts.value), env))
  {
    hide SocketStep, RpcStep, Alike;
    var (command, rest) := CommandLine(incoming);
    if command.Some? {
      var op := Selected(command.value).value;
      LinesArrive(rest, FieldSizes(op));
      var texts := Lines(rest, FieldSizes(op)).0;
      if texts.Some? {
        ServersAgree(s, RequestOf(op, texts.value), env);
      }
    }
  }

  function AnsweredAll(server: Server, s: State, cs: seq<Connection>): (State, seq<Option<int>>)
    requires forall k :: 0 <= k < |cs| ==> ProperConnection(cs[k].incoming)
    decreases |cs|
  {
    if cs == [] then (s, [])
    else
      var (t, reply) := Answered(server, s, cs[0].incoming, cs[0].env);
      var (u, replies) := AnsweredAll(server, t, cs[1..]);
      (u, [reply] + replies)
  }

  function AskedByAll(reg: Registry, cs: seq<Connection>): (Registry, seq<Option<int>>)
    requires forall k :: 0 <= k < |cs| ==> ProperConnection(cs[k].incoming) && Readable(cs[k].env)
    decreases |cs|
  {
    if cs == [] then (reg, [])
    else
      var (next, reply) := AskedBy(reg, cs[0].incoming, cs[0].env);
      var (last, replies) := AskedByAll(next, cs[1..]);
      (last, [reply] + replies)
  }

  /** Every sequence of connections, broken or not, is answered as the registry answers it. */
  lemma {:induction false} ConnectionsAreAsked(server: Server, s: State, cs: seq<Connection>)
    requires Consistent(s)
    requires forall k :: 0 <= k < |cs| ==> ProperConnection(cs[k].incoming) && Readable(cs[k].env)
    ensures var (t, replies) := AnsweredAll(server, s, cs);
            Consistent(t) && (RegistryOf(t), replies) == AskedByAll(RegistryOf(s), cs)
    decreases |cs|
  {
    hide Answered, AskedBy, Consistent, ProperConnection;
    if cs != [] {
      ConnectionIsAsked(server, s, cs[0].incoming, cs[0].env);
      ConnectionsAreAsked(server, Answered(server, s, cs[0].incoming, cs[0].env).0, cs[1..]);
    }
  }

  /** Requests in a client's encoding, with clean fields, are answered as the registry answers them. */
  lemma {:induction false} ClientsAreServed(server: Server, s: State, cs: seq<Connection>, vs: seq<Visit>)
    requires Consistent(s) && |cs| == |vs|
    requires forall k :: 0 <= k < |cs| ==> Readable(cs[k].env) && Brings(cs[k], vs[k])
    ensures forall k :: 0 <= k < |cs| ==> ProperConnection(cs[k].incoming) && Readable(vs[k].env)
    ensures var (t, replies) := AnsweredAll(server, s, cs);
            var (reg, codes) := AskAll(RegistryOf(s), vs);
            && Consistent(t) && RegistryOf(t) == reg && |replies| == |codes| == |cs|
            && forall k :: 0 <= k < |cs| ==> replies[k] == Some(codes[k])
    decreases |cs|
  {
    hide Answered, Ask, Consistent, Brings, ProperConnection;
    if cs != [] {
      assert Brings(cs[0], vs[0]);
      ClientIsServed(server, s, cs[0], vs[0]);
      assert vs[0].env == cs[0].env by { BringsEnv(cs[0], vs[0]); }
      forall k | 0 <= k < |cs[1..]| ensures Readable(cs[1..][k].env) && Brings(cs[1..][k], vs[1..][k]) {
        assert Brings(cs[k + 1], vs[k + 1]);
      }
      var t := Answered(server, s, cs[0].incoming, cs[0].env).0;
      ClientsAreServed(server, t, cs[1..], vs[1..]);
      assert forall k :: 1 <= k < |cs| ==> cs[k] == cs[1..][k - 1] && vs[k] == vs[1..][k - 1];
    }
  }

  lemma BringsEnv(c: Connection, v: Visit)
    requires Brings(c, v)
    ensures v.env == c.env
  {
  }

  // ---------- the handlers ----------

  /** One program, built for either kind. */
  class PeerServer {
    const kind: Server
    var users: Users
    const connected: List

    ghost predicate Valid()
      reads this, connected, connected.spine
    {
      connected.Valid()
    }

    ghost function Now(): State
      reads this, connected
    {
      State(users, connected.contents)
    }

    constructor (kind: Server, users: Users)
      ensures Valid() && this.kind == kind && Now() == State(users, []) && fresh(connected) && connected.spine == []
    {
      this.kind, this.users := kind, users;
      connected := new List();
    }

    // ---------- built for sockets ----------

    method RegisterUser(fd: Input, env: Env) returns (code: int)
      requires Valid() && Proper(Registering, fd.incoming)
      modifies this`users, fd
      ensures Valid() && (Now(), code) == Served(Socket, old(Now()), Registering, old(fd.incoming), env)
    {
      hide Lines, NextLine, Position, WithoutFirst;
      var read, texts := ReadFields(fd, FieldSizes(Registering));
      if !read {
        return OTHER_ERROR_2;
      }
      var name := Text(texts[0]);
      var registered := Registered(users, name, env);
      if registered == 0 {
        var (made, ok) := MakeDirectory(users, name, env);
        users := made;
        return if ok then SUCCESS else OTHER_ERROR_2;
      }
      return if registered == 1 then USER_REGISTERED else OTHER_ERROR_2;
    }

    method UnregisterUser(fd: Input, env: Env) returns (code: int)
      requires Valid() && Proper(Unregistering, fd.incoming)
      modifies this`users, fd, connected, connected.Nodes()
      ensures Valid() && (Now(), code) == Served(Socket, old(Now()), Unregistering, old(fd.incoming), env)
      ensures connected.Nodes() <= old(connected.Nodes())
    {
      hide Lines, NextLine, Position, WithoutFirst;
      var read, texts := ReadFields(fd, FieldSizes(Unregistering));
      if !read {
        return OTHER_ERROR_2;
      }
      var name := Text(texts[0]);
      var registered := Registered(users, name, env);
      if registered == 1 {
        var (left, ok) := RemoveDirectory(users, name, env);
        users := left;
        if !ok {
          return OTHER_ERROR_2;
        }
        connected.DeleteElement(name);
        return SUCCESS;
      }
      return if registered == 0 then USER_NOT_REGISTERED else OTHER_ERROR_2;
    }

    method ConnectUser(fd: Input, env: Env) returns (code: int)
      requires Valid() && Proper(Connecting, fd.incoming)
      modifies fd, connected, connected.Nodes()
      ensures Valid() && (Now(), code) == Served(Socket, old(Now()), Connecting, old(fd.incoming), env)
      ensures fresh(connected.Nodes() - old(connected.Nodes()))
    {
      hide Lines, NextLine, Position, WithoutFirst;
      var read, texts := ReadFields(fd, FieldSizes(Connecting));
      if !read {
        return OTHER_ERROR_3;
      }
      var name, port := Text(texts[0]), Text(texts[1]);
      var registered := Registered(users, name, env);
      if registered == 1 {
        var found := connected.FindElementByName(name);
        if found {
          return USER_CONNECTED;
        }
        if env.address.None? {
          return OTHER_ERROR_3;
        }
        connected.AddElement(Peer(name, port, env.address.value));
        return SUCCESS;
      }
      return if registered == 0 then USER_NOT_REGISTERED else OTHER_ERROR_3;
    }

    method DisconnectUser(fd: Input, env: Env) returns (code: int)
      requires Valid() && Proper(Disconnecting, fd.incoming)
      modifies fd, connected, connected.Nodes()
      ensures Valid() && (Now(), code) == Served(Socket, old(Now()), Disconnecting, old(fd.incoming), env)
      ensures connected.Nodes() <= old(connected.Nodes())
    {
      hide Lines, NextLine, Position, WithoutFirst;
      var read, texts := ReadFields(fd, FieldSizes(Disconnecting));
      if !read {
        return OTHER_ERROR_3;
      }
      var name := Text(texts[0]);
      var registered := Registered(users, name, env);
      if registered == 1 {
        var found := connected.FindElementByName(name);
        if found {
          connected.DeleteElement(name);
          return SUCCESS;
        }
        return USER_NOT_CONNECTED;
      }
      return if registered == 0 then USER_NOT_REGISTERED else OTHER_ERROR_3;
    }

    method PublishFile(fd: Input, env: Env) returns (code: int)
      requires Valid() && Proper(Publishing, fd.incoming)
      modifies this`users, fd
      ensures Valid() && (Now(), code) == Served(Socket, old(Now()), Publishing, old(fd.incoming), env)
    {
      hide Lines, NextLine, Position, WithoutFirst;
      var read, texts := ReadFields(fd, FieldSizes(Publishing));
      if !read {
        return OTHER_ERROR_4;
      }
      var name, file, description := Text(texts[0]), Text(texts[1]), Text(texts[2]);
      var registered := Registered(users, name, env);
      if registered != 1 {
        return USER_NOT_REGISTERED;
      }
      var found := connected.FindElementByName(name);
      if !found {
        return USER_NOT_CONNECTED;
      }
      var present := FileExists(users, name, file, env);
      if present == 0 {
        var (stored, ok) := StoreFile(users, name, file, description, env);
        users := stored;
        return if ok then SUCCESS else OTHER_ERROR_4;
      }
      return if present == 1 then FILE_PUBLISHED else OTHER_ERROR_4;
    }

    method DeleteFile(fd: Input, env: Env) returns (code: int)
      requires Valid() && Proper(Deleting, fd.incoming)
      modifies this`users, fd
      ensures Valid() && (Now(), code) == Served(Socket, old(Now()), Deleting, old(fd.incoming), env)
    {
      hide Lines, NextLine, Position, WithoutFirst;
      var read, texts := ReadFields(fd, FieldSizes(Deleting));
      if !read {
        return OTHER_ERROR_4;
      }
      var name, file := Text(texts[0]), Text(texts[1]);
      var present := FileExists(users, name, file, env);
      if present == 1 {
        var (left, ok) := RemoveFile(users, name, file, env);
        users := left;
        return if ok then SUCCESS else OTHER_ERROR_4;
      }
      return if present == 0 then FILE_NOT_PUBLISHED else OTHER_ERROR_4;
    }

    method Select(op: Operation, fd: Input, env: Env) returns (code: int)
      requires Valid() && Proper(op, fd.incoming)
      modifies this`users, fd, connected, connected.Nodes()
      ensures Valid() && (Now(), code) == Served(Socket, old(Now()), op, old(fd.incoming), env)
      ensures fresh(connected.Nodes() - old(connected.Nodes()))
    {
      match op {
        case Registering => code := RegisterUser(fd, env);
        case Unregistering => code := UnregisterUser(fd, env);
        case Connecting => code := ConnectUser(fd, env);
        case Disconnecting => code := DisconnectUser(fd, env);
        case Publishing => code := PublishFile(fd, env);
        case Deleting => code := DeleteFile(fd, env);
      }
    }

    // ---------- built for the RPC service ----------

    method RegisterUserRpc(fd: Input, env: Env) returns (code: int)
      requires Valid() && Proper(Registering, fd.incoming)
      modifies this`users, fd
      ensures Valid() && (Now(), code) == Served(Rpc, old(Now()), Registering, old(fd.incoming), env)
    {
      hide Lines, NextLine, Position, WithoutFirst;
      var read, texts := ReadFields(fd, FieldSizes(Registering));
      if !read {
        return 2;
      }
      var name := Text(texts[0]);
      if Registered(users, name, env) != 0 {
        return 1;
      }
      var (made, ok) := MakeDirectory(users, name, env);
      users := made;
      return if ok then 0 else 2;
    }

    method UnregisterUserRpc(fd: Input, env: Env) returns (code: int)
      requires Valid() && Proper(Unregistering, fd.incoming)
      modifies this`users, fd, connected, connected.Nodes()
      ensures Valid() && (Now(), code) == Served(Rpc, old(Now()), Unregistering, old(fd.incoming), env)
      ensures connected.Nodes() <= old(connected.Nodes())
    {
      hide Lines, NextLine, Position, WithoutFirst;
      var read, texts := ReadFields(fd, FieldSizes(Unregistering));
      if !read {
        return 2;
      }
      var name := Text(texts[0]);
      if Registered(users, name, env) == 0 {
        return 1;
      }
      var (left, ok) := RemoveDirectory(users, name, env);
      users := left;
      if !ok {
        return 2;
      }
      connected.DeleteElement(name);
      return 0;
    }

    method ConnectUserRpc(fd: Input, env: Env) returns (code: int)
      requires Valid() && Proper(Connecting, fd.incoming)
      modifies fd, connected, connected.Nodes()
      ensures Valid() && (Now(), code) == Served(Rpc, old(Now()), Connecting, old(fd.incoming), env)
      ensures fresh(connected.Nodes() - old(connected.Nodes()))
    {
      hide Lines, NextLine, Position, WithoutFirst;
      var read, texts := ReadFields(fd, FieldSizes(Connecting));
      if !read {
        return 3;
      }
      var name, port := Text(texts[0]), Text(texts[1]);
      if env.address.None? {
        return 3;
      }
      if Registered(users, name, env) == 0 {
        return 1;
      }
      var found := connected.FindElementByName(name);
      if found {
        return 2;
      }
      connected.AddElement(Peer(name, port, env.address.value));
      return 0;
    }

    method DisconnectUserRpc(fd: Input, env: Env) returns (code: int)
      requires Valid() && Proper(Disconnecting, fd.incoming)
      modifies fd, connected, connected.Nodes()
      ensures Valid() && (Now(), code) == Served(Rpc, old(Now()), Disconnecting, old(fd.incoming), env)
      ensures connected.Nodes() <= old(connected.Nodes())
    {
      hide Lines, NextLine, Position, WithoutFirst;
      var read, texts := ReadFields(fd, FieldSizes(Disconnecting));
      if !read {
        return 3;
      }
      var name := Text(texts[0]);
      if Registered(users, name, env) == 0 {
        return 1;
      }
      var found := connected.FindElementByName(name);
      if !found {
        return 2;
      }
      connected.DeleteElement(name);
      return 0;
    }

    method PublishFileRpc(fd: Input, env: Env) returns (code: int)
      requires Valid() && Proper(Publishing, fd.incoming)
      modifies this`users, fd
      ensures Valid() && (Now(), code) == Served(Rpc, old(Now()), Publishing, old(fd.incoming), env)
    {
      hide Lines, NextLine, Position, WithoutFirst;
      var read, texts := ReadFields(fd, FieldSizes(Publishing));
      if !read {
        return 4;
      }
      var name, file, description := Text(texts[0]), Text(texts[1]), Text(texts[2]);
      if Registered(users, name, env) == 0 {
        return 1;
      }
      var found := connected.FindElementByName(name);
      if !found {
        return 2;
      }
      if FileExists(users, name, file, env) != 0 {
        return 3;
      }
      var (stored, ok) := StoreFile(users, name, file, description, env);
      users := stored;
      return if ok then 0 else 4;
    }

    method DeleteFileRpc(fd: Input, env: Env) returns (code: int)
      requires Valid() && Proper(Deleting, fd.incoming)
      modifies this`users, fd
      ensures Valid() && (Now(), code) == Served(Rpc, old(Now()), Deleting, old(fd.incoming), env)
    {
      hide Lines, NextLine, Position, WithoutFirst;
      var read, texts := ReadFields(fd, FieldSizes(Deleting));
      if !read {
        return 4;
      }
      var name, file := Text(texts[0]), Text(texts[1]);
      if FileExists(users, name, file, env) == 0 {
        return 3;
      }
      var (left, ok) := RemoveFile(users, name, file, env);
      users := left;
      return if ok then 0 else 4;
    }

    method SelectRpc(op: Operation, fd: Input, env: Env) returns (code: int)
      requires Valid() && Proper(op, fd.incoming)
      modifies this`users, fd, connected, connected.Nodes()
      ensures Valid() && (Now(), code) == Served(Rpc, old(Now()), op, old(fd.incoming), env)
      ensures fresh(connected.Nodes() - old(connected.Nodes()))
    {
      match op {
        case Registering => code := RegisterUserRpc(fd, env);
        case Unregistering => code := UnregisterUserRpc(fd, env);
        case Connecting => code := ConnectUserRpc(fd, env);
        case Disconnecting => code := DisconnectUserRpc(fd, env);
        case Publishing => code := PublishFileRpc(fd, env);
        case Deleting => code := DeleteFileRpc(fd, env);
      }
    }

    // ---------- both ----------

    /** Reads the command and lets its handler read the rest; nothing is sent if there is no command. */
    method ProcessRequest(fd: Input, env: Env) returns (reply: Option<int>)
      requires Valid() && ProperConnection(fd.incoming)
      modifies this`users, fd, connected, connected.Nodes()
      ensures Valid() && (Now(), reply) == Answered(kind, old(Now()), old(fd.incoming), env)
      ensures fresh(connected.Nodes() - old(connected.Nodes()))
    {
      var message := new byte[MESSAGE_SIZE];
      var total := ReadLine(fd, message, MESSAGE_SIZE);
      if total == -1 {
        return None;
      }
      var op, code := Selected(Text(message[..total])).value, 0;
      if kind.Rpc? {
        code := SelectRpc(op, fd, env);
      } else {
        code := Select(op, fd, env);
      }
      return Some(code);
    }

    /** Connections served whole, one after the other. */
    method ServeAll(cs: seq<Connection>) returns (replies: seq<Option<int>>)
      requires Valid() && forall k :: 0 <= k < |cs| ==> ProperConnection(cs[k].incoming)
      modifies this`users, connected, connected.Nodes()
      ensures Valid() && (Now(), replies) == AnsweredAll(kind, old(Now()), cs)
      ensures fresh(connected.Nodes() - old(connected.Nodes()))
      decreases |cs|
    {
      if cs == [] {
        return [];
      }
      var fd := new Input(cs[0].incoming);
      var reply := ProcessRequest(fd, cs[0].env);
      var more := ServeAll(cs[1..]);
      replies := [reply] + more;
    }
  }
}
