/**
  Registered users, their published files and the connected peers, as two
  servers keep them: the socket handlers and the handlers behind the RPC
  interface. The directory tree is a map from users to files with descriptions.
*/
module PeerRegistry {
  import opened Wrappers
  import opened LinkedList

  const SUCCESS := 0
  const USER_REGISTERED := 1
  const USER_NOT_REGISTERED := 1
  const USER_CONNECTED := 2
  const USER_NOT_CONNECTED := 2
  const FILE_PUBLISHED := 3
  const FILE_NOT_PUBLISHED := 3
  const OTHER_ERROR_2 := 2
  const OTHER_ERROR_3 := 3
  const OTHER_ERROR_4 := 4

  /** A name that is one ordinary component of a path. */
  predicate Ordinary(s: string) {
    s != "" && s != "." && s != ".." && '/' !in s
  }

  type Name = s: string | Ordinary(s) witness "a"

  type Users = map<string, map<string, string>>

  datatype State = State(users: Users, connected: seq<Peer>)

  /**
    What surrounds one request: `listable` if the Users directory can be opened,
    `openable` if the user's own directory can, `storable` if entries can be made
    and removed; the files `unlinked` before a removal that fails; how many
    characters of a description a write stores, None if it fails; and the
    address of the client, None if it cannot be found out.
  */
  datatype Env = Env(listable: bool, openable: bool, storable: bool, unlinked: set<string>,
                     written: Option<nat>, address: Option<string>)

  datatype Request =
    | Register(name: Name)
    | Unregister(name: Name)
    | Connect(name: Name, port: string)
    | Disconnect(name: Name)
    | Publish(name: Name, file: Name, description: string)
    | Delete(name: Name, file: Name)

  datatype Server = Socket | Rpc

  // ---------- the directory tree ----------

  /** 1 if registered, 0 if not, -1 if the directory cannot be read. */
  function Registered(users: Users, name: Name, env: Env): int {
    if !env.listable then -1 else if name in users then 1 else 0
  }

  /** 1 if the file exists, 0 if not, -1 if there is no such user directory or it cannot be opened. */
  function FileExists(users: Users, name: Name, file: Name, env: Env): int {
    if name !in users || !env.openable then -1 else if file in users[name] then 1 else 0
  }

  function IsConnected(c: seq<Peer>, name: string): bool { Position(c, name) < |c| }

  const USERS_DIRECTORY := "./Users"

  function DirectoryPath(name: string): string { USERS_DIRECTORY + "/" + name }

  function FilePath(name: string, file: string): string { DirectoryPath(name) + "/" + file }

  /** The bytes that the handlers set aside for the path of a user directory. */
  function DirectoryRoom(name: string): nat { |name| + 2 + |USERS_DIRECTORY| + 1 }

  /** The bytes that publishing and deleting set aside for the path of a file. */
  function FileRoom(name: string): nat { |USERS_DIRECTORY| + 1 + |name| + 2 }

  predicate HasRoom(path: string, room: nat) { |path| + 1 <= room }

  /** The path of a directory always fits; the path of a file fits only if the file has no name. */
  lemma RoomForPaths(name: string, file: string)
    ensures HasRoom(DirectoryPath(name), DirectoryRoom(name))
    ensures HasRoom(FilePath(name, file), FileRoom(name)) <==> file == ""
  {
    assert |USERS_DIRECTORY| == 7;
  }

  /** Creates an empty user directory; fails if there is one already. */
  function MakeDirectory(users: Users, name: Name, env: Env): (Users, bool) {
    if env.storable && name !in users then (users[name := map[]], true) else (users, false)
  }

  /** Unlinks file after file, then the directory; stops at the first failure. */
  function RemoveDirectory(users: Users, name: Name, env: Env): (Users, bool) {
    if name !in users || !env.openable then (users, false)
    else if env.storable then (users - {name}, true)
    else (users[name := users[name] - env.unlinked], false)
  }

  /** What a write leaves of a description. */
  function Stored(description: string, env: Env): string {
    match env.written
    case None => ""
    case Some(n) => if n < |description| then description[..n] else description
  }

  /** Creates the file and writes the description; a failed write leaves an empty file. */
  function StoreFile(users: Users, name: Name, file: Name, description: string, env: Env): (Users, bool) {
    if !env.storable || name !in users then (users, false)
    else (users[name := users[name][file := Stored(description, env)]], env.written.Some?)
  }

  function RemoveFile(users: Users, name: Name, file: Name, env: Env): (Users, bool) {
    if env.storable && name in users && file in users[name] then (users[name := users[name] - {file}], true)
    else (users, false)
  }

  // ---------- one request, served alone ----------

  function SocketStep(s: State, req: Request, env: Env): (State, int) {
    var registered := Registered(s.users, req.name, env);
    match req
    case Register(name) =>
      if registered == 0 then
        var (users, ok) := MakeDirectory(s.users, name, env);
        (s.(users := users), if ok then SUCCESS else OTHER_ERROR_2)
      else (s, if registered == 1 then USER_REGISTERED else OTHER_ERROR_2)
    case Unregister(name) =>
      if registered == 1 then
        var (users, ok) := RemoveDirectory(s.users, name, env);
        if ok then (State(users, WithoutFirst(s.connected, name)), SUCCESS)
        else (s.(users := users), OTHER_ERROR_2)
      else (s, if registered == 0 then USER_NOT_REGISTERED else OTHER_ERROR_2)
    case Connect(name, port) =>
      if registered == 1 then
        if IsConnected(s.connected, name) then (s, USER_CONNECTED)
        else if env.address.None? then (s, OTHER_ERROR_3)
        else (s.(connected := s.connected + [Peer(name, port, env.address.value)]), SUCCESS)
      else (s, if registered == 0 then USER_NOT_REGISTERED else OTHER_ERROR_3)
    case Disconnect(name) =>
      if registered == 1 then
        if IsConnected(s.connected, name) then (s.(connected := WithoutFirst(s.connected, name)), SUCCESS)
        else (s, USER_NOT_CONNECTED)
      else (s, if registered == 0 then USER_NOT_REGISTERED else OTHER_ERROR_3)
    case Publish(name, file, description) =>
      if registered == 1 then
        if !IsConnected(s.connected, name) then (s, USER_NOT_CONNECTED)
        else if FileExists(s.users, name, file, env) == 0 then
          var (users, ok) := StoreFile(s.users, name, file, description, env);
          (s.(users := users), if ok then SUCCESS else OTHER_ERROR_4)
        else (s, if FileExists(s.users, name, file, env) == 1 then FILE_PUBLISHED else OTHER_ERROR_4)
      else (s, USER_NOT_REGISTERED)
    case Delete(name, file) =>
      if FileExists(s.users, name, file, env) == 1 then
        var (users, ok) := RemoveFile(s.users, name, file, env);
        (s.(users := users), if ok then SUCCESS else OTHER_ERROR_4)
      else (s, if FileExists(s.users, name, file, env) == 0 then FILE_NOT_PUBLISHED else OTHER_ERROR_4)
  }

  /**
    Here -1 counts as "yes", as any nonzero integer does in C, and the address is
    needed before anything else is looked at.
  */
  function RpcStep(s: State, req: Request, env: Env): (State, int) {
    var registered := Registered(s.users, req.name, env) != 0;
    match req
    case Register(name) =>
      if registered then (s, 1)
      else
        var (users, ok) := MakeDirectory(s.users, name, env);
        (s.(users := users), if ok then 0 else 2)
    case Unregister(name) =>
      if !registered then (s, 1)
      else
        var (users, ok) := RemoveDirectory(s.users, name, env);
        if ok then (State(users, WithoutFirst(s.connected, name)), 0) else (s.(users := users), 2)
    case Connect(name, port) =>
      if env.address.None? then (s, 3)
      else if !registered then (s, 1)
      else if IsConnected(s.connected, name) then (s, 2)
      else (s.(connected := s.connected + [Peer(name, port, env.address.value)]), 0)
    case Disconnect(name) =>
      if !registered then (s, 1)
      else if !IsConnected(s.connected, name) then (s, 2)
      else (s.(connected := WithoutFirst(s.connected, name)), 0)
    case Publish(name, file, description) =>
      if !registered then (s, 1)
      else if !IsConnected(s.connected, name) then (s, 2)
      else if FileExists(s.users, name, file, env) != 0 then (s, 3)
      else
        var (users, ok) := StoreFile(s.users, name, file, description, env);
        (s.(users := users), if ok then 0 else 4)
    case Delete(name, file) =>
      if FileExists(s.users, name, file, env) == 0 then (s, 3)
      else
        var (users, ok) := RemoveFile(s.users, name, file, env);
        (s.(users := users), if ok then 0 else 4)
  }

  function Step(server: Server, s: State, req: Request, env: Env): (State, int) {
    if server.Socket? then SocketStep(s, req, env) else RpcStep(s, req, env)
  }

  // ---------- the two servers agree ----------

  /** Do the two servers treat the request alike in these surroundings? */
  predicate Alike(s: State, req: Request, env: Env) {
    var known := req.name in s.users;
    match req
    case Register(_) => env.listable
    case Unregister(name) =>
      env.listable || !known || !env.openable || (!env.storable && env.unlinked !! s.users[name].Keys)
    case Connect(name, _) =>
      if env.address.Some? then env.listable
      else env.listable ==> known && !IsConnected(s.connected, name)
    case Disconnect(_) => env.listable
    case Publish(name, _, _) => env.listable && (env.openable || !known || !IsConnected(s.connected, name))
    case Delete(name, file) => env.openable || !env.storable || !known || file !in s.users[name]
  }

  lemma PartialRemovals(users: Users, name: string, gone: set<string>)
    requires name in users
    ensures users[name := users[name] - gone] == users <==> gone !! users[name].Keys
  {
    var files := users[name];
    if users[name := files - gone] == users {
      assert files - gone == files;
      forall f | f in gone ensures f !in files {
        assert f !in files - gone;
      }
    } else {
      assert files - gone != files;
    }
  }

  /**
    From the same state the two servers give the same reply and the same new
    state in exactly these surroundings.
  */
  lemma ServersAgree(s: State, req: Request, env: Env)
    ensures SocketStep(s, req, env) == RpcStep(s, req, env) <==> Alike(s, req, env)
  {
    if req.Unregister? && req.name in s.users {
      PartialRemovals(s.users, req.name, env.unlinked);
    }
  }

  /** Nothing about directories or addresses goes wrong. */
  predicate Readable(env: Env) {
    env.listable && env.openable && env.address.Some?
  }

  const USUAL := Env(true, true, true, {}, Some(255), Some("127.0.0.1"))

  /** With an unreadable directory of its own, a connected user gets two different replies. */
  lemma ServersCanDisagree()
    ensures var s := State(map["a" := map[]], [Peer("a", "1", "127.0.0.1")]);
            var env := USUAL.(openable := false);
            && SocketStep(s, Publish("a", "f", "d"), env) == (s, 4)
            && RpcStep(s, Publish("a", "f", "d"), env) == (s, 3)
  {
    assert Position([Peer("a", "1", "127.0.0.1")], "a") == 0;
  }

  datatype Visit = Visit(req: Request, env: Env)

  /** The replies to a sequence of requests, and the state they lead to. */
  function Play(server: Server, s: State, visits: seq<Visit>): (State, seq<int>)
    decreases |visits|
  {
    if visits == [] then (s, [])
    else
      var (t, code) := Step(server, s, visits[0].req, visits[0].env);
      var (u, codes) := Play(server, t, visits[1..]);
      (u, [code] + codes)
  }

  /** Every visit meets a state and surroundings in which the servers are alike. */
  ghost predicate AlikeThroughout(s: State, visits: seq<Visit>)
    decreases |visits|
  {
    visits == []
    || (Alike(s, visits[0].req, visits[0].env)
        && AlikeThroughout(Step(Socket, s, visits[0].req, visits[0].env).0, visits[1..]))
  }

  lemma {:induction false} ServersStayEqual(s: State, visits: seq<Visit>)
    requires AlikeThroughout(s, visits)
    ensures Play(Socket, s, visits) == Play(Rpc, s, visits)
    decreases |visits|
  {
    if visits != [] {
      ServersAgree(s, visits[0].req, visits[0].env);
      ServersStayEqual(Step(Socket, s, visits[0].req, visits[0].env).0, visits[1..]);
    }
  }

  // ---------- invariants ----------

  ghost predicate DistinctPeers(c: seq<Peer>) {
    forall i, j :: 0 <= i < j < |c| ==> c[i].name != c[j].name
  }

  /** No two connections under one name, and every connected name is registered. */
  ghost predicate Consistent(s: State) {
    DistinctPeers(s.connected) && forall i :: 0 <= i < |s.connected| ==> s.connected[i].name in s.users
  }

  lemma WithoutFirstRemovesAll(c: seq<Peer>, name: string)
    requires DistinctPeers(c)
    ensures var d := WithoutFirst(c, name);
            && DistinctPeers(d)
            && (forall k :: 0 <= k < |d| ==> d[k] in c && d[k].name != name)
            && (forall k :: 0 <= k < |c| && c[k].name != name ==> c[k] in d)
  {
    var i := Position(c, name);
    if i < |c| {
      var d := Dropped(c, i);
      forall k | 0 <= k < |c| && c[k].name != name ensures c[k] in d {
        assert c[k] == d[if k < i then k else k - 1];
      }
    }
  }

  /** Would an unreadable Users directory make the RPC server connect a stranger? */
  predicate Intrudes(server: Server, s: State, req: Request, env: Env) {
    server.Rpc? && req.Connect? && !env.listable && env.address.Some? && req.name !in s.users
  }

  /** An unreadable Users directory lets a stranger in. */
  lemma StrangerIsAdmitted()
    ensures var s := State(map[], []);
            var (t, code) := RpcStep(s, Connect("a", "1"), USUAL.(listable := false));
            Consistent(s) && code == SUCCESS && t.connected == [Peer("a", "1", "127.0.0.1")] && !Consistent(t)
  {
    var c := [Peer("a", "1", "127.0.0.1")];
    assert [] + c == c && c[0].name !in State(map[], []).users;
  }

  lemma ConnectKeepsDistinct(c: seq<Peer>, p: Peer)
    requires DistinctPeers(c) && !IsConnected(c, p.name)
    ensures DistinctPeers(c + [p])
  {
  }

  lemma ConnectKeepsConsistent(s: State, p: Peer)
    requires Consistent(s)
    ensures if IsConnected(s.connected, p.name) then p.name in s.users
            else Consistent(s.(connected := s.connected + [p])) <==> p.name in s.users
  {
    if IsConnected(s.connected, p.name) {
      assert s.connected[Position(s.connected, p.name)].name in s.users;
    } else {
      ConnectKeepsDistinct(s.connected, p);
      assert (s.connected + [p])[|s.connected|] == p;
    }
  }

  lemma DisconnectKeepsConsistent(s: State, name: Name)
    requires Consistent(s)
    ensures Consistent(s.(connected := WithoutFirst(s.connected, name)))
    ensures Consistent(State(s.users - {name}, WithoutFirst(s.connected, name)))
  {
    WithoutFirstRemovesAll(s.connected, name);
  }

  /** A step keeps the state consistent exactly when it does not admit a stranger. */
  lemma StepKeepsConsistent(server: Server, s: State, req: Request, env: Env)
    requires Consistent(s)
    ensures Consistent(Step(server, s, req, env).0) <==> !Intrudes(server, s, req, env)
  {
    hide DistinctPeers, WithoutFirst, Position;
    match req
    case Connect(name, port) =>
      if env.address.Some? {
        ConnectKeepsConsistent(s, Peer(name, port, env.address.value));
      }
    case Disconnect(name) => DisconnectKeepsConsistent(s, name);
    case Unregister(name) => DisconnectKeepsConsistent(s, name);
    case _ =>
  }

  /** Every sequence of requests keeps the socket server, and a readable RPC server, consistent. */
  lemma {:induction false} PlayKeepsConsistent(server: Server, s: State, visits: seq<Visit>)
    requires Consistent(s)
    requires server.Socket? || forall k :: 0 <= k < |visits| ==> visits[k].env.listable
    ensures Consistent(Play(server, s, visits).0)
    decreases |visits|
  {
    if visits != [] {
      StepKeepsConsistent(server, s, visits[0].req, visits[0].env);
      PlayKeepsConsistent(server, Step(server, s, visits[0].req, visits[0].env).0, visits[1..]);
    }
  }

  // ---------- the registry that both servers stand for ----------

  datatype Link = Link(port: string, ip: string)

  /** All there is to know of one user. */
  datatype Account = Account(files: map<string, string>, link: Option<Link>)

  type Registry = map<string, Account>

  /** What a request does to the account it names; nothing depends on the order of connections. */
  function Ask(reg: Registry, req: Request, env: Env): (Registry, int)
    requires Readable(env)
  {
    var name := req.name;
    match req
    case Register(_) =>
      if name in reg then (reg, 1)
      else if env.storable then (reg[name := Account(map[], None)], 0)
      else (reg, 2)
    case Unregister(_) =>
      if name !in reg then (reg, 1)
      else if env.storable then (reg - {name}, 0)
      else (reg[name := reg[name].(files := reg[name].files - env.unlinked)], 2)
    case Connect(_, port) =>
      if name !in reg then (reg, 1)
      else if reg[name].link.Some? then (reg, 2)
      else (reg[name := reg[name].(link := Some(Link(port, env.address.value)))], 0)
    case Disconnect(_) =>
      if name !in reg then (reg, 1)
      else if reg[name].link.None? then (reg, 2)
      else (reg[name := reg[name].(link := None)], 0)
    case Publish(_, file, description) =>
      if name !in reg then (reg, 1)
      else if reg[name].link.None? then (reg, 2)
      else if file in reg[name].files then (reg, 3)
      else if !env.storable then (reg, 4)
      else (reg[name := reg[name].(files := reg[name].files[file := Stored(description, env)])],
            if env.written.Some? then 0 else 4)
    case Delete(_, file) =>
      if name !in reg then (reg, 4)
      else if file !in reg[name].files then (reg, 3)
      else if env.storable then (reg[name := reg[name].(files := reg[name].files - {file})], 0)
      else (reg, 4)
  }

  function LinkOf(c: seq<Peer>, name: string): Option<Link> {
    var i := Position(c, name);
    if i < |c| then Some(Link(c[i].port, c[i].ip)) else None
  }

  function RegistryOf(s: State): Registry {
    map name | name in s.users :: Account(s.users[name], LinkOf(s.connected, name))
  }

  lemma LinkAdded(c: seq<Peer>, p: Peer, name: string)
    requires !IsConnected(c, p.name)
    ensures LinkOf(c + [p], name) == if name == p.name then Some(Link(p.port, p.ip)) else LinkOf(c, name)
  {
    var i := if name == p.name then |c| else if IsConnected(c, name) then Position(c, name) else |c| + 1;
    PositionIs(c + [p], name, i);
  }

  lemma LinkDropped(c: seq<Peer>, gone: string, name: string)
    requires DistinctPeers(c)
    ensures LinkOf(WithoutFirst(c, gone), name) == if name == gone then None else LinkOf(c, name)
  {
    hide Position;
    WithoutFirstRemovesAll(c, gone);
    var d, i, k := WithoutFirst(c, gone), Position(c, gone), Position(c, name);
    if name != gone && i < |c| {
      PositionIs(d, name, if k > i then k - 1 else k);
    }
  }

  lemma DroppedFromRegistry(s: State, users: Users, name: Name)
    requires Consistent(s)
    ensures forall n :: n in users ==>
      RegistryOf(State(users, WithoutFirst(s.connected, name)))[n]
        == Account(users[n], if n == name then None else LinkOf(s.connected, n))
  {
    forall n | n in users ensures RegistryOf(State(users, WithoutFirst(s.connected, name)))[n]
        == Account(users[n], if n == name then None else LinkOf(s.connected, n)) {
      LinkDropped(s.connected, name, n);
    }
  }

  lemma ConnectOnRegistry(s: State, p: Peer)
    requires p.name in s.users && !IsConnected(s.connected, p.name)
    ensures RegistryOf(s.(connected := s.connected + [p]))
         == RegistryOf(s)[p.name := RegistryOf(s)[p.name].(link := Some(Link(p.port, p.ip)))]
  {
    forall n | n in s.users
      ensures LinkOf(s.connected + [p], n) == if n == p.name then Some(Link(p.port, p.ip)) else LinkOf(s.connected, n)
    {
      LinkAdded(s.connected, p, n);
    }
  }

  lemma DisconnectOnRegistry(s: State, name: Name)
    requires Consistent(s) && name in s.users
    ensures RegistryOf(s.(connected := WithoutFirst(s.connected, name)))
         == RegistryOf(s)[name := RegistryOf(s)[name].(link := None)]
    ensures RegistryOf(State(s.users - {name}, WithoutFirst(s.connected, name))) == RegistryOf(s) - {name}
  {
    hide WithoutFirst, LinkOf;
    DroppedFromRegistry(s, s.users, name);
    DroppedFromRegistry(s, s.users - {name}, name);
  }

  lemma FilesOnRegistry(s: State, name: Name, files: map<string, string>)
    requires name in s.users
    ensures RegistryOf(s.(users := s.users[name := files]))
         == RegistryOf(s)[name := RegistryOf(s)[name].(files := files)]
  {
  }

  lemma RegisterOnRegistry(s: State, name: Name)
    requires Consistent(s) && name !in s.users
    ensures RegistryOf(s.(users := s.users[name := map[]])) == RegistryOf(s)[name := Account(map[], None)]
  {
  }

  /** Both servers, at every consistent state, are the registry. */
  lemma StepIsAsked(server: Server, s: State, req: Request, env: Env)
    requires Consistent(s) && Readable(env)
    ensures var (t, code) := Step(server, s, req, env);
            Consistent(t) && (RegistryOf(t), code) == Ask(RegistryOf(s), req, env)
  {
    StepKeepsConsistent(server, s, req, env);
    AskedByCases(s, req, env);
    ServersAgree(s, req, env);
  }

  lemma AskedByCases(s: State, req: Request, env: Env)
    requires Consistent(s) && Readable(env)
    ensures var (t, code) := SocketStep(s, req, env); (RegistryOf(t), code) == Ask(RegistryOf(s), req, env)
  {
    hide WithoutFirst, Consistent;
    var name := req.name;
    if name in s.users {
      match req
      case Unregister(_) =>
        DisconnectOnRegistry(s, name);
        FilesOnRegistry(s, name, s.users[name] - env.unlinked);
      case Connect(_, port) =>
        if !IsConnected(s.connected, name) {
          ConnectOnRegistry(s, Peer(name, port, env.address.value));
        }
      case Disconnect(_) => DisconnectOnRegistry(s, name);
      case Publish(_, file, description) =>
        FilesOnRegistry(s, name, s.users[name][file := Stored(description, env)]);
      case Delete(_, file) => FilesOnRegistry(s, name, s.users[name] - {file});
      case _ =>
    } else if req.Register? {
      RegisterOnRegistry(s, name);
    }
  }

  /** The replies of the registry to a sequence of requests. */
  function AskAll(reg: Registry, visits: seq<Visit>): (Registry, seq<int>)
    requires forall k :: 0 <= k < |visits| ==> Readable(visits[k].env)
    decreases |visits|
  {
    if visits == [] then (reg, [])
    else
      var (next, code) := Ask(reg, visits[0].req, visits[0].env);
      var (last, codes) := AskAll(next, visits[1..]);
      (last, [code] + codes)
  }

  /** Every sequence of requests gets from either server what the registry answers. */
  lemma {:induction false} ServersRefineRegistry(server: Server, s: State, visits: seq<Visit>)
    requires Consistent(s) && forall k :: 0 <= k < |visits| ==> Readable(visits[k].env)
    ensures var (t, codes) := Play(server, s, visits);
            Consistent(t) && (RegistryOf(t), codes) == AskAll(RegistryOf(s), visits)
    decreases |visits|
  {
    if visits != [] {
      StepIsAsked(server, s, visits[0].req, visits[0].env);
      ServersRefineRegistry(server, Step(server, s, visits[0].req, visits[0].env).0, visits[1..]);
    }
  }

  /** Leaving removes every trace of the connection, although only the first match is unlinked. */
  lemma LeavingIsComplete(server: Server, s: State, req: Request, env: Env)
    requires Consistent(s) && (req.Disconnect? || req.Unregister?)
    requires Step(server, s, req, env).1 == SUCCESS
    ensures var t := Step(server, s, req, env).0;
            && !IsConnected(t.connected, req.name)
            && (req.Unregister? ==> req.name !in t.users)
            && (forall p :: p in s.connected && p.name != req.name ==> p in t.connected)
  {
    WithoutFirstRemovesAll(s.connected, req.name);
  }

  // ---------- what a reply tells ----------

  predicate Healthy(env: Env) {
    Readable(env) && env.storable && env.written.Some?
  }

  /** The reply that the interface documents when nothing goes wrong around it. */
  function Documented(s: State, req: Request): int {
    match req
    case Register(name) => if name in s.users then 1 else 0
    case Unregister(name) => if name !in s.users then 1 else 0
    case Connect(name, _) => if name !in s.users then 1 else if IsConnected(s.connected, name) then 2 else 0
    case Disconnect(name) => if name !in s.users then 1 else if !IsConnected(s.connected, name) then 2 else 0
    case Publish(name, file, _) =>
      if name !in s.users then 1 else if !IsConnected(s.connected, name) then 2
      else if file in s.users[name] then 3 else 0
    case Delete(name, file) =>
      if name !in s.users then 1 else if !IsConnected(s.connected, name) then 2
      else if file !in s.users[name] then 3 else 0
  }

  /**
    Every reply is the documented one, except that a deletion asks for neither a
    registration nor a connection: it differs exactly for a stranger and for a
    disconnected user.
  */
  lemma RepliesAsDocumented(server: Server, s: State, req: Request, env: Env)
    requires Healthy(env)
    ensures Step(server, s, req, env).1 == Documented(s, req) <==>
      !req.Delete? || (req.name in s.users && IsConnected(s.connected, req.name))
  {
  }

  /** A disconnected user's file is deleted, where the reply "not connected" is documented. */
  lemma DeletionAsksForNoConnection(server: Server)
    ensures var s := State(map["a" := map["f" := "d"]], []);
            && Step(server, s, Delete("a", "f"), USUAL) == (s.(users := map["a" := map[]]), SUCCESS)
            && Documented(s, Delete("a", "f")) == USER_NOT_CONNECTED
  {
    var users := map["a" := map["f" := "d"]];
    assert map["f" := "d"] - {"f"} == map[] && users["a" := map[]] == map["a" := map[]];
  }

  /** Will the request fail half-way: a new file without its text, or a directory partly emptied? */
  predicate LeavesDebris(server: Server, s: State, req: Request, env: Env) {
    && (server.Rpc? || env.listable) && env.openable && req.name in s.users
    && match req
       case Publish(name, file, _) =>
         env.storable && env.written.None? && IsConnected(s.connected, name) && file !in s.users[name]
       case Unregister(name) => !env.storable && !(env.unlinked !! s.users[name].Keys)
       case _ => false
  }

  /** A request that fails changes the state exactly when it fails half-way. */
  lemma FailureChangesNothing(server: Server, s: State, req: Request, env: Env)
    ensures var (t, code) := Step(server, s, req, env);
            code != SUCCESS && t != s <==> LeavesDebris(server, s, req, env)
  {
    if req.Unregister? && req.name in s.users {
      PartialRemovals(s.users, req.name, env.unlinked);
    }
  }

  /** A removal that fails after the first file. */
  lemma FailureCanUnlink(server: Server)
    ensures var s := State(map["a" := map["f" := "d"]], []);
            Step(server, s, Unregister("a"), USUAL.(storable := false, unlinked := {"f"}))
            == (s.(users := map["a" := map[]]), 2)
  {
    var users := map["a" := map["f" := "d"]];
    assert map["f" := "d"] - {"f"} == map[];
    assert users["a" := map[]] == map["a" := map[]];
  }

  /** A publication that fails after the file was made. */
  lemma FailureCanLeaveAFile(server: Server)
    ensures var s := State(map["a" := map[]], [Peer("a", "1", "127.0.0.1")]);
            Step(server, s, Publish("a", "f", "d"), USUAL.(written := None))
            == (s.(users := map["a" := map["f" := ""]]), 4)
  {
    assert Position([Peer("a", "1", "127.0.0.1")], "a") == 0;
    var files: map<string, string> := map[];
    assert files["f" := ""] == map["f" := ""];
    assert map["a" := files]["a" := map["f" := ""]] == map["a" := map["f" := ""]];
  }

  /** The request that takes back a successful one. */
  function Undo(req: Request): Option<Request> {
    match req
    case Register(name) => Some(Unregister(name))
    case Connect(name, _) => Some(Disconnect(name))
    case Publish(name, file, _) => Some(Delete(name, file))
    case _ => None
  }

  /** Registering, connecting and publishing are undone by their counterparts, without a trace. */
  lemma SuccessIsUndone(server: Server, s: State, req: Request, env: Env, later: Env)
    requires Consistent(s) && Undo(req).Some? && Healthy(later)
    requires Step(server, s, req, env).1 == SUCCESS && !Intrudes(server, s, req, env)
    ensures Step(server, Step(server, s, req, env).0, Undo(req).value, later) == (s, SUCCESS)
  {
    hide WithoutFirst, Position, Consistent;
    match req
    case Register(name) =>
      AbsentIsKept(s, name);
      assert s.users[name := map[]] - {name} == s.users;
    case Connect(name, port) =>
      LastIsDropped(s.connected, Peer(name, port, env.address.value));
    case Publish(name, file, description) =>
      var text := Stored(description, env);
      assert s.users[name][file := text] - {file} == s.users[name];
      assert s.users[name := s.users[name][file := text]][name := s.users[name]] == s.users;
    case _ =>
  }

  lemma AbsentIsKept(s: State, name: Name)
    requires Consistent(s) && name !in s.users
    ensures WithoutFirst(s.connected, name) == s.connected
  {
  }

  lemma LastIsDropped(c: seq<Peer>, p: Peer)
    requires !IsConnected(c, p.name)
    ensures IsConnected(c + [p], p.name) && WithoutFirst(c + [p], p.name) == c
  {
    PositionIs(c + [p], p.name, |c|);
  }

  /** The replies when the Users directory cannot be opened; a deletion does not need it. */
  lemma UnreadableReplies(s: State, req: Request, env: Env)
    requires !env.listable && !req.Delete?
    ensures SocketStep(s, req, env) ==
      (s, if req.Publish? then 1 else if req.Register? || req.Unregister? then 2 else 3)
    ensures req.Register? ==> RpcStep(s, req, env) == (s, 1)
    ensures req.Unregister? ==>
      RpcStep(s, req, env).1 == (if req.name in s.users && env.openable && env.storable then 0 else 2)
    ensures req.Connect? ==>
      RpcStep(s, req, env).1 ==
        (if env.address.None? then 3 else if IsConnected(s.connected, req.name) then 2 else 0)
    ensures req.Disconnect? || req.Publish? ==>
      (RpcStep(s, req, env) == (s, 2) <==> !IsConnected(s.connected, req.name))
  {
  }

  /** The replies when the user's own directory cannot be opened. */
  lemma UnopenableReplies(s: State, req: Request, env: Env)
    requires env.listable && !env.openable && req.name in s.users
    ensures req.Unregister? ==> SocketStep(s, req, env) == RpcStep(s, req, env) == (s, 2)
    ensures req.Publish? && IsConnected(s.connected, req.name) ==>
      && SocketStep(s, req, env) == (s, 4) && RpcStep(s, req, env) == (s, 3)
    ensures req.Delete? ==> SocketStep(s, req, env) == (s, 4)
    ensures req.Delete? ==>
      RpcStep(s, req, env).1 == (if env.storable && req.file in s.users[req.name] then 0 else 4)
  {
  }

  /** Without an address nobody is connected; the RPC server says so before it looks the user up. */
  lemma AddressIsNeeded(s: State, name: Name, port: string, env: Env)
    requires env.address.None?
    ensures RpcStep(s, Connect(name, port), env) == (s, 3)
    ensures env.listable ==>
      SocketStep(s, Connect(name, port), env)
      == (s, if name !in s.users then 1 else if IsConnected(s.connected, name) then 2 else 3)
  {
  }

  // ---------- what a success leaves behind ----------

  /** A publication that succeeds stores as much of its description as was written. */
  lemma PublishedTextIsKept(server: Server, s: State, name: Name, file: Name, description: string, env: Env)
    requires Step(server, s, Publish(name, file, description), env).1 == 0
    ensures env.written.Some? && name in s.users && file !in s.users[name]
    ensures var t, n := Step(server, s, Publish(name, file, description), env).0, env.written.value;
            var text := if |description| <= n then description else description[..n];
            t == s.(users := s.users[name := s.users[name][file := text]])
  {
  }

  /** A deletion that succeeds takes the file away, and nothing else. */
  lemma OnlyTheFileIsDeleted(server: Server, s: State, name: Name, file: Name, env: Env)
    requires Step(server, s, Delete(name, file), env).1 == 0
    ensures name in s.users && file in s.users[name]
    ensures Step(server, s, Delete(name, file), env).0 == s.(users := s.users[name := s.users[name] - {file}])
  {
  }

  /** A connection that succeeds is recorded behind all others, with the port sent and the address found. */
  lemma ConnectionIsRecorded(server: Server, s: State, name: Name, port: string, env: Env)
    requires Step(server, s, Connect(name, port), env).1 == 0
    ensures env.address.Some? && forall k :: 0 <= k < |s.connected| ==> s.connected[k].name != name
    ensures Step(server, s, Connect(name, port), env).0
         == s.(connected := s.connected + [Peer(name, port, env.address.value)])
  {
  }

  /** No request touches the files or the connections of other users. */
  lemma OthersAreUntouched(server: Server, s: State, req: Request, env: Env, other: string)
    requires Consistent(s) && other != req.name
    ensures var t := Step(server, s, req, env).0;
            && (other in t.users <==> other in s.users)
            && (other in s.users ==> t.users[other] == s.users[other])
            && LinkOf(t.connected, other) == LinkOf(s.connected, other)
  {
    hide WithoutFirst, LinkOf, Consistent;
    match req
    case Unregister(name) => DroppedLink(s, name, other);
    case Disconnect(name) => DroppedLink(s, name, other);
    case Connect(name, port) =>
      if !IsConnected(s.connected, name) && env.address.Some? {
        LinkAdded(s.connected, Peer(name, port, env.address.value), other);
      }
    case _ =>
  }

  lemma DroppedLink(s: State, gone: string, other: string)
    requires Consistent(s) && other != gone
    ensures LinkOf(WithoutFirst(s.connected, gone), other) == LinkOf(s.connected, other)
  {
    LinkDropped(s.connected, gone, other);
  }

  // ---------- where published content comes from ----------

  /** A request that starts or ends the registration of `name`. */
  predicate Resets(req: Request, code: int, name: string) {
    code == SUCCESS && (req.Register? || req.Unregister?) && req.name == name
  }

  ghost predicate Has(s: State, name: string, file: string, text: string) {
    name in s.users && file in s.users[name] && s.users[name][file] == text
  }

  predicate Publishes(v: Visit, name: string, file: string, text: string) {
    v.req.Publish? && v.req.name == name && v.req.file == file && text == Stored(v.req.description, v.env)
  }

  lemma StepOrigin(server: Server, s: State, v: Visit, name: string, file: string, text: string)
    requires Has(Step(server, s, v.req, v.env).0, name, file, text)
    ensures Publishes(v, name, file, text) || Has(s, name, file, text)
    ensures !Resets(v.req, Step(server, s, v.req, v.env).1, name)
  {
    hide WithoutFirst, Position;
  }

  /**
    No published content outlives its registration: whatever a user has at the
    end was stored by visit k, or was there at the start (k == -1), and the
    user was neither registered nor unregistered since.
  */
  lemma {:induction false} ContentOrigin(server: Server, s: State, visits: seq<Visit>,
                                         name: string, file: string, text: string) returns (k: int)
    requires Has(Play(server, s, visits).0, name, file, text)
    ensures var codes := Play(server, s, visits).1;
            && -1 <= k < |visits| == |codes|
            && (if k == -1 then Has(s, name, file, text) else Publishes(visits[k], name, file, text))
            && forall j :: k < j < |visits| ==> !Resets(visits[j].req, codes[j], name)
    decreases |visits|
  {
    if visits == [] {
      return -1;
    }
    var t := Step(server, s, visits[0].req, visits[0].env).0;
    var later := ContentOrigin(server, t, visits[1..], name, file, text);
    if later >= 0 {
      return later + 1;
    }
    StepOrigin(server, s, visits[0], name, file, text);
    k := if Publishes(visits[0], name, file, text) then 0 else -1;
  }

  /** Registering again starts from an empty directory. */
  lemma RegistrationStartsEmpty(server: Server, s: State, name: Name, env: Env)
    requires Step(server, s, Register(name), env).1 == SUCCESS
    ensures name !in s.users && Step(server, s, Register(name), env).0 == s.(users := s.users[name := map[]])
  {
  }
}
