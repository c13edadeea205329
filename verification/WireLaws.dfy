/**
  What each command does to a server, from the characters that a client sends to
  the step that is taken and the integer that is sent back.
*/
module WireLaws {
  import opened Wrappers
  import opened PeerRegistry
  import opened Framing
  import opened RegistryService

  /** What arrives of an argument: 255 characters at most. */
  function Cut(x: string): string { if |x| <= 255 then x else x[..255] }

  /** One-byte characters without NUL or newline, as far as they are sent. */
  predicate Sendable(x: string) {
    forall k :: 0 <= k < |x| && k < 255 ==> 0 < x[k] as int < 256 && x[k] as int != 10
  }

  /** An argument as a client sends it. */
  function Field(x: string): seq<byte> { Bytes(Cut(x)) + [0] }

  function Fields(xs: seq<string>): seq<byte> {
    if xs == [] then [] else Field(xs[0]) + Fields(xs[1..])
  }

  /** The stream carries the command and the arguments, and then anything. */
  ghost predicate Carries(incoming: seq<Read>, command: string, xs: seq<string>, more: seq<byte>) {
    && Reliable(incoming) && Payload(incoming) == Bytes(command) + [0] + (Fields(xs) + more)
    && forall k :: 0 <= k < |xs| ==> Sendable(xs[k])
  }

  lemma FieldArrives(x: string)
    requires Sendable(x)
    ensures Encode(Bytes(x)) == Field(x) && Clean(Bytes(x)) && Text(Truncated(Bytes(x))) == Cut(x)
  {
    var b := Bytes(x);
    assert Truncated(b) == Bytes(Cut(x));
    forall k | 0 <= k < |Truncated(b)| ensures !Ends(Truncated(b)[k]) && Text(Truncated(b))[k] == Cut(x)[k] {
      assert 0 < x[k] as int < 256;
    }
  }

  function AllBytes(xs: seq<string>): (fields: seq<seq<byte>>)
    ensures |fields| == |xs| && forall k :: 0 <= k < |xs| ==> fields[k] == Bytes(xs[k])
  {
    seq(|xs|, k requires 0 <= k < |xs| => Bytes(xs[k]))
  }

  lemma {:induction false} FieldsAreEncoded(xs: seq<string>)
    requires forall k :: 0 <= k < |xs| ==> Sendable(xs[k])
    ensures Encodings(AllBytes(xs)) == Fields(xs) && forall k :: 0 <= k < |xs| ==> Clean(AllBytes(xs)[k])
    decreases |xs|
  {
    hide Sendable, Clean, Encode, Field;
    if xs != [] {
      FieldArrives(xs[0]);
      FieldsAreEncoded(xs[1..]);
      assert AllBytes(xs)[1..] == AllBytes(xs[1..]);
    }
  }

  lemma CommandIsSent(incoming: seq<Read>, op: Operation, xs: seq<string>, more: seq<byte>)
    requires Carries(incoming, Command(op), xs, more) && |xs| == |FieldSizes(op)|
    ensures Sent(incoming, op, AllBytes(xs), more)
  {
    hide Fields, Encodings, Clean, Sendable;
    FieldsAreEncoded(xs);
    CommandIsSelected(op);
    CapitalsArrive(Command(op));
    assert Encode(Bytes(Command(op))) == Bytes(Command(op)) + [0];
  }

  /** The request that the server makes of the arguments it received. */
  lemma RequestIsRead(server: Server, s: State, incoming: seq<Read>, op: Operation, xs: seq<string>, more: seq<byte>,
                      env: Env)
    requires Carries(incoming, Command(op), xs, more) && |xs| == |FieldSizes(op)|
    requires Fitting(op, Arrivals(op, AllBytes(xs)))
    ensures ProperConnection(incoming)
    ensures var (t, code) := Step(server, s, RequestOf(op, Arrivals(op, AllBytes(xs))), env);
            Answered(server, s, incoming, env) == (t, Some(code))
  {
    hide Carries, Step, RequestOf, Fitting, Arrivals, Sent;
    CommandIsSent(incoming, op, xs, more);
    RequestArrives(incoming, op, AllBytes(xs), more);
  }

  lemma ArgumentIsRead(op: Operation, xs: seq<string>, k: nat)
    requires |xs| == |FieldSizes(op)| && k < |xs| && Sendable(xs[k]) && FieldSizes(op)[k] == 256
    ensures Text(Arrivals(op, AllBytes(xs))[k]) == Cut(xs[k])
  {
    FieldArrives(xs[k]);
  }

  lemma RegistrationOnTheWire(server: Server, s: State, incoming: seq<Read>, user: string, more: seq<byte>, env: Env)
    requires Carries(incoming, "REGISTER", [user], more) && Ordinary(Cut(user))
    ensures ProperConnection(incoming)
    ensures var (t, code) := Step(server, s, Register(Cut(user)), env);
            Answered(server, s, incoming, env) == (t, Some(code))
  {
    hide Carries, Step, Answered, ProperConnection, Arrivals, AllBytes;
    assert Sendable([user][0]) by { SentIsSendable(incoming, "REGISTER", [user], more); }
    ArgumentIsRead(Registering, [user], 0);
    RequestIsRead(server, s, incoming, Registering, [user], more, env);
  }

  lemma UnregistrationOnTheWire(server: Server, s: State, incoming: seq<Read>, user: string, more: seq<byte>, env: Env)
    requires Carries(incoming, "UNREGISTER", [user], more) && Ordinary(Cut(user))
    ensures ProperConnection(incoming)
    ensures var (t, code) := Step(server, s, Unregister(Cut(user)), env);
            Answered(server, s, incoming, env) == (t, Some(code))
  {
    hide Carries, Step, Answered, ProperConnection, Arrivals, AllBytes;
    assert Sendable([user][0]) by { SentIsSendable(incoming, "UNREGISTER", [user], more); }
    ArgumentIsRead(Unregistering, [user], 0);
    RequestIsRead(server, s, incoming, Unregistering, [user], more, env);
  }

  lemma DisconnectionOnTheWire(server: Server, s: State, incoming: seq<Read>, user: string, more: seq<byte>, env: Env)
    requires Carries(incoming, "DISCONNECT", [user], more) && Ordinary(Cut(user))
    ensures ProperConnection(incoming)
    ensures var (t, code) := Step(server, s, Disconnect(Cut(user)), env);
            Answered(server, s, incoming, env) == (t, Some(code))
  {
    hide Carries, Step, Answered, ProperConnection, Arrivals, AllBytes;
    assert Sendable([user][0]) by { SentIsSendable(incoming, "DISCONNECT", [user], more); }
    ArgumentIsRead(Disconnecting, [user], 0);
    RequestIsRead(server, s, incoming, Disconnecting, [user], more, env);
  }

  /** Six characters of the port arrive. */
  lemma ConnectionOnTheWire(server: Server, s: State, incoming: seq<Read>, user: string, port: string, more: seq<byte>,
                            env: Env)
    requires Carries(incoming, "CONNECT", [user, port], more) && Ordinary(Cut(user))
    ensures ProperConnection(incoming)
    ensures var (t, code) := Step(server, s, Connect(Cut(user), if |port| <= 6 then port else port[..6]), env);
            Answered(server, s, incoming, env) == (t, Some(code))
  {
    hide Carries, Step, Answered, ProperConnection;
    var xs := [user, port];
    assert Sendable(xs[0]) && Sendable(xs[1]) by { SentIsSendable(incoming, "CONNECT", xs, more); }
    ArgumentIsRead(Connecting, xs, 0);
    PortIsRead(xs);
    RequestIsRead(server, s, incoming, Connecting, xs, more, env);
  }

  lemma PortIsRead(xs: seq<string>)
    requires |xs| == 2 && Sendable(xs[1])
    ensures Text(Arrivals(Connecting, AllBytes(xs))[1]) == if |xs[1]| <= 6 then xs[1] else xs[1][..6]
  {
    FieldArrives(xs[1]);
    var t := Truncated(Bytes(xs[1]));
    assert Text(Prefix(t, 6)) == if |t| <= 6 then Text(t) else Text(t)[..6];
  }

  lemma PublicationOnTheWire(server: Server, s: State, incoming: seq<Read>, user: string, file: string, text: string,
                             more: seq<byte>, env: Env)
    requires Carries(incoming, "PUBLISH", [user, file, text], more) && Ordinary(Cut(user)) && Ordinary(Cut(file))
    ensures ProperConnection(incoming)
    ensures var (t, code) := Step(server, s, Publish(Cut(user), Cut(file), Cut(text)), env);
            Answered(server, s, incoming, env) == (t, Some(code))
  {
    hide Carries, Step, Answered, ProperConnection, Arrivals, AllBytes;
    var xs := [user, file, text];
    assert Sendable(xs[0]) && Sendable(xs[1]) && Sendable(xs[2]) by { SentIsSendable(incoming, "PUBLISH", xs, more); }
    ArgumentIsRead(Publishing, xs, 0);
    ArgumentIsRead(Publishing, xs, 1);
    ArgumentIsRead(Publishing, xs, 2);
    RequestIsRead(server, s, incoming, Publishing, xs, more, env);
  }

  /** In healthy surroundings the file of a connected user holds the first 255 characters of the text. */
  lemma PublicationIsStored(server: Server, s: State, incoming: seq<Read>, user: string, file: string, text: string,
                            more: seq<byte>, env: Env)
    requires Carries(incoming, "PUBLISH", [user, file, text], more) && Ordinary(Cut(user)) && Ordinary(Cut(file))
    requires Healthy(env) && env.written.value >= 255
    requires Cut(user) in s.users && IsConnected(s.connected, Cut(user)) && Cut(file) !in s.users[Cut(user)]
    ensures ProperConnection(incoming)
    ensures var (t, reply) := Answered(server, s, incoming, env);
            reply == Some(0) && Has(t, Cut(user), Cut(file), if |text| <= 255 then text else text[..255])
  {
    hide Carries, Answered, ProperConnection;
    PublicationOnTheWire(server, s, incoming, user, file, text, more, env);
    RepliesAsDocumented(server, s, Publish(Cut(user), Cut(file), Cut(text)), env);
    PublishedTextIsKept(server, s, Cut(user), Cut(file), Cut(text), env);
  }

  lemma DeletionOnTheWire(server: Server, s: State, incoming: seq<Read>, user: string, file: string, more: seq<byte>,
                          env: Env)
    requires Carries(incoming, "DELETE", [user, file], more) && Ordinary(Cut(user)) && Ordinary(Cut(file))
    ensures ProperConnection(incoming)
    ensures var (t, code) := Step(server, s, Delete(Cut(user), Cut(file)), env);
            Answered(server, s, incoming, env) == (t, Some(code))
  {
    hide Carries, Step, Answered, ProperConnection, Arrivals, AllBytes;
    var xs := [user, file];
    assert Sendable(xs[0]) && Sendable(xs[1]) by { SentIsSendable(incoming, "DELETE", xs, more); }
    ArgumentIsRead(Deleting, xs, 0);
    ArgumentIsRead(Deleting, xs, 1);
    RequestIsRead(server, s, incoming, Deleting, xs, more, env);
  }

  lemma SentIsSendable(incoming: seq<Read>, command: string, xs: seq<string>, more: seq<byte>)
    requires Carries(incoming, command, xs, more)
    ensures forall k :: 0 <= k < |xs| ==> Sendable(xs[k])
  {
  }

  /** How many arguments a command takes. */
  function Arity(command: string): nat {
    if command == "PUBLISH" then 3 else if command == "CONNECT" || command == "DELETE" then 2 else 1
  }

  /** The reply to a command whose arguments do not all arrive; the state stays as it is. */
  lemma ReadErrorsOnTheWire(server: Server, s: State, incoming: seq<Read>, env: Env)
    requires ProperConnection(incoming) && CommandLine(incoming).0.Some?
    requires !Unbroken(CommandLine(incoming).1, Arity(CommandLine(incoming).0.value))
    ensures var command := CommandLine(incoming).0.value;
            Answered(server, s, incoming, env) == (s, Some(
              if command == "REGISTER" || command == "UNREGISTER" then 2
              else if command == "CONNECT" || command == "DISCONNECT" then 3
              else 4))
  {
    hide Unbroken, Lines, NextLine;
    var command := CommandLine(incoming).0.value;
    assert Selected(command).Some? && |FieldSizes(Selected(command).value)| == Arity(command);
    BrokenRequestChangesNothing(server, s, incoming, env);
  }
}
