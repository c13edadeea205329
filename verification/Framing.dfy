/**
  Fields on the wire: the truncating encoder of the client, the truncating line
  reader of the server, and the full-message writer. Characters are single bytes.
*/
module Framing {
  import opened Wrappers

  newtype byte = x: int | 0 <= x < 256

  const MESSAGE_SIZE := 256
  const NUL: byte := 0
  const NEWLINE: byte := 10

  predicate Ends(b: byte): (r: bool)
    ensures r <==> b == 0 || b == 10
  {
    b == NUL || b == NEWLINE
  }

  function Prefix(s: seq<byte>, n: nat): seq<byte> {
    if |s| <= n then s else s[..n]
  }

  // ---------- the encoder ----------

  /** What survives of a field: its first 255 bytes. */
  function Truncated(field: seq<byte>): (t: seq<byte>)
    ensures t == if |field| <= 255 then field else field[..255]
  {
    Prefix(field, MESSAGE_SIZE - 1)
  }

  function Encode(field: seq<byte>): (t: seq<byte>)
    ensures t == Truncated(field) + [0]
  {
    Truncated(field) + [NUL]
  }

  method ParseString(field: seq<byte>) returns (bytes: array<byte>)
    ensures fresh(bytes) && bytes[..] == Encode(field)
  {
    if |field| > MESSAGE_SIZE - 1 {
      var head := field[..MESSAGE_SIZE];
      bytes := new byte[|head|](i requires 0 <= i < |head| => head[i]);
      bytes[MESSAGE_SIZE - 1] := NUL;
    } else {
      var whole := field + [NUL];
      bytes := new byte[|whole|](i requires 0 <= i < |whole| => whole[i]);
    }
  }

  // ---------- the reader ----------

  /** One outcome of reading a single byte; when none is left, the stream is at its end. */
  datatype Read = Byte(b: byte) | Interrupted | Failed

  class Input {
    var incoming: seq<Read>

    constructor (incoming: seq<Read>)
      ensures this.incoming == incoming
    {
      this.incoming := incoming;
    }

    /** 1 and a byte, 0 at the end, or -1 with the reason. */
    method ReadByte() returns (numRead: int, ch: byte, interrupted: bool)
      modifies this
      ensures if old(incoming) == [] then numRead == 0 && incoming == []
              else incoming == old(incoming)[1..] && match old(incoming)[0]
                case Byte(b) => numRead == 1 && ch == b
                case Interrupted => numRead == -1 && interrupted
                case Failed => numRead == -1 && !interrupted
    {
      numRead, ch, interrupted := 0, NUL, false;
      if incoming != [] {
        match incoming[0] {
          case Byte(b) => numRead, ch := 1, b;
          case Interrupted => numRead, interrupted := -1, true;
          case Failed => numRead := -1;
        }
        incoming := incoming[1..];
      }
    }
  }

  /** The text up to the next terminator, `ended` if the stream ended first; Broken at a failure. */
  datatype Line = Line(text: seq<byte>, rest: seq<Read>, ended: bool) | Broken(rest: seq<Read>)

  function NextLine(incoming: seq<Read>): Line {
    if incoming == [] then Line([], [], true)
    else match incoming[0]
      case Failed => Broken(incoming[1..])
      case Interrupted => NextLine(incoming[1..])
      case Byte(b) =>
        if Ends(b) then Line([], incoming[1..], false)
        else match NextLine(incoming[1..])
          case Line(text, rest, ended) => Line([b] + text, rest, ended)
          case Broken(rest) => Broken(rest)
  }

  /** The line after `seen` bytes of it were read already. */
  function Continue(seen: seq<byte>, line: Line): Line {
    match line
    case Line(text, rest, ended) => Line(seen + text, rest, ended)
    case Broken(rest) => Broken(rest)
  }

  /** What one more read tells about the line. */
  lemma LineAdvances(seen: seq<byte>, incoming: seq<Read>)
    ensures incoming == [] ==> Continue(seen, NextLine(incoming)) == Line(seen, [], true)
    ensures incoming != [] ==>
            var tail := incoming[1..];
            match incoming[0]
            case Failed => Continue(seen, NextLine(incoming)) == Broken(tail)
            case Interrupted => NextLine(incoming) == NextLine(tail)
            case Byte(b) =>
              Continue(seen, NextLine(incoming)) ==
                if Ends(b) then Line(seen, tail, false) else Continue(seen + [b], NextLine(tail))
  {
    if incoming != [] && incoming[0].Byte? && NextLine(incoming[1..]).Line? {
      var b, text := incoming[0].b, NextLine(incoming[1..]).text;
      assert seen + ([b] + text) == seen + [b] + text;
    }
    assert seen + [] == seen;
  }

  lemma PrefixGrows(s: seq<byte>, b: byte, n: nat)
    ensures Prefix(s + [b], n) == if |Prefix(s, n)| < n then Prefix(s, n) + [b] else Prefix(s, n)
  {
  }

  /**
    Reads one line into `buffer`, keeping its first n - 1 bytes and discarding
    the others, so that the stream always stands behind the terminator.
  */
  method ReadLine(fd: Input, buffer: array?<byte>, n: nat) returns (total: int)
    requires buffer != null ==> n <= buffer.Length
    modifies fd, buffer
    ensures n == 0 || buffer == null ==> total == -1 && fd.incoming == old(fd.incoming)
    ensures n > 0 && buffer != null ==>
      match NextLine(old(fd.incoming))
      case Broken(rest) => total == -1 && fd.incoming == rest
      case Line(text, rest, ended) =>
        var kept := Prefix(text, n - 1);
        && fd.incoming == rest && total == |kept|
        && ((ended && kept == []) || (buffer[..total] == kept && buffer[total] == NUL))
        && forall i :: total < i < buffer.Length ==> buffer[i] == old(buffer[i])
  {
    if n <= 0 || buffer == null {
      return -1;
    }
    hide NextLine;
    var totRead := 0;
    ghost var seen: seq<byte> := [];
    ghost var line := NextLine(fd.incoming);
    while true
      invariant line == Continue(seen, NextLine(fd.incoming))
      invariant totRead == |Prefix(seen, n - 1)| && buffer[..totRead] == Prefix(seen, n - 1)
      invariant forall i :: totRead <= i < buffer.Length ==> buffer[i] == old(buffer[i])
      decreases |fd.incoming|
    {
      LineAdvances(seen, fd.incoming);
      var numRead, ch, interrupted := fd.ReadByte();
      if numRead == -1 {
        if interrupted {
          continue;
        }
        return -1;
      } else if numRead == 0 {
        if totRead == 0 {
          return 0;
        }
        break;
      } else {
        if Ends(ch) {
          break;
        }
        PrefixGrows(seen, ch, n - 1);
        seen := seen + [ch];
        if totRead < n - 1 {
          buffer[totRead] := ch;
          totRead := totRead + 1;
        }
      }
    }
    buffer[totRead] := NUL;
    total := totRead;
  }

  // ---------- several fields ----------

  /** The lines of a stream, each cut to its own limit; None if one of them is broken. */
  function Lines(incoming: seq<Read>, limits: seq<nat>): (Option<seq<seq<byte>>>, seq<Read>)
    requires forall k :: 0 <= k < |limits| ==> limits[k] > 0
    decreases |limits|
  {
    if limits == [] then (Some([]), incoming)
    else match NextLine(incoming)
      case Broken(rest) => (None, rest)
      case Line(text, rest, _) =>
        var (more, last) := Lines(rest, limits[1..]);
        (if more.Some? then Some([Prefix(text, limits[0] - 1)] + more.value) else None, last)
  }

  /** None of the first n lines is broken; what fails behind them does not matter. */
  ghost predicate Unbroken(incoming: seq<Read>, n: nat)
    decreases n
  {
    n == 0 || (NextLine(incoming).Line? && Unbroken(NextLine(incoming).rest, n - 1))
  }

  /** All lines arrive exactly when none of them is broken, whatever their limits. */
  lemma {:induction false} LinesArrive(incoming: seq<Read>, limits: seq<nat>)
    requires forall k :: 0 <= k < |limits| ==> limits[k] > 0
    ensures Lines(incoming, limits).0.Some? <==> Unbroken(incoming, |limits|)
    ensures Lines(incoming, limits).0.Some? ==> |Lines(incoming, limits).0.value| == |limits|
    decreases |limits|
  {
    if limits != [] && NextLine(incoming).Line? {
      LinesArrive(NextLine(incoming).rest, limits[1..]);
    }
  }

  /** The bytes of a stream that does not fail, whatever interrupts it. */
  function Payload(incoming: seq<Read>): seq<byte> {
    if incoming == [] then []
    else (if incoming[0].Byte? then [incoming[0].b] else []) + Payload(incoming[1..])
  }

  ghost predicate Reliable(incoming: seq<Read>) {
    forall k :: 0 <= k < |incoming| ==> !incoming[k].Failed?
  }

  function Encodings(fields: seq<seq<byte>>): seq<byte> {
    if fields == [] then [] else Encode(fields[0]) + Encodings(fields[1..])
  }

  /** The part of a field that is sent contains no terminator. */
  ghost predicate Clean(field: seq<byte>) {
    forall k :: 0 <= k < |Truncated(field)| ==> !Ends(Truncated(field)[k])
  }

  /** A line ends at the first terminator among the bytes that arrive. */
  lemma {:induction false} LineIs(incoming: seq<Read>, text: seq<byte>, end: byte, more: seq<byte>)
    requires Reliable(incoming) && Payload(incoming) == text + [end] + more
    requires Ends(end) && forall k :: 0 <= k < |text| ==> !Ends(text[k])
    ensures var line := NextLine(incoming);
            line.Line? && line.text == text && !line.ended && Reliable(line.rest) && Payload(line.rest) == more
    decreases |incoming|
  {
    var tail := incoming[1..];
    match incoming[0]
    case Interrupted => LineIs(tail, text, end, more);
    case Byte(b) =>
      assert Payload(incoming) == [b] + Payload(tail);
      assert b == (text + [end] + more)[0] && Payload(tail) == (text + [end] + more)[1..];
      if text == [] {
        assert (text + [end] + more)[1..] == more;
      } else {
        assert (text + [end] + more)[1..] == text[1..] + [end] + more;
        LineIs(tail, text[1..], end, more);
      }
  }

  /** Reads that do not end a line: interruptions, and bytes other than NUL and newline. */
  ghost predicate Continues(incoming: seq<Read>) {
    forall k :: 0 <= k < |incoming| ==>
      match incoming[k]
      case Byte(b) => b != 0 && b != 10
      case Interrupted => true
      case Failed => false
  }

  /** A failure before the terminator loses the line; the end of the stream closes it. */
  lemma {:induction false} LineIsCutShort(front: seq<Read>, more: seq<Read>)
    requires Continues(front)
    ensures NextLine(front + [Failed] + more) == Broken(more)
    ensures NextLine(front) == Line(Payload(front), [], true)
    decreases |front|
  {
    var all := front + [Failed] + more;
    if front == [] {
      assert all[0] == Failed && all[1..] == more;
    } else {
      assert all[0] == front[0] && all[1..] == front[1..] + [Failed] + more;
      LineIsCutShort(front[1..], more);
    }
  }

  /** A clean field arrives as sent, and the stream stands in front of the next one. */
  lemma CleanFieldArrives(incoming: seq<Read>, field: seq<byte>, more: seq<byte>)
    requires Reliable(incoming) && Payload(incoming) == Encode(field) + more && Clean(field)
    ensures var line := NextLine(incoming);
            && line.Line? && line.text == Truncated(field) && !line.ended
            && Reliable(line.rest) && Payload(line.rest) == more
  {
    LineIs(incoming, Truncated(field), NUL, more);
  }

  /** A field with a terminator among its first 255 bytes is cut there. */
  lemma DirtyFieldIsCut(incoming: seq<Read>, field: seq<byte>, more: seq<byte>)
    requires Reliable(incoming) && Payload(incoming) == Encode(field) + more && !Clean(field)
    ensures var line := NextLine(incoming); line.Line? && |line.text| < |Truncated(field)|
  {
    var t := Truncated(field);
    var k := FirstEnd(t);
    assert t + [NUL] + more == t[..k] + [t[k]] + (t[k + 1..] + [NUL] + more);
    LineIs(incoming, t[..k], t[k], t[k + 1..] + [NUL] + more);
  }

  lemma FirstEnd(t: seq<byte>) returns (k: nat)
    requires exists i :: 0 <= i < |t| && Ends(t[i])
    ensures k < |t| && Ends(t[k]) && forall i :: 0 <= i < k ==> !Ends(t[i])
  {
    k := 0;
    while !Ends(t[k])
      invariant k < |t| && forall i :: 0 <= i < k ==> !Ends(t[i])
      invariant exists i :: k <= i < |t| && Ends(t[i])
      decreases |t| - k
    {
      k := k + 1;
    }
  }

  lemma EncodingsFront(fields: seq<seq<byte>>, more: seq<byte>)
    requires fields != []
    ensures Encodings(fields) + more == Encode(fields[0]) + (Encodings(fields[1..]) + more)
  {
  }

  /** Limits of any size: clean fields stay aligned however the reader cuts them. */
  lemma {:induction false} FieldsStayAligned(incoming: seq<Read>, fields: seq<seq<byte>>, limits: seq<nat>,
                                             more: seq<byte>)
    requires |fields| == |limits| && forall k :: 0 <= k < |limits| ==> limits[k] > 0 && Clean(fields[k])
    requires Reliable(incoming) && Payload(incoming) == Encodings(fields) + more
    ensures var (texts, rest) := Lines(incoming, limits);
            && texts.Some? && |texts.value| == |fields| && Reliable(rest) && Payload(rest) == more
            && forall k :: 0 <= k < |fields| ==> texts.value[k] == Prefix(Truncated(fields[k]), limits[k] - 1)
    decreases |fields|
  {
    hide NextLine, Clean, Reliable, Payload;
    if fields == [] {
      assert Encodings(fields) + more == more;
    } else {
      EncodingsFront(fields, more);
      CleanFieldArrives(incoming, fields[0], Encodings(fields[1..]) + more);
      FieldsStayAligned(NextLine(incoming).rest, fields[1..], limits[1..], more);
    }
  }

  /** The limit every handler uses for names and descriptions. */
  function Limits(n: nat): (l: seq<nat>)
    ensures |l| == n && forall k :: 0 <= k < n ==> l[k] == MESSAGE_SIZE
  {
    seq(n, _ => MESSAGE_SIZE)
  }

  ghost predicate Arrived(incoming: seq<Read>, fields: seq<seq<byte>>, more: seq<byte>) {
    var (texts, rest) := Lines(incoming, Limits(|fields|));
    && texts.Some? && |texts.value| == |fields| && Payload(rest) == more
    && forall k :: 0 <= k < |fields| ==> texts.value[k] == Truncated(fields[k])
  }

  lemma DirtyFieldsDoNotArrive(incoming: seq<Read>, fields: seq<seq<byte>>, more: seq<byte>, k: nat)
    requires k < |fields| && !Clean(fields[k]) && forall j :: 0 <= j < k ==> Clean(fields[j])
    requires Reliable(incoming) && Payload(incoming) == Encodings(fields) + more
    ensures !Arrived(incoming, fields, more)
    decreases k
  {
    EncodingsFront(fields, more);
    var after := Encodings(fields[1..]) + more;
    assert Limits(|fields|)[1..] == Limits(|fields| - 1);
    if k == 0 {
      DirtyFieldIsCut(incoming, fields[0], after);
      var texts := Lines(incoming, Limits(|fields|)).0;
      assert texts.Some? ==> |texts.value[0]| < |Truncated(fields[0])|;
    } else {
      CleanFieldArrives(incoming, fields[0], after);
      DirtyFieldsDoNotArrive(NextLine(incoming).rest, fields[1..], more, k - 1);
      ArrivedTail(incoming, fields, more);
    }
  }

  lemma ArrivedTail(incoming: seq<Read>, fields: seq<seq<byte>>, more: seq<byte>)
    requires fields != [] && NextLine(incoming).Line?
    ensures Arrived(incoming, fields, more) ==> Arrived(NextLine(incoming).rest, fields[1..], more)
  {
    assert Limits(|fields|)[1..] == Limits(|fields| - 1);
    var (texts, last) := Lines(incoming, Limits(|fields|));
    if Arrived(incoming, fields, more) {
      forall j | 0 <= j < |fields[1..]| ensures texts.value[1..][j] == Truncated(fields[1..][j]) {
        assert texts.value[j + 1] == Truncated(fields[j + 1]);
      }
    }
  }

  lemma FirstDirty(fields: seq<seq<byte>>) returns (k: nat)
    requires exists i :: 0 <= i < |fields| && !Clean(fields[i])
    ensures k < |fields| && !Clean(fields[k]) && forall j :: 0 <= j < k ==> Clean(fields[j])
  {
    k := 0;
    while Clean(fields[k])
      invariant k < |fields| && forall i :: 0 <= i < k ==> Clean(fields[i])
      invariant exists i :: k <= i < |fields| && !Clean(fields[i])
      decreases |fields| - k
    {
      k := k + 1;
    }
  }

  /**
    Framing round trip: over a stream that is interrupted at will but does not
    fail, reading as many lines as fields were sent gives the first 255 bytes of
    each field and consumes exactly the fields, if and only if none of them has
    a NUL or a newline among those bytes.
  */
  lemma RoundTrip(incoming: seq<Read>, fields: seq<seq<byte>>, more: seq<byte>)
    requires Reliable(incoming) && Payload(incoming) == Encodings(fields) + more
    ensures Arrived(incoming, fields, more) <==> forall k :: 0 <= k < |fields| ==> Clean(fields[k])
  {
    if forall k :: 0 <= k < |fields| ==> Clean(fields[k]) {
      FieldsStayAligned(incoming, fields, Limits(|fields|), more);
    } else {
      var k := FirstDirty(fields);
      DirtyFieldsDoNotArrive(incoming, fields, more, k);
    }
  }

  /** Reads one line after another, as a handler does; stops at the first failure. */
  method ReadFields(fd: Input, limits: seq<nat>) returns (ok: bool, texts: seq<seq<byte>>)
    requires forall k :: 0 <= k < |limits| ==> limits[k] > 0
    modifies fd
    ensures (if ok then Some(texts) else None, fd.incoming) == Lines(old(fd.incoming), limits)
    ensures ok <==> Unbroken(old(fd.incoming), |limits|)
    ensures ok ==> |texts| == |limits|
    decreases |limits|
  {
    LinesArrive(fd.incoming, limits);
    ghost var before := fd.incoming;
    if limits == [] {
      return true, [];
    }
    var buffer := new byte[limits[0]](_ => NUL);
    var total := ReadLine(fd, buffer, limits[0]);
    if total == -1 {
      return false, [];
    }
    assert buffer[..total] == Prefix(NextLine(before).text, limits[0] - 1);
    var more;
    ok, more := ReadFields(fd, limits[1..]);
    texts := [buffer[..total]] + more;
  }

  // ---------- the writer ----------

  class Output {
    var sent: seq<byte>
    var accepts: seq<int>   // how many bytes the coming writes take; negative: the write fails

    constructor (accepts: seq<int>)
      ensures sent == [] && this.accepts == accepts
    {
      sent, this.accepts := [], accepts;
    }

    /** Takes some of the bytes, or all of them when nothing holds it back. */
    method Write(data: seq<byte>) returns (r: int)
      modifies this
      ensures -1 <= r <= |data| && sent == old(sent) + data[..if r < 0 then 0 else r]
      ensures accepts == (if old(accepts) == [] then [] else old(accepts)[1..])
      ensures old(accepts) == [] ==> r == |data|
      ensures old(accepts) != [] ==> (r == -1 <==> old(accepts)[0] < 0)
    {
      if accepts == [] {
        r := |data|;
      } else {
        var a := accepts[0];
        r := if a < 0 then -1 else if a < |data| then a else |data|;
        accepts := accepts[1..];
      }
      sent := sent + data[..if r < 0 then 0 else r];
    }
  }

  /** Writes the whole message, in as many pieces as it takes. */
  method SendMsg(socket: Output, message: array<byte>, length: nat) returns (result: int)
    requires length <= message.Length
    modifies socket
    ensures result == 0 || result == -1
    ensures result == 0 ==> socket.sent == old(socket.sent) + message[..length]
    ensures result == -1 ==> exists n :: 0 <= n <= length && socket.sent == old(socket.sent) + message[..n]
    ensures (forall k :: 0 <= k < |old(socket.accepts)| ==> old(socket.accepts)[k] >= 0) ==> result == 0
  {
    var r: int := 0;
    var done := 0;          // how far the message pointer has moved
    var l: int := length;   // what is left
    var first := true;
    while first || (l > 0 && r >= 0)
      invariant r >= 0 ==> 0 <= done <= length && l == length - done
      invariant r >= 0 ==> socket.sent == old(socket.sent) + message[..done]
      invariant r < 0 ==> exists n :: 0 <= n <= length && socket.sent == old(socket.sent) + message[..n]
      invariant first ==> r == 0
      invariant |socket.accepts| <= |old(socket.accepts)|
      invariant socket.accepts == old(socket.accepts)[|old(socket.accepts)| - |socket.accepts|..]
      invariant r < 0 ==> exists k :: 0 <= k < |old(socket.accepts)| && old(socket.accepts)[k] < 0
      decreases first, r >= 0, |socket.accepts|, l
    {
      first := false;
      ghost var before := done;
      assert message[done..length][..0] == [];
      r := socket.Write(message[done..done + l]);
      l := l - r;
      done := done + r;
      if r >= 0 {
        assert message[..before] + message[before..length][..r] == message[..done];
      }
    }
    if r < 0 {
      return -1;
    }
    return 0;
  }
}
