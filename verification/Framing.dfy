/** Length-prefixed frames over a stream socket that may move any number of bytes at a time. */
module Framing {
  import opened Bytes
  import opened VarInt

  const FRAME_LIMIT: nat := 4096

  /** What the operating system makes of one send or recv call. */
  datatype Turn = Moves(most: nat) | Interrupted | Broken

  /** A plan of turns under which no call fails for good. */
  predicate Healthy(turns: seq<Turn>) {
    forall k :: 0 <= k < |turns| ==> turns[k] != Broken && turns[k] != Moves(0)
  }

  function Min(a: nat, b: nat): nat {
    if a < b then a else b
  }

  /** A connected socket. `incoming` is what the peer still has sent or will send before it closes. Each call takes
    * the next planned turn; when the plan is used up, calls move all they can. */
  class Socket {
    var incoming: seq<byte>
    var receives: seq<Turn>
    var outgoing: seq<byte>
    var sends: seq<Turn>

    constructor (incoming: seq<byte>, receives: seq<Turn>, sends: seq<Turn>)
      ensures this.incoming == incoming && this.receives == receives && this.sends == sends && outgoing == []
    {
      this.incoming, this.receives, this.sends, outgoing := incoming, receives, sends, [];
    }

    /** recv: at least one byte while there are any; 0 when the peer has closed. */
    method Recv(output: array<byte>, start: nat, size: nat) returns (count: int, interrupted: bool)
      requires 0 < size && start + size <= output.Length
      modifies this`incoming, this`receives, output
      ensures receives == if old(receives) == [] then [] else old(receives)[1..]
      ensures count < 0 ==> old(receives) != [] && interrupted == (old(receives)[0] == Interrupted)
      ensures count < 0 ==> old(receives)[0] in {Interrupted, Broken} && incoming == old(incoming)
      ensures count < 0 ==> output[..] == old(output[..])
      ensures count == 0 ==> incoming == old(incoming) == [] && output[..] == old(output[..])
      ensures count > 0 ==> count <= size && count <= |old(incoming)|
                            && incoming == old(incoming)[count..]
                            && output[start..start + count] == old(incoming)[..count]
      ensures forall i :: 0 <= i < output.Length && !(start <= i < start + size) ==> output[i] == old(output[i])
    {
      var turn := if receives == [] then Moves(size) else receives[0];
      receives := if receives == [] then [] else receives[1..];
      interrupted := turn == Interrupted;
      if turn.Interrupted? || turn.Broken? { return -1, interrupted; }
      if incoming == [] { return 0, false; }
      var n := Min(Min(if turn.most == 0 then 1 else turn.most, size), |incoming|);
      forall i | 0 <= i < n { output[start + i] := incoming[i]; }
      incoming := incoming[n..];
      count := n;
    }

    /** send. */
    method Send(input: array<byte>, start: nat, size: nat) returns (count: int, interrupted: bool)
      requires 0 < size && start + size <= input.Length
      modifies this`outgoing, this`sends
      ensures sends == if old(sends) == [] then [] else old(sends)[1..]
      ensures count <= size
      ensures count < 0 ==> old(sends) != [] && old(sends)[0] in {Interrupted, Broken}
      ensures count < 0 ==> interrupted == (old(sends)[0] == Interrupted)
      ensures count == 0 ==> old(sends) != [] && old(sends)[0] == Moves(0)
      ensures outgoing == old(outgoing) + if count > 0 then input[start..start + count] else []
    {
      var turn := if sends == [] then Moves(size) else sends[0];
      sends := if sends == [] then [] else sends[1..];
      interrupted := turn == Interrupted;
      if turn.Interrupted? || turn.Broken? { return -1, interrupted; }
      count := Min(turn.most, size);
      outgoing := outgoing + input[start..start + count];
    }

    /** read_all: 0 with all the bytes, 1 when the peer closes first, -1 on a broken connection. */
    method ReadAll(output: array<byte>, size: nat) returns (status: int)
      requires size <= output.Length
      modifies this`incoming, this`receives, output
      ensures -1 <= status <= 1
      ensures Healthy(old(receives)) ==> Healthy(receives) && status != -1
      ensures status == 0 ==> size <= |old(incoming)| && incoming == old(incoming)[size..]
                              && output[..size] == old(incoming)[..size]
      ensures status == 1 ==> |old(incoming)| < size && incoming == []
      ensures |incoming| <= |old(incoming)| && incoming == old(incoming)[|old(incoming)| - |incoming|..]
      ensures forall i :: size <= i < output.Length ==> output[i] == old(output[i])
    {
      var done := 0;
      while done < size
        invariant done <= size && done <= |old(incoming)|
        invariant incoming == old(incoming)[done..] && output[..done] == old(incoming)[..done]
        invariant Healthy(old(receives)) ==> Healthy(receives)
        invariant forall i :: size <= i < output.Length ==> output[i] == old(output[i])
        decreases size - done, |receives|
      {
        ghost var before := output[..done];
        var count, interrupted := Recv(output, done, size - done);
        if count == 0 { return 1; }
        if count < 0 {
          if interrupted { continue; }
          return -1;
        }
        assert output[..done] == before;
        assert output[..done + count] == output[..done] + output[done..done + count];
        assert old(incoming)[..done + count] == old(incoming)[..done] + old(incoming)[done..][..count];
        done := done + count;
      }
      status := 0;
    }

    /** write_all: 0 when all was sent, else -1 with some part sent. */
    method WriteAll(input: array<byte>, size: nat) returns (status: int)
      requires size <= input.Length
      modifies this`outgoing, this`sends
      ensures status == 0 || status == -1
      ensures Healthy(old(sends)) ==> Healthy(sends) && status == 0
      ensures status == 0 ==> outgoing == old(outgoing) + input[..size]
      ensures status != 0 ==> old(outgoing) <= outgoing <= old(outgoing) + input[..size]
    {
      var done := 0;
      while done < size
        invariant done <= size
        invariant outgoing == old(outgoing) + input[..done]
        invariant Healthy(old(sends)) ==> Healthy(sends)
        decreases size - done, |sends|
      {
        var count, interrupted := Send(input, done, size - done);
        if count < 0 {
          if interrupted { continue; }
          return -1;
        }
        if count == 0 { return -1; }
        assert input[..done + count] == input[..done] + input[done..done + count];
        done := done + count;
      }
      status := 0;
    }

    /** read_frame. The header is read a byte at a time; its bits accumulate as in decode_varint. */
    method ReadFrame(frame: array<byte>) returns (status: int, size: nat)
      modifies this`incoming, this`receives, frame
      ensures -1 <= status <= 1
      ensures Healthy(old(receives)) ==> Healthy(receives)
      ensures |incoming| <= |old(incoming)|
      ensures status == 0 ==> |incoming| < |old(incoming)| && size <= frame.Length
                              && ParseFrame(old(incoming), frame.Length) == Frame(frame[..size], incoming)
      ensures status == 1 ==> ParseFrame(old(incoming), frame.Length) == Closed && incoming == []
      ensures status == -1 && Healthy(old(receives)) ==>
                ParseFrame(old(incoming), frame.Length) == Refused(incoming)
    {
      ghost var s, turns := incoming, receives;
      var length := 0;
      size := 0;
      var header := new byte[1];
      for index := 0 to 5
        invariant index <= |s| && incoming == s[index..]
        invariant length == Digits(s[..index]) % WORD
        invariant ExtentOf(s, MAX_BYTES) == Later(ExtentOf(s[index..], MAX_BYTES - index), index)
        invariant Healthy(turns) ==> Healthy(receives)
        invariant fresh(header) && header.Length == 1
      {
        status := ReadAll(header, 1);
        if status != 0 {
          if status == 1 { HeaderCutShort(s, index, frame.Length); }
          return;
        }
        var b := header[0];
        assert b == s[index] by { assert header[..1][0] == s[index..][..1][0]; }
        assert incoming == s[index + 1..];
        NextGroup(s, index);
        length := length + (b % 128 * Scale(index)) % WORD;
        if b < 128 {
          BodyFollows(s, index + 1, frame.Length);
          if length > frame.Length { return -1, 0; }
          status := ReadAll(frame, length);
          if status == 0 { size := length; }
          return;
        }
      }
      status := -1;
    }

    /** write_frame: -1 without sending anything when the packet is too large. */
    method WriteFrame(packetId: int, payload: seq<byte>) returns (status: int)
      requires IsInt32(packetId)
      modifies this`outgoing, this`sends
      ensures status == 0 || status == -1
      ensures Healthy(old(sends)) ==> Healthy(sends) && (status == 0 <==> |Packet(packetId, payload)| <= FRAME_LIMIT)
      ensures status == 0 ==> outgoing == old(outgoing) + FrameBytes(packetId, payload)
      ensures |Packet(packetId, payload)| > FRAME_LIMIT ==> status == -1 && outgoing == old(outgoing)
      ensures status != 0 ==> old(outgoing) <= outgoing <= old(outgoing) + FrameBytes(packetId, payload)
    {
      var packet := new byte[FRAME_LIMIT];
      var length := new byte[5];
      var packetSize := EncodeVarint(packet, 0, packetId);
      if |payload| > packet.Length - packetSize { return -1; }
      CopyInto(packet, packetSize, payload);
      packetSize := packetSize + |payload|;
      var lengthSize := EncodeVarint(length, 0, packetSize);
      assert length[..lengthSize] == Encode(packetSize);
      status := WriteAll(length, lengthSize);
      if status == 0 {
        status := WriteAll(packet, packetSize);
      }
    }

    /** wait_for_keep_alive: skips frames of other packets; 0 when the first keep-alive has exactly the expected
      * token. */
    method WaitForKeepAlive(expected: int) returns (status: int)
      modifies this`incoming, this`receives
      ensures status == 0 || status == -1
      ensures Healthy(old(receives)) ==> Healthy(receives)
      ensures status == 0 ==> KeepAlive(old(incoming), expected) == Answered(incoming)
      ensures status == -1 && Healthy(old(receives)) ==> KeepAlive(old(incoming), expected) == NoAnswer
    {
      var frame := new byte[FRAME_LIMIT];
      while true
        invariant Healthy(old(receives)) ==> Healthy(receives)
        invariant KeepAlive(incoming, expected) == KeepAlive(old(incoming), expected)
        invariant fresh(frame) && frame.Length == FRAME_LIMIT
        decreases |incoming|
      {
        var frameStatus, size := ReadFrame(frame);
        if frameStatus != 0 { return -1; }
        var body := frame[..size];
        var ok, offset, packetId := DecodeVarint(body, 0);
        assert body[0..] == body;
        if ok != 0 { return -1; }
        if packetId != 0 { continue; }
        var token;
        ok, offset, token := DecodeVarint(body, offset);
        return if ok == 0 && offset == size && token == expected then 0 else -1;
      }
    }

    /** One message of run_session: a keep-alive with this token, and the wait for its answer. */
    method Exchange(token: int) returns (status: int)
      requires IsInt32(token) && 0 <= token
      modifies this
      ensures status == 0 || status == -1
      ensures Healthy(old(receives)) ==> Healthy(receives)
      ensures Healthy(old(sends)) ==> Healthy(sends)
      ensures status == 0 ==> Appended(old(outgoing), Request(token), outgoing)
                              && KeepAlive(old(incoming), token) == Answered(incoming)
      ensures status == -1 && Healthy(old(receives)) && Healthy(old(sends)) ==>
                KeepAlive(old(incoming), token) == NoAnswer
    {
      var payload := new byte[5];
      var size := EncodeVarint(payload, 0, token);
      RequestFits(token);
      assert payload[..size] == Encode(token);
      status := WriteFrame(0, payload[..size]);
      if status == 0 {
        status := WaitForKeepAlive(token);
      }
    }

    /** The message loop of run_session, after the start gate. */
    method ExchangeKeepAlives(messages: nat) returns (result: int)
      modifies this
      ensures result == 0 || result == -1
      ensures result == 0 ==> Appended(old(outgoing), Requests(messages), outgoing)
                              && Answers(old(incoming), messages) == Answered(incoming)
      ensures Healthy(old(receives)) && Healthy(old(sends)) ==>
                (result == 0 <==> Answers(old(incoming), messages).Answered?)
    {
      ghost var healthy := Healthy(receives) && Healthy(sends);
      ghost var sent, received := outgoing, incoming;
      var index := 0;
      while index < messages
        invariant index <= messages
        invariant Appended(sent, Requests(index), outgoing)
        invariant AnswersTo(received, index, incoming)
        invariant healthy ==> Healthy(receives) && Healthy(sends)
      {
        ghost var before, left := outgoing, incoming;
        var status := Exchange(Token(index));
        AnswersGrow(received, index, left);
        if status != 0 {
          if healthy { NoAnswerStays(received, index + 1, messages); }
          return -1;
        }
        RequestsGrow(sent, index, before, outgoing);
        index := index + 1;
      }
      result := 0;
    }
  }

  /** memcpy behind what is there. */
  method CopyInto(output: array<byte>, start: nat, input: seq<byte>)
    requires start + |input| <= output.Length
    modifies output
    ensures output[..start + |input|] == old(output[..start]) + input
  {
    ghost var before := output[..start];
    forall i | 0 <= i < |input| { output[start + i] := input[i]; }
    ghost var after := output[..start + |input|];
    assert |after| == |before + input|;
    forall k | 0 <= k < |after| ensures after[k] == (before + input)[k] {
      if k >= start { assert output[start + (k - start)] == input[k - start]; }
    }
  }

  /** A packet as write_frame puts it together: its id, then its payload. */
  function Packet(packetId: int, payload: seq<byte>): seq<byte>
    requires IsInt32(packetId)
  {
    Encode(ToUnsigned(packetId)) + payload
  }

  function FrameBytes(packetId: int, payload: seq<byte>): seq<byte>
    requires IsInt32(packetId)
  {
    var packet := Packet(packetId, payload);
    Encode(|packet|) + packet
  }

  /** What one read_frame finds at the front of a stream, and what it leaves there. */
  datatype FrameResult = Frame(body: seq<byte>, rest: seq<byte>) | Closed | Refused(left: seq<byte>)

  function ParseFrame(s: seq<byte>, capacity: nat): (r: FrameResult)
    ensures r.Frame? ==> |r.body| + |r.rest| < |s| && |r.body| <= capacity
  {
    match ExtentOf(s, MAX_BYTES)
    case Truncated => Closed
    case Overlong => Refused(s[Min(MAX_BYTES, |s|)..])
    case Ends(n) =>
      var length := Digits(s[..n]) % WORD;
      if length > capacity then Refused(s[n..])
      else if |s| < n + length then Closed
      else Frame(s[n..n + length], s[n + length..])
  }

  lemma HeaderCutShort(s: seq<byte>, index: nat, capacity: nat)
    requires index < MAX_BYTES && index == |s|
    requires ExtentOf(s, MAX_BYTES) == Later(ExtentOf(s[index..], MAX_BYTES - index), index)
    ensures ParseFrame(s, capacity) == Closed
  {
    assert s[index..] == [];
  }

  lemma BodyFollows(s: seq<byte>, n: nat, capacity: nat)
    requires ExtentOf(s, MAX_BYTES) == Ends(n)
    ensures var length := Digits(s[..n]) % WORD;
            ParseFrame(s, capacity)
            == if length > capacity then Refused(s[n..])
               else if |s[n..]| < length then Closed
               else Frame(s[n..][..length], s[n..][length..])
  {
    var length := Digits(s[..n]) % WORD;
    if |s| >= n + length { Slices(s, n, length); }
  }

  lemma Slices(s: seq<byte>, n: nat, k: nat)
    requires n + k <= |s|
    ensures s[n..][..k] == s[n..n + k] && s[n..][k..] == s[n + k..]
  {}

  lemma Regroup(a: seq<byte>, b: seq<byte>, c: seq<byte>)
    ensures a + b + c == a + (b + c)
  {}

  // Frames come back as they were sent.

  lemma FrameComesBack(packetId: int, payload: seq<byte>, t: seq<byte>, capacity: nat)
    requires IsInt32(packetId) && |Packet(packetId, payload)| <= capacity && |Packet(packetId, payload)| < WORD
    ensures ParseFrame(FrameBytes(packetId, payload) + t, capacity) == Frame(Packet(packetId, payload), t)
  {
    var packet := Packet(packetId, payload);
    var s, header := FrameBytes(packetId, payload) + t, Encode(|packet|);
    assert s == header + (packet + t);
    DecodeInvertsEncode(|packet|, packet + t);
    BodyFollows(s, |header|, capacity);
    assert s[|header|..] == packet + t;
  }

  datatype Sent = Sent(packetId: int, payload: seq<byte>)

  /** What write_frame accepts. */
  predicate Sendable(p: Sent) {
    IsInt32(p.packetId) && |Packet(p.packetId, p.payload)| <= FRAME_LIMIT
  }

  predicate AllSendable(packets: seq<Sent>) {
    forall k :: 0 <= k < |packets| ==> Sendable(packets[k])
  }

  /** Packets that are no keep-alives. */
  predicate AllOthers(packets: seq<Sent>) {
    AllSendable(packets) && forall k :: 0 <= k < |packets| ==> packets[k].packetId != 0
  }

  function Stream(packets: seq<Sent>): seq<byte>
    requires AllSendable(packets)
  {
    if packets == [] then []
    else FrameBytes(packets[0].packetId, packets[0].payload) + Stream(packets[1..])
  }

  function Packets(packets: seq<Sent>): seq<seq<byte>>
    requires AllSendable(packets)
  {
    if packets == [] then [] else [Packet(packets[0].packetId, packets[0].payload)] + Packets(packets[1..])
  }

  /** What read_frame returns when it is called until it fails, and the failure. */
  function ParseFrames(s: seq<byte>, capacity: nat): (seq<seq<byte>>, FrameResult)
    decreases |s|
  {
    var r := ParseFrame(s, capacity);
    if !r.Frame? then ([], r) else
      var (bodies, end) := ParseFrames(r.rest, capacity);
      ([r.body] + bodies, end)
  }

  /** Any packets that write_frame accepts are read back as exactly the same frames in the same order, and then the
    * stream is closed with nothing left over. */
  lemma {:induction false} StreamComesBack(packets: seq<Sent>)
    requires AllSendable(packets)
    ensures ParseFrames(Stream(packets), FRAME_LIMIT) == (Packets(packets), Closed)
  {
    if packets != [] {
      FrameComesBack(packets[0].packetId, packets[0].payload, Stream(packets[1..]), FRAME_LIMIT);
      StreamComesBack(packets[1..]);
    }
  }

  /** Packets sent one after the other. */
  method SendAll(socket: Socket, packets: seq<Sent>)
    requires AllSendable(packets) && Healthy(socket.sends)
    modifies socket`outgoing, socket`sends
    ensures socket.outgoing == old(socket.outgoing) + Stream(packets)
  {
    var k := 0;
    while k < |packets|
      invariant k <= |packets| && Healthy(socket.sends)
      invariant Appended(socket.outgoing, Stream(packets[k..]), old(socket.outgoing) + Stream(packets))
    {
      ghost var before := socket.outgoing;
      var status := socket.WriteFrame(packets[k].packetId, packets[k].payload);
      StreamMoves(packets, k, before, socket.outgoing, old(socket.outgoing) + Stream(packets));
      k := k + 1;
    }
  }

  lemma StreamMoves(packets: seq<Sent>, k: nat, before: seq<byte>, after: seq<byte>, whole: seq<byte>)
    requires AllSendable(packets) && k < |packets| && Appended(before, Stream(packets[k..]), whole)
    requires after == before + FrameBytes(packets[k].packetId, packets[k].payload)
    ensures Appended(after, Stream(packets[k + 1..]), whole)
  {
    assert packets[k..][1..] == packets[k + 1..];
    assert after + Stream(packets[k + 1..])
        == before + (FrameBytes(packets[k].packetId, packets[k].payload) + Stream(packets[k + 1..]));
  }

  /** Frames read until no more comes. */
  method ReceiveAll(socket: Socket) returns (bodies: seq<seq<byte>>, status: int)
    requires Healthy(socket.receives)
    modifies socket`incoming, socket`receives
    ensures bodies == ParseFrames(old(socket.incoming), FRAME_LIMIT).0
    ensures status == if ParseFrames(old(socket.incoming), FRAME_LIMIT).1.Closed? then 1 else -1
  {
    var frame := new byte[FRAME_LIMIT];
    bodies := [];
    assert [] + ParseFrames(socket.incoming, FRAME_LIMIT).0 == ParseFrames(socket.incoming, FRAME_LIMIT).0;
    while true
      invariant fresh(frame) && frame.Length == FRAME_LIMIT && Healthy(socket.receives)
      invariant ParseFrames(old(socket.incoming), FRAME_LIMIT)
             == (bodies + ParseFrames(socket.incoming, FRAME_LIMIT).0, ParseFrames(socket.incoming, FRAME_LIMIT).1)
      decreases |socket.incoming|
    {
      ghost var s := socket.incoming;
      var size;
      status, size := socket.ReadFrame(frame);
      if status != 0 { return; }
      ghost var more := ParseFrames(socket.incoming, FRAME_LIMIT);
      assert ParseFrames(s, FRAME_LIMIT) == ([frame[..size]] + more.0, more.1);
      assert bodies + ([frame[..size]] + more.0) == bodies + [frame[..size]] + more.0;
      bodies := bodies + [frame[..size]];
    }
  }

  /** One end sends, closes, and the other reads: however the bytes are split between calls and whatever calls are
    * interrupted, exactly the same packets arrive in the same order, and then the stream is closed. */
  method Deliver(packets: seq<Sent>, sends: seq<Turn>, receives: seq<Turn>) returns (bodies: seq<seq<byte>>, status: int)
    requires AllSendable(packets) && Healthy(sends) && Healthy(receives)
    ensures bodies == Packets(packets) && status == 1
  {
    var sender := new Socket([], [], sends);
    SendAll(sender, packets);
    var receiver := new Socket(sender.outgoing, receives, []);
    assert sender.outgoing == Stream(packets);
    bodies, status := ReceiveAll(receiver);
    StreamComesBack(packets);
  }

  // Keep-alives.

  datatype Answer = NoAnswer | Answered(rest: seq<byte>)

  /** The verdict on a stream of frames: the first whose id is 0 must hold the token and nothing else. */
  function KeepAlive(s: seq<byte>, expected: int): Answer
    decreases |s|
  {
    var r := ParseFrame(s, FRAME_LIMIT);
    if !r.Frame? then NoAnswer else
      var id := Decode(r.body);
      if id.NotDecoded? then NoAnswer
      else if ToSigned(id.value) != 0 then KeepAlive(r.rest, expected)
      else
        var token := Decode(r.body[id.size..]);
        if token.Decoded? && id.size + token.size == |r.body| && ToSigned(token.value) == expected
        then Answered(r.rest) else NoAnswer
  }

  /** The token of message `index`: index & 0x3fffffff. */
  function Token(index: nat): (token: int)
    ensures IsInt32(token) && 0 <= token
  {
    index % 0x4000_0000
  }

  function Request(token: int): seq<byte>
    requires 0 <= token
  {
    FrameBytes(0, Encode(token))
  }

  function Requests(n: nat): seq<byte> {
    if n == 0 then [] else Requests(n - 1) + Request(Token(n - 1))
  }

  /** The stream after the answers to the first `n` messages. */
  function Answers(s: seq<byte>, n: nat): Answer {
    if n == 0 then Answered(s) else
      var a := Answers(s, n - 1);
      if a.NoAnswer? then NoAnswer else KeepAlive(a.rest, Token(n - 1))
  }

  /** The first `n` answers leave `rest`. */
  ghost predicate AnswersTo(s: seq<byte>, n: nat, rest: seq<byte>) {
    Answers(s, n) == Answered(rest)
  }

  lemma AnswersGrow(s: seq<byte>, n: nat, rest: seq<byte>)
    requires AnswersTo(s, n, rest)
    ensures Answers(s, n + 1) == KeepAlive(rest, Token(n))
  {}

  ghost predicate Appended(before: seq<byte>, s: seq<byte>, after: seq<byte>) {
    after == before + s
  }

  lemma RequestsGrow(sent: seq<byte>, index: nat, before: seq<byte>, after: seq<byte>)
    requires Appended(sent, Requests(index), before) && Appended(before, Request(Token(index)), after)
    ensures Appended(sent, Requests(index + 1), after)
  {
    AppendedBoth(sent, Requests(index), before, Request(Token(index)), after);
  }

  lemma AppendedBoth(before: seq<byte>, a: seq<byte>, between: seq<byte>, b: seq<byte>, after: seq<byte>)
    requires Appended(before, a, between) && Appended(between, b, after)
    ensures Appended(before, a + b, after)
  {
    Regroup(before, a, b);
  }

  lemma {:induction false} NoAnswerStays(s: seq<byte>, k: nat, n: nat)
    requires k <= n && Answers(s, k) == NoAnswer
    ensures Answers(s, n) == NoAnswer
  {
    if k < n { NoAnswerStays(s, k, n - 1); }
  }

  lemma RequestFits(token: nat)
    requires token < WORD
    ensures |Packet(0, Encode(token))| <= FRAME_LIMIT
  {
    EncodeFits(token);
    EncodeFits(0);
  }

  lemma {:induction false} OthersAreSkipped(others: seq<Sent>, s: seq<byte>, expected: int)
    requires AllOthers(others)
    ensures KeepAlive(Stream(others) + s, expected) == KeepAlive(s, expected)
  {
    if others == [] {
      assert Stream(others) + s == s;
    } else {
      var p, tail := others[0], Stream(others[1..]) + s;
      assert Stream(others) + s == FrameBytes(p.packetId, p.payload) + tail;
      FrameComesBack(p.packetId, p.payload, tail, FRAME_LIMIT);
      DecodeInvertsEncode(ToUnsigned(p.packetId), p.payload);
      OthersAreSkipped(others[1..], s, expected);
    }
  }

  /** A keep-alive is accepted after any other packets exactly when its token is the expected one. */
  lemma KeepAliveIsExact(others: seq<Sent>, token: int, t: seq<byte>, expected: int)
    requires AllOthers(others)
    requires IsInt32(token)
    ensures KeepAlive(Stream(others) + FrameBytes(0, Encode(ToUnsigned(token))) + t, expected)
         == if token == expected then Answered(t) else NoAnswer
  {
    var payload := Encode(ToUnsigned(token));
    var answer := FrameBytes(0, payload) + t;
    assert Stream(others) + FrameBytes(0, payload) + t == Stream(others) + answer;
    OthersAreSkipped(others, answer, expected);
    RequestFits(ToUnsigned(token));
    FrameComesBack(0, payload, t, FRAME_LIMIT);
    var body := Packet(0, payload);
    DecodeInvertsEncode(0, payload);
    assert body[|Encode(0)|..] == payload + [];
    DecodeInvertsEncode(ToUnsigned(token), []);
  }

  /** A peer that echoes the requests, with any other packets before each echo, completes the session. */
  lemma {:induction false} EchoingPeerIsAccepted(others: seq<seq<Sent>>, t: seq<byte>)
    requires AllBatches(others)
    ensures Answers(Echoes(others) + t, |others|) == Answered(t)
  {
    if others == [] {
      assert Echoes(others) + t == t;
    } else {
      var n := |others| - 1;
      assert AllOthers(others[n]);
      var echo := Stream(others[n]) + Request(Token(n));
      Regroup(Echoes(others[..n]), echo, t);
      EchoingPeerIsAccepted(others[..n], echo + t);
      KeepAliveIsExact(others[n], Token(n), t, Token(n));
    }
  }

  predicate AllBatches(others: seq<seq<Sent>>) {
    forall k :: 0 <= k < |others| ==> AllOthers(others[k])
  }

  function Echoes(others: seq<seq<Sent>>): seq<byte>
    requires AllBatches(others)
  {
    if others == [] then [] else
      var n := |others| - 1;
      assert AllOthers(others[n]);
      Echoes(others[..n]) + (Stream(others[n]) + Request(Token(n)))
  }
}
