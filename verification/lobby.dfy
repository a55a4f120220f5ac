/** lobby.py's `LobbyManager`: asks BanchoBot for a new multiplayer room, reads
    messages until the server reports that the client itself joined the room's
    channel, and then talks to the room on that channel. */
module Lobby {
  import opened Wrappers
  import opened Bytes
  import opened Messages
  import opened Outbound
  import Protocol
  import Connector
  import Osu

  type Ascii = s: string | IsAscii(s)

  /** The room commands, as sent to BanchoBot or to the room's channel. */
  const Make: Ascii := "!mp make "
  const Password: Ascii := "!mp password"
  const CloseRoom: Ascii := "!mp close"

  /** The server's report that the client itself joined a channel. */
  predicate IsOwnJoin(username: string, m: Message) {
    m.command == "JOIN" && m.sender == username + Osu.Suffix
  }

  /** What the wait for the channel does: the channel or the exception that ends
      it, how many lines it read, and the bytes it wrote. */
  datatype Awaited = Awaited(result: Result<string, Failure>, consumed: nat, replies: seq<byte>)

  /** `a`, preceded by `consumed` lines read and `replies` written. */
  function After(consumed: nat, replies: seq<byte>, a: Awaited): Awaited {
    Awaited(a.result, consumed + a.consumed, replies + a.replies)
  }

  /** The `while self.channel is None` loop over the lines still to be read: each
      round receives one message as `recv_msg` does; the client's own JOIN ends
      the wait with its data as the channel, any exception ends it with that
      exception, and every other message is dropped. */
  function AwaitJoin(username: string, lines: seq<seq<byte>>): (r: Awaited)
    requires AllAscii(lines)
    ensures r.consumed <= |lines|
    ensures r.result.Ok? ==> 0 < r.consumed && IsAscii(r.result.value)
    decreases |lines|
  {
    var step := Protocol.Receive(Protocol.Handler, lines);
    match step.result
    case Err(e) => Awaited(Err(e), step.consumed, step.replies)
    case Ok(m) =>
      if IsOwnJoin(username, m) then Awaited(Ok(m.data), step.consumed, step.replies)
      else After(step.consumed, step.replies, AwaitJoin(username, lines[step.consumed..]))
  }

  /** The wait as `lobby` runs it: a channel already known is kept and nothing is read. */
  function Awaiting(channel: Option<string>, username: string, lines: seq<seq<byte>>): (r: Awaited)
    requires AllAscii(lines)
    ensures r.consumed <= |lines|
    ensures channel.Some? ==> r.consumed == 0 && r.replies == [] && r.result == Ok(channel.value)
    ensures channel.None? && r.result.Ok? ==> 0 < r.consumed && IsAscii(r.result.value)
  {
    if channel.Some? then Awaited(Ok(channel.value), 0, []) else AwaitJoin(username, lines)
  }

  /** The channel the wait ends with is the data of the client's own JOIN, the
      message of the last line it read. */
  lemma {:induction false} JoinFound(username: string, lines: seq<seq<byte>>)
    requires AllAscii(lines)
    ensures var a := AwaitJoin(username, lines);
      a.result.Ok? ==>
        var p := ParseStrict(Strip(lines[a.consumed - 1]));
        p.Ok? && IsOwnJoin(username, p.value) && p.value.data == a.result.value
    decreases |lines|
  {
    if AwaitJoin(username, lines).result.Err? {
      return;
    }
    var step := Protocol.Receive(Protocol.Handler, lines);
    var k := Protocol.PingCount(Protocol.Handler, lines);
    assert step.result.Ok? && k < |lines| && step.consumed == k + 1;
    var response := Strip(lines[k]);
    assert response != [] && response[0] == Colon;
    if !IsOwnJoin(username, step.result.value) {
      var rest := lines[step.consumed..];
      JoinFound(username, rest);
      var b := AwaitJoin(username, rest);
      assert rest[b.consumed - 1] == lines[step.consumed + b.consumed - 1];
    }
  }

  /** The canonical lines of a sequence of messages, each with its CR LF. */
  function FramedMessages(ms: seq<Message>): (ls: seq<seq<byte>>)
    requires forall i :: 0 <= i < |ms| ==> WellFormed(ms[i])
    ensures |ls| == |ms| && forall i :: 0 <= i < |ms| ==> ls[i] == Format(ms[i]) + CRLF
  {
    seq(|ms|, i requires 0 <= i < |ms| => Format(ms[i]) + CRLF)
  }

  /** Messages the server can relay as single lines. */
  predicate Relayable(ms: seq<Message>) {
    forall i :: 0 <= i < |ms| ==> WellFormed(ms[i]) && NoLineEnd(Encode(ms[i].data))
  }

  lemma FramedAscii(ms: seq<Message>, rest: seq<seq<byte>>)
    requires Relayable(ms) && AllAscii(rest)
    ensures AllAscii(FramedMessages(ms) + rest)
  {
    var lines := FramedMessages(ms) + rest;
    forall i | 0 <= i < |lines| ensures IsAsciiBytes(lines[i]) {
      if i < |ms| {
        var l := Format(ms[i]) + CRLF;
        assert lines[i] == l;
        forall k | 0 <= k < |l| ensures l[k] < 128 {
          if k < |Format(ms[i])| {
            assert l[k] == Format(ms[i])[k];
          }
        }
      } else {
        assert lines[i] == rest[i - |ms|];
      }
    }
  }

  /** One relayed message: `recv_msg` reads its line and returns it, writing nothing. */
  lemma ReceiveOne(m: Message, rest: seq<seq<byte>>)
    requires WellFormed(m) && NoLineEnd(Encode(m.data)) && AllAscii(rest)
    ensures AllAscii([Format(m) + CRLF] + rest)
    ensures Protocol.Receive(Protocol.Handler, [Format(m) + CRLF] + rest) == Protocol.Received(Ok(m), 1, [])
  {
    Protocol.ReceiveRelayed(Protocol.Handler, [], m, rest);
    assert Protocol.PingLines([]) + [Format(m) + CRLF] + rest == [Format(m) + CRLF] + rest;
  }

  /** A relayed message other than the client's own JOIN is dropped and the wait reads on. */
  lemma SkipsOther(username: string, m: Message, rest: seq<seq<byte>>)
    requires WellFormed(m) && NoLineEnd(Encode(m.data)) && AllAscii(rest) && !IsOwnJoin(username, m)
    ensures AllAscii([Format(m) + CRLF] + rest)
    ensures AwaitJoin(username, [Format(m) + CRLF] + rest) == After(1, [], AwaitJoin(username, rest))
  {
    ReceiveOne(m, rest);
    assert ([Format(m) + CRLF] + rest)[1..] == rest;
  }

  /** The client's own JOIN ends the wait with its data. */
  lemma StopsAtJoin(username: string, m: Message, rest: seq<seq<byte>>)
    requires WellFormed(m) && NoLineEnd(Encode(m.data)) && AllAscii(rest) && IsOwnJoin(username, m)
    ensures AllAscii([Format(m) + CRLF] + rest)
    ensures AwaitJoin(username, [Format(m) + CRLF] + rest) == Awaited(Ok(m.data), 1, [])
  {
    ReceiveOne(m, rest);
  }

  lemma FramedFirst(ms: seq<Message>, rest: seq<seq<byte>>)
    requires Relayable(ms) && ms != []
    ensures FramedMessages(ms) + rest == [Format(ms[0]) + CRLF] + (FramedMessages(ms[1..]) + rest)
  {
    assert FramedMessages(ms) == [Format(ms[0]) + CRLF] + FramedMessages(ms[1..]);
  }

  /** Behind any run of messages that are not the client's own JOIN, the wait
      ends at the first own JOIN with its channel, having read exactly up to it
      and written nothing. */
  lemma {:induction false} JoinAfterOthers(username: string, ms: seq<Message>, join: Message, rest: seq<seq<byte>>)
    requires Relayable(ms) && (forall i :: 0 <= i < |ms| ==> !IsOwnJoin(username, ms[i]))
    requires WellFormed(join) && NoLineEnd(Encode(join.data)) && IsOwnJoin(username, join)
    requires AllAscii(rest)
    ensures AllAscii(FramedMessages(ms) + ([Format(join) + CRLF] + rest))
    ensures AwaitJoin(username, FramedMessages(ms) + ([Format(join) + CRLF] + rest))
         == Awaited(Ok(join.data), |ms| + 1, [])
    decreases |ms|
  {
    var tail := [Format(join) + CRLF] + rest;
    StopsAtJoin(username, join, rest);
    FramedAscii(ms, tail);
    if ms == [] {
      assert FramedMessages(ms) + tail == tail;
    } else {
      JoinAfterOthers(username, ms[1..], join, rest);
      FramedFirst(ms, tail);
      SkipsOther(username, ms[0], FramedMessages(ms[1..]) + tail);
    }
  }

  /** When the input ends before the client's own JOIN arrives, the wait fails on
      the empty line `readline` returns at the end, having read every line. */
  lemma {:induction false} NoJoinRunsOut(username: string, ms: seq<Message>)
    requires Relayable(ms) && (forall i :: 0 <= i < |ms| ==> !IsOwnJoin(username, ms[i]))
    ensures AllAscii(FramedMessages(ms))
    ensures AwaitJoin(username, FramedMessages(ms)) == Awaited(Err(EmptyLine), |ms|, [])
    decreases |ms|
  {
    FramedAscii(ms, []);
    assert FramedMessages(ms) + [] == FramedMessages(ms);
    if ms == [] {
      Protocol.ReceiveRunsOut(Protocol.Handler, [], 0);
    } else {
      NoJoinRunsOut(username, ms[1..]);
      FramedFirst(ms, []);
      assert FramedMessages(ms[1..]) + [] == FramedMessages(ms[1..]);
      SkipsOther(username, ms[0], FramedMessages(ms[1..]));
    }
  }

  /** The wait's test is the one `on_message` in osu.py applies to raise its
      lobby event: both recognise exactly the client's own JOIN. */
  lemma OwnJoinIsLobbyEvent(username: string, m: Message)
    ensures IsOwnJoin(username, m)
        <==> Osu.OnMessage(Some(username), m).Raised? && Osu.OnMessage(Some(username), m).event.Lobby?
    ensures IsOwnJoin(username, m) ==> Osu.OnMessage(Some(username), m) == Osu.Raised(Osu.Lobby(m.data))
  {
    Osu.LobbyOnOwnJoin(Some(username), m);
  }

  lemma CommandsAscii(lobbyname: string)
    requires IsAscii(lobbyname)
    ensures IsAscii(Osu.Bancho) && IsAscii(Make + lobbyname)
  {
    assert forall i :: 0 <= i < |Make + lobbyname| ==>
      (Make + lobbyname)[i] == if i < |Make| then Make[i] else lobbyname[i - |Make|];
  }

  // ---------------------------------------------------------------------------
  // The rounds of the wait, as the loop records them

  /** Round `i` of `rounds`; the name the record of the rounds is indexed by. */
  function RoundAt(rounds: seq<Protocol.Received>, i: nat): Protocol.Received
    requires i < |rounds|
  {
    rounds[i]
  }

  /** The lines the rounds before round `i` read. */
  function Start(rounds: seq<Protocol.Received>, i: nat): nat
    requires i <= |rounds|
  {
    if i == 0 then 0 else Start(rounds, i - 1) + rounds[i - 1].consumed
  }

  /** The bytes the rounds before round `i` wrote. */
  function Written(rounds: seq<Protocol.Received>, i: nat): seq<byte>
    requires i <= |rounds|
  {
    if i == 0 then [] else Written(rounds, i - 1) + rounds[i - 1].replies
  }

  /** `recv_msg` on the lines still to be read. */
  const Recv: seq<seq<byte>> --> Protocol.Received :=
    lines requires AllAscii(lines) => Protocol.Receive(Protocol.Handler, lines)

  /** `rounds` are calls of `call` made one after another on `lines`, each where
      the one before it stopped reading. */
  ghost predicate Trace(call: seq<seq<byte>> --> Protocol.Received, lines: seq<seq<byte>>, rounds: seq<Protocol.Received>) {
    && Start(rounds, |rounds|) <= |lines|
    && forall i {:trigger RoundAt(rounds, i)} :: 0 <= i < |rounds| ==>
         && Start(rounds, i) <= |lines| && call.requires(lines[Start(rounds, i)..])
         && RoundAt(rounds, i) == call(lines[Start(rounds, i)..])
  }

  /** Every round of `rounds` returned a message other than the client's own JOIN. */
  ghost predicate Skipping(username: string, rounds: seq<Protocol.Received>) {
    forall i {:trigger RoundAt(rounds, i)} :: 0 <= i < |rounds| ==>
      RoundAt(rounds, i).result.Ok? && !IsOwnJoin(username, RoundAt(rounds, i).result.value)
  }

  lemma SkippingSnoc(username: string, rounds: seq<Protocol.Received>, r: Protocol.Received)
    requires Skipping(username, rounds) && r.result.Ok? && !IsOwnJoin(username, r.result.value)
    ensures Skipping(username, rounds + [r])
  {
    forall i | 0 <= i < |rounds| + 1
      ensures RoundAt(rounds + [r], i).result.Ok? && !IsOwnJoin(username, RoundAt(rounds + [r], i).result.value)
    {
      if i < |rounds| {
        assert RoundAt(rounds + [r], i) == RoundAt(rounds, i);
      }
    }
  }

  /** A round that ends the wait: an exception, or the client's own JOIN. */
  predicate Settles(username: string, r: Protocol.Received) {
    r.result.Err? || IsOwnJoin(username, r.result.value)
  }

  /** What a round that ends the wait ends it with. */
  function Outcome(r: Protocol.Received): Result<string, Failure> {
    if r.result.Err? then Err(r.result.error) else Ok(r.result.value.data)
  }

  lemma StartSnoc(rounds: seq<Protocol.Received>, r: Protocol.Received, i: nat)
    requires i <= |rounds|
    ensures Start(rounds + [r], i) == Start(rounds, i) && Written(rounds + [r], i) == Written(rounds, i)
  {
    if i > 0 {
      StartSnoc(rounds, r, i - 1);
      assert (rounds + [r])[i - 1] == rounds[i - 1];
    }
  }

  /** A further call, where the earlier ones stopped, extends the record. */
  lemma TraceSnoc(call: seq<seq<byte>> --> Protocol.Received, lines: seq<seq<byte>>, rounds: seq<Protocol.Received>, r: Protocol.Received)
    requires Trace(call, lines, rounds)
    requires call.requires(lines[Start(rounds, |rounds|)..]) && r == call(lines[Start(rounds, |rounds|)..])
    requires Start(rounds, |rounds|) + r.consumed <= |lines|
    ensures Trace(call, lines, rounds + [r])
    ensures Start(rounds + [r], |rounds| + 1) == Start(rounds, |rounds|) + r.consumed
    ensures Written(rounds + [r], |rounds| + 1) == Written(rounds, |rounds|) + r.replies
  {
    var next := rounds + [r];
    StartSnoc(rounds, r, |rounds|);
    assert next[|rounds|] == r;
    forall i | 0 <= i < |next|
      ensures && Start(next, i) <= |lines| && call.requires(lines[Start(next, i)..])
              && RoundAt(next, i) == call(lines[Start(next, i)..])
    {
      StartSnoc(rounds, r, i);
      if i < |rounds| {
        assert RoundAt(rounds, i) == next[i];
      }
    }
  }

  lemma StartShift(rounds: seq<Protocol.Received>, i: nat)
    requires 0 < i <= |rounds|
    ensures Start(rounds, i) == rounds[0].consumed + Start(rounds[1..], i - 1)
    ensures Written(rounds, i) == rounds[0].replies + Written(rounds[1..], i - 1)
  {
    if i > 1 {
      StartShift(rounds, i - 1);
      assert rounds[1..][i - 2] == rounds[i - 1];
      Protocol.ConcatAssociates(rounds[0].replies, Written(rounds[1..], i - 2), rounds[i - 1].replies);
    }
  }

  /** The record without its first round is a record of the rest of the input. */
  lemma TraceRest(call: seq<seq<byte>> --> Protocol.Received, lines: seq<seq<byte>>, rounds: seq<Protocol.Received>)
    requires Trace(call, lines, rounds) && rounds != []
    ensures rounds[0].consumed <= |lines|
    ensures Trace(call, lines[rounds[0].consumed..], rounds[1..])
  {
    var c := RoundAt(rounds, 0).consumed;
    var rest := rounds[1..];
    StartShift(rounds, |rounds|);
    forall i | 0 <= i < |rest|
      ensures && Start(rest, i) <= |lines[c..]| && call.requires(lines[c..][Start(rest, i)..])
              && RoundAt(rest, i) == call(lines[c..][Start(rest, i)..])
    {
      StartShift(rounds, i + 1);
      assert RoundAt(rounds, i + 1) == RoundAt(rest, i);
      assert lines[c..][Start(rest, i)..] == lines[Start(rounds, i + 1)..];
    }
  }

  /** A first round that returns a message other than the client's own JOIN is dropped. */
  lemma AwaitSkips(username: string, lines: seq<seq<byte>>)
    requires AllAscii(lines)
    requires var r := Protocol.Receive(Protocol.Handler, lines);
      r.result.Ok? && !IsOwnJoin(username, r.result.value)
    ensures var r := Protocol.Receive(Protocol.Handler, lines);
      AwaitJoin(username, lines) == After(r.consumed, r.replies, AwaitJoin(username, lines[r.consumed..]))
  {
  }

  lemma SkippingRest(username: string, rounds: seq<Protocol.Received>)
    requires |rounds| >= 2 && Skipping(username, rounds[..|rounds| - 1])
    ensures RoundAt(rounds[..|rounds| - 1], 0) == rounds[0]
    ensures Skipping(username, rounds[1..][..|rounds| - 2])
  {
    var rest := rounds[1..][..|rounds| - 2];
    forall i | 0 <= i < |rest|
      ensures RoundAt(rest, i).result.Ok? && !IsOwnJoin(username, RoundAt(rest, i).result.value)
    {
      assert RoundAt(rest, i) == RoundAt(rounds[..|rounds| - 1], i + 1);
    }
  }

  /** A record of rounds that skip other messages and end with one that settles
      the wait is the wait itself. */
  lemma {:induction false} TraceAwaits(username: string, lines: seq<seq<byte>>, rounds: seq<Protocol.Received>)
    requires AllAscii(lines) && Trace(Recv, lines, rounds) && rounds != []
    requires Skipping(username, rounds[..|rounds| - 1]) && Settles(username, rounds[|rounds| - 1])
    ensures AwaitJoin(username, lines)
         == Awaited(Outcome(rounds[|rounds| - 1]), Start(rounds, |rounds|), Written(rounds, |rounds|))
    decreases |rounds|
  {
    var r := RoundAt(rounds, 0);
    assert lines[0..] == lines;
    if |rounds| == 1 {
      assert Written(rounds, 1) == [] + r.replies;
    } else {
      SkippingRest(username, rounds);
      AwaitSkips(username, lines);
      TraceRest(Recv, lines, rounds);
      TraceAwaits(username, lines[r.consumed..], rounds[1..]);
      StartShift(rounds, |rounds|);
    }
  }

  class LobbyManager {
    const client: Connector.IrcHandler
    const username: string
    const lobbyname: string
    /** The room's channel: `None` until the server reports the JOIN. */
    var channel: Option<string>

    constructor (client: Connector.IrcHandler, username: string, lobbyname: string)
      ensures this.client == client && this.username == username && this.lobbyname == lobbyname
      ensures channel == None
    {
      this.client := client;
      this.username := username;
      this.lobbyname := lobbyname;
      channel := None;
    }

    /** `lobby`: asks BanchoBot to make the room, waits for the channel and sets
        the room's password; an exception of `recv_msg` ends it with no channel
        and no password command written. */
    method Lobby() returns (failure: Option<Failure>)
      requires client.connected && AllAscii(client.reader) && IsAscii(lobbyname)
      requires channel.Some? ==> IsAscii(channel.value)
      modifies this, client
      ensures var a := Awaiting(old(channel), username, old(client.reader));
        var made := old(client.writer) + PrivmsgCommand(Osu.Bancho, Make + lobbyname) + a.replies;
        && client.reader == old(client.reader)[a.consumed..]
        && (a.result.Ok? ==>
              && failure == None && channel == Some(a.result.value)
              && client.writer == made + PrivmsgCommand(a.result.value, Password))
        && (a.result.Err? ==> failure == Some(a.result.error) && channel == None && client.writer == made)
      ensures client.connected && client.closed == old(client.closed)
    {
      ghost var lines := client.reader;
      CommandsAscii(lobbyname);
      client.Privmsg(Osu.Bancho, Make + lobbyname);
      ghost var rounds;
      failure, rounds := AwaitChannel();
      if old(channel).None? {
        TraceAwaits(username, lines, rounds);
      }
      if failure.None? {
        client.Privmsg(channel.value, Password);
      }
    }

    /** The `while self.channel is None` loop of `lobby`: calls `recv_msg` until
        the client's own JOIN names the channel, dropping every other message; an
        exception of `recv_msg` ends it. `rounds` records the calls. */
    method AwaitChannel() returns (failure: Option<Failure>, ghost rounds: seq<Protocol.Received>)
      requires client.connected && AllAscii(client.reader)
      requires channel.Some? ==> IsAscii(channel.value)
      modifies this, client
      ensures Trace(Recv, old(client.reader), rounds)
      ensures client.reader == old(client.reader)[Start(rounds, |rounds|)..]
      ensures client.writer == old(client.writer) + Written(rounds, |rounds|)
      ensures old(channel).Some? ==> rounds == [] && failure == None && channel == old(channel)
      ensures old(channel).None? ==>
        && rounds != [] && Skipping(username, rounds[..|rounds| - 1]) && Settles(username, rounds[|rounds| - 1])
        && var outcome := Outcome(rounds[|rounds| - 1]);
           && (outcome.Ok? ==> failure == None && channel == Some(outcome.value))
           && (outcome.Err? ==> failure == Some(outcome.error) && channel == None)
      ensures client.connected && client.closed == old(client.closed)
    {
      ghost var lines := client.reader;
      rounds := [];
      failure := None;
      while channel.None?
        invariant client.connected && client.closed == old(client.closed)
        invariant AllAscii(lines) && Trace(Recv, lines, rounds)
        invariant client.reader == lines[Start(rounds, |rounds|)..]
        invariant client.writer == old(client.writer) + Written(rounds, |rounds|)
        invariant failure == None
        invariant old(channel).Some? ==> rounds == [] && channel == old(channel)
        invariant channel.None? ==> Skipping(username, rounds)
        invariant old(channel).None? && channel.Some? ==>
          && rounds != [] && Skipping(username, rounds[..|rounds| - 1])
          && rounds[|rounds| - 1].result.Ok? && IsOwnJoin(username, rounds[|rounds| - 1].result.value)
          && channel == Some(rounds[|rounds| - 1].result.value.data)
        decreases |client.reader|
      {
        ghost var step;
        failure, step := ReceiveRound(lines, rounds);
        ghost var previous := rounds;
        rounds := rounds + [step];
        assert rounds[..|rounds| - 1] == previous;
        if failure.Some? {
          break;
        }
        if channel.None? {
          SkippingSnoc(username, previous, step);
        }
      }
    }

    /** One call of `recv_msg` in the wait, where the earlier calls stopped; the
        client's own JOIN sets the channel. */
    method ReceiveRound(ghost lines: seq<seq<byte>>, ghost rounds: seq<Protocol.Received>)
      returns (failure: Option<Failure>, ghost r: Protocol.Received)
      requires channel.None? && client.connected
      requires AllAscii(lines) && Trace(Recv, lines, rounds) && client.reader == lines[Start(rounds, |rounds|)..]
      modifies this, client
      ensures Trace(Recv, lines, rounds + [r])
      ensures Start(rounds + [r], |rounds| + 1) == Start(rounds, |rounds|) + r.consumed
      ensures Written(rounds + [r], |rounds| + 1) == Written(rounds, |rounds|) + r.replies
      ensures client.reader == lines[Start(rounds + [r], |rounds| + 1)..]
      ensures client.writer == old(client.writer) + r.replies
      ensures 0 < r.consumed || r.result.Err?
      ensures failure.Some? ==> channel.None? && r.result == Err(failure.value)
      ensures failure.None? ==> r.result.Ok? && (channel.Some? <==> IsOwnJoin(username, r.result.value))
      ensures channel.Some? ==> channel == Some(r.result.value.data)
      ensures client.connected && client.closed == old(client.closed)
    {
      r := Protocol.Receive(Protocol.Handler, client.reader);
      TraceSnoc(Recv, lines, rounds, r);
      var msg := client.RecvMsg();
      if msg.Err? {
        return Some(msg.error), r;
      }
      if msg.value.command == "JOIN" && msg.value.sender == username + Osu.Suffix {
        channel := Some(msg.value.data);
      }
      failure := None;
    }

    /** `shutdown`: asks BanchoBot to close the room; before the channel is known
        the f-string names the channel "None". */
    method Shutdown()
      requires client.connected && IsAscii(Osu.Shown(channel))
      modifies client
      ensures client.writer == old(client.writer) + PrivmsgCommand(Osu.Shown(channel), CloseRoom)
      ensures client.reader == old(client.reader) && client.connected && client.closed == old(client.closed)
    {
      client.Privmsg(Osu.Shown(channel), CloseRoom);
    }
  }
}
