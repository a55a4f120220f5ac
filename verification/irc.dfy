/** irc.py's `Client`: the connection state (the lines still to be read, the
    bytes written so far) and the operations that write to it or read from it. */
module Irc {
  import opened Wrappers
  import opened Bytes
  import opened Messages
  import opened Outbound
  import Protocol

  class Client {
    const host: string
    const port: int
    /** The name given to `login`; `None` until then. */
    var username: Option<string>
    /** The lines `readline` will still return, in order. */
    var reader: seq<seq<byte>>
    /** Every byte written to the connection so far. */
    var writer: seq<byte>
    var connected: bool
    var closed: bool

    constructor (host: string, port: int)
      ensures this.host == host && this.port == port
      ensures username == None && !connected && !closed
      ensures reader == [] && writer == []
    {
      this.host := host;
      this.port := port;
      username := None;
      reader, writer := [], [];
      connected, closed := false, false;
    }

    /** `connect`: the incoming lines of a new connection become the reader. */
    method Connect(incoming: seq<seq<byte>>)
      modifies this
      ensures connected && !closed && reader == incoming && writer == []
      ensures username == old(username)
    {
      reader, writer := incoming, [];
      connected, closed := true, false;
    }

    /** `login`: remembers the name and writes the PASS, USER and NICK lines. */
    method Login(username: string, password: string)
      requires connected && IsAscii(username) && IsAscii(password)
      modifies this
      ensures this.username == Some(username)
      ensures writer == old(writer) + LoginCommands(username, password)
      ensures reader == old(reader) && connected && closed == old(closed)
    {
      this.username := Some(username);
      writer := writer + LoginCommands(username, password);
    }

    /** `privmsg`: writes one PRIVMSG line. */
    method Privmsg(who: string, message: string)
      requires connected && IsAscii(who) && IsAscii(message)
      modifies this
      ensures writer == old(writer) + PrivmsgCommand(who, message)
      ensures reader == old(reader) && username == old(username) && connected && closed == old(closed)
    {
      writer := writer + PrivmsgCommand(who, message);
    }

    /** `close`: writes QUIT and closes the writer. */
    method Close()
      requires connected
      modifies this
      ensures writer == old(writer) + QuitCommand() && closed
      ensures reader == old(reader) && username == old(username) && connected
    {
      writer := writer + QuitCommand();
      closed := true;
    }

    /** `_handle`: answers a PING directive with its PONG, or reports the
        exception raised for any other directive, writing nothing then. */
    method Handle(packet: seq<byte>) returns (failure: Option<Failure>)
      requires connected
      modifies this
      ensures failure.None? <==> Protocol.IsPingDirective(packet)
      ensures failure.None? ==> writer == old(writer) + Protocol.Pong(packet)
      ensures failure.Some? ==> failure == Some(Protocol.Handle(packet).error) && writer == old(writer)
      ensures reader == old(reader) && username == old(username) && connected && closed == old(closed)
    {
      match Protocol.Handle(packet)
      case Ok(reply) =>
        writer := writer + reply;
        failure := None;
      case Err(e) =>
        failure := Some(e);
    }

    /** `_recv`: reads lines until one starts with ':', answering the PING
        directives before it, and returns that line's Message; any other line
        ends the call with the exception it raises. */
    method Recv() returns (result: Result<Message, Failure>)
      requires connected && AllAscii(reader)
      modifies this
      ensures var r := Protocol.Receive(Protocol.Client, old(reader));
        && result == r.result
        && reader == old(reader)[r.consumed..]
        && writer == old(writer) + r.replies
      ensures username == old(username) && connected && closed == old(closed)
    {
      ghost var lines := reader;
      ghost var k := Protocol.PingCount(Protocol.Client, lines);
      ghost var consumed := 0;
      var isCommand := true;
      var response: seq<byte> := [];
      while isCommand
        invariant connected && closed == old(closed) && username == old(username)
        invariant lines == old(reader) && consumed <= |lines| && reader == lines[consumed..]
        invariant isCommand ==> consumed <= k && writer == old(writer) + Protocol.Pongs(lines[..consumed])
        invariant !isCommand ==>
          && consumed == k + 1 && k < |lines| && writer == old(writer) + Protocol.Pongs(lines[..k])
          && response == Strip(lines[k]) && response != [] && response[0] == Colon
        decreases if isCommand then |reader| + 1 else 0
      {
        if reader == [] {
          // at the end of the input `readline` returns b'', and `response[0]` raises IndexError
          Protocol.ReceiveRunsOut(Protocol.Client, lines, consumed);
          return Err(EmptyLine);
        }
        response := Strip(reader[0]);
        assert reader[0] == lines[consumed];
        reader := reader[1..];
        if response == [] {
          Protocol.ReceiveStopsAt(Protocol.Client, lines, consumed);
          return Err(EmptyLine);
        }
        if response[0] == Colon {
          Protocol.ResponseNotAnswered(Protocol.Client, response);
          isCommand := false;
        } else {
          var failure := Handle(response);
          if failure.Some? {
            Protocol.ReceiveStopsAt(Protocol.Client, lines, consumed);
            return Err(failure.value);
          }
          Protocol.ReceiveAnswersAt(Protocol.Client, lines, consumed);
          Protocol.ConcatAssociates(old(writer), Protocol.Pongs(lines[..consumed]), Protocol.Pong(response));
          isCommand := true;
        }
        consumed := consumed + 1;
      }
      Protocol.ResponseNotAnswered(Protocol.Client, response);
      Protocol.ReceiveStopsAt(Protocol.Client, lines, k);
      result := Parse(response);
    }
  }
}
