/** connector.py's `IrcHandler`: the same connection state as irc.py's client,
    with `recv_msg` answering directives inline with `partition` and returning
    the response line parsed by the strict `Message`. */
module Connector {
  import opened Wrappers
  import opened Bytes
  import opened Messages
  import opened Outbound
  import Protocol

  class IrcHandler {
    const host: string
    const port: int
    /** The lines `readline` will still return, in order. */
    var reader: seq<seq<byte>>
    /** Every byte written to the connection so far. */
    var writer: seq<byte>
    var connected: bool
    var closed: bool

    constructor (host: string, port: int)
      ensures this.host == host && this.port == port
      ensures !connected && !closed && reader == [] && writer == []
    {
      this.host := host;
      this.port := port;
      reader, writer := [], [];
      connected, closed := false, false;
    }

    /** `connect`: the incoming lines of a new connection become the reader. */
    method Connect(incoming: seq<seq<byte>>)
      modifies this
      ensures connected && !closed && reader == incoming && writer == []
    {
      reader, writer := incoming, [];
      connected, closed := true, false;
    }

    /** `login`: writes the PASS, USER and NICK lines in one write. */
    method Login(username: string, password: string)
      requires connected && IsAscii(username) && IsAscii(password)
      modifies this
      ensures writer == old(writer) + LoginCommands(username, password)
      ensures reader == old(reader) && connected && closed == old(closed)
    {
      writer := writer + LoginCommands(username, password);
    }

    /** `privmsg`: writes one PRIVMSG line. */
    method Privmsg(who: string, message: string)
      requires connected && IsAscii(who) && IsAscii(message)
      modifies this
      ensures writer == old(writer) + PrivmsgCommand(who, message)
      ensures reader == old(reader) && connected && closed == old(closed)
    {
      writer := writer + PrivmsgCommand(who, message);
    }

    /** `shutdown`: writes QUIT and closes the writer. */
    method Shutdown()
      requires connected
      modifies this
      ensures writer == old(writer) + QuitCommand() && closed
      ensures reader == old(reader) && connected
    {
      writer := writer + QuitCommand();
      closed := true;
    }

    /** `recv_msg`: reads lines until one starts with ':' and returns its strict
        Message; before it, each PING (with or without an argument) is answered
        with its PONG, and any other directive ends the call with the exception
        it raises. */
    method RecvMsg() returns (result: Result<Message, Failure>)
      requires connected && AllAscii(reader)
      modifies this
      ensures var r := Protocol.Receive(Protocol.Handler, old(reader));
        && result == r.result
        && reader == old(reader)[r.consumed..]
        && writer == old(writer) + r.replies
      ensures connected && closed == old(closed)
    {
      ghost var lines := reader;
      ghost var k := Protocol.PingCount(Protocol.Handler, lines);
      ghost var consumed := 0;
      while true
        invariant connected && closed == old(closed)
        invariant lines == old(reader) && consumed <= k && consumed <= |lines| && reader == lines[consumed..]
        invariant writer == old(writer) + Protocol.Pongs(lines[..consumed])
        decreases |reader|
      {
        if reader == [] {
          // at the end of the input `readline` returns b'', and `response[0]` raises IndexError
          Protocol.ReceiveRunsOut(Protocol.Handler, lines, consumed);
          return Err(EmptyLine);
        }
        var response := Strip(reader[0]);
        assert reader[0] == lines[consumed];
        reader := reader[1..];
        if response == [] {
          Protocol.ReceiveStopsAt(Protocol.Handler, lines, consumed);
          return Err(EmptyLine);
        }
        if response[0] == Colon {
          Protocol.ResponseNotAnswered(Protocol.Handler, response);
          Protocol.ReceiveStopsAt(Protocol.Handler, lines, consumed);
          return ParseStrict(response);
        }
        match Protocol.Directive(response)
        case Err(e) =>
          Protocol.ReceiveStopsAt(Protocol.Handler, lines, consumed);
          return Err(e);
        case Ok(reply) =>
          Protocol.ReceiveAnswersAt(Protocol.Handler, lines, consumed);
          Protocol.ConcatAssociates(old(writer), Protocol.Pongs(lines[..consumed]), reply);
          writer := writer + reply;
        consumed := consumed + 1;
      }
    }
  }
}
