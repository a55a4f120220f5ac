/** The directive loop shared by irc.py (`Client._recv` with `Client._handle`)
    and connector.py (`IrcHandler.recv_msg`): read lines, strip CR and LF, answer
    each PING directive with a PONG, and hand back the first response line (one
    starting with ':') as a Message. The two clients differ in how they split a
    directive (`split(b' ', 1)` against `partition(b' ')`) and in their parser. */
module Protocol {
  import opened Wrappers
  import opened Bytes
  import opened Messages

  /** Which of the two clients runs the loop. */
  datatype Variant =
    | Client    // irc.py
    | Handler   // connector.py

  const Ping: seq<byte> := [80, 73, 78, 71]             // "PING"
  const PingSpace: seq<byte> := [80, 73, 78, 71, 32]    // "PING "
  const PongPrefix: seq<byte> := [80, 79, 78, 71, 32]   // "PONG "

  // ---------------------------------------------------------------------------
  // Directives

  /** A directive the clients answer whatever follows: "PING " and then any argument. */
  predicate IsPingDirective(packet: seq<byte>) {
    |packet| >= 5 && packet[..5] == PingSpace
  }

  /** The directives a variant answers: both answer "PING <arg>"; connector.py's
      `partition` also answers a bare "PING". */
  predicate Answered(v: Variant, packet: seq<byte>) {
    IsPingDirective(packet) || (v == Handler && packet == Ping)
  }

  /** The argument echoed back: everything after "PING ", or nothing for a bare "PING". */
  function PingArgument(packet: seq<byte>): seq<byte> {
    if |packet| >= 5 then packet[5..] else []
  }

  function Pong(packet: seq<byte>): seq<byte> {
    PongPrefix + PingArgument(packet) + CRLF
  }

  /** A response line (one starting with ':') is never an answered directive. */
  lemma ResponseNotAnswered(v: Variant, packet: seq<byte>)
    requires packet != [] && packet[0] == Colon
    ensures !Answered(v, packet)
  {
    if |packet| >= 5 {
      assert packet[..5][0] == Colon;
    }
  }

  /** `w` is the first space-separated word of `packet`, and a space follows it. */
  predicate IsFirstWord(packet: seq<byte>, w: seq<byte>) {
    |w| < |packet| && packet[..|w|] == w && packet[|w|] == Space && Space !in w
  }

  lemma FirstWordUnique(c: seq<byte>, a: seq<byte>, d: seq<byte>, b: seq<byte>)
    requires Space !in c && Space !in d && c + [Space] + a == d + [Space] + b
    ensures c == d && a == b
  {
    var p := c + [Space] + a;
    assert p[|c|] == Space && p[|d|] == Space;
    assert forall i :: 0 <= i < |c| ==> p[i] == c[i];
    assert forall i :: 0 <= i < |d| ==> p[i] == d[i];
    assert |c| == |d|;
    assert c == p[..|c|] == d;
    assert a == p[|c| + 1..] == b;
  }

  /** A packet starting "PING " splits at its fifth byte. */
  lemma PingSplit(packet: seq<byte>)
    ensures IsPingDirective(packet) ==> Space in packet && Partition(packet, Space) == (Ping, packet[5..])
  {
    if IsPingDirective(packet) {
      assert packet[4] == Space;
      assert packet == Ping + [Space] + packet[5..];
      var (c, a) := Partition(packet, Space);
      FirstWordUnique(c, a, Ping, packet[5..]);
    }
  }

  /** irc.py `_handle`: the reply to a directive, or the exception it raises. The
      packet must split at a space into a command and an argument, and the
      command must be PING. */
  function Handle(packet: seq<byte>): (r: Result<seq<byte>, Failure>)
    ensures r.Ok? <==> IsPingDirective(packet)
    ensures r.Ok? ==> r.value == Pong(packet)
    ensures Space !in packet ==> r == Err(MissingArgument)
    ensures Space in packet && r.Err? ==> r.error.UnsupportedCommand? && IsFirstWord(packet, r.error.command)
  {
    PingSplit(packet);
    if Space !in packet then Err(MissingArgument)
    else
      var (command, argument) := Partition(packet, Space);
      assert packet[..|command|] == command;
      if command == Ping then
        assert packet[..5] == command + [Space];
        Ok(PongPrefix + argument + CRLF)
      else Err(UnsupportedCommand(command))
  }

  /** connector.py's directive handling inside `recv_msg`: `partition(b' ')` never
      fails, so a bare "PING" is answered with an empty argument. */
  function Directive(packet: seq<byte>): (r: Result<seq<byte>, Failure>)
    ensures r.Ok? <==> IsPingDirective(packet) || packet == Ping
    ensures r.Ok? ==> r.value == Pong(packet)
    ensures Space !in packet && r.Err? ==> r == Err(UnsupportedCommand(packet))
    ensures Space in packet && r.Err? ==> r.error.UnsupportedCommand? && IsFirstWord(packet, r.error.command)
  {
    var (command, argument) := Partition(packet, Space);
    PingSplit(packet);
    assert Space in packet ==> packet[..|command|] == command;
    if command == Ping then
      assert Space in packet ==> packet[..5] == command + [Space];
      Ok(PongPrefix + argument + CRLF)
    else Err(UnsupportedCommand(command))
  }

  /** The two directive handlers agree on every packet with a space; without one,
      irc.py fails where connector.py treats the whole packet as the command. */
  lemma HandleAgainstDirective(packet: seq<byte>)
    ensures Space in packet ==> Handle(packet) == Directive(packet)
    ensures Space !in packet ==> Handle(packet) == Err(MissingArgument)
    ensures Directive(Ping) == Ok(PongPrefix + CRLF)
  {
    assert Pong(Ping) == PongPrefix + CRLF;
  }

  function Respond(v: Variant, packet: seq<byte>): (r: Result<seq<byte>, Failure>)
    ensures r.Ok? <==> Answered(v, packet)
    ensures r.Ok? ==> r.value == Pong(packet)
  {
    if v == Client then Handle(packet) else Directive(packet)
  }

  function ParseResponse(v: Variant, line: seq<byte>): (r: Result<Message, Failure>)
    requires IsAsciiBytes(line)
    ensures r.Ok? ==> WellFormed(r.value)
  {
    if v == Client then Parse(line) else ParseStrict(line)
  }

  // ---------------------------------------------------------------------------
  // The receive loop

  /** What one call of the loop does: its result, how many lines it read, and the
      bytes it wrote. */
  datatype Received = Received(result: Result<Message, Failure>, consumed: nat, replies: seq<byte>)

  /** The loop over the lines still to be read: it answers the leading run of
      answered directives, writing their PONGs in input order, reads one line past
      the run and ends with that line's verdict. At the end of the input `readline`
      returns an empty line, which fails at `response[0]` without consuming anything. */
  function Receive(v: Variant, lines: seq<seq<byte>>): (r: Received)
    requires AllAscii(lines)
    ensures r.consumed <= |lines|
    ensures r.result.Ok? ==> 0 < r.consumed && WellFormed(r.result.value)
  {
    var k := PingCount(v, lines);
    if k == |lines| then Received(Err(EmptyLine), k, Pongs(lines[..k]))
    else Received(Verdict(v, Strip(lines[k])), k + 1, Pongs(lines[..k]))
  }

  /** An answered directive is replied to, and the loop reads on: one step of
      `_recv`'s `while` loop (or of `recv_msg`'s). */
  lemma ReceiveAnswers(v: Variant, lines: seq<seq<byte>>)
    requires AllAscii(lines) && lines != [] && Answered(v, Strip(lines[0]))
    ensures AllAscii(lines[1..])
    ensures var r := Receive(v, lines[1..]);
      Receive(v, lines) == Received(r.result, r.consumed + 1, Pong(Strip(lines[0])) + r.replies)
  {
    var k := PingCount(v, lines[1..]);
    assert PingCount(v, lines) == k + 1;
    TakeAfterFirst(lines, k);
  }

  lemma ConcatAssociates<T>(a: seq<T>, b: seq<T>, c: seq<T>)
    ensures a + (b + c) == a + b + c
  {
  }

  /** Any other line ends the loop with its verdict, having written nothing. */
  lemma ReceiveStops(v: Variant, lines: seq<seq<byte>>)
    requires AllAscii(lines) && lines != [] && !Answered(v, Strip(lines[0]))
    ensures Receive(v, lines) == Received(Verdict(v, Strip(lines[0])), 1, [])
  {
    assert PingCount(v, lines) == 0;
  }

  lemma TakeAfterFirst<T>(s: seq<T>, k: nat)
    requires k < |s|
    ensures s[..k + 1][0] == s[0] && s[..k + 1][1..] == s[1..][..k]
    ensures k + 1 < |s| ==> s[k + 1] == s[1..][k]
  {
  }

  /** The number of leading lines that are answered directives. */
  function PingCount(v: Variant, lines: seq<seq<byte>>): (k: nat)
    ensures k <= |lines|
    ensures forall i :: 0 <= i < k ==> Answered(v, Strip(lines[i]))
    ensures k < |lines| ==> !Answered(v, Strip(lines[k]))
  {
    if lines == [] || !Answered(v, Strip(lines[0])) then 0
    else
      var k := PingCount(v, lines[1..]);
      assert forall i :: 0 < i <= k && i < |lines| ==> lines[i] == lines[1..][i - 1];
      1 + k
  }

  /** The replies to a run of answered directives, in input order. */
  function Pongs(lines: seq<seq<byte>>): seq<byte> {
    if lines == [] then [] else Pong(Strip(lines[0])) + Pongs(lines[1..])
  }

  /** Answering one more directive appends its PONG to the replies. */
  lemma {:induction false} PongsSnoc(lines: seq<seq<byte>>, line: seq<byte>)
    ensures Pongs(lines + [line]) == Pongs(lines) + Pong(Strip(line))
    decreases |lines|
  {
    if lines != [] {
      assert (lines + [line])[1..] == lines[1..] + [line];
      PongsSnoc(lines[1..], line);
      ConcatAssociates(Pong(Strip(lines[0])), Pongs(lines[1..]), Pong(Strip(line)));
    }
  }

  // The loop's steps, counted from the start of the input: the methods that
  // implement the loop keep `consumed <= PingCount(v, lines)` and have written
  // `Pongs(lines[..consumed])`.

  /** Answering line `consumed` extends the run and appends its PONG. */
  lemma ReceiveAnswersAt(v: Variant, lines: seq<seq<byte>>, consumed: nat)
    requires consumed < |lines| && consumed <= PingCount(v, lines)
    requires Answered(v, Strip(lines[consumed]))
    ensures consumed < PingCount(v, lines)
    ensures Pongs(lines[..consumed + 1]) == Pongs(lines[..consumed]) + Pong(Strip(lines[consumed]))
  {
    assert lines[..consumed + 1] == lines[..consumed] + [lines[consumed]];
    PongsSnoc(lines[..consumed], lines[consumed]);
  }

  /** Meeting a line it does not answer, the loop stops there with its verdict. */
  lemma ReceiveStopsAt(v: Variant, lines: seq<seq<byte>>, consumed: nat)
    requires AllAscii(lines) && consumed < |lines| && consumed <= PingCount(v, lines)
    requires !Answered(v, Strip(lines[consumed]))
    ensures PingCount(v, lines) == consumed
    ensures Receive(v, lines) == Received(Verdict(v, Strip(lines[consumed])), consumed + 1, Pongs(lines[..consumed]))
  {
  }

  /** Running out of input, the loop fails on the empty line `readline` returns. */
  lemma ReceiveRunsOut(v: Variant, lines: seq<seq<byte>>, consumed: nat)
    requires AllAscii(lines) && consumed == |lines| && consumed <= PingCount(v, lines)
    ensures Receive(v, lines) == Received(Err(EmptyLine), consumed, Pongs(lines[..consumed]))
  {
  }

  /** What the loop does with the first line that is not an answered directive:
      an empty line fails at `response[0]`, a response line is parsed, and any
      other directive raises the handler's exception. */
  function Verdict(v: Variant, response: seq<byte>): (r: Result<Message, Failure>)
    requires IsAsciiBytes(response) && !Answered(v, response)
    ensures r.Ok? ==> WellFormed(r.value)
  {
    if response == [] then Err(EmptyLine)
    else if response[0] == Colon then ParseResponse(v, response)
    else Err(Respond(v, response).error)
  }

  // ---------------------------------------------------------------------------
  // Properties of the loop over framed lines

  /** The directive line "PING <arg>\r\n". */
  function PingLine(arg: seq<byte>): seq<byte> {
    PingSpace + arg + CRLF
  }

  function PingLines(args: seq<seq<byte>>): (ls: seq<seq<byte>>)
    ensures |ls| == |args| && forall i :: 0 <= i < |args| ==> ls[i] == PingLine(args[i])
  {
    seq(|args|, i requires 0 <= i < |args| => PingLine(args[i]))
  }

  /** "PONG <arg>\r\n" for each argument, in order. */
  function PongLines(args: seq<seq<byte>>): seq<byte> {
    if args == [] then [] else PongPrefix + args[0] + CRLF + PongLines(args[1..])
  }

  predicate FramableArguments(args: seq<seq<byte>>) {
    forall i :: 0 <= i < |args| ==> NoLineEnd(args[i]) && IsAsciiBytes(args[i])
  }

  lemma PingLineStripped(arg: seq<byte>)
    requires NoLineEnd(arg)
    ensures Strip(PingLine(arg)) == PingSpace + arg
    ensures IsPingDirective(PingSpace + arg) && PingArgument(PingSpace + arg) == arg
  {
    NoLineEndConcat(PingSpace, arg);
    StripFramed(PingSpace + arg);
    assert (PingSpace + arg)[..5] == PingSpace;
    assert (PingSpace + arg)[5..] == arg;
  }


  /** The canonical line of a message with no CR or LF in its data holds none. */
  lemma FormatNoLineEnd(m: Message)
    requires WellFormed(m) && NoLineEnd(Encode(m.data))
    ensures NoLineEnd(Format(m))
  {
    var ts := HeadTokens(m);
    var head := SpaceTerminated(ts);
    forall k | 0 <= k < |head| ensures !IsLineEnd(head[k]) {
      SpaceTerminatedByte(ts, head[k]);
      if head[k] != Space {
        var i :| 0 <= i < |ts| && head[k] in ts[i];
        var j :| 0 <= j < |ts[i]| && ts[i][j] == head[k];
      }
    }
    NoLineEndConcat([Colon], head);
    NoLineEndConcat([Colon] + head, [Colon]);
    NoLineEndConcat([Colon] + head + [Colon], Encode(m.data));
  }

  /** Behind any run of PING directives, the loop answers each with its own PONG,
      in order, and returns the first response line as its message, under either
      client: the PONGs are all it writes, and it reads no further. */
  lemma {:induction false} ReceiveRelayed(v: Variant, args: seq<seq<byte>>, m: Message, rest: seq<seq<byte>>)
    requires FramableArguments(args)
    requires WellFormed(m) && NoLineEnd(Encode(m.data)) && AllAscii(rest)
    ensures AllAscii(PingLines(args) + [Format(m) + CRLF] + rest)
    ensures Receive(v, PingLines(args) + [Format(m) + CRLF] + rest)
         == Received(Ok(m), |args| + 1, PongLines(args))
    decreases |args|
  {
    var lines := PingLines(args) + [Format(m) + CRLF] + rest;
    FramedAscii(args, m, rest);
    if args == [] {
      assert lines[0] == Format(m) + CRLF;
      FormatNoLineEnd(m);
      StripFramed(Format(m));
      ParseFormat(m);
      ResponseNotAnswered(v, Format(m));
      ReceiveStops(v, lines);
    } else {
      PingLineStripped(args[0]);
      assert lines[0] == PingLine(args[0]);
      assert lines[1..] == PingLines(args[1..]) + [Format(m) + CRLF] + rest;
      ReceiveRelayed(v, args[1..], m, rest);
      ReceiveAnswers(v, lines);
    }
  }

  lemma FramedAscii(args: seq<seq<byte>>, m: Message, rest: seq<seq<byte>>)
    requires FramableArguments(args) && WellFormed(m) && AllAscii(rest)
    ensures AllAscii(PingLines(args) + [Format(m) + CRLF] + rest)
  {
    var lines := PingLines(args) + [Format(m) + CRLF] + rest;
    forall i | 0 <= i < |lines| ensures IsAsciiBytes(lines[i]) {
      if i < |args| {
        var l := PingLine(args[i]);
        assert lines[i] == l;
        forall k | 0 <= k < |l| ensures l[k] < 128 {
          if 5 <= k < 5 + |args[i]| {
            assert l[k] == args[i][k - 5];
          }
        }
      } else if i == |args| {
        var l := Format(m) + CRLF;
        forall k | 0 <= k < |l| ensures l[k] < 128 {
          if k < |Format(m)| {
            assert l[k] == Format(m)[k];
          }
        }
      } else {
        assert lines[i] == rest[i - |args| - 1];
      }
    }
  }

  /** A bare "PING" is where the clients part: irc.py fails at the split and
      writes nothing, connector.py answers "PONG \r\n" and reads on. */
  lemma BarePing(rest: seq<seq<byte>>)
    requires AllAscii(rest)
    ensures AllAscii([Ping + CRLF] + rest)
    ensures Receive(Client, [Ping + CRLF] + rest) == Received(Err(MissingArgument), 1, [])
    ensures var r := Receive(Handler, rest);
      Receive(Handler, [Ping + CRLF] + rest) == Received(r.result, r.consumed + 1, PongPrefix + CRLF + r.replies)
  {
    var lines := [Ping + CRLF] + rest;
    assert forall i :: 0 <= i < |lines| ==> IsAsciiBytes(lines[i]) by {
      forall i | 0 <= i < |lines| ensures IsAsciiBytes(lines[i]) {
        if i > 0 { assert lines[i] == rest[i - 1]; }
      }
    }
    StripFramed(Ping);
    assert Strip(lines[0]) == Ping;
    assert lines[1..] == rest;
    assert Space !in Ping;
    ReceiveStops(Client, lines);
    ReceiveAnswers(Handler, lines);
    assert Pong(Ping) == PongPrefix + CRLF;
  }

  /** A directive whose first word is not PING is not answered, and either
      client's handler reports that word as unsupported. */
  lemma UnsupportedVerdict(v: Variant, word: seq<byte>, arg: seq<byte>)
    requires word != [] && word != Ping && Space !in word
    ensures var packet := word + [Space] + arg;
      && packet[0] == word[0] && !Answered(v, packet)
      && Respond(v, packet) == Err(UnsupportedCommand(word))
  {
    var packet := word + [Space] + arg;
    assert packet[0] == word[0];
    assert Space in packet by { assert packet[|word|] == Space; }
    var (c, a) := Partition(packet, Space);
    FirstWordUnique(c, a, word, arg);
    PingSplit(packet);
  }

  /** A directive whose first word is not PING stops the loop with
      UnsupportedCommand carrying that word, under either client, and writes nothing. */
  lemma UnsupportedDirective(v: Variant, word: seq<byte>, arg: seq<byte>, rest: seq<seq<byte>>)
    requires word != [] && word[0] != Colon && word != Ping && Space !in word
    requires NoLineEnd(word) && NoLineEnd(arg)
    requires IsAsciiBytes(word) && IsAsciiBytes(arg) && AllAscii(rest)
    ensures AllAscii([word + [Space] + arg + CRLF] + rest)
    ensures Receive(v, [word + [Space] + arg + CRLF] + rest) == Received(Err(UnsupportedCommand(word)), 1, [])
  {
    var packet := word + [Space] + arg;
    var lines := [packet + CRLF] + rest;
    assert IsAsciiBytes(packet + CRLF) by {
      forall k | 0 <= k < |packet + CRLF| ensures (packet + CRLF)[k] < 128 {
        if k < |word| {
          assert (packet + CRLF)[k] == word[k];
        } else if |word| < k < |packet| {
          assert (packet + CRLF)[k] == arg[k - |word| - 1];
        }
      }
    }
    assert forall i :: 0 <= i < |lines| ==> IsAsciiBytes(lines[i]) by {
      forall i | 0 <= i < |lines| ensures IsAsciiBytes(lines[i]) {
        if i > 0 { assert lines[i] == rest[i - 1]; }
      }
    }
    NoLineEndConcat(word, [Space]);
    NoLineEndConcat(word + [Space], arg);
    StripFramed(packet);
    UnsupportedVerdict(v, word, arg);
    ReceiveStops(v, lines);
  }
}
