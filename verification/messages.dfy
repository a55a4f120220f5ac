/** Response lines and their decoding into a Message: `Message.__post_init__` of
    irc.py, which accepts a head with no trailing part, and of connector.py, which
    insists on one. Both split the line after its leading ':' once at the next
    ':' and split the head on whitespace into sender, command and parameters. */
module Messages {
  import opened Wrappers
  import opened Bytes

  datatype Message = Message(sender: string, command: string, params: seq<string>, data: string)

  /** The exceptions the line handling of both clients can raise. */
  datatype Failure =
    | EmptyLine                               // `response[0]` of an empty line: IndexError
    | NotResponse                             // `assert response[0] == ord(':')` fails
    | TooFewTokens                            // `blocks[0]` or `blocks[1]` of the head is missing
    | NoTrailing                              // connector.py reads `blocks[1]` when no ':' follows
    | MissingArgument                         // irc.py unpacks `split(b' ', 1)` of a line without a space
    | UnsupportedCommand(command: seq<byte>)  // UnsupportedCommandError

  /** The result of `split(b':', 1)`. */
  datatype Blocks = Blocks(head: seq<byte>, trailing: Option<seq<byte>>)

  /** Splits at the first ':' only: the head has none, the trailing part keeps every later one. */
  function SplitTrailing(rest: seq<byte>): (s: Blocks)
    ensures s.trailing.None? ==> s.head == rest && Colon !in rest
    ensures s.trailing.Some? ==> rest == s.head + [Colon] + s.trailing.value && Colon !in s.head
  {
    match FirstIndex(rest, Colon)
    case None => Blocks(rest, None)
    case Some(i) =>
      assert rest == rest[..i] + [Colon] + rest[i + 1..];
      Blocks(rest[..i], Some(rest[i + 1..]))
  }

  lemma SplitTrailingAt(head: seq<byte>, trailing: seq<byte>)
    requires Colon !in head
    ensures SplitTrailing(head + [Colon] + trailing) == Blocks(head, Some(trailing))
  {
    var rest := head + [Colon] + trailing;
    FirstIndexAfter(head, Colon, trailing);
    assert rest[..|head|] == head;
    assert rest[|head| + 1..] == trailing;
  }

  lemma SplitTrailingAscii(rest: seq<byte>)
    requires IsAsciiBytes(rest)
    ensures var s := SplitTrailing(rest);
      IsAsciiBytes(s.head) && (s.trailing.Some? ==> IsAsciiBytes(s.trailing.value))
  {
    var s := SplitTrailing(rest);
    if s.trailing.Some? {
      forall i | 0 <= i < |s.head| ensures s.head[i] < 128 {
        assert s.head[i] == rest[i];
      }
      forall i | 0 <= i < |s.trailing.value| ensures s.trailing.value[i] < 128 {
        assert s.trailing.value[i] == rest[|s.head| + 1 + i];
      }
    }
  }

  function DecodeAll(ts: seq<seq<byte>>): (r: seq<string>)
    requires AllAscii(ts)
    ensures |r| == |ts| && forall i :: 0 <= i < |ts| ==> r[i] == Decode(ts[i])
  {
    seq(|ts|, i requires 0 <= i < |ts| => Decode(ts[i]))
  }

  predicate AllAsciiStrings(ss: seq<string>) {
    forall i :: 0 <= i < |ss| ==> IsAscii(ss[i])
  }

  function EncodeAll(ss: seq<string>): (r: seq<seq<byte>>)
    requires AllAsciiStrings(ss)
    ensures |r| == |ss| && forall i :: 0 <= i < |ss| ==> r[i] == Encode(ss[i])
  {
    seq(|ss|, i requires 0 <= i < |ss| => Encode(ss[i]))
  }

  /** A sender, command or parameter as a head can carry it: a non-empty run of
      ASCII characters with no whitespace and no ':'. */
  predicate IsToken(s: string) {
    IsAscii(s) && IsWord(Encode(s)) && Colon !in Encode(s)
  }

  predicate WellFormed(m: Message) {
    && IsToken(m.sender)
    && IsToken(m.command)
    && (forall i :: 0 <= i < |m.params| ==> IsToken(m.params[i]))
    && IsAscii(m.data)
  }

  lemma DecodedTokens(ts: seq<seq<byte>>)
    requires AllAscii(ts)
    requires forall i :: 0 <= i < |ts| ==> IsWord(ts[i]) && Colon !in ts[i]
    ensures forall i :: 0 <= i < |ts| ==> IsToken(Decode(ts[i]))
  {
    forall i | 0 <= i < |ts| ensures IsToken(Decode(ts[i])) {
      EncodeDecode(ts[i]);
    }
  }

  /** The message a head's tokens decode to is well formed and encodes back to them. */
  lemma DecodedHeader(blocks: seq<seq<byte>>, data: string)
    requires AllAscii(blocks) && |blocks| >= 2 && IsAscii(data)
    requires forall i :: 0 <= i < |blocks| ==> IsWord(blocks[i]) && Colon !in blocks[i]
    ensures var m := Message(Decode(blocks[0]), Decode(blocks[1]), DecodeAll(blocks[2..]), data);
      WellFormed(m) && EncodeAll([m.sender, m.command] + m.params) == blocks
  {
    DecodedTokens(blocks);
    var m := Message(Decode(blocks[0]), Decode(blocks[1]), DecodeAll(blocks[2..]), data);
    forall i | 0 <= i < |blocks| ensures Encode(Decode(blocks[i])) == blocks[i] {
      EncodeDecode(blocks[i]);
    }
    assert EncodeAll([m.sender, m.command] + m.params) == blocks;
  }

  /** `blocks[0].split()`: token 0 is the sender, token 1 the command, the rest the parameters. */
  function Header(head: seq<byte>, data: string): (r: Result<Message, Failure>)
    requires IsAsciiBytes(head) && IsAscii(data) && Colon !in head
    ensures r.Ok? <==> |Tokens(head)| >= 2
    ensures r.Err? ==> r.error == TooFewTokens
    ensures r.Ok? ==> WellFormed(r.value) && r.value.data == data
    ensures r.Ok? ==> EncodeAll([r.value.sender, r.value.command] + r.value.params) == Tokens(head)
  {
    var blocks := Tokens(head);
    TokensAscii(head);
    TokensExclude(head, Colon);
    if |blocks| < 2 then Err(TooFewTokens)
    else
      DecodedHeader(blocks, data);
      Ok(Message(Decode(blocks[0]), Decode(blocks[1]), DecodeAll(blocks[2..]), data))
  }

  /** irc.py's parse of a response line: the data is everything after the first
      ':' that follows the leading one, or empty when there is no such ':'. */
  function Parse(line: seq<byte>): (r: Result<Message, Failure>)
    requires IsAsciiBytes(line)
    ensures r.Ok? ==> |line| > 0 && line[0] == Colon && WellFormed(r.value)
  {
    if line == [] then Err(EmptyLine)
    else if line[0] != Colon then Err(NotResponse)
    else
      var blocks := SplitTrailing(line[1..]);
      SplitTrailingAscii(line[1..]);
      var data := if blocks.trailing.Some? then Decode(blocks.trailing.value) else "";
      Header(blocks.head, data)
  }

  /** connector.py's parse: the same, except that a line with no second ':'
      raises instead of yielding empty data. */
  function ParseStrict(line: seq<byte>): (r: Result<Message, Failure>)
    requires IsAsciiBytes(line)
    ensures r.Ok? ==> |line| > 0 && line[0] == Colon && WellFormed(r.value)
  {
    if line == [] then Err(EmptyLine)
    else if line[0] != Colon then Err(NotResponse)
    else
      var blocks := SplitTrailing(line[1..]);
      SplitTrailingAscii(line[1..]);
      if blocks.trailing.None? then Err(NoTrailing)
      else Header(blocks.head, Decode(blocks.trailing.value))
  }

  /** The two parsers differ only on a response line with no second ':'. */
  lemma ParseStrictAgrees(line: seq<byte>)
    requires IsAsciiBytes(line)
    ensures ParseStrict(line) ==
      if |line| > 0 && line[0] == Colon && Colon !in line[1..] then Err(NoTrailing) else Parse(line)
  {
  }

  /** A head with no ':' after the leading one parses with empty data, and only
      when it has at least a sender and a command. */
  lemma ParseWithoutTrailing(head: seq<byte>)
    requires IsAsciiBytes([Colon] + head) && Colon !in head
    ensures Parse([Colon] + head).Ok? <==> |Tokens(head)| >= 2
    ensures Parse([Colon] + head).Ok? ==> Parse([Colon] + head).value.data == ""
    ensures IsAsciiBytes(head) && Parse([Colon] + head) == Header(head, "")
    ensures ParseStrict([Colon] + head) == Err(NoTrailing)
  {
    assert ([Colon] + head)[1..] == head;
  }

  /** The data is everything after the first ':' of the remainder, later ':'s included. */
  lemma ParseKeepsLaterColons(head: seq<byte>, trailing: seq<byte>)
    requires IsAsciiBytes([Colon] + head + [Colon] + trailing) && Colon !in head
    ensures IsAsciiBytes(trailing)
    ensures Parse([Colon] + head + [Colon] + trailing).Ok? <==> |Tokens(head)| >= 2
    ensures Parse([Colon] + head + [Colon] + trailing).Ok? ==>
      Parse([Colon] + head + [Colon] + trailing).value.data == Decode(trailing)
    ensures ParseStrict([Colon] + head + [Colon] + trailing) == Parse([Colon] + head + [Colon] + trailing)
  {
    var line := [Colon] + head + [Colon] + trailing;
    assert line[1..] == head + [Colon] + trailing;
    SplitTrailingAt(head, trailing);
    forall i | 0 <= i < |trailing| ensures trailing[i] < 128 {
      assert trailing[i] == line[|head| + 2 + i];
    }
  }

  // ---------------------------------------------------------------------------
  // The canonical line of a message, and the round trip through the parser

  lemma SpaceTerminatedByte(ts: seq<seq<byte>>, x: byte)
    requires x in SpaceTerminated(ts)
    ensures x == Space || exists i :: 0 <= i < |ts| && x in ts[i]
    decreases |ts|
  {
    if x !in ts[0] && x != Space {
      assert SpaceTerminated(ts) == ts[0] + [Space] + SpaceTerminated(ts[1..]);
      SpaceTerminatedByte(ts[1..], x);
      var i :| 0 <= i < |ts[1..]| && x in ts[1..][i];
      assert x in ts[i + 1];
    }
  }

  lemma SpaceTerminatedAscii(ts: seq<seq<byte>>)
    requires AllAscii(ts)
    ensures IsAsciiBytes(SpaceTerminated(ts))
  {
    var b := SpaceTerminated(ts);
    forall k | 0 <= k < |b| ensures b[k] < 128 {
      SpaceTerminatedByte(ts, b[k]);
      if b[k] != Space {
        var i :| 0 <= i < |ts| && b[k] in ts[i];
        var j :| 0 <= j < |ts[i]| && ts[i][j] == b[k];
      }
    }
  }

  lemma SpaceTerminatedExcludes(ts: seq<seq<byte>>, x: byte)
    requires x != Space && forall i :: 0 <= i < |ts| ==> x !in ts[i]
    ensures x !in SpaceTerminated(ts)
  {
    if x in SpaceTerminated(ts) {
      SpaceTerminatedByte(ts, x);
    }
  }

  function HeadTokens(m: Message): (ts: seq<seq<byte>>)
    requires WellFormed(m)
    ensures forall i :: 0 <= i < |ts| ==> IsWord(ts[i]) && Colon !in ts[i] && IsAsciiBytes(ts[i])
  {
    EncodeAll([m.sender, m.command] + m.params)
  }

  /** The canonical response line of a message: `:sender command p1 ... pn :data`. */
  function Format(m: Message): (line: seq<byte>)
    requires WellFormed(m)
    ensures IsAsciiBytes(line)
  {
    var head := SpaceTerminated(HeadTokens(m));
    SpaceTerminatedAscii(HeadTokens(m));
    var line := [Colon] + head + [Colon] + Encode(m.data);
    assert forall k :: 0 <= k < |line| ==> line[k] < 128 by {
      forall k | 0 <= k < |line| ensures line[k] < 128 {
        if 1 <= k <= |head| {
          assert line[k] == head[k - 1];
        } else if k > |head| + 1 {
          assert line[k] == Encode(m.data)[k - |head| - 2];
        }
      }
    }
    line
  }

  lemma EncodeAllInjective(a: seq<string>, b: seq<string>)
    requires AllAsciiStrings(a) && AllAsciiStrings(b) && EncodeAll(a) == EncodeAll(b)
    ensures a == b
  {
    forall i | 0 <= i < |a| ensures a[i] == b[i] {
      DecodeEncode(a[i]);
      DecodeEncode(b[i]);
    }
  }

  /** A response line with a trailing part parses, under either parser, to the
      header of its head with the trailing part as data. */
  lemma ParseWithTrailing(head: seq<byte>, trailing: seq<byte>)
    requires IsAsciiBytes(head) && IsAsciiBytes(trailing) && Colon !in head
    ensures IsAsciiBytes([Colon] + head + [Colon] + trailing)
    ensures Parse([Colon] + head + [Colon] + trailing) == Header(head, Decode(trailing))
    ensures ParseStrict([Colon] + head + [Colon] + trailing) == Header(head, Decode(trailing))
  {
    var line := [Colon] + head + [Colon] + trailing;
    forall k | 0 <= k < |line| ensures line[k] < 128 {
      if 1 <= k <= |head| {
        assert line[k] == head[k - 1];
      } else if k > |head| + 1 {
        assert line[k] == trailing[k - |head| - 2];
      }
    }
    assert line[1..] == head + [Colon] + trailing;
    SplitTrailingAt(head, trailing);
  }

  /** Parsing the canonical line of a well-formed message gives that message back,
      under both parsers. */
  lemma ParseFormat(m: Message)
    requires WellFormed(m)
    ensures Parse(Format(m)) == Ok(m)
    ensures ParseStrict(Format(m)) == Ok(m)
  {
    var ts := HeadTokens(m);
    var head := SpaceTerminated(ts);
    SpaceTerminatedExcludes(ts, Colon);
    SpaceTerminatedAscii(ts);
    ParseWithTrailing(head, Encode(m.data));
    assert Format(m) == [Colon] + head + [Colon] + Encode(m.data);
    TokensOfSpaceTerminated(ts);
    DecodeEncode(m.data);
    var r := Header(head, m.data);
    assert r.Ok?;
    var p := r.value;
    EncodeAllInjective([p.sender, p.command] + p.params, [m.sender, m.command] + m.params);
    assert ([p.sender, p.command] + p.params)[2..] == p.params;
    assert ([m.sender, m.command] + m.params)[2..] == m.params;
  }

  /** Whatever a response line parses to, its canonical line parses to the same message. */
  lemma ParseCanonical(line: seq<byte>)
    requires IsAsciiBytes(line) && Parse(line).Ok?
    ensures Parse(Format(Parse(line).value)) == Parse(line)
  {
    ParseFormat(Parse(line).value);
  }
}
