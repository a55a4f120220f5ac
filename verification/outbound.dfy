/** The lines the clients write: `login`, `privmsg` and `close`/`shutdown` of
    irc.py and connector.py, which build the same CR LF terminated ASCII lines. */
module Outbound {
  import opened Wrappers
  import opened Bytes
  import opened Messages

  /** One outgoing line: the ASCII text followed by CR LF. */
  function Frame(text: string): (b: seq<byte>)
    requires IsAscii(text)
    ensures IsAsciiBytes(b) && |b| == |text| + 2 && b[|text|..] == CRLF
  {
    Encode(text) + CRLF
  }

  /** `PASS <password>`, `USER <username>`, `NICK <username>`, in that order. */
  function LoginCommands(username: string, password: string): (b: seq<byte>)
    requires IsAscii(username) && IsAscii(password)
    ensures IsAsciiBytes(b) && |b| == |password| + 2 * |username| + 21
  {
    EncodeConcat("PASS ", password);
    EncodeConcat("USER ", username);
    EncodeConcat("NICK ", username);
    Frame("PASS " + password) + Frame("USER " + username) + Frame("NICK " + username)
  }

  function PrivmsgText(who: string, message: string): (s: string)
    requires IsAscii(who) && IsAscii(message)
    ensures IsAscii(s)
  {
    EncodeConcat("PRIVMSG ", who);
    EncodeConcat("PRIVMSG " + who, " :");
    EncodeConcat("PRIVMSG " + who + " :", message);
    "PRIVMSG " + who + " :" + message
  }

  /** `PRIVMSG <who> :<message>`. */
  function PrivmsgCommand(who: string, message: string): (b: seq<byte>)
    requires IsAscii(who) && IsAscii(message)
    ensures IsAsciiBytes(b) && |b| == |who| + |message| + 12 && b[|b| - 2..] == CRLF
  {
    Frame(PrivmsgText(who, message))
  }

  /** `QUIT`. */
  function QuitCommand(): (b: seq<byte>)
    ensures b == [0x51, 0x55, 0x49, 0x54, CR, LF]
  {
    Frame("QUIT")
  }

  function StripAll(lines: seq<seq<byte>>): (r: seq<seq<byte>>)
    ensures |r| == |lines| && forall i :: 0 <= i < |lines| ==> r[i] == Strip(lines[i])
  {
    seq(|lines|, i requires 0 <= i < |lines| => Strip(lines[i]))
  }


  lemma FramedText(prefix: string, s: string)
    requires IsAscii(prefix) && IsAscii(s) && NoLineEnd(Encode(prefix)) && NoLineEnd(Encode(s))
    ensures IsAscii(prefix + s) && NoLineEnd(Encode(prefix + s))
  {
    EncodeConcat(prefix, s);
    NoLineEndConcat(Encode(prefix), Encode(s));
  }

  lemma ReadThreeFramedLines(a: seq<byte>, b: seq<byte>, c: seq<byte>)
    requires NoLineEnd(a) && NoLineEnd(b) && NoLineEnd(c)
    ensures |ReadLines(a + CRLF + (b + CRLF + (c + CRLF + [])))| == 3
    ensures StripAll(ReadLines(a + CRLF + (b + CRLF + (c + CRLF + []))))  == [a, b, c]
  {
    var lc := c + CRLF + [];
    var lb := b + CRLF + lc;
    ReadFramedLine(c, []);
    assert ReadLines(lc) == [c + CRLF];
    ReadFramedLine(b, lc);
    assert ReadLines(lb) == [b + CRLF, c + CRLF];
    ReadFramedLine(a, lb);
    var ls := ReadLines(a + CRLF + lb);
    assert ls == [a + CRLF, b + CRLF, c + CRLF];
    StripFramed(a);
    StripFramed(b);
    StripFramed(c);
    assert StripAll(ls) == [Strip(ls[0]), Strip(ls[1]), Strip(ls[2])];
  }

  /** A peer reading the login bytes line by line, and stripping CR and LF as the
      clients do, sees exactly the password, user and nickname lines, in that order. */
  lemma LoginLines(username: string, password: string)
    requires IsAscii(username) && IsAscii(password)
    requires NoLineEnd(Encode(username)) && NoLineEnd(Encode(password))
    ensures IsAscii("PASS " + password) && IsAscii("USER " + username) && IsAscii("NICK " + username)
    ensures |ReadLines(LoginCommands(username, password))| == 3
    ensures StripAll(ReadLines(LoginCommands(username, password)))
         == [Encode("PASS " + password), Encode("USER " + username), Encode("NICK " + username)]
  {
    FramedText("PASS ", password);
    FramedText("USER ", username);
    FramedText("NICK ", username);
    var pass := Encode("PASS " + password);
    var user := Encode("USER " + username);
    var nick := Encode("NICK " + username);
    assert LoginCommands(username, password) == pass + CRLF + (user + CRLF + (nick + CRLF + []));
    ReadThreeFramedLines(pass, user, nick);
  }

  /** A chat line is one line on the wire. */
  lemma PrivmsgLine(who: string, message: string)
    requires IsAscii(who) && IsAscii(message)
    requires NoLineEnd(Encode(who)) && NoLineEnd(Encode(message))
    ensures ReadLines(PrivmsgCommand(who, message)) == [PrivmsgCommand(who, message)]
    ensures Strip(PrivmsgCommand(who, message)) == Encode(PrivmsgText(who, message))
  {
    FramedText("PRIVMSG ", who);
    FramedText("PRIVMSG " + who, " :");
    FramedText("PRIVMSG " + who + " :", message);
    var text := Encode(PrivmsgText(who, message));
    ReadFramedLine(text, []);
    assert text + CRLF + [] == PrivmsgCommand(who, message);
    StripFramed(text);
  }

  lemma PrivmsgTextBytes(who: string, message: string)
    requires IsAscii(who) && IsAscii(message)
    ensures Encode(PrivmsgText(who, message))
         == Encode("PRIVMSG") + [Space] + Encode(who) + [Space, Colon] + Encode(message)
  {
    EncodeConcat("PRIVMSG", " ");
    EncodeConcat("PRIVMSG ", who);
    EncodeConcat("PRIVMSG " + who, " :");
    EncodeConcat("PRIVMSG " + who + " :", message);
    assert "PRIVMSG" + " " == "PRIVMSG ";
  }

  /** When the server relays one of our chat lines with our identity as sender,
      the parser yields exactly the target and the text we sent, whatever ':'
      characters the text contains. */
  lemma PrivmsgRelayed(sender: string, who: string, message: string)
    requires IsToken(sender) && IsToken(who) && IsAscii(message)
    ensures var relayed := [Colon] + Encode(sender) + [Space] + Encode(PrivmsgText(who, message));
      IsAsciiBytes(relayed) && Parse(relayed) == Ok(Message(sender, "PRIVMSG", [who], message))
  {
    var m := Message(sender, "PRIVMSG", [who], message);
    var command := Encode("PRIVMSG");
    assert command == [80, 82, 73, 86, 77, 83, 71];
    assert IsToken("PRIVMSG");
    assert WellFormed(m);
    PrivmsgTextBytes(who, message);
    var ts := HeadTokens(m);
    assert ts == [Encode(sender), command, Encode(who)];
    assert SpaceTerminated(ts[2..]) == Encode(who) + [Space];
    assert SpaceTerminated(ts[1..]) == command + [Space] + Encode(who) + [Space];
    assert Format(m) == [Colon] + Encode(sender) + [Space] + Encode(PrivmsgText(who, message));
    ParseFormat(m);
  }
}
