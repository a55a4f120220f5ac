# MultiBot IRC core, modelled in Dafny

This project models the protocol core of MultiBot, an osu! multiplayer lobby bot that talks IRC to Bancho. The core has four parts:

- **irc.py**: the `Client`. It logs in and writes PRIVMSG and QUIT lines. Its receive loop `_recv` answers `PING` directives through `_handle` and turns the first response line (one starting with `:`) into a `Message`.
- **connector.py**: the `IrcHandler`. It writes the same lines. Its loop `recv_msg` answers directives inline, and its `Message` parser insists on a trailing `:` part.
- **osu.py**: `GameClient.on_message`, which turns one message into at most one lobby event. The event is chosen by the sender, the command, four `re.match` patterns and five fixed status texts over BanchoBot's text.
- **lobby.py**: the `LobbyManager`. It asks BanchoBot to make a room and reads messages until the server reports the client's own JOIN, which names the room's channel. It then sends `!mp password` to the room's channel, and `shutdown` sends `!mp close` there.

The connection is modelled as two fields of each client class:

- `reader` is the sequence of raw lines `readline` will still return.
- `writer` is every byte written so far.

At the end of the input `readline` returns an empty line. Taking `response[0]` of that line raises `IndexError`, and the model reports this as the failure `EmptyLine`. Exceptions are values of `Messages.Failure`. Each receive loop is a `while` loop, proved against one specification function:

- `Protocol.Receive`, shared by both clients and parameterised by which client runs it;
- `Lobby.AwaitJoin`, for the wait for the channel.

The pure parts are datatypes, functions and lemmas:

- ASCII encoding, `strip(b'\r\n')`, `split(b':', 1)`, `split()`, `partition(b' ')` and `removesuffix`;
- the two parsers and the directive handlers;
- `on_message`.

The `re.match` patterns are modelled as Python applies them:

- they are anchored at the start only;
- every `.` of a pattern (including those in `osu.ppy.sh` and the final one of `slot \d+.`) stands for any character except a newline;
- `(.+)` is greedy: the group ends at the last place where the rest of the pattern still matches.

Behaviour of the code worth noting:

- **Missing trailing part.** connector.py's parser raises (`blocks[1]` of a one-element list) on a response line with no second `:`. It does not yield empty data. See `Messages.ParseStrictAgrees`.
- **Bare `PING`.** irc.py's `_handle` cannot unpack `split(b' ', 1)` of a bare `PING` and raises, while connector.py's `partition` answers it with `PONG ` and an empty argument. See `Protocol.BarePing`.
- **End of input.** Running out of input raises `IndexError` on the empty line. No dedicated "connection closed" error is raised.
- **`on_message` checks.** `on_message` classifies BanchoBot's text in any channel. It checks no session channel and relays no player commands.
- **Dots in patterns.** The patterns' dots are wildcards, not literal full stops.

## Model

| member | source | states |
|---|---|---|
| Bytes.DecodeEncode | irc.py:143 | decoding the ASCII encoding of a string gives the string back |
| Bytes.EncodeDecode | irc.py:148-150 | encoding the ASCII decoding of a byte string gives the bytes back |
| Bytes.Strip | irc.py:107 | `strip(b'\r\n')` never lengthens a line and keeps it ASCII |
| Bytes.StripStrips | irc.py:107 | the stripped line neither starts nor ends with CR or LF, and the input is a run of CR/LF, then the stripped line, then a run of CR/LF |
| Bytes.StripFramed | connector.py:48-49 | a line without CR or LF, framed with CR LF, strips back to itself |
| Bytes.FirstIndex | irc.py:141 | the index found holds the separator and no earlier byte does; none is found exactly when the separator is absent |
| Bytes.Partition | connector.py:54 | `partition(sep)`: without `sep` the whole input and nothing; with it, the input is before + sep + after, and `before` holds no sep |
| Bytes.Tokens | irc.py:147 | `split()`: every token is a non-empty run of non-whitespace, and the tokens together, in order, are exactly the input's non-whitespace bytes |
| Bytes.TokensOfSpaceTerminated | irc.py:147 | splitting words each followed by one space gives the words back |
| Bytes.TokensOfLayout | irc.py:147 | `split()` returns exactly the words of any layout of them: any whitespace before and after, and any non-empty run of whitespace between two words |
| Bytes.Gaps | irc.py:147 | every input is such a layout of its own tokens, so the tokens are exactly the maximal runs of non-whitespace, in order |
| Bytes.TokensAscii | irc.py:148-150 | the tokens of an ASCII line are ASCII, so their `decode('ascii')` cannot fail |
| Bytes.ReadLines | irc.py:106 | successive `readline` results: together they are the byte stream; each is non-empty, each but the last ends with LF, and none holds an earlier LF |
| Bytes.ReadFramedLine | irc.py:106 | a CR LF framed line comes out of `readline` as one line, and the rest of the stream follows it |
| Messages.SplitTrailing | irc.py:141 | `split(b':', 1)`: the head holds no ':', and the trailing part, when there is one, is everything after the first ':' |
| Messages.Header | irc.py:147-150 | the head yields a message exactly when it has at least two tokens (otherwise the `IndexError` of `blocks[0]` or `blocks[1]`); the message is well formed, keeps the data, and its sender, command and parameters encode back to the tokens |
| Messages.Parse | irc.py:136-150 | a parsed line started with ':' and yields a well-formed message |
| Messages.ParseStrict | connector.py:77-88 | the strict parser yields only well-formed messages of lines starting with ':' |
| Messages.ParseStrictAgrees | connector.py:82-83 | the two parsers agree on every line except a response line with no second ':', where the strict one fails with `NoTrailing` |
| Messages.ParseWithoutTrailing | irc.py:141-150 | without a trailing part irc.py yields the header of the whole remainder with empty data (a message exactly when the head has at least two tokens, its sender, command and parameters being those tokens) and connector.py fails |
| Messages.ParseKeepsLaterColons | irc.py:141-143 | the data is everything after the first ':' of the remainder, later ':' characters included, under both parsers |
| Messages.ParseWithTrailing | connector.py:81-88 | a response line with a trailing part parses, under both parsers, to the header of its head with the decoded trailing part as data |
| Messages.ParseFormat | irc.py:136-150 | parsing the canonical line `:sender command params :data` of a well-formed message gives the message back, under both parsers |
| Messages.ParseCanonical | irc.py:136-150 | whatever a line parses to, its canonical line parses to the same message |
| Outbound.LoginCommands | irc.py:32-34 | the login bytes are ASCII, three CR LF framed commands long; `Outbound.LoginLines` shows a peer reads them back as PASS, USER and NICK |
| Outbound.PrivmsgCommand | irc.py:40 | the chat line is ASCII and CR LF terminated; `Outbound.PrivmsgLine` and `Outbound.PrivmsgRelayed` show what a peer reads back |
| Outbound.QuitCommand | irc.py:46 | the bytes written on close are exactly `QUIT` and CR LF |
| Outbound.PrivmsgText | irc.py:40 | the PRIVMSG text of ASCII arguments is ASCII, so `encode('ascii')` succeeds |
| Outbound.LoginLines | irc.py:32-36 | a peer reading the login bytes line by line sees exactly `PASS <password>`, `USER <username>`, `NICK <username>`, in that order |
| Outbound.PrivmsgLine | irc.py:39-41 | a chat line is one line on the wire and strips back to `PRIVMSG <who> :<message>` |
| Outbound.PrivmsgRelayed | irc.py:40 | the server's relay of a chat line parses to exactly the target and the text sent, whatever ':' the text holds |
| Protocol.ResponseNotAnswered | irc.py:108-111 | a line starting with ':' is never taken for a directive |
| Protocol.Handle | irc.py:117-124 | `_handle` answers exactly the packets starting "PING " with `PONG <argument>`; without a space it fails at the unpacking, and otherwise it reports the first word as unsupported |
| Protocol.Directive | connector.py:54-60 | `recv_msg` answers "PING <argument>" and a bare "PING"; any other directive is reported with its first word (the whole packet when it has no space) |
| Protocol.HandleAgainstDirective | connector.py:54-60 | the two handlers agree on every packet with a space; without one irc.py fails where connector.py reads the whole packet as the command, answering a bare PING with "PONG " |
| Protocol.PingCount | irc.py:105-112 | the loop's run of answered directives: every line before it is answered and the line after it is not |
| Protocol.Receive | irc.py:103-114 | the receive loop reads no more lines than there are, and a message it returns is well formed, after at least one line |
| Protocol.ReceiveAnswers | irc.py:110-112 | an answered directive writes its PONG first and the loop reads on |
| Protocol.ReceiveStops | irc.py:108-109 | any other line ends the loop with its verdict, after one line and no reply |
| Protocol.ReceiveRunsOut | connector.py:48-50 | at the end of the input the loop fails with `EmptyLine`, having written the PONGs of the run |
| Protocol.Verdict | irc.py:108-114 | the line that ends the loop yields only well-formed messages |
| Protocol.ReceiveRelayed | irc.py:103-124 | behind any run of PING directives, either client writes exactly their PONGs, in order, and returns the next response line's message, reading no further |
| Protocol.BarePing | connector.py:54-58 | a bare "PING" makes irc.py fail at the unpacking without writing, and makes connector.py write "PONG " and read on |
| Protocol.UnsupportedDirective | irc.py:123-124 | a directive whose first word is not PING stops either loop with that word as unsupported, having written nothing |
| Irc.Client.constructor | irc.py:20-24 | a new client has no user name and no connection |
| Irc.Client.Connect | irc.py:26-27 | connecting installs the new connection's lines as the reader and an empty writer |
| Irc.Client.Login | irc.py:29-37 | remembers the user name and appends exactly the PASS, USER and NICK lines to the writer |
| Irc.Client.Privmsg | irc.py:39-42 | appends exactly the PRIVMSG line; the reader and the user name are unchanged |
| Irc.Client.Close | irc.py:45-48 | appends QUIT and closes the writer |
| Irc.Client.Handle | irc.py:117-124 | writes the PONG exactly when the packet is a PING directive; otherwise writes nothing and reports `_handle`'s exception |
| Irc.Client.Recv | irc.py:103-114 | the result, the lines read and the bytes written are those of `Protocol.Receive` for irc.py |
| Connector.IrcHandler.constructor | connector.py:13-15 | a new handler has no connection |
| Connector.IrcHandler.Connect | connector.py:29-30 | connecting installs the new connection's lines as the reader and an empty writer |
| Connector.IrcHandler.Login | connector.py:33-41 | appends exactly the PASS, USER and NICK lines in one write |
| Connector.IrcHandler.Privmsg | connector.py:64-67 | appends exactly the PRIVMSG line; the reader is unchanged |
| Connector.IrcHandler.Shutdown | connector.py:24-27 | appends QUIT and closes the writer |
| Connector.IrcHandler.RecvMsg | connector.py:45-60 | the result, the lines read and the bytes written are those of `Protocol.Receive` for connector.py |
| Osu.OnMessage | osu.py:48-89 | every event but the lobby event comes from a PRIVMSG and belongs to its first parameter; a PRIVMSG without parameters is the `IndexError` case; an unrecognised text is BanchoBot's, reported with its channel and text |
| Osu.BanchoEvent | osu.py:63-89 | a BanchoBot text yields a room event of the PRIVMSG's channel or is reported unrecognised; never a lobby or chat event |
| Osu.RemoveSuffix | osu.py:57 | `removesuffix`: with the suffix the result plus the suffix is the input; without it the input is unchanged |
| Osu.RemoveAppendedSuffix | osu.py:57 | removing the suffix from a name with the suffix appended gives the name |
| Osu.DigitRun | osu.py:65 | the greedy run of `\d+`: all digits, ended by a non-digit or the end |
| Osu.LastSplit | osu.py:65 | the greedy group end at most `i`: the rest of the pattern follows it, and no later end up to `i` works |
| Osu.GroupLongest | osu.py:65-77 | the group is found exactly when `re.match` matches, and it is the longest group with which the pattern matches |
| Osu.BeatmapMatch | osu.py:74-76 | the beatmap id read back is all digits |
| Osu.LobbyOnOwnJoin | osu.py:50-52 | the client's own JOIN (`<username>!cho@ppy.sh`, "None" before login), and only it, raises the lobby event with the message data as the channel |
| Osu.OnlyPrivmsgRaises | osu.py:50-54 | a message is ignored exactly when it is neither a PRIVMSG nor the client's own JOIN |
| Osu.PlayerChat | osu.py:56-61 | a PRIVMSG from any sender that is not BanchoBot once the suffix is removed (with or without the suffix) is chat on its first parameter, from the sender without the suffix, with the data as text |
| Osu.PlayerChatWithSuffix | osu.py:57-61 | a player's name with the suffix appended is relayed as exactly the name |
| Osu.BanchoWithOrWithoutSuffix | osu.py:57-59 | BanchoBot's lines go to the pattern rules whether or not the sender carries the suffix |
| Osu.FirstRuleWins | osu.py:65-73 | the rules are tried in order: a text the join pattern matches is a join whatever else it matches, then leave, then host, each naming the greedy group |
| Osu.JoinRecognised | osu.py:65-67 | "<name> joined in slot <digits><char>", followed by any text without a 'j', raises a join naming exactly the player |
| Osu.LeaveRecognised | osu.py:68-70 | "<name> left the game<char>", followed by any text without an 'l', raises a leave naming the player, when the join rule does not match |
| Osu.HostRecognised | osu.py:71-73 | "<name> became the host<char>", followed by any text without a 'b', raises a new-host event naming the player, when no earlier rule matches |
| Osu.BeatmapMatched | osu.py:74-76 | the beatmap pattern reads the map's name and digit id back out of a beatmap line, whatever follows it without a '(' |
| Osu.BeatmapRecognised | osu.py:74-77 | a beatmap line, followed by any text without a '(', raises a beatmap change with its name and id, when no earlier rule matches |
| Osu.MissingLetter | osu.py:65-73 | a text lacking a letter of a pattern's literal part does not match it |
| Osu.MatchStartText | osu.py:78-79 | "The match has started!" raises match start |
| Osu.ReadyText | osu.py:80-81 | "All players are ready" raises ready |
| Osu.MatchEndTexts | osu.py:84-85 | "The match has finished!" and "Aborted the match" both raise match end |
| Osu.HostChoosingText | osu.py:86-87 | "Host is changing map..." raises host choosing |
| Osu.NoPattern | osu.py:65-77 | a text starting with no 'B' and lacking the letters that each pattern's literal needs matches no pattern |
| Osu.UnrecognisedText | osu.py:88-89 | a BanchoBot text falls through to the printed line exactly when no pattern matches and it is none of the five status texts |
| Lobby.AwaitJoin | lobby.py:25-28 | the wait reads at most the lines there are, and a channel it ends with is ASCII, after at least one line |
| Lobby.Awaiting | lobby.py:25-28 | a channel already known is kept without reading or writing anything; otherwise the wait reads at most the lines there are and a channel found is ASCII |
| Lobby.JoinFound | lobby.py:27-28 | the channel the wait ends with is the data of the client's own JOIN, the message of the last line read |
| Lobby.SkipsOther | lobby.py:27 | a relayed message other than the client's own JOIN is dropped, and the wait reads on |
| Lobby.StopsAtJoin | lobby.py:27-28 | the client's own JOIN ends the wait with its data as the channel |
| Lobby.JoinAfterOthers | lobby.py:25-28 | behind any run of other messages, the wait ends at the first own JOIN with its channel, having read exactly up to it and written nothing |
| Lobby.NoJoinRunsOut | lobby.py:25-26 | when the input ends before the own JOIN, the wait fails with `EmptyLine` having read every line |
| Lobby.IsOwnJoin | lobby.py:27 | the test that ends the wait: a JOIN whose sender is the user name with Bancho's suffix; `Lobby.OwnJoinIsLobbyEvent` ties it to osu.py |
| Lobby.OwnJoinIsLobbyEvent | lobby.py:27 | the wait's test recognises exactly the messages for which osu.py's `on_message` raises its lobby event |
| Lobby.TraceSnoc | lobby.py:26 | one more call of `recv_msg`, where the earlier ones stopped, extends the record of the wait's calls |
| Lobby.TraceAwaits | lobby.py:25-28 | calls that each return a message other than the own JOIN, followed by one that raises or returns the own JOIN, are the wait itself: its outcome, lines read and bytes written |
| Lobby.LobbyManager.constructor | lobby.py:11-17 | a new manager keeps its client, user name and lobby name, and has no channel |
| Lobby.LobbyManager.Lobby | lobby.py:20-32 | writes `!mp make <lobbyname>` to BanchoBot, then the wait's replies, then `!mp password` to the channel the wait found; an exception ends it with no channel and no password line |
| Lobby.LobbyManager.AwaitChannel | lobby.py:25-28 | the loop's calls of `recv_msg` are recorded: each before the last returned another message, the last raised or returned the own JOIN, and the channel, the failure, the reader and the writer follow from them |
| Lobby.LobbyManager.ReceiveRound | lobby.py:26-28 | one call of `recv_msg` extends the record, and only the client's own JOIN sets the channel, to its data |
| Lobby.LobbyManager.Shutdown | lobby.py:35-36 | writes `!mp close` to the channel ("None" when there is none) and nothing else |

## Left out

- asyncio: `drain`, `wait_closed` and the suspension points are not modelled. Each write is an append to `writer`, and `close` or `shutdown` sets a `closed` flag. Writes after close are not rejected.
- `connect` (irc.py:26-27, connector.py:29-30): the network is not modelled. `Connect` takes the incoming lines as a parameter, and connection errors are not modelled.
- irc.py's `event`, `_handle_task`, `on_init`/`on_shutdown`/`on_message` hooks, `start`, `run`, `_recv_loop` and `event_exception` (irc.py:50-100): concurrent dispatch and its failure slot are not modelled.
- connector.py:17-22 and lobby.py:38-43: the `__aenter__`/`__aexit__` context-manager methods, which only call `connect`, `shutdown` or `lobby`, are not modelled.
- connector.py:34-35: the guard in `login` reads attributes that `__init__` never sets and calls `connect` without awaiting it. The model requires a connected handler instead.
- ASCII: `encode('ascii')` and `decode('ascii')` raise on non-ASCII text. The model requires ASCII arguments and ASCII input lines, so those two exceptions are not modelled.
- UnsupportedCommandError's message: the text is a plain string, not an f-string, so it reads literally `Invalid command: {command.decode('ascii')}`. The model keeps only the offending command word in `UnsupportedCommand`.
- osu.py's event handlers (`on_lobby`, `on_join` and the others) and the `print` at osu.py:89: `Osu.OnMessage` returns the event it would raise, or `Unrecognised` with the printed channel and text.
- General regular expressions: only the four patterns of osu.py:65-77 are modelled, all four by one `Osu.Matches` over the `Osu.Pattern` datatype.
- lobby.py:5-6 repeat osu.py's `bancho` and `suffix` constants, and the model uses `Osu.Bancho` and `Osu.Suffix` for both. `host_queue` (lobby.py:12) is declared but never used.
- Lobby.LobbyManager.Lobby: the wait in its contract is stated with `Lobby.AwaitJoin` over the raw lines; the number of `recv_msg` calls the loop makes is recorded only in `AwaitChannel`'s ghost `rounds`.
