/** osu.py's `GameClient.on_message`: the decision chain that turns one IRC
    message into at most one osu! multiplayer event. The chain is pure; the
    event handlers it would call are the events of the result. */
module Osu {
  import opened Wrappers
  import opened Messages

  /** Bancho appends this to every user name in the sender field. */
  const Suffix: string := "!cho@ppy.sh"
  /** The name of the server's own bot, which reports what happens in a room. */
  const Bancho: string := "BanchoBot"

  datatype Event =
    | Lobby(channel: string)
    | Chat(channel: string, player: string, text: string)
    | Join(channel: string, player: string)
    | Leave(channel: string, player: string)
    | HostNew(channel: string, player: string)
    | BeatmapChange(channel: string, name: string, id: string)
    | MatchStart(channel: string)
    | Ready(channel: string)
    | MatchEnd(channel: string)
    | HostChoosing(channel: string)

  datatype Reaction =
    | Ignored
    | Raised(event: Event)
    /** A BanchoBot line no rule knows; the client prints "(<channel>) BanchoBot: <text>". */
    | Unrecognised(channel: string, text: string)
    /** A PRIVMSG without parameters: `message.params[0]` raises IndexError. */
    | MissingChannel

  /** An f-string renders a missing name as "None". */
  function Shown(name: Option<string>): string {
    match name
    case None => "None"
    case Some(s) => s
  }

  predicate EndsWith(s: string, suffix: string) {
    |suffix| <= |s| && s[|s| - |suffix|..] == suffix
  }

  /** `str.removesuffix`. */
  function RemoveSuffix(s: string, suffix: string): (r: string)
    ensures EndsWith(s, suffix) ==> r + suffix == s
    ensures !EndsWith(s, suffix) ==> r == s
  {
    if EndsWith(s, suffix) then
      assert s == s[..|s| - |suffix|] + s[|s| - |suffix|..];
      s[..|s| - |suffix|]
    else s
  }

  lemma RemoveAppendedSuffix(name: string, suffix: string)
    ensures RemoveSuffix(name + suffix, suffix) == name
  {
    assert EndsWith(name + suffix, suffix) by {
      assert (name + suffix)[|name|..] == suffix;
    }
  }

  // ---------------------------------------------------------------------------
  // The patterns, as `re.match` applies them: anchored at the start only, '.'
  // standing for any character but a newline, `(.+)` as long as it can be.

  const JoinedInSlot: string := " joined in slot "
  const LeftTheGame: string := " left the game."
  const BecameTheHost: string := " became the host."
  const BeatmapChanged: string := "Beatmap changed to: "
  const BeatmapLink: string := " (https://osu.ppy.sh/b/"

  /** `s` begins with a match of `p`, where a '.' of `p` stands for any character
      but a newline and every other character for itself. */
  predicate MatchesPrefix(s: string, p: string) {
    |p| <= |s| && forall i :: 0 <= i < |p| ==> if p[i] == '.' then s[i] != '\n' else s[i] == p[i]
  }

  predicate IsDigit(c: char) {
    '0' <= c <= '9'
  }

  /** The length of the run of digits `s` starts with: what a greedy `\d+` takes. */
  function DigitRun(s: string): (n: nat)
    ensures n <= |s|
    ensures forall i :: 0 <= i < n ==> IsDigit(s[i])
    ensures n < |s| ==> !IsDigit(s[n])
  {
    if s != [] && IsDigit(s[0]) then
      var n := DigitRun(s[1..]);
      assert forall i :: 0 < i < n + 1 ==> s[i] == s[1..][i - 1];
      n + 1
    else 0
  }

  /** The four patterns with a group: what each needs after its `(.+)`. */
  datatype Pattern =
    | Joined        // (.+) joined in slot \d+.
    | Left          // (.+) left the game.
    | BecameHost    // (.+) became the host.
    | BeatmapLinked // Beatmap changed to: (.+) \(https://osu.ppy.sh/b/(\d+)\)

  predicate Follows(p: Pattern, t: string) {
    match p
    case Joined =>
      && MatchesPrefix(t, JoinedInSlot) && |t| >= |JoinedInSlot| + 2
      && IsDigit(t[|JoinedInSlot|]) && t[|JoinedInSlot| + 1] != '\n'
    case Left => MatchesPrefix(t, LeftTheGame)
    case BecameHost => MatchesPrefix(t, BecameTheHost)
    case BeatmapLinked =>
      && MatchesPrefix(t, BeatmapLink)
      && var u := t[|BeatmapLink|..];
         0 < DigitRun(u) < |u| && u[DigitRun(u)] == ')'
  }

  /** The group may end at `j`: it is one or more characters without a newline,
      and the rest of the pattern follows it. */
  predicate Splits(p: Pattern, s: string, j: int) {
    1 <= j <= |s| && '\n' !in s[..j] && Follows(p, s[j..])
  }

  /** `p` matches at the start of `s`. */
  predicate Matches(p: Pattern, s: string) {
    exists j :: 1 <= j <= |s| && Splits(p, s, j)
  }

  /** The group ends at the last place at most `i` where it may end. */
  function LastSplit(p: Pattern, s: string, i: nat): (r: Option<nat>)
    requires i <= |s|
    ensures r.Some? ==> r.value <= i && Splits(p, s, r.value)
    ensures forall j :: (if r.Some? then r.value else 0) < j <= i ==> !Splits(p, s, j)
  {
    if i == 0 then None
    else if Splits(p, s, i) then Some(i)
    else LastSplit(p, s, i - 1)
  }

  /** Where the greedy group of `p` ends in `s`, if `p` matches. */
  function Group(p: Pattern, s: string): Option<nat> {
    LastSplit(p, s, |s|)
  }

  /** The group is found exactly when the pattern matches, and it is the longest. */
  lemma GroupLongest(p: Pattern, s: string)
    ensures Group(p, s).Some? <==> Matches(p, s)
    ensures Group(p, s).Some? ==>
      Splits(p, s, Group(p, s).value) && forall j :: Group(p, s).value < j ==> !Splits(p, s, j)
  {
    if Matches(p, s) {
      var j :| 1 <= j <= |s| && Splits(p, s, j);
    }
  }

  lemma GroupAt(p: Pattern, s: string, j: nat)
    requires Splits(p, s, j)
    requires forall k :: j < k <= |s| ==> !Splits(p, s, k)
    ensures Group(p, s) == Some(j)
  {
  }

  /** The name and id a beatmap line carries, if it is one. */
  function BeatmapMatch(text: string): (r: Option<(string, string)>)
    ensures r.Some? ==> forall i :: 0 <= i < |r.value.1| ==> IsDigit(r.value.1[i])
  {
    if |text| >= |BeatmapChanged| && text[..|BeatmapChanged|] == BeatmapChanged then
      var rest := text[|BeatmapChanged|..];
      match Group(BeatmapLinked, rest)
      case None => None
      case Some(j) =>
        var u := rest[j..][|BeatmapLink|..];
        Some((rest[..j], u[..DigitRun(u)]))
    else None
  }

  const MatchStarted: string := "The match has started!"
  const AllReady: string := "All players are ready"
  const MatchFinished: string := "The match has finished!"
  const MatchAborted: string := "Aborted the match"
  const ChangingMap: string := "Host is changing map..."

  /** The BanchoBot texts, tried in order; the first rule that matches wins. */
  function BanchoEvent(channel: string, text: string): (r: Reaction)
    ensures r.Raised? || r == Unrecognised(channel, text)
    ensures r.Raised? ==> !r.event.Lobby? && !r.event.Chat? && r.event.channel == channel
  {
    var joined := Group(Joined, text);
    var left := Group(Left, text);
    var host := Group(BecameHost, text);
    var beatmap := BeatmapMatch(text);
    if joined.Some? then Raised(Join(channel, text[..joined.value]))
    else if left.Some? then Raised(Leave(channel, text[..left.value]))
    else if host.Some? then Raised(HostNew(channel, text[..host.value]))
    else if beatmap.Some? then Raised(BeatmapChange(channel, beatmap.value.0, beatmap.value.1))
    else if text == MatchStarted then Raised(MatchStart(channel))
    else if text == AllReady then Raised(Ready(channel))
    else if text == MatchFinished || text == MatchAborted then Raised(MatchEnd(channel))
    else if text == ChangingMap then Raised(HostChoosing(channel))
    else Unrecognised(channel, text)
  }

  /** `on_message` of a client logged in as `username` (None before `login`). */
  function OnMessage(username: Option<string>, m: Message): (r: Reaction)
    ensures r.MissingChannel? ==> m.command == "PRIVMSG" && m.params == []
    ensures r.Raised? && !r.event.Lobby? ==> m.command == "PRIVMSG" && m.params != [] && r.event.channel == m.params[0]
    ensures r.Unrecognised? ==>
      && m.command == "PRIVMSG" && m.params != [] && r == Unrecognised(m.params[0], m.data)
      && RemoveSuffix(m.sender, Suffix) == Bancho
  {
    if m.command == "JOIN" && m.sender == Shown(username) + Suffix then Raised(Lobby(m.data))
    else if m.command != "PRIVMSG" then Ignored
    else if m.params == [] then MissingChannel
    else
      var channel := m.params[0];
      var sender := RemoveSuffix(m.sender, Suffix);
      if sender != Bancho then Raised(Chat(channel, sender, m.data))
      else BanchoEvent(channel, m.data)
  }

  // ---------------------------------------------------------------------------
  // What each message yields

  /** The client's own JOIN, and only it, yields a lobby event, carrying the
      message's data as the channel. */
  lemma LobbyOnOwnJoin(username: Option<string>, m: Message)
    ensures OnMessage(username, m).Raised? && OnMessage(username, m).event.Lobby?
        <==> m.command == "JOIN" && m.sender == Shown(username) + Suffix
    ensures m.command == "JOIN" && m.sender == Shown(username) + Suffix
        ==> OnMessage(username, m) == Raised(Lobby(m.data))
  {
  }

  /** Only PRIVMSG lines and the client's own JOIN yield anything. */
  lemma OnlyPrivmsgRaises(username: Option<string>, m: Message)
    ensures OnMessage(username, m) == Ignored
        <==> m.command != "PRIVMSG" && !(m.command == "JOIN" && m.sender == Shown(username) + Suffix)
  {
  }

  /** A chat line from anyone but BanchoBot is relayed as chat, from the sender
      with the suffix removed (a sender without it is taken as it is), and no
      pattern is tried. */
  lemma PlayerChat(username: Option<string>, sender: string, channel: string, rest: seq<string>, text: string)
    requires RemoveSuffix(sender, Suffix) != Bancho
    ensures OnMessage(username, Message(sender, "PRIVMSG", [channel] + rest, text))
         == Raised(Chat(channel, RemoveSuffix(sender, Suffix), text))
  {
  }

  /** In particular a player's name with the suffix appended is relayed as the name. */
  lemma PlayerChatWithSuffix(username: Option<string>, player: string, channel: string, rest: seq<string>, text: string)
    requires player != Bancho
    ensures OnMessage(username, Message(player + Suffix, "PRIVMSG", [channel] + rest, text))
         == Raised(Chat(channel, player, text))
  {
    RemoveAppendedSuffix(player, Suffix);
    PlayerChat(username, player + Suffix, channel, rest, text);
  }

  /** BanchoBot's lines count as BanchoBot's whether the server appends the suffix or not. */
  lemma BanchoWithOrWithoutSuffix(username: Option<string>, sender: string, channel: string, rest: seq<string>, text: string)
    requires sender == Bancho || sender == Bancho + Suffix
    ensures OnMessage(username, Message(sender, "PRIVMSG", [channel] + rest, text)) == BanchoEvent(channel, text)
  {
    RemoveAppendedSuffix(Bancho, Suffix);
    assert !EndsWith(Bancho, Suffix);
  }

  /** The rule tried first wins: a text the join pattern matches is a join, one
      the leave pattern matches but not the join pattern is a leave, and so on. */
  lemma FirstRuleWins(channel: string, text: string)
    ensures Matches(Joined, text) ==>
      BanchoEvent(channel, text) == Raised(Join(channel, text[..Group(Joined, text).value]))
    ensures !Matches(Joined, text) && Matches(Left, text) ==>
      BanchoEvent(channel, text) == Raised(Leave(channel, text[..Group(Left, text).value]))
    ensures !Matches(Joined, text) && !Matches(Left, text) && Matches(BecameHost, text) ==>
      BanchoEvent(channel, text) == Raised(HostNew(channel, text[..Group(BecameHost, text).value]))
  {
    GroupLongest(Joined, text);
    GroupLongest(Left, text);
    GroupLongest(BecameHost, text);
  }

  /** Every literal begins with a space followed by a character that is not a
      wildcard, so a text that does not begin that way cannot follow a group. */
  lemma NoStart(p: Pattern, t: string)
    requires |t| < 2 || t[0] != ' ' || t[1] != Literal(p)[1]
    ensures !Follows(p, t)
  {
    assert Literal(p)[0] == ' ' && Literal(p)[1] != '.';
  }

  /** Once the group has reached the literal, it cannot end any later: within
      `body` the literal's first two characters never recur, and `tail` lacks
      the second. `re.match` only anchors at the start, so `tail` is anything. */
  lemma NoLaterSplit(p: Pattern, name: string, body: string, tail: string, j: nat)
    requires forall d :: 1 <= d < |body| - 1 ==> body[d] != ' ' || body[d + 1] != Literal(p)[1]
    requires Literal(p)[1] !in tail
    requires |name| < j <= |name + body + tail|
    ensures !Splits(p, name + body + tail, j)
  {
    var text := name + body + tail;
    var d := j - |name|;
    var t := text[j..];
    assert t == (body + tail)[d..];
    if |t| >= 2 {
      if d + 1 < |body| {
        assert t[0] == body[d] && t[1] == body[d + 1];
      } else {
        assert t[1] == tail[d + 1 - |body|];
      }
    }
    NoStart(p, t);
  }

  /** The group of `p` ends where the literal begins when the literal's first
      two characters do not recur. */
  lemma GroupBeforeLiteral(p: Pattern, name: string, body: string, tail: string)
    requires forall d :: 1 <= d < |body| - 1 ==> body[d] != ' ' || body[d + 1] != Literal(p)[1]
    requires Literal(p)[1] !in tail
    requires Splits(p, name + body + tail, |name|)
    ensures Group(p, name + body + tail) == Some(|name|)
  {
    var text := name + body + tail;
    forall j | |name| < j <= |text| ensures !Splits(p, text, j) {
      NoLaterSplit(p, name, body, tail, j);
    }
    GroupAt(p, text, |name|);
  }

  /** "<name> joined in slot <n>." names the player who joined, whatever the name
      holds short of a newline and whatever follows without a 'j': the group is
      as long as it can be. */
  lemma JoinRecognised(channel: string, name: string, slot: string, c: char, tail: string)
    requires name != [] && '\n' !in name && c != '\n' && 'j' !in tail
    requires slot != [] && forall i :: 0 <= i < |slot| ==> IsDigit(slot[i])
    ensures BanchoEvent(channel, name + JoinedInSlot + slot + [c] + tail) == Raised(Join(channel, name))
  {
    var body := JoinedInSlot + slot + [c];
    var text := name + body + tail;
    assert text == name + JoinedInSlot + slot + [c] + tail;
    JoinedSplits(name, slot, c, tail);
    JoinedBody(slot, c);
    GroupBeforeLiteral(Joined, name, body, tail);
    assert text[..|name|] == name;
  }

  lemma JoinedSplits(name: string, slot: string, c: char, tail: string)
    requires name != [] && '\n' !in name && c != '\n'
    requires slot != [] && forall i :: 0 <= i < |slot| ==> IsDigit(slot[i])
    ensures Splits(Joined, name + JoinedInSlot + slot + [c] + tail, |name|)
  {
    var text := name + JoinedInSlot + slot + [c] + tail;
    var t := text[|name|..];
    assert t == JoinedInSlot + slot + [c] + tail;
    assert text[..|name|] == name;
    assert t[|JoinedInSlot|] == slot[0];
    assert t[|JoinedInSlot| + 1] == if |slot| > 1 then slot[1] else c;
  }

  /** After its first character, " joined in slot " has no space followed by a
      'j', and neither do the slot's digits. */
  lemma JoinedBody(slot: string, c: char)
    requires slot != [] && forall i :: 0 <= i < |slot| ==> IsDigit(slot[i])
    ensures var body := JoinedInSlot + slot + [c];
      forall d :: 1 <= d < |body| - 1 ==> body[d] != ' ' || body[d + 1] != Literal(Joined)[1]
  {
    var body := JoinedInSlot + slot + [c];
    assert Literal(Joined)[1] == 'j';
    forall d | 1 <= d < |body| - 1 ensures body[d] != ' ' || body[d + 1] != 'j' {
      if d < |JoinedInSlot| {
        assert body[d] == JoinedInSlot[d];
        assert body[d + 1] == if d + 1 < |JoinedInSlot| then JoinedInSlot[d + 1] else slot[0];
        JoinedInSlotSpaces(d);
      } else {
        assert body[d] == slot[d - |JoinedInSlot|];
      }
    }
  }

  lemma JoinedInSlotSpaces(d: nat)
    requires 1 <= d < |JoinedInSlot|
    ensures JoinedInSlot[d] == ' ' ==> d + 1 == |JoinedInSlot| || JoinedInSlot[d + 1] != 'j'
  {
  }

  /** "<name> left the game." names the player who left, when the line is not
      also a join line, whatever follows without an 'l'. */
  lemma LeaveRecognised(channel: string, name: string, c: char, tail: string)
    requires name != [] && '\n' !in name && c != '\n' && 'l' !in tail
    requires !Matches(Joined, name + LeftTheGame[..|LeftTheGame| - 1] + [c] + tail)
    ensures BanchoEvent(channel, name + LeftTheGame[..|LeftTheGame| - 1] + [c] + tail)
         == Raised(Leave(channel, name))
  {
    var body := LeftTheGame[..|LeftTheGame| - 1] + [c];
    var text := name + body + tail;
    assert text == name + LeftTheGame[..|LeftTheGame| - 1] + [c] + tail;
    GroupLongest(Joined, text);
    assert text[..|name|] == name;
    assert text[|name|..] == LeftTheGame[..|LeftTheGame| - 1] + [c] + tail;
    LiteralBody(Left, c);
    GroupBeforeLiteral(Left, name, body, tail);
  }

  /** "<name> became the host." names the new host, when no earlier rule
      matches, whatever follows without a 'b'. */
  lemma HostRecognised(channel: string, name: string, c: char, tail: string)
    requires name != [] && '\n' !in name && c != '\n' && 'b' !in tail
    requires !Matches(Joined, name + BecameTheHost[..|BecameTheHost| - 1] + [c] + tail)
    requires !Matches(Left, name + BecameTheHost[..|BecameTheHost| - 1] + [c] + tail)
    ensures BanchoEvent(channel, name + BecameTheHost[..|BecameTheHost| - 1] + [c] + tail)
         == Raised(HostNew(channel, name))
  {
    var body := BecameTheHost[..|BecameTheHost| - 1] + [c];
    var text := name + body + tail;
    assert text == name + BecameTheHost[..|BecameTheHost| - 1] + [c] + tail;
    GroupLongest(Joined, text);
    GroupLongest(Left, text);
    assert text[..|name|] == name;
    assert text[|name|..] == BecameTheHost[..|BecameTheHost| - 1] + [c] + tail;
    LiteralBody(BecameHost, c);
    GroupBeforeLiteral(BecameHost, name, body, tail);
  }

  /** "Beatmap changed to: <name> (https://osu.ppy.sh/b/<id>)" carries the map's
      name and its numeric id, when no earlier rule matches, whatever follows
      without a '('. */
  lemma BeatmapRecognised(channel: string, name: string, id: string, tail: string)
    requires name != [] && '\n' !in name && '(' !in tail
    requires id != [] && forall i :: 0 <= i < |id| ==> IsDigit(id[i])
    requires !Matches(Joined, BeatmapChanged + name + BeatmapLink + id + ")" + tail)
    requires !Matches(Left, BeatmapChanged + name + BeatmapLink + id + ")" + tail)
    requires !Matches(BecameHost, BeatmapChanged + name + BeatmapLink + id + ")" + tail)
    ensures BanchoEvent(channel, BeatmapChanged + name + BeatmapLink + id + ")" + tail)
         == Raised(BeatmapChange(channel, name, id))
  {
    var text := BeatmapChanged + name + BeatmapLink + id + ")" + tail;
    BeatmapMatched(name, id, tail);
    GroupLongest(Joined, text);
    GroupLongest(Left, text);
    GroupLongest(BecameHost, text);
  }

  /** The beatmap pattern reads the name and the id back out of a beatmap line. */
  lemma BeatmapMatched(name: string, id: string, tail: string)
    requires name != [] && '\n' !in name && '(' !in tail
    requires id != [] && forall i :: 0 <= i < |id| ==> IsDigit(id[i])
    ensures BeatmapMatch(BeatmapChanged + name + BeatmapLink + id + ")" + tail) == Some((name, id))
  {
    var text := BeatmapChanged + name + BeatmapLink + id + ")" + tail;
    var rest := text[|BeatmapChanged|..];
    assert text[..|BeatmapChanged|] == BeatmapChanged;
    assert rest == name + BeatmapLink + id + ")" + tail;
    LinkGroup(name, id, tail);
    var u := rest[|name|..][|BeatmapLink|..];
    assert u == id + (")" + tail);
    DigitsThenOther(id, ")" + tail);
    assert rest[..|name|] == name && u[..|id|] == id;
  }

  /** `\d+` takes exactly the digits before a non-digit. */
  lemma DigitsThenOther(digits: string, rest: string)
    requires forall i :: 0 <= i < |digits| ==> IsDigit(digits[i])
    requires rest != [] && !IsDigit(rest[0])
    ensures DigitRun(digits + rest) == |digits|
  {
    var u := digits + rest;
    assert u[|digits|] == rest[0];
    assert forall i :: 0 <= i < |digits| ==> u[i] == digits[i];
  }

  /** The name's group ends where the link begins. */
  lemma LinkGroup(name: string, id: string, tail: string)
    requires name != [] && '\n' !in name && '(' !in tail
    requires id != [] && forall i :: 0 <= i < |id| ==> IsDigit(id[i])
    ensures Group(BeatmapLinked, name + BeatmapLink + id + ")" + tail) == Some(|name|)
  {
    var body := BeatmapLink + id + ")";
    assert name + body + tail == name + BeatmapLink + id + ")" + tail;
    LinkSplits(name, id, tail);
    LinkBody(id);
    assert Literal(BeatmapLinked)[1] == '(';
    assert forall d :: 1 <= d < |body| - 1 ==> body[d] != ' ' || body[d + 1] != Literal(BeatmapLinked)[1];
    GroupBeforeLiteral(BeatmapLinked, name, body, tail);
  }

  /** The leave and host literals, their last wildcard taken by `c`: past the
      first character, no space is followed by the literal's second character. */
  lemma LiteralBody(p: Pattern, c: char)
    requires p == Left || p == BecameHost
    ensures var body := Literal(p)[..|Literal(p)| - 1] + [c];
      forall d :: 1 <= d < |body| - 1 ==> body[d] != ' ' || body[d + 1] != Literal(p)[1]
  {
    var lit := Literal(p);
    var body := lit[..|lit| - 1] + [c];
    forall d | 1 <= d < |body| - 1 ensures body[d] != ' ' || body[d + 1] != lit[1] {
      assert body[d] == lit[d];
      assert body[d + 1] == if d + 1 < |lit| - 1 then lit[d + 1] else c;
      assert lit[|lit| - 2] != ' ';
    }
  }

  /** Past its first character, the link holds no space; nor do the id's digits. */
  lemma LinkBody(id: string)
    requires forall i :: 0 <= i < |id| ==> IsDigit(id[i])
    ensures var body := BeatmapLink + id + ")";
      forall d :: 1 <= d < |body| - 1 ==> body[d] != ' '
  {
    var body := BeatmapLink + id + ")";
    forall d | 1 <= d < |body| - 1 ensures body[d] != ' ' {
      if d < |BeatmapLink| {
        assert body[d] == BeatmapLink[d];
        LinkSpaces(d);
      } else {
        assert body[d] == id[d - |BeatmapLink|];
      }
    }
  }

  lemma LinkSplits(name: string, id: string, tail: string)
    requires name != [] && '\n' !in name
    requires id != [] && forall i :: 0 <= i < |id| ==> IsDigit(id[i])
    ensures Splits(BeatmapLinked, name + BeatmapLink + id + ")" + tail, |name|)
  {
    var rest := name + BeatmapLink + id + ")" + tail;
    var t := rest[|name|..];
    assert rest[..|name|] == name;
    assert t == BeatmapLink + id + ")" + tail;
    var u := t[|BeatmapLink|..];
    assert u == id + ")" + tail;
    assert u[|id|] == ')';
  }

  lemma LinkSpaces(d: nat)
    requires 1 <= d < |BeatmapLink|
    ensures BeatmapLink[d] != ' '
  {
  }

  /** The literal text that follows each group. */
  function Literal(p: Pattern): string {
    match p
    case Joined => JoinedInSlot
    case Left => LeftTheGame
    case BecameHost => BecameTheHost
    case BeatmapLinked => BeatmapLink
  }

  /** A pattern cannot match a text that lacks one of the characters its literal
      part spells out. */
  lemma MissingLetter(p: Pattern, s: string, c: char)
    requires c in Literal(p) && c != '.' && c !in s
    ensures !Matches(p, s)
  {
    var i :| 0 <= i < |Literal(p)| && Literal(p)[i] == c;
    forall j | 1 <= j <= |s| ensures !Splits(p, s, j) {
      if j + i < |s| {
        assert s[j..][i] != c;
      }
    }
  }

  /** The fixed status texts match none of the patterns, so each yields its own
      event; a finished and an aborted match both end the match. */
  lemma MatchStartText(channel: string, text: string)
    requires text == MatchStarted
    ensures BanchoEvent(channel, text) == Raised(MatchStart(channel))
  {
    Spelling(text, 'f', 'b');
    NoPattern(text, 'f', 'b');
  }

  lemma ReadyText(channel: string, text: string)
    requires text == AllReady
    ensures BanchoEvent(channel, text) == Raised(Ready(channel))
  {
    Spelling(text, 'f', 'b');
    NoPattern(text, 'f', 'b');
    assert text[0] != MatchStarted[0];
  }

  lemma MatchEndTexts(channel: string, text: string)
    requires text == MatchFinished || text == MatchAborted
    ensures BanchoEvent(channel, text) == Raised(MatchEnd(channel))
  {
    if text == MatchFinished {
      Spelling(text, 'g', 'b');
      NoPattern(text, 'g', 'b');
      assert text[14] != MatchStarted[14] && text[0] != AllReady[0];
    } else {
      Spelling(text, 'f', 's');
      NoPattern(text, 'f', 's');
      assert text[0] != MatchStarted[0] && text[1] != AllReady[1];
    }
  }

  lemma HostChoosingText(channel: string, text: string)
    requires text == ChangingMap
    ensures BanchoEvent(channel, text) == Raised(HostChoosing(channel))
  {
    Spelling(text, 'f', 'b');
    NoPattern(text, 'f', 'b');
    assert text[0] == 'H';
    assert MatchStarted[0] != 'H' && AllReady[0] != 'H' && MatchFinished[0] != 'H' && MatchAborted[0] != 'H';
  }

  /** The letters of the patterns each status text lacks. */
  lemma Spelling(text: string, leftLetter: char, hostLetter: char)
    requires || (text == MatchStarted && leftLetter == 'f' && hostLetter == 'b')
             || (text == AllReady && leftLetter == 'f' && hostLetter == 'b')
             || (text == MatchFinished && leftLetter == 'g' && hostLetter == 'b')
             || (text == MatchAborted && leftLetter == 'f' && hostLetter == 's')
             || (text == ChangingMap && leftLetter == 'f' && hostLetter == 'b')
    ensures 'j' !in text && leftLetter in LeftTheGame && hostLetter in BecameTheHost
    ensures leftLetter != '.' && hostLetter != '.' && leftLetter !in text && hostLetter !in text
    ensures text != [] && text[0] != 'B'
  {
    PatternLetters();
    if text == MatchStarted {
      StartedLacks(text);
    } else if text == AllReady {
      ReadyLacks(text);
    } else if text == MatchFinished {
      FinishedLacks(text);
    } else if text == MatchAborted {
      AbortedLacks(text);
    } else {
      ChangingLacks(text);
    }
  }

  lemma PatternLetters()
    ensures 'f' in LeftTheGame && 'g' in LeftTheGame
    ensures 'b' in BecameTheHost && 's' in BecameTheHost
  {
    assert LeftTheGame[3] == 'f' && LeftTheGame[10] == 'g';
    assert BecameTheHost[1] == 'b' && BecameTheHost[14] == 's';
  }

  lemma StartedLacks(text: string)
    requires text == MatchStarted
    ensures forall k :: 0 <= k < |text| ==> text[k] != 'j' && text[k] != 'f' && text[k] != 'b'
    ensures text != [] && text[0] != 'B'
  {
  }

  lemma ReadyLacks(text: string)
    requires text == AllReady
    ensures forall k :: 0 <= k < |text| ==> text[k] != 'j' && text[k] != 'f' && text[k] != 'b'
    ensures text != [] && text[0] != 'B'
  {
  }

  lemma FinishedLacks(text: string)
    requires text == MatchFinished
    ensures forall k :: 0 <= k < |text| ==> text[k] != 'j' && text[k] != 'g' && text[k] != 'b'
    ensures text != [] && text[0] != 'B'
  {
  }

  lemma AbortedLacks(text: string)
    requires text == MatchAborted
    ensures forall k :: 0 <= k < |text| ==> text[k] != 'j' && text[k] != 'f' && text[k] != 's'
    ensures text != [] && text[0] != 'B'
  {
  }

  lemma ChangingLacks(text: string)
    requires text == ChangingMap
    ensures forall k :: 0 <= k < |text| ==> text[k] != 'j' && text[k] != 'f' && text[k] != 'b'
    ensures text != [] && text[0] != 'B'
  {
  }

  lemma NoPattern(text: string, leftLetter: char, hostLetter: char)
    requires 'j' !in text && leftLetter in LeftTheGame && hostLetter in BecameTheHost
    requires leftLetter != '.' && hostLetter != '.' && leftLetter !in text && hostLetter !in text
    requires text != [] && text[0] != 'B'
    ensures Group(Joined, text).None? && Group(Left, text).None? && Group(BecameHost, text).None?
    ensures BeatmapMatch(text).None?
  {
    MissingLetter(Joined, text, 'j');
    MissingLetter(Left, text, leftLetter);
    MissingLetter(BecameHost, text, hostLetter);
    GroupLongest(Joined, text);
    GroupLongest(Left, text);
    GroupLongest(BecameHost, text);
    if |text| >= |BeatmapChanged| {
      assert text[..|BeatmapChanged|][0] != BeatmapChanged[0];
    }
  }

  /** A BanchoBot text is reported as unrecognised exactly when no rule matches it. */
  lemma UnrecognisedText(channel: string, text: string)
    ensures BanchoEvent(channel, text) == Unrecognised(channel, text)
        <==> && !Matches(Joined, text) && !Matches(Left, text) && !Matches(BecameHost, text)
             && BeatmapMatch(text).None?
             && text !in [MatchStarted, AllReady, MatchFinished, MatchAborted, ChangingMap]
  {
    GroupLongest(Joined, text);
    GroupLongest(Left, text);
    GroupLongest(BecameHost, text);
  }
}
