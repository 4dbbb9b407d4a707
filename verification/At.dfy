/**
  * AT messages of the hands-free profile (at.c): the printer, and the parser that cuts a stream into messages.
  * Strings are C strings: they hold no NUL.
  */
module At {

  datatype Option<T> = None | Some(value: T)

  datatype Type = Raw | Cmd | Get | Put | Test | Resp

  /** The size of the command buffer. */
  const SIZE := 256

  datatype Message = Message(kind: Type, command: string, value: Option<string>)

  // ---------------------------------------------------------------------------------------------
  // at_build

  /** What at_build prints; an unsolicited response has no command. */
  function Build(kind: Type, command: Option<string>, value: string): string {
    var c := if command.Some? then command.value else "";
    match kind
    case Raw => c
    case Cmd => "AT" + c + "\r"
    case Get => "AT" + c + "?\r"
    case Put => "AT" + c + "=" + value + "\r"
    case Test => "AT" + c + "=?\r"
    case Resp => if command.Some? then "\r\n" + c + ":" + value + "\r\n" else "\r\n" + value + "\r\n"
  }

  // ---------------------------------------------------------------------------------------------
  // at_parse as a function

  /** The place of the first c, |s| when there is none. */
  function Chr(s: string, c: char): (i: nat)
    ensures i <= |s| && (i < |s| ==> s[i] == c) && forall j | 0 <= j < i :: s[j] != c
  {
    if s == "" || s[0] == c then 0 else 1 + Chr(s[1..], c)
  }

  function ToUpper(c: char): char {
    if 'a' <= c <= 'z' then c - 'a' + 'A' else c
  }

  function Upper(s: string): (r: string)
    ensures |r| == |s| && forall i | 0 <= i < |s| :: r[i] == ToUpper(s[i])
  {
    if s == "" then "" else [ToUpper(s[0])] + Upper(s[1..])
  }

  predicate IsCommand(s: string) {
    |s| >= 2 && ToUpper(s[0]) == 'A' && ToUpper(s[1]) == 'T'
  }

  /** The first n characters, or all of them. */
  function Cut(s: string, n: nat): string {
    if |s| <= n then s else s[..n]
  }

  /** The command in the buffer. */
  function CommandOf(body: string): Message {
    var e, q := Chr(body, '='), Chr(body, '?');
    if e < |body| then
      if e + 1 < |body| && body[e + 1] == '?' then Message(Test, Upper(body[..e]), None)
      else Message(Put, Upper(body[..e]), Some(body[e + 1..]))
    else if q < |body| then Message(Get, Upper(body[..q]), None)
    else Message(Cmd, Upper(body), None)
  }

  /** The response in the buffer; without a separator all of it is the value, of which the last place is lost. */
  function ResponseOf(body: string): Message {
    var c := Chr(body, ':');
    var e := if c < |body| then c else Chr(body, '=');
    if e < |body| then Message(Resp, Upper(body[..e]), Some(body[e + 1..]))
    else Message(Resp, "", Some(Cut(body, SIZE - 2)))
  }

  /** at_parse: the message and the place of the next one. */
  function Parse(s: string): (r: Option<(Message, nat)>)
    ensures r.Some? ==> 0 < r.value.1 <= |s|
    decreases |s|
  {
    var feed := Chr(s, '\r');
    if feed == |s| then None
    else if feed == 0 then
      var r := Parse(s[1..]);
      if r.Some? then Some((r.value.0, r.value.1 + 1)) else None
    else if IsCommand(s) then Some((CommandOf(Cut(s[2..feed], SIZE - 1)), feed + 1))
    else if s[0] != '\n' then None
    else
      var end := if feed + 1 < |s| && s[feed + 1] == '\n' then feed + 2 else feed + 1;
      Some((ResponseOf(Cut(s[1..feed], SIZE - 1)), end))
  }

  // ---------------------------------------------------------------------------------------------
  // Round trip

  predicate Without(s: string, c: char) {
    forall i | 0 <= i < |s| :: s[i] != c
  }

  /** A message that at_build prints so that at_parse finds it again. */
  predicate Printable(kind: Type, command: Option<string>, value: string) {
    match kind
    case Raw => false
    case Resp =>
      Without(value, '\r') &&
      (if command.Some? then
         Without(command.value, ':') && Without(command.value, '\r') && |command.value| + 1 + |value| < SIZE
       else Without(value, ':') && Without(value, '=') && |value| < SIZE - 1)
    case Cmd => command.Some? && Plain(command.value) && Without(command.value, '?') && |command.value| < SIZE
    case Get => command.Some? && Plain(command.value) && Without(command.value, '?') && |command.value| + 1 < SIZE
    case Test => command.Some? && Plain(command.value) && |command.value| + 2 < SIZE
    case Put =>
      && command.Some? && Plain(command.value) && Without(value, '\r') && |command.value| + 1 + |value| < SIZE
      && (value != "" ==> value[0] != '?')
  }

  predicate Plain(c: string) {
    Without(c, '=') && Without(c, '\r')
  }

  /** What is parsed: the command in upper case. */
  function Expected(kind: Type, command: Option<string>, value: string): Message {
    Message(kind, if command.Some? then Upper(command.value) else "",
      if kind.Put? || kind.Resp? then Some(value) else None)
  }

  lemma ChrIs(s: string, c: char, i: nat)
    requires i <= |s| && (i < |s| ==> s[i] == c) && forall j | 0 <= j < i :: s[j] != c
    ensures Chr(s, c) == i
  {
    var k := Chr(s, c);
    if k < i {
    }
  }

  /** What a response says. */
  function AnswerOf(command: Option<string>, value: string): string {
    if command.Some? then command.value + ":" + value else value
  }

  lemma BuildResponse(command: Option<string>, value: string, rest: string)
    ensures Build(Resp, command, value) + rest == "\r\n" + AnswerOf(command, value) + "\r\n" + rest
    ensures |Build(Resp, command, value)| == |AnswerOf(command, value)| + 4
  {
    if command.Some? {
      assert "\r\n" + command.value + ":" + value + "\r\n" == "\r\n" + (command.value + ":" + value) + "\r\n";
    }
  }

  /** What comes between AT and the end. */
  function BodyOf(kind: Type, c: string, value: string): string {
    if kind.Cmd? then c else if kind.Get? then c + "?" else if kind.Put? then c + "=" + value else c + "=?"
  }

  lemma BuildCommand(kind: Type, command: Option<string>, value: string, rest: string)
    requires !kind.Resp? && !kind.Raw? && command.Some?
    ensures Build(kind, command, value) + rest == "AT" + BodyOf(kind, command.value, value) + "\r" + rest
    ensures |Build(kind, command, value)| == |BodyOf(kind, command.value, value)| + 3
  {
  }

  lemma ParseCommand(body: string, rest: string)
    requires Without(body, '\r') && |body| < SIZE
    ensures Parse("AT" + body + "\r" + rest) == Some((CommandOf(body), |body| + 3))
  {
    var s := "AT" + body + "\r" + rest;
    ChrIs(s, '\r', |body| + 2);
    assert s[2..|body| + 2] == body;
  }

  lemma ParseResponse(body: string, rest: string)
    requires Without(body, '\r') && |body| < SIZE
    ensures Parse("\r\n" + body + "\r\n" + rest) == Some((ResponseOf(body), |body| + 4))
  {
    var s := "\r\n" + body + "\r\n" + rest;
    var t := s[1..];
    ChrIs(s, '\r', 0);
    ChrIs(t, '\r', |body| + 1);
    assert t == "\n" + body + "\r\n" + rest;
    assert t[1..|body| + 1] == body;
    assert Parse(t) == Some((ResponseOf(body), |body| + 3));
  }

  lemma CommandIs(kind: Type, c: string, value: string)
    requires !kind.Resp? && Printable(kind, Some(c), value)
    ensures var body := BodyOf(kind, c, value);
      CommandOf(body) == Expected(kind, Some(c), value) && Without(body, '\r') && |body| < SIZE
  {
    var body := BodyOf(kind, c, value);
    if kind.Put? || kind.Test? {
      ChrIs(body, '=', |c|);
      assert body[..|c|] == c;
      assert kind.Put? ==> body[|c| + 1..] == value;
    } else {
      ChrIs(body, '=', |body|);
      ChrIs(body, '?', |c|);
      assert body[..|c|] == c;
    }
  }

  lemma ResponseIs(command: Option<string>, value: string)
    requires Printable(Resp, command, value)
    ensures var body := AnswerOf(command, value);
      ResponseOf(body) == Expected(Resp, command, value) && Without(body, '\r') && |body| < SIZE
  {
    if command.Some? {
      var c := command.value;
      var body := c + ":" + value;
      ChrIs(body, ':', |c|);
      assert body[..|c|] == c && body[|c| + 1..] == value;
    } else {
      ChrIs(value, ':', |value|);
      ChrIs(value, '=', |value|);
    }
  }

  lemma ParseBuiltCommand(kind: Type, c: string, value: string, rest: string)
    requires !kind.Resp? && Printable(kind, Some(c), value)
    ensures Parse(Build(kind, Some(c), value) + rest) ==
      Some((Expected(kind, Some(c), value), |Build(kind, Some(c), value)|))
  {
    assert !kind.Raw?;
    hide Parse, CommandOf, Printable, Build, BodyOf, Expected;
    BuildCommand(kind, Some(c), value, rest);
    CommandIs(kind, c, value);
    ParseCommand(BodyOf(kind, c, value), rest);
  }

  lemma ParseBuiltResponse(command: Option<string>, value: string, rest: string)
    requires Printable(Resp, command, value)
    ensures Parse(Build(Resp, command, value) + rest) ==
      Some((Expected(Resp, command, value), |Build(Resp, command, value)|))
  {
    hide Parse, ResponseOf, Printable, Build, AnswerOf, Expected;
    BuildResponse(command, value, rest);
    ResponseIs(command, value);
    ParseResponse(AnswerOf(command, value), rest);
  }

  /** A printed message followed by anything is parsed as that message, and what follows is left. */
  lemma ParseBuild(kind: Type, command: Option<string>, value: string, rest: string)
    requires Printable(kind, command, value)
    ensures Parse(Build(kind, command, value) + rest) ==
      Some((Expected(kind, command, value), |Build(kind, command, value)|))
  {
    assert !kind.Raw? && (kind.Resp? || command.Some?);
    hide Parse, Printable, Build, Expected;
    if kind.Resp? {
      ParseBuiltResponse(command, value, rest);
    } else {
      ParseBuiltCommand(kind, command.value, value, rest);
    }
  }

  /** A message is parsed as itself, up to the case of its command, exactly when it is printable. */
  lemma PrintableExactly(kind: Type, command: Option<string>, value: string, rest: string)
    requires !kind.Raw? && (kind.Resp? || command.Some?)
    ensures Printable(kind, command, value) <==>
      Parse(Build(kind, command, value) + rest) == Some((Expected(kind, command, value), |Build(kind, command, value)|))
  {
    hide Parse, Printable, Build, Expected;
    if Printable(kind, command, value) {
      ParseBuild(kind, command, value, rest);
    }
    if Parse(Build(kind, command, value) + rest) ==
      Some((Expected(kind, command, value), |Build(kind, command, value)|)) {
      OnlyPrintable(kind, command, value, rest);
    }
  }

  lemma OnlyPrintable(kind: Type, command: Option<string>, value: string, rest: string)
    requires !kind.Raw? && (kind.Resp? || command.Some?)
    requires Parse(Build(kind, command, value) + rest) ==
      Some((Expected(kind, command, value), |Build(kind, command, value)|))
    ensures Printable(kind, command, value)
  {
    hide Parse, Chr, CommandOf, ResponseOf, Upper, Printable, Build, BodyOf, AnswerOf, Expected, Cut;
    if kind.Resp? {
      var body := AnswerOf(command, value);
      BuildResponse(command, value, rest);
      ParseAnswer(body, rest);
      assert body[..|body|] == body;
      ResponseOnly(command, value);
    } else {
      var body := BodyOf(kind, command.value, value);
      BuildCommand(kind, command, value, rest);
      ParseRequest(body, rest);
      assert body[..|body|] == body;
      CommandOnly(kind, command.value, value);
    }
  }

  lemma ParseRequest(body: string, rest: string)
    ensures var k := Chr(body, '\r');
      Parse("AT" + body + "\r" + rest) == Some((CommandOf(Cut(body[..k], SIZE - 1)), k + 3))
  {
    var s, k := "AT" + body + "\r" + rest, Chr(body, '\r');
    ChrIs(s, '\r', k + 2);
    assert s[2..k + 2] == body[..k];
  }

  lemma ParseAnswer(body: string, rest: string)
    ensures var k, r := Chr(body, '\r'), Parse("\r\n" + body + "\r\n" + rest);
      && r.Some? && r.value.0 == ResponseOf(Cut(body[..k], SIZE - 1))
      && (k < |body| ==> r.value.1 < |body| + 4)
  {
    var s, k := "\r\n" + body + "\r\n" + rest, Chr(body, '\r');
    var t := s[1..];
    ChrIs(s, '\r', 0);
    ChrIs(t, '\r', k + 1);
    assert t == "\n" + body + "\r\n" + rest;
    assert t[1..k + 1] == body[..k];
  }

  lemma CommandOnly(kind: Type, c: string, value: string)
    requires !kind.Raw? && !kind.Resp? && Without(BodyOf(kind, c, value), '\r')
    requires CommandOf(Cut(BodyOf(kind, c, value), SIZE - 1)) == Expected(kind, Some(c), value)
    ensures Printable(kind, Some(c), value)
  {
    hide CommandOf, Printable;
    if kind.Put? {
      PutOnly(c, value);
    } else {
      NoValueOnly(kind, c, value);
    }
  }

  lemma PutOnly(c: string, value: string)
    requires Without(c + "=" + value, '\r')
    requires CommandOf(Cut(c + "=" + value, SIZE - 1)) == Expected(Put, Some(c), value)
    ensures Printable(Put, Some(c), value)
  {
    var body := c + "=" + value;
    var b := Cut(body, SIZE - 1);
    var e := Chr(b, '=');
    assert e < |b| && |b[..e]| == |Upper(b[..e])| == |Upper(c)| == |c|;
    assert |b| == |body|;
    assert forall i | 0 <= i < |c| :: body[i] == c[i];
    assert forall i | 0 <= i < |value| :: body[|c| + 1 + i] == value[i];
  }

  lemma NoValueOnly(kind: Type, c: string, value: string)
    requires kind.Cmd? || kind.Get? || kind.Test?
    requires Without(BodyOf(kind, c, value), '\r')
    requires CommandOf(Cut(BodyOf(kind, c, value), SIZE - 1)) == Expected(kind, Some(c), value)
    ensures Printable(kind, Some(c), value)
  {
    var body := BodyOf(kind, c, value);
    var b := Cut(body, SIZE - 1);
    assert forall i | 0 <= i < |c| :: body[i] == c[i];
  }

  lemma ResponseOnly(command: Option<string>, value: string)
    requires Without(AnswerOf(command, value), '\r')
    requires ResponseOf(Cut(AnswerOf(command, value), SIZE - 1)) == Expected(Resp, command, value)
    ensures Printable(Resp, command, value)
  {
    var body := AnswerOf(command, value);
    var b := Cut(body, SIZE - 1);
    if command.Some? {
      assert forall i | 0 <= i < |command.value| :: body[i] == command.value[i];
      assert forall i | 0 <= i < |value| :: body[|command.value| + 1 + i] == value[i];
    }
  }

  datatype Print = Print(kind: Type, command: Option<string>, value: string)

  function BuildAll(ms: seq<Print>): string {
    if ms == [] then "" else Build(ms[0].kind, ms[0].command, ms[0].value) + BuildAll(ms[1..])
  }

  /** The messages that repeated calls find. */
  function ParseAll(s: string): seq<Message>
    decreases |s|
  {
    var r := Parse(s);
    if r.None? then [] else [r.value.0] + ParseAll(s[r.value.1..])
  }

  function ExpectedAll(ms: seq<Print>): seq<Message> {
    if ms == [] then [] else [Expected(ms[0].kind, ms[0].command, ms[0].value)] + ExpectedAll(ms[1..])
  }

  /** A stream of printed messages is parsed as those messages, one a call. */
  lemma {:induction false} StreamRoundTrip(ms: seq<Print>)
    requires forall i | 0 <= i < |ms| :: Printable(ms[i].kind, ms[i].command, ms[i].value)
    ensures ParseAll(BuildAll(ms)) == ExpectedAll(ms)
  {
    if ms != [] {
      var s, rest := Build(ms[0].kind, ms[0].command, ms[0].value), BuildAll(ms[1..]);
      ParseBuild(ms[0].kind, ms[0].command, ms[0].value, rest);
      assert (s + rest)[|s|..] == rest;
      StreamRoundTrip(ms[1..]);
    }
  }

  // ---------------------------------------------------------------------------------------------
  // What is printed and what is found, in plain strings

  /** The printed forms. */
  lemma Printed(c: string, v: string)
    ensures Build(Raw, Some(c), v) == c && Build(Cmd, Some(c), v) == "AT" + c + "\r"
    ensures Build(Get, Some("+COPS"), "") == "AT+COPS?\r" && Build(Put, Some("+BCS"), "1") == "AT+BCS=1\r"
    ensures Build(Test, Some("+CIND"), "") == "AT+CIND=?\r" && Build(Resp, Some("+CIND"), "0") == "\r\n+CIND:0\r\n"
    ensures Build(Resp, None, "OK") == "\r\nOK\r\n"
  {
  }

  /** A request in letters of any case. */
  lemma AnyCase(a: char, t: char, body: string, rest: string)
    requires a in "aA" && t in "tT" && Without(body, '\r') && |body| < SIZE
    ensures Parse([a, t] + body + "\r" + rest) == Some((CommandOf(body), |body| + 3))
  {
    var s := [a, t] + body + "\r" + rest;
    ChrIs(s, '\r', |body| + 2);
    assert s[2..|body| + 2] == body;
  }

  /** A response with the separator of GSM. */
  lemma GsmResponse(c: string, v: string, rest: string)
    requires Without(c + v, ':') && Without(c, '=') && Without(c + v, '\r') && |c| + 1 + |v| < SIZE
    ensures Parse("\r\n" + (c + "=" + v) + "\r\n" + rest) ==
      Some((Message(Resp, Upper(c), Some(v)), |c| + |v| + 5))
  {
    hide Parse, Upper;
    var body := c + "=" + v;
    assert forall i | 0 <= i < |body| :: body[i] == if i == |c| then '=' else (c + v)[if i < |c| then i else i - 1];
    ChrIs(body, ':', |body|);
    ChrIs(body, '=', |c|);
    assert body[..|c|] == c && body[|c| + 1..] == v;
    ParseResponse(body, rest);
  }

  /** Nothing is found exactly in a string without a carriage return, or when what it ends is no message. */
  lemma {:induction false} ParseFails(empty: string, s: string)
    requires (forall i | 0 <= i < |empty| :: empty[i] == '\r') && (s != "" ==> s[0] != '\r')
    ensures Parse(empty + s).None? <==> Without(s, '\r') || (!IsCommand(s) && s[0] != '\n')
    decreases |empty|
  {
    var all := empty + s;
    if empty == "" {
      assert all == s;
      if Without(s, '\r') {
        ChrIs(s, '\r', |s|);
      }
    } else {
      ChrIs(all, '\r', 0);
      assert all[1..] == empty[1..] + s;
      ParseFails(empty[1..], s);
    }
  }
}
