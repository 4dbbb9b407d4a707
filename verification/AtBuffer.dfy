/**
  * at_parse in place (at.c): the message is copied into the command buffer and cut there with NULs.
  */
module AtBuffer {
  import opened At

  const NUL := '\0'

  /** The buffer holds the C string s from place i on. */
  predicate Holds(a: seq<char>, i: nat, s: string) {
    i + |s| < |a| && a[i..i + |s|] == s && a[i + |s|] == NUL && Without(s, NUL)
  }

  /** strchr from place p on: the place of c, -1 when there is none. */
  method StrChr(str: string, p: nat, c: char) returns (r: int)
    requires p <= |str|
    ensures r == if Chr(str[p..], c) == |str[p..]| then -1 else p + Chr(str[p..], c)
  {
    r := p;
    while r < |str| && str[r] != c
      invariant p <= r <= |str| && forall j | p <= j < r :: str[j] != c
    {
      r := r + 1;
    }
    ChrIs(str[p..], c, r - p);
    if r == |str| {
      r := -1;
    }
  }

  /** Where a command ends. */
  function Separator(body: string): (t: nat)
    ensures t <= |body|
  {
    if Chr(body, '=') < |body| then Chr(body, '=') else Chr(body, '?')
  }

  lemma CommandParts(body: string)
    ensures var m, t := CommandOf(body), Separator(body);
      && m.command == Upper(body[..t])
      && m.value == (if m.kind.Put? then Some(body[t + 1..]) else None)
      && (m.kind.Put? ==> t < |body|)
      && (t == |body| ==> body[..t] == body)
  {
    hide Chr, Upper;
    assert body[..|body|] == body;
  }

  lemma UpperNothing()
    ensures Upper("") == ""
  {
  }

  /** A command starts at place p. */
  predicate CommandAt(str: string, p: nat) {
    p + 2 <= |str| && ToUpper(str[p]) == 'A' && ToUpper(str[p + 1]) == 'T'
  }

  /** What At.Parse finds from place p on when the next CR is at place feed. */
  lemma ParseFrom(str: string, p: nat, feed: nat)
    requires p <= feed <= |str| && feed == p + Chr(str[p..], '\r')
    ensures feed == |str| ==> At.Parse(str[p..]) == None
    ensures feed < |str| && feed == p ==>
      var r := At.Parse(str[p + 1..]);
      At.Parse(str[p..]) == if r.Some? then Some((r.value.0, r.value.1 + 1)) else None
    ensures feed < |str| && p < feed && CommandAt(str, p) ==>
      p + 2 <= feed && At.Parse(str[p..]) == Some((CommandOf(Cut(str[p + 2..feed], SIZE - 1)), feed + 1 - p))
    ensures feed < |str| && p < feed && !CommandAt(str, p) ==>
      At.Parse(str[p..]) ==
        if str[p] != '\n' then None
        else Some((ResponseOf(Cut(str[p + 1..feed], SIZE - 1)),
                   if feed + 1 < |str| && str[feed + 1] == '\n' then feed + 2 - p else feed + 1 - p))
  {
    hide Chr, CommandOf, ResponseOf, Cut;
    var s := str[p..];
    if p < feed < |str| {
      assert s[1..feed - p] == str[p + 1..feed];
      assert forall k | p <= k < |str| :: s[k - p] == str[k];
      if CommandAt(str, p) {
        assert feed != p + 1;
        assert s[2..feed - p] == str[p + 2..feed];
      }
    } else if feed == p < |str| {
      assert s[1..] == str[p + 1..];
    }
  }

  /** struct bt_at; value is a place in command, -1 for NULL. */
  class BtAt {
    var kind: Type
    const command: array<char>
    var value: int

    /** The buffer always ends with a NUL. */
    ghost predicate Valid()
      reads this, command
    {
      command.Length == SIZE && command[SIZE - 1] == NUL
    }

    /** What the structure says. */
    ghost predicate Shows(m: Message)
      reads this, command
      ensures Shows(m) ==> Valid()
    {
      && Valid() && kind == m.kind && Holds(command[..], 0, m.command)
      && (if m.value.Some? then value >= 0 && Holds(command[..], value, m.value.value) else value == -1)
    }

    constructor ()
      ensures Valid() && fresh(command)
    {
      kind, value := Raw, -1;
      command := new char[SIZE](_ => NUL);
    }

    /** strncpy and the NUL at the end of the message. */
    method CopyIn(str: string, q: nat, feed: nat)
      requires Valid() && q <= feed < |str| && Without(str, NUL)
      modifies command
      ensures Valid() && Holds(command[..], 0, Cut(str[q..feed], SIZE - 1))
    {
      for j := 0 to SIZE - 1
        invariant command[SIZE - 1] == NUL
        invariant forall k | 0 <= k < j :: command[k] == if q + k < |str| then str[q + k] else NUL
      {
        command[j] := if q + j < |str| then str[q + j] else NUL;
      }
      if feed - q < SIZE {
        command[feed - q] := NUL;
      }
      ghost var body := Cut(str[q..feed], SIZE - 1);
      assert command[..][0..|body|] == body;
    }

    /** strchr in the buffer */
    method Find(c: char, ghost body: string) returns (r: int)
      requires Valid() && Holds(command[..], 0, body) && c != NUL
      ensures r == if Chr(body, c) == |body| then -1 else Chr(body, c)
    {
      r := 0;
      assert forall k | 0 <= k < |body| :: command[k] == command[..][0..|body|][k];
      while command[r] != NUL && command[r] != c
        invariant 0 <= r <= |body| && forall j | 0 <= j < r :: body[j] != c
        decreases |body| - r
      {
        r := r + 1;
      }
      ChrIs(body, c, r);
      if command[r] == NUL {
        r := -1;
      }
    }

    /** A NUL in the place of a separator makes two strings of one. */
    method CutAt(k: nat, ghost body: string)
      requires Valid() && Holds(command[..], 0, body) && k < |body|
      modifies command
      ensures Valid() && Holds(command[..], 0, body[..k]) && Holds(command[..], k + 1, body[k + 1..])
    {
      ghost var was := command[..];
      command[k] := NUL;
      assert command[..] == was[k := NUL];
      assert command[..][0..k] == was[0..|body|][..k];
      assert command[..][k + 1..k + 1 + |body[k + 1..]|] == was[0..|body|][k + 1..];
    }

    /** memmove by one place and the empty command before it */
    method ShiftRight(ghost body: string)
      requires Valid() && Holds(command[..], 0, body)
      modifies command
      ensures Valid() && Holds(command[..], 0, "") && Holds(command[..], 1, Cut(body, SIZE - 2))
    {
      ghost var was := command[..];
      var j := SIZE - 1;
      while j > 0
        invariant 0 <= j <= SIZE - 1
        invariant forall k | 0 <= k <= j :: command[k] == was[k]
        invariant forall k | j < k < SIZE :: command[k] == was[k - 1]
      {
        command[j] := command[j - 1];
        j := j - 1;
      }
      command[0], command[SIZE - 1] := NUL, NUL;
      ghost var b := Cut(body, SIZE - 2);
      forall k | 0 <= k < |b| ensures command[1 + k] == b[k] {
        assert was[0..|body|][k] == was[k];
      }
      assert command[..][1..1 + |b|] == b;
    }

    /** The loop over toupper; a string behind the command stays. */
    method MakeUpper(ghost c: string, ghost i: nat, ghost v: string)
      requires Valid() && Holds(command[..], 0, c) && (i > |c| ==> Holds(command[..], i, v))
      modifies command
      ensures Valid() && Holds(command[..], 0, Upper(c)) && (i > |c| ==> Holds(command[..], i, v))
    {
      ghost var was := command[..];
      assert forall k | 0 <= k < |c| :: was[k] == was[0..|c|][k];
      var j := 0;
      while command[j] != NUL
        invariant 0 <= j <= |c|
        invariant forall k | 0 <= k < j :: command[k] == ToUpper(c[k])
        invariant forall k | j <= k < SIZE :: command[k] == was[k]
        decreases |c| - j
      {
        command[j] := ToUpper(command[j]);
        j := j + 1;
      }
      assert command[..][0..|c|] == Upper(c);
      if i > |c| && i + |v| < SIZE {
        assert command[..][i..i + |v|] == was[i..i + |v|];
      }
    }

    lemma CharAt(body: string, k: nat)
      requires Valid() && Holds(command[..], 0, body) && k <= |body|
      ensures k < SIZE && command[k] == if k < |body| then body[k] else NUL
      ensures k < |body| ==> body[k] != NUL
    {
      assert k < |body| ==> command[k] == command[..][0..|body|][k];
    }

    /** The separator is replaced, and the command in front of it put in upper case. */
    method Split(t: nat, ghost body: string)
      requires Valid() && Holds(command[..], 0, body) && t < |body|
      modifies command
      ensures Valid() && Holds(command[..], 0, Upper(body[..t])) && Holds(command[..], t + 1, body[t + 1..])
    {
      hide Holds, Upper;
      CutAt(t, body);
      MakeUpper(body[..t], t + 1, body[t + 1..]);
    }

    /** The type of a command and its value. */
    method SetKind(ghost body: string) returns (t: int)
      requires Valid() && Holds(command[..], 0, body)
      modifies this`kind, this`value
      ensures t == if Separator(body) == |body| then -1 else Separator(body)
      ensures kind == CommandOf(body).kind && value == if kind.Put? then t + 1 else -1
    {
      hide Holds, Chr, Upper;
      value := -1;
      t := Find('=', body);
      if t >= 0 {
        CharAt(body, t + 1);
        if command[t + 1] == '?' {
          kind := Test;
        } else {
          kind, value := Put, t + 1;
        }
      } else {
        t := Find('?', body);
        kind := if t >= 0 then Get else Cmd;
      }
    }

    method SetCommand(ghost body: string)
      requires Valid() && Holds(command[..], 0, body)
      modifies this`kind, this`value, command
      ensures Shows(CommandOf(body))
    {
      hide Holds, Chr, Upper, CommandOf, Separator;
      CommandParts(body);
      var t := SetKind(body);
      if t >= 0 {
        Split(t, body);
      } else {
        MakeUpper(body, 0, "");
      }
    }

    /** The command and the value of a response. */
    method SetResponse(ghost body: string)
      requires Valid() && Holds(command[..], 0, body)
      modifies this`kind, this`value, command
      ensures Shows(ResponseOf(body))
    {
      hide Holds, Chr, Upper, Cut;
      kind := Resp;
      var t := Find(':', body);
      if t < 0 {
        t := Find('=', body);
      }
      if t >= 0 {
        value := t + 1;
        Split(t, body);
      } else {
        ShiftRight(body);
        value := 1;
        MakeUpper("", 1, Cut(body, SIZE - 2));
        UpperNothing();
      }
    }

    /** at_parse of the string from place p on: the place of the next message, -1 on an error. */
    method Parse(str: string, p: nat) returns (r: int)
      requires Valid() && p <= |str| && Without(str, NUL)
      modifies this`kind, this`value, command
      ensures Valid()
      ensures var x := At.Parse(str[p..]);
        if x.Some? then r == p + x.value.1 && Shows(x.value.0) else r == -1
      decreases |str| - p
    {
      hide At.Parse, Chr, CommandOf, ResponseOf, Cut, Holds, Shows, Without;
      var feed := StrChr(str, p, '\r');
      ParseFrom(str, p, if feed < 0 then |str| else feed);
      if feed < 0 {
        return -1;
      }
      if feed == p {
        r := Parse(str, p + 1);
        return;
      }
      var isCommand := p + 2 <= |str| && ToUpper(str[p]) == 'A' && ToUpper(str[p + 1]) == 'T';
      if !isCommand && str[p] != '\n' {
        return -1;
      }
      var q := if isCommand then p + 2 else p + 1;
      CopyIn(str, q, feed);
      ghost var body := Cut(str[q..feed], SIZE - 1);
      if isCommand {
        SetCommand(body);
        r := feed + 1;
      } else {
        SetResponse(body);
        r := if feed + 1 < |str| && str[feed + 1] == '\n' then feed + 2 else feed + 1;
      }
    }
  }
}
