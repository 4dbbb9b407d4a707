/**
  * Reading UTF-8 from the pty of st.c: twrite consumes the complete characters of a buffer, ttyread keeps
  * the incomplete one for the next call.
  */
module Utf8Stream {
  import opened Utf8

  const BUFSIZ := 8192

  /** The runes of a byte string and the incomplete character left at its end. */
  datatype Stream = Stream(runes: seq<Rune>, rest: seq<Byte>)

  function Runes(s: seq<Byte>): (r: Stream)
    ensures |r.rest| <= 3 && |r.rest| <= |s|
    decreases |s|
  {
    var d := Decode(s);
    if d.size == 0 then Stream([], s)
    else
      var r := Runes(s[d.size..]);
      Stream([d.rune] + r.runes, r.rest)
  }

  lemma RunesStep(s: seq<Byte>)
    ensures var d := Decode(s);
            if d.size == 0 then Runes(s) == Stream([], s)
            else Runes(s).runes == [d.rune] + Runes(s[d.size..]).runes && Runes(s).rest == Runes(s[d.size..]).rest
    ensures s == [] ==> Runes(s) == Stream([], [])
  {
  }

  function Widen(b: Byte): Rune {
    b as Rune
  }

  /** What is put on the screen by bytes of a terminal that is not in UTF-8 mode. */
  function Plain(s: seq<Byte>): (r: seq<Rune>)
    ensures |r| == |s|
  {
    seq(|s|, i requires 0 <= i < |s| => Widen(s[i]))
  }

  /** Outside UTF-8 mode every byte is the character of its value, and none is left. */
  lemma PlainIs(s: seq<Byte>, k: nat)
    requires k < |s|
    ensures |Shown(s, false).runes| == |s| && Shown(s, false).runes[k] == s[k] as Rune && Shown(s, false).rest == []
  {
  }

  /** What is put on the screen by the bytes of a buffer, and the bytes that twrite does not use. */
  function Shown(s: seq<Byte>, utf8: bool): (r: Stream)
    ensures |r.rest| <= 3
  {
    if utf8 then Runes(s) else Stream(Plain(s), [])
  }

  /** s begins with a character of n bytes that is put as u; with none if n is 0. */
  predicate Begins(s: seq<Byte>, utf8: bool, n: nat, u: Rune)
    requires n <= |s|
  {
    if n == 0 then Shown(s, utf8) == Stream([], s)
    else
      && Shown(s, utf8).runes == [u] + Shown(s[n..], utf8).runes
      && Shown(s, utf8).rest == Shown(s[n..], utf8).rest
  }

  /** The body of the loop of twrite, up to tputc. */
  method NextRune(s: seq<Byte>, utf8: bool) returns (u: Rune, charsize: nat)
    requires s != []
    ensures charsize <= |s| && Begins(s, utf8, charsize, u) && (charsize == 0 ==> utf8)
  {
    hide Decode, Runes;
    if utf8 {
      RunesStep(s);
      u, charsize := Utf8Decode(s);
    } else {
      u, charsize := Widen(s[0]), 1;
      assert Plain(s) == [u] + Plain(s[1..]);
    }
  }

  /** What has been put from the first n bytes and what the others give make up the whole. */
  predicate PutSoFar(buf: seq<Byte>, utf8: bool, n: nat, out: seq<Rune>)
    requires n <= |buf|
  {
    Shown(buf, utf8).runes == out + Shown(buf[n..], utf8).runes && Shown(buf, utf8).rest == Shown(buf[n..], utf8).rest
  }

  lemma NothingPut(buf: seq<Byte>, utf8: bool)
    ensures PutSoFar(buf, utf8, 0, [])
  {
    hide Shown;
    assert buf[0..] == buf;
  }

  lemma OneMorePut(buf: seq<Byte>, utf8: bool, n: nat, k: nat, u: Rune, out: seq<Rune>)
    requires 0 < k && n + k <= |buf| && Begins(buf[n..], utf8, k, u) && PutSoFar(buf, utf8, n, out)
    ensures PutSoFar(buf, utf8, n + k, out + [u])
  {
    hide Shown;
    assert buf[n..][k..] == buf[n + k..];
    assert out + ([u] + Shown(buf[n + k..], utf8).runes) == out + [u] + Shown(buf[n + k..], utf8).runes;
  }

  lemma AllPut(buf: seq<Byte>, utf8: bool, n: nat, u: Rune, out: seq<Rune>)
    requires n <= |buf| && PutSoFar(buf, utf8, n, out) && (n < |buf| ==> Begins(buf[n..], utf8, 0, u))
    ensures out == Shown(buf, utf8).runes && buf[n..] == Shown(buf, utf8).rest
  {
    if n == |buf| {
      assert buf[n..] == [];
      RunesStep([]);
    }
    assert out + [] == out;
  }

  predicate IsControlC1(u: Rune) {
    0x80 <= u <= 0x9F
  }

  predicate IsControl(u: Rune) {
    u <= 0x1F || u == 0x7F || IsControlC1(u)
  }

  /** Newline, carriage return and tab are put as they are. */
  predicate IsLayout(u: Rune) {
    u == 0x0A || u == 0x0D || u == 0x09
  }

  /** What twrite puts for one rune, with control characters in caret notation if `showCtrl` is set. */
  function Carets(u: Rune, showCtrl: bool): seq<Rune> {
    if !(showCtrl && IsControl(u)) then [u]
    else if u & 0x80 != 0 then [0x5E, 0x5B, u & 0x7F]
    else if !IsLayout(u) then [0x5E, u ^ 0x40]
    else [u]
  }

  /**
    * Caret notation: for a control character below 0x20 a caret and the character 0x40 above it, for DEL "^?",
    * for one from 0x80 on "^[" and the character 0x80 below it. Layout and all other characters stay.
    */
  lemma CaretNotation(u: Rune)
    ensures Carets(u, false) == [u] && (!IsControl(u) || IsLayout(u) ==> Carets(u, true) == [u])
    ensures u <= 0x1F && !IsLayout(u) ==> Carets(u, true) == ['^' as Rune, u + 0x40]
    ensures Carets(0x7F, true) == ['^' as Rune, '?' as Rune]
    ensures 0x80 <= u <= 0x9F ==> Carets(u, true) == ['^' as Rune, '[' as Rune, u - 0x80]
  {
    assert u <= 0x7F ==> u & 0x80 == 0;
    assert u <= 0x1F ==> u ^ 0x40 == u + 0x40;
    assert 0x80 <= u <= 0x9F ==> u & 0x80 != 0 && u & 0x7F == u - 0x80;
    assert (0x7F as Rune) ^ 0x40 == 0x3F;
  }

  /** The runes given to tputc for those of a buffer. */
  function Put(us: seq<Rune>, showCtrl: bool): seq<Rune> {
    if us == [] then [] else Put(us[..|us| - 1], showCtrl) + Carets(us[|us| - 1], showCtrl)
  }

  lemma PutNone(showCtrl: bool)
    ensures Put([], showCtrl) == []
  {
  }

  lemma PutOne(us: seq<Rune>, u: Rune, showCtrl: bool)
    ensures Put(us + [u], showCtrl) == Put(us, showCtrl) + Carets(u, showCtrl)
  {
    hide Carets;
    assert (us + [u])[..|us|] == us;
  }

  lemma {:induction false} PutPlain(us: seq<Rune>)
    ensures Put(us, false) == us
  {
    if us != [] {
      PutPlain(us[..|us| - 1]);
      assert us == us[..|us| - 1] + [us[|us| - 1]];
    }
  }

  /** A control character that was to be shown and is put all the same. */
  predicate Raw(u: Rune) {
    IsControl(u) && !IsLayout(u)
  }

  lemma CaretsRaw(u: Rune)
    ensures (exists v :: v in Carets(u, true) && Raw(v)) <==> IsControlC1(u) && Raw(u & 0x7F)
  {
    var c := Carets(u, true);
    assert c[0] in c && c[|c| - 1] in c;
    assert IsControlC1(u) ==> u & 0x80 != 0 && u & 0x7F <= 0x1F;
    assert u <= 0x7F ==> u & 0x80 == 0;
    assert u <= 0x1F ==> 0x40 <= u ^ 0x40 <= 0x5F;
    assert (0x7F as Rune) ^ 0x40 == 0x3F;
  }

  /**
    * Asked to show control characters, twrite still puts one raw exactly if there is one from 0x80 on, other
    * than those that become layout: it is put as the control character 0x80 below it, after "^[".
    */
  lemma {:induction false} ShownRaw(us: seq<Rune>)
    ensures (exists v :: v in Put(us, true) && Raw(v)) <==> exists u :: u in us && IsControlC1(u) && Raw(u & 0x7F)
  {
    hide Carets, Raw, IsControlC1;
    if us != [] {
      var front, u := us[..|us| - 1], us[|us| - 1];
      ShownRaw(front);
      CaretsRaw(u);
      assert Put(us, true) == Put(front, true) + Carets(u, true);
      assert us == front + [u];
      assert u in us;
    }
  }

  /** The calls of tputc for one rune; `out` collects them. */
  method PutRune(u: Rune, showCtrl: bool, out: seq<Rune>) returns (r: seq<Rune>)
    ensures r == out + Carets(u, showCtrl)
  {
    var v := u;
    r := out;
    if showCtrl && IsControl(u) {
      if u & 0x80 != 0 {
        v := u & 0x7F;
        r := r + [0x5E];
        r := r + [0x5B];
      } else if !IsLayout(u) {
        v := u ^ 0x40;
        r := r + [0x5E];
      }
    }
    r := r + [v];
  }

  /** One turn of the loop of twrite at place n, where the runes before it are `us`. */
  method WriteRune(buf: seq<Byte>, n: nat, utf8: bool, showCtrl: bool, out: seq<Rune>, ghost us: seq<Rune>)
    returns (charsize: nat, r: seq<Rune>, ghost vs: seq<Rune>)
    requires n < |buf| && PutSoFar(buf, utf8, n, us) && out == Put(us, showCtrl)
    ensures n + charsize <= |buf| && PutSoFar(buf, utf8, n + charsize, vs) && r == Put(vs, showCtrl)
    ensures charsize == 0 ==> vs == Shown(buf, utf8).runes && buf[n..] == Shown(buf, utf8).rest
  {
    hide Begins, PutSoFar, Shown, Put, Carets;
    var u;
    u, charsize := NextRune(buf[n..], utf8);
    if charsize == 0 {
      AllPut(buf, utf8, n, u, us);
      r, vs := out, us;
    } else {
      OneMorePut(buf, utf8, n, charsize, u, us);
      PutOne(us, u, showCtrl);
      vs := us + [u];
      r := PutRune(u, showCtrl, out);
    }
  }

  /** twrite; `out` collects the runes given to tputc */
  method TWrite(buf: seq<Byte>, utf8: bool, showCtrl: bool) returns (n: nat, out: seq<Rune>)
    ensures n <= |buf| && buf[n..] == Shown(buf, utf8).rest
    ensures out == Put(Shown(buf, utf8).runes, showCtrl)
  {
    hide Begins, PutSoFar, Shown, Carets, Put;
    n, out := 0, [];
    ghost var us: seq<Rune> := [];
    NothingPut(buf, utf8);
    PutNone(showCtrl);
    while n < |buf|
      invariant n <= |buf| && PutSoFar(buf, utf8, n, us) && out == Put(us, showCtrl)
    {
      var charsize;
      charsize, out, us := WriteRune(buf, n, utf8, showCtrl, out, us);
      if charsize == 0 {
        return;
      }
      n := n + charsize;
    }
    AllPut(buf, utf8, n, 0, us);
  }

  class Tty {
    const buf: array<Byte>
    var buflen: nat
    var utf8: bool
    /** the runes given to tputc so far */
    var out: seq<Rune>

    ghost predicate Valid()
      reads this
    {
      buf.Length == BUFSIZ && buflen <= 3
    }

    ghost function Pending(): seq<Byte>
      requires buflen <= buf.Length
      reads this`buflen, buf
    {
      buf[..buflen]
    }

    constructor ()
      ensures Valid() && fresh(buf) && Pending() == [] && out == [] && utf8
    {
      buf := new Byte[BUFSIZ];
      buflen, utf8, out := 0, true, [];
    }

    /** read() puts the bytes of `chunk` behind the pending ones. */
    method Receive(chunk: seq<Byte>)
      requires Valid() && |chunk| <= BUFSIZ - buflen
      modifies buf
      ensures buf[..buflen + |chunk|] == old(Pending()) + chunk
    {
      forall i | 0 <= i < |chunk| {
        buf[buflen + i] := chunk[i];
      }
    }

    /** memmove to the front of the buffer */
    method MoveToFront(from: nat, n: nat)
      requires from + n <= buf.Length
      modifies buf
      ensures buf[..n] == old(buf[from..from + n])
    {
      forall i | 0 <= i < n {
        buf[i] := buf[from + i];
      }
    }

    /** ttyread, when read() has delivered the bytes of `chunk` */
    method TtyRead(chunk: seq<Byte>)
      requires Valid() && |chunk| <= BUFSIZ - buflen
      modifies this`buflen, this`out, buf
      ensures Valid()
      ensures out == old(out) + Shown(old(Pending()) + chunk, utf8).runes
      ensures Pending() == Shown(old(Pending()) + chunk, utf8).rest
    {
      hide Runes, Shown, Put;
      Receive(chunk);
      var all := buflen + |chunk|;
      var written, runes := TWrite(buf[..all], utf8, false);
      PutPlain(Shown(buf[..all], utf8).runes);
      out := out + runes;
      assert buf[..all][written..] == buf[written..all];
      buflen := all - written;
      if buflen > 0 {
        MoveToFront(written, buflen);
      }
    }
  }

  // ---------------------------------------------------------------------------------------------
  // Splitting the input.

  /** Bytes may arrive in two parts: the rest of the first is decoded in front of the second. */
  lemma {:induction false} RunesOfParts(a: seq<Byte>, b: seq<Byte>)
    ensures Runes(a + b).runes == Runes(a).runes + Runes(Runes(a).rest + b).runes
    ensures Runes(a + b).rest == Runes(Runes(a).rest + b).rest
    decreases |a|
  {
    hide Decode, Runes;
    var d := Decode(a);
    RunesStep(a);
    if d.size > 0 {
      DecodePrefix(a, b);
      assert (a + b)[d.size..] == a[d.size..] + b;
      RunesStep(a + b);
      RunesOfParts(a[d.size..], b);
    }
  }

  function Concat(chunks: seq<seq<Byte>>): seq<Byte> {
    if chunks == [] then [] else chunks[0] + Concat(chunks[1..])
  }

  /** A run of ttyread over the given chunks, starting with `pending` in the buffer. */
  function ReadAll(pending: seq<Byte>, chunks: seq<seq<Byte>>): Stream
    decreases |chunks|
  {
    if chunks == [] then Stream([], pending)
    else
      var r := Runes(pending + chunks[0]);
      var s := ReadAll(r.rest, chunks[1..]);
      Stream(r.runes + s.runes, s.rest)
  }

  lemma ConcatStep(pending: seq<Byte>, chunks: seq<seq<Byte>>)
    requires chunks != []
    ensures pending + Concat(chunks) == pending + chunks[0] + Concat(chunks[1..])
  {
    assert pending + (chunks[0] + Concat(chunks[1..])) == pending + chunks[0] + Concat(chunks[1..]);
  }

  /** However the bytes are split into reads, the same runes are put and the same bytes are pending. */
  lemma {:induction false} ChunkingIrrelevant(pending: seq<Byte>, chunks: seq<seq<Byte>>)
    requires Decode(pending).size == 0
    ensures ReadAll(pending, chunks) == Runes(pending + Concat(chunks))
    decreases |chunks|
  {
    if chunks == [] {
      RunesStep(pending);
      assert pending + Concat(chunks) == pending;
    } else {
      hide Decode, Runes, Concat;
      var r := Runes(pending + chunks[0]);
      RestIsIncomplete(pending + chunks[0]);
      ChunkingIrrelevant(r.rest, chunks[1..]);
      RunesOfParts(pending + chunks[0], Concat(chunks[1..]));
      ConcatStep(pending, chunks);
    }
  }

  lemma {:induction false} RestIsIncomplete(s: seq<Byte>)
    ensures Decode(Runes(s).rest).size == 0
    decreases |s|
  {
    hide Decode;
    var d := Decode(s);
    if d.size > 0 {
      RestIsIncomplete(s[d.size..]);
    }
  }

  function EncodeAll(us: seq<Rune>): seq<Byte> {
    if us == [] then [] else Encode(us[0]) + EncodeAll(us[1..])
  }

  lemma {:induction false} RunesOfEncoded(us: seq<Rune>)
    requires forall u | u in us :: IsScalar(u)
    ensures Runes(EncodeAll(us)) == Stream(us, [])
    decreases |us|
  {
    hide Decode, Encode, IsScalar;
    if us != [] {
      var e, rest := Encode(us[0]), EncodeAll(us[1..]);
      DecodeEncode(us[0], rest);
      assert us[0] in us;
      assert (e + rest)[|e|..] == rest;
      RunesOfEncoded(us[1..]);
      assert [us[0]] + us[1..] == us;
    } else {
      NothingDecoded();
    }
  }

  lemma NothingDecoded()
    ensures Decode([]).size == 0
  {
  }

  /** Any sequence of Unicode scalar values, encoded and read in any chunks, comes back exactly. */
  lemma StreamRoundTrip(us: seq<Rune>, chunks: seq<seq<Byte>>)
    requires forall u | u in us :: IsScalar(u)
    requires Concat(chunks) == EncodeAll(us)
    ensures ReadAll([], chunks) == Stream(us, [])
  {
    hide Decode, IsScalar;
    NothingDecoded();
    ChunkingIrrelevant([], chunks);
    RunesOfEncoded(us);
    assert [] + Concat(chunks) == Concat(chunks);
  }

  // ---------------------------------------------------------------------------------------------
  // Broken input.

  /** The beginning of a sequence that the byte behind it does not continue, or a byte that begins none. */
  predicate Broken(bad: seq<Byte>, next: Byte) {
    && bad != []
    && if Announced(bad[0]) == 0 then |bad| == 1
       else |bad| < Announced(bad[0]) && !Tail(next) && forall k | 1 <= k < |bad| :: Tail(bad[k])
  }

  lemma BrokenIs(bad: seq<Byte>, next: Byte, rest: seq<Byte>)
    requires Broken(bad, next)
    ensures bad != [] && Decode(bad + [next] + rest) == Decoded(|bad|, UTF_INVALID)
  {
    hide Decode, Announced, Tail;
    var c := bad + [next] + rest;
    var d := Decode(c);
    DecodedSize(c);
    assert c[0] == bad[0] && c[|bad|] == next;
    assert forall k | 0 <= k < |bad| :: c[k] == bad[k];
  }

  lemma RunesOne(u: Rune, more: seq<Byte>)
    requires IsScalar(u)
    ensures Runes(Encode(u) + more).runes == [u] + Runes(more).runes && Runes(Encode(u) + more).rest == Runes(more).rest
  {
    hide Decode, Encode, IsScalar, Runes;
    var e := Encode(u);
    DecodeEncode(u, more);
    assert (e + more)[|e|..] == more;
    RunesStep(e + more);
  }

  /**
    * What is broken costs one U+FFFD and nothing else: the characters before it are put, and reading goes on with
    * the byte that did not continue it.
    */
  lemma {:induction false} Resync(us: seq<Rune>, bad: seq<Byte>, next: Byte, rest: seq<Byte>)
    requires Broken(bad, next) && forall u | u in us :: IsScalar(u)
    ensures Runes(EncodeAll(us) + (bad + [next] + rest)).runes == us + [UTF_INVALID] + Runes([next] + rest).runes
    ensures Runes(EncodeAll(us) + (bad + [next] + rest)).rest == Runes([next] + rest).rest
    decreases |us|
  {
    hide Decode, Encode, IsScalar, Runes, Broken;
    var tail := bad + [next] + rest;
    if us == [] {
      assert EncodeAll(us) + tail == tail;
      BrokenIs(bad, next, rest);
      RunesStep(tail);
      assert tail[|bad|..] == [next] + rest;
      assert us + [UTF_INVALID] == [UTF_INVALID];
    } else {
      assert us[0] in us;
      assert EncodeAll(us) + tail == Encode(us[0]) + (EncodeAll(us[1..]) + tail);
      RunesOne(us[0], EncodeAll(us[1..]) + tail);
      Resync(us[1..], bad, next, rest);
      var after := Runes([next] + rest).runes;
      assert [us[0]] + (us[1..] + [UTF_INVALID] + after) == us + [UTF_INVALID] + after;
    }
  }
}
