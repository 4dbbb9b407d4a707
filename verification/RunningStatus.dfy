/**
  * Running status (ble-midi.c): messages that leave out the status byte, and what a MIDI receiver makes of what the
  * decoder returns for them.
  */
module RunningStatus {
  import opened BleMidi

  /** A message with its status byte, its data bytes behind a timestamp, or its data bytes alone. */
  datatype Piece = Whole(time: nat, bytes: seq<byte>) | Timed(time: nat, data: seq<byte>) | Bare(data: seq<byte>)

  function Wire(p: Piece): (r: seq<byte>)
    ensures !p.Bare? ==> r != []
  {
    match p
    case Whole(t, m) => [Stamp(t)] + m
    case Timed(t, d) => [Stamp(t)] + d
    case Bare(d) => d
  }

  function Wires(ps: seq<Piece>): seq<byte> {
    if ps == [] then [] else Wire(ps[0]) + Wires(ps[1..])
  }

  /** The data bytes of a message with the status byte. */
  predicate DataOf(status: byte, d: seq<byte>) {
    && 0x80 <= status < 0xF0 && d != [] && |d| == MessageLen(status) - 1
    && forall i | 0 <= i < |d| :: !Marked(d[i])
  }

  /** The piece makes sense after the channel message with the status byte. */
  predicate Sensible(status: byte, p: Piece) {
    if p.Whole? then WellFormed(p.bytes) else DataOf(status, p.data)
  }

  /** The status byte of the last channel message. */
  function Running(status: byte, p: Piece): byte {
    if p.Whole? && p.bytes != [] && p.bytes[0] < 0xF0 then p.bytes[0] else status
  }

  predicate AllSensible(status: byte, ps: seq<Piece>)
    decreases |ps|
  {
    ps != [] ==> Sensible(status, ps[0]) && AllSensible(Running(status, ps[0]), ps[1..])
  }

  /** The messages that the pieces stand for; in BLE-MIDI system messages do not touch the running status. */
  function Meant(status: byte, ps: seq<Piece>): seq<seq<byte>>
    decreases |ps|
  {
    if ps == [] then []
    else [if ps[0].Whole? then ps[0].bytes else [status] + ps[0].data] + Meant(Running(status, ps[0]), ps[1..])
  }

  datatype Receiver = Knows(status: byte) | Lost

  /** What a receiver of plain MIDI knows after a message: system common cancels the status, real-time does not. */
  function Heard(r: Receiver, b: seq<byte>): Receiver {
    if b == [] || b[0] < 0x80 then r else if b[0] < 0xF0 then Knows(b[0]) else if b[0] < 0xF8 then Lost else r
  }

  function HeardAll(r: Receiver, out: seq<seq<byte>>): Receiver
    decreases |out|
  {
    if out == [] then r else HeardAll(Heard(r, out[0]), out[1..])
  }

  /** What it makes of a sequence of messages: data bytes alone take the status byte that it knows. */
  function Hear(r: Receiver, out: seq<seq<byte>>): seq<seq<byte>>
    decreases |out|
  {
    if out == [] then []
    else
      var b := out[0];
      [if b != [] && !Marked(b[0]) && r.Knows? then [r.status] + b else b] + Hear(Heard(r, b), out[1..])
  }

  /** What the decoder puts in front of data bytes alone. */
  function Restored(s: State): seq<byte> {
    if s.statusRestore then [s.status] else []
  }

  /** The n data bytes of a message without a status byte are read, behind the status byte if it is restored. */
  lemma FillRunning(s: State, w: Work, pre: seq<byte>, n: nat, data: seq<byte>)
    requires Sound(s) && w.buf == [] && !w.inSys && 0x80 <= w.status < 0xF0 && n == MessageLen(w.status) - 1
    requires 0 < n && w.cur + n <= |data| && forall i | w.cur <= i < w.cur + n :: !Marked(data[i])
    requires pre == if s.statusRestore then [w.status] else []
    ensures Fill(s, w, data) ==
      Final(s.(statusRestore := false), w.(buf := pre + data[w.cur..w.cur + n], cur := w.cur + n), data)
  {
    hide Take, Final, Fill, Parse, MessageLen, Marked;
    Lengths(w.status);
    TakeSlice(w.(buf := pre), n, data);
    RunningRead(s, w, w.(buf := pre + data[w.cur..w.cur + n], cur := w.cur + n), n, data);
  }

  lemma TakeSlice(w: Work, n: nat, data: seq<byte>)
    requires w.cur + n <= |data| && |w.buf| + n <= Cap(w.inSys) && forall i | w.cur <= i < w.cur + n :: !Marked(data[i])
    ensures Take(w, n, data) == (w.(buf := w.buf + data[w.cur..w.cur + n], cur := w.cur + n), 0)
  {
    hide Take, Marked;
    TakeThese(w, n, w.buf + data[w.cur..w.cur + n], data);
  }

  lemma Unmarked(d: seq<byte>, c: nat, data: seq<byte>)
    requires c + |d| <= |data| && data[c..c + |d|] == d && forall i | 0 <= i < |d| :: !Marked(d[i])
    ensures forall i | c <= i < c + |d| :: !Marked(data[i])
  {
    hide Marked;
    forall i | c <= i < c + |d| ensures !Marked(data[i]) {
      assert data[i] == data[c..c + |d|][i - c] == d[i - c];
    }
  }

  lemma RunningRead(s: State, w: Work, u: Work, n: nat, data: seq<byte>)
    requires w.cur < |data| && Sound(s) && w.buf == [] && !w.inSys && w.status != SYSEX && n == MessageLen(w.status) - 1
    requires Take(w.(buf := if s.statusRestore then [w.status] else []), n, data) == (u, 0) && |u.buf| < MIDI_BUFFER
    ensures Fill(s, w, data) == Final(s.(statusRestore := false), u, data)
  {
    hide Take, MessageLen, Final, Parse;
    assert [] + [w.status] == [w.status];
    assert ReadData(s, w, data) == (s.(statusRestore := false), u, ToFinal);
  }

  /** A timestamp, if there is one, is read in front of the data bytes. */
  lemma ParseRunning(s: State, w: Work, p: Piece, data: seq<byte>)
    requires Sound(s) && Fresh(w) && !w.inSys && !p.Whole? && DataOf(w.status, p.data)
    requires w.cur + |Wire(p)| <= |data| && data[w.cur..w.cur + |Wire(p)|] == Wire(p)
    ensures w.cur < |data|
    ensures var t := if p.Timed? then Clocked(s, data[w.cur], w.cur == 1) else s;
      var v := if p.Timed? then w.(cur := w.cur + 1) else w;
      && v.cur + |p.data| <= |data| && data[v.cur..v.cur + |p.data|] == p.data
      && Parse(s, w, data) == Fill(t, v, data)
  {
    hide Fill, Final, MessageLen, Clocked;
    var k := Wire(p);
    assert data[w.cur] == data[w.cur..w.cur + |k|][0] == k[0];
    if p.Timed? {
      assert data[w.cur + 1..w.cur + 1 + |p.data|] == k[1..] == p.data;
      assert data[w.cur + 1] == k[1..][0] == p.data[0];
    }
  }

  lemma DecodeRunning(s: State, data: seq<byte>, p: Piece)
    requires Between(s, s.currentLen) && !p.Whole? && DataOf(s.status, p.data)
    requires s.currentLen == 0 ==> |data| >= 3 && data[0] / 0x40 == 2
    requires Here(s) + |Wire(p)| <= |data| && data[Here(s)..Here(s) + |Wire(p)|] == Wire(p)
    ensures var (s', r) := Decode(s, data);
      && Between(s', Here(s) + |Wire(p)|) && s'.status == s.status && !s'.statusRestore
      && r == Message(Restored(s) + p.data)
  {
    hide Parse, Fill, MessageLen;
    var c := Here(s);
    var s1 := if s.currentLen == 0 then s.(tsHigh := data[0] % 0x40, tsLow := 0) else s;
    var w := Work([], false, s.status, c);
    ParseRunning(s1, w, p, data);
    assert Decode(s, data) == Parse(s1, w, data);
    var t1 := if p.Timed? then Clocked(s1, data[c], c == 1) else s1;
    var v := if p.Timed? then w.(cur := c + 1) else w;
    Unmarked(p.data, v.cur, data);
    FillRunning(t1, v, Restored(s), |p.data|, data);
  }

  lemma WholeLayout(data: seq<byte>, c: nat, t: nat, m: seq<byte>)
    requires c + |Wire(Whole(t, m))| <= |data| && data[c..c + |Wire(Whole(t, m))|] == Wire(Whole(t, m))
    ensures c + 1 + |m| <= |data| && data[c] == Stamp(t) && data[c + 1..c + 1 + |m|] == m
  {
    var k := Wire(Whole(t, m));
    assert data[c] == data[c..c + |k|][0] == k[0];
    assert data[c + 1..c + 1 + |m|] == k[1..];
  }

  lemma HeaderOf(h: byte, t: nat)
    requires h / 0x40 == 2
    ensures var u := h % 0x40 * 0x80 + t % 0x80; Header(u) == h && Stamp(u) == Stamp(t)
  {
  }

  /** One call returns the next piece: data bytes alone, or with their status byte if it has to be restored. */
  lemma DecodePiece(s: State, data: seq<byte>, p: Piece)
    requires Between(s, s.currentLen) && s.currentLen != 1 && Sensible(s.status, p)
    requires s.currentLen == 0 ==> |data| >= 3 && data[0] / 0x40 == 2
    requires Here(s) + |Wire(p)| <= |data| && data[Here(s)..Here(s) + |Wire(p)|] == Wire(p)
    ensures var (s', r) := Decode(s, data);
      && Between(s', Here(s) + |Wire(p)|) && s'.status == Running(s.status, p)
      && r == Message(if p.Whole? then p.bytes else Restored(s) + p.data)
      && s'.statusRestore == (if p.Whole? then s.statusRestore || 0xF0 <= p.bytes[0] < 0xF8 else false)
  {
    var c := Here(s);
    if p.Whole? {
      WholeLayout(data, c, p.time, p.bytes);
      if s.currentLen == 0 {
        HeaderOf(data[0], p.time);
        DecodeNext(s, data, data[0] % 0x40 * 0x80 + p.time % 0x80, p.bytes);
      } else {
        DecodeNext(s, data, p.time, p.bytes);
      }
    } else {
      DecodeRunning(s, data, p);
    }
  }

  /** The bytes of what repeated calls return. */
  function Outs(s: State, data: seq<byte>): seq<seq<byte>>
    requires s.currentLen <= |data| && Sound(s)
  {
    Bytes(DecodeAll(s, data).out)
  }

  /** A receiver that got the messages so far knows the running status, unless the decoder will restore it. */
  predicate Follows(r: Receiver, s: State) {
    s.statusRestore || s.status < 0x80 || r == Knows(s.status)
  }

  /**
    * Whatever messages of a packet leave out their status byte, a plain MIDI receiver that reads what the decoder
    * returns, one message a piece, gets exactly the messages that were meant, and can go on with the next packet.
    */
  lemma {:induction false} HeardAsMeant(s: State, data: seq<byte>, ps: seq<Piece>, r: Receiver)
    requires Between(s, s.currentLen) && s.currentLen != 1 && AllSensible(s.status, ps) && Follows(r, s)
    requires s.currentLen == 0 ==> |data| >= 3 && data[0] / 0x40 == 2
    requires Here(s) <= |data| && data[Here(s)..] == Wires(ps)
    ensures DecodeAll(s, data).last == Done && Between(DecodeAll(s, data).state, 0)
    ensures |Outs(s, data)| == |ps| && Hear(r, Outs(s, data)) == Meant(s.status, ps)
    ensures Follows(HeardAll(r, Outs(s, data)), DecodeAll(s, data).state)
    decreases |ps|
  {
    hide HeardAll, Decode, DecodeAll, Wire, Wires, Sensible, AllSensible, Running, Meant, Hear, Follows, Bytes, Sound;
    if ps == [] {
      NoPieces(s, data, r);
    } else {
      PieceFirst(data, Here(s), ps, s.status);
      DecodePiece(s, data, ps[0]);
      var (t, m) := Decode(s, data);
      OutsNext(s, data);
      HearOne(s, t, ps, m.bytes, r, Outs(t, data), Outs(s, data));
      HeardAsMeant(t, data, ps[1..], Heard(r, m.bytes));
    }
  }

  lemma OutsNext(s: State, data: seq<byte>)
    requires s.currentLen <= |data| && Sound(s) && Decode(s, data).1.Message?
    ensures var (t, m) := Decode(s, data);
      && Outs(s, data) == [m.bytes] + Outs(t, data)
      && DecodeAll(s, data).last == DecodeAll(t, data).last && DecodeAll(s, data).state == DecodeAll(t, data).state
  {
    hide Decode, DecodeAll;
    AllNext(s, data);
  }

  lemma NoPieces(s: State, data: seq<byte>, r: Receiver)
    requires Between(s, s.currentLen) && s.currentLen != 1 && (s.currentLen == 0 ==> |data| >= 3)
    requires Here(s) <= |data| && data[Here(s)..] == Wires([])
    ensures DecodeAll(s, data) == Run([], Done, s.(currentLen := 0)) && Between(s.(currentLen := 0), 0)
    ensures Outs(s, data) == [] && Hear(r, []) == Meant(s.status, []) && HeardAll(r, []) == r
    ensures Follows(r, s) ==> Follows(r, s.(currentLen := 0))
  {
    assert s.currentLen == |data|;
  }

  lemma PieceFirst(data: seq<byte>, c: nat, ps: seq<Piece>, status: byte)
    requires c <= |data| && ps != [] && data[c..] == Wires(ps) && AllSensible(status, ps)
    ensures var k := |Wire(ps[0])|;
      && k > 0 && c + k <= |data| && data[c..c + k] == Wire(ps[0]) && data[c + k..] == Wires(ps[1..])
    ensures Sensible(status, ps[0]) && AllSensible(Running(status, ps[0]), ps[1..])
  {
    var k, tail := |Wire(ps[0])|, Wires(ps);
    assert data[c..c + k] == tail[..k] && data[c + k..] == tail[k..];
  }

  /** What the receiver knows after one message, and what it makes of it. */
  lemma HearOne(s: State, t: State, ps: seq<Piece>, b: seq<byte>, r: Receiver, rest: seq<seq<byte>>,
      all: seq<seq<byte>>)
    requires ps != [] && Sensible(s.status, ps[0]) && Follows(r, s) && t.status == Running(s.status, ps[0])
    requires var p := ps[0]; b == if p.Whole? then p.bytes else Restored(s) + p.data
    requires var p := ps[0];
      t.statusRestore == if p.Whole? then s.statusRestore || 0xF0 <= p.bytes[0] < 0xF8 else false
    requires all == [b] + rest
    ensures Follows(Heard(r, b), t) && HeardAll(r, all) == HeardAll(Heard(r, b), rest)
    ensures Hear(Heard(r, b), rest) == Meant(t.status, ps[1..]) ==> Hear(r, all) == Meant(s.status, ps)
  {
    hide MessageLen;
    Lengths(b[0]);
    assert all[1..] == rest;
    assert !ps[0].Whole? ==> [] + ps[0].data == ps[0].data;
  }

  // ---------------------------------------------------------------------------------------------
  // What is refused

  /** A packet without a header and two more bytes, one that ends in a timestamp, and a status byte that is none. */
  lemma Refused(s: State, data: seq<byte>)
    requires Between(s, s.currentLen) && s.currentLen < |data|
    ensures var r, c := Decode(s, data), Here(s);
      && (s.currentLen == 0 && (|data| < 3 || data[0] / 0x40 != 2) ==> r.1 == Failed(EINVAL))
      && (s.currentLen > 0 || (|data| >= 3 && data[0] / 0x40 == 2) ==>
        && (c + 1 == |data| && Marked(data[c]) ==> r.1 == Failed(EINVAL))
        && (c + 2 < |data| && Marked(data[c]) && data[c + 1] in [0xF4, 0xF5, 0xF9, 0xFD] ==> r.1 == Failed(ENOMSG))
        && (c + 2 == |data| && Marked(data[c]) && data[c + 1] in [0xF4, 0xF5, 0xF9, 0xFD] ==>
          r.1 == Message([data[c + 1]])))
  {
    hide Fill, MessageLen;
    var c := Here(s);
    if s.currentLen > 0 || (|data| >= 3 && data[0] / 0x40 == 2) {
      var s1 := if s.currentLen == 0 then s.(tsHigh := data[0] % 0x40, tsLow := 0) else s;
      assert Decode(s, data) == Parse(s1, Work([], false, s.status, c), data);
      if c + 1 < |data| && Marked(data[c]) && data[c + 1] in [0xF4, 0xF5, 0xF9, 0xFD] {
        ParseMessage(s1, s.status, c, data[c + 1], data);
        NoStatus(Clocked(s1, data[c], c == 1), Work([data[c + 1]], false, data[c + 1], c + 2), data);
      }
    }
  }

  lemma NoStatus(s: State, w: Work, data: seq<byte>)
    requires w.buf != [] && |w.buf| <= MIDI_BUFFER && !w.inSys && w.status in [0xF4, 0xF5, 0xF9, 0xFD] && Sound(s)
    ensures w.cur < |data| ==> Fill(s, w, data).1 == Failed(ENOMSG)
  {
    hide Parse, Take;
    Lengths(w.status);
  }

  /** Only a message that another marked byte cuts short is an error: at the end of a packet it is returned as it is. */
  lemma CutShort(s: State, data: seq<byte>, m: seq<byte>, k: nat)
    requires Between(s, s.currentLen) && WellFormed(m) && 0 < k < |m| && Here(s) + 1 + k <= |data|
    requires s.currentLen == 0 ==> |data| >= 3 && data[0] / 0x40 == 2
    requires Marked(data[Here(s)]) && data[Here(s) + 1..Here(s) + 1 + k] == m[..k]
    ensures Here(s) + 1 + k == |data| ==> Decode(s, data).1 == Message(m[..k])
    ensures Here(s) + 1 + k < |data| && Marked(data[Here(s) + 1 + k]) ==> Decode(s, data).1 == Failed(EBADMSG)
  {
    hide Parse, Fill, MessageLen, Take;
    ShortMessage(m[0]);
    var c := Here(s);
    var s1 := if s.currentLen == 0 then s.(tsHigh := data[0] % 0x40, tsLow := 0) else s;
    var t1 := Clocked(s1, data[c], c == 1);
    var t2 := if m[0] == SYSEX_END then t1.(statusSys := false) else t1;
    var w := Work([m[0]], false, m[0], c + 2);
    assert data[c + 1] == data[c + 1..c + 1 + k][0] == m[0];
    assert Decode(s, data) == Parse(s1, Work([], false, s.status, c), data);
    ParseMessage(s1, s.status, c, m[0], data);
    assert m[..1] == [m[0]];
    if c + 2 < |data| {
      assert data[c + 2..c + 1 + k] == data[c + 1..c + 1 + k][1..] == m[1..k];
      CutData(m, k, c + 2, data);
      if c + 1 + k == |data| || Marked(data[c + 1 + k]) {
        CutTaken(w, m[..k], c + 1 + k, |m| - 1, data);
        CutRead(t2, w, w.(buf := m[..k], cur := c + 1 + k), |m| - k, data);
      }
    }
  }

  lemma CutData(m: seq<byte>, k: nat, c: nat, data: seq<byte>)
    requires WellFormed(m) && 0 < k < |m| && c + k - 1 <= |data| && data[c..c + k - 1] == m[1..k]
    ensures forall i | c <= i < c + k - 1 :: !Marked(data[i])
    ensures m[..k] == [m[0]] + data[c..c + k - 1]
  {
    hide MessageLen;
    forall i | c <= i < c + k - 1 ensures !Marked(data[i]) {
      assert data[i] == data[c..c + k - 1][i - c] == m[1..k][i - c] == m[i - c + 1];
    }
  }

  lemma CutTaken(w: Work, buf: seq<byte>, end: nat, n: nat, data: seq<byte>)
    requires w.cur <= end <= |data| && buf == w.buf + data[w.cur..end] && |buf| <= Cap(w.inSys)
    requires n >= end - w.cur && forall i | w.cur <= i < end :: !Marked(data[i])
    requires end == |data| || Marked(data[end])
    ensures Take(w, n, data) == (w.(buf := buf, cur := end), n - (end - w.cur))
  {
    hide Take;
    var v, k := w.(buf := buf, cur := end), n - (end - w.cur);
    TakeSome(w, v, n, k, data);
    TakeStops(v, k, data);
  }

  lemma CutRead(s: State, w: Work, v: Work, k: nat, data: seq<byte>)
    requires Sound(s) && w.cur < |data| && w.buf != [] && |w.buf| <= MIDI_BUFFER && !w.inSys && w.status != SYSEX
    requires MessageLen(w.status) > 0 && Take(w, MessageLen(w.status) - 1, data) == (v, k) && k > 0
    ensures v.cur == |data| ==> Fill(s, w, data).1 == Message(v.buf)
    ensures v.cur < |data| ==> Fill(s, w, data).1 == Failed(EBADMSG)
  {
    hide Take, Parse, MessageLen, ReadData;
    DataCut(s, w, v, k, data);
  }

  lemma DataCut(s: State, w: Work, v: Work, k: nat, data: seq<byte>)
    requires w.cur < |data| && Sound(s) && w.buf != [] && !w.inSys && w.status != SYSEX && |w.buf| <= MIDI_BUFFER
    requires MessageLen(w.status) > 0 && Take(w, MessageLen(w.status) - 1, data) == (v, k) && k > 0
    ensures ReadData(s, w, data) == (s, v, if v.cur == |data| then ToFinal else ToFail(EBADMSG))
  {
    hide Take, MessageLen;
  }
}
