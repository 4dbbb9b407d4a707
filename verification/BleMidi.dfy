/**
  * MIDI over Bluetooth Low Energy (ble-midi.c): the packet encoder and the stateful decoder.
  */
module BleMidi {

  type byte = x: int | 0 <= x < 256

  const SIZE_MAX: nat := 0xFFFF_FFFF_FFFF_FFFF
  const MIDI_BUFFER := 8
  const SYS_BUFFER := 256
  const PACKET_BUFFER := 512
  const SYSEX: byte := 0xF0
  const SYSEX_END: byte := 0xF7

  /** Bit 7: a status or timestamp byte. */
  predicate Marked(b: byte) {
    b >= 0x80
  }

  /** ble_midi_message_len */
  function MessageLen(status: byte): nat {
    match status / 0x10
    case 0x8 | 0x9 | 0xA | 0xB => 3
    case 0xC | 0xD => 2
    case 0xE => 3
    case 0xF =>
      (match status
       case 0xF0 => SIZE_MAX
       case 0xF1 => 2
       case 0xF2 => 3
       case 0xF3 => 2
       case 0xF6 | 0xF7 | 0xF8 | 0xFA | 0xFB | 0xFC | 0xFE | 0xFF => 1
       case _ => 0)
    case _ => 0
  }

  /**
    * Channel messages have two data bytes, program change and channel pressure one; of the system messages time code
    * and song select have one, the song position has two, and F4, F5, F9 and FD are no status bytes.
    */
  lemma Lengths(status: byte)
    ensures status < 0x80 || status in {0xF4, 0xF5, 0xF9, 0xFD} <==> MessageLen(status) == 0
    ensures 0x80 <= status < 0xF0 ==> MessageLen(status) == if 0xC0 <= status < 0xE0 then 2 else 3
    ensures 0xF0 < status ==> MessageLen(status) <= 3 && (MessageLen(status) == 3 <==> status == 0xF2)
    ensures 0xF0 < status && MessageLen(status) == 2 <==> status == 0xF1 || status == 0xF3
    ensures status == SYSEX ==> MessageLen(status) == SIZE_MAX
  {
  }

  // ---------------------------------------------------------------------------------------------
  // The decoder as a function

  datatype Error = EINVAL | ENOMSG | EBADMSG

  datatype Result = Message(bytes: seq<byte>) | Done | Failed(error: Error)

  /** struct ble_midi_dec; sys is buffer_sys up to buffer_sys_len. The host clock is left out. */
  datatype State = State(
    sys: seq<byte>, tsHighLow: nat, tsHigh: byte, tsLow: nat,
    status: byte, statusSys: bool, statusRestore: bool, currentLen: nat)

  /** The local variables of the decoder: the buffer it fills, and which one it is. */
  datatype Work = Work(buf: seq<byte>, inSys: bool, status: byte, cur: nat)

  function Cap(inSys: bool): nat {
    if inSys then SYS_BUFFER else MIDI_BUFFER
  }

  function Append(w: Work, b: byte): Work {
    w.(buf := w.buf + [b])
  }

  /** The new timestamp in state s for the timestamp byte b, which is the first one of the packet or not. */
  function Clocked(s: State, b: byte, first: bool): State {
    var low := b % 0x80;
    var high := if !first && low < s.tsLow then (s.tsHigh + 1) % 256 else s.tsHigh;
    s.(tsHigh := high, tsLow := low, tsHighLow := high * 0x80 + low)
  }

  /** The system exclusive message fits its buffer, and only channel messages set the running status. */
  predicate Sound(s: State) {
    |s.sys| <= SYS_BUFFER && s.status / 0x10 != 0xF
  }

  /** Nothing is read yet, but for the fragments of a system exclusive message. */
  predicate Fresh(w: Work) {
    |w.buf| <= Cap(w.inSys) && if w.inSys then w.status == SYSEX else w.buf == [] && w.status / 0x10 != 0xF
  }

  /** ble_midi_decode */
  function Decode(s: State, data: seq<byte>): (r: (State, Result))
    requires s.currentLen <= |data| && Sound(s)
    ensures Sound(r.0)
    ensures if r.1.Message? then s.currentLen < r.0.currentLen <= |data| else r.0.currentLen == 0
  {
    if s.currentLen == |data| then (s.(currentLen := 0), Done)
    else
      var w := if s.statusSys then Work(s.sys, true, SYSEX, s.currentLen) else Work([], false, s.status, s.currentLen);
      if w.cur == 0 then
        if |data| < 3 || data[0] / 0x40 != 2 then (s.(currentLen := 0), Failed(EINVAL))
        else Parse(s.(tsHigh := data[0] % 0x40, tsLow := 0), w.(cur := 1), data)
      else Parse(s, w, data)
  }

  /** Where the decoder goes after a stretch of its body. */
  datatype Goto = ToFill | ToRetry | ToFinal | ToFail(error: Error)

  /** The status byte at the place in the packet. */
  function ReadStatus(s: State, w: Work, data: seq<byte>): (r: (State, Work, Goto))
    requires w.cur < |data| && Sound(s) && Fresh(w)
  {
    var status := data[w.cur];
    var u := if status == SYSEX then Work(s.sys, true, status, w.cur + 1)
      else Work(w.buf, w.inSys, status, w.cur + 1);
    var t := if status == SYSEX then s.(statusSys := true)
      else if status == SYSEX_END then s.(statusSys := false) else s;
    var v := if |u.buf| < Cap(u.inSys) then Append(u, status) else u;
    (t, v, if v.cur == |data| then ToFinal else ToFill)
  }

  /** A timestamp byte, if there is one, and the status byte that may follow it. */
  function ReadStamp(s: State, w: Work, data: seq<byte>): (r: (State, Work, Goto))
    requires w.cur < |data| && Sound(s) && Fresh(w)
    ensures Sound(r.0) && |r.1.buf| <= Cap(r.1.inSys) && (r.1.status == SYSEX ==> r.1.inSys)
    ensures w.cur <= r.1.cur <= |data| && !r.2.ToRetry?
    ensures r.2.ToFill? ==> r.1.cur < |data| && (r.1.cur > w.cur || (r.1 == w && !Marked(data[w.cur])))
    ensures r.2.ToFinal? ==> w.cur < r.1.cur
  {
    if !Marked(data[w.cur]) then (s, w, ToFill)
    else
      var t := Clocked(s, data[w.cur], w.cur == 1);
      var v := w.(cur := w.cur + 1);
      if v.cur == |data| then (t, v, ToFail(EINVAL))
      else if !Marked(data[v.cur]) then (t, v, ToFill)
      else ReadStatus(t, v, data)
  }

  /** The running status is completed and the data bytes of a message are read. */
  function ReadData(s: State, w: Work, data: seq<byte>): (r: (State, Work, Goto))
    requires w.cur < |data| && Sound(s) && |w.buf| <= Cap(w.inSys) && (w.status == SYSEX ==> w.inSys)
    ensures Sound(r.0) && |r.1.buf| <= Cap(r.1.inSys) && r.1.inSys == w.inSys && r.1.status == w.status
    ensures w.cur <= r.1.cur <= |data| && !r.2.ToFill?
    ensures r.2.ToRetry? ==> r.1.cur < |data| && Marked(data[r.1.cur]) && Fresh(r.1)
    ensures r.2.ToFinal? && w.status != SYSEX && Fresh(w) && !Marked(data[w.cur]) ==> w.cur < r.1.cur
  {
    var restore := w.buf == [] && s.statusRestore;
    var v := if restore then Append(w, w.status) else w;
    var t := if restore then s.(statusRestore := false) else s;
    var n := MessageLen(w.status);
    if n == 0 then (t, v, ToFail(ENOMSG))
    else
      var (u, left) := Take(v, n - 1, data);
      if u.cur == |data| then (t, u, ToFinal)
      else if left != 0 && u.status != SYSEX then (t, u, ToFail(EBADMSG))
      else if |u.buf| == Cap(u.inSys) then (t, u, ToFinal)
      else if u.status == SYSEX then (t.(sys := u.buf), u, ToRetry)
      else (t, u, ToFinal)
  }

  /** From the label retry on. */
  function Parse(s: State, w: Work, data: seq<byte>): (r: (State, Result))
    requires w.cur < |data| && Sound(s) && Fresh(w)
    ensures Sound(r.0)
    ensures if r.1.Message? then w.cur < r.0.currentLen <= |data| else r.0.currentLen == 0
    decreases |data| - w.cur, if Marked(data[w.cur]) then 0 else 2
  {
    var (t, v, g) := ReadStamp(s, w, data);
    if g.ToFail? then (t.(currentLen := 0), Failed(g.error))
    else if g.ToFinal? then Final(t, v, data)
    else Fill(t, v, data)
  }

  function Fill(s: State, w: Work, data: seq<byte>): (r: (State, Result))
    requires w.cur < |data| && Sound(s) && |w.buf| <= Cap(w.inSys) && (w.status == SYSEX ==> w.inSys)
    ensures Sound(r.0)
    ensures if r.1.Message? then w.cur <= r.0.currentLen <= |data| else r.0.currentLen == 0
    ensures r.1.Message? && Fresh(w) && !Marked(data[w.cur]) ==> w.cur < r.0.currentLen
    decreases |data| - w.cur, 1
  {
    var (t, v, g) := ReadData(s, w, data);
    if g.ToFail? then (t.(currentLen := 0), Failed(g.error))
    else if g.ToRetry? then Parse(t, v, data)
    else Final(t, v, data)
  }

  /** The loop over the data bytes, of which n are still missing. */
  function Take(w: Work, n: nat, data: seq<byte>): (r: (Work, nat))
    requires w.cur <= |data| && |w.buf| <= Cap(w.inSys)
    ensures w.cur <= r.0.cur <= |data| && |r.0.buf| <= Cap(w.inSys)
    ensures r.0 == w.(buf := r.0.buf, cur := r.0.cur)
    ensures |r.0.buf| - |w.buf| == r.0.cur - w.cur == n - r.1
    ensures r.1 == 0 || r.0.cur == |data| || Marked(data[r.0.cur]) || |r.0.buf| == Cap(w.inSys)
    decreases n
  {
    if n > 0 && w.cur < |data| && !Marked(data[w.cur]) && |w.buf| < Cap(w.inSys) then
      Take(Append(w, data[w.cur]).(cur := w.cur + 1), n - 1, data)
    else (w, n)
  }

  /** From the label final on. */
  function Final(s: State, w: Work, data: seq<byte>): (State, Result) {
    var t := s.(
      status := if w.status / 0x10 != 0xF then w.status else s.status,
      statusRestore := if 0xF0 <= w.status < 0xF8 then true else s.statusRestore,
      currentLen := w.cur);
    if w.status == SYSEX then (t.(sys := w.buf, currentLen := 0), Done)
    else (if w.status == SYSEX_END then t.(sys := []) else t, Message(w.buf))
  }

  // ---------------------------------------------------------------------------------------------
  // Packets

  /** A message as a packet holds it: a status byte, but for system exclusive, and its data bytes. */
  predicate WellFormed(m: seq<byte>) {
    && m != [] && m[0] != SYSEX && |m| == MessageLen(m[0])
    && forall i | 1 <= i < |m| :: !Marked(m[i])
  }

  function Header(t: nat): byte {
    0x80 + t / 0x80 % 0x40
  }

  function Stamp(t: nat): byte {
    0x80 + t % 0x80
  }

  /** The 13 bits of a time are split between the header, marked by 10, and the timestamp, marked by 1. */
  lemma TimeSplit(t: nat)
    ensures 0x80 <= Header(t) < 0xC0 && 0x80 <= Stamp(t)
    ensures (Header(t) - 0x80) * 0x80 + (Stamp(t) - 0x80) == t % 0x2000
  {
    Low13(t / 0x80, t % 0x80);
  }

  datatype Event = Event(time: nat, bytes: seq<byte>)

  /** The timestamps and messages of a packet. */
  function Body(ms: seq<Event>): seq<byte> {
    if ms == [] then [] else [Stamp(ms[0].time)] + ms[0].bytes + Body(ms[1..])
  }

  function Packet(ms: seq<Event>): seq<byte> {
    if ms == [] then [] else [Header(ms[0].time)] + Body(ms)
  }

  predicate AllWellFormed(ms: seq<Event>) {
    forall i | 0 <= i < |ms| :: WellFormed(ms[i].bytes)
  }

  /** Data bytes that are there, and for which there is room, are taken: those from w.cur to v.cur. */
  lemma {:induction false} TakeSome(w: Work, v: Work, n: nat, k: nat, data: seq<byte>)
    requires w.cur <= v.cur <= |data| && v.buf == w.buf + data[w.cur..v.cur] && |v.buf| <= Cap(w.inSys)
    requires v.inSys == w.inSys && v.status == w.status && n == k + v.cur - w.cur
    requires forall i | w.cur <= i < v.cur :: !Marked(data[i])
    ensures Take(w, n, data) == Take(v, k, data)
    decreases v.cur - w.cur
  {
    if v.cur == w.cur {
      assert v.buf == w.buf;
    } else {
      var u := Append(w, data[w.cur]).(cur := w.cur + 1);
      TakeOne(w, n, data);
      assert u.buf + data[u.cur..v.cur] == v.buf;
      hide Take;
      TakeSome(u, v, n - 1, k, data);
    }
  }

  lemma TakeOne(w: Work, n: nat, data: seq<byte>)
    requires n > 0 && w.cur < |data| && !Marked(data[w.cur]) && |w.buf| < Cap(w.inSys)
    ensures Take(w, n, data) == Take(Append(w, data[w.cur]).(cur := w.cur + 1), n - 1, data)
  {
  }

  /** A state between messages of a packet, at position c. */
  predicate Between(s: State, c: nat) {
    !s.statusSys && s.currentLen == c && Sound(s)
  }

  /** The place where the first timestamp of what is left of a packet is. */
  function Here(s: State): nat {
    if s.currentLen == 0 then 1 else s.currentLen
  }

  /** One call returns the next message of a packet with its timestamp. */
  lemma DecodeNext(s: State, data: seq<byte>, t: nat, m: seq<byte>)
    requires Between(s, s.currentLen) && Here(s) < |data| && WellFormed(m)
    requires s.currentLen == 0 ==> data[0] == Header(t)
    requires Here(s) + 1 + |m| <= |data| && data[Here(s)] == Stamp(t) && data[Here(s) + 1..Here(s) + 1 + |m|] == m
    ensures var (s', r) := Decode(s, data);
      && r == Message(m) && Between(s', Here(s) + 1 + |m|)
      && s'.tsLow == t % 0x80 && s'.tsHighLow == s'.tsHigh * 0x80 + s'.tsLow
      && s'.tsHigh == (if s.currentLen == 0 then t / 0x80 % 0x40
        else if s.currentLen > 1 && t % 0x80 < s.tsLow then (s.tsHigh + 1) % 256 else s.tsHigh)
      && s'.status == (if m[0] < 0xF0 then m[0] else s.status)
      && s'.statusRestore == (s.statusRestore || 0xF0 <= m[0] < 0xF8)
  {
    hide Parse, Fill, MessageLen;
    ShortMessage(m[0]);
    var c := Here(s);
    var s1 := if s.currentLen == 0 then s.(tsHigh := data[0] % 0x40, tsLow := 0) else s;
    var t1 := Clocked(s1, data[c], c == 1);
    var t2 := if m[0] == SYSEX_END then t1.(statusSys := false) else t1;
    var w := Work([m[0]], false, m[0], c + 2);
    assert data[c + 1] == m[0];
    assert Decode(s, data) == Parse(s1, Work([], false, s.status, c), data);
    ParseMessage(s1, s.status, c, m[0], data);
    FillMessage(t2, w, m, |m| - 1, data);
  }

  lemma ParseMessage(s: State, status: byte, c: nat, first: byte, data: seq<byte>)
    requires c + 1 < |data| && Marked(data[c]) && data[c + 1] == first && Marked(first) && first != SYSEX && Sound(s)
      && status / 0x10 != 0xF
    ensures var t := Clocked(s, data[c], c == 1);
      var t1 := if first == SYSEX_END then t.(statusSys := false) else t;
      var w := Work([first], false, first, c + 2);
      Parse(s, Work([], false, status, c), data) == if c + 2 == |data| then Final(t1, w, data) else Fill(t1, w, data)
  {
    hide Fill, Final, Clocked;
    assert [] + [first] == [first];
  }

  lemma ShortMessage(status: byte)
    ensures MessageLen(status) != 0 ==> Marked(status)
    ensures status != SYSEX ==> MessageLen(status) <= 3
  {
  }

  /** The n data bytes of a message are read, and the message is complete. */
  lemma FillMessage(s: State, w: Work, m: seq<byte>, n: nat, data: seq<byte>)
    requires WellFormed(m) && n == |m| - 1 && w.cur + n <= |data| && w.buf == [m[0]] && w.status == m[0] && !w.inSys
    requires data[w.cur..w.cur + n] == m[1..] && Sound(s)
    ensures w.cur < |data| ==> Fill(s, w, data) == Final(s, w.(buf := m, cur := w.cur + n), data)
    ensures w.cur == |data| ==> m == w.buf
  {
    ShortMessage(m[0]);
    hide Parse, Final, MessageLen, Take, ReadData;
    DataTaken(w, m, n, data);
    if w.cur < |data| {
      MessageRead(s, w, w.(buf := m, cur := w.cur + n), n, data);
    }
  }

  lemma DataUnmarked(m: seq<byte>, n: nat, c: nat, data: seq<byte>)
    requires WellFormed(m) && n == |m| - 1 && c + n <= |data| && data[c..c + n] == m[1..]
    ensures forall i | c <= i < c + n :: !Marked(data[i])
    ensures [m[0]] + data[c..c + n] == m
  {
    hide MessageLen;
    forall i | c <= i < c + n ensures !Marked(data[i]) {
      assert data[i] == data[c..c + n][i - c] == m[1..][i - c] == m[i - c + 1];
    }
  }

  /** All the data bytes of a message are taken. */
  lemma DataTaken(w: Work, m: seq<byte>, n: nat, data: seq<byte>)
    requires WellFormed(m) && n == |m| - 1 <= 2 && w.cur + n <= |data| && w.buf == [m[0]] && !w.inSys
    requires data[w.cur..w.cur + n] == m[1..]
    ensures Take(w, n, data) == (w.(buf := m, cur := w.cur + n), 0)
  {
    hide Take, WellFormed, Marked;
    DataUnmarked(m, n, w.cur, data);
    TakeThese(w, n, m, data);
  }

  lemma MessageRead(s: State, w: Work, u: Work, n: nat, data: seq<byte>)
    requires w.cur < |data| && Sound(s) && w.buf != [] && !w.inSys && w.status != SYSEX && |w.buf| <= MIDI_BUFFER
    requires n == MessageLen(w.status) - 1 && Take(w, n, data) == (u, 0) && |u.buf| < MIDI_BUFFER
    ensures ReadData(s, w, data) == (s, u, ToFinal)
  {
    hide Take, MessageLen;
  }

  lemma TakeThese(w: Work, n: nat, buf: seq<byte>, data: seq<byte>)
    requires w.cur + n <= |data| && |w.buf| + n <= Cap(w.inSys) && w.buf + data[w.cur..w.cur + n] == buf
    requires forall i | w.cur <= i < w.cur + n :: !Marked(data[i])
    ensures Take(w, n, data) == (w.(buf := buf, cur := w.cur + n), 0)
  {
    hide Take;
    var v := w.(buf := buf, cur := w.cur + n);
    TakeSome(w, v, n, 0, data);
    TakeNone(v, data);
  }

  lemma TakeNone(w: Work, data: seq<byte>)
    requires w.cur <= |data| && |w.buf| <= Cap(w.inSys)
    ensures Take(w, 0, data) == (w, 0)
  {
  }

  // ---------------------------------------------------------------------------------------------
  // Round trip

  /** The messages with their timestamps that repeated calls return, the last result and the state after. */
  datatype Run = Run(out: seq<Event>, last: Result, state: State)

  function DecodeAll(s: State, data: seq<byte>): (run: Run)
    requires s.currentLen <= |data| && Sound(s)
    ensures Sound(run.state) && run.state.currentLen == 0
    decreases |data| - s.currentLen
  {
    var (s', r) := Decode(s, data);
    if r.Message? then
      var rest := DecodeAll(s', data);
      rest.(out := [Event(s'.tsHighLow, r.bytes)] + rest.out)
    else Run([], r, s')
  }

  function Bytes(ms: seq<Event>): seq<seq<byte>> {
    if ms == [] then [] else [ms[0].bytes] + Bytes(ms[1..])
  }

  /** Each timestamp of out is that of ms modulo the 13 bits of a packet. */
  predicate SameTimes(out: seq<Event>, ms: seq<Event>) {
    |out| == |ms| && forall i | 0 <= i < |ms| :: out[i].time % 0x2000 == ms[i].time % 0x2000
  }

  /** Successive messages are less than 128 ms apart, up to whole turns of the 13-bit clock. */
  predicate Close(last: nat, ms: seq<Event>)
    decreases |ms|
  {
    ms != [] ==> (ms[0].time - last) % 0x2000 < 0x80 && Close(ms[0].time, ms[1..])
  }

  /** The next timestamp is right exactly when it is less than 128 ms after the last one. */
  lemma StampStep(s: State, last: nat, t: nat)
    requires InStep(s, last)
    ensures var s' := Clocked(s, Stamp(t), false);
      s'.tsHighLow % 0x2000 == t % 0x2000 <==> (t - last) % 0x2000 < 0x80
  {
    StampLow(t);
    NextStamp(s.tsHigh, s.tsLow, last, t);
  }

  lemma StampLow(t: nat)
    ensures Stamp(t) % 0x80 == t % 0x80
  {
  }

  lemma NextStamp(high: byte, low: nat, last: nat, t: nat)
    requires low == last % 0x80 && (high * 0x80 + low) % 0x2000 == last % 0x2000
    ensures var h := if t % 0x80 < low then (high + 1) % 256 else high;
      (h * 0x80 + t % 0x80) % 0x2000 == t % 0x2000 <==> (t - last) % 0x2000 < 0x80
  {
    var h := if t % 0x80 < low then (high + 1) % 256 else high;
    HighBits(high, low, last);
    NextHigh(high, last / 0x80);
    HighBits(h, t % 0x80, t);
    Ahead(last, t);
  }

  lemma FirstStamp(t: nat)
    ensures (t / 0x80 % 0x40 * 0x80 + t % 0x80) % 0x2000 == t % 0x2000
  {
    HighBits(t / 0x80 % 0x40, t % 0x80, t);
  }

  lemma NextHigh(high: byte, h: nat)
    requires high % 0x40 == h % 0x40
    ensures (high + 1) % 256 % 0x40 == (h + 1) % 0x40
  {
  }

  /** The low 13 bits of a number from its parts. */
  lemma Low13(high: nat, low: nat)
    requires low < 0x80
    ensures (high * 0x80 + low) % 0x2000 == (high % 0x40) * 0x80 + low
  {
    var q, r := high / 0x40, (high % 0x40) * 0x80 + low;
    assert high * 0x80 + low == 0x2000 * q + r;
    WholeTurns(q, r);
  }

  lemma WholeTurns(q: int, r: int)
    requires 0 <= r < 0x2000
    ensures (0x2000 * q + r) % 0x2000 == r
  {
  }

  lemma HighBits(high: nat, low: nat, t: nat)
    requires low == t % 0x80
    ensures (high * 0x80 + low) % 0x2000 == t % 0x2000 <==> high % 0x40 == t / 0x80 % 0x40
  {
    Low13(high, low);
    assert t == (t / 0x80) * 0x80 + low;
    Low13(t / 0x80, low);
  }

  /** A difference modulo 13 bits depends on the low 13 bits only. */
  lemma Difference13(p: nat, q: nat)
    ensures (p - q) % 0x2000 == if p % 0x2000 >= q % 0x2000 then p % 0x2000 - q % 0x2000
      else p % 0x2000 - q % 0x2000 + 0x2000
  {
    var d := p % 0x2000 - q % 0x2000;
    var k := p / 0x2000 - q / 0x2000;
    if d >= 0 {
      assert p - q == 0x2000 * k + d;
      WholeTurns(k, d);
    } else {
      assert p - q == 0x2000 * (k - 1) + (d + 0x2000);
      WholeTurns(k - 1, d + 0x2000);
    }
  }

  /** Less than 128 ms later the high part is the same, or the next one if the low part fell. */
  lemma Ahead(last: nat, t: nat)
    ensures (t - last) % 0x2000 < 0x80 <==>
      t / 0x80 % 0x40 == (if t % 0x80 < last % 0x80 then (last / 0x80 + 1) % 0x40 else last / 0x80 % 0x40)
  {
    assert last == (last / 0x80) * 0x80 + last % 0x80;
    assert t == (t / 0x80) * 0x80 + t % 0x80;
    Low13(last / 0x80, last % 0x80);
    Low13(t / 0x80, t % 0x80);
    Difference13(t, last);
    AheadBounded(last / 0x80 % 0x40, last % 0x80, t / 0x80 % 0x40, t % 0x80);
    assert (last / 0x80 + 1) % 0x40 == if last / 0x80 % 0x40 == 0x3F then 0 else last / 0x80 % 0x40 + 1;
  }

  lemma AheadBounded(a: nat, x: nat, b: nat, y: nat)
    requires a < 0x40 && b < 0x40 && x < 0x80 && y < 0x80
    ensures var p, q := b * 0x80 + y, a * 0x80 + x;
      (if p >= q then p - q else p - q + 0x2000) < 0x80 <==>
      b == (if y < x then (if a == 0x3F then 0 else a + 1) else a)
  {
  }

  /** From any place between two messages the rest of the packet comes back. */
  lemma {:induction false} RoundTripFrom(s: State, data: seq<byte>, ms: seq<Event>, last: nat)
    requires Between(s, s.currentLen) && AllWellFormed(ms) && Here(s) <= |data| && data[Here(s)..] == Body(ms)
    requires s.currentLen == 0 ==> ms != [] && data[0] == Header(ms[0].time)
    requires s.currentLen != 1 && (s.currentLen == 0 ==> last == ms[0].time)
    ensures var run := DecodeAll(s, data);
      && Bytes(run.out) == Bytes(ms) && |run.out| == |ms| && run.last == Done && Between(run.state, 0)
      && (s.currentLen == 0 || InStep(s, last) ==> (SameTimes(run.out, ms) <==> Close(last, ms)))
    decreases |ms|
  {
    hide Decode, DecodeAll, InStep, SameTimes, Sound, Stamp, Header, WellFormed, AllWellFormed, Body, Bytes, Close;
    if ms == [] {
      NothingLeft(s, data, last);
    } else {
      var c, t, m := Here(s), ms[0].time, ms[0].bytes;
      Layout(data, c, ms);
      DecodeNext(s, data, t, m);
      var s' := Decode(s, data).0;
      RoundTripFrom(s', data, ms[1..], t);
      AllNext(s, data);
      var out, rest := DecodeAll(s, data).out, DecodeAll(s', data).out;
      BytesNext(ms, out);
      SameSplit(out, ms);
      CloseNext(last, ms);
      if s.currentLen == 0 || InStep(s, last) {
        StepTimes(s, s', last, t);
      }
    }
  }

  lemma NothingLeft(s: State, data: seq<byte>, last: nat)
    requires Between(s, s.currentLen) && s.currentLen != 1 && Here(s) <= |data| && data[Here(s)..] == Body([])
      && s.currentLen != 0
    ensures DecodeAll(s, data) == Run([], Done, s.(currentLen := 0))
    ensures Bytes([]) == [] && SameTimes([], []) && Close(last, []) && Between(s.(currentLen := 0), 0)
  {
    assert s.currentLen == |data| && Decode(s, data) == (s.(currentLen := 0), Done);
  }

  lemma Layout(data: seq<byte>, c: nat, ms: seq<Event>)
    requires c <= |data| && data[c..] == Body(ms) && ms != [] && AllWellFormed(ms)
    ensures WellFormed(ms[0].bytes) && AllWellFormed(ms[1..])
    ensures var t, m := ms[0].time, ms[0].bytes;
      && c + 1 + |m| <= |data| && data[c] == Stamp(t) && data[c + 1..c + 1 + |m|] == m
      && data[c + 1 + |m|..] == Body(ms[1..])
  {
    var m, tail := ms[0].bytes, Body(ms);
    assert data[c] == tail[0];
    assert data[c + 1..c + 1 + |m|] == tail[1..1 + |m|];
    assert data[c + 1 + |m|..] == tail[1 + |m|..];
  }

  lemma BytesNext(ms: seq<Event>, out: seq<Event>)
    requires ms != [] && out != [] && ms[0].bytes == out[0].bytes && Bytes(ms[1..]) == Bytes(out[1..])
    ensures Bytes(ms) == Bytes(out)
  {
  }

  lemma CloseNext(last: nat, ms: seq<Event>)
    requires ms != []
    ensures Close(last, ms) <==> (ms[0].time - last) % 0x2000 < 0x80 && Close(ms[0].time, ms[1..])
  {
  }

  lemma AllNext(s: State, data: seq<byte>)
    requires s.currentLen <= |data| && Sound(s) && Decode(s, data).1.Message?
    ensures var (s', r) := Decode(s, data);
      var run, rest := DecodeAll(s, data), DecodeAll(s', data);
      && |run.out| == |rest.out| + 1 && run.out[0] == Event(s'.tsHighLow, r.bytes) && run.out[1..] == rest.out
      && run.last == rest.last && run.state == rest.state
  {
    hide Decode;
  }

  lemma StepTimes(s: State, s': State, last: nat, t: nat)
    requires s.currentLen != 1 && (s.currentLen == 0 ==> last == t) && (s.currentLen == 0 || InStep(s, last))
    requires s'.tsLow == t % 0x80 && s'.tsHighLow == s'.tsHigh * 0x80 + s'.tsLow
    requires s'.tsHigh == if s.currentLen == 0 then t / 0x80 % 0x40
      else if t % 0x80 < s.tsLow then (s.tsHigh + 1) % 256 else s.tsHigh
    ensures s'.tsHighLow % 0x2000 == t % 0x2000 <==> (t - last) % 0x2000 < 0x80
    ensures s'.tsHighLow % 0x2000 == t % 0x2000 ==> InStep(s', t)
  {
    if s.currentLen == 0 {
      FirstStamp(t);
    } else {
      NextStamp(s.tsHigh, s.tsLow, last, t);
    }
  }

  /** The decoder's clock is that of the encoder after a message at time last. */
  predicate InStep(s: State, last: nat) {
    s.tsLow == last % 0x80 && (s.tsHigh * 0x80 + s.tsLow) % 0x2000 == last % 0x2000
  }

  lemma SameSplit(out: seq<Event>, ms: seq<Event>)
    requires |out| == |ms| > 0
    ensures SameTimes(out, ms) <==> out[0].time % 0x2000 == ms[0].time % 0x2000 && SameTimes(out[1..], ms[1..])
  {
    if out[0].time % 0x2000 == ms[0].time % 0x2000 && SameTimes(out[1..], ms[1..]) {
      forall i | 0 <= i < |ms| ensures out[i].time % 0x2000 == ms[i].time % 0x2000 {
        if i > 0 {
          assert out[1..][i - 1].time % 0x2000 == ms[1..][i - 1].time % 0x2000;
        }
      }
    }
  }

  /** Repeated calls return the messages of a packet in order and then report its end. */
  lemma RoundTrip(s: State, ms: seq<Event>)
    requires Between(s, 0) && ms != [] && AllWellFormed(ms)
    ensures var run := DecodeAll(s, Packet(ms));
      && Bytes(run.out) == Bytes(ms) && run.last == Done && Between(run.state, 0)
      && (SameTimes(run.out, ms) <==> Close(ms[0].time, ms))
  {
    hide DecodeAll;
    assert Packet(ms)[1..] == Body(ms);
    RoundTripFrom(s, Packet(ms), ms, ms[0].time);
  }

  // ---------------------------------------------------------------------------------------------
  // System exclusive messages

  /** A complete system exclusive message. */
  predicate Exclusive(m: seq<byte>) {
    |m| >= 2 && m[0] == SYSEX && m[|m| - 1] == SYSEX_END && forall i | 1 <= i < |m| - 1 :: !Marked(m[i])
  }

  /** Data bytes from place c on, except that the last byte may be marked. */
  predicate DataFrom(data: seq<byte>, c: nat) {
    forall i | c <= i < |data| - 1 :: !Marked(data[i])
  }

  lemma TakeStops(w: Work, n: nat, data: seq<byte>)
    requires w.cur <= |data| && |w.buf| <= Cap(w.inSys)
    requires n > 0 && w.cur < |data| ==> Marked(data[w.cur]) || |w.buf| == Cap(w.inSys)
    ensures Take(w, n, data) == (w, n)
  {
  }

  /** The decoder is in the middle of a system exclusive message, or between packets that carry one. */
  predicate Gathers(s: State) {
    s.statusSys && s.currentLen == 0 && Sound(s)
  }

  /** The data bytes of such a message never make one: the decoder waits for more, or takes its end for a timestamp. */
  lemma GatheredData(s: State, w: Work, data: seq<byte>)
    requires Sound(s) && s.statusSys && w.inSys && w.status == SYSEX && |w.buf| <= SYS_BUFFER
    requires 1 < w.cur + 1 && w.cur < |data| < SIZE_MAX && DataFrom(data, w.cur)
    ensures var (t, r) := Fill(s, w, data); !r.Message? && Gathers(t)
  {
    hide Take;
    var (t, v, g) := ReadData(s, w, data);
    var restored := if w.buf == [] && s.statusRestore then Append(w, w.status) else w;
    var (u, left) := Take(restored, SIZE_MAX - 1, data);
    assert left > 0;
    if g.ToRetry? {
      assert v == u && u.cur == |data| - 1;
    }
  }

  /** A packet that begins such a message: header, timestamp, and some of its bytes. */
  lemma FirstFragment(s: State, p: seq<byte>)
    requires Sound(s) && s.currentLen == 0 && 3 <= |p| < SIZE_MAX && Marked(p[1]) && p[2] == SYSEX && DataFrom(p, 3)
    ensures var (t, r) := Decode(s, p); !r.Message? && (p[0] / 0x40 == 2 ==> Gathers(t))
  {
    hide Fill, ReadData;
    if p[0] / 0x40 == 2 {
      var w := if s.statusSys then Work(s.sys, true, SYSEX, 1) else Work([], false, s.status, 1);
      var s1 := s.(tsHigh := p[0] % 0x40, tsLow := 0);
      var t1 := Clocked(s1, p[1], true).(statusSys := true);
      var u := Work(s.sys, true, SYSEX, 3);
      var v := if |u.buf| < SYS_BUFFER then Append(u, SYSEX) else u;
      assert ReadStamp(s1, w, p) == (t1, v, if |p| == 3 then ToFinal else ToFill);
      if |p| > 3 {
        GatheredData(t1, v, p);
      }
    }
  }

  /** A packet that continues it: header and more bytes. */
  lemma NextFragment(s: State, p: seq<byte>)
    requires Gathers(s) && 2 <= |p| < SIZE_MAX && DataFrom(p, 1)
    ensures var (t, r) := Decode(s, p); !r.Message? && Gathers(t)
  {
    hide Fill, ReadData;
    if |p| >= 3 && p[0] / 0x40 == 2 {
      GatheredData(s.(tsHigh := p[0] % 0x40, tsLow := 0), Work(s.sys, true, SYSEX, 1), p);
    }
  }

  /** What a message after that comes back as: the bytes that were gathered are in front of it. */
  lemma LostBytesInFront(s: State, t: nat, m: seq<byte>)
    requires Gathers(s) && WellFormed(m) && |s.sys| + |m| <= SYS_BUFFER
    ensures var (u, r) := Decode(s, Packet([Event(t, m)]));
      && r == Message(s.sys + m)
      && u.sys == (if m[0] == SYSEX_END then [] else s.sys) && (u.statusSys <==> m[0] != SYSEX_END)
  {
    var p := Packet([Event(t, m)]);
    OnePacket(t, m);
    ShortMessage(m[0]);
    hide Packet, Body, Fill, MessageLen, Take;
    assert p[2..] == m;
    var s1 := s.(tsHigh := p[0] % 0x40, tsLow := 0);
    var t1 := Clocked(s1, p[1], true);
    var t2 := if m[0] == SYSEX_END then t1.(statusSys := false) else t1;
    var v := Work(s.sys + [m[0]], true, m[0], 3);
    assert ReadStamp(s1, Work(s.sys, true, SYSEX, 1), p) == (t2, v, if |p| == 3 then ToFinal else ToFill);
    if |p| > 3 {
      FilledUp(t2, v, m, |m| - 1, s.sys, p);
    } else {
      assert m == [m[0]];
    }
  }

  lemma FilledUp(s: State, w: Work, m: seq<byte>, n: nat, before: seq<byte>, data: seq<byte>)
    requires WellFormed(m) && n == |m| - 1 <= 2 && w.cur + n == |data| && w.cur < |data| && Sound(s)
    requires w.buf == before + [m[0]] && w.status == m[0] && w.inSys && |before| + |m| <= SYS_BUFFER
    requires data[w.cur..w.cur + n] == m[1..]
    ensures Fill(s, w, data) == Final(s, w.(buf := before + m, cur := |data|), data)
  {
    FilledRead(s, w, m, n, before, data);
    hide ReadData, WellFormed, Final;
  }

  lemma FilledRead(s: State, w: Work, m: seq<byte>, n: nat, before: seq<byte>, data: seq<byte>)
    requires WellFormed(m) && n == |m| - 1 <= 2 && w.cur + n == |data| && w.cur < |data| && Sound(s)
    requires w.buf == before + [m[0]] && w.status == m[0] && w.inSys && |before| + |m| <= SYS_BUFFER
    requires data[w.cur..w.cur + n] == m[1..]
    ensures ReadData(s, w, data) == (s, w.(buf := before + m, cur := |data|), ToFinal)
  {
    DataUnmarked(m, n, w.cur, data);
    hide Take;
    assert before + [m[0]] + m[1..] == before + m;
    TakeThese(w, n, before + m, data);
  }

  lemma OnePacket(t: nat, m: seq<byte>)
    ensures Packet([Event(t, m)]) == [Header(t), Stamp(t)] + m
  {
    assert [Event(t, m)][1..] == [];
    assert Body([Event(t, m)]) == [Stamp(t)] + m + [];
    hide Header, Stamp, Body;
    assert [Stamp(t)] + m + [] == [Stamp(t)] + m;
    assert [Header(t)] + ([Stamp(t)] + m) == [Header(t), Stamp(t)] + m;
  }

  /** The results of decoding packets one after the other, each to its end. */
  function DecodePackets(s: State, packets: seq<seq<byte>>): (r: (seq<Event>, State))
    requires Sound(s) && s.currentLen == 0
    ensures Sound(r.1) && r.1.currentLen == 0
    decreases |packets|
  {
    if packets == [] then ([], s)
    else
      var run := DecodeAll(s, packets[0]);
      var (out, t) := DecodePackets(run.state, packets[1..]);
      (run.out + out, t)
  }

  /** Packets that continue such a message. */
  predicate Continued(packets: seq<seq<byte>>) {
    forall k | 0 <= k < |packets| :: 2 <= |packets[k]| < SIZE_MAX && DataFrom(packets[k], 1)
  }

  lemma {:induction false} FragmentsLost(s: State, packets: seq<seq<byte>>)
    requires Gathers(s) && Continued(packets)
    ensures var (out, t) := DecodePackets(s, packets); out == [] && Gathers(t)
    decreases |packets|
  {
    hide Decode, DataFrom, Sound;
    if packets != [] {
      NextFragment(s, packets[0]);
      FragmentsLost(Decode(s, packets[0]).0, packets[1..]);
    }
  }
}
