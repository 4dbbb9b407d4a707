/**
  * The BLE-MIDI encoder and decoder in place: structures that hold their buffers (ble-midi.c, ble-midi.h).
  */
module BleMidiCoder {
  import opened BleMidi

  datatype Encoded = Complete | Continues | BadMtu | TooLong

  /** struct ble_midi_enc */
  class Encoder {
    var mtu: nat
    const buffer: array<byte>
    var len: nat
    var currentLen: nat

    ghost predicate Valid()
      reads this
    {
      buffer.Length == PACKET_BUFFER && len <= PACKET_BUFFER
    }

    /** What the packet holds so far. */
    function Bytes(): seq<byte>
      reads this, buffer
      requires Valid()
    {
      buffer[..len]
    }

    /** ble_midi_encode_init and ble_midi_encode_set_mtu */
    constructor (mtu: nat)
      ensures Valid() && Bytes() == [] && currentLen == 0 && fresh(buffer)
      ensures this.mtu == if mtu < PACKET_BUFFER then mtu else PACKET_BUFFER
    {
      buffer := new byte[PACKET_BUFFER](_ => 0);
      this.mtu := if mtu < PACKET_BUFFER then mtu else PACKET_BUFFER;
      len, currentLen := 0, 0;
    }

    method Put(b: byte)
      requires Valid() && len < PACKET_BUFFER
      modifies this`len, buffer
      ensures Valid() && Bytes() == old(Bytes()) + [b]
    {
      buffer[len] := b;
      len := len + 1;
    }

    /** memcpy to the end of the packet */
    method Copy(data: seq<byte>)
      requires Valid() && len + |data| <= PACKET_BUFFER
      modifies this`len, buffer
      ensures Valid() && Bytes() == old(Bytes()) + data
    {
      ghost var start := Bytes();
      for i := 0 to |data|
        invariant len == old(len) && buffer[..len + i] == start + data[..i]
      {
        buffer[len + i] := data[i];
      }
      assert data[..|data|] == data;
      len := len + |data|;
    }

    /** The header byte of an empty packet, and the timestamp. */
    method Start(now: nat, stamped: bool)
      requires Valid() && len + (if len == 0 then 1 else 0) + (if stamped then 1 else 0) <= PACKET_BUFFER
      modifies this`len, buffer
      ensures Valid()
      ensures Bytes() == (if old(len) == 0 then [Header(now)] else old(Bytes())) + if stamped then [Stamp(now)] else []
    {
      if len == 0 {
        Put(Header(now));
      }
      if stamped {
        Put(Stamp(now));
      }
    }

    /**
      * ble_midi_encode at time now. A message is added with its timestamp when there is room; of a system
      * exclusive one as much as fits, and when it is continued the packet starts again without a timestamp.
      */
    method Encode(data: seq<byte>, now: nat) returns (r: Encoded)
      requires Valid() && data != [] && len <= mtu
      requires if data[0] == SYSEX then currentLen < |data| else currentLen == 0
      modifies this`len, this`currentLen, buffer
      ensures Valid()
      ensures r.BadMtu? <==> mtu < 5 || mtu > PACKET_BUFFER
      ensures r.TooLong? <==> !r.BadMtu? && data[0] != SYSEX && old(len) + 2 + |data| > mtu
      ensures r.BadMtu? || r.TooLong? ==> Bytes() == old(Bytes()) && currentLen == old(currentLen)
      ensures !r.BadMtu? && !r.TooLong? ==>
        var more := data[0] == SYSEX && old(len) == mtu;
        var packet := if more then [] else old(Bytes());
        var start := (if packet == [] then [Header(now)] else packet) + if more then [] else [Stamp(now)];
        && |start| <= mtu && |data| - old(currentLen) >= 0
        && (data[0] != SYSEX ==> r == Complete && currentLen == 0 && Bytes() == start + data)
        && (data[0] == SYSEX ==>
          var n := if |data| - old(currentLen) < mtu - |start| then |data| - old(currentLen) else mtu - |start|;
          && Bytes() == start + data[old(currentLen)..old(currentLen) + n]
          && (r == Complete <==> old(currentLen) + n == |data|) && (r == Continues <==> r != Complete)
          && currentLen == if r == Complete then 0 else old(currentLen) + n)
    {
      hide Header, Stamp;
      var isSys := data[0] == SYSEX;
      var isSysContinue := false;
      if mtu < 5 || mtu > PACKET_BUFFER {
        return BadMtu;
      }
      if len + 2 + |data| > mtu && !isSys {
        return TooLong;
      }
      if isSys && len == mtu {
        isSysContinue := true;
        len := 0;
      }
      Start(now, !isSysContinue);
      assert data[0..|data|] == data;
      r := Transfer(data, isSys);
    }

    /** The end of ble_midi_encode: the bytes that fit are added. */
    method Transfer(data: seq<byte>, isSys: bool) returns (r: Encoded)
      requires Valid() && len <= mtu <= PACKET_BUFFER
      requires if isSys then currentLen < |data| else currentLen == 0 && len + |data| <= mtu
      modifies this`len, this`currentLen, buffer
      ensures Valid() && (r == Complete || r == Continues)
      ensures var n := if isSys && |data| - old(currentLen) >= mtu - old(len) then mtu - old(len)
        else |data| - old(currentLen);
        && Bytes() == old(Bytes()) + data[old(currentLen)..old(currentLen) + n]
        && (r == Complete <==> old(currentLen) + n == |data|)
        && currentLen == if r == Complete then 0 else old(currentLen) + n
    {
      var transferLen := |data|;
      if isSys {
        transferLen := if |data| - currentLen < mtu - len then |data| - currentLen else mtu - len;
      }
      Copy(data[currentLen..currentLen + transferLen]);
      if isSys {
        currentLen := currentLen + transferLen;
        if currentLen != |data| {
          return Continues;
        }
        currentLen := 0;
      }
      return Complete;
    }
  }

  lemma {:induction false} BodySnoc(ms: seq<Event>, e: Event)
    ensures Body(ms + [e]) == Body(ms) + [Stamp(e.time)] + e.bytes
  {
    if ms == [] {
      assert [e][1..] == [];
    } else {
      assert (ms + [e])[1..] == ms[1..] + [e];
      BodySnoc(ms[1..], e);
    }
  }

  lemma PacketSnoc(ms: seq<Event>, e: Event)
    ensures Packet(ms + [e]) == (if ms == [] then [Header(e.time)] else Packet(ms)) + [Stamp(e.time)] + e.bytes
  {
    BodySnoc(ms, e);
    if ms == [] {
      assert [] + [e] == [e] && [e][1..] == [];
    }
  }

  lemma PacketNext(ms: seq<Event>, n: nat)
    requires n < |ms| && AllWellFormed(ms)
    ensures WellFormed(ms[n].bytes) && |ms[n].bytes| > 0 && ms[n].bytes[0] != SYSEX
    ensures var e := ms[n];
      Packet(ms[..n + 1]) == (if n == 0 then [Header(e.time)] else Packet(ms[..n])) + [Stamp(e.time)] + e.bytes
  {
    PacketSnoc(ms[..n], ms[n]);
    assert ms[..n] + [ms[n]] == ms[..n + 1];
  }

  lemma NoMessages(ms: seq<Event>)
    ensures Packet(ms[..0]) == []
  {
  }

  /** Messages are put into an empty packet until one does not fit: the packet holds those before it. */
  method EncodeMany(enc: Encoder, ms: seq<Event>) returns (n: nat)
    requires enc.Valid() && enc.len == 0 && enc.currentLen == 0 && 5 <= enc.mtu <= PACKET_BUFFER && AllWellFormed(ms)
    modifies enc`len, enc`currentLen, enc.buffer
    ensures enc.Valid() && n <= |ms| && enc.Bytes() == Packet(ms[..n]) && |Packet(ms[..n])| <= enc.mtu
    ensures n < |ms| ==> |Packet(ms[..n])| + 2 + |ms[n].bytes| > enc.mtu
  {
    hide Packet, WellFormed, Header, Stamp;
    n := 0;
    NoMessages(ms);
    while n < |ms|
      invariant enc.Valid() && n <= |ms| && enc.Bytes() == Packet(ms[..n]) && enc.currentLen == 0 && enc.len <= enc.mtu
      invariant enc.len == 0 <==> n == 0
    {
      PacketNext(ms, n);
      var r := enc.Encode(ms[n].bytes, ms[n].time);
      if r.TooLong? {
        return;
      }
      n := n + 1;
    }
  }

  /** The pieces of a message in the packets that carry it: the first one has a timestamp. */
  function Payload(packets: seq<seq<byte>>): seq<byte>
    requires forall k | 0 <= k < |packets| :: |packets[k]| >= 2
  {
    if packets == [] then []
    else Payload(packets[..|packets| - 1]) + packets[|packets| - 1][if |packets| == 1 then 2 else 1..]
  }

  /** Packet number k of a system exclusive message. */
  predicate Fragment(p: seq<byte>, k: nat, clock: nat -> nat) {
    |p| >= 2 && p[0] == Header(clock(k)) && (k == 0 ==> p[1] == Stamp(clock(0)))
  }

  predicate Fragments(packets: seq<seq<byte>>, mtu: nat, clock: nat -> nat)
    ensures Fragments(packets, mtu, clock) ==> forall k | 0 <= k < |packets| :: |packets[k]| >= 2
  {
    forall k | 0 <= k < |packets| :: Fragment(packets[k], k, clock) && 2 <= |packets[k]| <= mtu
  }

  predicate Full(packets: seq<seq<byte>>, mtu: nat) {
    forall k | 0 <= k < |packets| :: |packets[k]| == mtu
  }

  lemma OneMore(packets: seq<seq<byte>>, p: seq<byte>, mtu: nat, clock: nat -> nat)
    requires Fragments(packets, mtu, clock) && Full(packets, mtu) && Fragment(p, |packets|, clock) && 2 <= |p| <= mtu
    ensures Fragments(packets + [p], mtu, clock) && (packets + [p])[..|packets|] == packets && Full(packets, mtu)
    ensures Full(packets + [p], mtu) <==> |p| == mtu
  {
    if Full(packets + [p], mtu) {
      assert (packets + [p])[|packets|] == p;
    }
  }

  /** One more packet, which carries the bytes of the message from c to d behind its k leading ones. */
  lemma Carried(packets: seq<seq<byte>>, p: seq<byte>, data: seq<byte>, c: nat, k: nat, d: nat)
    requires forall i | 0 <= i < |packets| :: |packets[i]| >= 2
    requires |p| >= 2 && k == (if packets == [] then 2 else 1) && c <= d <= |data| && p[k..] == data[c..d]
    requires Payload(packets) == data[..c]
    ensures Payload(packets + [p]) == data[..d]
  {
    assert (packets + [p])[..|packets|] == packets;
    assert data[..c] + data[c..d] == data[..d];
  }

  /** One packet of a system exclusive message. */
  method EncodeFragment(enc: Encoder, data: seq<byte>, index: nat, clock: nat -> nat)
    returns (r: Encoded, p: seq<byte>, ghost d: nat)
    requires enc.Valid() && 5 <= enc.mtu <= PACKET_BUFFER && data != [] && data[0] == SYSEX && enc.currentLen < |data|
    requires enc.len == if index == 0 then 0 else enc.mtu
    modifies enc`len, enc`currentLen, enc.buffer
    ensures enc.Valid() && Fragment(p, index, clock) && 2 <= |p| <= enc.mtu
    ensures old(enc.currentLen) < d <= |data| && p[if index == 0 then 2 else 1..] == data[old(enc.currentLen)..d]
    ensures if d == |data| then r == Complete && enc.currentLen == 0
            else r == Continues && enc.currentLen == d && enc.len == enc.mtu == |p|
  {
    hide Header, Stamp;
    ghost var c := enc.currentLen;
    r := enc.Encode(data, clock(index));
    p := enc.Bytes();
    ghost var k := if index == 0 then 2 else 1;
    ghost var n := if |data| - c < enc.mtu - k then |data| - c else enc.mtu - k;
    assert p[k..] == data[c..c + n];
    d := c + n;
  }

  /**
    * A system exclusive message of any length goes out in packets that are full but for the last one and carry
    * its bytes in order.
    */
  method EncodeExclusive(enc: Encoder, data: seq<byte>, clock: nat -> nat) returns (packets: seq<seq<byte>>)
    requires enc.Valid() && enc.len == 0 && enc.currentLen == 0 && 5 <= enc.mtu <= PACKET_BUFFER
    requires data != [] && data[0] == SYSEX
    modifies enc`len, enc`currentLen, enc.buffer
    ensures enc.Valid() && enc.currentLen == 0 && packets != []
    ensures Fragments(packets, enc.mtu, clock) && Full(packets[..|packets| - 1], enc.mtu)
    ensures Payload(packets) == data
  {
    hide Carry, Fragments, Full, Fragment, Payload;
    packets := [];
    NothingCarried(data, enc.mtu, clock);
    var r := Continues;
    while r.Continues?
      invariant enc.Valid() && (r == Continues || r == Complete)
      invariant r.Complete? ==> enc.currentLen == 0 && packets != [] && Carry(packets, data, |data|, enc.mtu, clock)
      invariant r.Continues? ==> enc.currentLen < |data| && enc.len == if packets == [] then 0 else enc.mtu
      invariant r.Continues? ==> Carry(packets, data, enc.currentLen, enc.mtu, clock) && Full(packets, enc.mtu)
      decreases r.Continues?, |data| - enc.currentLen
    {
      ghost var c := enc.currentLen;
      var p;
      ghost var d;
      r, p, d := EncodeFragment(enc, data, |packets|, clock);
      CarryMore(packets, p, data, c, d, enc.mtu, clock);
      packets := packets + [p];
    }
    CarryAll(packets, data, enc.mtu, clock);
  }

  /** Packets carry the first c bytes of a message. */
  predicate Carry(packets: seq<seq<byte>>, data: seq<byte>, c: nat, mtu: nat, clock: nat -> nat) {
    && Fragments(packets, mtu, clock) && c <= |data| && Payload(packets) == data[..c]
    && (packets != [] ==> Full(packets[..|packets| - 1], mtu))
  }

  lemma NothingCarried(data: seq<byte>, mtu: nat, clock: nat -> nat)
    ensures Carry([], data, 0, mtu, clock) && Full([], mtu)
  {
  }

  lemma CarryMore(packets: seq<seq<byte>>, p: seq<byte>, data: seq<byte>, c: nat, d: nat, mtu: nat, clock: nat -> nat)
    requires Carry(packets, data, c, mtu, clock) && Full(packets, mtu) && Fragment(p, |packets|, clock)
    requires 2 <= |p| <= mtu && c <= d <= |data| && p[if |packets| == 0 then 2 else 1..] == data[c..d]
    ensures Carry(packets + [p], data, d, mtu, clock) && (|p| == mtu ==> Full(packets + [p], mtu))
  {
    Carried(packets, p, data, c, if packets == [] then 2 else 1, d);
    OneMore(packets, p, mtu, clock);
    hide Fragments, Full, Fragment, Payload;
  }

  lemma CarryAll(packets: seq<seq<byte>>, data: seq<byte>, mtu: nat, clock: nat -> nat)
    requires Carry(packets, data, |data|, mtu, clock) && packets != []
    ensures Fragments(packets, mtu, clock) && Full(packets[..|packets| - 1], mtu) && Payload(packets) == data
  {
    hide Fragments, Full, Fragment, Payload;
    assert data[..|data|] == data;
  }

  /** The packets of a message hold its data bytes, of which only the last one is marked. */
  lemma {:induction false} FragmentsHold(packets: seq<seq<byte>>, data: seq<byte>, c: nat)
    requires Exclusive(data) && c <= |data| && forall k | 0 <= k < |packets| :: |packets[k]| >= 2
    requires Payload(packets) == data[..c] && (packets != [] ==> |packets[0]| >= 3)
    ensures packets != [] ==> c > 0 && DataFrom(packets[0], 3) && packets[0][2] == SYSEX
    ensures Rest(packets)
    decreases |packets|
  {
    if packets != [] {
      var n := |packets| - 1;
      var p, k := packets[n], if n == 0 then 2 else 1;
      var d := c - (|p| - k);
      assert |Payload(packets)| == |Payload(packets[..n])| + |p| - k;
      assert Payload(packets[..n]) == data[..c][..d] == data[..d];
      assert p[k..] == data[..c][d..];
      forall i | k <= i < |p| ensures p[i] == data[d + i - k] {
        assert p[i] == p[k..][i - k];
      }
      FragmentsHold(packets[..n], data, d);
      assert forall j | 0 <= j < n :: packets[..n][j] == packets[j];
    }
  }

  predicate Rest(packets: seq<seq<byte>>) {
    forall k | 1 <= k < |packets| :: DataFrom(packets[k], 1)
  }

  /** However long it is, a system exclusive message is never decoded from the packets it was encoded into. */
  lemma ExclusiveLost(s: State, packets: seq<seq<byte>>, data: seq<byte>, mtu: nat, clock: nat -> nat)
    requires Sound(s) && s.currentLen == 0 && Exclusive(data) && 5 <= mtu <= PACKET_BUFFER
    requires packets != [] && Fragments(packets, mtu, clock) && Full(packets[..|packets| - 1], mtu)
      && Payload(packets) == data
    ensures var (out, t) := DecodePackets(s, packets); out == [] && Gathers(t)
  {
    assert |data| >= 2;
    hide Exclusive, Decode, DataFrom, Sound, Payload;
    assert data[..|data|] == data;
    FirstIsLong(packets, data, mtu);
    FragmentsHold(packets, data, |data|);
    var p := packets[0];
    assert Fragment(p, 0, clock);
    FirstFragment(s, p);
    FragmentsLost(Decode(s, p).0, packets[1..]);
  }

  lemma FirstIsLong(packets: seq<seq<byte>>, data: seq<byte>, mtu: nat)
    requires packets != [] && forall k | 0 <= k < |packets| :: |packets[k]| >= 2
    requires Full(packets[..|packets| - 1], mtu) && mtu >= 5 && Payload(packets) == data && |data| >= 2
    ensures |packets[0]| >= 3
  {
    if |packets| > 1 {
      assert packets[..|packets| - 1][0] == packets[0];
    } else {
      assert packets[..0] == [];
    }
  }

  /** struct ble_midi_dec; toSys and len are the pointer to the decoded message and its length. */
  class Decoder {
    const bufferMidi: array<byte>
    const bufferSys: array<byte>
    var bufferSysLen: nat
    var tsHighLow: nat
    var tsHigh: byte
    var tsLow: nat
    var status: byte
    var statusSys: bool
    var statusRestore: bool
    var currentLen: nat
    var toSys: bool
    var len: nat

    ghost predicate Valid()
      reads this
    {
      && bufferMidi.Length == MIDI_BUFFER && bufferSys.Length == SYS_BUFFER && bufferMidi != bufferSys
      && bufferSysLen <= SYS_BUFFER && len <= Cap(toSys) && status / 0x10 != 0xF
    }

    ghost function State(): State
      reads this, bufferSys
      requires Valid()
    {
      BleMidi.State.State(bufferSys[..bufferSysLen], tsHighLow, tsHigh, tsLow, status, statusSys, statusRestore,
        currentLen)
    }

    /** The decoded message. */
    function Decoded(): seq<byte>
      reads this, bufferMidi, bufferSys
      requires Valid()
    {
      if toSys then bufferSys[..len] else bufferMidi[..len]
    }

    /** The local variables of the decoder; what it adds to the system buffer comes after what that holds. */
    ghost predicate Working(inSys: bool, n: nat)
      reads this
    {
      Valid() && n <= Cap(inSys) && (inSys ==> bufferSysLen <= n)
    }

    ghost function WorkOf(inSys: bool, n: nat, status: byte, cur: nat): Work
      reads this, bufferMidi, bufferSys
      requires Working(inSys, n)
    {
      Work(if inSys then bufferSys[..n] else bufferMidi[..n], inSys, status, cur)
    }

    /** ble_midi_decode_init */
    constructor ()
      ensures Valid() && State() == BleMidi.State.State([], 0, 0, 0, 0, false, false, 0)
      ensures fresh(bufferMidi) && fresh(bufferSys)
    {
      bufferMidi := new byte[MIDI_BUFFER](_ => 0);
      bufferSys := new byte[SYS_BUFFER](_ => 0);
      bufferSysLen, tsHighLow, tsHigh, tsLow, status, currentLen, len := 0, 0, 0, 0, 0, 0, 0;
      statusSys, statusRestore, toSys := false, false, false;
    }

    method Store(inSys: bool, n: nat, b: byte, ghost status: byte, ghost cur: nat)
      requires Working(inSys, n) && n < Cap(inSys)
      modifies bufferMidi, bufferSys
      ensures State() == old(State())
      ensures WorkOf(inSys, n + 1, status, cur) == Append(old(WorkOf(inSys, n, status, cur)), b)
    {
      if inSys {
        bufferSys[n] := b;
      } else {
        bufferMidi[n] := b;
      }
    }

    method SetClock(b: byte, first: bool)
      requires Valid()
      modifies this`tsHigh, this`tsLow, this`tsHighLow
      ensures Valid() && State() == Clocked(old(State()), b, first)
    {
      var low := b % 0x80;
      if !first && low < tsLow {
        tsHigh := (tsHigh + 1) % 256;
      }
      tsLow := low;
      tsHighLow := tsHigh * 0x80 + low;
    }

    /** From the label retry to the status byte. */
    method StampPart(data: seq<byte>, inSys0: bool, n0: nat, status0: byte, cur0: nat)
      returns (inSys: bool, n: nat, status: byte, cur: nat, g: Goto)
      requires Working(inSys0, n0) && cur0 < |data| && Fresh(WorkOf(inSys0, n0, status0, cur0))
      modifies this`tsHigh, this`tsLow, this`tsHighLow, this`statusSys, bufferMidi, bufferSys
      ensures Working(inSys, n)
      ensures (State(), WorkOf(inSys, n, status, cur), g) ==
        ReadStamp(old(State()), old(WorkOf(inSys0, n0, status0, cur0)), data)
    {
      inSys, n, status, cur := inSys0, n0, status0, cur0;
      if !Marked(data[cur]) {
        return inSys, n, status, cur, ToFill;
      }
      SetClock(data[cur], cur == 1);
      cur := cur + 1;
      if cur == |data| {
        return inSys, n, status, cur, ToFail(EINVAL);
      }
      if !Marked(data[cur]) {
        return inSys, n, status, cur, ToFill;
      }
      inSys, n, status, cur, g := StatusPart(data, inSys, n, status, cur);
    }

    /** The status byte. */
    method StatusPart(data: seq<byte>, inSys0: bool, n0: nat, ghost status0: byte, cur0: nat)
      returns (inSys: bool, n: nat, status: byte, cur: nat, g: Goto)
      requires Working(inSys0, n0) && cur0 < |data| && Marked(data[cur0])
      requires Fresh(WorkOf(inSys0, n0, status0, cur0))
      modifies this`statusSys, bufferMidi, bufferSys
      ensures Working(inSys, n)
      ensures (State(), WorkOf(inSys, n, status, cur), g) ==
        ReadStatus(old(State()), old(WorkOf(inSys0, n0, status0, cur0)), data)
    {
      inSys, n, cur := inSys0, n0, cur0;
      status := data[cur];
      if status == SYSEX {
        inSys, n, statusSys := true, bufferSysLen, true;
      } else if status == SYSEX_END {
        statusSys := false;
      }
      cur := cur + 1;
      if n < (if inSys then bufferSys.Length else bufferMidi.Length) {
        Store(inSys, n, status, status, cur);
        n := n + 1;
      }
      g := if cur == |data| then ToFinal else ToFill;
    }

    /** The loop over the data bytes. */
    method TakePart(data: seq<byte>, inSys: bool, n0: nat, ghost status: byte, cur0: nat, count: nat)
      returns (n: nat, cur: nat, left: nat)
      requires Working(inSys, n0) && cur0 <= |data|
      modifies bufferMidi, bufferSys
      ensures Working(inSys, n) && State() == old(State())
      ensures (WorkOf(inSys, n, status, cur), left) == Take(old(WorkOf(inSys, n0, status, cur0)), count, data)
    {
      hide Take;
      n, cur, left := n0, cur0, count;
      while left > 0 && cur < |data| && !Marked(data[cur])
        && n < (if inSys then bufferSys.Length else bufferMidi.Length)
        invariant Working(inSys, n) && cur <= |data| && State() == old(State())
        invariant Take(WorkOf(inSys, n, status, cur), left, data) ==
          Take(old(WorkOf(inSys, n0, status, cur0)), count, data)
        decreases left
      {
        TakeOne(WorkOf(inSys, n, status, cur), left, data);
        Store(inSys, n, data[cur], status, cur);
        n, cur, left := n + 1, cur + 1, left - 1;
      }
      TakeStops(WorkOf(inSys, n, status, cur), left, data);
    }

    /** From the fix for the running status to the label final. */
    method DataPart(data: seq<byte>, inSys: bool, n0: nat, status: byte, cur0: nat)
      returns (n: nat, cur: nat, g: Goto)
      requires Working(inSys, n0) && cur0 < |data| && (status == SYSEX ==> inSys)
      modifies this`statusRestore, this`bufferSysLen, bufferMidi, bufferSys
      ensures Working(inSys, n)
      ensures (State(), WorkOf(inSys, n, status, cur), g) ==
        ReadData(old(State()), old(WorkOf(inSys, n0, status, cur0)), data)
    {
      hide Take, Append, MessageLen;
      n, cur := n0, cur0;
      if n == 0 && statusRestore {
        Store(inSys, n, status, status, cur);
        n, statusRestore := n + 1, false;
      }
      var count := MessageLen(status);
      if count == 0 {
        return n, cur, ToFail(ENOMSG);
      }
      var left;
      n, cur, left := TakePart(data, inSys, n, status, cur, count - 1);
      if cur == |data| {
        return n, cur, ToFinal;
      }
      if left != 0 && status != SYSEX {
        return n, cur, ToFail(EBADMSG);
      }
      if n == (if inSys then bufferSys.Length else bufferMidi.Length) {
        return n, cur, ToFinal;
      }
      if status == SYSEX {
        bufferSysLen := n;
        return n, cur, ToRetry;
      }
      g := ToFinal;
    }

    /** From the label final to the end. */
    method FinalPart(inSys: bool, n: nat, st: byte, cur: nat, ghost data: seq<byte>) returns (r: int)
      requires Working(inSys, n) && (st == SYSEX ==> inSys)
      modifies this`toSys, this`len, this`status, this`statusRestore, this`currentLen, this`bufferSysLen
      ensures Valid() && (r == 0 || r == 1)
      ensures (State(), ResultOf(r)) == Final(old(State()), old(WorkOf(inSys, n, st, cur)), data)
    {
      toSys, len := inSys, n;
      if st / 0x10 != 0xF {
        status := st;
      }
      if 0xF0 <= st < 0xF8 {
        statusRestore := true;
      }
      currentLen := cur;
      if st == SYSEX {
        bufferSysLen := n;
        currentLen := 0;
        return 0;
      } else if st == SYSEX_END {
        bufferSysLen := 0;
      }
      r := 1;
    }

    /** What a return value of 0 or 1 means. */
    ghost function ResultOf(r: int): Result
      reads this, bufferMidi, bufferSys
      requires Valid()
    {
      if r == 1 then Message(Decoded()) else Done
    }

    /** What a return value and errno mean. */
    ghost predicate Returns(r: int, e: Error, x: Result)
      reads this, bufferMidi, bufferSys
      requires Valid()
    {
      match x
      case Message(m) => r == 1 && Decoded() == m
      case Done => r == 0
      case Failed(error) => r == -1 && e == error
    }

    /** The loop that goes back to the label retry. */
    method ParsePart(data: seq<byte>, inSys0: bool, n0: nat, st0: byte, cur0: nat) returns (r: int, e: Error)
      requires Working(inSys0, n0) && cur0 < |data| && Fresh(WorkOf(inSys0, n0, st0, cur0)) && currentLen <= |data|
      modifies this`tsHigh, this`tsLow, this`tsHighLow, this`statusSys, this`statusRestore, this`bufferSysLen,
        this`status
      modifies this`currentLen, this`toSys, this`len, bufferMidi, bufferSys
      ensures Valid()
      ensures var (s, x) := Parse(old(State()), old(WorkOf(inSys0, n0, st0, cur0)), data);
        State() == s && Returns(r, e, x)
    {
      hide Take, Append, MessageLen, Clocked, Final, ReadStamp, ReadData;
      e := EINVAL;
      var inSys, n: nat, st, cur: nat := inSys0, n0, st0, cur0;
      ghost var whole := Parse(State(), WorkOf(inSys, n, st, cur), data);
      var g := ToRetry;
      while g.ToRetry?
        invariant Working(inSys, n) && (g.ToRetry? || g.ToFinal? || g.ToFail?) && (st == SYSEX ==> inSys)
        invariant g.ToRetry? ==> cur < |data| && Fresh(WorkOf(inSys, n, st, cur))
        invariant g.ToRetry? ==> Parse(State(), WorkOf(inSys, n, st, cur), data) == whole
        invariant g.ToFinal? ==> Final(State(), WorkOf(inSys, n, st, cur), data) == whole
        invariant g.ToFail? ==> (State().(currentLen := 0), Failed(g.error)) == whole
        decreases g.ToRetry?, |data| - cur
      {
        inSys, n, st, cur, g := StampPart(data, inSys, n, st, cur);
        if g.ToFill? {
          n, cur, g := DataPart(data, inSys, n, st, cur);
        }
      }
      if g.ToFail? {
        currentLen := 0;
        return -1, g.error;
      }
      r := FinalPart(inSys, n, st, cur, data);
    }

    /** ble_midi_decode: r is what it returns, e the value of errno when that is -1. */
    method Decode(data: seq<byte>) returns (r: int, e: Error)
      requires Valid() && currentLen <= |data|
      modifies this`tsHigh, this`tsLow, this`tsHighLow, this`statusSys, this`statusRestore, this`bufferSysLen,
        this`status
      modifies this`currentLen, this`toSys, this`len, bufferMidi, bufferSys
      ensures Valid()
      ensures var (s, x) := BleMidi.Decode(old(State()), data);
        State() == s && Returns(r, e, x)
    {
      hide Take, Append, MessageLen, Clocked, Final, ReadStamp, ReadData;
      e := EINVAL;
      if currentLen == |data| {
        currentLen := 0;
        return 0, e;
      }
      var inSys, n: nat, st, cur: nat := false, 0, status, currentLen;
      if statusSys {
        inSys, n, st := true, bufferSysLen, SYSEX;
      }
      if cur == 0 {
        if |data| < 3 || data[0] / 0x40 != 2 {
          currentLen := 0;
          return -1, EINVAL;
        }
        tsHigh, tsLow := data[0] % 0x40, 0;
        cur := 1;
      }
      r, e := ParsePart(data, inSys, n, st, cur);
    }
  }

  /** A packet is decoded to its end: the calls return what the function says. */
  method DecodeMany(dec: Decoder, data: seq<byte>) returns (out: seq<Event>)
    requires dec.Valid() && dec.currentLen <= |data|
    modifies dec, dec.bufferMidi, dec.bufferSys
    ensures dec.Valid()
    ensures var run := DecodeAll(old(dec.State()), data); out == run.out && dec.State() == run.state
  {
    hide BleMidi.Decode, DecodeAll;
    out := [];
    var r, e := 1, EINVAL;
    ghost var whole := DecodeAll(dec.State(), data);
    while r == 1
      invariant dec.Valid() && dec.currentLen <= |data|
      invariant if r == 1 then
        DecodeAll(dec.State(), data).(out := out + DecodeAll(dec.State(), data).out) == whole
        else out == whole.out && dec.State() == whole.state
      decreases r, |data| - dec.currentLen
    {
      ghost var s := dec.State();
      DecodeAllSplit(s, data, out);
      r, e := dec.Decode(data);
      if r == 1 {
        out := out + [Event(dec.tsHighLow, dec.Decoded())];
      }
    }
  }

  lemma DecodeAllSplit(s: State, data: seq<byte>, out: seq<Event>)
    requires s.currentLen <= |data| && Sound(s)
    ensures var (t, x), run := BleMidi.Decode(s, data), DecodeAll(s, data);
      if x.Message? then
        var rest := DecodeAll(t, data);
        run.(out := out + run.out) == rest.(out := out + [Event(t.tsHighLow, x.bytes)] + rest.out)
      else run.out == [] && run.state == t
    ensures BleMidi.Decode(s, data).1.Message? || out + DecodeAll(s, data).out == out
  {
    hide BleMidi.Decode;
    var (t, x) := BleMidi.Decode(s, data);
    if x.Message? {
      var e, rest := [Event(t.tsHighLow, x.bytes)], DecodeAll(t, data).out;
      assert out + (e + rest) == out + e + rest;
    }
  }
}
