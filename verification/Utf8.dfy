/**
  * The UTF-8 coder of st.c: utf8decode, utf8encode, utf8validate and their helpers.
  */
module Utf8 {

  type Byte = bv8
  type Rune = bv32

  const UTF_INVALID: Rune := 0xFFFD
  const UTF_SIZ := 4

  const UTF_BYTE: seq<Byte> := [0x80, 0, 0xC0, 0xE0, 0xF0]
  const UTF_MASK: seq<Byte> := [0xC0, 0x80, 0xE0, 0xF0, 0xF8]
  const UTF_MIN: seq<Rune> := [0, 0, 0x80, 0x800, 0x10000]
  const UTF_MAX: seq<Rune> := [0x10FFFF, 0x7F, 0x7FF, 0xFFFF, 0x10FFFF]

  // ---------------------------------------------------------------------------------------------
  // One byte: its kind (0 continuation, 1 .. 4 first byte of a sequence of that length, 5 neither)
  // and the bits it carries.

  function Kind(c: Byte): (k: nat)
    ensures k <= 5
  {
    if c & 0xC0 == 0x80 then 0
    else if c & 0x80 == 0 then 1
    else if c & 0xE0 == 0xC0 then 2
    else if c & 0xF0 == 0xE0 then 3
    else if c & 0xF8 == 0xF0 then 4
    else 5
  }

  function Payload(c: Byte): Rune {
    var k := Kind(c);
    if k == 5 then 0 else (c & !UTF_MASK[k]) as Rune
  }

  /** utf8decodebyte */
  method Utf8DecodeByte(c: Byte) returns (r: Rune, i: nat)
    ensures i == Kind(c) && r == Payload(c)
  {
    i := 0;
    while i < |UTF_MASK|
      invariant 0 <= i <= 5
      invariant forall k | 0 <= k < i :: c & UTF_MASK[k] != UTF_BYTE[k]
    {
      if c & UTF_MASK[i] == UTF_BYTE[i] {
        return (c & !UTF_MASK[i]) as Rune, i;
      }
      i := i + 1;
    }
    r := 0;
    assert UTF_MASK[0] == 0xC0 && UTF_MASK[1] == 0x80 && UTF_MASK[2] == 0xE0 && UTF_MASK[3] == 0xF0
      && UTF_MASK[4] == 0xF8;
  }

  // ---------------------------------------------------------------------------------------------
  // utf8validate

  predicate IsScalar(u: Rune) {
    u <= 0x10FFFF && !(0xD800 <= u <= 0xDFFF)
  }

  function Length(u: Rune): (n: nat)
    ensures 1 <= n <= 4
  {
    if u <= 0x7F then 1 else if u <= 0x7FF then 2 else if u <= 0xFFFF then 3 else 4
  }

  /** u may be written with i bytes (with any number of bytes, if i is 0). */
  predicate Fits(u: Rune, i: nat)
    requires i <= 4
  {
    UTF_MIN[i] <= u <= UTF_MAX[i] && !(0xD800 <= u <= 0xDFFF)
  }

  function Validated(u: Rune, i: nat): Rune
    requires i <= 4
  {
    if Fits(u, i) then u else UTF_INVALID
  }

  method Utf8Validate(u: Rune, i: nat) returns (v: Rune, n: nat)
    requires i <= 4
    ensures v == Validated(u, i) && n == Length(v)
  {
    v := u;
    if !(UTF_MIN[i] <= u <= UTF_MAX[i]) || 0xD800 <= u <= 0xDFFF {
      v := UTF_INVALID;
    }
    n := 1;
    while v > UTF_MAX[n]
      invariant 1 <= n <= 4 && v <= 0x10FFFF
      invariant forall k | 1 <= k < n :: v > UTF_MAX[k]
      decreases 4 - n
    {
      n := n + 1;
    }
    assert n > 1 ==> v > UTF_MAX[1];
    assert n > 2 ==> v > UTF_MAX[2];
    assert n > 3 ==> v > UTF_MAX[3];
    assert UTF_MAX[n] >= v;
  }

  // ---------------------------------------------------------------------------------------------
  // utf8encode

  /** utf8encodebyte, cut to a char */
  function EncodeByte(u: Rune, i: nat): Byte
    requires i <= 4
  {
    UTF_BYTE[i] | ((u & 0xFF) as Byte & !UTF_MASK[i])
  }

  /** u >>= 6 */
  function Shr6(u: Rune): Rune {
    u >> 6
  }

  function Shifted(u: Rune, m: nat): Rune {
    if m == 0 then u else Shr6(Shifted(u, m - 1))
  }

  lemma ShiftedIs(u: Rune)
    ensures Shifted(u, 1) == Shr6(u)
    ensures Shifted(u, 2) == Shr6(Shr6(u))
    ensures Shifted(u, 3) == Shr6(Shr6(Shr6(u)))
  {
    hide Shr6;
    assert Shifted(u, 1) == Shr6(Shifted(u, 0));
    assert Shifted(u, 2) == Shr6(Shifted(u, 1));
    assert Shifted(u, 3) == Shr6(Shifted(u, 2));
  }

  function Encode(u: Rune): (s: seq<Byte>)
    ensures |s| == Length(Validated(u, 0))
  {
    var v := Validated(u, 0);
    var n := Length(v);
    if n == 1 then [EncodeByte(v, 1)]
    else if n == 2 then [EncodeByte(Shifted(v, 1), 2), EncodeByte(v, 0)]
    else if n == 3 then [EncodeByte(Shifted(v, 2), 3), EncodeByte(Shifted(v, 1), 0), EncodeByte(v, 0)]
    else [EncodeByte(Shifted(v, 3), 4), EncodeByte(Shifted(v, 2), 0), EncodeByte(Shifted(v, 1), 0), EncodeByte(v, 0)]
  }

  method Utf8Encode(u0: Rune, c: array<Byte>) returns (len: nat)
    requires c.Length >= UTF_SIZ
    modifies c
    ensures len == |Encode(u0)| && c[..len] == Encode(u0)
  {
    hide EncodeByte, Validated, Length, Shr6;
    var u;
    u, len := Utf8Validate(u0, 0);
    ghost var v := u;
    var i := len - 1;
    while i != 0
      invariant 0 <= i < len
      invariant u == Shifted(v, len - 1 - i)
      invariant forall k | i < k < len :: c[k] == EncodeByte(Shifted(v, len - 1 - k), 0)
    {
      c[i] := EncodeByte(u, 0);
      u := Shr6(u);
      i := i - 1;
    }
    c[0] := EncodeByte(u, len);
  }

  // ---------------------------------------------------------------------------------------------
  // utf8decode

  /** Bytes used (0: more are needed) and the rune they stand for. */
  datatype Decoded = Decoded(size: nat, rune: Rune)

  function Join(u: Rune, b: Rune): Rune {
    (u << 6) | b
  }

  /** The loop of utf8decode from byte j on. */
  function Collect(c: seq<Byte>, j: nat, len: nat, u: Rune): (d: Decoded)
    requires 1 <= j <= len <= 4 && j <= |c|
    ensures d.size <= |c| && d.size <= len && (d.size == 0 || d.size >= j)
    ensures d.size == 0 ==> |c| < len
    decreases len - j
  {
    if j == len then Decoded(len, Validated(u, len))
    else if j == |c| then Decoded(0, UTF_INVALID)
    else if Kind(c[j]) != 0 then Decoded(j, UTF_INVALID)
    else Collect(c, j + 1, len, Join(u, Payload(c[j])))
  }

  function Decode(c: seq<Byte>): (d: Decoded)
    ensures d.size <= |c|
    ensures d.size == 0 ==> |c| <= 3
    ensures d.size <= 4
  {
    if c == [] then Decoded(0, UTF_INVALID)
    else
      var len := Kind(c[0]);
      if !(1 <= len <= 4) then Decoded(1, UTF_INVALID)
      else Collect(c, 1, len, Payload(c[0]))
  }

  method Utf8Decode(c: seq<Byte>) returns (u: Rune, size: nat)
    ensures Decoded(size, u) == Decode(c)
  {
    hide Kind, Payload, Validated;
    u := UTF_INVALID;
    if |c| == 0 {
      return u, 0;
    }
    var udecoded, len := Utf8DecodeByte(c[0]);
    if !(1 <= len <= UTF_SIZ) {
      return u, 1;
    }
    var i, j := 1, 1;
    while i < |c| && j < len
      invariant 1 <= i == j <= len && j <= |c|
      invariant Decode(c) == Collect(c, j, len, udecoded)
    {
      var b, kind := Utf8DecodeByte(c[i]);
      udecoded := (udecoded << 6) | b;
      if kind != 0 {
        return u, j;
      }
      i, j := i + 1, j + 1;
    }
    if j < len {
      return u, 0;
    }
    u, i := Utf8Validate(udecoded, len);
    size := len;
  }

  // ---------------------------------------------------------------------------------------------
  // Decoding inverts encoding.

  lemma {:induction false} CollectPrefix(c: seq<Byte>, d: seq<Byte>, j: nat, len: nat, u: Rune)
    requires 1 <= j <= len <= 4 && j <= |c|
    requires Collect(c, j, len, u).size > 0
    ensures Collect(c + d, j, len, u) == Collect(c, j, len, u)
    decreases len - j
  {
    hide Kind, Payload, Validated, Join;
    if j < len && Kind(c[j]) == 0 {
      CollectPrefix(c, d, j + 1, len, Join(u, Payload(c[j])));
    }
  }

  /** A decoded character does not depend on the bytes behind it, so it can be read as soon as it is complete. */
  lemma DecodePrefix(c: seq<Byte>, d: seq<Byte>)
    requires Decode(c).size > 0
    ensures Decode(c + d) == Decode(c)
  {
    var len := Kind(c[0]);
    if 1 <= len <= 4 {
      CollectPrefix(c, d, 1, len, Payload(c[0]));
    }
  }

  // The table look-ups, bit by bit.

  lemma PayloadBits(c: Byte)
    ensures Kind(c) == 0 ==> Payload(c) == (c & 0x3F) as Rune
    ensures Kind(c) == 1 ==> Payload(c) == (c & 0x7F) as Rune
    ensures Kind(c) == 2 ==> Payload(c) == (c & 0x1F) as Rune
    ensures Kind(c) == 3 ==> Payload(c) == (c & 0x0F) as Rune
    ensures Kind(c) == 4 ==> Payload(c) == (c & 0x07) as Rune
  {
    hide Kind;
    assert UTF_MASK[0] == 0xC0 && UTF_MASK[1] == 0x80 && UTF_MASK[2] == 0xE0 && UTF_MASK[3] == 0xF0
      && UTF_MASK[4] == 0xF8;
  }

  lemma EncodeBits(u: Rune)
    ensures EncodeByte(u, 0) == 0x80 | ((u & 0xFF) as Byte & 0x3F)
    ensures EncodeByte(u, 1) == (u & 0xFF) as Byte & 0x7F
    ensures EncodeByte(u, 2) == 0xC0 | ((u & 0xFF) as Byte & 0x1F)
    ensures EncodeByte(u, 3) == 0xE0 | ((u & 0xFF) as Byte & 0x0F)
    ensures EncodeByte(u, 4) == 0xF0 | ((u & 0xFF) as Byte & 0x07)
  {
  }

  /** One continuation byte in front of nothing, one, two or three more. */
  lemma ContinuationBits(u: Rune)
    ensures var c := 0x80 | ((u & 0xFF) as Byte & 0x3F);
            c & 0xC0 == 0x80 && (c & 0x3F) as Rune == u & 0x3F
  {
  }

  lemma Continuation(u: Rune)
    ensures Kind(EncodeByte(u, 0)) == 0 && Payload(EncodeByte(u, 0)) == u & 0x3F
  {
    hide EncodeByte, Payload;
    EncodeBits(u);
    ContinuationBits(u);
    PayloadBits(EncodeByte(u, 0));
  }

  lemma LeadBits(u: Rune)
    ensures u <= 0x7F ==> var c := (u & 0xFF) as Byte & 0x7F;
      c & 0xC0 != 0x80 && c & 0x80 == 0 && (c & 0x7F) as Rune == u
    ensures u <= 0x1F ==> var c := 0xC0 | ((u & 0xFF) as Byte & 0x1F);
      c & 0xC0 != 0x80 && c & 0x80 != 0 && c & 0xE0 == 0xC0 && (c & 0x1F) as Rune == u
    ensures u <= 0x0F ==> var c := 0xE0 | ((u & 0xFF) as Byte & 0x0F);
      c & 0xC0 != 0x80 && c & 0x80 != 0 && c & 0xE0 != 0xC0 && c & 0xF0 == 0xE0 && (c & 0x0F) as Rune == u
    ensures u <= 0x07 ==> var c := 0xF0 | ((u & 0xFF) as Byte & 0x07);
      c & 0xC0 != 0x80 && c & 0x80 != 0 && c & 0xE0 != 0xC0 && c & 0xF0 != 0xE0 && c & 0xF8 == 0xF0
      && (c & 0x07) as Rune == u
  {
  }

  lemma Lead(u: Rune)
    ensures u <= 0x7F ==> Kind(EncodeByte(u, 1)) == 1 && Payload(EncodeByte(u, 1)) == u
    ensures u <= 0x1F ==> Kind(EncodeByte(u, 2)) == 2 && Payload(EncodeByte(u, 2)) == u
    ensures u <= 0x0F ==> Kind(EncodeByte(u, 3)) == 3 && Payload(EncodeByte(u, 3)) == u
    ensures u <= 0x07 ==> Kind(EncodeByte(u, 4)) == 4 && Payload(EncodeByte(u, 4)) == u
  {
    hide EncodeByte, Payload;
    EncodeBits(u);
    LeadBits(u);
    PayloadBits(EncodeByte(u, 1));
    PayloadBits(EncodeByte(u, 2));
    PayloadBits(EncodeByte(u, 3));
    PayloadBits(EncodeByte(u, 4));
  }

  /** Splitting off the last six bits and joining them again. */
  lemma JoinShr6(u: Rune)
    ensures Join(Shr6(u), u & 0x3F) == u
  {
  }

  lemma Shr6Bounds(u: Rune)
    ensures u <= 0x7FF ==> Shr6(u) <= 0x1F
    ensures u <= 0xFFFF ==> Shr6(u) <= 0x3FF
    ensures u <= 0x3FF ==> Shr6(u) <= 0x0F
    ensures u <= 0x10FFFF ==> Shr6(u) <= 0x43FF
    ensures u <= 0x43FF ==> Shr6(u) <= 0x10F
    ensures u <= 0x10F ==> Shr6(u) <= 0x07
  {
  }

  lemma Collect2(c: seq<Byte>, u: Rune)
    requires |c| >= 2 && Kind(c[1]) == 0
    ensures Collect(c, 1, 2, u) == Decoded(2, Validated(Join(u, Payload(c[1])), 2))
  {
    hide Kind, Payload, Validated, Join;
    assert Collect(c, 1, 2, u) == Collect(c, 2, 2, Join(u, Payload(c[1])));
  }

  lemma Collect3(c: seq<Byte>, u: Rune)
    requires |c| >= 3 && Kind(c[1]) == 0 && Kind(c[2]) == 0
    ensures Collect(c, 1, 3, u) == Decoded(3, Validated(Join(Join(u, Payload(c[1])), Payload(c[2])), 3))
  {
    hide Kind, Payload, Validated, Join;
    var v := Join(u, Payload(c[1]));
    assert Collect(c, 1, 3, u) == Collect(c, 2, 3, v);
    assert Collect(c, 2, 3, v) == Collect(c, 3, 3, Join(v, Payload(c[2])));
  }

  lemma Collect4(c: seq<Byte>, u: Rune)
    requires |c| >= 4 && Kind(c[1]) == 0 && Kind(c[2]) == 0 && Kind(c[3]) == 0
    ensures Collect(c, 1, 4, u) ==
      Decoded(4, Validated(Join(Join(Join(u, Payload(c[1])), Payload(c[2])), Payload(c[3])), 4))
  {
    hide Kind, Payload, Validated, Join;
    var v := Join(u, Payload(c[1]));
    var w := Join(v, Payload(c[2]));
    assert Collect(c, 1, 4, u) == Collect(c, 2, 4, v);
    assert Collect(c, 2, 4, v) == Collect(c, 3, 4, w);
    assert Collect(c, 3, 4, w) == Collect(c, 4, 4, Join(w, Payload(c[3])));
  }

  lemma LengthOf(v: Rune)
    requires IsScalar(v)
    ensures Validated(v, 0) == v && Validated(v, Length(v)) == v
    ensures v <= 0x10FFFF
    ensures Length(v) == 1 ==> v <= 0x7F
    ensures Length(v) == 2 ==> v <= 0x7FF
    ensures Length(v) == 3 ==> v <= 0xFFFF
  {
  }

  lemma ScalarRoundTrip(v: Rune)
    requires IsScalar(v)
    ensures Decode(Encode(v)) == Decoded(|Encode(v)|, v)
  {
    hide Kind, Payload, EncodeByte, Join, Shr6, Validated, Length, IsScalar;
    var s := Encode(v);
    var n := Length(v);
    var v1 := Shr6(v);
    var v2 := Shr6(v1);
    var v3 := Shr6(v2);
    ShiftedIs(v);
    LengthOf(v);
    JoinShr6(v);
    JoinShr6(v1);
    JoinShr6(v2);
    Shr6Bounds(v);
    Shr6Bounds(v1);
    Shr6Bounds(v2);
    Continuation(v);
    Continuation(v1);
    Continuation(v2);
    if n == 1 {
      Lead(v);
      assert Collect(s, 1, 1, Payload(s[0])) == Decoded(1, v);
    } else if n == 2 {
      Lead(v1);
      Collect2(s, Payload(s[0]));
    } else if n == 3 {
      Lead(v2);
      Collect3(s, Payload(s[0]));
    } else {
      Lead(v3);
      Collect4(s, Payload(s[0]));
    }
  }

  lemma EncodeValidated(u: Rune)
    ensures Encode(u) == Encode(Validated(u, 0)) && IsScalar(Validated(u, 0))
    ensures IsScalar(u) ==> Validated(u, 0) == u
    ensures !IsScalar(u) ==> Validated(u, 0) == UTF_INVALID
  {
    hide EncodeByte, Shifted, Length;
  }

  /** For every rune and whatever bytes follow: the decoder returns it, or U+FFFD for a non-character. */
  lemma DecodeEncode(u: Rune, rest: seq<Byte>)
    ensures Decode(Encode(u) + rest) == Decoded(|Encode(u)|, if IsScalar(u) then u else UTF_INVALID)
  {
    hide Encode, Decode, IsScalar, Validated, Length;
    EncodeValidated(u);
    var v := Validated(u, 0);
    ScalarRoundTrip(v);
    DecodePrefix(Encode(v), rest);
  }

  // ---------------------------------------------------------------------------------------------
  // Encoding inverts decoding.

  lemma JoinParts(u: Rune, p: Rune)
    requires u <= 0xFFFF && p <= 0x3F
    ensures Shr6(Join(u, p)) == u && Join(u, p) & 0x3F == p
    ensures u <= 0x0F ==> Join(u, p) <= 0x3FF
    ensures u <= 0x3FF ==> Join(u, p) <= 0xFFFF
  {
  }

  lemma RecodeLeadBits(c: Byte)
    ensures ((c & 0x7F) as Rune & 0xFF) as Byte & 0x7F == c & 0x7F
    ensures ((c & 0x1F) as Rune & 0xFF) as Byte & 0x1F == c & 0x1F
    ensures ((c & 0x0F) as Rune & 0xFF) as Byte & 0x0F == c & 0x0F
    ensures ((c & 0x07) as Rune & 0xFF) as Byte & 0x07 == c & 0x07
    ensures c & 0x80 == 0 ==> c & 0x7F == c
    ensures c & 0xE0 == 0xC0 ==> 0xC0 | (c & 0x1F) == c
    ensures c & 0xF0 == 0xE0 ==> 0xE0 | (c & 0x0F) == c
    ensures c & 0xF8 == 0xF0 ==> 0xF0 | (c & 0x07) == c
    ensures (c & 0x7F) as Rune <= 0x7F && (c & 0x1F) as Rune <= 0x1F && (c & 0x0F) as Rune <= 0x0F
      && (c & 0x07) as Rune <= 0x07
  {
  }

  lemma RecodeLead(c: Byte)
    ensures Kind(c) == 1 ==> EncodeByte(Payload(c), 1) == c && Payload(c) <= 0x7F
    ensures Kind(c) == 2 ==> EncodeByte(Payload(c), 2) == c && Payload(c) <= 0x1F
    ensures Kind(c) == 3 ==> EncodeByte(Payload(c), 3) == c && Payload(c) <= 0x0F
    ensures Kind(c) == 4 ==> EncodeByte(Payload(c), 4) == c && Payload(c) <= 0x07
  {
    hide EncodeByte, Payload;
    PayloadBits(c);
    EncodeBits(Payload(c));
    RecodeLeadBits(c);
  }

  lemma RecodeContinuationBits(c: Byte, u: Rune)
    requires c & 0xC0 == 0x80 && u & 0x3F == (c & 0x3F) as Rune
    ensures 0x80 | ((u & 0xFF) as Byte & 0x3F) == c && (c & 0x3F) as Rune <= 0x3F
  {
  }

  lemma RecodeContinuation(c: Byte, u: Rune)
    requires Kind(c) == 0
    ensures Payload(c) <= 0x3F
    ensures u & 0x3F == Payload(c) ==> EncodeByte(u, 0) == c
  {
    hide EncodeByte, Payload;
    PayloadBits(c);
    EncodeBits(u);
    RecodeContinuationBits(c, Payload(c) & 0x3F);
    if u & 0x3F == Payload(c) {
      RecodeContinuationBits(c, u);
    }
  }

  lemma ValidatedFor(u: Rune, n: nat)
    requires 1 <= n <= 4 && Fits(u, n)
    ensures Validated(u, n) == u && IsScalar(u) && Length(u) == n && Validated(u, 0) == u
  {
  }

  /** Decoding collects n bytes of the right kinds or gives no character. */
  lemma {:induction false} CollectsAll(c: seq<Byte>, j: nat, len: nat, u: Rune)
    requires 1 <= j <= len <= 4 && j <= |c|
    requires Collect(c, j, len, u).size > 0 && Collect(c, j, len, u).rune != UTF_INVALID
    ensures Collect(c, j, len, u).size == len <= |c|
    ensures forall k | j <= k < len :: Kind(c[k]) == 0
    decreases len - j
  {
    hide Kind, Payload, Validated, Join;
    if j < len {
      CollectsAll(c, j + 1, len, Join(u, Payload(c[j])));
    }
  }

  lemma Written2(c: seq<Byte>)
    requires |c| >= 2 && Kind(c[0]) == 2 && Kind(c[1]) == 0
    requires Fits(Join(Payload(c[0]), Payload(c[1])), 2)
    ensures var u := Join(Payload(c[0]), Payload(c[1]));
            Decode(c) == Decoded(2, u) && IsScalar(u) && c[..2] == Encode(u)
  {
    hide Kind, Payload, Validated, Fits, Join, Shr6, EncodeByte, IsScalar, Length;
    var p := Payload(c[0]);
    var u := Join(p, Payload(c[1]));
    Collect2(c, p);
    ValidatedFor(u, 2);
    RecodeLead(c[0]);
    RecodeContinuation(c[1], u);
    JoinParts(p, Payload(c[1]));
    ShiftedIs(u);
  }

  lemma Written3(c: seq<Byte>)
    requires |c| >= 3 && Kind(c[0]) == 3 && Kind(c[1]) == 0 && Kind(c[2]) == 0
    requires Fits(Join(Join(Payload(c[0]), Payload(c[1])), Payload(c[2])), 3)
    ensures var u := Join(Join(Payload(c[0]), Payload(c[1])), Payload(c[2]));
            Decode(c) == Decoded(3, u) && IsScalar(u) && c[..3] == Encode(u)
  {
    hide Kind, Payload, Validated, Fits, Join, Shr6, EncodeByte, IsScalar, Length;
    var p := Payload(c[0]);
    var v := Join(p, Payload(c[1]));
    var u := Join(v, Payload(c[2]));
    Collect3(c, p);
    ValidatedFor(u, 3);
    RecodeLead(c[0]);
    RecodeContinuation(c[1], v);
    RecodeContinuation(c[2], u);
    JoinParts(p, Payload(c[1]));
    JoinParts(v, Payload(c[2]));
    ShiftedIs(u);
  }

  lemma Written4(c: seq<Byte>)
    requires |c| >= 4 && Kind(c[0]) == 4 && Kind(c[1]) == 0 && Kind(c[2]) == 0 && Kind(c[3]) == 0
    requires Fits(Join(Join(Join(Payload(c[0]), Payload(c[1])), Payload(c[2])), Payload(c[3])), 4)
    ensures var u := Join(Join(Join(Payload(c[0]), Payload(c[1])), Payload(c[2])), Payload(c[3]));
            Decode(c) == Decoded(4, u) && IsScalar(u) && c[..4] == Encode(u)
  {
    hide Kind, Payload, Validated, Fits, Join, Shr6, EncodeByte, IsScalar, Length;
    var p := Payload(c[0]);
    var v := Join(p, Payload(c[1]));
    var w := Join(v, Payload(c[2]));
    var u := Join(w, Payload(c[3]));
    Collect4(c, p);
    ValidatedFor(u, 4);
    RecodeLead(c[0]);
    RecodeContinuation(c[1], v);
    RecodeContinuation(c[2], w);
    RecodeContinuation(c[3], u);
    JoinParts(p, Payload(c[1]));
    JoinParts(v, Payload(c[2]));
    JoinParts(w, Payload(c[3]));
    ShiftedIs(u);
  }

  lemma Written1(c: seq<Byte>)
    requires |c| >= 1 && Kind(c[0]) == 1
    ensures Decode(c) == Decoded(1, Payload(c[0])) && IsScalar(Payload(c[0])) && c[..1] == Encode(Payload(c[0]))
  {
    hide Kind, Payload, Join, Shr6, EncodeByte;
    RecodeLead(c[0]);
    ValidatedFor(Payload(c[0]), 1);
    assert Collect(c, 1, 1, Payload(c[0])) == Decoded(1, Payload(c[0]));
  }

  /** What is decoded as a character, other than U+FFFD, is the encoding of that character. */
  lemma EncodeDecode(c: seq<Byte>)
    requires Decode(c).size > 0 && Decode(c).rune != UTF_INVALID
    ensures IsScalar(Decode(c).rune) && c[..Decode(c).size] == Encode(Decode(c).rune)
  {
    hide Kind, Payload, Fits, Join, Encode, IsScalar;
    var n, p := Kind(c[0]), Payload(c[0]);
    CollectsAll(c, 1, n, p);
    if n == 1 {
      Written1(c);
    } else if n == 2 {
      Collect2(c, p);
      Written2(c);
    } else if n == 3 {
      Collect3(c, p);
      Written3(c);
    } else {
      Collect4(c, p);
      Written4(c);
    }
  }

  // ---------------------------------------------------------------------------------------------
  // The grammar of section 4 of RFC 3629.

  predicate Tail(b: Byte) { 0x80 <= b <= 0xBF }

  predicate Utf8Char(s: seq<Byte>) {
    || (|s| == 1 && s[0] <= 0x7F)
    || (|s| == 2 && 0xC2 <= s[0] <= 0xDF && Tail(s[1]))
    || (|s| == 3 && Head3(s[0], s[1]) && Tail(s[2]))
    || (|s| == 4 && Head4(s[0], s[1]) && Tail(s[2]) && Tail(s[3]))
  }

  predicate Head3(a: Byte, b: Byte) {
    || (a == 0xE0 && 0xA0 <= b <= 0xBF)
    || (0xE1 <= a <= 0xEC && Tail(b))
    || (a == 0xED && 0x80 <= b <= 0x9F)
    || (0xEE <= a <= 0xEF && Tail(b))
  }

  predicate Head4(a: Byte, b: Byte) {
    || (a == 0xF0 && 0x90 <= b <= 0xBF)
    || (0xF1 <= a <= 0xF3 && Tail(b))
    || (a == 0xF4 && 0x80 <= b <= 0x8F)
  }

  lemma TailKind(b: Byte)
    ensures Tail(b) <==> Kind(b) == 0
    ensures b <= 0x7F <==> Kind(b) == 1
  {
  }

  lemma Grammar2(a: Byte, b: Byte)
    ensures (0xC2 <= a <= 0xDF && Tail(b)) <==> (Kind(a) == 2 && Kind(b) == 0 && Fits(Join(Payload(a), Payload(b)), 2))
  {
    hide Payload;
    PayloadBits(a);
    PayloadBits(b);
  }

  lemma Grammar3(a: Byte, b: Byte, c: Byte)
    ensures (Head3(a, b) && Tail(c))
            <==> (Kind(a) == 3 && Kind(b) == 0 && Kind(c) == 0
              && Fits(Join(Join(Payload(a), Payload(b)), Payload(c)), 3))
  {
    hide Payload;
    PayloadBits(a);
    PayloadBits(b);
    PayloadBits(c);
  }

  lemma Grammar4(a: Byte, b: Byte, c: Byte, d: Byte)
    ensures (Head4(a, b) && Tail(c) && Tail(d))
            <==> (Kind(a) == 4 && Kind(b) == 0 && Kind(c) == 0 && Kind(d) == 0
                  && Fits(Join(Join(Join(Payload(a), Payload(b)), Payload(c)), Payload(d)), 4))
  {
    hide Payload;
    PayloadBits(a);
    PayloadBits(b);
    PayloadBits(c);
    PayloadBits(d);
  }

  /** Every sequence the grammar allows is decoded as a whole, to the character it is the encoding of. */
  lemma GrammarDecodes(s: seq<Byte>)
    requires Utf8Char(s)
    ensures Decode(s).size == |s| && IsScalar(Decode(s).rune) && s == Encode(Decode(s).rune)
  {
    hide Kind, Payload, Fits, Join, Encode, IsScalar, Tail, Head3, Head4;
    assert s[..|s|] == s;
    TailKind(s[0]);
    if |s| == 1 {
      Written1(s);
    } else if |s| == 2 {
      Grammar2(s[0], s[1]);
      Written2(s);
    } else if |s| == 3 {
      Grammar3(s[0], s[1], s[2]);
      Written3(s);
    } else {
      Grammar4(s[0], s[1], s[2], s[3]);
      Written4(s);
    }
  }

  /** The bytes of every decoded character, other than U+FFFD, follow the grammar. */
  lemma DecodedFollowsGrammar(c: seq<Byte>)
    requires Decode(c).size > 0 && Decode(c).rune != UTF_INVALID
    ensures Utf8Char(c[..Decode(c).size])
  {
    hide Kind, Payload, Fits, Join, Tail, Head3, Head4;
    var n, p := Kind(c[0]), Payload(c[0]);
    CollectsAll(c, 1, n, p);
    TailKind(c[0]);
    if n == 2 {
      Collect2(c, p);
      Grammar2(c[0], c[1]);
    } else if n == 3 {
      Collect3(c, p);
      Grammar3(c[0], c[1], c[2]);
    } else if n == 4 {
      Collect4(c, p);
      Grammar4(c[0], c[1], c[2], c[3]);
    }
  }

  /** The encoder writes exactly the sequences of the grammar. */
  lemma EncoderFollowsGrammar(s: seq<Byte>)
    ensures Utf8Char(s) <==> exists u :: s == Encode(u)
  {
    if Utf8Char(s) {
      GrammarDecodes(s);
    }
    forall u | s == Encode(u) ensures Utf8Char(s) {
      EncodedFollowsGrammar(u);
    }
  }

  lemma EncodedFollowsGrammar(u: Rune)
    ensures Utf8Char(Encode(u))
  {
    hide Encode, Decode, IsScalar, Utf8Char, Validated;
    EncodeValidated(u);
    var v := Validated(u, 0);
    var s := Encode(v);
    ScalarRoundTrip(v);
    assert s[..|s|] == s;
    if v == UTF_INVALID {
      ReplacementFollowsGrammar();
    } else {
      DecodedFollowsGrammar(s);
    }
  }

  lemma ReplacementFollowsGrammar()
    ensures Encode(UTF_INVALID) == [0xEF, 0xBF, 0xBD] && Utf8Char(Encode(UTF_INVALID))
  {
    hide EncodeByte, Shr6;
    var u := UTF_INVALID;
    assert Shr6(u) == 0x3FF && Shr6(Shr6(u)) == 0x0F by { ReplacementBits(); }
    assert Shifted(u, 1) == 0x3FF && Shifted(u, 2) == 0x0F;
    EncodeBits(0x0F);
    EncodeBits(0x3FF);
    EncodeBits(u);
  }

  lemma ReplacementBits()
    ensures Shr6(UTF_INVALID) == 0x3FF && Shr6(Shr6(UTF_INVALID)) == 0x0F
  {
  }

  // ---------------------------------------------------------------------------------------------
  // How many bytes are used, for any bytes at all.

  /** How long a sequence is that begins with b; 0 if none does. */
  function Announced(b: Byte): (n: nat)
    ensures n <= 4
  {
    if b <= 0x7F then 1
    else if 0xC0 <= b <= 0xDF then 2
    else if 0xE0 <= b <= 0xEF then 3
    else if 0xF0 <= b <= 0xF7 then 4
    else 0
  }

  lemma AnnouncedKind(b: Byte)
    ensures Announced(b) == if Kind(b) == 5 then 0 else Kind(b)
  {
  }

  lemma {:induction false} CollectSize(c: seq<Byte>, j: nat, len: nat, u: Rune)
    requires 1 <= j <= len <= 4 && j <= |c|
    ensures var d := Collect(c, j, len, u);
            && (forall k | j <= k < d.size :: Kind(c[k]) == 0)
            && (d.size == 0 <==> |c| < len && forall k | j <= k < |c| :: Kind(c[k]) == 0)
            && (0 < d.size < len ==> d.size < |c| && Kind(c[d.size]) != 0 && d.rune == UTF_INVALID)
    decreases len - j
  {
    hide Kind, Payload, Validated, Join;
    if j < len && j < |c| && Kind(c[j]) == 0 {
      CollectSize(c, j + 1, len, Join(u, Payload(c[j])));
    }
  }

  /**
    * A sequence is used up to the first byte that does not belong to it, which begins the next one; bytes are
    * waited for exactly if all there are belong to it and some are missing.
    */
  lemma DecodedSize(c: seq<Byte>)
    ensures var d := Decode(c);
            && (forall k | 1 <= k < d.size :: Tail(c[k]))
            && (d.size == 0 <==> c == [] || (|c| < Announced(c[0]) && forall k | 1 <= k < |c| :: Tail(c[k])))
            && (d.size > 0 && Announced(c[0]) == 0 ==> d == Decoded(1, UTF_INVALID))
            && (d.size > 0 && Announced(c[0]) > 0 ==> d.size <= Announced(c[0]))
            && (0 < d.size && d.size < Announced(c[0]) ==> d.size < |c| && !Tail(c[d.size]) && d.rune == UTF_INVALID)
  {
    hide Kind, Payload, Collect, Tail, Announced;
    forall k | 0 <= k < |c| ensures Tail(c[k]) <==> Kind(c[k]) == 0 {
      TailKind(c[k]);
    }
    if c != [] {
      var len := Kind(c[0]);
      AnnouncedKind(c[0]);
      if 1 <= len <= 4 {
        CollectSize(c, 1, len, Payload(c[0]));
      }
    }
  }

  /** A whole sequence of the announced length is a character exactly if the grammar has it, and U+FFFD if not. */
  lemma DecodedWhole(c: seq<Byte>)
    requires c != [] && Decode(c).size == Announced(c[0]) > 0
    ensures var s := c[..Decode(c).size];
            if Utf8Char(s) then IsScalar(Decode(c).rune) && Encode(Decode(c).rune) == s
            else Decode(c).rune == UTF_INVALID
  {
    hide Announced, Decode, Utf8Char, IsScalar, Encode;
    var s := c[..Decode(c).size];
    if Utf8Char(s) {
      GrammarDecodes(s);
      DecodePrefix(s, c[|s|..]);
      assert s + c[|s|..] == c;
    } else if Decode(c).rune != UTF_INVALID {
      DecodedFollowsGrammar(c);
    }
  }
}
