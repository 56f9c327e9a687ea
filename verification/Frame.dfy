/** The authenticated datagram format: `timestamp(8) ++ nonce(8) ++ payload ++ tag(32)`. */
module Frame {
  import opened Bytes

  const HEADER_SIZE := 16
  const HMAC_SIZE := 32
  const MIN_MESSAGE_SIZE := HEADER_SIZE + HMAC_SIZE

  type Header = s: seq<byte> | |s| == HEADER_SIZE witness seq(HEADER_SIZE, _ => 0)
  type Nonce = s: seq<byte> | |s| == 8 witness seq(8, _ => 0)
  type Tag = s: seq<byte> | |s| == HMAC_SIZE witness seq(HMAC_SIZE, _ => 0)

  /** The keyed HMAC of one pre-shared key: some deterministic function to 32 bytes. */
  type Mac = seq<byte> -> Tag

  datatype Message = Message(time: U64, nonce: Nonce, payload: seq<byte>)

  function HeaderOf(m: Message): (h: Header)
  {
    ToBigEndian(m.time, 8) + m.nonce
  }

  function Marshal(sign: Mac, m: Message): (frame: seq<byte>)
    ensures |frame| == MIN_MESSAGE_SIZE + |m.payload|
  {
    var signed := HeaderOf(m) + m.payload;
    signed + sign(signed)
  }

  // The slices the receiver takes of a datagram.

  function HeaderSlice(frame: seq<byte>): (h: Header)
    requires |frame| >= MIN_MESSAGE_SIZE
  {
    frame[..HEADER_SIZE]
  }

  function PayloadSlice(frame: seq<byte>): (p: seq<byte>)
    requires |frame| >= MIN_MESSAGE_SIZE
  {
    frame[HEADER_SIZE..|frame| - HMAC_SIZE]
  }

  function TagSlice(frame: seq<byte>): (t: Tag)
    requires |frame| >= MIN_MESSAGE_SIZE
  {
    frame[|frame| - HMAC_SIZE..]
  }

  function Timestamp(h: Header): (ts: U64)
  {
    FromBigEndianBound(h[..8]);
    Pow256Is64Bit();
    FromBigEndian(h[..8])
  }

  function NonceOf(h: Header): (n: Nonce)
  {
    h[8..]
  }

  /** Long enough, and the tag is the MAC of everything before it. */
  predicate Authentic(sign: Mac, frame: seq<byte>)
  {
    |frame| >= MIN_MESSAGE_SIZE &&
    sign(HeaderSlice(frame) + PayloadSlice(frame)) == TagSlice(frame)
  }

  /** The message a datagram of sufficient length carries. */
  function Unmarshal(frame: seq<byte>): (m: Message)
    requires |frame| >= MIN_MESSAGE_SIZE
  {
    var h := HeaderSlice(frame);
    Message(Timestamp(h), NonceOf(h), PayloadSlice(frame))
  }

  lemma HeaderRoundTrip(m: Message)
    ensures Timestamp(HeaderOf(m)) == m.time && NonceOf(HeaderOf(m)) == m.nonce
  {
    Pow256Is64Bit();
    DecodeEncodeBigEndian(m.time, 8);
    assert HeaderOf(m)[..8] == ToBigEndian(m.time, 8);
    assert HeaderOf(m)[8..] == m.nonce;
  }

  /** Slicing a marshalled frame returns the three values it was made of, and it authenticates. */
  lemma UnmarshalMarshal(sign: Mac, m: Message)
    ensures Unmarshal(Marshal(sign, m)) == m
    ensures Authentic(sign, Marshal(sign, m))
  {
    var frame := Marshal(sign, m);
    var signed := HeaderOf(m) + m.payload;
    assert HeaderSlice(frame) == HeaderOf(m);
    assert PayloadSlice(frame) == m.payload;
    assert TagSlice(frame) == sign(signed);
    HeaderRoundTrip(m);
  }

  /** The layout byte by byte: timestamp, most significant byte first, nonce, payload, and the
  32-byte MAC of everything before it. */
  lemma MarshalLayout(sign: Mac, m: Message)
    ensures var f := Marshal(sign, m);
            |f| == 48 + |m.payload| &&
            (forall k :: 0 <= k < 8 ==> f[k] == m.time / Pow256(7 - k) % 256) &&
            f[8..16] == m.nonce && f[16..|f| - 32] == m.payload &&
            f[|f| - 32..] == sign(f[..|f| - 32])
  {
    var f, signed := Marshal(sign, m), HeaderOf(m) + m.payload;
    assert f[..|f| - 32] == signed;
    assert f[|f| - 32..] == sign(signed);
    forall k | 0 <= k < 8
      ensures f[k] == m.time / Pow256(7 - k) % 256
    {
      BigEndianAt(m.time, 8, k);
      assert f[k] == ToBigEndian(m.time, 8)[k];
    }
  }

  /** The test the receiver applies, on any byte string: at least 48 bytes, the last 32 of them
  the MAC of the others. */
  lemma AuthenticMeans(sign: Mac, f: seq<byte>)
    ensures Authentic(sign, f) <==> |f| >= 48 && f[|f| - 32..] == sign(f[..|f| - 32])
  {
    if |f| >= 48 {
      assert HeaderSlice(f) + PayloadSlice(f) == f[..|f| - 32];
    }
  }

  lemma HeaderOfUnmarshal(frame: seq<byte>)
    requires |frame| >= MIN_MESSAGE_SIZE
    ensures HeaderOf(Unmarshal(frame)) == HeaderSlice(frame)
  {
    var h := HeaderSlice(frame);
    EncodeDecodeBigEndian(h[..8]);
    assert h == h[..8] + h[8..];
  }

  /** The MAC-accepted byte strings are exactly the marshalled ones. */
  lemma AuthenticIffMarshalled(sign: Mac, frame: seq<byte>)
    ensures Authentic(sign, frame) <==> exists m :: frame == Marshal(sign, m)
  {
    if Authentic(sign, frame) {
      HeaderOfUnmarshal(frame);
      assert frame == HeaderSlice(frame) + PayloadSlice(frame) + TagSlice(frame);
      assert frame == Marshal(sign, Unmarshal(frame));
    }
    forall m | frame == Marshal(sign, m)
      ensures Authentic(sign, frame)
    {
      UnmarshalMarshal(sign, m);
    }
  }

  /** Comparing nonces as hexadecimal strings is comparing their bytes. */
  lemma NonceStringsDecideBytes(a: Header, b: Header)
    ensures Hex(NonceOf(a)) == Hex(NonceOf(b)) <==> NonceOf(a) == NonceOf(b)
  {
    if Hex(NonceOf(a)) == Hex(NonceOf(b)) {
      HexInjective(NonceOf(a), NonceOf(b));
    }
  }
}
