/** Attribute lists, their encoding, and what the walk makes of every encoding. */
module StunCodec {
  import opened Bytes
  import opened Stun

  /** A type-length-value attribute with its padding bytes, whose contents are free. */
  datatype AttrRaw = Attr(kind: U16, value: seq<byte>, pad: seq<byte>)

  type Attr = a: AttrRaw | |a.value| < 0x1_0000 && |a.value| + |a.pad| == Padded(|a.value|)
    witness Attr(0, [], [])

  function Bytes16(n: U16): (s: seq<byte>)
    ensures |s| == 2 && Be16(s[0], s[1]) == n
  {
    [n / 256, n % 256]
  }

  function EncodeAttr(a: Attr): (s: seq<byte>)
    ensures |s| == 4 + Padded(|a.value|)
  {
    Bytes16(a.kind) + Bytes16(|a.value|) + a.value + a.pad
  }

  function Encode(attrs: seq<Attr>): (s: seq<byte>)
  {
    if attrs == [] then [] else EncodeAttr(attrs[0]) + Encode(attrs[1..])
  }

  /** What a reader of the list returns: the decode of the first usable attribute. */
  function Lookup(attrs: seq<Attr>): (r: Parsed)
    ensures r.Mapped? || r.NoMappedAddress?
  {
    if attrs == [] then NoMappedAddress
    else if Usable(attrs[0].kind, |attrs[0].value|) then DecodeValue(attrs[0].kind, attrs[0].value[..6])
    else Lookup(attrs[1..])
  }

  /** Where the attributes start, up to the first usable one. */
  function Starts(attrs: seq<Attr>, off: nat): (offs: seq<nat>)
  {
    if attrs == [] then []
    else if Usable(attrs[0].kind, |attrs[0].value|) then [off]
    else [off] + Starts(attrs[1..], off + |EncodeAttr(attrs[0])|)
  }

  lemma AttrHeaderAt(before: seq<byte>, a: Attr, after: seq<byte>)
    ensures var data, off := before + EncodeAttr(a) + after, |before|;
            off + 4 + Padded(|a.value|) <= |data| &&
            KindAt(data, off) == a.kind && LengthAt(data, off) == |a.value| &&
            data[off + 4..off + 4 + |a.value|] == a.value &&
            (|a.value| >= 6 ==> data[off + 4..off + 10] == a.value[..6])
  {
    var data, off, e := before + EncodeAttr(a) + after, |before|, EncodeAttr(a);
    assert forall i :: 0 <= i < |e| ==> data[off + i] == e[i];
    assert e[0..2] == Bytes16(a.kind) && e[2..4] == Bytes16(|a.value|);
    assert e[0] == Bytes16(a.kind)[0] && e[1] == Bytes16(a.kind)[1];
    assert e[2] == Bytes16(|a.value|)[0] && e[3] == Bytes16(|a.value|)[1];
  }

  /** Over an encoded list the walk returns what the reader of the list does. */
  lemma {:induction false} WalkInvertsEncode(before: seq<byte>, attrs: seq<Attr>, after: seq<byte>)
    ensures var data, off := before + Encode(attrs) + after, |before|;
            Walk(data, off, off + |Encode(attrs)|) == Lookup(attrs)
    decreases attrs
  {
    hide DecodeValue, Walk, EncodeAttr, Padded, KindAt, LengthAt;
    var data, off, end := before + Encode(attrs) + after, |before|, |before| + |Encode(attrs)|;
    if attrs == [] {
      WalkEnds(data, off, end);
    } else {
      var e, rest := EncodeAttr(attrs[0]), Encode(attrs[1..]);
      assert data == before + e + (rest + after) == (before + e) + rest + after;
      AttrHeaderAt(before, attrs[0], rest + after);
      WalkCases(data, off, end);
      WalkInvertsEncode(before + e, attrs[1..], after);
    }
  }

  /** Over an encoded list the walk visits exactly the attribute starts. */
  lemma {:induction false} VisitsAreStarts(before: seq<byte>, attrs: seq<Attr>, after: seq<byte>)
    ensures var data, off := before + Encode(attrs) + after, |before|;
            Visits(data, off, off + |Encode(attrs)|) == Starts(attrs, off)
    decreases attrs
  {
    hide Visits, EncodeAttr, Padded, KindAt, LengthAt, Usable;
    var data, off, end := before + Encode(attrs) + after, |before|, |before| + |Encode(attrs)|;
    if attrs == [] {
      WalkEnds(data, off, end);
    } else {
      var e, rest := EncodeAttr(attrs[0]), Encode(attrs[1..]);
      assert data == before + e + (rest + after) == (before + e) + rest + after;
      AttrHeaderAt(before, attrs[0], rest + after);
      VisitCases(data, off, end);
      VisitsAreStarts(before + e, attrs[1..], after);
    }
  }

  /** A binding response: cookie and transaction id are sixteen bytes the program never reads. */
  function Response(id: seq<byte>, attrs: seq<Attr>, trailing: seq<byte>): (data: seq<byte>)
    requires |id| == 16 && |Encode(attrs)| < 0x1_0000
  {
    Bytes16(BINDING_RESPONSE) + Bytes16(|Encode(attrs)|) + id + Encode(attrs) + trailing
  }

  /** Round trip: parsing an encoded response looks its attribute list up. */
  lemma ParseInvertsResponse(id: seq<byte>, attrs: seq<Attr>, trailing: seq<byte>)
    requires |id| == 16 && |Encode(attrs)| < 0x1_0000
    ensures var data := Response(id, attrs, trailing);
            Parse(data) == Lookup(attrs) &&
            Visits(data, HEADER, DeclaredEnd(data)) == Starts(attrs, HEADER)
  {
    hide Walk, Visits, Encode, Lookup, Starts, DecodeValue;
    var before := Bytes16(BINDING_RESPONSE) + Bytes16(|Encode(attrs)|) + id;
    var data := Response(id, attrs, trailing);
    assert data == before + Encode(attrs) + trailing;
    assert data[0..2] == Bytes16(BINDING_RESPONSE) && data[2..4] == Bytes16(|Encode(attrs)|);
    assert data[0] == Bytes16(BINDING_RESPONSE)[0] && data[1] == Bytes16(BINDING_RESPONSE)[1];
    assert data[2] == Bytes16(|Encode(attrs)|)[0] && data[3] == Bytes16(|Encode(attrs)|)[1];
    WalkInvertsEncode(before, attrs, trailing);
    VisitsAreStarts(before, attrs, trailing);
  }

  // ----- Which buffers are encodings -----

  /** Padded attributes fill [off, end) exactly. */
  predicate Tiles(data: seq<byte>, off: nat, end: nat)
    requires end <= |data|
    decreases end - off
  {
    off == end ||
    (off + 4 <= end && Tiles(data, off + 4 + Padded(LengthAt(data, off)), end))
  }

  lemma TilesOrder(data: seq<byte>, off: nat, end: nat)
    requires end <= |data| && Tiles(data, off, end)
    ensures off <= end
  {
  }

  function AttrAt(data: seq<byte>, off: nat): (a: Attr)
    requires off + 4 <= |data| && off + 4 + Padded(LengthAt(data, off)) <= |data|
  {
    var len := LengthAt(data, off);
    Attr(KindAt(data, off), data[off + 4..off + 4 + len], data[off + 4 + len..off + 4 + Padded(len)])
  }

  function DecodeAttrs(data: seq<byte>, off: nat, end: nat): (attrs: seq<Attr>)
    requires end <= |data| && Tiles(data, off, end)
    decreases end - off
  {
    if off == end then []
    else
      var next := off + 4 + Padded(LengthAt(data, off));
      TilesOrder(data, next, end);
      [AttrAt(data, off)] + DecodeAttrs(data, next, end)
  }

  lemma EncodeAttrAt(data: seq<byte>, off: nat)
    requires off + 4 <= |data| && off + 4 + Padded(LengthAt(data, off)) <= |data|
    ensures EncodeAttr(AttrAt(data, off)) == data[off..off + 4 + Padded(LengthAt(data, off))]
  {
    var a, len := AttrAt(data, off), LengthAt(data, off);
    assert Bytes16(a.kind) == data[off..off + 2];
    assert Bytes16(|a.value|) == data[off + 2..off + 4];
  }

  lemma {:induction false} EncodeInvertsDecode(data: seq<byte>, off: nat, end: nat)
    requires end <= |data| && Tiles(data, off, end)
    ensures off <= end && Encode(DecodeAttrs(data, off, end)) == data[off..end]
    decreases end - off
  {
    hide EncodeAttr, AttrAt, Padded;
    if off != end {
      var next := off + 4 + Padded(LengthAt(data, off));
      TilesOrder(data, next, end);
      EncodeAttrAt(data, off);
      EncodeInvertsDecode(data, next, end);
      var attrs := DecodeAttrs(data, off, end);
      assert attrs[1..] == DecodeAttrs(data, next, end);
      assert data[off..end] == data[off..next] + data[next..end];
    }
  }

  lemma {:induction false} EncodedTiles(before: seq<byte>, attrs: seq<Attr>, after: seq<byte>)
    ensures Tiles(before + Encode(attrs) + after, |before|, |before| + |Encode(attrs)|)
    decreases attrs
  {
    hide EncodeAttr, Padded, KindAt, LengthAt;
    if attrs != [] {
      var data := before + Encode(attrs) + after;
      var e, rest := EncodeAttr(attrs[0]), Encode(attrs[1..]);
      assert data == before + e + (rest + after) == (before + e) + rest + after;
      AttrHeaderAt(before, attrs[0], rest + after);
      EncodedTiles(before + e, attrs[1..], after);
    }
  }

  /** The stretches that padded attributes tile are exactly the encoded attribute lists. */
  lemma TilesIffEncoded(data: seq<byte>, off: nat, end: nat)
    requires off <= end <= |data|
    ensures Tiles(data, off, end) <==> exists attrs :: data[off..end] == Encode(attrs)
  {
    hide Tiles, Encode, DecodeAttrs;
    if Tiles(data, off, end) {
      EncodeInvertsDecode(data, off, end);
    }
    forall attrs | data[off..end] == Encode(attrs)
      ensures Tiles(data, off, end)
    {
      assert data == data[..off] + Encode(attrs) + data[end..];
      EncodedTiles(data[..off], attrs, data[end..]);
    }
  }

  /** A tiled response inside its buffer is read without a panic, and means its list. */
  lemma TiledResponseIsRead(data: seq<byte>)
    requires |data| >= HEADER && Be16(data[0], data[1]) == BINDING_RESPONSE
    requires DeclaredEnd(data) <= |data| && Tiles(data, HEADER, DeclaredEnd(data))
    ensures Parse(data) == Lookup(DecodeAttrs(data, HEADER, DeclaredEnd(data)))
    ensures Parse(data) != IndexPanic
  {
    hide Walk, Tiles, Encode, Lookup, DecodeAttrs;
    var end := DeclaredEnd(data);
    var attrs := DecodeAttrs(data, HEADER, end);
    EncodeInvertsDecode(data, HEADER, end);
    assert data == data[..HEADER] + Encode(attrs) + data[end..];
    WalkInvertsEncode(data[..HEADER], attrs, data[end..]);
  }

  /** The offset at which the walk stops. */
  function StopOffset(data: seq<byte>, off: nat, end: nat): (r: nat)
    decreases end - off
  {
    if off + 4 > end || off + 4 > |data| || Usable(KindAt(data, off), LengthAt(data, off)) then off
    else StopOffset(data, off + 4 + Padded(LengthAt(data, off)), end)
  }

  /** Over tiled attributes the walk that finds nothing stops exactly at the declared end. */
  lemma {:induction false} TiledWalkStopsAtEnd(data: seq<byte>, off: nat, end: nat)
    requires end <= |data| && Tiles(data, off, end)
    ensures Walk(data, off, end) == NoMappedAddress <==> StopOffset(data, off, end) == end
    decreases end - off
  {
    hide DecodeValue, Walk, Padded;
    if off == end {
      WalkEnds(data, off, end);
    } else {
      WalkCases(data, off, end);
      var next := off + 4 + Padded(LengthAt(data, off));
      TilesOrder(data, next, end);
      if Usable(KindAt(data, off), LengthAt(data, off)) {
        DecodesToMapped(KindAt(data, off), data[off + 4..off + 10]);
      } else {
        TiledWalkStopsAtEnd(data, next, end);
      }
    }
  }
}
