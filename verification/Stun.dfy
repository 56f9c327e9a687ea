/** The attribute walk over a STUN binding response. An index outside the buffer, at which
the program would stop with a panic, is the result `IndexPanic`. */
module Stun {
  import opened Bytes

  const BINDING_RESPONSE := 0x0101
  const MAPPED_ADDRESS := 0x0001
  const XOR_MAPPED_ADDRESS := 0x0020
  const HEADER := 20

  datatype Ipv4 = Ipv4(a: byte, b: byte, c: byte, d: byte)

  datatype Parsed =
    | Mapped(ip: Ipv4, port: U16)
    | TooShort
    | NotBindingResponse
    | NoMappedAddress
    | IndexPanic

  function Be16(hi: byte, lo: byte): (n: U16)
  {
    256 * hi + lo
  }

  /** Bitwise exclusive or of two numbers, over their lowest `bits` bits. */
  function Xor(bits: nat, x: nat, y: nat): (z: nat)
  {
    if bits == 0 then 0 else (x % 2 + y % 2) % 2 + 2 * Xor(bits - 1, x / 2, y / 2)
  }

  function Pow2(k: nat): (p: nat)
    ensures p >= 1
  {
    if k == 0 then 1 else 2 * Pow2(k - 1)
  }

  lemma Pow2Values()
    ensures Pow2(8) == 0x100 && Pow2(15) == 0x8000 && Pow2(16) == 0x1_0000
  {
    assert Pow2(4) == 16;
    assert Pow2(8) == 256;
    assert Pow2(12) == 4096;
  }

  lemma {:induction false} XorBound(bits: nat, x: nat, y: nat)
    ensures Xor(bits, x, y) < Pow2(bits)
  {
    if bits > 0 {
      XorBound(bits - 1, x / 2, y / 2);
    }
  }

  /** Exclusive or with the same number undoes itself. */
  lemma {:induction false} XorInvolution(bits: nat, x: nat, y: nat)
    requires x < Pow2(bits)
    ensures Xor(bits, Xor(bits, x, y), y) == x
  {
    hide Xor;
    if bits == 0 {
      XorNoBits(x, y);
      XorNoBits(Xor(0, x, y), y);
    } else {
      var z := Xor(bits, x, y);
      XorInvolution(bits - 1, x / 2, y / 2);
      XorParts(bits, x, y);
      XorParts(bits, z, y);
    }
  }

  lemma XorNoBits(x: nat, y: nat)
    ensures Xor(0, x, y) == 0
  {
  }

  lemma XorParts(bits: nat, x: nat, y: nat)
    requires bits > 0
    ensures Xor(bits, x, y) / 2 == Xor(bits - 1, x / 2, y / 2)
    ensures Xor(bits, x, y) % 2 == if x % 2 == y % 2 then 0 else 1
  {
  }

  function Xor8(x: byte, y: byte): (z: byte)
  {
    XorBound(8, x, y);
    Pow2Values();
    Xor(8, x, y)
  }

  function Xor16(x: U16, y: U16): (z: U16)
  {
    XorBound(16, x, y);
    Pow2Values();
    Xor(16, x, y)
  }

  predicate Usable(kind: U16, len: nat)
  {
    (kind == MAPPED_ADDRESS || kind == XOR_MAPPED_ADDRESS) && len >= 8
  }

  /** The address the program reads out of the first six bytes of an attribute's value. */
  function DecodeValue(kind: U16, v: seq<byte>): (r: Parsed)
    requires |v| >= 6
  {
    var port := Be16(v[0], v[1]);
    if kind == XOR_MAPPED_ADDRESS
    then Mapped(Ipv4(Xor8(v[2], 0x21), Xor8(v[3], 0x12), Xor8(v[4], 0xA4), Xor8(v[5], 0x42)), Xor16(port, 0x2112))
    else Mapped(Ipv4(v[2], v[3], v[4], v[5]), port)
  }

  lemma DecodesToMapped(kind: U16, v: seq<byte>)
    requires |v| >= 6
    ensures DecodeValue(kind, v).Mapped?
  {
  }

  /** Length of a value with its padding to a multiple of four. */
  function Padded(len: nat): (n: nat)
    ensures len <= n < len + 4
  {
    if len % 4 != 0 then len + (4 - len % 4) else len
  }

  lemma SkipStaysAligned(off: nat, len: nat)
    requires off % 4 == 0
    ensures (off + 4 + Padded(len)) % 4 == 0
  {
  }

  function KindAt(data: seq<byte>, off: nat): (k: U16)
    requires off + 4 <= |data|
  {
    Be16(data[off], data[off + 1])
  }

  function LengthAt(data: seq<byte>, off: nat): (n: U16)
    requires off + 4 <= |data|
  {
    Be16(data[off + 2], data[off + 3])
  }

  /** The walk from offset `off` up to the declared end. */
  function Walk(data: seq<byte>, off: nat, end: nat): (r: Parsed)
    decreases end - off
  {
    if off + 4 > end then NoMappedAddress
    else if off + 4 > |data| then IndexPanic
    else if Usable(KindAt(data, off), LengthAt(data, off)) then
      if off + 10 > |data| then IndexPanic else DecodeValue(KindAt(data, off), data[off + 4..off + 10])
    else Walk(data, off + 4 + Padded(LengthAt(data, off)), end)
  }

  /** The offsets at which the walk looks at an attribute header. */
  function Visits(data: seq<byte>, off: nat, end: nat): (offs: seq<nat>)
    decreases end - off
  {
    if off + 4 > end then []
    else if off + 4 > |data| || Usable(KindAt(data, off), LengthAt(data, off)) then [off]
    else [off] + Visits(data, off + 4 + Padded(LengthAt(data, off)), end)
  }

  function DeclaredEnd(data: seq<byte>): (end: nat)
    requires |data| >= HEADER
  {
    HEADER + Be16(data[2], data[3])
  }

  function Parse(data: seq<byte>): (r: Parsed)
  {
    if |data| < HEADER then TooShort
    else if Be16(data[0], data[1]) != BINDING_RESPONSE then NotBindingResponse
    else Walk(data, HEADER, DeclaredEnd(data))
  }

  /** Ascending multiples of four from `off` on that leave room for a header before `end`. */
  ghost predicate AscendAligned(vs: seq<nat>, off: nat, end: nat)
  {
    forall i :: 0 <= i < |vs| ==>
      off <= vs[i] && vs[i] + 4 <= end && vs[i] % 4 == 0 && (i > 0 ==> vs[i - 1] + 4 <= vs[i])
  }

  lemma AscendAlignedGrows(off: nat, next: nat, end: nat, later: seq<nat>)
    requires off % 4 == 0 && off + 4 <= next && off + 4 <= end && AscendAligned(later, next, end)
    ensures AscendAligned([off] + later, off, end)
  {
    var vs := [off] + later;
    forall i | 0 < i < |vs|
      ensures off <= vs[i] && vs[i] + 4 <= end && vs[i] % 4 == 0 && vs[i - 1] + 4 <= vs[i]
    {
      assert vs[i] == later[i - 1];
      assert i > 1 ==> vs[i - 1] == later[i - 2];
    }
  }

  /** The walk looks at ascending, 4-aligned offsets that leave room for a header before the
  declared end. */
  lemma {:induction false} VisitsAscendAligned(data: seq<byte>, off: nat, end: nat)
    requires off % 4 == 0
    ensures AscendAligned(Visits(data, off, end), off, end)
    decreases end - off
  {
    hide Visits, Padded, Usable, KindAt, LengthAt;
    if off + 4 <= end {
      VisitCases(data, off, end);
      if off + 4 <= |data| && !Usable(KindAt(data, off), LengthAt(data, off)) {
        var next := off + 4 + Padded(LengthAt(data, off));
        SkipStaysAligned(off, LengthAt(data, off));
        VisitsAscendAligned(data, next, end);
        AscendAlignedGrows(off, next, end, Visits(data, next, end));
      }
    } else {
      WalkEnds(data, off, end);
    }
  }

  lemma WalkEnds(data: seq<byte>, off: nat, end: nat)
    requires off + 4 > end
    ensures Walk(data, off, end) == NoMappedAddress && Visits(data, off, end) == []
  {
  }

  lemma VisitCases(data: seq<byte>, off: nat, end: nat)
    requires off + 4 <= end
    ensures Visits(data, off, end) ==
            if off + 4 > |data| || Usable(KindAt(data, off), LengthAt(data, off)) then [off]
            else [off] + Visits(data, off + 4 + Padded(LengthAt(data, off)), end)
  {
  }

  lemma WalkCases(data: seq<byte>, off: nat, end: nat)
    requires off + 4 <= end
    ensures off + 4 > |data| ==> Walk(data, off, end) == IndexPanic
    ensures off + 4 <= |data| ==>
              var kind, len := KindAt(data, off), LengthAt(data, off);
              Walk(data, off, end) ==
              if !Usable(kind, len) then Walk(data, off + 4 + Padded(len), end)
              else if off + 10 > |data| then IndexPanic
              else DecodeValue(kind, data[off + 4..off + 10])
  {
    hide DecodeValue, Padded;
  }

  lemma {:induction false} WalkResults(data: seq<byte>, off: nat, end: nat)
    ensures var r := Walk(data, off, end); r.Mapped? || r.NoMappedAddress? || r.IndexPanic?
    decreases end - off
  {
    hide DecodeValue, Walk, Padded;
    if off + 4 > end {
      WalkEnds(data, off, end);
    } else {
      WalkCases(data, off, end);
      if off + 4 <= |data| {
        if !Usable(KindAt(data, off), LengthAt(data, off)) {
          WalkResults(data, off + 4 + Padded(LengthAt(data, off)), end);
        } else if off + 10 <= |data| {
          DecodesToMapped(KindAt(data, off), data[off + 4..off + 10]);
        }
      }
    }
  }

  /** What is refused before the walk: fewer than twenty bytes, or not a binding response. */
  lemma ParseRefusals(data: seq<byte>)
    ensures Parse(data) == TooShort <==> |data| < 20
    ensures Parse(data) == NotBindingResponse <==> |data| >= 20 && !(data[0] == 1 && data[1] == 1)
  {
    hide Walk;
    if |data| >= 20 {
      WalkResults(data, HEADER, DeclaredEnd(data));
    }
  }

  // ----- The walk on raw bytes -----

  /** An attribute header at `o` of one of the two address types, with eight bytes or more. */
  predicate AddressAt(data: seq<byte>, o: nat)
  {
    o + 4 <= |data| && data[o] == 0 && data[o + 1] in {0x01, 0x20} && data[o + 2] as int * 256 + data[o + 3] >= 8
  }

  /** The address read there, byte by byte. */
  function ReadAt(data: seq<byte>, o: nat): (r: Parsed)
    requires o + 10 <= |data|
  {
    var port := data[o + 4] as int * 256 + data[o + 5];
    if data[o + 1] == 0x20
    then Mapped(Ipv4(Xor8(data[o + 6], 0x21), Xor8(data[o + 7], 0x12), Xor8(data[o + 8], 0xA4), Xor8(data[o + 9], 0x42)),
                Xor16(port, 0x2112))
    else Mapped(Ipv4(data[o + 6], data[o + 7], data[o + 8], data[o + 9]), port)
  }

  /** The offset of the next attribute: past the header and the value, rounded up to four. */
  function Following(data: seq<byte>, o: nat): (r: nat)
    requires o + 4 <= |data|
  {
    o + 4 + (data[o + 2] as int * 256 + data[o + 3] + 3) / 4 * 4
  }

  lemma PaddedRoundsUp(len: nat)
    ensures Padded(len) == (len + 3) / 4 * 4
  {
  }

  lemma KindIs(hi: byte, lo: byte)
    ensures Be16(hi, lo) == 0x0001 <==> hi == 0 && lo == 0x01
    ensures Be16(hi, lo) == 0x0020 <==> hi == 0 && lo == 0x20
  {
  }

  lemma UsableIsAddress(data: seq<byte>, o: nat)
    requires o + 4 <= |data|
    ensures Usable(KindAt(data, o), LengthAt(data, o)) <==> AddressAt(data, o)
    ensures o + 4 + Padded(LengthAt(data, o)) == Following(data, o)
  {
    hide Padded;
    KindIs(data[o], data[o + 1]);
    PaddedRoundsUp(LengthAt(data, o));
  }

  lemma DecodeIsRead(data: seq<byte>, o: nat)
    requires AddressAt(data, o) && o + 10 <= |data|
    ensures DecodeValue(KindAt(data, o), data[o + 4..o + 10]) == ReadAt(data, o)
  {
    hide Xor8, Xor16;
    KindIs(data[o], data[o + 1]);
  }

  /** The offsets looked at: from the first, each follows the one before, up to the first that
  holds an address, lies outside the buffer, or is followed by the declared end. */
  ghost predicate Chain(data: seq<byte>, off: nat, end: nat, vs: seq<nat>)
  {
    (vs == [] <==> off + 4 > end) &&
    (vs != [] ==> vs[0] == off) &&
    (forall i :: 0 <= i < |vs| ==> vs[i] + 4 <= end) &&
    (forall i :: 0 <= i < |vs| - 1 ==>
       vs[i] + 4 <= |data| && !AddressAt(data, vs[i]) && vs[i + 1] == Following(data, vs[i])) &&
    (vs != [] ==>
       var last := vs[|vs| - 1];
       last + 4 > |data| || AddressAt(data, last) || Following(data, last) + 4 > end)
  }

  lemma ChainGrows(data: seq<byte>, off: nat, next: nat, end: nat, later: seq<nat>)
    requires off + 4 <= end && off + 4 <= |data| && !AddressAt(data, off) && next == Following(data, off)
    requires Chain(data, next, end, later)
    ensures Chain(data, off, end, [off] + later)
  {
    hide AddressAt, Following;
    var vs := [off] + later;
    forall i | 0 <= i < |vs| - 1
      ensures vs[i] + 4 <= |data| && !AddressAt(data, vs[i]) && vs[i + 1] == Following(data, vs[i])
    {
      if i > 0 {
        assert vs[i] == later[i - 1] && vs[i + 1] == later[i];
      }
    }
  }

  lemma {:induction false} VisitsAreChain(data: seq<byte>, off: nat, end: nat)
    ensures Chain(data, off, end, Visits(data, off, end))
    decreases end - off
  {
    hide Visits, Padded, AddressAt, Following, Usable, KindAt, LengthAt;
    if off + 4 > end {
      WalkEnds(data, off, end);
    } else {
      VisitCases(data, off, end);
      if off + 4 <= |data| {
        UsableIsAddress(data, off);
        if !AddressAt(data, off) {
          var next := off + 4 + Padded(LengthAt(data, off));
          VisitsAreChain(data, next, end);
          var vs, later := Visits(data, off, end), Visits(data, next, end);
          assert vs == [off] + later;
          ChainGrows(data, off, next, end, later);
        }
      }
    }
  }

  lemma {:induction false} WalkReadsLast(data: seq<byte>, off: nat, end: nat)
    ensures var vs := Visits(data, off, end);
            Walk(data, off, end) ==
            if vs == [] then NoMappedAddress
            else
              var last := vs[|vs| - 1];
              if last + 4 > |data| then IndexPanic
              else if !AddressAt(data, last) then NoMappedAddress
              else if last + 10 > |data| then IndexPanic
              else ReadAt(data, last)
    decreases end - off
  {
    hide Walk, Visits, Padded, AddressAt, Following, ReadAt, DecodeValue, Usable, KindAt, LengthAt;
    if off + 4 > end {
      WalkEnds(data, off, end);
    } else {
      VisitCases(data, off, end);
      WalkCases(data, off, end);
      if off + 4 <= |data| {
        UsableIsAddress(data, off);
        if !AddressAt(data, off) {
          var next := off + 4 + Padded(LengthAt(data, off));
          WalkReadsLast(data, next, end);
          assert Visits(data, off, end) == [off] + Visits(data, next, end);
        } else if off + 10 <= |data| {
          DecodeIsRead(data, off);
        }
      }
    }
  }

  /** Parsing in terms of raw bytes, for every binding response. The result is decided at the
  last offset `o` of a chain that starts at 20: an address of type 0x0001 or 0x0020 there is
  read, and no offset before it holds one; an index outside the buffer panics; otherwise
  there is no address. */
  lemma ParseOnBytes(data: seq<byte>)
    requires |data| >= 20 && data[0] == 1 && data[1] == 1
    ensures var end := 20 + data[2] as int * 256 + data[3];
            var vs := Visits(data, 20, end);
            Chain(data, 20, end, vs) &&
            Parse(data) ==
            if vs == [] then NoMappedAddress
            else
              var o := vs[|vs| - 1];
              if o + 4 > |data| then IndexPanic
              else if !AddressAt(data, o) then NoMappedAddress
              else if o + 10 > |data| then IndexPanic
              else ReadAt(data, o)
  {
    hide Walk, Visits;
    var end := 20 + data[2] as int * 256 + data[3];
    VisitsAreChain(data, 20, end);
    WalkReadsLast(data, 20, end);
  }

  /** The branch of the walk that reads an address, at a usable attribute. */
  method ReadAddress(data: seq<byte>, off: nat, attrType: U16) returns (r: Parsed)
    requires off + 10 <= |data|
    ensures r == DecodeValue(attrType, data[off + 4..off + 10])
  {
    hide Xor8, Xor16;
    var port := Be16(data[off + 4], data[off + 5]);
    var ip := Ipv4(data[off + 6], data[off + 7], data[off + 8], data[off + 9]);
    if attrType == 0x0020 {
      port := Xor16(port, 0x2112);
      ip := Ipv4(Xor8(data[off + 6], 0x21), Xor8(data[off + 7], 0x12),
                 Xor8(data[off + 8], 0xA4), Xor8(data[off + 9], 0x42));
      return Mapped(ip, port);
    }
    return Mapped(ip, port);
  }

  /** The end of the loop body: past the value and its padding. */
  method NextOffset(start: nat, attrLen: U16) returns (off: nat)
    ensures off == start + 4 + Padded(attrLen)
  {
    off := start + 4 + attrLen;
    if attrLen % 4 != 0 {
      off := off + (4 - attrLen % 4);
    }
  }

  lemma Regroup(before: seq<nat>, off: nat, later: seq<nat>)
    ensures before + ([off] + later) == before + [off] + later
  {
  }

  /** `parse_stun_response`. */
  method ParseStunResponse(data: seq<byte>) returns (r: Parsed, ghost visited: seq<nat>)
    ensures r == Parse(data)
    ensures r == TooShort <==> |data| < 20
    ensures r == NotBindingResponse <==> |data| >= 20 && !(data[0] == 1 && data[1] == 1)
    ensures !r.TooShort? && !r.NotBindingResponse? ==> visited == Visits(data, HEADER, DeclaredEnd(data))
  {
    hide DecodeValue, Walk, Visits, Padded;
    ParseRefusals(data);
    visited := [];
    if |data| < 20 {
      return TooShort, visited;
    }
    var msgType := Be16(data[0], data[1]);
    if msgType != 0x0101 {
      return NotBindingResponse, visited;
    }
    var len := Be16(data[2], data[3]);
    var off := 20;
    ghost var result := Walk(data, off, 20 + len);
    ghost var visits := Visits(data, off, 20 + len);
    while off + 4 <= 20 + len
      invariant off >= 20
      invariant Walk(data, off, 20 + len) == result
      invariant visited + Visits(data, off, 20 + len) == visits
      decreases 20 + len - off
    {
      WalkCases(data, off, 20 + len);
      VisitCases(data, off, 20 + len);
      ghost var before := visited;
      visited := visited + [off];
      if off + 4 > |data| {
        return IndexPanic, visited;
      }
      var attrType := Be16(data[off], data[off + 1]);
      var attrLen := Be16(data[off + 2], data[off + 3]);
      if (attrType == 0x0001 || attrType == 0x0020) && attrLen >= 8 {
        if off + 10 > |data| {
          return IndexPanic, visited;
        }
        r := ReadAddress(data, off, attrType);
        return r, visited;
      }
      ghost var later := Visits(data, off + 4 + Padded(attrLen), 20 + len);
      assert visits == visited + later by { Regroup(before, off, later); }
      off := NextOffset(off, attrLen);
    }
    WalkEnds(data, off, 20 + len);
    return NoMappedAddress, visited;
  }
}
