/** The address layout of RFC 5389 against the byte positions the program reads.

Sections 15.1 and 15.2 of RFC 5389 put a zero byte and the address family before the port;
the program takes the port from the first two bytes of the value and the address from the
next four. */
module StunRfc {
  import opened Bytes
  import opened Stun
  import opened StunCodec

  const FAMILY_IPV4: byte := 1
  const FAMILY_IPV6: byte := 2

  // ----- Values in the layout the program reads -----

  /** The value, in the program's layout, from which the program reads the given address. */
  function ProgramValue(kind: U16, ip: Ipv4, port: U16): (v: seq<byte>)
    ensures |v| == 8
  {
    if kind == XOR_MAPPED_ADDRESS then
      Bytes16(Xor16(port, 0x2112)) + [Xor8(ip.a, 0x21), Xor8(ip.b, 0x12), Xor8(ip.c, 0xA4), Xor8(ip.d, 0x42), 0, 0]
    else Bytes16(port) + [ip.a, ip.b, ip.c, ip.d, 0, 0]
  }

  lemma XorTwice8(x: byte, y: byte)
    ensures Xor8(Xor8(x, y), y) == x
  {
    Pow2Values();
    XorInvolution(8, x, y);
  }

  lemma XorTwice16(x: U16, y: U16)
    ensures Xor16(Xor16(x, y), y) == x
  {
    Pow2Values();
    XorInvolution(16, x, y);
  }

  /** Decoding inverts encoding in the program's layout, plain and exclusive-or. */
  lemma DecodeInvertsProgramValue(kind: U16, ip: Ipv4, port: U16)
    ensures DecodeValue(kind, ProgramValue(kind, ip, port)) == Mapped(ip, port)
  {
    hide Xor8, Xor16;
    if kind == XOR_MAPPED_ADDRESS {
      XorTwice16(port, 0x2112);
      XorTwice8(ip.a, 0x21);
      XorTwice8(ip.b, 0x12);
      XorTwice8(ip.c, 0xA4);
      XorTwice8(ip.d, 0x42);
    }
  }

  // ----- Values in the layout of the RFC -----

  /** MAPPED-ADDRESS and XOR-MAPPED-ADDRESS values for IPv4. */
  function RfcValue(kind: U16, ip: Ipv4, port: U16): (v: seq<byte>)
    ensures |v| == 8
  {
    if kind == XOR_MAPPED_ADDRESS then
      [0, FAMILY_IPV4] + Bytes16(Xor16(port, 0x2112)) +
      [Xor8(ip.a, 0x21), Xor8(ip.b, 0x12), Xor8(ip.c, 0xA4), Xor8(ip.d, 0x42)]
    else [0, FAMILY_IPV4] + Bytes16(port) + [ip.a, ip.b, ip.c, ip.d]
  }

  /** The address that the program reads correctly from an RFC value: there is one per type. */
  function FixedPoint(kind: U16): (r: Parsed)
  {
    if kind == XOR_MAPPED_ADDRESS then Mapped(Ipv4(0x21, 0x13, 0xA4, 0x43), 0x2113)
    else Mapped(Ipv4(0, 1, 0, 1), 1)
  }

  lemma MappedReadIff(ip: Ipv4, port: U16)
    ensures DecodeValue(MAPPED_ADDRESS, RfcValue(MAPPED_ADDRESS, ip, port)) ==
            Mapped(Ipv4(port / 256, port % 256, ip.a, ip.b), 1)
    ensures DecodeValue(MAPPED_ADDRESS, RfcValue(MAPPED_ADDRESS, ip, port)) == Mapped(ip, port)
            <==> Mapped(ip, port) == FixedPoint(MAPPED_ADDRESS)
  {
    hide Xor8, Xor16;
  }

  lemma {:induction false} XorZero(bits: nat, y: nat)
    requires y < Pow2(bits)
    ensures Xor(bits, 0, y) == y
  {
    if bits > 0 {
      XorZero(bits - 1, y / 2);
    }
  }

  lemma XorOne(bits: nat, y: nat)
    requires bits > 0 && y < Pow2(bits)
    ensures Xor(bits, 1, y) == if y % 2 == 0 then y + 1 else y - 1
  {
    XorZero(bits - 1, y / 2);
  }

  lemma XorTwo(bits: nat, y: nat)
    requires bits > 0 && y % 2 == 0
    ensures Xor(bits, 2, y) == 2 * Xor(bits - 1, 1, y / 2)
  {
  }

  lemma Xor8Literals()
    ensures Xor8(0, 0x21) == 0x21 && Xor8(1, 0x12) == 0x13 && Xor8(0x21, 0x21) == 0
    ensures Xor8(0, 0xA4) == 0xA4 && Xor8(0x13, 0x12) == 1 && Xor8(1, 0x42) == 0x43
  {
    hide Xor;
    Pow2Values();
    XorZero(8, 0x21);
    XorZero(8, 0xA4);
    XorOne(8, 0x12);
    XorOne(8, 0x42);
    XorTwice8(0, 0x21);
    XorTwice8(1, 0x12);
  }

  lemma Xor16Literals()
    ensures Xor16(1, 0x2112) == 0x2113 && Xor16(2, 0x2112) == 0x2110 && Xor16(0x2113, 0x2112) == 1
  {
    hide Xor;
    Pow2Values();
    XorTwo(16, 0x2112);
    XorOne(16, 0x2112);
    XorOne(15, 0x1089);
    XorTwice16(1, 0x2112);
  }

  lemma XorMappedReadIff(ip: Ipv4, port: U16)
    ensures DecodeValue(XOR_MAPPED_ADDRESS, RfcValue(XOR_MAPPED_ADDRESS, ip, port)).port == 0x2113
    ensures DecodeValue(XOR_MAPPED_ADDRESS, RfcValue(XOR_MAPPED_ADDRESS, ip, port)) == Mapped(ip, port)
            <==> Mapped(ip, port) == FixedPoint(XOR_MAPPED_ADDRESS)
  {
    hide Xor8, Xor16;
    Xor8Literals();
    Xor16Literals();
  }

  /** The program reads an RFC value correctly for exactly one address of each type. */
  lemma RfcReadIff(kind: U16, ip: Ipv4, port: U16)
    requires kind == MAPPED_ADDRESS || kind == XOR_MAPPED_ADDRESS
    ensures DecodeValue(kind, RfcValue(kind, ip, port)) == Mapped(ip, port)
            <==> Mapped(ip, port) == FixedPoint(kind)
  {
    if kind == MAPPED_ADDRESS {
      MappedReadIff(ip, port);
    } else {
      XorMappedReadIff(ip, port);
    }
  }

  // ----- NAT type detection -----

  datatype NatType = Unknown | Easy | Symmetric

  /** `detect_nat_type` on the results of the two queries made with one socket. */
  function DetectNat(first: Parsed, second: Parsed): (n: NatType)
    ensures n == Unknown <==> !first.Mapped? || !second.Mapped?
    ensures n == Symmetric <==> first.Mapped? && second.Mapped? && first.port != second.port
  {
    if first.Mapped? && second.Mapped? then (if first.port != second.port then Symmetric else Easy)
    else Unknown
  }

  /** Every usable attribute starts as the RFC says: a zero byte and a family. */
  ghost predicate RfcLaidOut(attrs: seq<Attr>)
  {
    forall i :: 0 <= i < |attrs| && Usable(attrs[i].kind, |attrs[i].value|) ==>
      attrs[i].value[0] == 0 && attrs[i].value[1] in {FAMILY_IPV4, FAMILY_IPV6}
  }

  /** Type and family of the first usable attribute. */
  function FirstUsable(attrs: seq<Attr>): (r: (U16, byte))
    requires Lookup(attrs).Mapped?
    ensures r.0 == MAPPED_ADDRESS || r.0 == XOR_MAPPED_ADDRESS
  {
    if Usable(attrs[0].kind, |attrs[0].value|) then (attrs[0].kind, attrs[0].value[1])
    else FirstUsable(attrs[1..])
  }

  /** The port the program reads tells type and family, and nothing about the port. */
  function PortRead(kind: U16, family: byte): (p: U16)
  {
    if kind == XOR_MAPPED_ADDRESS then Xor16(family, 0x2112) else family
  }

  lemma {:induction false} LookupReadsFamily(attrs: seq<Attr>)
    requires RfcLaidOut(attrs) && Lookup(attrs).Mapped?
    ensures FirstUsable(attrs).1 in {FAMILY_IPV4, FAMILY_IPV6}
    ensures Lookup(attrs).port == PortRead(FirstUsable(attrs).0, FirstUsable(attrs).1)
  {
    hide Xor8, Xor16;
    if !Usable(attrs[0].kind, |attrs[0].value|) {
      assert RfcLaidOut(attrs[1..]);
      LookupReadsFamily(attrs[1..]);
    }
  }

  /** For any two conforming responses that carry an address, the verdict is `Symmetric` if and
  only if the first usable attributes differ in type or family. The mapped ports, on which
  the distinction is meant to rest, have no influence. */
  lemma VerdictIgnoresPorts(id1: seq<byte>, attrs1: seq<Attr>, id2: seq<byte>, attrs2: seq<Attr>)
    requires |id1| == 16 && |id2| == 16 && |Encode(attrs1)| < 0x1_0000 && |Encode(attrs2)| < 0x1_0000
    requires RfcLaidOut(attrs1) && RfcLaidOut(attrs2) && Lookup(attrs1).Mapped? && Lookup(attrs2).Mapped?
    ensures DetectNat(Parse(Response(id1, attrs1, [])), Parse(Response(id2, attrs2, []))) ==
            if FirstUsable(attrs1) != FirstUsable(attrs2) then Symmetric else Easy
  {
    hide Xor16, Lookup, FirstUsable, Encode, Response, Parse;
    ParseInvertsResponse(id1, attrs1, []);
    ParseInvertsResponse(id2, attrs2, []);
    LookupReadsFamily(attrs1);
    LookupReadsFamily(attrs2);
    Xor16Literals();
  }
}
