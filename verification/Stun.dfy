/** A minimal STUN client: building the Binding Request, and finding and decoding
    XOR-MAPPED-ADDRESS in the response (RFC 8489 sections 5, 14 and 14.2). */
module Stun {
  import opened Base
  import Division

  const MAGIC_COOKIE: nat := 0x2112_A442
  const MESSAGE_TYPE_BINDING_REQUEST: u16 := 0x0001
  const MESSAGE_TYPE_BINDING_SUCCESS: u16 := 0x0101
  const ATTR_XOR_MAPPED_ADDRESS: u16 := 0x0020
  const STUN_HEADER_LEN: nat := 20

  type TxnId = b: Bytes | |b| == 12 witness [0, 0, 0, 0, 0, 0, 0, 0, 0, 0, 0, 0]

  datatype StunError =
    | ShorterThanHeader
    | NotBindingSuccess
    | CookieMismatch
    | TransactionMismatch
    | BodyShorterThanDeclared
    | AttributePastBody
    | AttributeMissing
    | AddressTooShort
    | V4TooShort
    | V6TooShort
    | UnknownFamily

  // -------------------------------------------------------- integers and XOR

  const COOKIE_BYTES: Octets4 := [0x21, 0x12, 0xA4, 0x42]

  function Be16(hi: byte, lo: byte): u16 {
    hi * 0x100 + lo
  }

  function Be16Bytes(n: u16): Bytes {
    [n / 0x100, n % 0x100]
  }

  function Be32(b: Octets4): nat {
    var b0: nat, b1: nat, b2: nat, b3: nat := b[0], b[1], b[2], b[3];
    b0 * 0x100_0000 + b1 * 0x1_0000 + b2 * 0x100 + b3
  }

  /** Bitwise exclusive or of two `bits`-wide numbers, lowest bit last. */
  function Xor(a: nat, b: nat, bits: nat): (r: nat)
    requires a < Pow2(bits) && b < Pow2(bits)
    ensures r < Pow2(bits)
  {
    if bits == 0 then 0
    else 2 * Xor(a / 2, b / 2, bits - 1) + (if a % 2 == b % 2 then 0 else 1)
  }

  lemma {:induction false} XorUndoes(a: nat, b: nat, bits: nat)
    requires a < Pow2(bits) && b < Pow2(bits)
    ensures Xor(Xor(a, b, bits), b, bits) == a
  {
    if bits == 0 {
    } else {
      XorUndoes(a / 2, b / 2, bits - 1);
      var low := if a % 2 == b % 2 then 0 else 1;
      var r := Xor(a, b, bits);
      assert r / 2 == Xor(a / 2, b / 2, bits - 1) && r % 2 == low;
    }
  }

  /** Bit `i` of a number, bit 0 the lowest. */
  predicate Bit(n: nat, i: nat) {
    n / Pow2(i) % 2 == 1
  }

  lemma BitOfHalf(n: nat, i: nat)
    requires i > 0
    ensures Bit(n, i) <==> Bit(n / 2, i - 1)
  {
    var p := Pow2(i - 1);
    Division.DivMod(n / 2, p);
    HalfQuotient(n, p, n / 2 / p, n / 2 % p);
  }

  lemma HalfQuotient(n: nat, p: nat, q: nat, r: nat)
    requires p > 0 && n / 2 == q * p + r && r < p
    ensures n / (2 * p) == q
  {
    Division.ModUnique(n, 2 * p, q, 2 * r + n % 2);
  }

  /** What the exclusive or is: it has exactly the bits that one of its arguments has and
      the other has not. */
  lemma {:induction false} XorBits(a: nat, b: nat, bits: nat, i: nat)
    requires a < Pow2(bits) && b < Pow2(bits) && i < bits
    ensures Bit(Xor(a, b, bits), i) <==> Bit(a, i) != Bit(b, i)
    decreases i
  {
    var r := Xor(a, b, bits);
    if i == 0 {
      assert Pow2(0) == 1;
    } else {
      assert r / 2 == Xor(a / 2, b / 2, bits - 1);
      BitOfHalf(r, i);
      BitOfHalf(a, i);
      BitOfHalf(b, i);
      XorBits(a / 2, b / 2, bits - 1, i - 1);
    }
  }

  lemma Widths()
    ensures Pow2(8) == 0x100 && Pow2(16) == 0x1_0000
  {
    assert Pow2(4) == 16 && Pow2(8) == 256 && Pow2(12) == 4096;
  }

  function XorByte(a: byte, b: byte): byte {
    Widths();
    Xor(a, b, 8)
  }

  function XorU16(a: u16, b: u16): u16 {
    Widths();
    Xor(a, b, 16)
  }

  lemma XorByteUndoes(a: byte, b: byte)
    ensures XorByte(XorByte(a, b), b) == a
  {
    Widths();
    XorUndoes(a, b, 8);
  }

  lemma XorU16Undoes(a: u16, b: u16)
    ensures XorU16(XorU16(a, b), b) == a
  {
    Widths();
    XorUndoes(a, b, 16);
  }

  /** `r` has exactly the bits, of the lowest `bits`, in which `a` and `b` differ. */
  ghost predicate Differs(r: nat, a: nat, b: nat, bits: nat) {
    forall i: nat :: i < bits ==> (Bit(r, i) <==> Bit(a, i) != Bit(b, i))
  }

  lemma XorByteBits(a: byte, b: byte)
    ensures Differs(XorByte(a, b), a, b, 8)
  {
    Widths();
    forall i: nat | i < 8
      ensures Bit(XorByte(a, b), i) <==> Bit(a, i) != Bit(b, i)
    {
      XorBits(a, b, 8, i);
    }
  }

  lemma XorU16Bits(a: u16, b: u16)
    ensures Differs(XorU16(a, b), a, b, 16)
  {
    Widths();
    forall i: nat | i < 16
      ensures Bit(XorU16(a, b), i) <==> Bit(a, i) != Bit(b, i)
    {
      XorBits(a, b, 16, i);
    }
  }

  /** `data` XORed byte for byte with the start of `key`. */
  function XorBytes(data: Bytes, key: Bytes): (r: Bytes)
    requires |data| <= |key|
    ensures |r| == |data|
  {
    seq(|data|, i requires 0 <= i < |data| => XorByte(data[i], key[i]))
  }

  lemma XorBytesUndoes(data: Bytes, key: Bytes)
    requires |data| <= |key|
    ensures XorBytes(XorBytes(data, key), key) == data
  {
    forall i | 0 <= i < |data|
      ensures XorBytes(XorBytes(data, key), key)[i] == data[i]
    {
      XorByteUndoes(data[i], key[i]);
    }
  }

  // ------------------------------------------------------------------ header

  /** The 20-byte header of RFC 8489 section 5. */
  function Header(kind: u16, length: u16, txn: TxnId): (h: Bytes)
    ensures |h| == STUN_HEADER_LEN
  {
    Be16Bytes(kind) + Be16Bytes(length) + COOKIE_BYTES + txn
  }

  method BuildBindingRequest(txn: TxnId) returns (request: array<byte>)
    ensures fresh(request)
    ensures request[..] == [0x00, 0x01, 0x00, 0x00, 0x21, 0x12, 0xA4, 0x42] + txn
  {
    request := new byte[STUN_HEADER_LEN](_ => 0);
    CopyInto(request, 0, Be16Bytes(MESSAGE_TYPE_BINDING_REQUEST));
    CopyInto(request, 2, Be16Bytes(0));
    CopyInto(request, 4, COOKIE_BYTES);
    CopyInto(request, 8, txn);
    assert request[..] == request[..20];
  }

  method CopyInto(dst: array<byte>, at: nat, src: Bytes)
    requires at + |src| <= dst.Length
    modifies dst
    ensures dst[..at + |src|] == old(dst[..at]) + src
    ensures dst[at + |src|..] == old(dst[at + |src|..])
  {
    forall i | 0 <= i < |src| { dst[at + i] := src[i]; }
  }

  function ParseHeader(bytes: Bytes, txn: TxnId): Result<(u16, Bytes), StunError> {
    if |bytes| < STUN_HEADER_LEN then Err(ShorterThanHeader)
    else if Be16(bytes[0], bytes[1]) != MESSAGE_TYPE_BINDING_SUCCESS then Err(NotBindingSuccess)
    else if Be32(bytes[4..8]) != MAGIC_COOKIE then Err(CookieMismatch)
    else if bytes[8..20] != txn then Err(TransactionMismatch)
    else Ok((Be16(bytes[2], bytes[3]), bytes[STUN_HEADER_LEN..]))
  }

  lemma Be32Injective(b: Octets4)
    requires Be32(b) == MAGIC_COOKIE
    ensures b == COOKIE_BYTES
  {
    assert b[0] == 0x21 && b[1] == 0x12 && b[2] == 0xA4 && b[3] == 0x42;
  }

  /** The header is accepted exactly when it is the section 5 header of a success
      response with this transaction id. */
  lemma HeaderAcceptedIff(bytes: Bytes, txn: TxnId, length: u16, body: Bytes)
    ensures ParseHeader(bytes, txn) == Ok((length, body))
            <==> bytes == Header(MESSAGE_TYPE_BINDING_SUCCESS, length, txn) + body
    ensures Header(MESSAGE_TYPE_BINDING_SUCCESS, length, txn)
            == [0x01, 0x01, length / 0x100, length % 0x100, 0x21, 0x12, 0xA4, 0x42] + txn
  {
    if ParseHeader(bytes, txn) == Ok((length, body)) {
      Be32Injective(bytes[4..8]);
      assert bytes == bytes[0..2] + bytes[2..4] + bytes[4..8] + bytes[8..20] + bytes[20..];
      assert bytes[0..2] == Be16Bytes(MESSAGE_TYPE_BINDING_SUCCESS);
      assert bytes[2..4] == Be16Bytes(length);
    }
    if bytes == Header(MESSAGE_TYPE_BINDING_SUCCESS, length, txn) + body {
      assert bytes[4..8] == COOKIE_BYTES && bytes[8..20] == txn && bytes[20..] == body;
    }
  }

  // --------------------------------------------------------------- attributes

  /** Bytes of padding that bring `length` to a multiple of four. */
  function Pad(length: nat): (p: nat)
    ensures p < 4
  {
    (4 - length % 4) % 4
  }

  lemma PadAligns(length: nat)
    ensures (length + Pad(length)) % 4 == 0
  {
  }

  /** The TLV grammar of RFC 8489 section 14, read for the first XOR-MAPPED-ADDRESS. */
  function FindAttribute(body: Bytes): Result<Bytes, StunError>
    decreases |body|
  {
    if |body| < 4 then Err(AttributeMissing)
    else
      var length := Be16(body[2], body[3]);
      var next := 4 + length + Pad(length);
      if 4 + length > |body| then Err(AttributePastBody)
      else if Be16(body[0], body[1]) == ATTR_XOR_MAPPED_ADDRESS then Ok(body[4..4 + length])
      else if next > |body| then Err(AttributeMissing)
      else FindAttribute(body[next..])
  }

  /** The grammar read by places in the whole body, from `cursor` on. */
  function ScanFrom(body: Bytes, cursor: nat): Result<Bytes, StunError>
    decreases |body| - cursor
  {
    if cursor + 4 > |body| then Err(AttributeMissing)
    else
      var length := Be16(body[cursor + 2], body[cursor + 3]);
      var valueEnd := cursor + 4 + length;
      if valueEnd > |body| then Err(AttributePastBody)
      else if Be16(body[cursor], body[cursor + 1]) == ATTR_XOR_MAPPED_ADDRESS then Ok(body[cursor + 4..valueEnd])
      else ScanFrom(body, valueEnd + Pad(length))
  }

  /** What is left of the body from `cursor` on reads the same. */
  lemma {:induction false} ScanFromReads(body: Bytes, cursor: nat)
    requires cursor <= |body|
    ensures ScanFrom(body, cursor) == FindAttribute(body[cursor..])
    decreases |body| - cursor
  {
    if cursor + 4 > |body| {
    } else {
      var rest := body[cursor..];
      assert rest[0] == body[cursor] && rest[1] == body[cursor + 1];
      assert rest[2] == body[cursor + 2] && rest[3] == body[cursor + 3];
      var length := Be16(rest[2], rest[3]);
      var next := 4 + length + Pad(length);
      if 4 + length <= |rest| {
        assert rest[4..4 + length] == body[cursor + 4..cursor + 4 + length];
      }
      if next <= |rest| {
        assert rest[next..] == body[cursor + next..];
        ScanFromReads(body, cursor + next);
      }
    }
  }

  /** The cursor loop stays in bounds and computes what the grammar says. */
  method FindXorMappedAddress(body: Bytes) returns (r: Result<Bytes, StunError>)
    ensures r == FindAttribute(body)
  {
    ScanFromReads(body, 0);
    assert body[0..] == body;
    ghost var answer := ScanFrom(body, 0);
    var cursor := 0;
    while cursor + 4 <= |body|
      invariant ScanFrom(body, cursor) == answer
      decreases |body| - cursor
    {
      var attrType := Be16(body[cursor], body[cursor + 1]);
      var attrLen := Be16(body[cursor + 2], body[cursor + 3]);
      var valueStart := cursor + 4;
      var valueEnd := valueStart + attrLen;
      if valueEnd > |body| {
        return Err(AttributePastBody);
      }
      if attrType == ATTR_XOR_MAPPED_ADDRESS {
        return Ok(body[valueStart..valueEnd]);
      }
      cursor := valueEnd + (4 - attrLen % 4) % 4;
    }
    r := Err(AttributeMissing);
  }

  /** An attribute as RFC 8489 section 14 has it: type and length, big-endian, then the
      value, then fewer than four bytes of padding up to a multiple of four. */
  datatype Attribute = Attribute(kind: u16, value: Bytes, padding: Bytes) {
    predicate Valid() {
      |value| < 0x1_0000 && |padding| < 4 && (|value| + |padding|) % 4 == 0
    }

    function Tlv(): Bytes
      requires Valid()
    {
      [kind / 0x100, kind % 0x100, |value| / 0x100, |value| % 0x100] + value + padding
    }
  }

  lemma PaddingIsPad(attribute: Attribute)
    requires attribute.Valid()
    ensures |attribute.padding| == Pad(|attribute.value|)
  {
    PadAligns(|attribute.value|);
  }

  predicate AllValid(attributes: seq<Attribute>) {
    forall i :: 0 <= i < |attributes| ==> attributes[i].Valid()
  }

  /** None of them is the attribute looked for. */
  predicate AllOther(attributes: seq<Attribute>) {
    forall i :: 0 <= i < |attributes| ==> attributes[i].kind != ATTR_XOR_MAPPED_ADDRESS
  }

  function Serialise(attributes: seq<Attribute>): (bytes: Bytes)
    requires AllValid(attributes)
    ensures |bytes| % 4 == 0
  {
    if attributes == [] then [] else attributes[0].Tlv() + Serialise(attributes[1..])
  }

  /** The unpadded TLV of the attribute looked for. */
  function Mapped(value: Bytes): Bytes
    requires |value| < 0x1_0000
  {
    [0x00, 0x20, |value| / 0x100, |value| % 0x100] + value
  }

  lemma TlvReads(attribute: Attribute, rest: Bytes)
    requires attribute.Valid()
    ensures var body := attribute.Tlv() + rest;
            var length := |attribute.value|;
            && |attribute.Tlv()| == 4 + length + Pad(length)
            && Be16(body[0], body[1]) == attribute.kind && Be16(body[2], body[3]) == length
            && body[4..4 + length] == attribute.value
            && body[4 + length + Pad(length)..] == rest
  {
    PaddingIsPad(attribute);
  }

  lemma SkipOne(attribute: Attribute, rest: Bytes)
    requires attribute.Valid() && attribute.kind != ATTR_XOR_MAPPED_ADDRESS
    ensures FindAttribute(attribute.Tlv() + rest) == FindAttribute(rest)
  {
    TlvReads(attribute, rest);
  }

  lemma {:induction false} SkipOthers(before: seq<Attribute>, rest: Bytes)
    requires AllValid(before) && AllOther(before)
    ensures FindAttribute(Serialise(before) + rest) == FindAttribute(rest)
    decreases |before|
  {
    if before == [] {
      assert Serialise(before) + rest == rest;
    } else {
      var tail := Serialise(before[1..]) + rest;
      assert Serialise(before) + rest == before[0].Tlv() + tail;
      SkipOne(before[0], tail);
      SkipOthers(before[1..], rest);
    }
  }

  lemma MappedReads(value: Bytes, rest: Bytes)
    requires |value| < 0x1_0000
    ensures FindAttribute(Mapped(value) + rest) == Ok(value)
  {
    var body := Mapped(value) + rest;
    assert body[4..4 + |value|] == value;
  }

  /** The scan succeeds with `value` exactly when the body is some other padded
      attributes, then that attribute, then anything. */
  lemma {:induction false} ScanFindsIff(body: Bytes, value: Bytes)
    ensures FindAttribute(body) == Ok(value)
            <==> |value| < 0x1_0000
                 && exists before: seq<Attribute>, rest: Bytes ::
                      AllValid(before) && AllOther(before)
                      && body == Serialise(before) + (Mapped(value) + rest)
    decreases |body|
  {
    if FindAttribute(body) == Ok(value) {
      var before, rest := Decompose(body, value);
    }
    if |value| < 0x1_0000
       && exists before: seq<Attribute>, rest: Bytes ::
            AllValid(before) && AllOther(before) && body == Serialise(before) + (Mapped(value) + rest)
    {
      var before: seq<Attribute>, rest: Bytes :|
        AllValid(before) && AllOther(before) && body == Serialise(before) + (Mapped(value) + rest);
      SkipOthers(before, Mapped(value) + rest);
      MappedReads(value, rest);
    }
  }

  lemma {:induction false} Decompose(body: Bytes, value: Bytes) returns (before: seq<Attribute>, rest: Bytes)
    requires FindAttribute(body) == Ok(value)
    ensures |value| < 0x1_0000 && AllValid(before) && AllOther(before)
    ensures body == Serialise(before) + (Mapped(value) + rest)
    decreases |body|
  {
    var kind, length := Be16(body[0], body[1]), Be16(body[2], body[3]);
    var next := 4 + length + Pad(length);
    if kind == ATTR_XOR_MAPPED_ADDRESS {
      before, rest := [], body[4 + length..];
      MappedSplits(body, length);
      assert Serialise([]) + (Mapped(value) + rest) == Mapped(value) + rest;
    } else {
      var first := TlvSplits(body, length);
      var tail;
      tail, rest := Decompose(body[next..], value);
      before := [first] + tail;
      SerialiseCons(first, tail, Mapped(value) + rest);
    }
  }

  lemma MappedSplits(body: Bytes, length: nat)
    requires |body| >= 4 && length == Be16(body[2], body[3]) && 4 + length <= |body|
    requires Be16(body[0], body[1]) == ATTR_XOR_MAPPED_ADDRESS
    ensures body == Mapped(body[4..4 + length]) + body[4 + length..]
  {
    TlvHeader(body);
    assert body[..4 + length] == body[..4] + body[4..4 + length];
    assert body == body[..4 + length] + body[4 + length..];
  }

  lemma TlvSplits(body: Bytes, length: nat) returns (first: Attribute)
    requires |body| >= 4 && length == Be16(body[2], body[3]) && 4 + length + Pad(length) <= |body|
    ensures first.Valid() && first.kind == Be16(body[0], body[1])
    ensures body == first.Tlv() + body[4 + length + Pad(length)..]
  {
    PadAligns(length);
    var next := 4 + length + Pad(length);
    first := Attribute(Be16(body[0], body[1]), body[4..4 + length], body[4 + length..next]);
    TlvHeader(body);
    assert body[..next] == body[..4] + body[4..4 + length] + body[4 + length..next];
    assert body == body[..next] + body[next..];
  }

  lemma TlvHeader(body: Bytes)
    requires |body| >= 4
    ensures body[..4] == Be16Bytes(Be16(body[0], body[1])) + Be16Bytes(Be16(body[2], body[3]))
  {
  }

  /** The scan fails on an attribute that does not fit exactly when, after some other padded
      attributes, a header declares more than is left; otherwise it finds nothing at all. */
  lemma {:induction false} ScanFailsIff(body: Bytes)
    ensures FindAttribute(body) == Err(AttributePastBody)
            <==> exists before: seq<Attribute>, rest: Bytes ::
                   AllValid(before) && AllOther(before) && body == Serialise(before) + rest && Overruns(rest)
    ensures FindAttribute(body).Err? ==> FindAttribute(body).error in {AttributePastBody, AttributeMissing}
  {
    ScanErrors(body);
    if FindAttribute(body) == Err(AttributePastBody) {
      var before, rest := Overrun(body);
    }
    if before: seq<Attribute>, rest: Bytes :|
      AllValid(before) && AllOther(before) && body == Serialise(before) + rest && Overruns(rest)
    {
      SkipOthers(before, rest);
    }
  }

  /** The header these bytes begin with declares a longer value than they hold. */
  predicate Overruns(rest: Bytes) {
    |rest| >= 4 && 4 + (0x100 * rest[2] + rest[3]) > |rest|
  }

  lemma {:induction false} ScanErrors(body: Bytes)
    ensures FindAttribute(body).Err? ==> FindAttribute(body).error in {AttributePastBody, AttributeMissing}
    decreases |body|
  {
    if |body| >= 4 {
      var next := 4 + Be16(body[2], body[3]) + Pad(Be16(body[2], body[3]));
      if next <= |body| {
        ScanErrors(body[next..]);
      }
    }
  }

  lemma {:induction false} Overrun(body: Bytes) returns (before: seq<Attribute>, rest: Bytes)
    requires FindAttribute(body) == Err(AttributePastBody)
    ensures AllValid(before) && AllOther(before) && body == Serialise(before) + rest && Overruns(rest)
    decreases |body|
  {
    var length := Be16(body[2], body[3]);
    if 4 + length > |body| {
      before, rest := [], body;
      assert Serialise([]) + body == body;
    } else {
      var first := TlvSplits(body, length);
      var tail;
      tail, rest := Overrun(body[4 + length + Pad(length)..]);
      before := [first] + tail;
      SerialiseCons(first, tail, rest);
    }
  }

  lemma SerialiseCons(first: Attribute, tail: seq<Attribute>, rest: Bytes)
    requires first.Valid() && AllValid(tail)
    ensures AllValid([first] + tail)
    ensures Serialise([first] + tail) + rest == first.Tlv() + (Serialise(tail) + rest)
  {
    assert ([first] + tail)[1..] == tail;
  }

  /** The value of the first XOR-MAPPED-ADDRESS in the list. */
  function FirstMapped(attributes: seq<Attribute>): (r: Option<Bytes>)
    ensures r.None? <==> AllOther(attributes)
    ensures r.Some? ==>
              exists i :: 0 <= i < |attributes|
                          && attributes[i].kind == ATTR_XOR_MAPPED_ADDRESS && attributes[i].value == r.value
                          && forall j :: 0 <= j < i ==> attributes[j].kind != ATTR_XOR_MAPPED_ADDRESS
  {
    if attributes == [] then None
    else if attributes[0].kind == ATTR_XOR_MAPPED_ADDRESS then Some(attributes[0].value)
    else
      assert attributes == [attributes[0]] + attributes[1..];
      FirstMapped(attributes[1..])
  }

  /** On a serialised attribute list, the scan returns the value of the first
      XOR-MAPPED-ADDRESS, or reports that there is none. */
  lemma {:induction false} ScanOfList(attributes: seq<Attribute>)
    requires AllValid(attributes)
    ensures FindAttribute(Serialise(attributes))
            == if FirstMapped(attributes).Some? then Ok(FirstMapped(attributes).value) else Err(AttributeMissing)
    ensures |Serialise(attributes)| % 4 == 0
    decreases |attributes|
  {
    if attributes == [] {
    } else {
      var first, tail := attributes[0], attributes[1..];
      if first.kind == ATTR_XOR_MAPPED_ADDRESS {
        var rest := first.padding + Serialise(tail);
        assert Serialise(attributes) == Mapped(first.value) + rest;
        MappedReads(first.value, rest);
      } else {
        SkipOne(first, Serialise(tail));
        ScanOfList(tail);
      }
    }
  }

  // ------------------------------------------------------------ mapped address

  const PORT_MASK: u16 := 0x2112

  function XorKey(txn: TxnId): Octets16 {
    COOKIE_BYTES + txn
  }

  function MappedAddress(value: Bytes, txn: TxnId): Result<SocketAddr, StunError> {
    if |value| < 4 then Err(AddressTooShort)
    else
      var port := XorU16(Be16(value[2], value[3]), PORT_MASK);
      match value[1]
      case 0x01 =>
        if |value| < 8 then Err(V4TooShort)
        else Ok(SocketAddr(V4(XorBytes(value[4..8], COOKIE_BYTES)), port))
      case 0x02 =>
        if |value| < 20 then Err(V6TooShort)
        else Ok(SocketAddr(V6(XorBytes(value[4..20], XorKey(txn))), port))
      case _ => Err(UnknownFamily)
  }

  /** The address is the value's family, and its port and octets are the value's with the
      bits of the cookie, and for IPv6 of the transaction id, turned over. */
  ghost predicate Unmasks(value: Bytes, txn: TxnId, addr: SocketAddr) {
    && |value| >= 8
    && (var hi: nat, lo: nat := value[2], value[3]; Differs(addr.port, 0x100 * hi + lo, 0x2112, 16))
    && match addr.ip
       case V4(octets) =>
         value[1] == 0x01 && UnmasksOctets(value, octets, [0x21, 0x12, 0xA4, 0x42])
       case V6(octets) =>
         value[1] == 0x02 && |value| >= 20 && UnmasksOctets(value, octets, [0x21, 0x12, 0xA4, 0x42] + txn)
  }

  ghost predicate UnmasksOctets(value: Bytes, octets: Bytes, key: Bytes) {
    |value| >= 4 + |octets| && |octets| == |key|
    && forall k :: 0 <= k < |octets| ==> Differs(octets[k], value[4 + k], key[k], 8)
  }

  lemma XorUnmasks(value: Bytes, octets: Bytes, key: Bytes)
    requires |value| >= 4 + |octets| && |octets| == |key|
    requires octets == XorBytes(value[4..4 + |octets|], key)
    ensures UnmasksOctets(value, octets, key)
  {
    forall k | 0 <= k < |octets|
      ensures Differs(octets[k], value[4 + k], key[k], 8)
    {
      assert value[4..4 + |octets|][k] == value[4 + k];
      XorByteBits(value[4 + k], key[k]);
    }
  }

  /** What decoding means, bit for bit, and which values do not decode and why. */
  lemma MappedAddressMeans(value: Bytes, txn: TxnId)
    ensures MappedAddress(value, txn).Ok? ==> Unmasks(value, txn, MappedAddress(value, txn).value)
    ensures MappedAddress(value, txn) == Err(AddressTooShort) <==> |value| < 4
    ensures MappedAddress(value, txn) == Err(V4TooShort) <==> 4 <= |value| < 8 && value[1] == 0x01
    ensures MappedAddress(value, txn) == Err(V6TooShort) <==> 4 <= |value| < 20 && value[1] == 0x02
    ensures MappedAddress(value, txn) == Err(UnknownFamily) <==> |value| >= 4 && value[1] !in {0x01, 0x02}
    ensures MappedAddress(value, txn).Ok?
            <==> (|value| >= 8 && value[1] == 0x01) || (|value| >= 20 && value[1] == 0x02)
  {
    if MappedAddress(value, txn).Ok? {
      XorU16Bits(Be16(value[2], value[3]), PORT_MASK);
      if value[1] == 0x01 {
        XorUnmasks(value, XorBytes(value[4..8], COOKIE_BYTES), COOKIE_BYTES);
      } else {
        XorUnmasks(value, XorBytes(value[4..20], XorKey(txn)), XorKey(txn));
      }
    }
  }

  /** The sample of RFC 5769 section 2.2: these eight bytes are 192.0.2.1, port 32853. */
  lemma SampleAddress(txn: TxnId)
    ensures MappedAddress([0x00, 0x01, 0xa1, 0x47, 0xe1, 0x12, 0xa6, 0x43], txn)
            == Ok(SocketAddr(V4([192, 0, 2, 1]), 32853))
  {
    var value: Bytes := [0x00, 0x01, 0xa1, 0x47, 0xe1, 0x12, 0xa6, 0x43];
    assert value[4..8] == [0xe1, 0x12, 0xa6, 0x43];
    SampleXors();
    assert XorBytes(value[4..8], COOKIE_BYTES) == [192, 0, 2, 1];
  }

  lemma SampleXors()
    ensures XorByte(0xe1, 0x21) == 192 && XorByte(0x12, 0x12) == 0
    ensures XorByte(0xa6, 0xA4) == 2 && XorByte(0x43, 0x42) == 1
    ensures XorU16(0xa147, PORT_MASK) == 32853
  {
    Widths();
    assert Xor(0xa1, 0x21, 8) == 0x80;
    assert Pow2(12) == 4096 && Xor(0xa14, 0x211, 12) == 0x805;
  }

  method ParseXorMappedAddress(value: Bytes, txn: TxnId) returns (r: Result<SocketAddr, StunError>)
    ensures r == MappedAddress(value, txn)
    ensures r.Ok? ==> Unmasks(value, txn, r.value)
  {
    MappedAddressMeans(value, txn);
    if |value| < 4 {
      return Err(AddressTooShort);
    }
    var family := value[1];
    var port := XorU16(Be16(value[2], value[3]), MAGIC_COOKIE / 0x1_0000);
    match family {
      case 0x01 => r := ParseXorAddressIpv4(value, port);
      case 0x02 => r := ParseXorAddressIpv6(value, port, txn);
      case _ => r := Err(UnknownFamily);
    }
  }

  method ParseXorAddressIpv4(value: Bytes, port: u16) returns (r: Result<SocketAddr, StunError>)
    ensures r == if |value| < 8 then Err(V4TooShort)
                 else Ok(SocketAddr(V4(XorBytes(value[4..8], COOKIE_BYTES)), port))
  {
    if |value| < 8 {
      return Err(V4TooShort);
    }
    var octets := new byte[4](_ => 0);
    for index := 0 to 4
      invariant forall k :: 0 <= k < index ==> octets[k] == XorByte(value[4 + k], COOKIE_BYTES[k])
    {
      octets[index] := XorByte(value[4 + index], COOKIE_BYTES[index]);
    }
    assert octets[..] == XorBytes(value[4..8], COOKIE_BYTES);
    r := Ok(SocketAddr(V4(octets[..]), port));
  }

  method ParseXorAddressIpv6(value: Bytes, port: u16, txn: TxnId) returns (r: Result<SocketAddr, StunError>)
    ensures r == if |value| < 20 then Err(V6TooShort)
                 else Ok(SocketAddr(V6(XorBytes(value[4..20], XorKey(txn))), port))
  {
    if |value| < 20 {
      return Err(V6TooShort);
    }
    var octets := new byte[16](_ => 0);
    for index := 0 to 4
      invariant forall k :: 0 <= k < index ==> octets[k] == XorByte(value[4 + k], COOKIE_BYTES[k])
    {
      octets[index] := XorByte(value[4 + index], COOKIE_BYTES[index]);
    }
    for index := 0 to 12
      invariant forall k :: 0 <= k < 4 ==> octets[k] == XorByte(value[4 + k], COOKIE_BYTES[k])
      invariant forall k :: 4 <= k < 4 + index ==> octets[k] == XorByte(value[4 + k], txn[k - 4])
    {
      octets[4 + index] := XorByte(value[8 + index], txn[index]);
    }
    assert octets[..] == XorBytes(value[4..20], XorKey(txn));
    r := Ok(SocketAddr(V6(octets[..]), port));
  }

  /** What a server puts in the attribute (RFC 8489 section 14.2). */
  function MappedValue(addr: SocketAddr, txn: TxnId): Bytes {
    match addr.ip
    case V4(octets) => [0, 0x01] + Be16Bytes(XorU16(addr.port, PORT_MASK)) + XorBytes(octets, COOKIE_BYTES)
    case V6(octets) => [0, 0x02] + Be16Bytes(XorU16(addr.port, PORT_MASK)) + XorBytes(octets, XorKey(txn))
  }

  /** A value decodes to `addr` exactly when it starts as the encoding of `addr` does,
      its first byte aside: that byte is reserved, and what follows is ignored. */
  lemma AddressDecodesIff(value: Bytes, addr: SocketAddr, txn: TxnId)
    ensures var encoded := MappedValue(addr, txn);
            MappedAddress(value, txn) == Ok(addr)
            <==> |value| >= |encoded| && value[1..|encoded|] == encoded[1..]
  {
    var encoded := MappedValue(addr, txn);
    var port' := Be16Bytes(XorU16(addr.port, PORT_MASK));
    match addr.ip {
      case V4(octets) =>
        assert encoded[1] == 0x01 && encoded[2..] == port' + XorBytes(octets, COOKIE_BYTES);
        AddressParts(value, encoded, octets, COOKIE_BYTES, addr.port);
      case V6(octets) =>
        assert encoded[1] == 0x02 && encoded[2..] == port' + XorBytes(octets, XorKey(txn));
        AddressParts(value, encoded, octets, XorKey(txn), addr.port);
    }
  }

  lemma AddressParts(value: Bytes, encoded: Bytes, octets: Bytes, key: Bytes, port: u16)
    requires |octets| <= |key| && |encoded| == 4 + |octets|
    requires encoded[2..] == Be16Bytes(XorU16(port, PORT_MASK)) + XorBytes(octets, key)
    ensures |value| >= |encoded| ==>
              ((value[1] == encoded[1] && XorU16(Be16(value[2], value[3]), PORT_MASK) == port
                && XorBytes(value[4..|encoded|], key) == octets)
               <==> value[1..|encoded|] == encoded[1..])
  {
    if |value| >= |encoded| {
      var n := |encoded|;
      assert encoded[2] == encoded[2..][0] && encoded[3] == encoded[2..][1];
      assert encoded[4..] == encoded[2..][2..];
      PortDecodesIff(value[2], value[3], port);
      OctetsDecodeIff(value[4..n], octets, key);
      assert value[1..n] == [value[1], value[2], value[3]] + value[4..n];
      assert encoded[1..] == [encoded[1], encoded[2], encoded[3]] + encoded[4..];
      if value[1..n] == encoded[1..] {
        assert value[4..n] == value[1..n][3..] == encoded[1..][3..] == encoded[4..];
        assert value[1] == value[1..n][0] && value[2] == value[1..n][1] && value[3] == value[1..n][2];
      }
    }
  }

  lemma Be16Splits(hi: byte, lo: byte, n: u16)
    ensures Be16(hi, lo) == n <==> hi == n / 0x100 && lo == n % 0x100
  {
  }

  lemma PortDecodesIff(hi: byte, lo: byte, port: u16)
    ensures XorU16(Be16(hi, lo), PORT_MASK) == port
            <==> hi == XorU16(port, PORT_MASK) / 0x100 && lo == XorU16(port, PORT_MASK) % 0x100
  {
    XorU16Undoes(port, PORT_MASK);
    XorU16Undoes(Be16(hi, lo), PORT_MASK);
    Be16Splits(hi, lo, XorU16(port, PORT_MASK));
  }

  lemma OctetsDecodeIff(data: Bytes, octets: Bytes, key: Bytes)
    requires |data| == |octets| <= |key|
    ensures XorBytes(data, key) == octets <==> data == XorBytes(octets, key)
  {
    XorBytesUndoes(octets, key);
    XorBytesUndoes(data, key);
  }

  // ------------------------------------------------------------- whole response

  function BindingResponse(bytes: Bytes, txn: TxnId): Result<SocketAddr, StunError> {
    match ParseHeader(bytes, txn)
    case Err(error) => Err(error)
    case Ok((length, body)) =>
      if |body| < length then Err(BodyShorterThanDeclared)
      else
        match FindAttribute(body[..length])
        case Err(error) => Err(error)
        case Ok(value) => MappedAddress(value, txn)
  }

  /** The 20 bytes of a success response to this transaction, by their places. */
  ghost predicate Heads(bytes: Bytes, txn: TxnId) {
    |bytes| >= 20 && bytes[0] == 0x01 && bytes[1] == 0x01
    && bytes[4..8] == [0x21, 0x12, 0xA4, 0x42] && bytes[8..20] == txn
  }

  function Declared(bytes: Bytes): nat
    requires |bytes| >= 20
  {
    var hi: nat, lo: nat := bytes[2], bytes[3];
    0x100 * hi + lo
  }

  /** The message is a success response whose declared part holds, after other padded
      attributes, XOR-MAPPED-ADDRESS with this value. */
  ghost predicate Carries(bytes: Bytes, txn: TxnId, value: Bytes) {
    && Heads(bytes, txn) && |bytes| >= 20 + Declared(bytes) && |value| < 0x1_0000
    && exists before: seq<Attribute>, rest: Bytes ::
         AllValid(before) && AllOther(before)
         && bytes[20..20 + Declared(bytes)] == Serialise(before) + (Mapped(value) + rest)
  }

  /** Every refusal by its place in the order of the checks. */
  lemma ResponseRefusals(bytes: Bytes, txn: TxnId)
    ensures var r := BindingResponse(bytes, txn);
            && (r == Err(ShorterThanHeader) <==> |bytes| < 20)
            && (r == Err(NotBindingSuccess) <==> |bytes| >= 20 && !(bytes[0] == 0x01 && bytes[1] == 0x01))
            && (r == Err(CookieMismatch)
                <==> |bytes| >= 20 && bytes[0] == 0x01 && bytes[1] == 0x01 && bytes[4..8] != [0x21, 0x12, 0xA4, 0x42])
            && (r == Err(TransactionMismatch)
                <==> |bytes| >= 20 && bytes[0] == 0x01 && bytes[1] == 0x01
                     && bytes[4..8] == [0x21, 0x12, 0xA4, 0x42] && bytes[8..20] != txn)
            && (r == Err(BodyShorterThanDeclared) <==> Heads(bytes, txn) && |bytes| < 20 + Declared(bytes))
  {
    if |bytes| >= 20 {
      if Be32(bytes[4..8]) == MAGIC_COOKIE {
        Be32Injective(bytes[4..8]);
      }
      var body := bytes[20..];
      if Be16(bytes[2], bytes[3]) <= |body| {
        ScanErrors(body[..Be16(bytes[2], bytes[3])]);
        if FindAttribute(body[..Be16(bytes[2], bytes[3])]).Ok? {
          MappedAddressMeans(FindAttribute(body[..Be16(bytes[2], bytes[3])]).value, txn);
        }
      }
    }
  }

  /** What an accepted response means, byte by byte and bit by bit. */
  lemma ResponseMeans(bytes: Bytes, txn: TxnId)
    requires BindingResponse(bytes, txn).Ok?
    ensures exists value :: Carries(bytes, txn, value) && Unmasks(value, txn, BindingResponse(bytes, txn).value)
  {
    Be32Injective(bytes[4..8]);
    var length := Declared(bytes);
    assert bytes[20..][..length] == bytes[20..20 + length];
    var value := FindAttribute(bytes[20..20 + length]).value;
    ScanFindsIff(bytes[20..20 + length], value);
    MappedAddressMeans(value, txn);
    assert Carries(bytes, txn, value);
  }

  method ParseBindingResponse(bytes: Bytes, txn: TxnId) returns (r: Result<SocketAddr, StunError>)
    ensures r == BindingResponse(bytes, txn)
    ensures r.Ok? ==> exists value :: Carries(bytes, txn, value) && Unmasks(value, txn, r.value)
  {
    if BindingResponse(bytes, txn).Ok? {
      ResponseMeans(bytes, txn);
    }
    var header := ParseHeader(bytes, txn);
    match header {
      case Err(error) => r := Err(error);
      case Ok((length, body)) =>
        if |body| < length {
          return Err(BodyShorterThanDeclared);
        }
        var attribute := FindXorMappedAddress(body[..length]);
        match attribute {
          case Err(error) => r := Err(error);
          case Ok(value) => r := ParseXorMappedAddress(value, txn);
        }
    }
  }

  /** Bytes beyond the declared length never change the result, whatever it is. */
  lemma TrailingBytesIgnored(bytes: Bytes, txn: TxnId, trailing: Bytes)
    requires |bytes| >= STUN_HEADER_LEN && |bytes| - STUN_HEADER_LEN >= Be16(bytes[2], bytes[3])
    ensures BindingResponse(bytes + trailing, txn) == BindingResponse(bytes, txn)
  {
    var length, all := Be16(bytes[2], bytes[3]), bytes + trailing;
    assert all[4..8] == bytes[4..8] && all[8..20] == bytes[8..20];
    assert all[STUN_HEADER_LEN..] == bytes[STUN_HEADER_LEN..] + trailing;
    assert all[STUN_HEADER_LEN..][..length] == bytes[STUN_HEADER_LEN..][..length];
  }

  /** The same for a response put together from its parts. */
  lemma TrailingPartIgnored(txn: TxnId, body: Bytes, trailing: Bytes)
    requires |body| < 0x1_0000
    ensures var header := Header(MESSAGE_TYPE_BINDING_SUCCESS, |body|, txn);
            BindingResponse(header + (body + trailing), txn) == BindingResponse(header + body, txn)
  {
    var header := Header(MESSAGE_TYPE_BINDING_SUCCESS, |body|, txn);
    assert header + (body + trailing) == header + body + trailing;
    HeaderAcceptedIff(header + body, txn, |body|, body);
    TrailingBytesIgnored(header + body, txn, trailing);
  }

  /** The message is a response with this body, then anything, and its body names `addr`. */
  ghost predicate Names(bytes: Bytes, txn: TxnId, addr: SocketAddr, body: Bytes, trailing: Bytes, value: Bytes) {
    && |body| < 0x1_0000
    && bytes == Header(MESSAGE_TYPE_BINDING_SUCCESS, |body|, txn) + (body + trailing)
    && FindAttribute(body) == Ok(value) && MappedAddress(value, txn) == Ok(addr)
  }

  /** A response is accepted exactly when its declared part holds, after some other
      attributes, a mapped address that decodes: nothing else is asked of it. */
  lemma ResponseAcceptedIff(bytes: Bytes, txn: TxnId, addr: SocketAddr)
    ensures BindingResponse(bytes, txn) == Ok(addr)
            <==> exists body: Bytes, trailing: Bytes, value: Bytes :: Names(bytes, txn, addr, body, trailing, value)
  {
    if BindingResponse(bytes, txn) == Ok(addr) {
      var body, trailing, value := AcceptedNames(bytes, txn, addr);
    }
    if body: Bytes, trailing: Bytes, value: Bytes :| Names(bytes, txn, addr, body, trailing, value) {
      TrailingPartIgnored(txn, body, trailing);
      ResponseOfBody(body, txn, value);
    }
  }

  lemma AcceptedNames(bytes: Bytes, txn: TxnId, addr: SocketAddr)
    returns (body: Bytes, trailing: Bytes, value: Bytes)
    requires BindingResponse(bytes, txn) == Ok(addr)
    ensures Names(bytes, txn, addr, body, trailing, value)
  {
    var (length, all) := ParseHeader(bytes, txn).value;
    HeaderAcceptedIff(bytes, txn, length, all);
    body, trailing := all[..length], all[length..];
    assert all == body + trailing;
    value := FindAttribute(body).value;
  }

  /** The attributes of a success response, in a server's hands. */
  function ResponseBody(before: seq<Attribute>, addr: SocketAddr, txn: TxnId, padding: Bytes, after: seq<Attribute>)
    : Bytes
    requires AllValid(before) && AllValid(after)
  {
    Serialise(before) + (Mapped(MappedValue(addr, txn)) + (padding + Serialise(after)))
  }

  /** Round trip: whatever attributes surround it, and whatever follows the message,
      the address a server encodes is the address the client learns. */
  lemma StunRoundTrip(addr: SocketAddr, txn: TxnId, before: seq<Attribute>, padding: Bytes,
                      after: seq<Attribute>, trailing: Bytes)
    requires AllValid(before) && AllOther(before) && AllValid(after)
    requires |ResponseBody(before, addr, txn, padding, after)| < 0x1_0000
    ensures var body := ResponseBody(before, addr, txn, padding, after);
            BindingResponse(Header(MESSAGE_TYPE_BINDING_SUCCESS, |body|, txn) + (body + trailing), txn) == Ok(addr)
  {
    var body := ResponseBody(before, addr, txn, padding, after);
    ResponseBodyFinds(before, addr, txn, padding, after);
    ResponseOfBody(body, txn, MappedValue(addr, txn));
    AddressDecodesIff(MappedValue(addr, txn), addr, txn);
    TrailingPartIgnored(txn, body, trailing);
  }

  lemma ResponseBodyFinds(before: seq<Attribute>, addr: SocketAddr, txn: TxnId, padding: Bytes,
                          after: seq<Attribute>)
    requires AllValid(before) && AllOther(before) && AllValid(after)
    ensures FindAttribute(ResponseBody(before, addr, txn, padding, after)) == Ok(MappedValue(addr, txn))
  {
    var value, rest := MappedValue(addr, txn), padding + Serialise(after);
    SkipOthers(before, Mapped(value) + rest);
    MappedReads(value, rest);
  }

  lemma ResponseOfBody(body: Bytes, txn: TxnId, value: Bytes)
    requires |body| < 0x1_0000 && FindAttribute(body) == Ok(value)
    ensures BindingResponse(Header(MESSAGE_TYPE_BINDING_SUCCESS, |body|, txn) + body, txn) == MappedAddress(value, txn)
  {
    HeaderAcceptedIff(Header(MESSAGE_TYPE_BINDING_SUCCESS, |body|, txn) + body, txn, |body|, body);
    assert body[..|body|] == body;
  }
}
