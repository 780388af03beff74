/** The SIFT record layouts: how an instruction or another record becomes bytes, and how the first byte
    tells the reader which layout follows. */
module SiftFormat {
  import opened Wrappers

  type byte = x: int | 0 <= x < 256
  type u64 = x: int | 0 <= x < 0x1_0000_0000_0000_0000

  // ----- little-endian integers

  function Pow256(k: nat): nat {
    if k == 0 then 1 else 256 * Pow256(k - 1)
  }

  function ToBytes(v: nat, k: nat): (b: seq<byte>)
    ensures |b| == k
  {
    if k == 0 then [] else [v % 256] + ToBytes(v / 256, k - 1)
  }

  function FromBytes(b: seq<byte>): nat {
    if b == [] then 0 else b[0] + 256 * FromBytes(b[1..])
  }

  lemma {:induction false} BytesRoundTrip(v: nat, k: nat)
    requires v < Pow256(k)
    ensures FromBytes(ToBytes(v, k)) == v
  {
    if k > 0 {
      BytesRoundTrip(v / 256, k - 1);
      assert ToBytes(v, k)[1..] == ToBytes(v / 256, k - 1);
    }
  }

  lemma Pow256Eight()
    ensures Pow256(8) == 0x1_0000_0000_0000_0000 && Pow256(4) == 0x1_0000_0000
  {
    assert Pow256(4) == 256 * Pow256(3) == 256 * (256 * Pow256(2)) == 256 * (256 * (256 * Pow256(1)));
    assert Pow256(8) == 256 * Pow256(7) == 256 * (256 * Pow256(6)) == 256 * (256 * (256 * Pow256(5)));
    assert Pow256(5) == 256 * Pow256(4);
  }

  // ----- records

  datatype Record =
    | Simple(size: nat, isBranch: bool, taken: bool, addresses: seq<u64>)
    | Extended(size: nat, isBranch: bool, taken: bool, isPredicate: bool, executed: bool, addr: u64,
        addresses: seq<u64>)
    | Other(kind: byte, data: seq<byte>)

  const MAX_DYNAMIC_ADDRESSES: nat := 2

  /** What the bit fields can hold, which is all that the writer asserts. */
  predicate Fits(r: Record) {
    match r
    case Simple(size, _, _, addresses) => size < 16 && |addresses| <= MAX_DYNAMIC_ADDRESSES
    case Extended(size, _, _, _, _, _, addresses) => size < 16 && |addresses| <= MAX_DYNAMIC_ADDRESSES
    case Other(_, data) => |data| < 0x1_0000_0000
  }

  /** Not an instruction of size zero, which would blur the layouts. */
  predicate Sized(r: Record) {
    r.Other? || r.size != 0
  }

  function Bit(b: bool, weight: nat): nat { if b then weight else 0 }

  function EncodeAddresses(a: seq<u64>): (b: seq<byte>)
    ensures |b| == 8 * |a|
  {
    if a == [] then [] else ToBytes(a[0], 8) + EncodeAddresses(a[1..])
  }

  function FirstByte(r: Record): byte
    requires Fits(r)
  {
    match r
    case Simple(size, br, taken, addresses) => size + 16 * |addresses| + Bit(br, 64) + Bit(taken, 128)
    case Extended(size, _, _, _, _, _, _) => 16 * size
    case Other(_, _) => 0
  }

  function Encode(r: Record): (b: seq<byte>)
    requires Fits(r)
    ensures |b| >= 1 && b[0] == FirstByte(r)
  {
    match r
    case Simple(size, br, taken, addresses) => [FirstByte(r)] + EncodeAddresses(addresses)
    case Extended(size, br, taken, pred, exec, addr, addresses) =>
      var flags: byte := |addresses| + Bit(br, 4) + Bit(taken, 8) + Bit(pred, 16) + Bit(exec, 32);
      [FirstByte(r), flags] + ToBytes(addr, 8) + EncodeAddresses(addresses)
    case Other(kind, data) => [0, kind] + ToBytes(|data|, 4) + data
  }

  /** The three layouts never start with the same byte: zero, low nibble zero, low nibble not zero. */
  lemma DispatchUnambiguous(r: Record)
    requires Fits(r) && Sized(r)
    ensures r.Other? <==> Encode(r)[0] == 0
    ensures r.Extended? <==> Encode(r)[0] != 0 && Encode(r)[0] % 16 == 0
    ensures r.Simple? <==> Encode(r)[0] % 16 != 0
  {
  }

  // ----- decoding

  function DecodeAddresses(b: seq<byte>, n: nat): (r: Option<(seq<u64>, seq<byte>)>)
    ensures r.Some? ==> |r.value.0| == n && |r.value.1| <= |b|
  {
    if n == 0 then Some(([], b))
    else if |b| < 8 then None
    else
      match DecodeAddresses(b[8..], n - 1)
      case None => None
      case Some((words, rest)) => Some(([FromBytes(b[..8]) % 0x1_0000_0000_0000_0000] + words, rest))
  }

  /** One record from the front of the stream, dispatched on its first byte. */
  function Decode(b: seq<byte>): (r: Option<(Record, seq<byte>)>)
    ensures r.Some? ==> |r.value.1| < |b|
  {
    if b == [] then None
    else if b[0] == 0 then DecodeOther(b)
    else if b[0] % 16 != 0 then
      match DecodeAddresses(b[1..], (b[0] / 16) % 4)
      case None => None
      case Some((words, rest)) => Some((Simple(b[0] % 16, (b[0] / 64) % 2 == 1, b[0] / 128 == 1, words), rest))
    else if |b| < 10 then None
    else
      match DecodeAddresses(b[10..], b[1] % 4)
      case None => None
      case Some((words, rest)) =>
        Some((Extended(b[0] / 16, (b[1] / 4) % 2 == 1, (b[1] / 8) % 2 == 1, (b[1] / 16) % 2 == 1, (b[1] / 32) % 2 == 1,
                       FromBytes(b[2..10]) % 0x1_0000_0000_0000_0000, words), rest))
  }

  function DecodeOther(b: seq<byte>): (r: Option<(Record, seq<byte>)>)
    requires b != []
    ensures r.Some? ==> |r.value.1| < |b|
  {
    if |b| < 6 then None
    else
      var size := FromBytes(b[2..6]);
      if |b| < 6 + size then None else Some((Other(b[1], b[6..6 + size]), b[6 + size..]))
  }

  // ----- round trip

  lemma AddressRoundTrip(a: u64)
    ensures FromBytes(ToBytes(a, 8)) % 0x1_0000_0000_0000_0000 == a
  {
    Pow256Eight();
    BytesRoundTrip(a, 8);
  }

  lemma {:induction false} AddressesRoundTrip(a: seq<u64>, rest: seq<byte>)
    ensures DecodeAddresses(EncodeAddresses(a) + rest, |a|) == Some((a, rest))
  {
    hide ToBytes, FromBytes;
    if a == [] {
      assert EncodeAddresses(a) + rest == rest;
    } else {
      var b := EncodeAddresses(a) + rest;
      assert b[..8] == ToBytes(a[0], 8);
      assert b[8..] == EncodeAddresses(a[1..]) + rest;
      AddressesRoundTrip(a[1..], rest);
      AddressRoundTrip(a[0]);
      assert [a[0]] + a[1..] == a;
    }
  }

  /** The bit fields of the first byte of a simple record do not interfere. */
  lemma SimpleBits(size: nat, n: nat, br: bool, taken: bool)
    requires 1 <= size < 16 && n <= 3
    ensures var b := size + 16 * n + Bit(br, 64) + Bit(taken, 128);
            b % 16 == size && (b / 16) % 4 == n && ((b / 64) % 2 == 1 <==> br) && (b / 128 == 1 <==> taken)
  {
  }

  /** Nor do the flags of an extended record. */
  lemma FlagBits(n: nat, br: bool, taken: bool, pred: bool, exec: bool)
    requires n <= 3
    ensures var b := n + Bit(br, 4) + Bit(taken, 8) + Bit(pred, 16) + Bit(exec, 32);
            b % 4 == n && ((b / 4) % 2 == 1 <==> br) && ((b / 8) % 2 == 1 <==> taken)
            && ((b / 16) % 2 == 1 <==> pred) && ((b / 32) % 2 == 1 <==> exec)
  {
  }

  lemma SimpleRoundTrip(r: Record, rest: seq<byte>)
    requires r.Simple? && Fits(r) && Sized(r)
    ensures Decode(Encode(r) + rest) == Some((r, rest))
  {
    hide EncodeAddresses, DecodeAddresses, Bit;
    var b := Encode(r) + rest;
    assert b[1..] == EncodeAddresses(r.addresses) + rest;
    AddressesRoundTrip(r.addresses, rest);
    SimpleBits(r.size, |r.addresses|, r.isBranch, r.taken);
  }

  function Flags(r: Record): byte
    requires r.Extended? && Fits(r) && Sized(r)
  {
    |r.addresses| + Bit(r.isBranch, 4) + Bit(r.taken, 8) + Bit(r.isPredicate, 16) + Bit(r.executed, 32)
  }

  /** The parts of an encoded extended record. */
  lemma ExtendedBytes(r: Record, rest: seq<byte>)
    requires r.Extended? && Fits(r) && Sized(r)
    ensures var b := Encode(r) + rest;
            && |b| >= 10 && b[0] == 16 * r.size && b[1] == Flags(r)
            && b[2..10] == ToBytes(r.addr, 8) && b[10..] == EncodeAddresses(r.addresses) + rest
  {
    hide EncodeAddresses, Bit, ToBytes;
  }

  lemma ExtendedRoundTrip(r: Record, rest: seq<byte>)
    requires r.Extended? && Fits(r) && Sized(r)
    ensures Decode(Encode(r) + rest) == Some((r, rest))
  {
    hide Encode, EncodeAddresses, DecodeAddresses, Bit, ToBytes, FromBytes;
    ExtendedBytes(r, rest);
    AddressesRoundTrip(r.addresses, rest);
    AddressRoundTrip(r.addr);
    FlagBits(|r.addresses|, r.isBranch, r.taken, r.isPredicate, r.executed);
  }

  lemma OtherRoundTrip(r: Record, rest: seq<byte>)
    requires r.Other? && Fits(r) && Sized(r)
    ensures Decode(Encode(r) + rest) == Some((r, rest))
  {
    var b := Encode(r) + rest;
    assert b[2..6] == ToBytes(|r.data|, 4);
    Pow256Eight();
    BytesRoundTrip(|r.data|, 4);
    assert b[6..6 + |r.data|] == r.data && b[6 + |r.data|..] == rest;
  }

  /** No instruction of size zero is ever read. */
  lemma DecodedSized(b: seq<byte>)
    ensures Decode(b).Some? ==> Sized(Decode(b).value.0)
  {
    hide DecodeAddresses;
  }

  /** A record that the writer accepts is read back exactly, whatever follows it in the stream, if and only
      if it is not an instruction of size zero. */
  lemma RecordRoundTrip(r: Record, rest: seq<byte>)
    requires Fits(r)
    ensures Decode(Encode(r) + rest) == Some((r, rest)) <==> Sized(r)
  {
    if !Sized(r) {
      DecodedSized(Encode(r) + rest);
      return;
    }
    match r
    case Simple(_, _, _, _) => SimpleRoundTrip(r, rest);
    case Extended(_, _, _, _, _, _, _) => ExtendedRoundTrip(r, rest);
    case Other(_, _) => OtherRoundTrip(r, rest);
  }
}
