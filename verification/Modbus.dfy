/** The Modbus/TCP client of the door controller: requests, and the decoding of coils and registers. */
module Modbus {
  import opened Bytes

  const MAX_MSG_LENGTH := 260
  const READ_COILS: byte := 0x01
  const READ_REGS: byte := 0x03
  const WRITE_COILS: byte := 0x0F
  const WRITE_REGS: byte := 0x10
  const EX_BAD_DATA := 0xFF
  const BAD_CON := -1

  // ---- Bits ------------------------------------------------------------------------------------

  function Pow2(k: nat): (p: nat)
    ensures p >= 1
  {
    if k == 0 then 1 else 2 * Pow2(k - 1)
  }

  lemma Pow2Values()
    ensures Pow2(0) == 1 && Pow2(1) == 2 && Pow2(2) == 4 && Pow2(3) == 8 && Pow2(4) == 16 && Pow2(5) == 32
    ensures Pow2(6) == 64 && Pow2(7) == 128 && Pow2(8) == 256
  {
    assert Pow2(3) == 2 * Pow2(2);
    assert Pow2(5) == 2 * Pow2(4);
    assert Pow2(7) == 2 * Pow2(6);
  }

  /** (b >> k) & 1, as a truth value. */
  function Bit(b: nat, k: nat): bool {
    b / Pow2(k) % 2 == 1
  }

  function Value(bit: bool): nat {
    if bit then 1 else 0
  }

  /** The number whose binary digits are bits, the first one lowest. */
  function FromBits(bits: seq<bool>): (v: nat)
    ensures v < Pow2(|bits|)
  {
    if bits == [] then 0 else Value(bits[0]) + 2 * FromBits(bits[1..])
  }

  /** Adding one more bit at its own weight carries into nothing. */
  lemma {:induction false} FromBitsSnoc(bits: seq<bool>, bit: bool)
    ensures FromBits(bits + [bit]) == FromBits(bits) + Value(bit) * Pow2(|bits|)
  {
    if bits == [] {
      assert [bit][1..] == [] && [] + [bit] == [bit];
    } else {
      var p := Pow2(|bits| - 1);
      FromBitsSnoc(bits[1..], bit);
      assert (bits + [bit])[1..] == bits[1..] + [bit];
      assert FromBits(bits + [bit]) == Value(bits[0]) + 2 * (FromBits(bits[1..]) + Value(bit) * p);
      assert 2 * (Value(bit) * p) == Value(bit) * (2 * p);
    }
  }

  lemma HalfDiv(v: nat, k: nat)
    ensures v / Pow2(k + 1) == v / 2 / Pow2(k)
  {
    var p := Pow2(k);
    var q, r := v / 2 / p, v / 2 % p;
    assert v == 2 * (p * q + r) + v % 2;
    assert v == (2 * p) * q + (2 * r + v % 2);
    DivUnique(v, 2 * p, q, 2 * r + v % 2);
  }

  /** The digits come back, and above them there is nothing. */
  lemma {:induction false} BitOfFromBits(bits: seq<bool>, k: nat)
    ensures Bit(FromBits(bits), k) <==> k < |bits| && bits[k]
  {
    if bits == [] {
      assert 0 / Pow2(k) == 0;
    } else {
      var v := FromBits(bits);
      if k > 0 {
        HalfDiv(v, k - 1);
        assert v / 2 == FromBits(bits[1..]);
        BitOfFromBits(bits[1..], k - 1);
      } else {
        assert v / Pow2(0) == v;
      }
    }
  }

  // ---- Coils: eight to a byte, the lowest address in the lowest bit ----------------------------

  function Eighth(bits: seq<bool>, j: nat): seq<bool>
    requires 8 * j <= |bits|
  {
    bits[8 * j..if 8 * j + 8 <= |bits| then 8 * j + 8 else |bits|]
  }

  function PackedByte(bits: seq<bool>, j: nat): byte {
    if 8 * j >= |bits| then 0
    else Pow2Values(); ByteBound(Eighth(bits, j)); FromBits(Eighth(bits, j))
  }

  lemma {:induction false} ByteBound(bits: seq<bool>)
    requires |bits| <= 8
    ensures FromBits(bits) < 256
  {
    Pow2Values();
    Pow2Monotonic(|bits|, 8);
  }

  lemma {:induction false} Pow2Monotonic(a: nat, b: nat)
    requires a <= b
    ensures Pow2(a) <= Pow2(b)
    decreases b
  {
    if a < b {
      Pow2Monotonic(a, b - 1);
    }
  }

  /** The first n bytes of packed coils, with zeros behind the last coil. */
  function PackInto(bits: seq<bool>, n: nat): (bytes: seq<byte>)
    ensures |bytes| == n
  {
    seq<byte>(n, j requires 0 <= j => PackedByte(bits, j))
  }

  function Pack(bits: seq<bool>): (bytes: seq<byte>)
    ensures |bytes| == (|bits| + 7) / 8
  {
    PackInto(bits, (|bits| + 7) / 8)
  }

  lemma OtherByte(bits: seq<bool>, i: nat, j: nat)
    requires i < |bits| && j != i / 8
    ensures PackedByte(bits[..i + 1], j) == PackedByte(bits[..i], j)
  {
    hide FromBits;
    if j < i / 8 {
      var from, to := 8 * j, 8 * j + 8;
      assert to <= i;
      assert bits[..i + 1][from..to] == bits[from..to];
      assert bits[..i][from..to] == bits[from..to];
    }
  }

  lemma OwnByte(bits: seq<bool>, i: nat)
    requires i < |bits|
    ensures PackedByte(bits[..i + 1], i / 8) == PackedByte(bits[..i], i / 8) + Value(bits[i]) * Pow2(i % 8)
  {
    var j := i / 8;
    var was := if 8 * j < i then Eighth(bits[..i], j) else [];
    assert Eighth(bits[..i + 1], j) == was + [bits[i]];
    FromBitsSnoc(was, bits[i]);
  }

  /** Adding coil i to its byte: no carry, and no other byte changes. */
  lemma PackStep(bits: seq<bool>, i: nat, n: nat)
    requires i < |bits| && i / 8 < n
    ensures var was := PackInto(bits[..i], n);
            was[i / 8] + Value(bits[i]) * Pow2(i % 8) < 256
            && PackInto(bits[..i + 1], n) == was[i / 8 := was[i / 8] + Value(bits[i]) * Pow2(i % 8)]
  {
    hide PackedByte, Value;
    OwnByte(bits, i);
    forall j: nat | j < n && j != i / 8
      ensures PackedByte(bits[..i + 1], j) == PackedByte(bits[..i], j)
    {
      OtherByte(bits, i, j);
    }
  }

  /** Coil i, as the client reads it out of the data bytes. */
  function CoilAt(data: seq<byte>, i: nat): bool
    requires i / 8 < |data|
  {
    Bit(data[i / 8], i % 8)
  }

  /** Reading coil i out of packed coils gives coil i, and the unused bits of the last byte are 0. */
  lemma CoilOfPacked(bits: seq<bool>, i: nat)
    requires i / 8 < (|bits| + 7) / 8
    ensures CoilAt(Pack(bits), i) <==> i < |bits| && bits[i]
  {
    var j := i / 8;
    assert Pack(bits)[j] == PackedByte(bits, j);
    BitOfFromBits(Eighth(bits, j), i % 8);
  }

  // ---- Registers: two bytes each, the high one first -------------------------------------------

  function RegisterBytes(values: seq<uint16>): (bytes: seq<byte>)
    ensures |bytes| == 2 * |values|
  {
    if values == [] then []
    else RegisterBytes(values[..|values| - 1]) + [values[|values| - 1] / 256, values[|values| - 1] % 256]
  }

  function RegisterAt(data: seq<byte>, i: nat): uint16
    requires 2 * i + 1 < |data|
  {
    data[2 * i] as int * 256 + data[2 * i + 1] as int
  }

  lemma {:induction false} RegisterOfBytes(values: seq<uint16>, i: nat)
    requires i < |values|
    ensures RegisterAt(RegisterBytes(values), i) == values[i]
    decreases |values|
  {
    if i < |values| - 1 {
      RegisterOfBytes(values[..|values| - 1], i);
    }
  }

  // ---- Requests --------------------------------------------------------------------------------

  /** The two low bytes of a number, as the shifts and casts cut them out. */
  function High(v: nat): byte {
    v / 256 % 256
  }

  function Low(v: nat): byte {
    v % 256
  }

  /** The MBAP header with an 8-bit length, the function code and the address. */
  function Header(msgId: uint32, length: byte, slaveId: int, func: byte, address: uint16): (h: seq<byte>)
    ensures |h| == 10
  {
    [High(msgId), Low(msgId), 0, 0, 0, length, slaveId % 256, func, High(address), Low(address)]
  }

  function ReadRequest(msgId: uint32, slaveId: int, func: byte, address: uint16, amount: uint16): seq<byte> {
    Header(msgId, 6, slaveId, func, address) + [High(amount), Low(amount)]
  }

  /** A request that writes several values: their amount, the size of the data and the data follow the header. */
  function MultipleWrite(msgId: uint32, slaveId: int, func: byte, address: uint16, amount: uint16, data: seq<byte>)
    : seq<byte>
  {
    Header(msgId, (7 + |data|) % 256, slaveId, func, address) + [High(amount), Low(amount), |data| % 256] + data
  }

  function RegistersRequest(msgId: uint32, slaveId: int, address: uint16, values: seq<uint16>): seq<byte>
    requires |values| < 0x1_0000
  {
    MultipleWrite(msgId, slaveId, WRITE_REGS, address, |values|, RegisterBytes(values))
  }

  function CoilsRequest(msgId: uint32, slaveId: int, address: uint16, bits: seq<bool>): seq<byte>
    requires |bits| < 0x1_0000
  {
    MultipleWrite(msgId, slaveId, WRITE_COILS, address, |bits|, Pack(bits))
  }

  /** A request as a server reads it: the MBAP header (MODBUS Messaging on TCP/IP Implementation Guide V1.0b,
      section 3.1.3), the address, the amount or value, and the data of a multiple write. */
  datatype Adu = Adu(transaction: uint16, unit: byte, func: byte, address: uint16, amount: uint16, data: seq<byte>)

  function BigEndian(b: seq<byte>, i: nat): uint16
    requires i + 1 < |b|
  {
    b[i] as int * 256 + b[i + 1] as int
  }

  /** None for a frame whose protocol id, length or byte count is wrong. */
  function ParseRequest(b: seq<byte>): Option<Adu> {
    if |b| < 12 || BigEndian(b, 2) != 0 || BigEndian(b, 4) != |b| - 6 then None
    else if b[7] == 15 || b[7] == 16 then
      if |b| < 13 || b[12] != |b| - 13 then None
      else Some(Adu(BigEndian(b, 0), b[6], b[7], BigEndian(b, 8), BigEndian(b, 10), b[13..]))
    else if |b| != 12 then None
    else Some(Adu(BigEndian(b, 0), b[6], b[7], BigEndian(b, 8), BigEndian(b, 10), []))
  }

  lemma ReadRequestParses(msgId: uint32, slaveId: int, func: byte, address: uint16, amount: uint16)
    requires func == 1 || func == 3
    ensures ParseRequest(ReadRequest(msgId, slaveId, func, address, amount))
         == Some(Adu(msgId % 0x1_0000, slaveId % 256, func, address, amount, []))
  {
    hide High, Low;
    TwoBytes(msgId);
    TwoBytes(address);
    TwoBytes(amount);
  }

  lemma TwoBytes(v: nat)
    ensures High(v) * 256 + Low(v) == v % 0x1_0000
  {
    var q := v / 256;
    assert v == 0x1_0000 * (q / 256) + (256 * (q % 256) + v % 256);
    DivUnique(v, 0x1_0000, q / 256, 256 * (q % 256) + v % 256);
  }

  /** A server takes a multiple write as it was meant iff there are at most 248 data bytes, and rejects it
      otherwise: the 8-bit length then no longer gives the size. */
  lemma MultipleWriteParsesIff(msgId: uint32, slaveId: int, func: byte, address: uint16, amount: uint16,
                               data: seq<byte>)
    requires func == 15 || func == 16
    ensures ParseRequest(MultipleWrite(msgId, slaveId, func, address, amount, data))
         == if |data| <= 248 then Some(Adu(msgId % 0x1_0000, slaveId % 256, func, address, amount, data)) else None
  {
    hide High, Low;
    TwoBytes(msgId);
    TwoBytes(address);
    TwoBytes(amount);
    assert MultipleWrite(msgId, slaveId, func, address, amount, data)[13..] == data;
  }

  /** That is at most 1984 coils; the 1968 that section 6.11 of MODBUS Application Protocol Specification V1.1b3
      allows are few enough. */
  lemma CoilsRequestParsesIff(msgId: uint32, slaveId: int, address: uint16, bits: seq<bool>)
    requires |bits| < 0x1_0000
    ensures ParseRequest(CoilsRequest(msgId, slaveId, address, bits))
         == if |bits| <= 1984 then Some(Adu(msgId % 0x1_0000, slaveId % 256, 15, address, |bits|, Pack(bits)))
            else None
  {
    hide ParseRequest, MultipleWrite, Pack;
    MultipleWriteParsesIff(msgId, slaveId, WRITE_COILS, address, |bits|, Pack(bits));
  }

  /** And at most 124 registers; section 6.12 allows 123. */
  lemma RegistersRequestParsesIff(msgId: uint32, slaveId: int, address: uint16, values: seq<uint16>)
    requires |values| < 0x1_0000
    ensures ParseRequest(RegistersRequest(msgId, slaveId, address, values))
         == if |values| <= 124
            then Some(Adu(msgId % 0x1_0000, slaveId % 256, 16, address, |values|, RegisterBytes(values)))
            else None
  {
    hide ParseRequest, MultipleWrite, RegisterBytes;
    MultipleWriteParsesIff(msgId, slaveId, WRITE_REGS, address, |values|, RegisterBytes(values));
  }

  // ---- The examples of MODBUS Application Protocol Specification V1.1b3 ------------------------

  /** Sections 6.1 and 6.3: reading 19 coils from address 0x13, and 3 registers from address 0x6B. */
  lemma ReadExamples(msgId: uint32, slaveId: int)
    ensures ReadRequest(msgId, slaveId, 1, 0x13, 19)[7..] == [0x01, 0x00, 0x13, 0x00, 0x13]
    ensures ReadRequest(msgId, slaveId, 3, 0x6B, 3)[7..] == [0x03, 0x00, 0x6B, 0x00, 0x03]
  {
  }

  /** What follows the MBAP header of a multiple write. */
  lemma WriteTail(msgId: uint32, slaveId: int, func: byte, address: uint16, amount: uint16, data: seq<byte>)
    ensures MultipleWrite(msgId, slaveId, func, address, amount, data)[7..]
         == [func, High(address), Low(address), High(amount), Low(amount), |data| % 256] + data
  {
  }

  /** Section 6.11: writing ten coils from address 0x13. */
  lemma WriteCoilsExample(msgId: uint32, slaveId: int)
    ensures CoilsRequest(msgId, slaveId, 0x13, [true, false, true, true, false, false, true, true, true, false])[7..]
         == [0x0F, 0x00, 0x13, 0x00, 0x0A, 0x02, 0xCD, 0x01]
  {
    var bits := [true, false, true, true, false, false, true, true, true, false];
    ExamplePack(bits);
    hide Pack, MultipleWrite, High, Low;
    WriteTail(msgId, slaveId, 15, 0x13, 10, [0xCD, 0x01]);
    LowBytes(0x13);
    LowBytes(10);
  }

  lemma LowBytes(v: byte)
    ensures High(v) == 0 && Low(v) == v
  {
  }

  lemma ExamplePack(bits: seq<bool>)
    requires bits == [true, false, true, true, false, false, true, true, true, false]
    ensures Pack(bits) == [0xCD, 0x01]
  {
    ExampleBytes(bits);
    hide FromBits, PackedByte;
    assert |Pack(bits)| == 2 && Pack(bits)[0] == PackedByte(bits, 0) && Pack(bits)[1] == PackedByte(bits, 1);
  }

  lemma ExampleBytes(bits: seq<bool>)
    requires bits == [true, false, true, true, false, false, true, true, true, false]
    ensures PackedByte(bits, 0) == 0xCD && PackedByte(bits, 1) == 0x01
  {
    assert Eighth(bits, 0) == [true, false, true, true, false, false, true, true];
    assert Eighth(bits, 1) == [true, false];
    assert FromBits([true, true]) == 3;
    assert FromBits([false, false, true, true]) == 12 by {
      assert [false, false, true, true][1..] == [false, true, true];
      assert [false, true, true][1..] == [true, true];
    }
    assert FromBits([true, true, false, false, true, true]) == 51 by {
      assert [true, true, false, false, true, true][1..] == [true, false, false, true, true];
      assert [true, false, false, true, true][1..] == [false, false, true, true];
    }
    assert FromBits([true, false, true, true, false, false, true, true]) == 0xCD by {
      assert [true, false, true, true, false, false, true, true][1..] == [false, true, true, false, false, true, true];
      assert [false, true, true, false, false, true, true][1..] == [true, true, false, false, true, true];
    }
    assert FromBits([true, false]) == 1 by {
      assert [true, false][1..] == [false] && [false][1..] == [];
    }
  }

  /** Section 6.12: writing two registers from address 1. */
  lemma WriteRegistersExample(msgId: uint32, slaveId: int)
    ensures RegistersRequest(msgId, slaveId, 1, [0x000A, 0x0102])[7..]
         == [0x10, 0x00, 0x01, 0x00, 0x02, 0x04, 0x00, 0x0A, 0x01, 0x02]
  {
    var values: seq<uint16> := [0x000A, 0x0102];
    assert values[..1] == [0x000A] && values[..1][..0] == [];
    assert RegisterBytes(values) == [0x00, 0x0A, 0x01, 0x02];
    hide RegisterBytes, MultipleWrite;
    WriteTail(msgId, slaveId, 16, 1, 2, [0x00, 0x0A, 0x01, 0x02]);
  }

  /** The replies of sections 6.1 and 6.3: coil 20, the lowest, is on and coil 21 off; the registers are 555, 0, 100. */
  lemma ReplyExamples()
    ensures var coils := [0xCD, 0x6B, 0x05];
            CoilAt(coils, 0) && !CoilAt(coils, 1) && CoilAt(coils, 7) && CoilAt(coils, 8) && !CoilAt(coils, 17)
            && CoilAt(coils, 18)
    ensures var registers := [0x02, 0x2B, 0x00, 0x00, 0x00, 0x64];
            RegisterAt(registers, 0) == 555 && RegisterAt(registers, 1) == 0 && RegisterAt(registers, 2) == 100
  {
    Pow2Values();
  }

  /** The two ways to count the data bytes of coils, as C computes them. */
  function AllocatedForCoils(amount: uint16): nat {
    14 + if amount == 0 then 0 else (amount - 1) / 8
  }

  lemma AllocationExactIff(amount: uint16)
    ensures AllocatedForCoils(amount) == 13 + (amount + 7) / 8 <==> amount >= 1
  {
  }

  /** Every byte that decoding looks at lies in the client's receive buffer iff the amount is at most 2008 coils or 125
      registers. The coils' own guard is 2040; registers have none. */
  lemma DecodingInBoundsIff(amount: uint16)
    ensures (forall i: nat | i < amount :: CoilByte(i) < MAX_MSG_LENGTH) <==> amount <= 2008
    ensures (forall i: nat | i < amount :: RegisterByte(i) + 1 < MAX_MSG_LENGTH) <==> amount <= 125
  {
    if amount > 2008 {
      assert CoilByte(2008) >= MAX_MSG_LENGTH;
    }
    if amount > 125 {
      assert RegisterByte(125) + 1 >= MAX_MSG_LENGTH;
    }
  }

  /** Where coil i and register i are in a reply. */
  function CoilByte(i: nat): nat {
    9 + i / 8
  }

  function RegisterByte(i: nat): nat {
    9 + 2 * i
  }

  /** Coils written by WriteCoils and read back come back as they were, whatever the amount: the data bytes of the
      request are what ReadCoils decodes, bit by bit, when the server answers with them. */
  lemma WrittenCoilsReadBack(msgId: uint32, slaveId: int, address: uint16, bits: seq<bool>, reply: seq<byte>)
    requires |bits| < 0x1_0000 && |reply| >= 9
    requires reply[9..] == CoilsRequest(msgId, slaveId, address, bits)[13..]
    ensures forall i :: 0 <= i < |bits| ==> 9 + i / 8 < |reply| && CoilAt(reply[9..], i) == bits[i]
  {
    hide Pack, Bit;
    assert reply[9..] == Pack(bits);
    forall i | 0 <= i < |bits|
      ensures 9 + i / 8 < |reply| && CoilAt(reply[9..], i) == bits[i]
    {
      CoilOfPacked(bits, i);
    }
  }

  /** The same for registers. */
  lemma WrittenRegistersReadBack(msgId: uint32, slaveId: int, address: uint16, values: seq<uint16>, reply: seq<byte>)
    requires |values| < 0x1_0000 && |reply| >= 9
    requires reply[9..] == RegistersRequest(msgId, slaveId, address, values)[13..]
    ensures forall i :: 0 <= i < |values| ==> 10 + 2 * i < |reply| && RegisterAt(reply[9..], i) == values[i]
  {
    hide RegisterBytes, RegisterAt;
    assert reply[9..] == RegisterBytes(values);
    forall i | 0 <= i < |values|
      ensures 10 + 2 * i < |reply| && RegisterAt(reply[9..], i) == values[i]
    {
      RegisterOfBytes(values, i);
    }
  }

  lemma ByteSum(a: byte, v: nat, p: nat)
    requires a + v * p < 256
    ensures (a + v * p % 256) % 256 == a + v * p
  {
    assert v * p >= 0;
  }

  // ---- The client ------------------------------------------------------------------------------

  class Client {
    var connected: bool
    var msgId: uint32
    var slaveId: int
    var err: bool
    /** Returned for an exception reply; no operation sets it. */
    var errNo: int
    /** Every frame handed to the socket. */
    var sent: seq<seq<byte>>

    constructor ()
      ensures !connected && msgId == 1 && slaveId == 1 && !err && errNo == 0 && sent == []
    {
      connected, msgId, slaveId, err, errNo, sent := false, 1, 1, false, 0, [];
    }

    /** Fills everything but the length byte. */
    method BuildRequest(toSend: array<byte>, address: uint16, func: byte)
      requires toSend.Length >= 12
      modifies toSend
      ensures toSend[..10] == Header(msgId, old(toSend[5]), slaveId, func, address)
      ensures toSend[10..] == old(toSend[10..])
    {
      toSend[0] := High(msgId);
      toSend[1] := Low(msgId);
      toSend[2] := 0;
      toSend[3] := 0;
      toSend[4] := 0;
      toSend[6] := slaveId % 256;
      toSend[7] := func;
      toSend[8] := High(address);
      toSend[9] := Low(address);
    }

    /** The first 13 bytes of a request that writes several values, given the number of data bytes behind them. */
    method BuildWrite(toSend: array<byte>, address: uint16, func: byte, amount: uint16, dataBytes: nat)
      requires toSend.Length >= 13
      modifies toSend
      ensures toSend[..13] == Header(msgId, (7 + dataBytes) % 256, slaveId, func, address)
                              + [High(amount), Low(amount), dataBytes % 256]
    {
      BuildRequest(toSend, address, func);
      hide Header;
      toSend[5] := (7 + dataBytes) % 256;
      toSend[10] := High(amount);
      toSend[11] := Low(amount);
      toSend[12] := dataBytes % 256;
    }

    method Send(toSend: array<byte>)
      modifies this`msgId, this`sent
      ensures sent == old(sent) + [toSend[..]] && msgId == (old(msgId) + 1) % 0x1_0000_0000
    {
      msgId := (msgId + 1) % 0x1_0000_0000;
      sent := sent + [toSend[..]];
    }

    static method StoreRegisters(toSend: array<byte>, value: seq<uint16>)
      requires toSend.Length == 13 + 2 * |value|
      modifies toSend
      ensures toSend[..] == old(toSend[..13]) + RegisterBytes(value)
    {
      for i := 0 to |value|
        invariant toSend[..13 + 2 * i] == old(toSend[..13]) + RegisterBytes(value[..i])
      {
        ghost var was := toSend[..13 + 2 * i];
        toSend[13 + 2 * i] := value[i] / 256;
        toSend[14 + 2 * i] := value[i] % 256;
        assert value[..i + 1][..i] == value[..i];
        assert toSend[..13 + 2 * (i + 1)] == was + [value[i] / 256, value[i] % 256];
      }
      assert value[..|value|] == value;
      assert toSend[..] == toSend[..13 + 2 * |value|];
    }

    method WriteRegs(address: uint16, value: seq<uint16>)
      requires |value| < 0x1_0000
      modifies this`msgId, this`sent
      ensures sent == old(sent) + [RegistersRequest(old(msgId), slaveId, address, value)]
      ensures msgId == (old(msgId) + 1) % 0x1_0000_0000
    {
      hide RegisterBytes;
      var amount := |value|;
      var toSend := new byte[13 + 2 * amount];
      BuildWrite(toSend, address, WRITE_REGS, amount, 2 * amount);
      StoreRegisters(toSend, value);
      Send(toSend);
    }

    static method ClearCoils(toSend: array<byte>, n: nat)
      requires toSend.Length >= 13 + n
      modifies toSend
      ensures toSend[..13] == old(toSend[..13])
      ensures forall j :: 13 <= j < 13 + n ==> toSend[j] == 0
    {
      for i := 0 to n
        invariant toSend[..13] == old(toSend[..13])
        invariant forall j :: 13 <= j < 13 + i ==> toSend[j] == 0
      {
        toSend[13 + i] := 0;
      }
    }

    /** to_send[13 + i / 8] += (uint8_t)(value << i % 8), in byte arithmetic. */
    static method AddCoil(toSend: array<byte>, i: nat, value: uint16, n: nat, ghost bits: seq<bool>)
      requires i < |bits| && value == Value(bits[i]) && i / 8 < n && toSend.Length >= 13 + n
      requires toSend[13..13 + n] == PackInto(bits[..i], n)
      modifies toSend
      ensures toSend[..13] == old(toSend[..13])
      ensures toSend[13..13 + n] == PackInto(bits[..i + 1], n)
    {
      hide PackInto, FromBits, Pow2, Value;
      ghost var was := toSend[13..13 + n];
      PackStep(bits, i, n);
      assert was[i / 8] == toSend[13 + i / 8];
      ghost var sum := was[i / 8] + Value(bits[i]) * Pow2(i % 8);
      ByteSum(was[i / 8], Value(bits[i]), Pow2(i % 8));
      toSend[13 + i / 8] := (toSend[13 + i / 8] + value * Pow2(i % 8) % 256) % 256;
      assert toSend[13 + i / 8] == sum;
      assert toSend[13..13 + n] == was[i / 8 := sum];
    }

    /** The data bytes are cleared first, because the bits are added to them. */
    static method StoreCoils(toSend: array<byte>, value: array<uint16>, ghost bits: seq<bool>)
      requires |bits| == value.Length && toSend.Length >= 13 + (value.Length + 7) / 8
      requires forall i :: 0 <= i < value.Length ==> value[i] == Value(bits[i])
      modifies toSend
      ensures toSend[..13] == old(toSend[..13])
      ensures toSend[13..13 + (value.Length + 7) / 8] == Pack(bits)
    {
      var n := (value.Length + 7) / 8;
      ClearCoils(toSend, n);
      assert toSend[13..13 + n] == PackInto(bits[..0], n);
      hide PackInto, FromBits, Value;
      for i := 0 to value.Length
        invariant toSend[..13] == old(toSend[..13])
        invariant toSend[13..13 + n] == PackInto(bits[..i], n)
      {
        AddCoil(toSend, i, value[i], n, bits);
      }
      assert bits[..value.Length] == bits;
    }

    /** The frame has AllocatedForCoils bytes; all of it is determined, but for the last byte when there are no
        coils. */
    method WriteBits(address: uint16, value: array<uint16>, ghost bits: seq<bool>)
      requires |bits| == value.Length < 0x1_0000
      requires forall i :: 0 <= i < value.Length ==> value[i] == Value(bits[i])
      modifies this`msgId, this`sent
      ensures |sent| == |old(sent)| + 1 && sent[..|old(sent)|] == old(sent)
      ensures msgId == (old(msgId) + 1) % 0x1_0000_0000
      ensures var frame, request := sent[|old(sent)|], CoilsRequest(old(msgId), slaveId, address, bits);
              |frame| == AllocatedForCoils(|bits|) && request <= frame && (|bits| > 0 ==> frame == request)
    {
      hide Pack;
      var amount := value.Length;
      var toSend := new byte[14 + if amount == 0 then 0 else (amount - 1) / 8];
      BuildWrite(toSend, address, WRITE_COILS, amount, (amount + 7) / 8);
      StoreCoils(toSend, value, bits);
      assert toSend[..13 + (amount + 7) / 8] == toSend[..13] + toSend[13..13 + (amount + 7) / 8];
      Send(toSend);
    }

    method Read(address: uint16, amount: uint16, func: byte)
      modifies this`msgId, this`sent
      ensures sent == old(sent) + [ReadRequest(old(msgId), slaveId, func, address, amount)]
      ensures msgId == (old(msgId) + 1) % 0x1_0000_0000
    {
      var toSend := new byte[12];
      BuildRequest(toSend, address, func);
      toSend[5] := 6;
      toSend[10] := High(amount);
      toSend[11] := Low(amount);
      assert toSend[..] == ReadRequest(msgId, slaveId, func, address, amount);
      Send(toSend);
    }

    /** Takes a reply, None standing for recv's -1, and looks for an exception in it. The buffer behind the reply
        holds whatever it held before. */
    method TakeReply(func: byte, reply: Option<seq<byte>>) returns (status: int, buffer: array<byte>)
      requires func < 0x80 && (reply.Some? ==> |reply.value| <= MAX_MSG_LENGTH)
      modifies this`err
      ensures fresh(buffer) && buffer.Length == MAX_MSG_LENGTH
      ensures reply.None? ==> status == BAD_CON && err
      ensures reply.Some? ==> reply.value <= buffer[..] && status == (if err then errNo else 0)
      ensures reply.Some? && |reply.value| > 7 ==> err == (reply.value[7] == func + 0x80)
    {
      buffer := new byte[MAX_MSG_LENGTH];
      if reply.None? {
        err := true;
        return BAD_CON, buffer;
      }
      CopyTo(buffer, 0, reply.value);
      err := buffer[7] == func + 0x80;
      status := if err then errNo else 0;
      assert buffer[..|reply.value|] == reply.value;
    }

    /** Bit i % 8 of the coil's byte, for every coil. The code does not see where its buffer ends: what it reads behind
        it may be anything. */
    static method DecodeCoils(received: array<byte>, amount: nat, buffer: array<bool>)
      requires received.Length == MAX_MSG_LENGTH && buffer.Length >= amount
      modifies buffer
      ensures forall i :: 0 <= i < amount && CoilByte(i) < MAX_MSG_LENGTH ==> buffer[i] == CoilAt(received[9..], i)
      ensures buffer[amount..] == old(buffer[amount..])
    {
      for i := 0 to amount
        invariant forall k :: 0 <= k < i && CoilByte(k) < MAX_MSG_LENGTH ==> buffer[k] == CoilAt(received[9..], k)
        invariant buffer[amount..] == old(buffer[amount..])
      {
        var b: byte := *;
        if CoilByte(i) < received.Length {
          b := received[CoilByte(i)];
        }
        buffer[i] := b / Pow2(i % 8) % 2 == 1;
      }
    }

    /** The high byte is shifted in first, then the low byte is added, in 16-bit arithmetic. */
    static method DecodeRegisters(received: array<byte>, amount: nat, buffer: array<uint16>)
      requires received.Length == MAX_MSG_LENGTH && buffer.Length >= amount
      modifies buffer
      ensures forall i :: 0 <= i < amount && RegisterByte(i) + 1 < MAX_MSG_LENGTH ==>
                buffer[i] == RegisterAt(received[9..], i)
      ensures buffer[amount..] == old(buffer[amount..])
    {
      for i := 0 to amount
        invariant forall k :: 0 <= k < i && RegisterByte(k) + 1 < MAX_MSG_LENGTH ==>
                    buffer[k] == RegisterAt(received[9..], k)
        invariant buffer[amount..] == old(buffer[amount..])
      {
        var high: byte, low: byte := *, *;
        if RegisterByte(i) + 1 < received.Length {
          high, low := received[RegisterByte(i)], received[RegisterByte(i) + 1];
        }
        buffer[i] := high as int * 256;
        buffer[i] := (buffer[i] as int + low as int) % 0x1_0000;
      }
    }

    method ReadCoils(address: uint16, amount: uint16, buffer: array<bool>, reply: Option<seq<byte>>)
      returns (status: int)
      requires buffer.Length >= amount && (reply.Some? ==> |reply.value| <= MAX_MSG_LENGTH)
      modifies this`msgId, this`sent, this`err, buffer
      ensures !connected || amount > 2040 ==>
                err && status == (if connected then 0xFF else -1)
                && sent == old(sent) && msgId == old(msgId) && buffer[..] == old(buffer[..])
      ensures connected && amount <= 2040 ==>
                sent == old(sent) + [ReadRequest(old(msgId), slaveId, 1, address, amount)]
                && msgId == (old(msgId) + 1) % 0x1_0000_0000
                && (reply.None? ==> err && status == -1)
                && (reply.Some? && |reply.value| > 7 ==> err == (reply.value[7] == 0x81))
                && (reply.Some? && err ==> status == errNo)
                && (err ==> buffer[..] == old(buffer[..]))
                && (!err ==> status == 0 && reply.Some?)
      ensures connected && amount <= 2040 && !err ==>
                forall i :: 0 <= i < amount && CoilByte(i) < |reply.value| ==> buffer[i] == CoilAt(reply.value[9..], i)
      ensures buffer[amount..] == old(buffer[amount..])
    {
      if !connected {
        err := true;
        return BAD_CON;
      }
      if amount > 2040 {
        err := true;
        return EX_BAD_DATA;
      }
      Read(address, amount, READ_COILS);
      var received;
      status, received := TakeReply(READ_COILS, reply);
      if err {
        return;
      }
      DecodeCoils(received, amount, buffer);
    }

    method ReadHoldingRegisters(address: uint16, amount: uint16, buffer: array<uint16>, reply: Option<seq<byte>>)
      returns (status: int)
      requires buffer.Length >= amount && (reply.Some? ==> |reply.value| <= MAX_MSG_LENGTH)
      modifies this`msgId, this`sent, this`err, buffer
      ensures !connected ==>
                err && status == -1 && sent == old(sent) && msgId == old(msgId) && buffer[..] == old(buffer[..])
      ensures connected ==>
                sent == old(sent) + [ReadRequest(old(msgId), slaveId, 3, address, amount)]
                && msgId == (old(msgId) + 1) % 0x1_0000_0000
                && (reply.None? ==> err && status == -1)
                && (reply.Some? && |reply.value| > 7 ==> err == (reply.value[7] == 0x83))
                && (reply.Some? && err ==> status == errNo)
                && (err ==> buffer[..] == old(buffer[..]))
                && (!err ==> status == 0 && reply.Some?)
      ensures connected && !err ==>
                forall i :: 0 <= i < amount && RegisterByte(i) + 1 < |reply.value| ==>
                  buffer[i] == RegisterAt(reply.value[9..], i)
      ensures buffer[amount..] == old(buffer[amount..])
    {
      if !connected {
        err := true;
        return BAD_CON;
      }
      Read(address, amount, READ_REGS);
      var received;
      status, received := TakeReply(READ_REGS, reply);
      if err {
        return;
      }
      DecodeRegisters(received, amount, buffer);
    }

    method WriteCoils(address: uint16, value: seq<bool>, reply: Option<seq<byte>>) returns (status: int)
      requires |value| < 0x1_0000 && (reply.Some? ==> |reply.value| <= MAX_MSG_LENGTH)
      modifies this`msgId, this`sent, this`err
      ensures !connected ==> err && status == -1 && sent == old(sent) && msgId == old(msgId)
      ensures connected ==>
                |sent| == |old(sent)| + 1 && sent[..|old(sent)|] == old(sent)
                && msgId == (old(msgId) + 1) % 0x1_0000_0000
                && CoilsRequest(old(msgId), slaveId, address, value) <= sent[|old(sent)|]
                && |sent[|old(sent)|]| == (if |value| == 0 then 14 else 13 + (|value| + 7) / 8)
                && (reply.None? ==> err && status == -1)
                && (reply.Some? && |reply.value| > 7 ==> err == (reply.value[7] == 0x8F))
                && (reply.Some? && err ==> status == errNo)
                && (!err ==> status == 0)
      ensures connected && |value| > 0 ==> sent == old(sent) + [CoilsRequest(old(msgId), slaveId, address, value)]
    {
      hide CoilsRequest;
      if !connected {
        err := true;
        return BAD_CON;
      }
      var temp := new uint16[|value|];
      for i := 0 to |value|
        invariant forall k :: 0 <= k < i ==> temp[k] == Value(value[k])
        modifies temp
      {
        temp[i] := if value[i] then 1 else 0;
      }
      WriteBits(address, temp, value);
      var received;
      status, received := TakeReply(WRITE_COILS, reply);
    }

    method WriteRegisters(address: uint16, value: seq<uint16>, reply: Option<seq<byte>>) returns (status: int)
      requires |value| < 0x1_0000 && (reply.Some? ==> |reply.value| <= MAX_MSG_LENGTH)
      modifies this`msgId, this`sent, this`err
      ensures !connected ==> err && status == -1 && sent == old(sent) && msgId == old(msgId)
      ensures connected ==>
                sent == old(sent) + [RegistersRequest(old(msgId), slaveId, address, value)]
                && msgId == (old(msgId) + 1) % 0x1_0000_0000
                && (reply.None? ==> err && status == -1)
                && (reply.Some? && |reply.value| > 7 ==> err == (reply.value[7] == 0x90))
                && (reply.Some? && err ==> status == errNo)
                && (!err ==> status == 0)
    {
      hide RegistersRequest;
      if !connected {
        err := true;
        return BAD_CON;
      }
      WriteRegs(address, value);
      var received;
      status, received := TakeReply(WRITE_REGS, reply);
    }
  }
}
