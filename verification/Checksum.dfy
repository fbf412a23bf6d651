/** The table-driven checksums of boot/common/libimg.c. */
module Checksum {
  import opened Gf2Poly
  import opened WordBits

  /** One hexadecimal digit */
  function Hex(d: nat): (b: Bits)
    ensures |b| == 4
  {
    [d / 8 % 2 == 1, d / 4 % 2 == 1, d / 2 % 2 == 1, d % 2 == 1]
  }

  // 0x8005
  const CRC_16: Word16 := Hex(8) + Hex(0) + Hex(0) + Hex(5)
  // 0x04C10DB7
  const CRC_32: Word32 := Hex(0) + Hex(4) + Hex(0xC) + Hex(1) + Hex(0) + Hex(0xD) + Hex(0xB) + Hex(7)

  /** The bits of a message, first byte first, top bit of each byte first. */
  function MessageBits(data: seq<Byte>): (m: Bits)
    ensures |m| == 8 * |data|
  {
    if data == [] then [] else MessageBits(data[..|data| - 1]) + data[|data| - 1]
  }

  /** What the builders leave at index i: the checksum of the one-byte message i, as an unsigned long. */
  function TableEntry(poly: Bits, i: nat): (e: Word32)
    requires 0 < |poly|
  {
    Resize(Crc(poly, FromNat(i, 8)), 32)
  }

  function Table(poly: Bits): (t: seq<Word32>)
    requires 0 < |poly|
    ensures |t| == 256
  {
    seq(256, i requires 0 <= i < 256 => TableEntry(poly, i))
  }

  lemma ShiftIsFeed(poly: Bits, nData: Bits, nAccum: Bits)
    requires 0 < |poly| == |nData| == |nAccum|
    ensures Feed(poly, nAccum, nData[0])
         == if Xor(nData, nAccum)[0] then Xor(Shl(nAccum, 1), poly) else Shl(nAccum, 1)
  {
    assert nAccum[1..] + [false] == Shl(nAccum, 1);
  }

  lemma ShiftData(byte: Byte, j: nat, k: nat)
    requires j < 8
    ensures Shl(byte[j..] + Zeros(k), 1) == byte[j + 1..] + Zeros(k + 1)
    ensures (byte[j..] + Zeros(k))[0] == byte[j]
    ensures byte[..j + 1] == byte[..j] + [byte[j]]
  {}

  /** One pass of a checksum loop feeds one message byte to the register. */
  lemma {:induction false} LookUpStep(poly: Bits, nAccum: Bits, byte: Byte, table: seq<Word32>)
    requires 8 <= |poly| == |nAccum| <= 32
    requires table == Table(poly)
    ensures var index := Value(Xor(Shr(nAccum, |poly| - 8), Resize(byte, |poly|)));
      && index < 256
      && Serial(poly, nAccum, byte) == Xor(Shl(nAccum, 8), Resize(table[index], |poly|))
  {
    var w := |poly|;
    var top: Byte := Xor(nAccum[..8], byte);
    assert Xor(Shr(nAccum, w - 8), Resize(byte, w)) == Zeros(w - 8) + top;
    LeadingZeroValue(top, w - 8);
    ByteIndex(top);
    FromNatOfValue(top);
    TableStep(poly, nAccum, byte);
    assert Resize(table[Value(top)], w) == Crc(poly, top);
  }

  /** The register after one byte more of the message */
  lemma {:induction false} AccumulateStep(poly: Bits, nAccum: Bits, message: Bits, byte: Byte, table: seq<Word32>)
    requires 8 <= |poly| == |nAccum| <= 32 && table == Table(poly)
    requires nAccum == Serial(poly, Zeros(|poly|), message)
    ensures var index := Value(Xor(Shr(nAccum, |poly| - 8), Resize(byte, |poly|)));
      && index < 256
      && Serial(poly, Zeros(|poly|), message + byte) == Xor(Shl(nAccum, 8), Resize(table[index], |poly|))
  {
    LookUpStep(poly, nAccum, byte, table);
    SerialConcat(poly, Zeros(|poly|), message, byte);
  }

  lemma {:induction false} MessageSnoc(data: seq<Byte>, i: nat)
    requires i < |data|
    ensures MessageBits(data[..i + 1]) == MessageBits(data[..i]) + data[i]
  {
    assert data[..i + 1][..i] == data[..i];
  }

  class ChecksumTable {
    /** Table_CRC: one table, rebuilt by every checksum call */
    const table: array<Word32>

    constructor ()
      ensures fresh(table) && table.Length == 256
    {
      table := new Word32[256](_ => Zeros(32));
    }

    /** The inner loop of BuildTable16: one table entry. */
    static method BuildEntry16(aPoly: Word16, i: nat) returns (nAccum: Word16)
      ensures nAccum == Crc(aPoly, FromNat(i, 8))
    {
      var nData: Word16 := Shl(FromNat(i, 16), 8);
      nAccum := Zeros(16);
      ghost var byte := FromNat(i, 8);
      LowBits(i, 16, 8);
      for j := 0 to 8
        invariant nData == byte[j..] + Zeros(8 + j)
        invariant nAccum == Serial(aPoly, Zeros(16), byte[..j])
      {
        ShiftData(byte, j, 8 + j);
        ShiftIsFeed(aPoly, nData, nAccum);
        SerialSnoc(aPoly, Zeros(16), byte[..j], byte[j]);
        if Xor(nData, nAccum)[0] {
          nAccum := Xor(Shl(nAccum, 1), aPoly);
        } else {
          nAccum := Shl(nAccum, 1);
        }
        nData := Shl(nData, 1);
      }
      assert byte[..8] == byte;
      SerialIsCrc(aPoly, byte);
    }

    method BuildTable16(aPoly: Word16)
      requires table.Length == 256
      modifies table
      ensures table[..] == Table(aPoly)
    {
      ghost var entries := Table(aPoly);
      for i := 0 to 256
        invariant table[..i] == entries[..i]
      {
        var nAccum := BuildEntry16(aPoly, i);
        table[i] := Resize(nAccum, 32);
        assert table[i] == entries[i];
      }
    }

    /** The loop of CRC_16, for the polynomial of the table */
    method Accumulate16(aData: array<Byte>, aSize: nat, ghost g: Word16) returns (nAccum: Word16)
      requires table[..] == Table(g) && aSize <= aData.Length
      ensures nAccum == Crc(g, MessageBits(aData[..aSize]))
    {
      nAccum := Zeros(16);
      ghost var data := aData[..];
      for i := 0 to aSize
        invariant nAccum == Serial(g, Zeros(16), MessageBits(data[..i]))
      {
        var index := Xor(Shr(nAccum, 8), Resize(aData[i], 16));
        AccumulateStep(g, nAccum, MessageBits(data[..i]), data[i], table[..]);
        MessageSnoc(data, i);
        nAccum := Xor(Shl(nAccum, 8), Resize(table[Value(index)], 16));
      }
      SerialIsCrc(g, MessageBits(data[..aSize]));
    }

    method Crc16(aData: array<Byte>, aSize: nat) returns (nAccum: Word16)
      requires table.Length == 256
      requires aSize <= aData.Length && aData as object != table
      modifies table
      ensures nAccum == Crc(CRC_16, MessageBits(aData[..aSize]))
      ensures table[..] == Table(CRC_16)
    {
      BuildTable16(CRC_16);
      nAccum := Accumulate16(aData, aSize, CRC_16);
    }

    /** The inner loop of BuildTable32: one table entry. */
    static method BuildEntry32(aPoly: Word32, i: nat) returns (nAccum: Word32)
      ensures nAccum == Crc(aPoly, FromNat(i, 8))
    {
      var nData: Word32 := Shl(FromNat(i, 32), 24);
      nAccum := Zeros(32);
      ghost var byte := FromNat(i, 8);
      LowBits(i, 32, 8);
      for j := 0 to 8
        invariant nData == byte[j..] + Zeros(24 + j)
        invariant nAccum == Serial(aPoly, Zeros(32), byte[..j])
      {
        ShiftData(byte, j, 24 + j);
        ShiftIsFeed(aPoly, nData, nAccum);
        SerialSnoc(aPoly, Zeros(32), byte[..j], byte[j]);
        if Xor(nData, nAccum)[0] {
          nAccum := Xor(Shl(nAccum, 1), aPoly);
        } else {
          nAccum := Shl(nAccum, 1);
        }
        nData := Shl(nData, 1);
      }
      assert byte[..8] == byte;
      SerialIsCrc(aPoly, byte);
    }

    method BuildTable32(aPoly: Word32)
      requires table.Length == 256
      modifies table
      ensures table[..] == Table(aPoly)
    {
      ghost var entries := Table(aPoly);
      for i := 0 to 256
        invariant table[..i] == entries[..i]
      {
        var nAccum := BuildEntry32(aPoly, i);
        table[i] := Resize(nAccum, 32);
        assert table[i] == entries[i];
      }
    }

    /** The loop of CRC_32, for the polynomial of the table */
    method Accumulate32(aData: array<Byte>, aSize: nat, ghost g: Word32) returns (nAccum: Word32)
      requires table[..] == Table(g) && aSize <= aData.Length
      ensures nAccum == Crc(g, MessageBits(aData[..aSize]))
    {
      nAccum := Zeros(32);
      ghost var data := aData[..];
      for i := 0 to aSize
        invariant nAccum == Serial(g, Zeros(32), MessageBits(data[..i]))
      {
        var index := Xor(Shr(nAccum, 24), Resize(aData[i], 32));
        AccumulateStep(g, nAccum, MessageBits(data[..i]), data[i], table[..]);
        MessageSnoc(data, i);
        nAccum := Xor(Shl(nAccum, 8), Resize(table[Value(index)], 32));
      }
      SerialIsCrc(g, MessageBits(data[..aSize]));
    }

    method Crc32(aData: array<Byte>, aSize: nat) returns (nAccum: Word32)
      requires table.Length == 256
      requires aSize <= aData.Length && aData as object != table
      modifies table
      ensures nAccum == Crc(CRC_32, MessageBits(aData[..aSize]))
      ensures table[..] == Table(CRC_32)
    {
      BuildTable32(CRC_32);
      nAccum := Accumulate32(aData, aSize, CRC_32);
    }
  }

  /** Calls that rebuild the shared table in between do not disturb each other. */
  method Interleaved(shared: ChecksumTable, a: array<Byte>, b: array<Byte>) returns (x: Word16, y: Word32, z: Word16)
    requires shared.table.Length == 256 && a as object != shared.table && b as object != shared.table
    modifies shared.table
    ensures x == Crc(CRC_16, MessageBits(a[..])) && y == Crc(CRC_32, MessageBits(b[..])) && z == x
  {
    x := shared.Crc16(a, a.Length);
    y := shared.Crc32(b, b.Length);
    z := shared.Crc16(a, a.Length);
    assert a[..a.Length] == a[..] && b[..b.Length] == b[..];
  }

  lemma {:induction false} LeadingZeroValue(w: Bits, k: nat)
    ensures Value(Zeros(k) + w) == Value(w)
    decreases |w| + k
  {
    if w == [] {
      if k > 0 {
        assert (Zeros(k) + w)[..k - 1] == Zeros(k - 1) + w;
        LeadingZeroValue(w, k - 1);
      }
    } else {
      assert (Zeros(k) + w)[..k + |w| - 1] == Zeros(k) + w[..|w| - 1];
      LeadingZeroValue(w[..|w| - 1], k);
    }
  }

  // ----- what the checksums guarantee, for both coded polynomials -----

  ghost predicate Coded(g: Bits) {
    g == CRC_16 || g == CRC_32
  }

  lemma OddHex(d: nat)
    requires d < 16
    ensures Odd(Hex(d)) <==> d in {1, 2, 4, 7, 8, 11, 13, 14}
  {
    var b := Hex(d);
    assert b[1..] == [b[1], b[2], b[3]];
    assert [b[1], b[2], b[3]][1..] == [b[2], b[3]];
    assert [b[2], b[3]][1..] == [b[3]];
    assert Odd([b[3]]) == b[3];
    assert Odd([b[2], b[3]]) == (b[2] != b[3]);
    assert Odd([b[1], b[2], b[3]]) == (b[1] != (b[2] != b[3]));
  }

  lemma OddAppend(a: Bits, d: nat)
    requires d < 16
    ensures Odd(a + Hex(d)) <==> (Odd(a) != (d in {1, 2, 4, 7, 8, 11, 13, 14}))
  {
    OddConcat(a, Hex(d));
    OddHex(d);
  }

  lemma ValueSnoc(a: Bits, bit: bool)
    ensures Value(a + [bit]) == 2 * Value(a) + (if bit then 1 else 0)
  {
    assert (a + [bit])[..|a|] == a;
  }

  lemma {:induction false} ValueFour(a: Bits, b: Bits, c: Bits)
    requires |b| == 4 && c == a + [b[0]] + [b[1]] + [b[2]] + [b[3]]
    ensures Value(c) == 16 * Value(a) + (if b[0] then 8 else 0) + (if b[1] then 4 else 0)
                        + (if b[2] then 2 else 0) + (if b[3] then 1 else 0)
  {
    var a1 := a + [b[0]];
    var a2 := a1 + [b[1]];
    var a3 := a2 + [b[2]];
    ValueSnoc(a, b[0]);
    ValueSnoc(a1, b[1]);
    ValueSnoc(a2, b[2]);
    ValueSnoc(a3, b[3]);
  }

  lemma BinaryDigits(d: nat)
    requires d < 16
    ensures 8 * (d / 8 % 2) + 4 * (d / 4 % 2) + 2 * (d / 2 % 2) + d % 2 == d
  {}

  lemma ValueAppend(a: Bits, d: nat)
    requires d < 16
    ensures Value(a + Hex(d)) == 16 * Value(a) + d
  {
    var b := Hex(d);
    assert a + b == a + [b[0]] + [b[1]] + [b[2]] + [b[3]];
    ValueFour(a, b, a + b);
    BinaryDigits(d);
  }

  lemma CodedConstants()
    ensures Value(CRC_16) == 0x8005
    ensures Value(CRC_32) == 0x04C10DB7
  {
    assert [] + Hex(8) == Hex(8) && [] + Hex(0) == Hex(0);
    ValueAppend([], 8);
    ValueAppend(Hex(8), 0);
    ValueAppend(Hex(8) + Hex(0), 0);
    ValueAppend(Hex(8) + Hex(0) + Hex(0), 5);
    var a := Hex(0) + Hex(4) + Hex(0xC) + Hex(1);
    ValueAppend([], 0);
    ValueAppend(Hex(0), 4);
    ValueAppend(Hex(0) + Hex(4), 0xC);
    ValueAppend(Hex(0) + Hex(4) + Hex(0xC), 1);
    ValueAppend(a, 0);
    ValueAppend(a + Hex(0), 0xD);
    ValueAppend(a + Hex(0) + Hex(0xD), 0xB);
    ValueAppend(a + Hex(0) + Hex(0xD) + Hex(0xB), 7);
  }

  lemma OddCrc16()
    ensures Odd(CRC_16) && CRC_16[15]
  {
    OddHex(8);
    OddAppend(Hex(8), 0);
    OddAppend(Hex(8) + Hex(0), 0);
    OddAppend(Hex(8) + Hex(0) + Hex(0), 5);
    assert CRC_16 == Hex(8) + Hex(0) + Hex(0) + Hex(5);
  }

  lemma OddCrc32()
    ensures Odd(CRC_32) && CRC_32[31]
  {
    var a := Hex(0) + Hex(4) + Hex(0xC) + Hex(1);
    OddHex(0);
    OddAppend(Hex(0), 4);
    OddAppend(Hex(0) + Hex(4), 0xC);
    OddAppend(Hex(0) + Hex(4) + Hex(0xC), 1);
    OddAppend(a, 0);
    OddAppend(a + Hex(0), 0xD);
    OddAppend(a + Hex(0) + Hex(0xD), 0xB);
    OddAppend(a + Hex(0) + Hex(0xD) + Hex(0xB), 7);
    assert CRC_32 == a + Hex(0) + Hex(0xD) + Hex(0xB) + Hex(7);
  }

  /** Both coded polynomials have a constant term and, without their leading term, an odd number of terms. */
  lemma CodedPolynomials(g: Bits)
    requires Coded(g)
    ensures g[|g| - 1] && Odd(g)
  {
    if g == CRC_16 {
      OddCrc16();
    } else {
      OddCrc32();
    }
  }

  lemma {:induction false} MessageBitsConcat(m: seq<Byte>, n: seq<Byte>)
    ensures MessageBits(m + n) == MessageBits(m) + MessageBits(n)
    decreases |n|
  {
    if n == [] {
      assert m + n == m;
    } else {
      var k := |m| + |n| - 1;
      assert (m + n)[..k] == m + n[..|n| - 1];
      MessageBitsConcat(m, n[..|n| - 1]);
    }
  }

  lemma {:induction false} MessageBitAt(m: seq<Byte>, j: nat)
    requires j < 8 * |m|
    ensures MessageBits(m)[j] == m[j / 8][j % 8]
    decreases |m|
  {
    if j < 8 * (|m| - 1) {
      MessageBitAt(m[..|m| - 1], j);
    }
  }

  lemma {:induction false} ByteOfBits(m: seq<Byte>, k: nat)
    requires k < |m|
    ensures MessageBits(m)[8 * k..8 * k + 8] == m[k]
    decreases |m|
  {
    if k < |m| - 1 {
      ByteOfBits(m[..|m| - 1], k);
    }
  }

  lemma SameBits(m: seq<Byte>, n: seq<Byte>, lo: nat, hi: nat)
    requires |m| == |n|
    requires forall k :: 0 <= k < |m| && !(lo <= k < hi) ==> m[k] == n[k]
    ensures forall j :: 0 <= j < 8 * |m| && !(8 * lo <= j < 8 * hi) ==> MessageBits(m)[j] == MessageBits(n)[j]
  {
    forall j | 0 <= j < 8 * |m| && !(8 * lo <= j < 8 * hi)
      ensures MessageBits(m)[j] == MessageBits(n)[j]
    {
      MessageBitAt(m, j);
      MessageBitAt(n, j);
      assert m[j / 8] == n[j / 8];
    }
  }

  lemma DifferentBits(m: seq<Byte>, n: seq<Byte>)
    requires |m| == |n| && m != n
    ensures MessageBits(m) != MessageBits(n)
  {
    var k :| 0 <= k < |m| && m[k] != n[k];
    ByteOfBits(m, k);
    ByteOfBits(n, k);
  }

  lemma ByteWindow(g: Bits, m: seq<Byte>, n: seq<Byte>, i: nat)
    requires 0 < |g| && |g| % 8 == 0 && g[|g| - 1]
    requires |m| == |n| && i <= |m| && m != n
    requires forall k :: 0 <= k < |m| && !(i <= k < i + |g| / 8) ==> m[k] == n[k]
    ensures Crc(g, MessageBits(m)) != Crc(g, MessageBits(n))
  {
    var a, b := MessageBits(m), MessageBits(n);
    SameBits(m, n, i, i + |g| / 8);
    DifferentBits(m, n);
    BurstDetected(g, a, b, 8 * i);
  }

  /** Two equal-length messages that differ only inside a window of two (CRC_16)
      or four (CRC_32) consecutive bytes have different checksums. */
  lemma {:induction false} WindowDetected(g: Bits, m: seq<Byte>, n: seq<Byte>, i: nat)
    requires Coded(g)
    requires |m| == |n| && i <= |m| && m != n
    requires forall k :: 0 <= k < |m| && !(i <= k < i + |g| / 8) ==> m[k] == n[k]
    ensures Crc(g, MessageBits(m)) != Crc(g, MessageBits(n))
  {
    CodedPolynomials(g);
    ByteWindow(g, m, n, i);
  }

  /** The checksum keeps the parity of the message, so an odd number of flipped bits never goes unnoticed. */
  lemma ParityKept(g: Bits, m: seq<Byte>)
    requires Coded(g)
    ensures Odd(Crc(g, MessageBits(m))) == Odd(MessageBits(m))
  {
    CodedPolynomials(g);
    CrcParity(g, MessageBits(m));
  }

  lemma {:induction false} OddFlipsDetected(g: Bits, m: seq<Byte>, n: seq<Byte>)
    requires Coded(g)
    requires |m| == |n| && Odd(Xor(MessageBits(m), MessageBits(n)))
    ensures Crc(g, MessageBits(m)) != Crc(g, MessageBits(n))
  {
    OddXor(MessageBits(m), MessageBits(n));
    ParityKept(g, m);
    ParityKept(g, n);
  }

  /** Appending w / 8 bytes makes the checksum zero exactly when they are the big-endian checksum. */
  lemma TrailerChecksToZero(g: Bits, m: seq<Byte>, t: seq<Byte>)
    requires Coded(g) && 8 * |t| == |g|
    ensures Crc(g, MessageBits(m + t)) == Zeros(|g|) <==> MessageBits(t) == Crc(g, MessageBits(m))
  {
    CodedPolynomials(g);
    MessageBitsConcat(m, t);
    TrailerTheorem(g, MessageBits(m), MessageBits(t));
  }

  function XorBytes(m: seq<Byte>, n: seq<Byte>): (r: seq<Byte>)
    requires |m| == |n|
    ensures |r| == |m|
  {
    seq(|m|, i requires 0 <= i < |m| => Xor(m[i], n[i]))
  }

  lemma {:induction false} XorOfMessages(g: Bits, m: seq<Byte>, n: seq<Byte>)
    requires 0 < |g| && |m| == |n|
    ensures Crc(g, MessageBits(XorBytes(m, n))) == Xor(Crc(g, MessageBits(m)), Crc(g, MessageBits(n)))
  {
    var a, b, c := MessageBits(m), MessageBits(n), MessageBits(XorBytes(m, n));
    forall j | 0 <= j < |c|
      ensures c[j] == Xor(a, b)[j]
    {
      MessageBitAt(m, j);
      MessageBitAt(n, j);
      MessageBitAt(XorBytes(m, n), j);
    }
    assert c == Xor(a, b);
    CrcLinear(g, a, b);
  }
}
