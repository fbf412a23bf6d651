/** boot/common/aes.c: the functions that work in place on the state, the global schedule and the caller's buffer. */
module Aes {
  import opened Gf256
  import opened SubstitutionBox
  import opened ColumnMixing
  import AesSpec
  import opened KeySchedule
  import opened MachineInt

  /** A state[4][4] array */
  predicate Square(state: array2<bv8>) {
    state.Length0 == 4 && state.Length1 == 4
  }

  ghost function ColumnOf(state: array2<bv8>, c: nat): AesSpec.Column
    requires Square(state) && c < 4
    reads state
  {
    AesSpec.Column(state[0, c], state[1, c], state[2, c], state[3, c])
  }

  ghost function StateOf(state: array2<bv8>): AesSpec.State
    requires Square(state)
    reads state
  {
    AesSpec.State(ColumnOf(state, 0), ColumnOf(state, 1), ColumnOf(state, 2), ColumnOf(state, 3))
  }

  lemma StateByte(state: array2<bv8>, r: nat, c: nat)
    requires Square(state) && r < 4 && c < 4
    ensures AesSpec.ByteAt(StateOf(state), r, c) == state[r, c]
  {
    if r == 0 {} else if r == 1 {} else if r == 2 {} else {}
  }

  /** The loops of SubBytes and InvSubBytes, for either table */
  method Substitute(table: bv8 -> bv8, state: array2<bv8>)
    requires Square(state)
    modifies state
    ensures forall i, j :: 0 <= i < 4 && 0 <= j < 4 ==> state[i, j] == table(old(state[i, j]))
  {
    for r := 0 to 4
      invariant forall i, j :: 0 <= i < 4 && 0 <= j < 4 ==>
        state[i, j] == if i < r then table(old(state[i, j])) else old(state[i, j])
    {
      for c := 0 to 4
        invariant forall i, j :: 0 <= i < 4 && 0 <= j < 4 ==>
          state[i, j] == if i < r || (i == r && j < c) then table(old(state[i, j])) else old(state[i, j])
      {
        state[r, c] := table(state[r, c]);
      }
    }
  }

  method SubBytes(state: array2<bv8>)
    requires Square(state)
    modifies state
    ensures StateOf(state) == AesSpec.SubBytes(old(StateOf(state)))
  {
    Substitute(Sbox, state);
  }

  /** The second inner loop of ShiftRows and InvShiftRows */
  method PutRow(state: array2<bv8>, t: array<bv8>, r: nat)
    requires Square(state) && t.Length == 4 && r < 4
    modifies state
    ensures forall j :: 0 <= j < 4 ==> state[r, j] == t[j]
    ensures forall i, j :: 0 <= i < 4 && 0 <= j < 4 && i != r ==> state[i, j] == old(state[i, j])
  {
    for c := 0 to 4
      invariant forall j :: 0 <= j < c ==> state[r, j] == t[j]
      invariant forall i, j :: 0 <= i < 4 && 0 <= j < 4 && i != r ==> state[i, j] == old(state[i, j])
    {
      state[r, c] := t[c];
    }
  }

  /** The first inner loop of ShiftRows */
  method TakeLeft(state: array2<bv8>, t: array<bv8>, r: nat)
    requires Square(state) && t.Length == 4 && 1 <= r < 4
    modifies t
    ensures forall j :: 0 <= j < 4 ==> t[j] == state[r, (j + r) % 4]
  {
    for c := 0 to 4
      invariant forall j :: 0 <= j < c ==> t[j] == state[r, (j + r) % 4]
    {
      t[c] := state[r, (c + r) % 4];
    }
  }

  lemma ShiftedLeft(state: array2<bv8>, s: AesSpec.State)
    requires Square(state)
    requires forall r, c :: 0 <= r < 4 && 0 <= c < 4 ==> state[r, c] == AesSpec.ByteAt(s, r, (c + r) % 4)
    ensures StateOf(state) == AesSpec.ShiftRows(s)
  {}

  lemma ShiftedRight(state: array2<bv8>, s: AesSpec.State)
    requires Square(state)
    requires forall r, c :: 0 <= r < 4 && 0 <= c < 4 ==> state[r, c] == AesSpec.ByteAt(s, r, (c - r + 4) % 4)
    ensures StateOf(state) == AesSpec.InvShiftRows(s)
  {}

  lemma StateBytes(state: array2<bv8>)
    requires Square(state)
    ensures forall r, c :: 0 <= r < 4 && 0 <= c < 4 ==> state[r, c] == AesSpec.ByteAt(StateOf(state), r, c)
  {
    forall r, c | 0 <= r < 4 && 0 <= c < 4
      ensures state[r, c] == AesSpec.ByteAt(StateOf(state), r, c)
    {
      StateByte(state, r, c);
    }
  }

  /** One pass of the outer loop of ShiftRows */
  method RotateLeft(state: array2<bv8>, t: array<bv8>, r: nat)
    requires Square(state) && t.Length == 4 && 1 <= r < 4
    modifies state, t
    ensures forall j :: 0 <= j < 4 ==> state[r, j] == old(state[r, (j + r) % 4])
    ensures forall i, j :: 0 <= i < 4 && 0 <= j < 4 && i != r ==> state[i, j] == old(state[i, j])
  {
    TakeLeft(state, t, r);
    PutRow(state, t, r);
  }

  method ShiftRows(state: array2<bv8>)
    requires Square(state)
    modifies state
    ensures StateOf(state) == AesSpec.ShiftRows(old(StateOf(state)))
    ensures forall r, c :: 0 <= r < 4 && 0 <= c < 4 ==> state[r, c] == old(state[r, (c + r) % 4])
  {
    StateBytes(state);
    ghost var s := StateOf(state);
    var t := new bv8[4];
    for r := 1 to 4
      invariant forall i, j :: 0 <= i < 4 && 0 <= j < 4 ==>
        state[i, j] == old(state[i, if i < r then (j + i) % 4 else j])
    {
      RotateLeft(state, t, r);
    }
    ShiftedLeft(state, s);
  }

  /** The first inner loop of InvShiftRows */
  method TakeRight(state: array2<bv8>, t: array<bv8>, r: nat)
    requires Square(state) && t.Length == 4 && 1 <= r < 4
    modifies t
    ensures forall j :: 0 <= j < 4 ==> t[j] == state[r, (j - r + 4) % 4]
  {
    for c := 0 to 4
      invariant forall j :: 0 <= j < c ==> t[j] == state[r, (j - r + 4) % 4]
    {
      t[c] := state[r, (c - r + 4) % 4];
    }
  }

  /** One pass of the outer loop of InvShiftRows */
  method RotateRight(state: array2<bv8>, t: array<bv8>, r: nat)
    requires Square(state) && t.Length == 4 && 1 <= r < 4
    modifies state, t
    ensures forall j :: 0 <= j < 4 ==> state[r, j] == old(state[r, (j - r + 4) % 4])
    ensures forall i, j :: 0 <= i < 4 && 0 <= j < 4 && i != r ==> state[i, j] == old(state[i, j])
  {
    TakeRight(state, t, r);
    PutRow(state, t, r);
  }

  /** The outer loop of InvShiftRows */
  method RotateRows(state: array2<bv8>, t: array<bv8>)
    requires Square(state) && t.Length == 4
    modifies state, t
    ensures forall r, c :: 0 <= r < 4 && 0 <= c < 4 ==> state[r, c] == old(state[r, (c - r + 4) % 4])
  {
    for r := 1 to 4
      invariant forall i, j :: 0 <= i < 4 && 0 <= j < 4 ==>
        state[i, j] == old(state[i, if i < r then (j - i + 4) % 4 else j])
    {
      RotateRight(state, t, r);
    }
  }

  method InvShiftRows(state: array2<bv8>)
    requires Square(state)
    modifies state
    ensures StateOf(state) == AesSpec.InvShiftRows(old(StateOf(state)))
    ensures forall r, c :: 0 <= r < 4 && 0 <= c < 4 ==> state[r, c] == old(state[r, (c - r + 4) % 4])
  {
    StateBytes(state);
    ghost var s := StateOf(state);
    var t := new bv8[4];
    RotateRows(state, t);
    ShiftedRight(state, s);
  }

  method InvSubBytes(state: array2<bv8>)
    requires Square(state)
    modifies state
    ensures StateOf(state) == AesSpec.InvSubBytes(old(StateOf(state)))
  {
    Substitute(InvSbox, state);
  }

  /** The right-hand side of the assignment in MixColumns */
  method MixedByte(t: array<bv8>, r: nat, ghost column: AesSpec.Column) returns (x: bv8)
    requires t.Length == 4 && r < 4
    requires forall k :: 0 <= k < 4 ==> t[k] == AesSpec.Cell(column, k)
    ensures x == AesSpec.Cell(AesSpec.MixColumn(column), r)
  {
    var x0 := FFmul(0x02, t[r]);
    var x1 := FFmul(0x03, t[(r + 1) % 4]);
    var x2 := FFmul(0x01, t[(r + 2) % 4]);
    var x3 := FFmul(0x01, t[(r + 3) % 4]);
    AesSpec.CirculateCell(MixByte, column, r, t[r], t[(r + 1) % 4], t[(r + 2) % 4], t[(r + 3) % 4]);
    x := x0 ^ x1 ^ x2 ^ x3;
  }

  /** One pass of the outer loop of MixColumns */
  method MixColumnAt(state: array2<bv8>, t: array<bv8>, c: nat)
    requires Square(state) && t.Length == 4 && c < 4
    modifies state, t
    ensures ColumnOf(state, c) == AesSpec.MixColumn(old(ColumnOf(state, c)))
    ensures forall r, j :: 0 <= r < 4 && 0 <= j < 4 && j != c ==> state[r, j] == old(state[r, j])
  {
    ghost var column := ColumnOf(state, c);
    for r := 0 to 4
      invariant forall k :: 0 <= k < r ==> t[k] == AesSpec.Cell(column, k)
      modifies t
    {
      t[r] := state[r, c];
    }
    for r := 0 to 4
      invariant forall k :: 0 <= k < r ==> state[k, c] == AesSpec.Cell(AesSpec.MixColumn(column), k)
      invariant forall k, j :: 0 <= k < 4 && 0 <= j < 4 && j != c ==> state[k, j] == old(state[k, j])
      modifies state
    {
      var x := MixedByte(t, r, column);
      state[r, c] := x;
    }
  }

  method MixColumns(state: array2<bv8>)
    requires Square(state)
    modifies state
    ensures StateOf(state) == AesSpec.MixColumns(old(StateOf(state)))
  {
    var t := new bv8[4];
    for c := 0 to 4
      invariant forall j :: 0 <= j < c ==> ColumnOf(state, j) == AesSpec.MixColumn(old(ColumnOf(state, j)))
      invariant forall j :: c <= j < 4 ==> ColumnOf(state, j) == old(ColumnOf(state, j))
    {
      MixColumnAt(state, t, c);
    }
  }

  /** The right-hand side of the assignment in InvMixColumns */
  method InvMixedByte(t: array<bv8>, r: nat, ghost column: AesSpec.Column) returns (x: bv8)
    requires t.Length == 4 && r < 4
    requires forall k :: 0 <= k < 4 ==> t[k] == AesSpec.Cell(column, k)
    ensures x == AesSpec.Cell(AesSpec.InvMixColumn(column), r)
  {
    var x0 := FFmul(0x0e, t[r]);
    var x1 := FFmul(0x0b, t[(r + 1) % 4]);
    var x2 := FFmul(0x0d, t[(r + 2) % 4]);
    var x3 := FFmul(0x09, t[(r + 3) % 4]);
    AesSpec.CirculateCell(InvMixByte, column, r, t[r], t[(r + 1) % 4], t[(r + 2) % 4], t[(r + 3) % 4]);
    x := x0 ^ x1 ^ x2 ^ x3;
  }

  /** One pass of the outer loop of InvMixColumns */
  method InvMixColumnAt(state: array2<bv8>, t: array<bv8>, c: nat)
    requires Square(state) && t.Length == 4 && c < 4
    modifies state, t
    ensures ColumnOf(state, c) == AesSpec.InvMixColumn(old(ColumnOf(state, c)))
    ensures forall r, j :: 0 <= r < 4 && 0 <= j < 4 && j != c ==> state[r, j] == old(state[r, j])
  {
    ghost var column := ColumnOf(state, c);
    for r := 0 to 4
      invariant forall k :: 0 <= k < r ==> t[k] == AesSpec.Cell(column, k)
      modifies t
    {
      t[r] := state[r, c];
    }
    for r := 0 to 4
      invariant forall k :: 0 <= k < r ==> state[k, c] == AesSpec.Cell(AesSpec.InvMixColumn(column), k)
      invariant forall k, j :: 0 <= k < 4 && 0 <= j < 4 && j != c ==> state[k, j] == old(state[k, j])
      modifies state
    {
      var x := InvMixedByte(t, r, column);
      state[r, c] := x;
    }
  }

  method InvMixColumns(state: array2<bv8>)
    requires Square(state)
    modifies state
    ensures StateOf(state) == AesSpec.InvMixColumns(old(StateOf(state)))
  {
    var t := new bv8[4];
    for c := 0 to 4
      invariant forall j :: 0 <= j < c ==> ColumnOf(state, j) == AesSpec.InvMixColumn(old(ColumnOf(state, j)))
      invariant forall j :: c <= j < 4 ==> ColumnOf(state, j) == old(ColumnOf(state, j))
    {
      InvMixColumnAt(state, t, c);
    }
  }

  /** The sixteen bytes of a block, column by column, as a state */
  function FromBytes(b: seq<bv8>): AesSpec.State
    requires |b| == 16
  {
    AesSpec.State(AesSpec.Column(b[0], b[1], b[2], b[3]), AesSpec.Column(b[4], b[5], b[6], b[7]),
                  AesSpec.Column(b[8], b[9], b[10], b[11]), AesSpec.Column(b[12], b[13], b[14], b[15]))
  }

  function ToBytes(s: AesSpec.State): (b: seq<bv8>)
    ensures |b| == 16
  {
    [s.c0.r0, s.c0.r1, s.c0.r2, s.c0.r3, s.c1.r0, s.c1.r1, s.c1.r2, s.c1.r3,
     s.c2.r0, s.c2.r1, s.c2.r2, s.c2.r3, s.c3.r0, s.c3.r1, s.c3.r2, s.c3.r3]
  }

  lemma FromToBytes(s: AesSpec.State)
    ensures FromBytes(ToBytes(s)) == s
  {}

  lemma ToFromBytes(b: seq<bv8>)
    requires |b| == 16
    ensures ToBytes(FromBytes(b)) == b
  {}

  /** Byte 4 * c + r of a block is in row r of column c. */
  lemma BlockByte(b: seq<bv8>, s: AesSpec.State, r: nat, c: nat)
    requires |b| == 16 && r < 4 && c < 4
    ensures AesSpec.ByteAt(FromBytes(b), r, c) == b[4 * c + r]
    ensures ToBytes(s)[4 * c + r] == AesSpec.ByteAt(s, r, c)
  {
    match c
    case 0 =>
    case 1 =>
    case 2 =>
    case _ =>
  }

  /** s holds a text of n bytes before its first NUL. */
  ghost predicate IsLength(s: seq<bv8>, n: nat) {
    n < |s| && s[n] == 0 && forall k :: 0 <= k < n ==> s[k] != 0
  }

  lemma SameLength(s: seq<bv8>, m: nat, n: nat)
    requires IsLength(s, m) && IsLength(s, n)
    ensures m == n
  {}

  /** The length Cipher_len uses: an empty text counts its NUL. */
  function Counted(n: nat): nat {
    if n == 0 then 1 else n
  }

  /** The number of passes of the block loops */
  function Blocks(length: int): (n: nat)
    ensures if length <= 0 then n == 0 else length <= 16 * n < length + 16
  {
    if length <= 0 then 0 else (length + 15) / 16
  }

  ghost function CipherBlock(b: seq<bv8>, ks: AesSpec.RoundKeys): (r: seq<bv8>)
    requires |b| == 16
    ensures |r| == 16
  {
    ToBytes(AesSpec.Cipher(FromBytes(b), ks))
  }

  ghost function InvCipherBlock(b: seq<bv8>, ks: AesSpec.RoundKeys): (r: seq<bv8>)
    requires |b| == 16
    ensures |r| == 16
  {
    ToBytes(AesSpec.InvCipher(FromBytes(b), ks))
  }

  /** The bytes of an encrypted or decrypted block are those of the state. */
  lemma CipherBlockAt(b: seq<bv8>, ks: AesSpec.RoundKeys, r: nat, c: nat)
    requires |b| == 16 && r < 4 && c < 4
    ensures CipherBlock(b, ks)[4 * c + r] == AesSpec.ByteAt(AesSpec.Cipher(FromBytes(b), ks), r, c)
    ensures InvCipherBlock(b, ks)[4 * c + r] == AesSpec.ByteAt(AesSpec.InvCipher(FromBytes(b), ks), r, c)
  {
    BlockByte(b, AesSpec.Cipher(FromBytes(b), ks), r, c);
    BlockByte(b, AesSpec.InvCipher(FromBytes(b), ks), r, c);
  }

  function Block(s: seq<bv8>, m: nat): (b: seq<bv8>)
    requires 16 * m + 16 <= |s|
    ensures |b| == 16 && forall i :: 0 <= i < 16 ==> b[i] == s[16 * m + i]
  {
    s[16 * m..16 * m + 16]
  }

  /** The first k blocks of after are those of before, encrypted; the rest is the same. */
  ghost predicate Encrypted(before: seq<bv8>, after: seq<bv8>, ks: AesSpec.RoundKeys, k: nat) {
    && |after| == |before| && 16 * k <= |before|
    && (forall m :: 0 <= m < k ==> Block(after, m) == CipherBlock(Block(before, m), ks))
    && after[16 * k..] == before[16 * k..]
  }

  /** The first k blocks of after are those of before, decrypted; the rest is the same. */
  ghost predicate Decrypted(before: seq<bv8>, after: seq<bv8>, ks: AesSpec.RoundKeys, k: nat) {
    && |after| == |before| && 16 * k <= |before|
    && (forall m :: 0 <= m < k ==> Block(after, m) == InvCipherBlock(Block(before, m), ks))
    && after[16 * k..] == before[16 * k..]
  }

  lemma EncryptedNext(before: seq<bv8>, was: seq<bv8>, now: seq<bv8>, ks: AesSpec.RoundKeys, k: nat)
    requires Encrypted(before, was, ks, k) && |now| == |was| && 16 * k + 16 <= |was|
    requires Block(now, k) == CipherBlock(Block(was, k), ks)
    requires now[..16 * k] == was[..16 * k] && now[16 * k + 16..] == was[16 * k + 16..]
    ensures Encrypted(before, now, ks, k + 1)
  {
    forall m | 0 <= m < k + 1
      ensures Block(now, m) == CipherBlock(Block(before, m), ks)
    {
      if m < k {
        assert Block(now, m) == now[..16 * k][16 * m..16 * m + 16];
        assert Block(was, m) == was[..16 * k][16 * m..16 * m + 16];
      } else {
        assert Block(was, k) == was[16 * k..][..16];
        assert Block(before, k) == before[16 * k..][..16];
      }
    }
    assert now[16 * (k + 1)..] == was[16 * k..][16..];
  }

  lemma DecryptedNext(before: seq<bv8>, was: seq<bv8>, now: seq<bv8>, ks: AesSpec.RoundKeys, k: nat)
    requires Decrypted(before, was, ks, k) && |now| == |was| && 16 * k + 16 <= |was|
    requires Block(now, k) == InvCipherBlock(Block(was, k), ks)
    requires now[..16 * k] == was[..16 * k] && now[16 * k + 16..] == was[16 * k + 16..]
    ensures Decrypted(before, now, ks, k + 1)
  {
    forall m | 0 <= m < k + 1
      ensures Block(now, m) == InvCipherBlock(Block(before, m), ks)
    {
      if m < k {
        assert Block(now, m) == now[..16 * k][16 * m..16 * m + 16];
        assert Block(was, m) == was[..16 * k][16 * m..16 * m + 16];
      } else {
        assert Block(was, k) == was[16 * k..][..16];
        assert Block(before, k) == before[16 * k..][..16];
      }
    }
    assert now[16 * (k + 1)..] == was[16 * k..][16..];
  }

  lemma SameBlock(before: seq<bv8>, after: seq<bv8>, k: nat, m: nat)
    requires |after| == |before| && k <= m && 16 * m + 16 <= |before| && after[16 * k..] == before[16 * k..]
    ensures Block(after, m) == Block(before, m)
  {
    assert Block(after, m) == after[16 * k..][16 * (m - k)..16 * (m - k) + 16];
    assert Block(before, m) == before[16 * k..][16 * (m - k)..16 * (m - k) + 16];
  }

  lemma SameByte(before: seq<bv8>, after: seq<bv8>, k: nat, j: nat)
    requires |after| == |before| && 16 * k <= j < |before| && after[16 * k..] == before[16 * k..]
    ensures after[j] == before[j]
  {
    assert after[j] == after[16 * k..][j - 16 * k] && before[j] == before[16 * k..][j - 16 * k];
  }

  /** Exactly the blocks that begin before the length are encrypted. */
  lemma EncryptedIff(before: seq<bv8>, after: seq<bv8>, ks: AesSpec.RoundKeys, length: int)
    requires Encrypted(before, after, ks, Blocks(length))
    ensures forall m: nat :: 16 * m + 16 <= |before| ==>
      Block(after, m) == if 16 * m < length then CipherBlock(Block(before, m), ks) else Block(before, m)
    ensures forall j :: 0 <= j < |before| && j / 16 * 16 >= length ==> after[j] == before[j]
  {
    forall m: nat | 16 * m + 16 <= |before|
      ensures Block(after, m) == if 16 * m < length then CipherBlock(Block(before, m), ks) else Block(before, m)
    {
      if m >= Blocks(length) {
        SameBlock(before, after, Blocks(length), m);
      }
    }
    forall j | 0 <= j < |before| && j / 16 * 16 >= length
      ensures after[j] == before[j]
    {
      SameByte(before, after, Blocks(length), j);
    }
  }

  /** Exactly the blocks that begin before the length are decrypted. */
  lemma DecryptedIff(before: seq<bv8>, after: seq<bv8>, ks: AesSpec.RoundKeys, length: int)
    requires Decrypted(before, after, ks, Blocks(length))
    ensures forall m: nat :: 16 * m + 16 <= |before| ==>
      Block(after, m) == if 16 * m < length then InvCipherBlock(Block(before, m), ks) else Block(before, m)
    ensures forall j :: 0 <= j < |before| && j / 16 * 16 >= length ==> after[j] == before[j]
  {
    forall m: nat | 16 * m + 16 <= |before|
      ensures Block(after, m) == if 16 * m < length then InvCipherBlock(Block(before, m), ks) else Block(before, m)
    {
      if m >= Blocks(length) {
        SameBlock(before, after, Blocks(length), m);
      }
    }
    forall j | 0 <= j < |before| && j / 16 * 16 >= length
      ensures after[j] == before[j]
    {
      SameByte(before, after, Blocks(length), j);
    }
  }

  lemma {:induction false} BlockRoundTrip(b: seq<bv8>, ks: AesSpec.RoundKeys)
    requires |b| == 16
    ensures InvCipherBlock(CipherBlock(b, ks), ks) == b
  {
    var s := FromBytes(b);
    AesSpec.InvCipherUndoesCipher(s, ks);
    FromToBytes(AesSpec.Cipher(s, ks));
    ToFromBytes(b);
  }

  /** Decrypting the blocks that were encrypted, under any eleven round keys, restores the buffer. */
  lemma DecryptedEncrypted(before: seq<bv8>, mid: seq<bv8>, after: seq<bv8>, ks: AesSpec.RoundKeys, k: nat)
    requires Encrypted(before, mid, ks, k) && Decrypted(mid, after, ks, k)
    ensures after == before
  {
    forall i | 0 <= i < |before|
      ensures after[i] == before[i]
    {
      var m := i / 16;
      if m < k {
        BlockRoundTrip(Block(before, m), ks);
        assert after[i] == Block(after, m)[i - 16 * m];
        assert before[i] == Block(before, m)[i - 16 * m];
      } else {
        assert after[i] == after[16 * k..][i - 16 * k];
        assert before[i] == before[16 * k..][i - 16 * k];
      }
    }
  }

  /** The program's table holds the powers of x. */
  lemma RoundConstants(rc: seq<bv8>)
    requires rc == [0x01, 0x02, 0x04, 0x08, 0x10, 0x20, 0x40, 0x80, 0x1b, 0x36]
    ensures forall i :: 1 <= i <= 10 ==> rc[i - 1] == Rcon(i)
  {
    assert Rcon(2) == 0x02;
    assert Rcon(3) == 0x04;
    assert Rcon(4) == 0x08;
    assert Rcon(5) == 0x10;
    assert Rcon(6) == 0x20;
    assert Rcon(7) == 0x40;
    assert Rcon(8) == 0x80;
    assert Rcon(9) == 0x1b;
    assert Rcon(10) == 0x36;
  }

  lemma StoredBlock(s: seq<bv8>, state: array2<bv8>)
    requires Square(state) && |s| == 16
    requires forall i :: 0 <= i < 4 ==> s[i] == state[i, 0] && s[4 + i] == state[i, 1]
    requires forall i :: 0 <= i < 4 ==> s[8 + i] == state[i, 2] && s[12 + i] == state[i, 3]
    ensures s == ToBytes(StateOf(state))
  {
    assert s == [s[0], s[1], s[2], s[3], s[4], s[5], s[6], s[7], s[8], s[9], s[10], s[11], s[12], s[13], s[14], s[15]];
    assert s[4 + 0] == state[0, 1] && s[8 + 0] == state[0, 2] && s[12 + 0] == state[0, 3];
  }

  /** The w[11][4][4] array */
  class KeyStore {
    const w: array3<bv8>

    ghost predicate Valid() {
      w.Length0 == 11 && w.Length1 == 4 && w.Length2 == 4
    }

    constructor ()
      ensures Valid() && fresh(w)
    {
      w := new bv8[11, 4, 4];
    }

    ghost function KeyColumn(i: nat, c: nat): AesSpec.Column
      requires Valid() && i < 11 && c < 4
      reads w
    {
      AesSpec.Column(w[i, 0, c], w[i, 1, c], w[i, 2, c], w[i, 3, c])
    }

    ghost function KeyAt(i: nat): AesSpec.State
      requires Valid() && i < 11
      reads w
    {
      AesSpec.State(KeyColumn(i, 0), KeyColumn(i, 1), KeyColumn(i, 2), KeyColumn(i, 3))
    }

    /** The round keys the array holds */
    ghost function Keys(): AesSpec.RoundKeys
      requires Valid()
      reads w
    {
      seq(11, i requires 0 <= i < 11 reads w => KeyAt(i))
    }

    lemma KeyByte(i: nat, r: nat, c: nat)
      requires Valid() && i < 11 && r < 4 && c < 4
      ensures AesSpec.ByteAt(Keys()[i], r, c) == w[i, r, c]
    {
      assert Keys()[i] == KeyAt(i);
      if c == 0 {} else if c == 1 {} else if c == 2 {} else {}
    }

    /** The rotation of t through a substitution table that starts a new round key, and the round constant */
    method RotateTemp(table: bv8 -> bv8, t: array<bv8>, constant: bv8)
      requires t.Length == 4
      modifies t
      ensures AesSpec.Column(t[0], t[1], t[2], t[3])
           == Rotated(table, old(AesSpec.Column(t[0], t[1], t[2], t[3])), constant)
    {
      var temp := t[0];
      for r := 0 to 3
        invariant forall k :: 0 <= k < r ==> t[k] == table(old(t[k + 1]))
        invariant forall k :: r <= k < 4 ==> t[k] == old(t[k])
      {
        t[r] := table(t[(r + 1) % 4]);
      }
      t[3] := table(temp);
      t[0] := t[0] ^ constant;
    }

    /** The t array of one pass of KeyExpansion's inner loop */
    method NextTemp(i: nat, j: nat, constant: bv8, ghost previous: AesSpec.Column) returns (t: array<bv8>)
      requires Valid() && 1 <= i <= 10 && j < 4
      requires previous == if j != 0 then KeyColumn(i, j - 1) else KeyColumn(i - 1, 3)
      ensures fresh(t) && t.Length == 4
      ensures AesSpec.Column(t[0], t[1], t[2], t[3]) == if j != 0 then previous else Rotated(Sbox, previous, constant)
    {
      t := new bv8[4];
      for r := 0 to 4
        invariant forall k :: 0 <= k < r ==> t[k] == AesSpec.Cell(previous, k)
      {
        t[r] := if j != 0 then w[i, r, j - 1] else w[i - 1, r, 3];
      }
      if j == 0 {
        RotateTemp(Sbox, t, constant);
      }
    }

    /** The first loop of KeyExpansion: the key itself is round key 0. */
    method CopyKey(key: array<bv8>)
      requires Valid() && key.Length >= 16
      modifies w
      ensures forall c :: 0 <= c < 4 ==>
        KeyColumn(0, c) == AesSpec.Column(key[4 * c], key[4 * c + 1], key[4 * c + 2], key[4 * c + 3])
    {
      for r := 0 to 4
        invariant forall n, c :: 0 <= n < r && 0 <= c < 4 ==> w[0, n, c] == key[n + c * 4]
      {
        for c := 0 to 4
          invariant forall n, c :: 0 <= n < r && 0 <= c < 4 ==> w[0, n, c] == key[n + c * 4]
          invariant forall d :: 0 <= d < c ==> w[0, r, d] == key[r + d * 4]
        {
          w[0, r, c] := key[r + c * 4];
        }
      }
    }

    /** The last loop of one pass of KeyExpansion */
    method AddColumn(i: nat, j: nat, t: array<bv8>)
      requires Valid() && 1 <= i <= 10 && j < 4 && t.Length == 4
      modifies w
      ensures KeyColumn(i, j) == AesSpec.XorColumn(old(KeyColumn(i - 1, j)), AesSpec.Column(t[0], t[1], t[2], t[3]))
      ensures forall n, c :: 0 <= n < 11 && 0 <= c < 4 && (n != i || c != j) ==> KeyColumn(n, c) == old(KeyColumn(n, c))
    {
      ghost var xor := AesSpec.XorByte;
      for r := 0 to 4
        invariant forall n :: 0 <= n < r ==> w[i, n, j] == xor(old(w[i - 1, n, j]), t[n])
        invariant forall n, r, c :: 0 <= n < 11 && 0 <= r < 4 && 0 <= c < 4 && (n != i || c != j) ==>
          w[n, r, c] == old(w[n, r, c])
      {
        w[i, r, j] := w[i - 1, r, j] ^ t[r];
      }
    }

    /** One pass of KeyExpansion's inner loop: word 4 * i + j */
    method NextColumn(i: nat, j: nat, constant: bv8, ghost k: Key, ghost words: seq<AesSpec.Column>)
      requires AreWords(words, k) && Valid() && 1 <= i <= 10 && j < 4 && constant == Rcon(i)
      requires KeyColumn(i - 1, j) == words[4 * i + j - 4]
      requires (if j != 0 then KeyColumn(i, j - 1) else KeyColumn(i - 1, 3)) == words[4 * i + j - 1]
      modifies w
      ensures KeyColumn(i, j) == words[4 * i + j]
      ensures forall n, c :: 0 <= n < 11 && 0 <= c < 4 && (n != i || c != j) ==> KeyColumn(n, c) == old(KeyColumn(n, c))
    {
      var t := NextTemp(i, j, constant, words[4 * i + j - 1]);
      AddColumn(i, j, t);
      WordStep(k, i, j, KeyColumn(i, j), AesSpec.Column(t[0], t[1], t[2], t[3]), words);
    }

    /** Pass i of KeyExpansion's outer loop, given the first 4 * i words of the schedule */
    method NextRoundKey(i: nat, constant: bv8, ghost k: Key, ghost words: seq<AesSpec.Column>)
      requires AreWords(words, k) && Valid() && 1 <= i <= 10 && constant == Rcon(i)
      requires forall n, c :: 0 <= n < i && 0 <= c < 4 ==> KeyColumn(n, c) == words[4 * n + c]
      modifies w
      ensures forall n, c :: 0 <= n <= i && 0 <= c < 4 ==> KeyColumn(n, c) == words[4 * n + c]
    {
      for j := 0 to 4
        invariant forall n, c :: 0 <= n < i && 0 <= c < 4 ==> KeyColumn(n, c) == words[4 * n + c]
        invariant forall c :: 0 <= c < j ==> KeyColumn(i, c) == words[4 * i + c]
      {
        assert KeyColumn(i - 1, j) == words[4 * (i - 1) + j];
        assert KeyColumn(i - 1, 3) == words[4 * (i - 1) + 3];
        NextColumn(i, j, constant, k, words);
      }
    }

    /** The array holds the schedule of k in words. */
    ghost predicate HoldsWords(k: Key, words: seq<AesSpec.Column>)
      requires Valid()
      reads w
    {
      AreWords(words, k) && forall n, c :: 0 <= n < 11 && 0 <= c < 4 ==> KeyColumn(n, c) == words[4 * n + c]
    }

    lemma HeldColumn(k: Key, n: nat, c: nat)
      requires Valid() && Keys() == Schedule(k) && n < 11 && c < 4
      ensures KeyColumn(n, c) == Word(k, 4 * n + c)
    {
      assert KeyAt(n) == Keys()[n] == RoundKey(k, n);
    }

    lemma HeldWords(k: Key) returns (words: seq<AesSpec.Column>)
      requires Valid() && Keys() == Schedule(k)
      ensures HoldsWords(k, words)
    {
      words := AllWords(k);
      forall n, c | 0 <= n < 11 && 0 <= c < 4
        ensures KeyColumn(n, c) == words[4 * n + c]
      {
        HeldColumn(k, n, c);
      }
    }

    lemma HeldByte(k: Key, words: seq<AesSpec.Column>, i: nat, r: nat, c: nat)
      requires Valid() && HoldsWords(k, words) && i < 11 && r < 4 && c < 4
      ensures w[i, r, c] == AesSpec.Cell(words[4 * i + c], r)
    {
      assert KeyColumn(i, c) == words[4 * i + c];
    }

    /** Round key 0 is the key. */
    lemma FirstKey(k: Key, r: nat, c: nat)
      requires Valid() && Keys() == Schedule(k) && r < 4 && c < 4
      ensures w[0, r, c] == k[4 * c + r]
    {
      var words := HeldWords(k);
      HeldByte(k, words, 0, r, c);
      assert words[c] == Word(k, c);
    }

    lemma NextByteHeld(k: Key, words: seq<AesSpec.Column>, i: nat, r: nat, c: nat)
      requires Valid() && HoldsWords(k, words) && 1 <= i < 11 && r < 4 && 1 <= c < 4
      ensures w[i, r, c] == w[i - 1, r, c] ^ w[i, r, c - 1]
    {
      HeldByte(k, words, i, r, c);
      HeldByte(k, words, i, r, c - 1);
      HeldByte(k, words, i - 1, r, c);
      NextByte(k, words, i, r, c);
    }

    /** The columns after the first: the column before and the same column of the round key before */
    lemma NextColumns(k: Key)
      requires Valid() && Keys() == Schedule(k)
      ensures forall i, r, c :: 1 <= i < 11 && 0 <= r < 4 && 1 <= c < 4 ==>
        w[i, r, c] == w[i - 1, r, c] ^ w[i, r, c - 1]
    {
      var words := HeldWords(k);
      forall i, r, c | 1 <= i < 11 && 0 <= r < 4 && 1 <= c < 4
        ensures w[i, r, c] == w[i - 1, r, c] ^ w[i, r, c - 1]
      {
        NextByteHeld(k, words, i, r, c);
      }
    }

    lemma HeldXor(k: Key, words: seq<AesSpec.Column>, i: nat, r: nat, t: bv8)
      requires Valid() && HoldsWords(k, words) && 1 <= i < 11 && r < 4
      requires AesSpec.Cell(words[4 * i], r) == AesSpec.XorByte(AesSpec.Cell(words[4 * i - 4], r), t)
      ensures w[i, r, 0] == w[i - 1, r, 0] ^ t
    {
      HeldByte(k, words, i, r, 0);
      HeldByte(k, words, i - 1, r, 0);
    }

    /** The first column: the last one of the round key before, rotated up and substituted to last,
        and in the first row the round constant; t is what is added. */
    lemma FirstColumn(k: Key, i: nat, r: nat, cell: bv8, last: bv8, constant: bv8, t: bv8)
      requires Valid() && Keys() == Schedule(k) && 1 <= i < 11 && r < 4
      requires cell == w[i - 1, (r + 1) % 4, 3] && last == Sbox(cell)
      requires constant == [0x01, 0x02, 0x04, 0x08, 0x10, 0x20, 0x40, 0x80, 0x1b, 0x36][i - 1]
      requires t == if r == 0 then last ^ constant else last
      ensures w[i, r, 0] == w[i - 1, r, 0] ^ t
    {
      var words := HeldWords(k);
      HeldByte(k, words, i - 1, (r + 1) % 4, 3);
      RoundConstants([0x01, 0x02, 0x04, 0x08, 0x10, 0x20, 0x40, 0x80, 0x1b, 0x36]);
      AddedIs(last, constant, r, t);
      TurnByte(k, words, i, r, cell, last, constant, t);
      HeldXor(k, words, i, r, t);
    }

    /** Fills w with the eleven round keys of a sixteen-byte key. */
    method KeyExpansion(key: array<bv8>)
      requires Valid() && key.Length >= 16
      modifies w
      ensures Keys() == Schedule(key[..16])
      ensures forall r, c :: 0 <= r < 4 && 0 <= c < 4 ==> w[0, r, c] == key[4 * c + r]
      ensures forall i, r, c :: 1 <= i < 11 && 0 <= r < 4 && 1 <= c < 4 ==>
        w[i, r, c] == w[i - 1, r, c] ^ w[i, r, c - 1]
    {
      ghost var k: Key := key[..16];
      ghost var words := seq(44, n requires 0 <= n < 44 => Word(k, n));
      var rc := [0x01, 0x02, 0x04, 0x08, 0x10, 0x20, 0x40, 0x80, 0x1b, 0x36];
      RoundConstants(rc);
      CopyKey(key);
      for i := 1 to 11
        invariant forall n, c :: 0 <= n < i && 0 <= c < 4 ==> KeyColumn(n, c) == words[4 * n + c]
      {
        assert rc[i - 1] == Rcon(i);
        NextRoundKey(i, rc[i - 1], k, words);
      }
      forall n | 0 <= n < 11
        ensures KeyAt(n) == Schedule(k)[n]
      {
        assert KeyColumn(n, 0) == words[4 * n + 0];
      }
      forall r, c | 0 <= r < 4 && 0 <= c < 4
        ensures w[0, r, c] == key[4 * c + r]
      {
        FirstKey(k, r, c);
      }
      NextColumns(k);
    }

    method AddRoundKey(state: array2<bv8>, k: nat)
      requires Valid() && Square(state) && k < 11
      modifies state
      ensures StateOf(state) == AesSpec.AddRoundKey(old(StateOf(state)), Keys()[k])
      ensures forall r, c :: 0 <= r < 4 && 0 <= c < 4 ==> state[r, c] == old(state[r, c]) ^ w[k, r, c]
    {
      ghost var xor := AesSpec.XorByte;
      for c := 0 to 4
        invariant forall i, j :: 0 <= i < 4 && 0 <= j < c ==> state[i, j] == xor(old(state[i, j]), w[k, i, j])
        invariant forall i, j :: 0 <= i < 4 && c <= j < 4 ==> state[i, j] == old(state[i, j])
      {
        for r := 0 to 4
          invariant forall i, j :: 0 <= i < 4 && 0 <= j < c ==> state[i, j] == xor(old(state[i, j]), w[k, i, j])
          invariant forall i :: 0 <= i < r ==> state[i, c] == xor(old(state[i, c]), w[k, i, c])
          invariant forall i :: r <= i < 4 ==> state[i, c] == old(state[i, c])
          invariant forall i, j :: 0 <= i < 4 && c < j < 4 ==> state[i, j] == old(state[i, j])
        {
          state[r, c] := state[r, c] ^ w[k, r, c];
        }
      }
      assert Keys()[k] == KeyAt(k);
    }

    method Load(input: array<bv8>, off: nat) returns (state: array2<bv8>)
      requires off + 16 <= input.Length
      ensures fresh(state) && Square(state)
      ensures StateOf(state) == FromBytes(input[off..off + 16])
      ensures forall r, c :: 0 <= r < 4 && 0 <= c < 4 ==> state[r, c] == input[off + c * 4 + r]
    {
      state := new bv8[4, 4];
      for r := 0 to 4
        invariant forall i, j :: 0 <= i < r && 0 <= j < 4 ==> state[i, j] == input[off + j * 4 + i]
      {
        for c := 0 to 4
          invariant forall i, j :: 0 <= i < r && 0 <= j < 4 ==> state[i, j] == input[off + j * 4 + i]
          invariant forall j :: 0 <= j < c ==> state[r, j] == input[off + j * 4 + r]
        {
          state[r, c] := input[off + c * 4 + r];
        }
      }
    }

    /** The inner loop of the copy back */
    method StoreRow(state: array2<bv8>, input: array<bv8>, off: nat, r: nat)
      requires off + 16 <= input.Length && Square(state) && r < 4
      modifies input
      ensures input[off + r] == state[r, 0] && input[off + 4 + r] == state[r, 1]
      ensures input[off + 8 + r] == state[r, 2] && input[off + 12 + r] == state[r, 3]
      ensures forall k :: 0 <= k < input.Length && !(k in {off + r, off + 4 + r, off + 8 + r, off + 12 + r}) ==>
        input[k] == old(input[k])
    {
      for c := 0 to 4
        invariant c > 0 ==> input[off + r] == state[r, 0]
        invariant c > 1 ==> input[off + 4 + r] == state[r, 1]
        invariant c > 2 ==> input[off + 8 + r] == state[r, 2]
        invariant c > 3 ==> input[off + 12 + r] == state[r, 3]
        invariant forall k :: 0 <= k < input.Length && !(k in {off + r, off + 4 + r, off + 8 + r, off + 12 + r}) ==>
          input[k] == old(input[k])
      {
        input[off + c * 4 + r] := state[r, c];
      }
    }

    /** The loops of the copy back */
    method StoreRows(state: array2<bv8>, input: array<bv8>, off: nat)
      requires off + 16 <= input.Length && Square(state)
      modifies input
      ensures forall i :: 0 <= i < 4 ==> input[off + i] == state[i, 0] && input[off + 4 + i] == state[i, 1]
      ensures forall i :: 0 <= i < 4 ==> input[off + 8 + i] == state[i, 2] && input[off + 12 + i] == state[i, 3]
      ensures forall k :: 0 <= k < off || off + 16 <= k < input.Length ==> input[k] == old(input[k])
    {
      for r := 0 to 4
        invariant forall i :: 0 <= i < r ==> input[off + i] == state[i, 0] && input[off + 4 + i] == state[i, 1]
        invariant forall i :: 0 <= i < r ==> input[off + 8 + i] == state[i, 2] && input[off + 12 + i] == state[i, 3]
        invariant forall k :: 0 <= k < off || off + 16 <= k < input.Length ==> input[k] == old(input[k])
      {
        StoreRow(state, input, off, r);
      }
    }

    method Store(state: array2<bv8>, input: array<bv8>, off: nat)
      requires off + 16 <= input.Length && Square(state)
      modifies input
      ensures input[off..off + 16] == ToBytes(StateOf(state))
      ensures input[..off] == old(input[..off]) && input[off + 16..] == old(input[off + 16..])
    {
      StoreRows(state, input, off);
      StoredBlock(input[off..off + 16], state);
    }

    /** The first half of a round of Cipher: the substitution layer */
    method SubShift(state: array2<bv8>)
      requires Valid() && Square(state)
      modifies state
      ensures StateOf(state) == AesSpec.Forward().sub(old(StateOf(state)))
    {
      ghost var s := AesSpec.Substitution(StateOf(state));
      SubBytes(state);
      ShiftRows(state);
    }

    /** The second half: the mixing layer, except in the last round, and the round key */
    method MixAdd(state: array2<bv8>, i: nat)
      requires Valid() && Square(state) && 1 <= i <= 10
      modifies state
      ensures var l, s := AesSpec.Forward(), old(StateOf(state));
        StateOf(state) == l.add(if i != 10 then l.mix(s) else s, Keys()[i])
    {
      if i != 10 {
        MixColumns(state);
      }
      AddRoundKey(state, i);
    }

    /** One round of Cipher */
    method Round(state: array2<bv8>, i: nat, ghost s: AesSpec.State, ghost ks: AesSpec.RoundKeys)
      requires Valid() && Square(state) && ks == Keys() && 1 <= i <= 10
      requires StateOf(state) == AesSpec.CipherRounds(s, ks, i - 1)
      modifies state
      ensures StateOf(state) == AesSpec.CipherRounds(s, ks, i)
    {
      SubShift(state);
      MixAdd(state, i);
    }

    /** The round loop of Cipher */
    method CipherState(state: array2<bv8>)
      requires Valid() && Square(state)
      modifies state
      ensures StateOf(state) == AesSpec.Cipher(old(StateOf(state)), Keys())
    {
      ghost var s, ks := StateOf(state), Keys();
      AddRoundKey(state, 0);
      AesSpec.CipherStart(s, ks);
      for i := 1 to 11
        invariant StateOf(state) == AesSpec.CipherRounds(s, ks, i - 1)
      {
        Round(state, i, s, ks);
      }
    }

    /** The first half of a round of InvCipher: the substitution layer */
    method InvShiftSub(state: array2<bv8>)
      requires Valid() && Square(state)
      modifies state
      ensures StateOf(state) == AesSpec.Backward().sub(old(StateOf(state)))
    {
      ghost var s := AesSpec.InvSubstitution(StateOf(state));
      InvShiftRows(state);
      InvSubBytes(state);
    }

    /** The second half: the round key, and the mixing layer except in the last round */
    method AddInvMix(state: array2<bv8>, i: nat)
      requires Valid() && Square(state) && i <= 9
      modifies state
      ensures var m := AesSpec.Backward();
        var t := m.add(old(StateOf(state)), Keys()[i]);
        StateOf(state) == if i != 0 then m.mix(t) else t
    {
      AddRoundKey(state, i);
      if i != 0 {
        InvMixColumns(state);
      }
    }

    /** One round of InvCipher */
    method InvRound(state: array2<bv8>, i: nat, ghost s: AesSpec.State, ghost ks: AesSpec.RoundKeys)
      requires Valid() && Square(state) && ks == Keys() && i <= 9
      requires StateOf(state) == AesSpec.InvCipherRounds(s, ks, i + 1)
      modifies state
      ensures StateOf(state) == AesSpec.InvCipherRounds(s, ks, i)
    {
      InvShiftSub(state);
      AddInvMix(state, i);
    }

    /** The round loop of InvCipher */
    method InvCipherState(state: array2<bv8>)
      requires Valid() && Square(state)
      modifies state
      ensures StateOf(state) == AesSpec.InvCipher(old(StateOf(state)), Keys())
    {
      ghost var s, ks := StateOf(state), Keys();
      AddRoundKey(state, 10);
      AesSpec.CipherStart(s, ks);
      for i := 10 downto 0
        invariant StateOf(state) == AesSpec.InvCipherRounds(s, ks, i)
      {
        InvRound(state, i, s, ks);
      }
    }

    /** Encrypts the sixteen bytes at input + off in place. */
    method Cipher(input: array<bv8>, off: nat)
      requires Valid() && off + 16 <= input.Length
      modifies input
      ensures input[off..off + 16] == CipherBlock(old(input[off..off + 16]), Keys())
      ensures input[..off] == old(input[..off]) && input[off + 16..] == old(input[off + 16..])
    {
      var state := Load(input, off);
      CipherState(state);
      Store(state, input, off);
    }

    /** Decrypts the sixteen bytes at input + off in place. */
    method InvCipher(input: array<bv8>, off: nat)
      requires Valid() && off + 16 <= input.Length
      modifies input
      ensures input[off..off + 16] == InvCipherBlock(old(input[off..off + 16]), Keys())
      ensures input[..off] == old(input[..off]) && input[off + 16..] == old(input[off + 16..])
    {
      var state := Load(input, off);
      InvCipherState(state);
      Store(state, input, off);
    }

    /** strlen of boot/libc/strlen.c on a buffer that holds a NUL */
    method Strlen(s: array<bv8>) returns (len: nat)
      requires exists k :: 0 <= k < s.Length && s[k] == 0
      ensures IsLength(s[..], len)
      ensures len < s.Length && s[len] == 0 && forall k :: 0 <= k < len ==> s[k] != 0
    {
      len := 0;
      while s[len] != 0
        invariant len < s.Length
        invariant forall k :: 0 <= k < len ==> s[k] != 0
        invariant exists k :: len <= k < s.Length && s[k] == 0
        decreases s.Length - len
      {
        len := len + 1;
      }
    }

    /** The block loop of Cipher_len */
    method CipherBlocks(input: array<bv8>, length: int)
      requires Valid() && 16 * Blocks(length) <= input.Length < 0x8000_0000
      modifies input
      ensures Encrypted(old(input[..]), input[..], Keys(), Blocks(length))
    {
      ghost var ks := Keys();
      var i := 0;
      ghost var k := 0;
      while i < length
        invariant i == 16 * k && k <= Blocks(length)
        invariant Encrypted(old(input[..]), input[..], ks, k)
        decreases length - i
      {
        ghost var was := input[..];
        Cipher(input, i);
        assert Block(was, k) == was[i..i + 16] && Block(input[..], k) == input[i..i + 16];
        EncryptedNext(old(input[..]), was, input[..], ks, k);
        i := i + 16;
        k := k + 1;
      }
    }

    /** The block loop of InvCipher_len */
    method InvCipherBlocks(input: array<bv8>, length: int)
      requires Valid() && 16 * Blocks(length) <= input.Length < 0x8000_0000
      modifies input
      ensures Decrypted(old(input[..]), input[..], Keys(), Blocks(length))
    {
      ghost var ks := Keys();
      var i := 0;
      ghost var k := 0;
      while i < length
        invariant i == 16 * k && k <= Blocks(length)
        invariant Decrypted(old(input[..]), input[..], ks, k)
        decreases length - i
      {
        ghost var was := input[..];
        InvCipher(input, i);
        assert Block(was, k) == was[i..i + 16] && Block(input[..], k) == input[i..i + 16];
        DecryptedNext(old(input[..]), was, input[..], ks, k);
        i := i + 16;
        k := k + 1;
      }
    }

    /** Cipher_len: encrypts the text in input, block by block, to the end of the block that holds its last byte. */
    method CipherLen(key: array<bv8>, input: array<bv8>, ghost n: nat)
      requires Valid() && key.Length >= 16
      requires IsLength(input[..], n)
      requires 16 * Blocks(Counted(n)) <= input.Length < 0x8000_0000
      modifies w, input
      ensures Keys() == Schedule(old(key[..16]))
      ensures Encrypted(old(input[..]), input[..], Keys(), Blocks(Counted(n)))
      ensures forall m: nat :: 16 * m + 16 <= input.Length ==>
        Block(input[..], m) == if m == 0 || 16 * m < n then CipherBlock(Block(old(input[..]), m), Keys())
                               else Block(old(input[..]), m)
      ensures forall j :: 16 <= j < input.Length && j / 16 * 16 >= n ==> input[j] == old(input[j])
    {
      var length := Strlen(input);
      SameLength(input[..], length, n);
      KeyExpansion(key);
      if length == 0 {
        var more := true;
        while more
          invariant length == if more then 0 else 1
          decreases more
        {
          more := input[length] != 0;
          length := length + 1;
        }
      }
      ghost var before := input[..];
      CipherBlocks(input, length);
      EncryptedIff(before, input[..], Keys(), length);
    }

    /** InvCipher_len: decrypts input_size bytes, rounded up to whole blocks. The size becomes a signed int. */
    method InvCipherLen(key: array<bv8>, input: array<bv8>, inputSize: nat)
      requires Valid() && key.Length >= 16 && inputSize < WORD
      requires 16 * Blocks(Signed(inputSize)) <= input.Length < 0x8000_0000
      modifies w, input
      ensures Keys() == Schedule(old(key[..16]))
      ensures Decrypted(old(input[..]), input[..], Keys(), Blocks(Signed(inputSize)))
      ensures forall m: nat :: 16 * m + 16 <= input.Length ==>
        Block(input[..], m) == if 16 * m < Signed(inputSize) then InvCipherBlock(Block(old(input[..]), m), Keys())
                               else Block(old(input[..]), m)
      ensures forall j :: 0 <= j < input.Length && j / 16 * 16 >= Signed(inputSize) ==> input[j] == old(input[j])
    {
      var length := Signed(inputSize);
      KeyExpansion(key);
      ghost var before := input[..];
      InvCipherBlocks(input, length);
      DecryptedIff(before, input[..], Keys(), length);
    }

    /** Encryption then decryption with the same key gives back the whole buffer,
        when both lengths cover the same number of blocks. */
    method EncryptThenDecrypt(key: array<bv8>, input: array<bv8>, ghost n: nat, inputSize: nat)
      requires Valid() && key.Length >= 16 && inputSize < WORD && key != input
      requires IsLength(input[..], n)
      requires 16 * Blocks(Counted(n)) <= input.Length < 0x8000_0000
      requires Blocks(Signed(inputSize)) == Blocks(Counted(n))
      modifies w, input
      ensures input[..] == old(input[..])
    {
      ghost var before := input[..];
      CipherLen(key, input, n);
      ghost var mid, ks := input[..], Keys();
      InvCipherLen(key, input, inputSize);
      assert Keys() == ks;
      DecryptedEncrypted(before, mid, input[..], ks, Blocks(Counted(n)));
    }
  }
}
