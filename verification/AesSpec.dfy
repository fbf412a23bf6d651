/** The block cipher of boot/common/aes.c on values (FIPS 197 sections 5.1 and 5.3). */
module AesSpec {
  import opened SubstitutionBox
  import opened ColumnMixing
  import opened IteratedCipher

  /** One column of the state, top row first */
  datatype Column = Column(r0: bv8, r1: bv8, r2: bv8, r3: bv8)

  /** The 4x4 state; also a round key in the program's row/column layout */
  datatype State = State(c0: Column, c1: Column, c2: Column, c3: Column)

  function Cell(t: Column, r: nat): bv8
    requires r < 4
  {
    match r
    case 0 => t.r0
    case 1 => t.r1
    case 2 => t.r2
    case _ => t.r3
  }

  /** Row r of column c */
  function ByteAt(s: State, r: nat, c: nat): bv8
    requires r < 4 && c < 4
  {
    match c
    case 0 => Cell(s.c0, r)
    case 1 => Cell(s.c1, r)
    case 2 => Cell(s.c2, r)
    case _ => Cell(s.c3, r)
  }

  function SubColumn(t: Column): Column {
    Column(Sbox(t.r0), Sbox(t.r1), Sbox(t.r2), Sbox(t.r3))
  }

  function InvSubColumn(t: Column): Column {
    Column(InvSbox(t.r0), InvSbox(t.r1), InvSbox(t.r2), InvSbox(t.r3))
  }

  /** Output row r is f of the column rotated by r. */
  ghost function Circulate(f: (bv8, bv8, bv8, bv8) -> bv8, t: Column): Column {
    Column(f(t.r0, t.r1, t.r2, t.r3), f(t.r1, t.r2, t.r3, t.r0), f(t.r2, t.r3, t.r0, t.r1), f(t.r3, t.r0, t.r1, t.r2))
  }

  lemma CirculateCell(f: (bv8, bv8, bv8, bv8) -> bv8, t: Column, r: nat, y0: bv8, y1: bv8, y2: bv8, y3: bv8)
    requires r < 4
    requires y0 == Cell(t, r) && y1 == Cell(t, (r + 1) % 4) && y2 == Cell(t, (r + 2) % 4) && y3 == Cell(t, (r + 3) % 4)
    ensures Cell(Circulate(f, t), r) == f(y0, y1, y2, y3)
  {
    if r == 0 {} else if r == 1 {} else if r == 2 {} else {}
  }

  ghost function MixColumn(t: Column): Column {
    Circulate(MixByte, t)
  }

  ghost function InvMixColumn(t: Column): Column {
    Circulate(InvMixByte, t)
  }

  function XorByte(a: bv8, b: bv8): bv8 {
    a ^ b
  }

  function Zip(f: (bv8, bv8) -> bv8, t: Column, k: Column): Column {
    Column(f(t.r0, k.r0), f(t.r1, k.r1), f(t.r2, k.r2), f(t.r3, k.r3))
  }

  function XorColumn(t: Column, k: Column): Column {
    Zip(XorByte, t, k)
  }

  function SubBytes(s: State): State {
    State(SubColumn(s.c0), SubColumn(s.c1), SubColumn(s.c2), SubColumn(s.c3))
  }

  function InvSubBytes(s: State): State {
    State(InvSubColumn(s.c0), InvSubColumn(s.c1), InvSubColumn(s.c2), InvSubColumn(s.c3))
  }

  /** Row r moves left by r columns. */
  function ShiftRows(s: State): State {
    State(Column(s.c0.r0, s.c1.r1, s.c2.r2, s.c3.r3), Column(s.c1.r0, s.c2.r1, s.c3.r2, s.c0.r3),
          Column(s.c2.r0, s.c3.r1, s.c0.r2, s.c1.r3), Column(s.c3.r0, s.c0.r1, s.c1.r2, s.c2.r3))
  }

  /** Row r moves right by r columns. */
  function InvShiftRows(s: State): State {
    State(Column(s.c0.r0, s.c3.r1, s.c2.r2, s.c1.r3), Column(s.c1.r0, s.c0.r1, s.c3.r2, s.c2.r3),
          Column(s.c2.r0, s.c1.r1, s.c0.r2, s.c3.r3), Column(s.c3.r0, s.c2.r1, s.c1.r2, s.c0.r3))
  }

  ghost function MixColumns(s: State): State {
    State(MixColumn(s.c0), MixColumn(s.c1), MixColumn(s.c2), MixColumn(s.c3))
  }

  ghost function InvMixColumns(s: State): State {
    State(InvMixColumn(s.c0), InvMixColumn(s.c1), InvMixColumn(s.c2), InvMixColumn(s.c3))
  }

  function AddRoundKey(s: State, k: State): State {
    State(XorColumn(s.c0, k.c0), XorColumn(s.c1, k.c1), XorColumn(s.c2, k.c2), XorColumn(s.c3, k.c3))
  }

  // ----- the cipher and its inverse, for any eleven round keys -----

  const BLANK: State := var t := Column(0, 0, 0, 0); State(t, t, t, t)

  type RoundKeys = w: seq<State> | |w| == 11 witness seq(11, _ => BLANK)

  function Substitution(s: State): State {
    ShiftRows(SubBytes(s))
  }

  function InvSubstitution(s: State): State {
    InvSubBytes(InvShiftRows(s))
  }

  /** The layers of the cipher, known by what they do to each state */
  ghost predicate IsForward(l: Layers<State>) {
    && (forall s {:trigger Substitution(s)} :: l.sub(s) == Substitution(s))
    && (forall s {:trigger MixColumns(s)} :: l.mix(s) == MixColumns(s))
    && (forall s, k {:trigger AddRoundKey(s, k)} :: l.add(s, k) == AddRoundKey(s, k))
  }

  ghost predicate IsBackward(m: Layers<State>) {
    && (forall s {:trigger InvSubstitution(s)} :: m.sub(s) == InvSubstitution(s))
    && (forall s {:trigger InvMixColumns(s)} :: m.mix(s) == InvMixColumns(s))
    && (forall s, k {:trigger AddRoundKey(s, k)} :: m.add(s, k) == AddRoundKey(s, k))
  }

  ghost function Forward(): (l: Layers<State>)
    ensures IsForward(l)
  {
    assert IsForward(Layers(Substitution, MixColumns, AddRoundKey));
    var l :| IsForward(l);
    l
  }

  ghost function Backward(): (m: Layers<State>)
    ensures IsBackward(m)
  {
    assert IsBackward(Layers(InvSubstitution, InvMixColumns, AddRoundKey));
    var m :| IsBackward(m);
    m
  }

  /** The state after i of the ten rounds */
  ghost function CipherRounds(s: State, w: RoundKeys, i: nat): State
    requires i <= 10
  {
    Rounds(Forward(), s, w, i)
  }

  ghost function Cipher(s: State, w: RoundKeys): State {
    CipherRounds(s, w, |w| - 1)
  }

  /** The state after the passes of the inverse cipher with round index 10 down to i */
  ghost function InvCipherRounds(s: State, w: RoundKeys, i: nat): State
    requires i <= 10
  {
    InvRounds(Backward(), s, w, i)
  }

  ghost function InvCipher(s: State, w: RoundKeys): State {
    InvCipherRounds(s, w, 0)
  }

  lemma CipherStart(s: State, w: RoundKeys)
    ensures CipherRounds(s, w, 0) == AddRoundKey(s, w[0])
    ensures InvCipherRounds(s, w, 10) == AddRoundKey(s, w[10])
  {}

  // ----- the cipher byte by byte -----

  lemma SubstitutedCell(f: bv8 -> bv8, t: Column, u: Column, r: nat)
    requires r < 4 && u == Column(f(t.r0), f(t.r1), f(t.r2), f(t.r3))
    ensures Cell(u, r) == f(Cell(t, r))
  {}

  lemma SubBytesAt(s: State, r: nat, c: nat)
    requires r < 4 && c < 4
    ensures ByteAt(SubBytes(s), r, c) == Sbox(ByteAt(s, r, c))
  {
    match c
    case 0 => SubstitutedCell(Sbox, s.c0, SubColumn(s.c0), r);
    case 1 => SubstitutedCell(Sbox, s.c1, SubColumn(s.c1), r);
    case 2 => SubstitutedCell(Sbox, s.c2, SubColumn(s.c2), r);
    case _ => SubstitutedCell(Sbox, s.c3, SubColumn(s.c3), r);
  }

  lemma ShiftRowsAt(s: State, r: nat, c: nat)
    requires r < 4 && c < 4
    ensures ByteAt(ShiftRows(s), r, c) == ByteAt(s, r, (c + r) % 4)
  {
    var d := if c + r < 4 then c + r else c + r - 4;
    assert (c + r) % 4 == d;
    if c == 0 {} else if c == 1 {} else if c == 2 {} else {}
  }

  lemma AddRoundKeyAt(s: State, k: State, r: nat, c: nat)
    requires r < 4 && c < 4
    ensures ByteAt(AddRoundKey(s, k), r, c) == ByteAt(s, r, c) ^ ByteAt(k, r, c)
  {
    assert ByteAt(AddRoundKey(s, k), r, c) == XorByte(ByteAt(s, r, c), ByteAt(k, r, c));
  }

  lemma MixColumnsAt(s: State, r: nat, c: nat, y0: bv8, y1: bv8, y2: bv8, y3: bv8)
    requires r < 4 && c < 4 && y0 == ByteAt(s, r, c) && y1 == ByteAt(s, (r + 1) % 4, c)
    requires y2 == ByteAt(s, (r + 2) % 4, c) && y3 == ByteAt(s, (r + 3) % 4, c)
    ensures ByteAt(MixColumns(s), r, c) == MixByte(y0, y1, y2, y3)
  {
    match c
    case 0 => CirculateCell(MixByte, s.c0, r, y0, y1, y2, y3);
    case 1 => CirculateCell(MixByte, s.c1, r, y0, y1, y2, y3);
    case 2 => CirculateCell(MixByte, s.c2, r, y0, y1, y2, y3);
    case _ => CirculateCell(MixByte, s.c3, r, y0, y1, y2, y3);
  }

  lemma SubstitutionAt(s: State, r: nat, c: nat)
    requires r < 4 && c < 4
    ensures ByteAt(Substitution(s), r, c) == Sbox(ByteAt(s, r, (c + r) % 4))
  {
    ShiftRowsAt(SubBytes(s), r, c);
    SubBytesAt(s, r, (c + r) % 4);
  }

  /** Round 0 adds the first round key. */
  lemma FirstRoundAt(s: State, w: RoundKeys, r: nat, c: nat)
    requires r < 4 && c < 4
    ensures ByteAt(CipherRounds(s, w, 0), r, c) == ByteAt(s, r, c) ^ ByteAt(w[0], r, c)
  {
    CipherStart(s, w);
    AddRoundKeyAt(s, w[0], r, c);
  }

  /** The bytes of u are those of t, substituted and with row r moved by r. */
  ghost predicate Substituted(t: State, u: State) {
    forall r, c :: 0 <= r < 4 && 0 <= c < 4 ==> ByteAt(u, r, c) == Sbox(ByteAt(t, r, (c + r) % 4))
  }

  lemma SubstitutionIs(t: State)
    ensures Substituted(t, Substitution(t))
  {
    forall r, c | 0 <= r < 4 && 0 <= c < 4
      ensures ByteAt(Substitution(t), r, c) == Sbox(ByteAt(t, r, (c + r) % 4))
    {
      SubstitutionAt(t, r, c);
    }
  }

  lemma RoundLayers(s: State, w: RoundKeys, i: nat, t: State) returns (u: State)
    requires 1 <= i <= 10 && t == CipherRounds(s, w, i - 1)
    ensures Substituted(t, u)
    ensures CipherRounds(s, w, i) == AddRoundKey(if i != 10 then MixColumns(u) else u, w[i])
  {
    u := Substitution(t);
    SubstitutionIs(t);
  }

  /** Rounds 1 to 9 substitute every byte, move row r left by r, mix the columns and add the round key. */
  lemma MiddleRoundAt(s: State, w: RoundKeys, i: nat, r: nat, c: nat) returns (u: State)
    requires 1 <= i <= 9 && r < 4 && c < 4
    ensures forall j, k :: 0 <= j < 4 && 0 <= k < 4 ==>
      ByteAt(u, j, k) == Sbox(ByteAt(CipherRounds(s, w, i - 1), j, (k + j) % 4))
    ensures ByteAt(CipherRounds(s, w, i), r, c)
         == MixByte(ByteAt(u, r, c), ByteAt(u, (r + 1) % 4, c), ByteAt(u, (r + 2) % 4, c), ByteAt(u, (r + 3) % 4, c))
            ^ ByteAt(w[i], r, c)
  {
    u := RoundLayers(s, w, i, CipherRounds(s, w, i - 1));
    MixColumnsAt(u, r, c, ByteAt(u, r, c), ByteAt(u, (r + 1) % 4, c),
      ByteAt(u, (r + 2) % 4, c), ByteAt(u, (r + 3) % 4, c));
    AddRoundKeyAt(MixColumns(u), w[i], r, c);
  }

  /** The last round does not mix. */
  lemma LastRoundAt(s: State, w: RoundKeys, t: State, r: nat, c: nat, x: bv8)
    requires r < 4 && c < 4 && t == CipherRounds(s, w, 9) && x == Sbox(ByteAt(t, r, (c + r) % 4))
    ensures ByteAt(Cipher(s, w), r, c) == x ^ ByteAt(w[10], r, c)
  {
    var u := RoundLayers(s, w, 10, t);
    AddRoundKeyAt(u, w[10], r, c);
  }

  /** Changing the last round key by d changes the output by d. */
  lemma LastKeyShows(s: State, w: RoundKeys, v: RoundKeys, r: nat, c: nat)
    requires r < 4 && c < 4 && w[..10] == v[..10]
    ensures ByteAt(Cipher(s, w), r, c) ^ ByteAt(Cipher(s, v), r, c) == ByteAt(w[10], r, c) ^ ByteAt(v[10], r, c)
  {
    EarlierKeys(Forward(), s, w, v, 9);
    var t := CipherRounds(s, w, 9);
    var x := Sbox(ByteAt(t, r, (c + r) % 4));
    LastRoundAt(s, w, t, r, c, x);
    LastRoundAt(s, v, t, r, c, x);
    XorCancels(x, ByteAt(w[10], r, c), ByteAt(v[10], r, c));
  }

  lemma XorCancels(x: bv8, j: bv8, k: bv8)
    ensures (x ^ j) ^ (x ^ k) == j ^ k
  {}

  // ----- each step is undone by its inverse -----

  lemma SubColumnUndone(t: Column)
    ensures InvSubColumn(SubColumn(t)) == t
  {
    InvSboxOfSbox(t.r0);
    InvSboxOfSbox(t.r1);
    InvSboxOfSbox(t.r2);
    InvSboxOfSbox(t.r3);
  }

  lemma InvSubColumnUndone(t: Column)
    ensures SubColumn(InvSubColumn(t)) == t
  {
    SboxOfInvSbox(t.r0);
    SboxOfInvSbox(t.r1);
    SboxOfInvSbox(t.r2);
    SboxOfInvSbox(t.r3);
  }

  lemma MixColumnUndone(t: Column, m: Column)
    requires m == MixColumn(t)
    ensures InvMixColumn(m) == t
  {
    InvMixUndoesMix(t.r0, t.r1, t.r2, t.r3, m.r0, m.r1, m.r2, m.r3);
    InvMixUndoesMix(t.r1, t.r2, t.r3, t.r0, m.r1, m.r2, m.r3, m.r0);
    InvMixUndoesMix(t.r2, t.r3, t.r0, t.r1, m.r2, m.r3, m.r0, m.r1);
    InvMixUndoesMix(t.r3, t.r0, t.r1, t.r2, m.r3, m.r0, m.r1, m.r2);
  }

  lemma InvMixColumnUndone(t: Column, m: Column)
    requires m == InvMixColumn(t)
    ensures MixColumn(m) == t
  {
    MixUndoesInvMix(t.r0, t.r1, t.r2, t.r3, m.r0, m.r1, m.r2, m.r3);
    MixUndoesInvMix(t.r1, t.r2, t.r3, t.r0, m.r1, m.r2, m.r3, m.r0);
    MixUndoesInvMix(t.r2, t.r3, t.r0, t.r1, m.r2, m.r3, m.r0, m.r1);
    MixUndoesInvMix(t.r3, t.r0, t.r1, t.r2, m.r3, m.r0, m.r1, m.r2);
  }

  lemma XorUndone(x: bv8, k: bv8)
    ensures (x ^ k) ^ k == x
  {}

  lemma XorColumnUndone(t: Column, k: Column)
    ensures XorColumn(XorColumn(t, k), k) == t
  {
    XorUndone(t.r0, k.r0);
    XorUndone(t.r1, k.r1);
    XorUndone(t.r2, k.r2);
    XorUndone(t.r3, k.r3);
  }

  lemma SubBytesUndone(s: State)
    ensures InvSubBytes(SubBytes(s)) == s && SubBytes(InvSubBytes(s)) == s
  {
    SubColumnUndone(s.c0);
    SubColumnUndone(s.c1);
    SubColumnUndone(s.c2);
    SubColumnUndone(s.c3);
    InvSubColumnUndone(s.c0);
    InvSubColumnUndone(s.c1);
    InvSubColumnUndone(s.c2);
    InvSubColumnUndone(s.c3);
  }

  lemma ShiftRowsUndone(s: State)
    ensures InvShiftRows(ShiftRows(s)) == s && ShiftRows(InvShiftRows(s)) == s
  {}

  lemma MixColumnsUndone(s: State)
    ensures InvMixColumns(MixColumns(s)) == s
  {
    MixColumnUndone(s.c0, MixColumn(s.c0));
    MixColumnUndone(s.c1, MixColumn(s.c1));
    MixColumnUndone(s.c2, MixColumn(s.c2));
    MixColumnUndone(s.c3, MixColumn(s.c3));
  }

  lemma InvMixColumnsUndone(s: State, m: State)
    requires m == InvMixColumns(s)
    ensures MixColumns(m) == s
  {
    InvMixColumnUndone(s.c0, m.c0);
    InvMixColumnUndone(s.c1, m.c1);
    InvMixColumnUndone(s.c2, m.c2);
    InvMixColumnUndone(s.c3, m.c3);
  }

  lemma AddRoundKeyUndone(s: State, k: State)
    ensures AddRoundKey(AddRoundKey(s, k), k) == s
  {
    XorColumnUndone(s.c0, k.c0);
    XorColumnUndone(s.c1, k.c1);
    XorColumnUndone(s.c2, k.c2);
    XorColumnUndone(s.c3, k.c3);
  }

  lemma SubstitutionUndone(s: State)
    ensures InvSubstitution(Substitution(s)) == s
    ensures Substitution(InvSubstitution(s)) == s
  {
    ShiftRowsUndone(SubBytes(s));
    SubBytesUndone(s);
    SubBytesUndone(InvShiftRows(s));
    ShiftRowsUndone(s);
  }

  lemma ForwardUndone(l: Layers<State>, m: Layers<State>)
    requires IsForward(l) && IsBackward(m)
    ensures Undoes(m, l)
  {
    forall s: State
      ensures m.sub(l.sub(s)) == s
    {
      SubstitutionUndone(s);
      assert l.sub(s) == Substitution(s);
    }
    forall s: State
      ensures m.mix(l.mix(s)) == s
    {
      MixColumnsUndone(s);
      assert l.mix(s) == MixColumns(s);
    }
    forall s: State, k: State
      ensures m.add(l.add(s, k), k) == s
    {
      AddRoundKeyUndone(s, k);
      assert l.add(s, k) == AddRoundKey(s, k);
    }
  }

  lemma BackwardUndone(l: Layers<State>, m: Layers<State>)
    requires IsForward(l) && IsBackward(m)
    ensures Undoes(l, m)
  {
    forall s: State
      ensures l.sub(m.sub(s)) == s
    {
      SubstitutionUndone(s);
      assert m.sub(s) == InvSubstitution(s);
    }
    forall s: State
      ensures l.mix(m.mix(s)) == s
    {
      InvMixColumnsUndone(s, InvMixColumns(s));
      assert m.mix(s) == InvMixColumns(s);
    }
    forall s: State, k: State
      ensures l.add(m.add(s, k), k) == s
    {
      AddRoundKeyUndone(s, k);
      assert m.add(s, k) == AddRoundKey(s, k);
    }
  }

  /** Whatever the eleven round keys are, the inverse cipher undoes the cipher. */
  lemma InvCipherUndoesCipher(s: State, w: RoundKeys)
    ensures InvCipher(Cipher(s, w), w) == s
  {
    ForwardUndone(Forward(), Backward());
    InverseUndoesCipher(Forward(), Backward(), s, w);
  }

  /** And the cipher undoes the inverse cipher. */
  lemma CipherUndoesInvCipher(s: State, w: RoundKeys)
    ensures Cipher(InvCipher(s, w), w) == s
  {
    BackwardUndone(Forward(), Backward());
    CipherUndoesInverse(Forward(), Backward(), s, w);
  }
}
