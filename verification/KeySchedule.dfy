/** The key schedule of FIPS 197 section 5.2, word by word. */
module KeySchedule {
  import opened Gf256
  import opened SubstitutionBox
  import opened AesSpec

  type Key = k: seq<bv8> | |k| == 16 witness seq(16, _ => 0)

  /** The round constant x^(n - 1) */
  function Rcon(n: nat): bv8
    requires n > 0
  {
    if n == 1 then 1 else XTime(Rcon(n - 1))
  }

  /** RotWord, then f on every byte, then the round constant on the first */
  function Rotated(f: bv8 -> bv8, t: Column, constant: bv8): Column {
    Column(XorByte(f(t.r1), constant), f(t.r2), f(t.r3), f(t.r0))
  }

  /** What is added to word i - 4, given word i - 1: transformed when i starts a round key. */
  function Temp(i: nat, previous: Column): Column
    requires i >= 4
  {
    if i % 4 != 0 then previous else Rotated(Sbox, previous, Rcon(i / 4))
  }

  function Word(key: Key, i: nat): Column {
    if i < 4 then Column(key[4 * i], key[4 * i + 1], key[4 * i + 2], key[4 * i + 3])
    else XorColumn(Word(key, i - 4), Temp(i, Word(key, i - 1)))
  }

  function RoundKey(key: Key, i: nat): State {
    State(Word(key, 4 * i), Word(key, 4 * i + 1), Word(key, 4 * i + 2), Word(key, 4 * i + 3))
  }

  function Schedule(key: Key): RoundKeys {
    seq(11, i requires 0 <= i < 11 => RoundKey(key, i))
  }

  /** The forty-four words of the schedule of k */
  ghost predicate AreWords(words: seq<Column>, k: Key) {
    |words| == 44 && forall n {:trigger Word(k, n)} :: 0 <= n < 44 ==> words[n] == Word(k, n)
  }

  lemma TempOf(i: nat, j: nat, previous: Column)
    requires 1 <= i && j < 4
    ensures Temp(4 * i + j, previous) == if j != 0 then previous else Rotated(Sbox, previous, Rcon(i))
  {
    assert (4 * i + j) % 4 == j && (4 * i + j) / 4 == i;
  }

  /** The recurrence of the schedule, for word 4 * i + j */
  lemma {:induction false} WordStep(k: Key, i: nat, j: nat, next: Column, temp: Column,
        words: seq<Column>)
    requires AreWords(words, k) && 1 <= i <= 10 && j < 4
    requires temp == if j != 0 then words[4 * i + j - 1] else Rotated(Sbox, words[4 * i + j - 1], Rcon(i))
    requires next == XorColumn(words[4 * i + j - 4], temp)
    ensures next == words[4 * i + j]
  {
    var n := 4 * i + j;
    TempOf(i, j, words[n - 1]);
    assert words[n] == Word(k, n) && words[n - 1] == Word(k, n - 1) && words[n - 4] == Word(k, n - 4);
  }

  // ----- the recurrence byte by byte -----

  lemma AllWords(k: Key) returns (words: seq<Column>)
    ensures AreWords(words, k)
  {
    words := seq(44, n requires 0 <= n < 44 => Word(k, n));
  }

  lemma NextWord(k: Key, words: seq<Column>, i: nat, c: nat)
    requires AreWords(words, k) && 1 <= i <= 10 && 1 <= c < 4
    ensures words[4 * i + c] == XorColumn(words[4 * i + c - 4], words[4 * i + c - 1])
  {
    WordStep(k, i, c, XorColumn(words[4 * i + c - 4], words[4 * i + c - 1]), words[4 * i + c - 1], words);
  }

  lemma TurnWord(k: Key, words: seq<Column>, i: nat) returns (turn: Column)
    requires AreWords(words, k) && 1 <= i <= 10
    ensures turn == Rotated(Sbox, words[4 * i - 1], Rcon(i)) && words[4 * i] == XorColumn(words[4 * i - 4], turn)
  {
    turn := Rotated(Sbox, words[4 * i - 1], Rcon(i));
    WordStep(k, i, 0, XorColumn(words[4 * i - 4], turn), turn, words);
  }

  lemma ZipCell(f: (bv8, bv8) -> bv8, t: Column, k: Column, u: Column, r: nat)
    requires r < 4 && u == Zip(f, t, k)
    ensures Cell(u, r) == f(Cell(t, r), Cell(k, r))
  {}

  lemma XorCell(t: Column, k: Column, u: Column, r: nat, x: bv8, y: bv8)
    requires r < 4 && u == XorColumn(t, k) && x == Cell(t, r) && y == Cell(k, r)
    ensures Cell(u, r) == XorByte(x, y)
  {
    ZipCell(XorByte, t, k, u, r);
  }

  lemma NextByte(k: Key, words: seq<Column>, i: nat, r: nat, c: nat)
    requires AreWords(words, k) && 1 <= i <= 10 && r < 4 && 1 <= c < 4
    ensures Cell(words[4 * i + c], r) == XorByte(Cell(words[4 * i + c - 4], r), Cell(words[4 * i + c - 1], r))
  {
    var n := 4 * i + c;
    NextWord(k, words, i, c);
    XorCell(words[n - 4], words[n - 1], words[n], r, Cell(words[n - 4], r), Cell(words[n - 1], r));
  }

  lemma RotatedCell(f: bv8 -> bv8, t: Column, constant: bv8, u: Column, r: nat)
    requires r < 4 && u == Rotated(f, t, constant)
    ensures Cell(u, r) == if r == 0 then XorByte(f(Cell(t, 1)), constant) else f(Cell(t, (r + 1) % 4))
  {}

  lemma AddedIs(last: bv8, constant: bv8, r: nat, t: bv8)
    requires t == if r == 0 then last ^ constant else last
    ensures t == if r == 0 then XorByte(last, constant) else last
  {}

  lemma TurnByte(k: Key, words: seq<Column>, i: nat, r: nat, cell: bv8, last: bv8, constant: bv8, t: bv8)
    requires AreWords(words, k) && 1 <= i <= 10 && r < 4 && constant == Rcon(i)
    requires cell == Cell(words[4 * i - 1], (r + 1) % 4) && last == Sbox(cell)
    requires t == if r == 0 then XorByte(last, constant) else last
    ensures Cell(words[4 * i], r) == XorByte(Cell(words[4 * i - 4], r), t)
  {
    var turn := TurnWord(k, words, i);
    RotatedCell(Sbox, words[4 * i - 1], constant, turn, r);
    XorCell(words[4 * i - 4], turn, words[4 * i], r, Cell(words[4 * i - 4], r), Cell(turn, r));
  }

  // ----- the schedule is reversible -----

  lemma {:induction false} WordBack(key: Key, i: nat)
    requires i >= 4
    ensures Word(key, i - 4) == XorColumn(Word(key, i), Temp(i, Word(key, i - 1)))
  {
    XorColumnUndone(Word(key, i - 4), Temp(i, Word(key, i - 1)));
  }

  lemma {:induction false} SameWordBack(k: Key, l: Key, i: nat)
    requires i >= 4 && Word(k, i) == Word(l, i) && Word(k, i - 1) == Word(l, i - 1)
    ensures Word(k, i - 4) == Word(l, i - 4)
  {
    WordBack(k, i);
    WordBack(l, i);
  }

  /** The four words from n on */
  ghost predicate SameWords(k: Key, l: Key, n: nat) {
    && Word(k, n) == Word(l, n) && Word(k, n + 1) == Word(l, n + 1)
    && Word(k, n + 2) == Word(l, n + 2) && Word(k, n + 3) == Word(l, n + 3)
  }

  /** Four equal words in a row determine the one before them, and so all words back to the key. */
  lemma {:induction false} FirstWords(k: Key, l: Key, n: nat)
    requires SameWords(k, l, n)
    ensures SameWords(k, l, 0)
  {
    if n == 0 {
    } else {
      SameWordBack(k, l, n + 3);
      FirstWords(k, l, n - 1);
    }
  }

  /** Any single round key determines the key, and with it the whole schedule. */
  lemma {:induction false} RoundKeyDeterminesKey(k: Key, l: Key, i: nat)
    requires RoundKey(k, i) == RoundKey(l, i)
    ensures k == l
  {
    FirstWords(k, l, 4 * i);
    FirstWordsAreKey(k, l);
  }

  lemma {:induction false} FirstWordsAreKey(k: Key, l: Key)
    requires SameWords(k, l, 0)
    ensures k == l
  {
    assert Word(k, 0) == Word(l, 0) && Word(k, 1) == Word(l, 1) && Word(k, 2) == Word(l, 2) && Word(k, 3) == Word(l, 3);
  }
}
