/** The whole of Rijndael as lab3/task3-rijndael-files/lib-src/Rijndael.java computes it,
 *  stated on values: a block as a state, the rounds of `encrypt` and `decrypt`, and the
 *  key expansion of `expandKey`, with the round trip decrypt(encrypt(b)) == b. */
module RijndaelCipher {
  import opened Gf2Poly
  import G = Gf256Service
  import opened RijndaelSpec

  // ---------------------------------------------------------------------------------------
  // Blocks and states

  /** A block fills the state column by column: byte 4c + r goes to row r, column c. */
  function ToState(block: seq<Byte>, nb: nat): (s: State)
    requires |block| == 4 * nb
    ensures IsState(s, nb)
    ensures forall r, c | 0 <= r < 4 && 0 <= c < nb :: s[r][c] == block[c * 4 + r]
  {
    seq(4, r requires 0 <= r < 4 => seq(nb, c requires 0 <= c < nb => block[c * 4 + r]))
  }

  /** The state read out column by column: byte i of the block is row i % 4, column i / 4. */
  function FromState(s: State, nb: nat): (block: seq<Byte>)
    requires IsState(s, nb)
    ensures |block| == 4 * nb
  {
    seq(4 * nb, i requires 0 <= i < 4 * nb => s[i % 4][i / 4])
  }

  /** Reading a state out and back in, or a block in and back out, changes nothing. */
  lemma {:induction false} StateRoundTrip(block: seq<Byte>, s: State, nb: nat)
    requires |block| == 4 * nb && IsState(s, nb)
    ensures FromState(ToState(block, nb), nb) == block
    ensures ToState(FromState(s, nb), nb) == s
  {
    var b := FromState(ToState(block, nb), nb);
    forall i | 0 <= i < 4 * nb
      ensures b[i] == block[i]
    {
      assert (i / 4) * 4 + i % 4 == i;
    }
    var t := ToState(FromState(s, nb), nb);
    forall r | 0 <= r < 4
      ensures t[r] == s[r]
    {
      forall c | 0 <= c < nb
        ensures t[r][c] == s[r][c]
      {
        assert (c * 4 + r) / 4 == c && (c * 4 + r) % 4 == r;
      }
    }
  }

  // ---------------------------------------------------------------------------------------
  // The rounds

  /** A key schedule: nr + 1 round keys of 4 * nb bytes. */
  predicate KeysFit(keys: seq<seq<Byte>>, nb: nat, nr: nat)
  {
    |keys| == nr + 1 && forall k | 0 <= k < |keys| :: |keys[k]| == 4 * nb
  }

  /** `subBytes` then `shiftRows`: the part of a round that `decrypt` undoes first. */
  function SubShift(s: State, nb: nat, box: seq<Byte>): (r: State)
    requires IsState(s, nb) && nb >= 4 && |box| == 256
    ensures IsState(r, nb)
  {
    ShiftRows(SubBytes(s, box), nb)
  }

  /** A full round of `encrypt`: subBytes, shiftRows, mixColumns, addRoundKey. */
  function EncRound(s: State, key: seq<Byte>, nb: nat, box: seq<Byte>, modulus: Byte): (r: State)
    requires IsState(s, nb) && nb >= 4 && |box| == 256 && |key| == 4 * nb
    ensures IsState(r, nb)
  {
    AddRoundKey(MixColumns(SubShift(s, nb, box), nb, modulus), key, nb)
  }

  /** Rounds 1 to n of `encrypt`, each with its own round key. */
  function Rounds(s: State, keys: seq<seq<Byte>>, n: nat, nb: nat, nr: nat, box: seq<Byte>, modulus: Byte): (r: State)
    requires IsState(s, nb) && nb >= 4 && |box| == 256 && KeysFit(keys, nb, nr) && n <= nr
    ensures IsState(r, nb)
  {
    if n == 0 then s
    else EncRound(Rounds(s, keys, n - 1, nb, nr, box, modulus), keys[n], nb, box, modulus)
  }

  /** Round n follows rounds 1 to n - 1. */
  lemma {:induction false} RoundsStep(s: State, keys: seq<seq<Byte>>, n: nat, nb: nat, nr: nat, box: seq<Byte>, modulus: Byte)
    requires IsState(s, nb) && nb >= 4 && |box| == 256 && KeysFit(keys, nb, nr) && 1 <= n <= nr
    ensures Rounds(s, keys, n, nb, nr, box, modulus) ==
            EncRound(Rounds(s, keys, n - 1, nb, nr, box, modulus), keys[n], nb, box, modulus)
  {
  }

  /** `encrypt` on the state: the initial key, nr - 1 full rounds and a round without
   *  mixColumns. */
  function CipherState(s: State, keys: seq<seq<Byte>>, nb: nat, nr: nat, box: seq<Byte>, modulus: Byte): (r: State)
    requires IsState(s, nb) && nb >= 4 && |box| == 256 && KeysFit(keys, nb, nr) && nr >= 1
    ensures IsState(r, nb)
  {
    var start := AddRoundKey(s, keys[0], nb);
    AddRoundKey(SubShift(Rounds(start, keys, nr - 1, nb, nr, box, modulus), nb, box), keys[nr], nb)
  }

  /** A full round of `decrypt`: invShiftRows, invSubBytes, addRoundKey, invMixColumns. */
  function DecRound(s: State, key: seq<Byte>, nb: nat, inv: seq<Byte>, modulus: Byte): (r: State)
    requires IsState(s, nb) && nb >= 4 && |inv| == 256 && |key| == 4 * nb
    ensures IsState(r, nb)
  {
    InvMixColumns(AddRoundKey(SubBytes(InvShiftRows(s, nb), inv), key, nb), nb, modulus)
  }

  /** Rounds n down to 1 of `decrypt`. */
  function DecDown(s: State, keys: seq<seq<Byte>>, n: nat, nb: nat, nr: nat, inv: seq<Byte>, modulus: Byte): (r: State)
    requires IsState(s, nb) && nb >= 4 && |inv| == 256 && KeysFit(keys, nb, nr) && n <= nr
    ensures IsState(r, nb)
    decreases n
  {
    if n == 0 then s
    else DecDown(DecRound(s, keys[n], nb, inv, modulus), keys, n - 1, nb, nr, inv, modulus)
  }

  /** Rounds n down to 1 are round n followed by rounds n - 1 down to 1. */
  lemma {:induction false} DecDownStep(s: State, keys: seq<seq<Byte>>, n: nat, nb: nat, nr: nat, inv: seq<Byte>, modulus: Byte)
    requires IsState(s, nb) && nb >= 4 && |inv| == 256 && KeysFit(keys, nb, nr) && 1 <= n <= nr
    ensures DecDown(s, keys, n, nb, nr, inv, modulus) ==
            DecDown(DecRound(s, keys[n], nb, inv, modulus), keys, n - 1, nb, nr, inv, modulus)
  {
  }

  /** Rounds nr - 1 down to n + 1 of `decrypt`: where the loop of `decrypt` stands before
   *  round n. */
  function DecAbove(s: State, keys: seq<seq<Byte>>, n: nat, nb: nat, nr: nat, inv: seq<Byte>, modulus: Byte): (r: State)
    requires IsState(s, nb) && nb >= 4 && |inv| == 256 && KeysFit(keys, nb, nr) && n < nr
    ensures IsState(r, nb)
    decreases nr - n
  {
    if n == nr - 1 then s
    else DecRound(DecAbove(s, keys, n + 1, nb, nr, inv, modulus), keys[n + 1], nb, inv, modulus)
  }

  /** Running the rounds from the top down to n + 1 and then rounds n down to 1 is running
   *  all of rounds nr - 1 down to 1. */
  lemma {:induction false} DecAboveDown(s: State, keys: seq<seq<Byte>>, n: nat, nb: nat, nr: nat, inv: seq<Byte>, modulus: Byte)
    requires IsState(s, nb) && nb >= 4 && |inv| == 256 && KeysFit(keys, nb, nr) && n < nr
    ensures DecDown(DecAbove(s, keys, n, nb, nr, inv, modulus), keys, n, nb, nr, inv, modulus) ==
            DecDown(s, keys, nr - 1, nb, nr, inv, modulus)
    decreases nr - n
  {
    if n < nr - 1 {
      DecAboveDown(s, keys, n + 1, nb, nr, inv, modulus);
      DecDownStep(DecAbove(s, keys, n + 1, nb, nr, inv, modulus), keys, n + 1, nb, nr, inv, modulus);
    }
  }

  /** All the rounds of the loop of `decrypt`, from the top down to 1. */
  lemma {:induction false} DecAboveAll(s: State, keys: seq<seq<Byte>>, nb: nat, nr: nat, inv: seq<Byte>, modulus: Byte)
    requires IsState(s, nb) && nb >= 4 && |inv| == 256 && KeysFit(keys, nb, nr) && nr >= 1
    ensures DecAbove(s, keys, 0, nb, nr, inv, modulus) == DecDown(s, keys, nr - 1, nb, nr, inv, modulus)
  {
    DecAboveDown(s, keys, 0, nb, nr, inv, modulus);
  }

  /** `decrypt` on the state: the last key, rounds nr - 1 down to 1, and a final round
   *  without invMixColumns. */
  function InvCipherState(s: State, keys: seq<seq<Byte>>, nb: nat, nr: nat, inv: seq<Byte>, modulus: Byte): (r: State)
    requires IsState(s, nb) && nb >= 4 && |inv| == 256 && KeysFit(keys, nb, nr) && nr >= 1
    ensures IsState(r, nb)
  {
    var down := DecDown(AddRoundKey(s, keys[nr], nb), keys, nr - 1, nb, nr, inv, modulus);
    AddRoundKey(SubBytes(InvShiftRows(down, nb), inv), keys[0], nb)
  }

  /** `encrypt`: block in, cipher on the state, block out. */
  function EncryptBlock(block: seq<Byte>, keys: seq<seq<Byte>>, nb: nat, nr: nat, box: seq<Byte>, modulus: Byte): (r: seq<Byte>)
    requires |block| == 4 * nb && nb >= 4 && |box| == 256 && KeysFit(keys, nb, nr) && nr >= 1
    ensures |r| == 4 * nb
  {
    FromState(CipherState(ToState(block, nb), keys, nb, nr, box, modulus), nb)
  }

  /** `decrypt`: block in, inverse cipher on the state, block out. */
  function DecryptBlock(block: seq<Byte>, keys: seq<seq<Byte>>, nb: nat, nr: nat, inv: seq<Byte>, modulus: Byte): (r: seq<Byte>)
    requires |block| == 4 * nb && nb >= 4 && |inv| == 256 && KeysFit(keys, nb, nr) && nr >= 1
    ensures |r| == 4 * nb
  {
    FromState(InvCipherState(ToState(block, nb), keys, nb, nr, inv, modulus), nb)
  }

  // ---------------------------------------------------------------------------------------
  // The round trip

  /** The inverse table undoes the S-box on every byte. */
  predicate Inverts(box: seq<Byte>, inv: seq<Byte>)
  {
    |box| == 256 && |inv| == 256 && forall x: Byte :: inv[box[x]] == x
  }

  /** The steps of a decryption round that come before invMixColumns undo the steps of the
   *  encryption round that come after subBytes and shiftRows. */
  lemma {:induction false} UndoSubShift(x: State, nb: nat, box: seq<Byte>, inv: seq<Byte>)
    requires IsState(x, nb) && nb >= 4 && Inverts(box, inv)
    ensures SubBytes(InvShiftRows(SubShift(x, nb, box), nb), inv) == x
  {
    ShiftRowsInverse(SubBytes(x, box), nb);
    SubBytesInverse(x, box, inv);
  }

  /** One decryption round, applied after the next encryption round's subBytes and
   *  shiftRows, gives back the state that round started from after the same two steps. */
  lemma {:induction false} UndoRound(x: State, key: seq<Byte>, nb: nat, box: seq<Byte>, inv: seq<Byte>, modulus: Byte)
    requires IsState(x, nb) && nb >= 4 && Inverts(box, inv) && |key| == 4 * nb
    ensures DecRound(SubShift(EncRound(x, key, nb, box, modulus), nb, box), key, nb, inv, modulus)
            == SubShift(x, nb, box)
  {
    var e := EncRound(x, key, nb, box, modulus);
    var m := MixColumns(SubShift(x, nb, box), nb, modulus);
    UndoSubShift(e, nb, box, inv);
    AddRoundKeyInvolution(m, key, nb);
    MixColumnsInverse(SubShift(x, nb, box), nb, modulus);
  }

  /** Rounds n down to 1 of decryption undo rounds 1 to n of encryption. */
  lemma {:induction false} UndoRounds(x: State, keys: seq<seq<Byte>>, n: nat, nb: nat, nr: nat,
                                      box: seq<Byte>, inv: seq<Byte>, modulus: Byte)
    requires IsState(x, nb) && nb >= 4 && Inverts(box, inv) && KeysFit(keys, nb, nr) && n <= nr
    ensures DecDown(SubShift(Rounds(x, keys, n, nb, nr, box, modulus), nb, box), keys, n, nb, nr, inv, modulus)
            == SubShift(x, nb, box)
  {
    if n > 0 {
      var before := Rounds(x, keys, n - 1, nb, nr, box, modulus);
      UndoRound(before, keys[n], nb, box, inv, modulus);
      UndoRounds(x, keys, n - 1, nb, nr, box, inv, modulus);
    }
  }

  /** `decrypt` undoes `encrypt` on the state, for any key schedule of the right shape. */
  lemma {:induction false} CipherStateInverse(s: State, keys: seq<seq<Byte>>, nb: nat, nr: nat,
                           box: seq<Byte>, inv: seq<Byte>, modulus: Byte)
    requires IsState(s, nb) && nb >= 4 && Inverts(box, inv) && KeysFit(keys, nb, nr) && nr >= 1
    ensures InvCipherState(CipherState(s, keys, nb, nr, box, modulus), keys, nb, nr, inv, modulus) == s
  {
    var start := AddRoundKey(s, keys[0], nb);
    var last := SubShift(Rounds(start, keys, nr - 1, nb, nr, box, modulus), nb, box);
    AddRoundKeyInvolution(last, keys[nr], nb);
    UndoRounds(start, keys, nr - 1, nb, nr, box, inv, modulus);
    UndoSubShift(start, nb, box, inv);
    AddRoundKeyInvolution(s, keys[0], nb);
  }

  /** `decrypt(encrypt(block)) == block` for every block of the cipher's size. */
  lemma {:induction false} DecryptEncrypt(block: seq<Byte>, keys: seq<seq<Byte>>, nb: nat, nr: nat,
                       box: seq<Byte>, inv: seq<Byte>, modulus: Byte)
    requires |block| == 4 * nb && nb >= 4 && Inverts(box, inv) && KeysFit(keys, nb, nr) && nr >= 1
    ensures DecryptBlock(EncryptBlock(block, keys, nb, nr, box, modulus), keys, nb, nr, inv, modulus) == block
  {
    var s := ToState(block, nb);
    var c := CipherState(s, keys, nb, nr, box, modulus);
    StateRoundTrip(block, c, nb);
    CipherStateInverse(s, keys, nb, nr, box, inv, modulus);
    StateRoundTrip(block, s, nb);
  }

  // ---------------------------------------------------------------------------------------
  // The key expansion (`expandKey`, `rotWord`, `subWord`, `rcon`)

  /** `rotWord`: a cyclic left rotation of a word by one byte. */
  function RotWord(w: seq<Byte>): (r: seq<Byte>)
    requires |w| == 4
    ensures |r| == 4 && forall i | 0 <= i < 4 :: r[i] == w[(i + 1) % 4]
  {
    [w[1], w[2], w[3], w[0]]
  }

  /** `subWord`: every byte of a word replaced by its S-box entry. */
  function SubWord(w: seq<Byte>, box: seq<Byte>): (r: seq<Byte>)
    requires |w| == 4 && |box| == 256
    ensures |r| == 4
  {
    seq(4, i requires 0 <= i < 4 => box[w[i]])
  }

  /** Two words added byte by byte. */
  function XorWord(a: seq<Byte>, b: seq<Byte>): (r: seq<Byte>)
    requires |a| == 4 && |b| == 4
    ensures |r| == 4
  {
    seq(4, i requires 0 <= i < 4 => G.Add(a[i], b[i]))
  }

  /** `rcon(i)`: 1 for i = 1 and each later constant the one before times x; the code gives
   *  2 for i = 0, which the expansion never asks for. */
  function Rcon(i: nat, modulus: Byte): (r: Byte)
  {
    if i == 0 then 2
    else if i == 1 then 1
    else G.FieldMul(Rcon(i - 1, modulus), 2, modulus)
  }

  /** The round constants are the powers of x: rcon(i) is x^(i - 1) reduced by the field
   *  polynomial. */
  lemma {:induction false} RconPower(i: nat, modulus: Byte)
    requires i >= 1
    ensures Rcon(i, modulus) == Mod(Pow2(i - 1), G.FieldPoly(modulus))
  {
    var p := G.FieldPoly(modulus);
    if i == 1 {
      ModSmall(1, p);
    } else {
      RconPower(i - 1, modulus);
      G.PowerStep(i - 2, p);
    }
  }

  /** The word the expansion adds to word i - nk to give word i: the previous word, rotated,
   *  substituted and with the round constant added to its first byte at the start of each
   *  key length, substituted alone at the middle of a key of more than six words. */
  function Temp(prev: seq<Byte>, i: nat, nk: nat, box: seq<Byte>, modulus: Byte): (r: seq<Byte>)
    requires |prev| == 4 && |box| == 256 && nk >= 1
    ensures |r| == 4
  {
    if i % nk == 0 then
      var t := SubWord(RotWord(prev), box);
      t[0 := G.Add(t[0], Rcon(i / nk, modulus))]
    else if nk > 6 && i % nk == 4 then SubWord(prev, box)
    else prev
  }

  /** Word i of the expanded key: the key's own words first, then each word the sum of the
   *  word nk places back and the transformed previous word. */
  function Word(key: seq<Byte>, nk: nat, i: nat, box: seq<Byte>, modulus: Byte): (w: seq<Byte>)
    requires nk >= 1 && |key| >= 4 * nk && |box| == 256
    ensures |w| == 4
  {
    if i < nk then key[4 * i .. 4 * i + 4]
    else
      XorWord(Word(key, nk, i - nk, box, modulus),
              Temp(Word(key, nk, i - 1, box, modulus), i, nk, box, modulus))
  }

  lemma {:induction false} IndexSplit(idx: nat, nb: nat)
    requires nb >= 1 && idx < 4 * nb
    ensures idx / nb < 4 && idx % nb < nb && idx == (idx / nb) * nb + idx % nb
  {
  }

  /** Word `round * nb + col` of a round key lies inside the expanded key. */
  lemma {:induction false} WordIndex(round: nat, col: nat, nb: nat, nr: nat)
    requires round <= nr && col < nb
    ensures round * nb + col < nb * (nr + 1)
  {
    assert round * nb <= nr * nb;
  }

  /** The first `count` words of the expansion. */
  function Words(key: seq<Byte>, nk: nat, count: nat, box: seq<Byte>, modulus: Byte): (ws: seq<seq<Byte>>)
    requires nk >= 1 && |key| >= 4 * nk && |box| == 256
    ensures |ws| == count && forall k | 0 <= k < count :: ws[k] == Word(key, nk, k, box, modulus)
  {
    seq(count, k requires 0 <= k < count => Word(key, nk, k, box, modulus))
  }

  /** Word `k` of `words` follows the expansion rule from the words before it. */
  predicate Expands(words: seq<seq<Byte>>, k: nat, nk: nat, box: seq<Byte>, modulus: Byte)
  {
    nk >= 1 && nk <= k < |words| && |box| == 256 && |words[k - 1]| == 4 && |words[k - nk]| == 4 &&
    words[k] == XorWord(words[k - nk], Temp(words[k - 1], k, nk, box, modulus))
  }

  /** The expanded words begin with the key's bytes, four to a word, and every later word
   *  follows the expansion rule. */
  lemma {:induction false} WordsExpand(key: seq<Byte>, nk: nat, count: nat, box: seq<Byte>, modulus: Byte)
    requires nk >= 1 && |key| >= 4 * nk && |box| == 256
    ensures forall k, j | 0 <= k < nk && k < count && 0 <= j < 4 ::
              Words(key, nk, count, box, modulus)[k][j] == key[4 * k + j]
    ensures forall k | nk <= k < count :: Expands(Words(key, nk, count, box, modulus), k, nk, box, modulus)
  {
  }

  /** The last loop of `expandKey` on values: byte `row * nb + col` of round key `round` is
   *  byte `row` of word `round * nb + col`. */
  function Layout(words: seq<seq<Byte>>, nb: nat, nr: nat): (keys: seq<seq<Byte>>)
    requires nb >= 1 && |words| == nb * (nr + 1) && forall k | 0 <= k < |words| :: |words[k]| == 4
    ensures KeysFit(keys, nb, nr)
  {
    seq(nr + 1, round requires 0 <= round <= nr =>
      seq(4 * nb, idx requires 0 <= idx < 4 * nb =>
        IndexSplit(idx, nb);
        WordIndex(round, idx % nb, nb, nr);
        words[round * nb + idx % nb][idx / nb]))
  }

  /** The round keys `expandKey` returns: the expanded words laid out round by round. */
  function RoundKeys(key: seq<Byte>, nb: nat, nk: nat, nr: nat, box: seq<Byte>, modulus: Byte): (keys: seq<seq<Byte>>)
    requires nb >= 1 && nk >= 1 && |key| >= 4 * nk && |box| == 256
    ensures KeysFit(keys, nb, nr)
  {
    Layout(Words(key, nk, nb * (nr + 1), box, modulus), nb, nr)
  }

  lemma {:induction false} RowCol(row: nat, col: nat, nb: nat)
    requires row < 4 && col < nb
    ensures (row * nb + col) / nb == row && (row * nb + col) % nb == col
  {
    var idx := row * nb + col;
    IndexSplit(idx, nb);
    var q, r := idx / nb, idx % nb;
    assert (row - q) * nb == r - col;
  }

  /** Position `row * nb + col` of a round key, which the code writes byte `row` of a word
   *  to. */
  function Pos(row: nat, col: nat, nb: nat): (p: nat)
    requires row < 4 && col < nb
    ensures p < 4 * nb
  {
    row * nb + col
  }

  /** Index `round * nb + col` of the word that goes to column `col` of round key `round`. */
  function Slot(round: nat, col: nat, nb: nat, nr: nat): (k: nat)
    requires round <= nr && col < nb
    ensures k < nb * (nr + 1)
  {
    WordIndex(round, col, nb, nr);
    round * nb + col
  }

  /** Different (row, column) pairs give different positions. */
  lemma {:induction false} PosDistinct(row: nat, col: nat, nb: nat)
    requires row < 4 && col < nb
    ensures forall rw: nat, c: nat | rw < 4 && c < nb && (rw != row || c != col) ::
              Pos(rw, c, nb) != Pos(row, col, nb)
  {
    forall rw: nat, c: nat | rw < 4 && c < nb && (rw != row || c != col)
      ensures Pos(rw, c, nb) != Pos(row, col, nb)
    {
      RowCol(rw, c, nb);
      RowCol(row, col, nb);
    }
  }

  /** Round keys that hold byte `row` of word `Slot(round, col)` at `Pos(row, col)`, for
   *  every row and column, are the layout of the words. */
  lemma {:induction false} LayoutByPositions(keys: seq<seq<Byte>>, words: seq<seq<Byte>>, nb: nat, nr: nat)
    requires nb >= 1 && |words| == nb * (nr + 1) && forall k | 0 <= k < |words| :: |words[k]| == 4
    requires KeysFit(keys, nb, nr)
    requires forall r: nat, rw: nat, c: nat | r <= nr && rw < 4 && c < nb ::
               keys[r][Pos(rw, c, nb)] == words[Slot(r, c, nb, nr)][rw]
    ensures keys == Layout(words, nb, nr)
  {
    var l := Layout(words, nb, nr);
    forall r | 0 <= r <= nr
      ensures keys[r] == l[r]
    {
      forall idx | 0 <= idx < 4 * nb
        ensures keys[r][idx] == l[r][idx]
      {
        IndexSplit(idx, nb);
        assert Pos(idx / nb, idx % nb, nb) == idx;
      }
    }
  }

  /** Where `Layout` puts each byte: word `round * nb + col` lies in round key `round` at
   *  positions `col`, `nb + col`, `2nb + col` and `3nb + col`. */
  lemma {:induction false} LayoutEntry(words: seq<seq<Byte>>, nb: nat, nr: nat, round: nat, row: nat, col: nat)
    requires nb >= 1 && |words| == nb * (nr + 1) && forall k | 0 <= k < |words| :: |words[k]| == 4
    requires round <= nr && row < 4 && col < nb
    ensures row * nb + col < 4 * nb && round * nb + col < nb * (nr + 1)
    ensures Layout(words, nb, nr)[round][row * nb + col] == words[round * nb + col][row]
  {
    RowCol(row, col, nb);
    WordIndex(round, col, nb, nr);
  }

  /** The same for the round keys: byte `row * nb + col` of round key `round` is byte `row`
   *  of word `round * nb + col`. */
  lemma {:induction false} RoundKeyLayout(key: seq<Byte>, nb: nat, nk: nat, nr: nat, box: seq<Byte>, modulus: Byte,
                       round: nat, row: nat, col: nat)
    requires nb >= 1 && nk >= 1 && |key| >= 4 * nk && |box| == 256
    requires round <= nr && row < 4 && col < nb
    ensures row * nb + col < 4 * nb
    ensures RoundKeys(key, nb, nk, nr, box, modulus)[round][row * nb + col]
            == Word(key, nk, round * nb + col, box, modulus)[row]
  {
    LayoutEntry(Words(key, nk, nb * (nr + 1), box, modulus), nb, nr, round, row, col);
  }

  /** With 4-word blocks, round key `round` is added to the state transposed: the byte in row
   *  i, column j receives byte j of word `4 * round + i`, where FIPS 197 adds byte i of word
   *  `4 * round + j`. */
  lemma {:induction false} AddRoundKeyTransposed(s: State, key: seq<Byte>, nk: nat, nr: nat, box: seq<Byte>, modulus: Byte,
                              round: nat, i: nat, j: nat)
    requires nk >= 1 && |key| >= 4 * nk && |box| == 256 && IsState(s, 4)
    requires round <= nr && i < 4 && j < 4
    ensures AddRoundKey(s, RoundKeys(key, 4, nk, nr, box, modulus)[round], 4)[i][j]
            == G.Add(s[i][j], Word(key, nk, round * 4 + i, box, modulus)[j])
  {
    RoundKeyLayout(key, 4, nk, nr, box, modulus, round, j, i);
    AddRoundKeyEntry(s, RoundKeys(key, 4, nk, nr, box, modulus)[round], i, j);
  }

  lemma {:induction false} AddRoundKeyEntry(s: State, k: seq<Byte>, i: nat, j: nat)
    requires IsState(s, 4) && |k| == 16 && i < 4 && j < 4
    ensures AddRoundKey(s, k, 4)[i][j] == G.Add(s[i][j], k[j * 4 + i])
  {
  }
}
