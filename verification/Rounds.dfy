/** The rounds of internal/cipher/cipher.go:77-155 against the quarter round of RFC 8439, section 2.1. */
module Rounds {
  import opened Words

  /** The quarter round of section 2.1 on four words. */
  function Quarter(a: Word, b: Word, c: Word, d: Word): (Word, Word, Word, Word) {
    var a1 := Add(a, b);
    var d1 := RotateLeft32(Xor(d, a1), 16);
    var c1 := Add(c, d1);
    var b1 := RotateLeft32(Xor(b, c1), 12);
    var a2 := Add(a1, b1);
    var d2 := RotateLeft32(Xor(d1, a2), 8);
    var c2 := Add(c1, d2);
    (a2, RotateLeft32(Xor(b1, c2), 7), c2, d2)
  }

  /** The quarter round run backwards. */
  function Unquarter(a: Word, b: Word, c: Word, d: Word): (Word, Word, Word, Word) {
    var b1 := Xor(TurnsBack(b, 7), c);
    var c1 := Sub(c, d);
    var d1 := Xor(TurnsBack(d, 8), a);
    var a1 := Sub(a, b1);
    var b0 := Xor(TurnsBack(b1, 12), c1);
    var c0 := Sub(c1, d1);
    var d0 := Xor(TurnsBack(d1, 16), a1);
    (Sub(a1, b0), b0, c0, d0)
  }

  /** Four different words of a block. */
  type Lane = q: (nat, nat, nat, nat) |
      q.0 < 16 && q.1 < 16 && q.2 < 16 && q.3 < 16
      && q.0 != q.1 && q.0 != q.2 && q.0 != q.3 && q.1 != q.2 && q.1 != q.3 && q.2 != q.3
    witness (0, 4, 8, 12)

  function Put(s: Block, q: Lane, w: (Word, Word, Word, Word)): Block {
    s[q.0 := w.0][q.1 := w.1][q.2 := w.2][q.3 := w.3]
  }

  function QuarterRound(s: Block, q: Lane): Block {
    Put(s, q, Quarter(s[q.0], s[q.1], s[q.2], s[q.3]))
  }

  function UnquarterRound(s: Block, q: Lane): Block {
    Put(s, q, Unquarter(s[q.0], s[q.1], s[q.2], s[q.3]))
  }

  /** The columns and then the diagonals (section 2.3). */
  const DOUBLE_ROUND: seq<Lane> := [
    (0, 4, 8, 12), (1, 5, 9, 13), (2, 6, 10, 14), (3, 7, 11, 15),
    (0, 5, 10, 15), (1, 6, 11, 12), (2, 7, 8, 13), (3, 4, 9, 14)]

  function Forward(s: Block, lanes: seq<Lane>): Block {
    if lanes == [] then s else QuarterRound(Forward(s, lanes[..|lanes| - 1]), lanes[|lanes| - 1])
  }

  function Backward(s: Block, lanes: seq<Lane>): Block
    decreases |lanes|
  {
    if lanes == [] then s else Backward(UnquarterRound(s, lanes[|lanes| - 1]), lanes[..|lanes| - 1])
  }

  function DoubleRounds(s: Block, n: nat): Block {
    if n == 0 then s else Forward(DoubleRounds(s, n - 1), DOUBLE_ROUND)
  }

  function Unrounds(s: Block, n: nat): Block
    decreases n
  {
    if n == 0 then s else Unrounds(Backward(s, DOUBLE_ROUND), n - 1)
  }

  lemma QuarterInverse(a: Word, b: Word, c: Word, d: Word)
    ensures var q := Quarter(a, b, c, d); Unquarter(q.0, q.1, q.2, q.3) == (a, b, c, d)
  {
    hide Add, Sub, Xor, Turns, TurnsBack;
    var a1 := Add(a, b);
    var d1 := RotateLeft32(Xor(d, a1), 16);
    var c1 := Add(c, d1);
    var b1 := RotateLeft32(Xor(b, c1), 12);
    var a2 := Add(a1, b1);
    var d2 := RotateLeft32(Xor(d1, a2), 8);
    var c2 := Add(c1, d2);
    TurnsUndo(Xor(b1, c2), 7);
    XorUndoes(b1, c2);
    TurnsUndo(Xor(d1, a2), 8);
    XorUndoes(d1, a2);
    TurnsUndo(Xor(b, c1), 12);
    XorUndoes(b, c1);
    TurnsUndo(Xor(d, a1), 16);
    XorUndoes(d, a1);
    AddUndoes(c1, d2);
    AddUndoes(a1, b1);
    AddUndoes(c, d1);
    AddUndoes(a, b);
  }

  lemma UnquarterInverse(a: Word, b: Word, c: Word, d: Word)
    ensures var q := Unquarter(a, b, c, d); Quarter(q.0, q.1, q.2, q.3) == (a, b, c, d)
  {
    hide Add, Sub, Xor, Turns, TurnsBack;
    var b1 := Xor(TurnsBack(b, 7), c);
    var c1 := Sub(c, d);
    var d1 := Xor(TurnsBack(d, 8), a);
    var a1 := Sub(a, b1);
    XorUndoes(TurnsBack(d1, 16), a1);
    TurnsRedo(d1, 16);
    XorUndoes(TurnsBack(b1, 12), c1);
    TurnsRedo(b1, 12);
    XorUndoes(TurnsBack(d, 8), a);
    TurnsRedo(d, 8);
    XorUndoes(TurnsBack(b, 7), c);
    TurnsRedo(b, 7);
    AddUndoes(a1, Xor(TurnsBack(b1, 12), c1));
    AddUndoes(c1, d1);
    AddUndoes(a, b1);
    AddUndoes(c, d);
  }

  lemma {:induction false} LanesInverse(s: Block, lanes: seq<Lane>)
    ensures Backward(Forward(s, lanes), lanes) == s
    ensures Forward(Backward(s, lanes), lanes) == s
    decreases |lanes|
  {
    hide Quarter, Unquarter;
    if lanes != [] {
      var q, rest := lanes[|lanes| - 1], lanes[..|lanes| - 1];
      var r := Forward(s, rest);
      QuarterInverse(r[q.0], r[q.1], r[q.2], r[q.3]);
      assert UnquarterRound(QuarterRound(r, q), q) == r;
      LanesInverse(s, rest);
      var t := UnquarterRound(s, q);
      UnquarterInverse(s[q.0], s[q.1], s[q.2], s[q.3]);
      assert QuarterRound(t, q) == s;
      LanesInverse(t, rest);
    }
  }

  /** The rounds lose nothing: any number of them is a bijection of the states. */
  lemma {:induction false} RoundsInverse(s: Block, n: nat)
    ensures Unrounds(DoubleRounds(s, n), n) == s
    ensures DoubleRounds(Unrounds(s, n), n) == s
    decreases n
  {
    hide Forward, Backward;
    if n > 0 {
      LanesInverse(DoubleRounds(s, n - 1), DOUBLE_ROUND);
      RoundsInverse(s, n - 1);
      LanesInverse(s, DOUBLE_ROUND);
      RoundsInverse(Backward(s, DOUBLE_ROUND), n - 1);
    }
  }

  /** A quarter round writes the four words of its lane and no other. */
  lemma LaneOnly(s: Block, q: Lane)
    ensures var r := QuarterRound(s, q);
      && (r[q.0], r[q.1], r[q.2], r[q.3]) == Quarter(s[q.0], s[q.1], s[q.2], s[q.3])
      && forall k :: 0 <= k < 16 && k !in {q.0, q.1, q.2, q.3} ==> r[k] == s[k]
  {
    hide Quarter;
  }

  lemma FourColumns(s: Block) returns (r: Block)
    ensures var half := QuarterRound(QuarterRound(s, (0, 4, 8, 12)), (1, 5, 9, 13));
      r == QuarterRound(QuarterRound(half, (2, 6, 10, 14)), (3, 7, 11, 15))
    ensures (r[0], r[4], r[8], r[12]) == Quarter(s[0], s[4], s[8], s[12])
    ensures (r[1], r[5], r[9], r[13]) == Quarter(s[1], s[5], s[9], s[13])
    ensures (r[2], r[6], r[10], r[14]) == Quarter(s[2], s[6], s[10], s[14])
    ensures (r[3], r[7], r[11], r[15]) == Quarter(s[3], s[7], s[11], s[15])
  {
    hide Quarter, QuarterRound;
    LaneOnly(s, (0, 4, 8, 12));
    var r1 := QuarterRound(s, (0, 4, 8, 12));
    LaneOnly(r1, (1, 5, 9, 13));
    var r2 := QuarterRound(r1, (1, 5, 9, 13));
    LaneOnly(r2, (2, 6, 10, 14));
    var r3 := QuarterRound(r2, (2, 6, 10, 14));
    LaneOnly(r3, (3, 7, 11, 15));
    r := QuarterRound(r3, (3, 7, 11, 15));
  }

  lemma FourDiagonals(s: Block) returns (r: Block)
    ensures var half := QuarterRound(QuarterRound(s, (0, 5, 10, 15)), (1, 6, 11, 12));
      r == QuarterRound(QuarterRound(half, (2, 7, 8, 13)), (3, 4, 9, 14))
    ensures (r[0], r[5], r[10], r[15]) == Quarter(s[0], s[5], s[10], s[15])
    ensures (r[1], r[6], r[11], r[12]) == Quarter(s[1], s[6], s[11], s[12])
    ensures (r[2], r[7], r[8], r[13]) == Quarter(s[2], s[7], s[8], s[13])
    ensures (r[3], r[4], r[9], r[14]) == Quarter(s[3], s[4], s[9], s[14])
  {
    hide Quarter, QuarterRound;
    LaneOnly(s, (0, 5, 10, 15));
    var r1 := QuarterRound(s, (0, 5, 10, 15));
    LaneOnly(r1, (1, 6, 11, 12));
    var r2 := QuarterRound(r1, (1, 6, 11, 12));
    LaneOnly(r2, (2, 7, 8, 13));
    var r3 := QuarterRound(r2, (2, 7, 8, 13));
    LaneOnly(r3, (3, 4, 9, 14));
    r := QuarterRound(r3, (3, 4, 9, 14));
  }

  /** A double round is a quarter round on each column of the block and then one on each diagonal. */
  lemma ColumnsThenDiagonals(s: Block) returns (mid: Block)
    ensures (mid[0], mid[4], mid[8], mid[12]) == Quarter(s[0], s[4], s[8], s[12])
    ensures (mid[1], mid[5], mid[9], mid[13]) == Quarter(s[1], s[5], s[9], s[13])
    ensures (mid[2], mid[6], mid[10], mid[14]) == Quarter(s[2], s[6], s[10], s[14])
    ensures (mid[3], mid[7], mid[11], mid[15]) == Quarter(s[3], s[7], s[11], s[15])
    ensures var r := Forward(s, DOUBLE_ROUND);
      && (r[0], r[5], r[10], r[15]) == Quarter(mid[0], mid[5], mid[10], mid[15])
      && (r[1], r[6], r[11], r[12]) == Quarter(mid[1], mid[6], mid[11], mid[12])
      && (r[2], r[7], r[8], r[13]) == Quarter(mid[2], mid[7], mid[8], mid[13])
      && (r[3], r[4], r[9], r[14]) == Quarter(mid[3], mid[4], mid[9], mid[14])
  {
    hide Quarter, QuarterRound, Forward;
    Unfold(s, DOUBLE_ROUND);
    mid := FourColumns(s);
    var r := FourDiagonals(mid);
  }

  lemma Unfold(s: Block, lanes: seq<Lane>)
    requires |lanes| == 8
    ensures var two := QuarterRound(QuarterRound(s, lanes[0]), lanes[1]);
      var four := QuarterRound(QuarterRound(two, lanes[2]), lanes[3]);
      var six := QuarterRound(QuarterRound(four, lanes[4]), lanes[5]);
      Forward(s, lanes) == QuarterRound(QuarterRound(six, lanes[6]), lanes[7])
  {
    hide QuarterRound;
    assert lanes[..8] == lanes && lanes[..8][..7] == lanes[..7] && lanes[..7][..6] == lanes[..6];
    assert lanes[..6][..5] == lanes[..5] && lanes[..5][..4] == lanes[..4] && lanes[..4][..3] == lanes[..3];
    assert lanes[..3][..2] == lanes[..2] && lanes[..2][..1] == lanes[..1] && lanes[..1][..0] == [];
    assert Forward(s, lanes[..1]) == QuarterRound(s, lanes[0]);
    assert Forward(s, lanes[..2]) == QuarterRound(Forward(s, lanes[..1]), lanes[1]);
    assert Forward(s, lanes[..3]) == QuarterRound(Forward(s, lanes[..2]), lanes[2]);
    assert Forward(s, lanes[..4]) == QuarterRound(Forward(s, lanes[..3]), lanes[3]);
    assert Forward(s, lanes[..5]) == QuarterRound(Forward(s, lanes[..4]), lanes[4]);
    assert Forward(s, lanes[..6]) == QuarterRound(Forward(s, lanes[..5]), lanes[5]);
    assert Forward(s, lanes[..7]) == QuarterRound(Forward(s, lanes[..6]), lanes[6]);
  }

  // ---------------------------------------------------------------- the unrolled rounds

  method Column0(st: array<Word>)
    requires st.Length == 16
    modifies st
    ensures st[..] == QuarterRound(old(st[..]), (0, 4, 8, 12))
  {
    hide Add, Xor, Turns;
    st[0] := Add(st[0], st[4]);
    st[12] := RotateLeft32(Xor(st[12], st[0]), -16);
    st[8] := Add(st[8], st[12]);
    st[4] := RotateLeft32(Xor(st[4], st[8]), -20);
    st[0] := Add(st[0], st[4]);
    st[12] := RotateLeft32(Xor(st[12], st[0]), -24);
    st[8] := Add(st[8], st[12]);
    st[4] := RotateLeft32(Xor(st[4], st[8]), -25);
  }

  method Column1(st: array<Word>)
    requires st.Length == 16
    modifies st
    ensures st[..] == QuarterRound(old(st[..]), (1, 5, 9, 13))
  {
    hide Add, Xor, Turns;
    st[1] := Add(st[1], st[5]);
    st[13] := RotateLeft32(Xor(st[13], st[1]), -16);
    st[9] := Add(st[9], st[13]);
    st[5] := RotateLeft32(Xor(st[5], st[9]), -20);
    st[1] := Add(st[1], st[5]);
    st[13] := RotateLeft32(Xor(st[13], st[1]), -24);
    st[9] := Add(st[9], st[13]);
    st[5] := RotateLeft32(Xor(st[5], st[9]), -25);
  }

  method Column2(st: array<Word>)
    requires st.Length == 16
    modifies st
    ensures st[..] == QuarterRound(old(st[..]), (2, 6, 10, 14))
  {
    hide Add, Xor, Turns;
    st[2] := Add(st[2], st[6]);
    st[14] := RotateLeft32(Xor(st[14], st[2]), -16);
    st[10] := Add(st[10], st[14]);
    st[6] := RotateLeft32(Xor(st[6], st[10]), -20);
    st[2] := Add(st[2], st[6]);
    st[14] := RotateLeft32(Xor(st[14], st[2]), -24);
    st[10] := Add(st[10], st[14]);
    st[6] := RotateLeft32(Xor(st[6], st[10]), -25);
  }

  method Column3(st: array<Word>)
    requires st.Length == 16
    modifies st
    ensures st[..] == QuarterRound(old(st[..]), (3, 7, 11, 15))
  {
    hide Add, Xor, Turns;
    st[3] := Add(st[3], st[7]);
    st[15] := RotateLeft32(Xor(st[15], st[3]), -16);
    st[11] := Add(st[11], st[15]);
    st[7] := RotateLeft32(Xor(st[7], st[11]), -20);
    st[3] := Add(st[3], st[7]);
    st[15] := RotateLeft32(Xor(st[15], st[3]), -24);
    st[11] := Add(st[11], st[15]);
    st[7] := RotateLeft32(Xor(st[7], st[11]), -25);
  }

  method Diagonal0(st: array<Word>)
    requires st.Length == 16
    modifies st
    ensures st[..] == QuarterRound(old(st[..]), (0, 5, 10, 15))
  {
    hide Add, Xor, Turns;
    st[0] := Add(st[0], st[5]);
    st[15] := RotateLeft32(Xor(st[15], st[0]), -16);
    st[10] := Add(st[10], st[15]);
    st[5] := RotateLeft32(Xor(st[5], st[10]), -20);
    st[0] := Add(st[0], st[5]);
    st[15] := RotateLeft32(Xor(st[15], st[0]), -24);
    st[10] := Add(st[10], st[15]);
    st[5] := RotateLeft32(Xor(st[5], st[10]), -25);
  }

  method Diagonal1(st: array<Word>)
    requires st.Length == 16
    modifies st
    ensures st[..] == QuarterRound(old(st[..]), (1, 6, 11, 12))
  {
    hide Add, Xor, Turns;
    st[1] := Add(st[1], st[6]);
    st[12] := RotateLeft32(Xor(st[12], st[1]), -16);
    st[11] := Add(st[11], st[12]);
    st[6] := RotateLeft32(Xor(st[6], st[11]), -20);
    st[1] := Add(st[1], st[6]);
    st[12] := RotateLeft32(Xor(st[12], st[1]), -24);
    st[11] := Add(st[11], st[12]);
    st[6] := RotateLeft32(Xor(st[6], st[11]), -25);
  }

  method Diagonal2(st: array<Word>)
    requires st.Length == 16
    modifies st
    ensures st[..] == QuarterRound(old(st[..]), (2, 7, 8, 13))
  {
    hide Add, Xor, Turns;
    st[2] := Add(st[2], st[7]);
    st[13] := RotateLeft32(Xor(st[13], st[2]), -16);
    st[8] := Add(st[8], st[13]);
    st[7] := RotateLeft32(Xor(st[7], st[8]), -20);
    st[2] := Add(st[2], st[7]);
    st[13] := RotateLeft32(Xor(st[13], st[2]), -24);
    st[8] := Add(st[8], st[13]);
    st[7] := RotateLeft32(Xor(st[7], st[8]), -25);
  }

  method Diagonal3(st: array<Word>)
    requires st.Length == 16
    modifies st
    ensures st[..] == QuarterRound(old(st[..]), (3, 4, 9, 14))
  {
    hide Add, Xor, Turns;
    st[3] := Add(st[3], st[4]);
    st[14] := RotateLeft32(Xor(st[14], st[3]), -16);
    st[9] := Add(st[9], st[14]);
    st[4] := RotateLeft32(Xor(st[4], st[9]), -20);
    st[3] := Add(st[3], st[4]);
    st[14] := RotateLeft32(Xor(st[14], st[3]), -24);
    st[9] := Add(st[9], st[14]);
    st[4] := RotateLeft32(Xor(st[4], st[9]), -25);
  }

  /** The loop body of Transform, its eight groups of assignments in order. */
  method DoubleRound(st: array<Word>)
    requires st.Length == 16
    modifies st
    ensures st[..] == Forward(old(st[..]), DOUBLE_ROUND)
  {
    hide QuarterRound;
    ghost var s, lanes := st[..], DOUBLE_ROUND;
    Column0(st);
    assert st[..] == Forward(s, lanes[..1]);
    Column1(st);
    assert lanes[..2][..1] == lanes[..1] && st[..] == Forward(s, lanes[..2]);
    Column2(st);
    assert lanes[..3][..2] == lanes[..2] && st[..] == Forward(s, lanes[..3]);
    Column3(st);
    assert lanes[..4][..3] == lanes[..3] && st[..] == Forward(s, lanes[..4]);
    Diagonal0(st);
    assert lanes[..5][..4] == lanes[..4] && st[..] == Forward(s, lanes[..5]);
    Diagonal1(st);
    assert lanes[..6][..5] == lanes[..5] && st[..] == Forward(s, lanes[..6]);
    Diagonal2(st);
    assert lanes[..7][..6] == lanes[..6] && st[..] == Forward(s, lanes[..7]);
    Diagonal3(st);
    assert lanes[..8][..7] == lanes[..7] && st[..] == Forward(s, lanes[..8]);
    assert lanes[..8] == lanes;
  }
}
