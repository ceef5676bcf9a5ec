/** The key stream of internal/cipher/cipher.go. It is the block function of RFC 8439, section 2.3, with
    another constant and a number of double rounds chosen by the key and nonce. */
module Cipher {
  import opened Words
  import opened Rounds

  /** New is the only maker; nothing writes to the fields afterwards. */
  datatype Cipher = Cipher(state: Block, roundGap: int)

  ghost predicate Made(c: Cipher) {
    c.state[12] == 0 && 1 <= c.roundGap <= 4
  }

  const SIGMA: seq<Byte> :=
      [0x73, 0x2b, 0x39, 0x40, 0x5e, 0x61, 0x31, 0x41, 0x6d, 0x7c, 0x5a, 0x21, 0x31, 0x38, 0x68, 0x32]

  const ROUND_GAPS: seq<int> := [2, 3, 2, 4, 3, 4, 4, 1, 1, 1, 2, 3, 3, 2, 1, 4]

  // ---------------------------------------------------------------- bytes and words

  function LittleEndian(b: seq<Byte>): Word
    requires |b| == 4
  {
    var b0: int, b1: int, b2: int, b3: int := b[0], b[1], b[2], b[3];
    b0 + 0x100 * b1 + 0x1_0000 * b2 + 0x100_0000 * b3
  }

  function ByteAt(w: Word, lane: nat): Byte
    requires lane < 4
  {
    (if lane == 0 then w else if lane == 1 then w / 0x100 else if lane == 2 then w / 0x1_0000 else w / 0x100_0000) % 256
  }

  lemma WordRoundTrip(b: seq<Byte>, lane: nat)
    requires |b| == 4 && lane < 4
    ensures ByteAt(LittleEndian(b), lane) == b[lane]
  {
    var w := LittleEndian(b);
    var b1: int, b2: int, b3: int := b[1], b[2], b[3];
    assert w / 0x100 == b1 + 0x100 * b2 + 0x1_0000 * b3;
    assert w / 0x1_0000 == b2 + 0x100 * b3;
  }

  function LoadWords(bytes: seq<Byte>, n: nat): (words: seq<Word>)
    requires 4 * n <= |bytes|
    ensures |words| == n
  {
    seq(n, i requires 0 <= i < n => LittleEndian(bytes[4 * i..4 * i + 4]))
  }

  // ---------------------------------------------------------------- set-up

  function InitialState(key: seq<Byte>, nonce: seq<Byte>): Block
    requires |key| >= 32 && |nonce| >= 12
  {
    LoadWords(SIGMA, 4) + LoadWords(key, 8) + [0] + LoadWords(nonce, 3)
  }

  /** Digits 8, 2, 15 and 5 of a mix of the state choose the gap. */
  function GapOf(s: Block): (gap: int)
    ensures 1 <= gap <= 4
  {
    var u := Add(Xor(Add(s[9], s[4]), s[11]), Xor(Add(s[14], s[13]), s[15]));
    ROUND_GAPS[2 * Digit(u, 8) + Digit(u, 2) + 4 * Digit(u, 15) + 8 * Digit(u, 5)]
  }

  method New(key: seq<Byte>, nonce: seq<Byte>) returns (c: Cipher)
    requires |key| >= 32 && |nonce| >= 12
    ensures Made(c) && 6 <= 10 - c.roundGap <= 9
    ensures c.state == InitialState(key, nonce) && c.roundGap == GapOf(c.state)
  {
    hide LoadWords;
    var state := new Word[16](_ => 0);
    StoreWords(state, 0, SIGMA, 4);
    StoreWords(state, 4, key, 8);
    state[12] := 0;
    StoreWords(state, 13, nonce, 3);
    assert state[..] == InitialState(key, nonce);
    var gap := RoundGap(state);
    return Cipher(state[..], gap);
  }

  /** The four digits are cut out with masks and put together. */
  method RoundGap(state: array<Word>) returns (gap: int)
    requires state.Length == 16
    ensures gap == GapOf(state[..])
  {
    hide Xor, Add, ShiftRight, Digit;
    var u := Add(Xor(Add(state[9], state[4]), state[11]), Xor(Add(state[14], state[13]), state[15]));
    var idx := AndBits(ShiftRight(u, 7), 2, 32);
    idx := OrBits(idx, AndBits(ShiftRight(u, 2), 1, 32), 32);
    idx := OrBits(idx, AndBits(ShiftRight(u, 13), 4, 32), 32);
    idx := OrBits(idx, AndBits(ShiftRight(u, 2), 8, 32), 32);
    MasksCutDigits(u);
    return ROUND_GAPS[idx];
  }

  lemma MasksCutDigits(u: Word)
    ensures var a, b := AndBits(ShiftRight(u, 7), 2, 32), AndBits(ShiftRight(u, 2), 1, 32);
      var c, d := AndBits(ShiftRight(u, 13), 4, 32), AndBits(ShiftRight(u, 2), 8, 32);
      OrBits(OrBits(OrBits(a, b, 32), c, 32), d, 32)
      == 2 * Digit(u, 8) + Digit(u, 2) + 4 * Digit(u, 15) + 8 * Digit(u, 5)
  {
    hide AndBits, OrBits, Digit, ShiftRight;
    assert Pow2(0) == 1 && Pow2(1) == 2 && Pow2(2) == 4 && Pow2(3) == 8;
    AndOneDigit(ShiftRight(u, 7), 32, 1);
    AndOneDigit(ShiftRight(u, 2), 32, 0);
    AndOneDigit(ShiftRight(u, 13), 32, 2);
    AndOneDigit(ShiftRight(u, 2), 32, 3);
    ShiftedDigit(u, 7, 1);
    ShiftedDigit(u, 2, 0);
    ShiftedDigit(u, 13, 2);
    ShiftedDigit(u, 2, 3);
    OrCommutes(2 * Digit(u, 8), Digit(u, 2), 32);
    OrAbove(Digit(u, 2), Digit(u, 8), 1, 32);
    OrAbove(Digit(u, 2) + 2 * Digit(u, 8), Digit(u, 15), 2, 32);
    OrAbove(Digit(u, 2) + 2 * Digit(u, 8) + 4 * Digit(u, 15), Digit(u, 5), 3, 32);
  }

  /** One of the loops that fill the state with little-endian words. */
  method StoreWords(state: array<Word>, at: nat, bytes: seq<Byte>, n: nat)
    requires at + n <= state.Length && 4 * n <= |bytes|
    modifies state
    ensures forall k :: 0 <= k < n ==> state[at + k] == LoadWords(bytes, n)[k]
    ensures forall k :: 0 <= k < state.Length && !(at <= k < at + n) ==> state[k] == old(state[k])
  {
    hide LittleEndian;
    for i := 0 to n
      invariant forall k :: 0 <= k < i ==> state[at + k] == LoadWords(bytes, n)[k]
      invariant forall k :: 0 <= k < state.Length && !(at <= k < at + i) ==> state[k] == old(state[k])
    {
      state[at + i] := LittleEndian(bytes[i * 4..i * 4 + 4]);
    }
  }

  // ---------------------------------------------------------------- the key stream

  function AddBlocks(x: Block, y: Block): Block {
    seq(16, i requires 0 <= i < 16 => Add(x[i], y[i]))
  }

  /** The block function: the rounds on the state with its counter, plus that state (section 2.3). */
  function KeyBlock(c: Cipher, counter: Word): Block
    requires Made(c)
  {
    var start := c.state[12 := counter];
    AddBlocks(DoubleRounds(start, 10 - c.roundGap), start)
  }

  function CounterAt(counter: Word, block: nat): Word {
    (counter + block) % LIMIT
  }

  function KeyByte(c: Cipher, counter: Word, k: nat): Byte
    requires Made(c)
  {
    ByteAt(KeyBlock(c, CounterAt(counter, k / 64))[k % 64 / 4], k % 4)
  }

  function Transformed(c: Cipher, body: seq<Byte>, counter: Word): (result: seq<Byte>)
    requires Made(c)
    ensures |result| == |body|
  {
    seq(|body|, k requires 0 <= k < |body| => XorByte(body[k], KeyByte(c, counter, k)))
  }

  lemma Remainder(x: int, q: int, r: int)
    requires x == q * LIMIT + r && 0 <= r < LIMIT
    ensures x % LIMIT == r
  {
  }

  lemma NextCounter(counter: Word, m: nat)
    ensures (CounterAt(counter, m) + 1) % LIMIT == CounterAt(counter, m + 1)
    ensures CounterAt(counter, 0) == counter
  {
    var s := counter + m;
    if s % LIMIT + 1 == LIMIT {
      Remainder(s + 1, s / LIMIT + 1, 0);
    } else {
      Remainder(s + 1, s / LIMIT, s % LIMIT + 1);
    }
  }

  lemma By64(x: int, q: int, r: int)
    requires x == 64 * q + r && 0 <= r < 64
    ensures x / 64 == q && x % 64 == r
  {
  }

  lemma By4(x: int, q: int, r: int)
    requires x == 4 * q + r && 0 <= r < 4
    ensures x % 4 == r
  {
  }

  lemma InBlock(m: nat, k: nat)
    ensures (64 * m + k) / 64 == m + k / 64 && (64 * m + k) % 64 == k % 64 && (64 * m + k) % 4 == k % 4
  {
    By64(64 * m + k, m + k / 64, k % 64);
    By4(64 * m + k, 16 * m + k / 4, k % 4);
  }

  lemma KeyByteOfBlock(c: Cipher, counter: Word, m: nat, i: nat)
    requires Made(c) && i < 64
    ensures KeyByte(c, counter, 64 * m + i) == ByteAt(KeyBlock(c, CounterAt(counter, m))[i / 4], i % 4)
  {
    hide KeyBlock, ByteAt, CounterAt;
    InBlock(m, i);
  }

  method Transform(c: Cipher, body: seq<Byte>, counter: Word) returns (result: seq<Byte>)
    requires Made(c)
    ensures result == Transformed(c, body, counter)
  {
    hide KeyBlock, KeyByte, XorByte, ByteAt, CounterAt;
    var out := new Byte[|body|](_ => 0);
    var length, offset, count := |body|, 0, counter;
    ghost var blocks := 0;
    NextCounter(counter, 0);
    while length > 0
      invariant offset + length == |body| && 0 <= length
      invariant length > 0 ==> offset == 64 * blocks && count == CounterAt(counter, blocks)
      invariant forall k :: 0 <= k < offset ==> out[k] == XorByte(body[k], KeyByte(c, counter, k))
    {
      var blockLen := if length > 64 then 64 else length;
      var st := BlockInPlace(c, count);
      XorBlock(out, body, offset, blockLen, st);
      forall k | offset <= k < offset + blockLen ensures out[k] == XorByte(body[k], KeyByte(c, counter, k)) {
        assert out[k] == out[offset + (k - offset)];
        KeyByteOfBlock(c, counter, blocks, k - offset);
      }
      NextCounter(counter, blocks);
      blocks := blocks + 1;
      length := length - blockLen;
      offset := offset + blockLen;
      count := (count + 1) % LIMIT;
    }
    return out[..];
  }

  method XorBlock(out: array<Byte>, body: seq<Byte>, offset: nat, blockLen: nat, st: array<Word>)
    requires out.Length == |body| && offset + blockLen <= |body| && blockLen <= 64 && st.Length == 16
    modifies out
    ensures forall k :: 0 <= k < |body| && !(offset <= k < offset + blockLen) ==> out[k] == old(out[k])
    ensures forall i :: 0 <= i < blockLen ==> out[offset + i] == XorByte(body[offset + i], ByteAt(st[i / 4], i % 4))
  {
    hide XorByte, ByteAt;
    for i := 0 to blockLen
      invariant forall k :: 0 <= k < |body| && !(offset <= k < offset + i) ==> out[k] == old(out[k])
      invariant forall k :: 0 <= k < i ==> out[offset + k] == XorByte(body[offset + k], ByteAt(st[k / 4], k % 4))
    {
      var word := st[i / 4];
      var keyByte := ByteAt(word, i % 4);
      out[offset + i] := XorByte(body[offset + i], keyByte);
    }
  }

  method BlockInPlace(c: Cipher, counter: Word) returns (st: array<Word>)
    requires Made(c)
    ensures fresh(st) && st.Length == 16 && st[..] == KeyBlock(c, counter)
  {
    hide Add, Forward;
    var start := c.state[12 := counter];
    st := new Word[16](i requires 0 <= i < 16 => start[i]);
    assert st[..] == start;
    var rounds := 10 - c.roundGap;
    if c.roundGap < 10 {
      if rounds < 1 {
        rounds := 1;
      }
      for i := 0 to rounds
        invariant st[..] == DoubleRounds(start, i)
      {
        DoubleRound(st);
      }
    }
    ghost var mixed := st[..];
    for i := 0 to 16
      invariant forall k :: 0 <= k < i ==> st[k] == Add(mixed[k], c.state[k])
      invariant forall k :: i <= k < 16 ==> st[k] == mixed[k]
    {
      st[i] := Add(st[i], c.state[i]);
    }
    assert Add(Add(mixed[12], 0), counter) == Add(mixed[12], counter) by { AddZero(mixed[12]); }
    st[12] := Add(st[12], counter);
  }

  lemma AddZero(x: Word)
    ensures Add(x, 0) == x
  {
  }

  // ---------------------------------------------------------------- laws of the block

  /** Taking the initial state with its counter off again and running the rounds backwards leads back to it. */
  lemma KeyBlockRunsBack(c: Cipher, counter: Word)
    requires Made(c)
    ensures var start := c.state[12 := counter];
      Unrounds(seq(16, i requires 0 <= i < 16 => Sub(KeyBlock(c, counter)[i], start[i])), 10 - c.roundGap) == start
  {
    hide Add, Sub, DoubleRounds, Unrounds;
    var start := c.state[12 := counter];
    var mixed := DoubleRounds(start, 10 - c.roundGap);
    forall i | 0 <= i < 16 ensures Sub(KeyBlock(c, counter)[i], start[i]) == mixed[i] {
      AddUndoes(mixed[i], start[i]);
    }
    assert mixed == seq(16, i requires 0 <= i < 16 => Sub(KeyBlock(c, counter)[i], start[i]));
    RoundsInverse(start, 10 - c.roundGap);
  }

  /** The four bytes of a word, the lowest first. */
  lemma BytesMakeTheWord(w: Word)
    ensures w == ByteAt(w, 0) + 0x100 * ByteAt(w, 1) + 0x1_0000 * ByteAt(w, 2) + 0x100_0000 * ByteAt(w, 3)
  {
    assert w / 0x1_0000 == w / 0x100 / 0x100 && w / 0x100_0000 == w / 0x100 / 0x100 / 0x100;
  }

  lemma KeyByteInWord(c: Cipher, counter: Word, m: nat, i: nat, lane: nat)
    requires Made(c) && i < 16 && lane < 4
    ensures KeyByte(c, counter, 64 * m + 4 * i + lane) == ByteAt(KeyBlock(c, (counter + m) % LIMIT)[i], lane)
  {
    hide KeyBlock, KeyByte, ByteAt;
    KeyByteOfBlock(c, counter, m, 4 * i + lane);
    assert (4 * i + lane) / 4 == i;
    By4(4 * i + lane, i, lane);
  }

  /** The key stream is the blocks of the counters in turn, modulo 2^32, word after word and lowest byte first. */
  lemma StreamIsTheBlocks(c: Cipher, counter: Word, m: nat, i: nat)
    requires Made(c) && i < 16
    ensures var at := 64 * m + 4 * i;
      KeyByte(c, counter, at) + 0x100 * KeyByte(c, counter, at + 1) + 0x1_0000 * KeyByte(c, counter, at + 2)
      + 0x100_0000 * KeyByte(c, counter, at + 3) == KeyBlock(c, (counter + m) % LIMIT)[i]
  {
    hide KeyBlock, KeyByte, ByteAt;
    KeyByteInWord(c, counter, m, i, 0);
    KeyByteInWord(c, counter, m, i, 1);
    KeyByteInWord(c, counter, m, i, 2);
    KeyByteInWord(c, counter, m, i, 3);
    BytesMakeTheWord(KeyBlock(c, (counter + m) % LIMIT)[i]);
  }

  // ---------------------------------------------------------------- laws of the stream

  lemma XorByteUndoes(x: Byte, y: Byte)
    ensures XorByte(XorByte(x, y), y) == x
  {
    Pow2Values();
    XorBitsUndoes(x, y, 8);
  }

  /** Encryption and decryption are the same operation. */
  lemma SelfInverse(c: Cipher, body: seq<Byte>, counter: Word)
    requires Made(c)
    ensures Transformed(c, Transformed(c, body, counter), counter) == body
  {
    hide XorByte, KeyByte;
    forall k | 0 <= k < |body|
      ensures Transformed(c, Transformed(c, body, counter), counter)[k] == body[k]
    {
      XorByteUndoes(body[k], KeyByte(c, counter, k));
    }
  }

  lemma CounterCarriesOn(counter: Word, m: nat, j: nat)
    ensures CounterAt(CounterAt(counter, m), j) == CounterAt(counter, m + j)
  {
    var s := counter + m;
    var t := s % LIMIT + j;
    Remainder(s + j, s / LIMIT + t / LIMIT, t % LIMIT);
  }

  lemma StreamCarriesOn(c: Cipher, counter: Word, m: nat, k: nat)
    requires Made(c)
    ensures KeyByte(c, counter, 64 * m + k) == KeyByte(c, CounterAt(counter, m), k)
  {
    hide KeyBlock, ByteAt, CounterAt;
    CounterCarriesOn(counter, m, k / 64);
    InBlock(m, k);
  }

  /** A message may be cut at any block boundary, with the counter carried on modulo 2^32. */
  lemma SplitsAtBlocks(c: Cipher, left: seq<Byte>, right: seq<Byte>, counter: Word)
    requires Made(c) && |left| % 64 == 0
    ensures Transformed(c, left + right, counter) ==
            Transformed(c, left, counter) + Transformed(c, right, CounterAt(counter, |left| / 64))
  {
    hide XorByte, KeyByte;
    var m := |left| / 64;
    forall k | 0 <= k < |right|
      ensures KeyByte(c, counter, |left| + k) == KeyByte(c, CounterAt(counter, m), k)
    {
      StreamCarriesOn(c, counter, m, k);
    }
  }

  /** The first words of every state, and the counter that is not set yet. */
  lemma ConstantWords(key: seq<Byte>, nonce: seq<Byte>)
    requires |key| >= 32 && |nonce| >= 12
    ensures InitialState(key, nonce)[..4] == [0x40392b73, 0x4131615e, 0x215a7c6d, 0x32683831]
    ensures InitialState(key, nonce)[12] == 0
  {
    assert LoadWords(SIGMA, 4) == [0x40392b73, 0x4131615e, 0x215a7c6d, 0x32683831] by {
      assert LittleEndian(SIGMA[0..4]) == 0x40392b73 && LittleEndian(SIGMA[4..8]) == 0x4131615e;
      assert LittleEndian(SIGMA[8..12]) == 0x215a7c6d && LittleEndian(SIGMA[12..16]) == 0x32683831;
    }
  }

  /** Byte `i` of the key is byte `i % 4` of word `4 + i / 4` of the state, and so for the constant and the nonce. */
  lemma StateHoldsKeyAndNonce(key: seq<Byte>, nonce: seq<Byte>, i: nat)
    requires |key| >= 32 && |nonce| >= 12
    ensures i < 16 ==> ByteAt(InitialState(key, nonce)[i / 4], i % 4) == SIGMA[i]
    ensures i < 32 ==> ByteAt(InitialState(key, nonce)[4 + i / 4], i % 4) == key[i]
    ensures i < 12 ==> ByteAt(InitialState(key, nonce)[13 + i / 4], i % 4) == nonce[i]
  {
    hide ByteAt, LittleEndian;
    var j := i / 4;
    if i < 16 {
      WordRoundTrip(SIGMA[4 * j..4 * j + 4], i % 4);
    }
    if i < 32 {
      WordRoundTrip(key[4 * j..4 * j + 4], i % 4);
    }
    if i < 12 {
      WordRoundTrip(nonce[4 * j..4 * j + 4], i % 4);
    }
  }
}
