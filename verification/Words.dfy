/** The 32-bit words of internal/cipher/cipher.go. A uint32 is an integer below 2^32: addition wraps
    explicitly, and the bitwise operations are defined on the binary digits. */
module Words {
  const LIMIT := 0x1_0000_0000

  type Word = x: int | 0 <= x < LIMIT

  type Byte = x: int | 0 <= x < 256

  type Block = s: seq<Word> | |s| == 16 witness seq(16, _ => 0)

  function Pow2(n: nat): (p: nat)
    ensures p > 0
  {
    if n == 0 then 1 else 2 * Pow2(n - 1)
  }

  /** Exclusive or of the low `n` binary digits. */
  function XorBits(x: nat, y: nat, n: nat): (r: nat)
    ensures r < Pow2(n)
  {
    if n == 0 then 0 else (x + y) % 2 + 2 * XorBits(x / 2, y / 2, n - 1)
  }

  lemma LastDigit(r: int, x: int, y: int)
    requires r % 2 == (x + y) % 2
    ensures (r + y) % 2 == x % 2
  {
  }

  lemma {:induction false} XorBitsUndoes(x: nat, y: nat, n: nat)
    requires x < Pow2(n)
    ensures XorBits(XorBits(x, y, n), y, n) == x
  {
    if n > 0 {
      var r := XorBits(x, y, n);
      assert r / 2 == XorBits(x / 2, y / 2, n - 1) && r % 2 == (x + y) % 2;
      XorBitsUndoes(x / 2, y / 2, n - 1);
      LastDigit(r, x, y);
    }
  }

  lemma Pow2Values()
    ensures Pow2(8) == 256 && Pow2(32) == LIMIT
  {
    assert Pow2(4) == 16;
    assert Pow2(8) == 256;
    assert Pow2(12) == 4096;
    assert Pow2(16) == 65536;
    assert Pow2(20) == 0x10_0000;
    assert Pow2(24) == 0x100_0000;
    assert Pow2(28) == 0x1000_0000;
  }

  function Xor(x: Word, y: Word): Word {
    Pow2Values();
    XorBits(x, y, 32)
  }

  function XorByte(x: Byte, y: Byte): Byte {
    Pow2Values();
    XorBits(x, y, 8)
  }

  function Add(x: Word, y: Word): Word {
    if x + y < LIMIT then x + y else x + y - LIMIT
  }

  function Sub(x: Word, y: Word): Word {
    if x >= y then x - y else x - y + LIMIT
  }

  function ShiftRight(x: Word, n: nat): Word {
    if n == 0 then x else ShiftRight(x, n - 1) / 2
  }

  /** One digit to the left; the top digit comes round to the bottom. */
  function TurnLeft(x: Word): Word {
    if x < LIMIT / 2 then 2 * x else 2 * x - LIMIT + 1
  }

  function TurnRight(x: Word): Word {
    x / 2 + if x % 2 == 0 then 0 else LIMIT / 2
  }

  function Turns(x: Word, n: nat): Word {
    if n == 0 then x else TurnLeft(Turns(x, n - 1))
  }

  function TurnsBack(x: Word, n: nat): Word
    decreases n
  {
    if n == 0 then x else TurnsBack(TurnRight(x), n - 1)
  }

  /** bits.RotateLeft32: left by the count modulo 32, so a negative count rotates right. */
  function RotateLeft32(x: Word, k: int): Word {
    Turns(x, k % 32)
  }

  lemma {:induction false} TurnsUndo(x: Word, n: nat)
    ensures TurnsBack(Turns(x, n), n) == x
  {
    if n > 0 {
      TurnsUndo(x, n - 1);
    }
  }

  lemma {:induction false} TurnsRedo(x: Word, n: nat)
    ensures Turns(TurnsBack(x, n), n) == x
    decreases n
  {
    if n > 0 {
      TurnsRedo(TurnRight(x), n - 1);
    }
  }

  lemma AddUndoes(x: Word, y: Word)
    ensures Sub(Add(x, y), y) == x
    ensures Add(Sub(x, y), y) == x
  {
  }

  lemma XorUndoes(x: Word, y: Word)
    ensures Xor(Xor(x, y), y) == x
  {
    Pow2Values();
    XorBitsUndoes(x, y, 32);
  }

  // ---------------------------------------------------------------- digit by digit

  /** Binary digit `n` of a word. */
  function Digit(u: Word, n: nat): (d: nat)
    ensures d < 2
  {
    ShiftRight(u, n) % 2
  }

  lemma {:induction false} ShiftFromBelow(u: Word, n: nat)
    requires n > 0
    ensures ShiftRight(u, n) == ShiftRight(u / 2, n - 1)
  {
    if n > 1 {
      ShiftFromBelow(u, n - 1);
    }
  }

  lemma XorHalves(x: nat, y: nat, n: nat)
    requires n > 0
    ensures XorBits(x, y, n) / 2 == XorBits(x / 2, y / 2, n - 1) && XorBits(x, y, n) % 2 == (x + y) % 2
  {
  }

  lemma {:induction false} XorBitsDigits(x: Word, y: Word, n: nat, k: nat)
    requires k < n && Pow2(n) <= LIMIT
    ensures Digit(XorBits(x, y, n), k) == (Digit(x, k) + Digit(y, k)) % 2
  {
    hide XorBits;
    XorHalves(x, y, n);
    if k > 0 {
      XorBitsDigits(x / 2, y / 2, n - 1, k - 1);
      NextDigit(x, k);
      NextDigit(y, k);
      NextDigit(XorBits(x, y, n), k);
    } else {
      SumOfDigits(x, y);
    }
  }

  lemma NextDigit(u: Word, k: nat)
    requires k > 0
    ensures Digit(u, k) == Digit(u / 2, k - 1)
  {
    ShiftFromBelow(u, k);
  }

  lemma SumOfDigits(x: nat, y: nat)
    ensures (x + y) % 2 == (x % 2 + y % 2) % 2
  {
  }

  /** Exclusive or works digit by digit. */
  lemma XorDigits(x: Word, y: Word, k: nat)
    requires k < 32
    ensures Digit(Xor(x, y), k) == (Digit(x, k) + Digit(y, k)) % 2
  {
    Pow2Values();
    XorBitsDigits(x, y, 32, k);
  }

  lemma XorByteDigits(x: Byte, y: Byte, k: nat)
    requires k < 8
    ensures Digit(XorByte(x, y), k) == (Digit(x, k) + Digit(y, k)) % 2
  {
    Pow2Values();
    XorBitsDigits(x, y, 8, k);
  }

  lemma {:induction false} ShiftTwice(u: Word, m: nat, n: nat)
    ensures ShiftRight(ShiftRight(u, m), n) == ShiftRight(u, m + n)
  {
    if n > 0 {
      ShiftTwice(u, m, n - 1);
    }
  }

  lemma ShiftedDigit(u: Word, m: nat, n: nat)
    ensures Digit(ShiftRight(u, m), n) == Digit(u, m + n)
  {
    ShiftTwice(u, m, n);
  }

  /** The lowest `n` digits make up a number below `Pow2(n)`. */
  lemma {:induction false} SameDigits(x: Word, y: Word, n: nat)
    requires x < Pow2(n) && y < Pow2(n)
    requires forall k :: 0 <= k < n ==> Digit(x, k) == Digit(y, k)
    ensures x == y
  {
    if n > 0 {
      forall k | 0 <= k < n - 1 ensures Digit(x / 2, k) == Digit(y / 2, k) {
        ShiftFromBelow(x, k + 1);
        ShiftFromBelow(y, k + 1);
        assert Digit(x, k + 1) == Digit(y, k + 1);
      }
      SameDigits(x / 2, y / 2, n - 1);
      assert Digit(x, 0) == Digit(y, 0);
    }
  }

  /** A turn carries every digit one place up, and the top digit to the bottom. */
  lemma {:induction false} TurnDigits(x: Word, k: nat)
    requires k < 32
    ensures Digit(TurnLeft(x), (k + 1) % 32) == Digit(x, k)
  {
    hide Digit;
    assert Pow2(31) == LIMIT / 2 by {
      Pow2Values();
      assert Pow2(32) == 2 * Pow2(31);
    }
    var low := if x < LIMIT / 2 then x else x - LIMIT / 2;
    if k < 31 {
      assert TurnLeft(x) / 2 == low;
      NextDigit(TurnLeft(x), k + 1);
      LowDigits(x, low, 31, k);
    } else {
      EndDigits(x);
    }
  }

  lemma EndDigits(x: Word)
    requires Pow2(31) == LIMIT / 2
    ensures Digit(TurnLeft(x), 0) == Digit(x, 31)
  {
    ShiftOut(x, 31);
  }

  lemma {:induction false} ShiftOut(x: Word, n: nat)
    requires x < 2 * Pow2(n)
    ensures ShiftRight(x, n) == if x < Pow2(n) then 0 else 1
  {
    if n > 0 {
      ShiftFromBelow(x, n);
      ShiftOut(x / 2, n - 1);
    }
  }

  /** Taking away the digit of weight `Pow2(n)` leaves the lower ones. */
  lemma {:induction false} LowDigits(x: Word, y: Word, n: nat, k: nat)
    requires k < n && (x == y || x == y + Pow2(n))
    ensures Digit(x, k) == Digit(y, k)
  {
    if k > 0 {
      NextDigit(x, k);
      NextDigit(y, k);
      LowDigits(x / 2, y / 2, n - 1, k - 1);
    }
  }

  /** A rotation carries every digit `n` places up, modulo 32. */
  lemma {:induction false} RotationDigits(x: Word, n: nat, k: nat)
    requires k < 32
    ensures Digit(Turns(x, n), (k + n) % 32) == Digit(x, k)
  {
    hide TurnLeft, Digit;
    if n > 0 {
      RotationDigits(x, n - 1, k);
      TurnDigits(Turns(x, n - 1), (k + n - 1) % 32);
    }
  }

  /** bits.RotateLeft32 by any count, also a negative one. */
  lemma RotateDigits(x: Word, count: int, k: nat)
    requires k < 32
    ensures Digit(RotateLeft32(x, count), (k + count) % 32) == Digit(x, k)
  {
    hide Digit;
    RotationDigits(x, count % 32, k);
    assert (k + count % 32) % 32 == (k + count) % 32;
  }

  /** Addition is modulo 2^32. */
  lemma AddIsModular(x: Word, y: Word)
    ensures Add(x, y) == (x + y) % LIMIT
  {
  }

  // ---------------------------------------------------------------- masks

  function AndBits(x: nat, y: nat, n: nat): nat {
    if n == 0 then 0 else (x % 2) * (y % 2) + 2 * AndBits(x / 2, y / 2, n - 1)
  }

  function OrBits(x: nat, y: nat, n: nat): nat {
    if n == 0 then 0 else (if x % 2 == 0 && y % 2 == 0 then 0 else 1) + 2 * OrBits(x / 2, y / 2, n - 1)
  }

  lemma {:induction false} AndNothing(x: nat, n: nat)
    ensures AndBits(x, 0, n) == 0
  {
    if n > 0 {
      AndNothing(x / 2, n - 1);
    }
  }

  /** A mask of one digit. */
  lemma {:induction false} AndOneDigit(x: Word, n: nat, k: nat)
    requires k < n
    ensures AndBits(x, Pow2(k), n) == Pow2(k) * Digit(x, k)
  {
    if k > 0 {
      NextDigit(x, k);
      AndOneDigit(x / 2, n - 1, k - 1);
    } else {
      AndNothing(x / 2, n - 1);
    }
  }

  lemma {:induction false} OrNothing(n: nat)
    ensures OrBits(0, 0, n) == 0
  {
    if n > 0 {
      OrNothing(n - 1);
    }
  }

  lemma {:induction false} OrCommutes(x: nat, y: nat, n: nat)
    ensures OrBits(x, y, n) == OrBits(y, x, n)
  {
    if n > 0 {
      OrCommutes(x / 2, y / 2, n - 1);
    }
  }

  /** Putting a digit above a smaller number. */
  lemma {:induction false} OrAbove(x: nat, d: nat, k: nat, n: nat)
    requires x < Pow2(k) && k < n && d < 2
    ensures OrBits(x, Pow2(k) * d, n) == x + Pow2(k) * d
  {
    if k > 0 {
      assert Pow2(k) * d == 2 * (Pow2(k - 1) * d);
      OrAbove(x / 2, d, k - 1, n - 1);
    } else {
      OrNothing(n - 1);
    }
  }
}
