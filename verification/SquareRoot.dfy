/** Integer square roots, two bits of the operand at a time. */
module SquareRoot {
  import opened Arithmetic

  function Square(r: nat): nat {
    r * r
  }

  ghost predicate IsRoot(r: nat, x: nat) {
    Square(r) <= x < Square(r + 1)
  }

  lemma SquareNext(r: nat)
    ensures Square(r + 1) == Square(r) + 2 * r + 1
  {
  }

  lemma SquareDouble(r: nat)
    ensures Square(2 * r) == 4 * Square(r)
  {
  }

  lemma {:induction false} SquareMono(r: nat, s: nat)
    requires r <= s
    ensures Square(r) <= Square(s)
    decreases s
  {
    hide Square;
    if r < s {
      SquareMono(r, s - 1);
      SquareNext(s - 1);
    }
  }

  lemma RootUnique(r: nat, s: nat, x: nat)
    requires IsRoot(r, x) && IsRoot(s, x)
    ensures r == s
  {
    hide Square;
    if r < s {
      SquareMono(r + 1, s);
    } else if s < r {
      SquareMono(s + 1, r);
    }
  }

  /** Doubling the root of a quarter gives the root, or one less. */
  lemma Quarter(x: nat, r: nat)
    requires IsRoot(r, x / 4)
    ensures Square(2 * r + 1) == Square(2 * r) + 4 * r + 1
    ensures x >= Square(2 * r) && x - Square(2 * r) == 4 * (x / 4 - Square(r)) + x % 4 <= 8 * r + 3
    ensures IsRoot(if Square(2 * r) + 4 * r < x then 2 * r + 1 else 2 * r, x)
  {
    hide Square;
    SquareNext(r);
    SquareDouble(r);
    SquareNext(2 * r);
    SquareNext(2 * r + 1);
  }

  /** The integer square root. */
  function Isqrt(x: nat): (r: nat)
    ensures IsRoot(r, x)
  {
    if x == 0 then 0 else
      hide IsRoot;
      var s := Isqrt(x / 4);
      Quarter(x, s);
      if Square(2 * s) + 4 * s < x then 2 * s + 1 else 2 * s
  }

  // ----- The machine -----

  /** Twice the root so far, and what is left of the operand so far. */
  datatype Partial = Partial(root: nat, rem: nat)

  /** What a variable holds that is assigned `x` but has only `size` values. */
  function Wrap(x: nat, size: nat): nat
    requires size > 0
  {
    x % size
  }

  lemma WrapSmall(x: nat, size: nat)
    requires x < size
    ensures Wrap(x, size) == x
  {
  }

  /** One step, on variables of `size` values. */
  function Step(p: Partial, digit: nat, size: nat): Partial
    requires size > 0
  {
    var root, rem := Wrap(2 * p.root, size), Wrap(4 * p.rem + digit, size);
    if root < rem then Partial(Wrap(root + 2, size), rem - (root + 1)) else Partial(root, rem)
  }

  /** The state after the `k` leading digits, which are those of `x`. */
  function Digits(x: nat, k: nat, size: nat): Partial
    requires size > 0
  {
    if k == 0 then Partial(0, 0) else Step(Digits(x / 4, k - 1, size), x % 4, size)
  }

  ghost predicate Exact(p: Partial, x: nat) {
    var r := Isqrt(x);
    Square(r) <= x && p == Partial(2 * r, x - Square(r))
  }

  /** A step that does not overflow takes a root to a root. */
  lemma StepExact(p: Partial, x: nat, size: nat)
    requires Exact(p, x / 4) && 8 * Isqrt(x / 4) + 4 <= size
    ensures Exact(Step(p, x % 4, size), x)
  {
    hide Square, IsRoot, Isqrt, Wrap;
    var r := Isqrt(x / 4);
    Quarter(x, r);
    WrapSmall(2 * p.root, size);
    WrapSmall(4 * p.rem + x % 4, size);
    WrapSmall(4 * r + 2, size);
    RootUnique(Isqrt(x), if Square(2 * r) + 4 * r < x then 2 * r + 1 else 2 * r, x);
  }

  function Pow4(k: nat): (p: nat)
    ensures p > 0
  {
    if k == 0 then 1 else 4 * Pow4(k - 1)
  }

  lemma RootBound(x: nat, b: nat)
    requires x < Square(b)
    ensures Isqrt(x) < b
  {
    hide Square, Isqrt;
    if Isqrt(x) >= b {
      SquareMono(b, Isqrt(x));
    }
  }

  lemma RootMono(x: nat, y: nat)
    requires x <= y
    ensures Isqrt(x) <= Isqrt(y)
  {
    hide Square, Isqrt;
    RootBound(x, Isqrt(y) + 1);
  }

  /** Steps that do not overflow compute the root of their digits. */
  lemma {:induction false} DigitsExact(x: nat, k: nat, size: nat)
    requires x < Pow4(k) && size > 0 && (k > 0 ==> 8 * Isqrt(x / 4) + 4 <= size)
    ensures Exact(Digits(x, k, size), x)
    decreases k
  {
    hide Isqrt, Step;
    if k == 0 {
      RootUnique(Isqrt(0), 0, 0);
    } else {
      if k > 1 {
        RootMono(x / 4 / 4, x / 4);
      }
      DigitsExact(x / 4, k - 1, size);
      StepExact(Digits(x / 4, k - 1, size), x, size);
    }
  }

  // ----- The loop -----

  lemma {:induction false} Pow4Add(i: nat, k: nat)
    ensures Pow4(i + k) == Pow4(i) * Pow4(k)
    decreases i
  {
    if i > 0 {
      Pow4Add(i - 1, k);
    }
  }

  /** The operand without its last `i` pairs of bits. */
  function Head(x: nat, i: nat): nat {
    if i == 0 then x else Head(x, i - 1) / 4
  }

  /** Its last `i` pairs of bits. */
  function Tail(x: nat, i: nat): nat {
    if i == 0 then 0 else (Head(x, i - 1) % 4) * Pow4(i - 1) + Tail(x, i - 1)
  }

  lemma {:induction false} HeadTail(x: nat, i: nat)
    ensures x == Head(x, i) * Pow4(i) + Tail(x, i) && Tail(x, i) < Pow4(i)
    decreases i
  {
    if i > 0 {
      HeadTail(x, i - 1);
      var d, t := TailDigit(x, i);
      hide Head, Tail, Pow4;
      HeadStep(Head(x, i), Pow4(i - 1), d, t);
    }
  }

  lemma TailDigit(x: nat, i: nat) returns (d: nat, t: nat)
    requires i > 0
    ensures d < 4 && d == Head(x, i - 1) % 4 && Head(x, i - 1) == 4 * Head(x, i) + d
    ensures t == Tail(x, i - 1) && Tail(x, i) == d * Pow4(i - 1) + t && Pow4(i) == 4 * Pow4(i - 1)
  {
    d, t := Head(x, i - 1) % 4, Tail(x, i - 1);
  }

  lemma HeadStep(q: nat, a: nat, d: nat, t: nat)
    requires t < a && d < 4
    ensures (4 * q + d) * a + t == q * (4 * a) + (d * a + t) && d * a + t < 4 * a
  {
    MulMono(a, d, 3);
  }

  /** The tail, shifted to the top of a register of `half` pairs. */
  function Register(x: nat, half: nat, i: nat): nat
    requires i <= half
  {
    Tail(x, i) * Pow4(half - i)
  }

  lemma Shifted(tail: nat, a: nat, b: nat, d: nat, rest: nat)
    requires b > 0 && tail == d * a + rest && rest < a
    ensures tail * b == d * (a * b) + rest * b && rest * b < a * b
  {
    MulAssoc(d, a, b);
    MulMono(b, rest + 1, a);
  }

  lemma Fourfold(t: nat, d: nat, m: nat, r: nat)
    requires t == d * m + r && r < m
    ensures t / m == d && (4 * t) % (4 * m) == 4 * r
  {
    DivModUnique(d, r, m);
    DivModUnique(d, 4 * r, 4 * m);
  }

  /** One turn of the registers: the top pair is the next digit, and the rest moves up. */
  lemma Turn(x: nat, half: nat, i: nat)
    requires 0 < i <= half
    ensures Register(x, half, i) / Pow4(half - 1) == Head(x, i - 1) % 4
    ensures (4 * Register(x, half, i)) % Pow4(half) == Register(x, half, i - 1)
    ensures Head(x, i - 1) / 4 == Head(x, i)
  {
    hide Head, Tail, Pow4;
    var a, b, tail := Pow4(i - 1), Pow4(half - i), Tail(x, i);
    PowerParts(i, half);
    HeadTail(x, i - 1);
    var d, rest := TailDigit(x, i);
    Shifted(tail, a, b, d, rest);
    Fourfold(tail * b, d, a * b, rest * b);
    assert rest * (4 * b) == 4 * (rest * b);
  }

  lemma PowerParts(i: nat, half: nat)
    requires 0 < i <= half
    ensures Pow4(i) == 4 * Pow4(i - 1) && Pow4(half - i + 1) == 4 * Pow4(half - i)
    ensures Pow4(half - 1) == Pow4(i - 1) * Pow4(half - i) && Pow4(half) == 4 * (Pow4(i - 1) * Pow4(half - i))
  {
    Pow4Add(i - 1, half - i);
  }

  lemma EvenWrap(x: nat, size: nat)
    requires size > 0 && size % 2 == 0 && x % 2 == 0
    ensures Wrap(x, size) % 2 == 0
  {
    ModOfMultiples(x, size, 2);
  }

  lemma Ends(x: nat, half: nat)
    requires x < Pow4(half)
    ensures Register(x, half, half) == x && Head(x, half) == 0 && Head(x, 0) == x
  {
    assert Pow4(0) == 1 && Head(x, 0) == x;
    hide Head, Tail, Pow4;
    HeadTail(x, half);
    if Head(x, half) > 0 {
      MulMono(Pow4(half), 1, Head(x, half));
    }
  }

  /** The loop of every variant: `half` pairs of bits, variables of `size` values. */
  method RootLoop(operand: nat, half: nat, size: nat) returns (result: nat)
    requires half > 0 && operand < Pow4(half) && size > 0 && size % 2 == 0
    ensures result == Digits(operand, half, size).root / 2
  {
    hide Wrap, Pow4, Head, Tail, Register;
    var rem: nat, root: nat, x := 0, 0, operand;
    var i := half;
    Ends(operand, half);
    while i > 0
      invariant 0 <= i <= half && root % 2 == 0
      invariant x == Register(operand, half, i)
      invariant Partial(root, rem) == Digits(Head(operand, i), half - i, size)
      decreases i
    {
      Turn(operand, half, i);
      EvenWrap(2 * root, size);
      root := Wrap(2 * root, size);
      rem := Wrap(4 * rem + x / Pow4(half - 1), size);
      x := (4 * x) % Pow4(half);
      if root < rem {
        rem := rem - (if root % 2 == 0 then root + 1 else root);
        EvenWrap(root + 2, size);
        root := Wrap(root + 2, size);
      }
      i := i - 1;
    }
    return root / 2;
  }

  method Sqrt16(x: nat) returns (r: nat)
    requires x < 0x1_0000
    ensures IsRoot(r, x)
  {
    Powers();
    Narrow(x, 8, 128, 0x1_0000);
    r := RootLoop(x, 8, 0x1_0000);
  }

  method Sqrt32(x: nat) returns (r: nat)
    requires x < 0x1_0000_0000
    ensures IsRoot(r, x)
  {
    Powers();
    Narrow(x, 16, 0x8000, 0x1_0000_0000);
    r := RootLoop(x, 16, 0x1_0000_0000);
  }

  lemma Powers()
    ensures Pow4(8) == 0x1_0000 && Pow4(16) == 0x1_0000_0000 && Pow4(32) == 0x1_0000_0000_0000_0000
    ensures Pow4(31) == 0x4000_0000_0000_0000
  {
    assert Pow4(8) == 0x1_0000;
    Pow4Add(8, 8);
    Pow4Add(16, 16);
    assert Pow4(32) == 4 * Pow4(31);
  }

  /** Variables of `8 * bound` values suffice when the root of a quarter is below `bound`. */
  lemma Narrow(x: nat, half: nat, bound: nat, size: nat)
    requires half > 0 && x < Pow4(half) && x / 4 < Square(bound) && 8 * bound <= size
    ensures IsRoot(Digits(x, half, size).root / 2, x)
  {
    RootBound(x / 4, bound);
    DigitsExact(x, half, size);
    hide Digits, Isqrt;
  }

  // ----- 64-bit operands in 32-bit variables -----

  const SIZE64 := 0x1_0000_0000

  /** What is left of `x` beside the root of its upper 62 bits, doubled. */
  function LastRemainder(x: nat): int {
    x - Square(2 * Isqrt(x / 4))
  }

  /** The remainder of the last step fits 32 bits, or exceeds the compared root even after wrapping. */
  predicate Covered(x: nat) {
    && x < 0x4000_0000_0000_0000
    && (LastRemainder(x) < SIZE64 || LastRemainder(x) - SIZE64 > 4 * Isqrt(x / 4))
  }

  lemma WrapOnce(x: nat, size: nat)
    requires size <= x < 2 * size
    ensures Wrap(x, size) == x - size
  {
    DivModUnique(1, x - size, size);
  }

  lemma LastStep(p: Partial, x: nat)
    requires Exact(p, x / 4) && Isqrt(x / 4) < 0x4000_0000
    ensures Step(p, x % 4, SIZE64).root / 2 == Isqrt(x) <==>
            LastRemainder(x) < SIZE64 || LastRemainder(x) - SIZE64 > 4 * Isqrt(x / 4)
  {
    hide Square, IsRoot, Isqrt, Wrap;
    var r := Isqrt(x / 4);
    Quarter(x, r);
    RootUnique(Isqrt(x), if Square(2 * r) + 4 * r < x then 2 * r + 1 else 2 * r, x);
    LastRoot(p, x % 4, r, LastRemainder(x));
  }

  lemma LastRoot(p: Partial, digit: nat, r: nat, rem: nat)
    requires p.root == 2 * r && 4 * p.rem + digit == rem <= 8 * r + 3 && r < 0x4000_0000
    ensures Step(p, digit, SIZE64).root / 2 ==
      if 4 * r < (if rem < SIZE64 then rem else rem - SIZE64) then 2 * r + 1 else 2 * r
  {
    hide Wrap;
    WrapSmall(4 * r, SIZE64);
    WrapSmall(4 * r + 2, SIZE64);
    if rem < SIZE64 {
      WrapSmall(rem, SIZE64);
    } else {
      WrapOnce(rem, SIZE64);
    }
  }

  lemma RootFits(p: Partial, digit: nat, size: nat)
    requires size > 0
    ensures Step(p, digit, size).root < size
  {
  }

  /** The 64-bit loop finds the root exactly of the operands that are covered. */
  lemma Loop64(x: nat)
    requires x < Pow4(32)
    ensures Digits(x, 32, SIZE64).root / 2 == Isqrt(x) <==> Covered(x)
  {
    hide Square, IsRoot, Isqrt, Step, Exact, LastRemainder;
    var p := Digits(x / 4, 31, SIZE64);
    assert Digits(x, 32, SIZE64) == Step(p, x % 4, SIZE64);
    Powers();
    Anchors();
    if x < 0x4000_0000_0000_0000 {
      RootBound(x / 4 / 4, 0x2000_0000);
      DigitsExact(x / 4, 31, SIZE64);
      RootBound(x / 4, 0x4000_0000);
      LastStep(p, x);
    } else {
      RootFits(p, x % 4, SIZE64);
      AtLeast(x, 0x8000_0000);
    }
  }

  lemma AtLeast(x: nat, b: nat)
    requires x >= Square(b)
    ensures Isqrt(x) >= b
  {
    hide Square, Isqrt;
    if Isqrt(x) < b {
      SquareMono(Isqrt(x) + 1, b);
    }
  }

  lemma Anchors()
    ensures Square(0x2000_0000) == 0x400_0000_0000_0000 && Square(0x4000_0000) == 0x1000_0000_0000_0000
    ensures Square(0x8000_0000) == 0x4000_0000_0000_0000
  {
  }

  method Sqrt64(x: nat) returns (r: nat)
    requires x < 0x1_0000_0000_0000_0000
    ensures IsRoot(r, x) <==> Covered(x)
  {
    hide Covered, Digits, Isqrt;
    Powers();
    Loop64(x);
    r := RootLoop(x, 32, SIZE64);
    if IsRoot(r, x) {
      RootUnique(r, Isqrt(x), x);
    }
  }

  /** Every operand below 2^60 is covered. */
  lemma SmallCovered(x: nat)
    requires x < 0x1000_0000_0000_0000
    ensures Covered(x)
  {
    hide Square, IsRoot, Isqrt;
    Anchors();
    RootBound(x / 4, 0x2000_0000);
    Quarter(x, Isqrt(x / 4));
  }

  /** 2^62 - 4 is not: its root is 2^31 - 1, and the loop finds one less. */
  lemma NotCovered()
    ensures !Covered(0x3FFF_FFFF_FFFF_FFFC)
  {
    hide Isqrt;
    Anchors();
    var r := 0x3FFF_FFFF;
    SquareNext(r);
    RootUnique(Isqrt(0xFFF_FFFF_FFFF_FFFF), r, 0xFFF_FFFF_FFFF_FFFF);
    SquareDouble(r);
  }
}
