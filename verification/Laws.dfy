// What the arithmetic computes that the constant folder, the machine and the tree share:
// laws of its results, and what no program can bind again.
module Laws {
  import opened Machine
  import opened Simplify
  import opened Slots

  const INT_MIN := -0x8000_0000
  const INT_LIMIT := 0x8000_0000

  predicate IsInt32(i: int) {
    INT_MIN <= i < INT_LIMIT
  }

  // The result of folding, where there is one.
  predicate FoldsTo(op: ArithOp, a: real, b: real, r: real) {
    FoldConstant(op, a, b) == Folds(r)
  }

  // ---------- the folder and the machine ----------

  // Folding foretells what the machine does with the two numbers.
  lemma FoldsAsRun(op: ArithOp, a: real, b: real)
    ensures match FoldConstant(op, a, b)
      case Folds(r) => Machine.Binary(op, Num(a), Num(b)) == Ok(Num(r))
      case ZeroDivisor => Machine.Binary(op, Num(a), Num(b)) == Throws(DivideByZero)
      case FoldUndefined => Machine.Binary(op, Num(a), Num(b)) == Undefined
    ensures FoldConstant(op, a, b) == ZeroDivisor <==> b == 0.0 && (op == Div || op == Mod)
  {
  }

  // An operator takes numbers only.
  lemma NumbersOnly(op: ArithOp, a: Value, b: Value)
    ensures Machine.Binary(op, a, b) == Throws(TypeError) <==> !(a.Num? && b.Num?)
  {
  }

  // ---------- numbers ----------

  // Addition: zero changes nothing, and the sum moves with either operand.
  lemma Sums(a: real, b: real, d: real)
    ensures FoldsTo(Add, a, 0.0, a) && FoldsTo(Add, 0.0, b, b)
    ensures exists r :: FoldsTo(Add, a, b, r) && FoldsTo(Add, a + d, b, r + d) && FoldsTo(Add, a, b + d, r + d)
  {
    assert FoldsTo(Add, a, b, a + b);
  }

  // Subtraction undoes addition, and addition subtraction.
  lemma Differences(a: real, b: real)
    ensures exists s :: FoldsTo(Add, a, b, s) && FoldsTo(Sub, s, b, a)
    ensures exists d :: FoldsTo(Sub, a, b, d) && FoldsTo(Add, d, b, a)
  {
    assert FoldsTo(Add, a, b, a + b) && FoldsTo(Sub, a, b, a - b);
  }

  // Multiplication: one changes nothing, and sums may be multiplied term by term.
  lemma Products(a: real, b: real, d: real)
    ensures FoldsTo(Mul, a, 1.0, a) && FoldsTo(Mul, 1.0, b, b)
    ensures exists p, q, r, s, t ::
      && FoldsTo(Mul, a, b, p) && FoldsTo(Mul, a, d, q) && FoldsTo(Add, p, q, r)
      && FoldsTo(Add, b, d, s) && FoldsTo(Mul, a, s, t) && t == r
    ensures exists p :: FoldsTo(Mul, a, b, p) && FoldsTo(Mul, b, a, p)
  {
    assert FoldsTo(Mul, a, b, a * b) && FoldsTo(Mul, a, d, a * d) && FoldsTo(Add, a * b, a * d, a * b + a * d);
    assert FoldsTo(Add, b, d, b + d) && FoldsTo(Mul, a, b + d, a * (b + d));
    assert a * (b + d) == a * b + a * d;
  }

  // Division undoes multiplication, and multiplication division.
  lemma Quotients(a: real, b: real)
    requires b != 0.0
    ensures exists p :: FoldsTo(Mul, a, b, p) && FoldsTo(Div, p, b, a)
    ensures exists q :: FoldsTo(Div, a, b, q) && FoldsTo(Mul, q, b, a)
  {
    assert FoldsTo(Mul, a, b, a * b) && a * b / b == a;
    assert FoldsTo(Div, a, b, a / b) && a / b * b == a;
  }

  // ---------- integers ----------

  predicate OnInts(op: ArithOp) {
    op in {Mod, BitOr, BitAnd, BitXor, ShiftL, ShiftR}
  }

  // The other operators drop the fractions of their operands, towards zero.
  lemma Truncates(r: real)
    requires INT_MIN as real - 1.0 < r < INT_LIMIT as real
    ensures var i := ToInt32(r); if r >= 0.0 then i as real <= r < i as real + 1.0 else i as real - 1.0 < r <= i as real
  {
  }

  lemma DropsFractions(op: ArithOp, a: real, b: real)
    requires OnInts(op) && (op == Mod ==> ToInt32(b) != 0)
    ensures FoldConstant(op, a, b) == FoldConstant(op, ToInt32(a) as real, ToInt32(b) as real)
  {
    WholeInt(ToInt32(a));
    WholeInt(ToInt32(b));
    assert b == 0.0 ==> ToInt32(b) == 0;
    hide ToInt32, Combined, CRemainder, Pow2, Wrap32;
  }

  // The remainder of C: it leaves a multiple of the divisor, is smaller than the divisor
  // and has the sign of the dividend.
  lemma Remainders(a: int, b: int) returns (q: int, r: int)
    requires IsInt32(a) && IsInt32(b) && b != 0 && !(a == INT_MIN && b == -1)
    ensures FoldsTo(Mod, a as real, b as real, r as real) && a == q * b + r
    ensures -(if b < 0 then -b else b) < r < (if b < 0 then -b else b) && (a >= 0 ==> r >= 0) && (a <= 0 ==> r <= 0)
  {
    WholeInt(a);
    WholeInt(b);
    r := CRemainder(a, b);
    q :| a == q * b + r;
  }

  lemma WholeInt(a: int)
    requires IsInt32(a)
    ensures ToInt32(a as real) == a
  {
  }

  // ---------- bits ----------

  // Bit k of an integer in two's complement.
  predicate BitOf(i: int, k: nat)
    decreases k
  {
    if k == 0 then i % 2 == 1 else BitOf(i / 2, k - 1)
  }

  lemma BitOfTwice(rest: int, odd: bool, k: nat)
    ensures var i := 2 * rest + if odd then 1 else 0; BitOf(i, k) <==> if k == 0 then odd else BitOf(rest, k - 1)
  {
    var i := 2 * rest + if odd then 1 else 0;
    assert i % 2 == (if odd then 1 else 0) && i / 2 == rest;
  }

  lemma {:induction false} CombinedBits(op: ArithOp, a: int, b: int, n: nat, k: nat)
    requires k < n
    ensures BitOf(Combined(op, a, b, n), k) <==> CombinedBit(op, BitOf(a, k), BitOf(b, k))
    decreases n
  {
    hide BitOf;
    BitOfHalf(a, k);
    BitOfHalf(b, k);
    BitOfTwice(Combined(op, a / 2, b / 2, n - 1), CombinedBit(op, a % 2 == 1, b % 2 == 1), k);
    if k > 0 {
      CombinedBits(op, a / 2, b / 2, n - 1, k - 1);
    }
  }

  lemma BitOfHalf(i: int, k: nat)
    ensures BitOf(i, k) <==> if k == 0 then i % 2 == 1 else BitOf(i / 2, k - 1)
  {
  }

  // Multiples of 2 to the n leave the bits below n as they are.
  lemma {:induction false} BitsBelow(i: int, t: int, n: nat, k: nat)
    requires k < n
    ensures BitOf(i + t * Pow2(n), k) <==> BitOf(i, k)
    decreases n
  {
    var m := t * Pow2(n - 1);
    assert t * Pow2(n) == 2 * m;
    assert (i + 2 * m) % 2 == i % 2 && (i + 2 * m) / 2 == i / 2 + m;
    if k > 0 {
      BitsBelow(i / 2, t, n - 1, k - 1);
    }
  }

  lemma Pow32()
    ensures Pow2(32) == 0x1_0000_0000
  {
    assert Pow2(8) == 0x100 && Pow2(16) == 0x1_0000 && Pow2(24) == 0x100_0000;
  }

  // Wrapping around takes away a multiple of 2 to the 32.
  lemma Wraps(i: int) returns (t: int)
    ensures Wrap32(i) == i + t * Pow2(32)
  {
    Pow32();
    t := -((i + INT_LIMIT) / 0x1_0000_0000);
  }

  // The bit operations go bit by bit.
  lemma Bitwise(a: int, b: int, k: nat) returns (either: int, both: int, one: int)
    requires IsInt32(a) && IsInt32(b) && k < 32
    ensures IsInt32(either) && FoldsTo(BitOr, a as real, b as real, either as real)
    ensures IsInt32(both) && FoldsTo(BitAnd, a as real, b as real, both as real)
    ensures IsInt32(one) && FoldsTo(BitXor, a as real, b as real, one as real)
    ensures BitOf(either, k) <==> BitOf(a, k) || BitOf(b, k)
    ensures BitOf(both, k) <==> BitOf(a, k) && BitOf(b, k)
    ensures BitOf(one, k) <==> BitOf(a, k) != BitOf(b, k)
  {
    either := BitResult(BitOr, a, b, k);
    both := BitResult(BitAnd, a, b, k);
    one := BitResult(BitXor, a, b, k);
  }

  lemma BitResult(op: ArithOp, a: int, b: int, k: nat) returns (r: int)
    requires op in {BitOr, BitAnd, BitXor} && IsInt32(a) && IsInt32(b) && k < 32
    ensures IsInt32(r) && FoldsTo(op, a as real, b as real, r as real)
    ensures BitOf(r, k) <==> CombinedBit(op, BitOf(a, k), BitOf(b, k))
  {
    hide BitOf, Combined;
    WholeInt(a);
    WholeInt(b);
    var c := Combined(op, a, b, 32);
    r := Wrap32(c);
    CombinedBits(op, a, b, 32, k);
    var t := Wraps(c);
    BitsBelow(c, t, 32, k);
  }

  predicate Fits(a: int, n: nat) {
    0 <= a + Pow2(n) < 2 * Pow2(n)
  }

  // An integer is determined by its bits.
  lemma {:induction false} BitsDetermine(a: int, b: int, n: nat)
    requires Fits(a, n) && Fits(b, n) && forall k: nat | k <= n :: BitOf(a, k) == BitOf(b, k)
    ensures a == b
    decreases n
  {
    assert BitOf(a, 0) == BitOf(b, 0);
    if n > 0 {
      forall k: nat | k <= n - 1 ensures BitOf(a / 2, k) == BitOf(b / 2, k) {
        assert BitOf(a, k + 1) == BitOf(b, k + 1);
      }
      BitsDetermine(a / 2, b / 2, n - 1);
    }
  }

  // The home slot of a key in a table of 2 to the n slots is what the mask leaves of its
  // hash: the bits below n.
  lemma HomeMasks(c: KeyClass, n: nat, k: nat)
    ensures Pow2(n) > 0 && Home(c, Pow2(n)) < Pow2(n)
    ensures k < n ==> (BitOf(Home(c, Pow2(n)), k) <==> BitOf(c.hash, k))
  {
    Pow2Positive(n);
    var m := Pow2(n);
    if k < n {
      assert c.hash == c.hash % m + c.hash / m * m;
      BitsBelow(Home(c, m), c.hash / m, n, k);
    }
  }

  // ---------- shifts ----------

  // Shifting to the left multiplies by a power of two, but for what does not fit the word.
  lemma ShiftsLeft(a: int, b: nat) returns (r: int, t: int)
    requires IsInt32(a) && b < 32
    ensures FoldsTo(ShiftL, a as real, b as real, r as real) && IsInt32(r) && r == a * Pow2(b) + t * Pow2(32)
  {
    hide Pow2;
    WholeInt(a);
    WholeInt(b);
    r := Wrap32(a * Pow2(b));
    t := Wraps(a * Pow2(b));
  }

  // Shifting to the right divides by a power of two, rounding down.
  lemma ShiftsRight(a: int, b: nat) returns (r: int)
    requires IsInt32(a) && b < 32
    ensures FoldsTo(ShiftR, a as real, b as real, r as real) && r * Pow2(b) <= a < (r + 1) * Pow2(b)
  {
    hide Pow2;
    WholeInt(a);
    WholeInt(b);
    Pow2Positive(b);
    r := a / Pow2(b);
    Floors(a, Pow2(b));
  }

  // A distance outside the word gives no defined result.
  lemma ShiftsInWord(a: int, b: int)
    requires IsInt32(a) && IsInt32(b)
    ensures FoldConstant(ShiftL, a as real, b as real) == FoldUndefined <==> !(0 <= b < 32)
    ensures FoldConstant(ShiftR, a as real, b as real) == FoldUndefined <==> !(0 <= b < 32)
  {
    hide Pow2;
    WholeInt(b);
  }

  lemma Floors(a: int, m: nat)
    requires m > 0
    ensures a / m * m <= a < (a / m + 1) * m
  {
    assert a == a / m * m + a % m;
  }

  // ---------- comparisons ----------

  predicate Holds(op: CmpOp, a: Value, b: Value) {
    Machine.Comparison(op, a, b) == Ok(Bool(true))
  }

  // Of two numbers one is less, or they are equal, or the other is less; a number is less
  // than the same number with a positive one added; the other comparisons follow.
  lemma Orders(a: real, b: real, d: real)
    requires d > 0.0
    ensures Holds(Less, Num(a), Num(a + d)) && !Holds(Less, Num(a + d), Num(a)) && !Holds(Less, Num(a), Num(a))
    ensures Holds(Greater, Num(a), Num(b)) <==> Holds(Less, Num(b), Num(a))
    ensures Holds(LessEq, Num(a), Num(b)) <==> !Holds(Less, Num(b), Num(a))
    ensures Holds(GreaterEq, Num(a), Num(b)) <==> !Holds(Less, Num(a), Num(b))
    ensures Holds(Equal, Num(a), Num(b)) <==> !Holds(Less, Num(a), Num(b)) && !Holds(Less, Num(b), Num(a))
  {
  }

  // Any two values are equal or not; only numbers are compared otherwise.
  lemma Equals(a: Value, b: Value)
    ensures Holds(Equal, a, b) <==> a == b
    ensures Holds(NotEqual, a, b) <==> !Holds(Equal, a, b)
    ensures forall op | op in {Less, Greater, LessEq, GreaterEq} ::
      Machine.Comparison(op, a, b) == Throws(TypeError) <==> !(a.Num? && b.Num?)
  {
  }

  // Negating is subtracting from zero, and for numbers only.
  lemma Negates(v: Value)
    ensures v.Num? ==> exists r :: FoldsTo(Sub, 0.0, v.n, r) && Negated(v) == Ok(Num(r))
    ensures !v.Num? ==> Negated(v) == Throws(TypeError)
  {
    if v.Num? {
      assert FoldsTo(Sub, 0.0, v.n, 0.0 - v.n);
    }
  }

  // ---------- built-in names ----------

  const BUILT_INS := {"clock", "typeof", "classof", "debugger", "loadScript", "requireScript",
    "eval", "yield", "blockGiven", "sleep"}

  // The same globals under the built-in names.
  predicate SameBuiltIns(e: Env, f: Env) {
    forall name | name in BUILT_INS :: (name in e.globals <==> name in f.globals)
      && (name in e.globals ==> e.globals[name] == f.globals[name])
  }

  lemma StepBuiltIns(p: seq<Ins>, s: State)
    ensures SameBuiltIns(s.env, Step(p, s).env)
  {
  }

  // No program, whatever it does, binds a built-in name.
  lemma {:induction false} BuiltInsStay(p: seq<Ins>, s: State, n: nat)
    ensures SameBuiltIns(s.env, Steps(p, s, n).env)
    decreases n
  {
    if n > 0 {
      StepBuiltIns(p, s);
      BuiltInsStay(p, Step(p, s), n - 1);
    }
  }
}
