/** Naturals as little-endian sequences of 64-bit digits. */
module Digits {
  import opened Arith

  const BASE := 0x1_0000_0000_0000_0000  // 2^64

  type Digit = x: int | 0 <= x < BASE

  /** The natural a digit sequence denotes. */
  function Val(ds: seq<Digit>): (v: nat)
  {
    if ds == [] then 0 else ds[0] + BASE * Val(ds[1..])
  }

  predicate Normalized(ds: seq<Digit>) { ds != [] ==> ds[|ds| - 1] != 0 }

  lemma ValSingle(d: Digit)
    ensures Val([d]) == d
  {
    assert [d][1..] == [];
  }

  /** The weight of digit n. */
  function Radix(n: nat): (p: nat)
    ensures 1 <= p
  {
    if n == 0 then 1 else BASE * Radix(n - 1)
  }

  lemma {:induction false} RadixIsPow2(n: nat)
    ensures Radix(n) == Pow2(64 * n)
  {
    if n != 0 {
      RadixIsPow2(n - 1);
      Pow2Constants();
      Pow2Add(64, 64 * (n - 1));
    }
  }

  lemma {:induction false} RadixAdd(m: nat, n: nat)
    ensures Radix(m + n) == Radix(m) * Radix(n)
  {
    if m != 0 {
      RadixAdd(m - 1, n);
      MulAssoc(BASE, Radix(m - 1), Radix(n));
    }
  }

  lemma {:induction false} RadixMono(m: nat, n: nat)
    requires m <= n
    ensures Radix(m) <= Radix(n)
  {
    if m < n { RadixMono(m, n - 1); }
  }

  lemma {:induction false} ValConcat(a: seq<Digit>, b: seq<Digit>)
    ensures Val(a + b) == Val(a) + Radix(|a|) * Val(b)
  {
    if a == [] {
      assert a + b == b;
    } else {
      assert (a + b)[1..] == a[1..] + b;
      ValConcat(a[1..], b);
      MulAssoc(BASE, Radix(|a| - 1), Val(b));
    }
  }

  lemma {:induction false} ValBound(ds: seq<Digit>)
    ensures Val(ds) < Radix(|ds|)
  {
    if ds != [] {
      ValBound(ds[1..]);
    }
  }

  lemma ValLast(ds: seq<Digit>)
    requires ds != []
    ensures Val(ds) == Val(ds[..|ds| - 1]) + Radix(|ds| - 1) * ds[|ds| - 1]
  {
    var n := |ds| - 1;
    assert ds == ds[..n] + [ds[n]];
    ValConcat(ds[..n], [ds[n]]);
    ValSingle(ds[n]);
  }

  /** A normalized sequence has the length of its value. */
  lemma NormalizedBounds(ds: seq<Digit>)
    requires Normalized(ds) && ds != []
    ensures Radix(|ds| - 1) <= Val(ds) < Radix(|ds|)
  {
    ValBound(ds);
    ValLast(ds);
    MulGe(ds[|ds| - 1], Radix(|ds| - 1));
    assert ds[|ds| - 1] * Radix(|ds| - 1) == Radix(|ds| - 1) * ds[|ds| - 1];
  }

  lemma DropTopZero(ds: seq<Digit>)
    requires ds != [] && ds[|ds| - 1] == 0
    ensures Val(ds[..|ds| - 1]) == Val(ds)
  {
    ValLast(ds);
  }

  lemma {:induction false} ZeroDigits(ds: seq<Digit>)
    ensures Val(ds) == 0 <==> forall i :: 0 <= i < |ds| ==> ds[i] == 0
  {
    if ds != [] {
      ZeroDigits(ds[1..]);
      assert forall i :: 1 <= i < |ds| ==> ds[i] == ds[1..][i - 1];
    }
  }

  /** Two normalized sequences of one value are one sequence. */
  lemma {:induction false} NormalizedUnique(a: seq<Digit>, b: seq<Digit>)
    requires Normalized(a) && Normalized(b) && Val(a) == Val(b)
    ensures a == b
  {
    if a == [] || b == [] {
      ZeroDigits(a);
      ZeroDigits(b);
    } else {
      DivModUnique(Val(a), BASE, Val(a[1..]), a[0]);
      DivModUnique(Val(b), BASE, Val(b[1..]), b[0]);
      NormalizedUnique(a[1..], b[1..]);
      assert a == [a[0]] + a[1..] && b == [b[0]] + b[1..];
    }
  }
}
