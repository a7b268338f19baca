/** Small generic pieces shared by the other modules. */
module Common {

  datatype Option<+T> = None | Some(value: T)

  /** A Go pointer to a struct value. Two holders of the same cell see each other's updates. */
  class Ref<T> {
    var v: T

    constructor (v: T)
      ensures this.v == v
    {
      this.v := v;
    }
  }

  /** Two sums that stay equal when the same part is added to both. */
  lemma Shift<T>(a: multiset<T>, p: multiset<T>, p': multiset<T>, x: multiset<T>, y: multiset<T>)
    requires p' + x == p + y
    ensures (a + p') + x == (a + p) + y
  {
    assert (a + p') + x == a + (p' + x);
  }

  lemma AtLeast(k: int, d: nat)
    requires k >= 1
    ensures k * d >= d
  {
  }

  /** Quotient and remainder are the only ones. */
  lemma DivModIs(x: int, d: nat, q: int, r: int)
    requires d > 0 && x == d * q + r && 0 <= r < d
    ensures x % d == r && x / d == q
  {
    var k := q - x / d;
    assert k * d == x % d - r;
    if k >= 1 {
      AtLeast(k, d);
    } else if k <= -1 {
      AtLeast(-k, d);
    }
  }

  lemma Floor(x: nat, d: nat)
    requires d > 0
    ensures x - x % d == d * (x / d)
  {
  }

  function Sum<T>(s: seq<T>, f: T -> nat): nat {
    if s == [] then 0 else f(s[0]) + Sum(s[1..], f)
  }

  lemma {:induction false} SumUpdate<T>(s: seq<T>, i: nat, x: T, f: T -> nat)
    requires i < |s|
    ensures Sum(s[i := x], f) == Sum(s, f) - f(s[i]) + f(x)
  {
    if i == 0 {
      assert s[i := x][1..] == s[1..];
    } else {
      assert s[i := x][1..] == s[1..][i - 1 := x];
      SumUpdate(s[1..], i - 1, x, f);
    }
  }

  lemma {:induction false} SumSnoc<T>(s: seq<T>, x: T, f: T -> nat)
    ensures Sum(s + [x], f) == Sum(s, f) + f(x)
  {
    if s == [] {
      assert (s + [x])[1..] == [];
    } else {
      assert (s + [x])[0] == s[0] && (s + [x])[1..] == s[1..] + [x];
      SumSnoc(s[1..], x, f);
    }
  }

  function Bag<T, U>(s: seq<T>, f: T -> multiset<U>): multiset<U> {
    if s == [] then multiset{} else f(s[0]) + Bag(s[1..], f)
  }

  lemma {:induction false} BagUpdate<T, U>(s: seq<T>, i: nat, x: T, f: T -> multiset<U>)
    requires i < |s|
    ensures Bag(s[i := x], f) + f(s[i]) == Bag(s, f) + f(x)
  {
    if i == 0 {
      assert s[i := x][1..] == s[1..];
    } else {
      assert s[i := x][1..] == s[1..][i - 1 := x];
      BagUpdate(s[1..], i - 1, x, f);
      Shift(f(s[0]), Bag(s[1..], f), Bag(s[1..][i - 1 := x], f), f(s[i]), f(x));
    }
  }

  lemma {:induction false} BagNone<T, U>(s: seq<T>, f: T -> multiset<U>)
    requires forall i | 0 <= i < |s| :: f(s[i]) == multiset{}
    ensures Bag(s, f) == multiset{}
  {
    if s != [] {
      BagNone(s[1..], f);
    }
  }
}
