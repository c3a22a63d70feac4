/** Small definitions and arithmetic facts shared by the modules. */
module Common {

  /** Number of values of an `unsigned int`. */
  const WORD := 0x1_0000_0000

  /** Carrier frequency in Hz. */
  const FC := 13560000

  /** Bytes and text where arithmetic, not bit operations, is what matters. */
  type Byte = x: int | 0 <= x < 256
  type Text = seq<Byte>

  datatype Option<T> = None | Some(value: T)

  function Pow2(n: nat): (p: nat)
    ensures p > 0
  {
    if n == 0 then 1 else 2 * Pow2(n - 1)
  }

  lemma {:induction false} Pow2Monotone(i: nat, j: nat)
    requires i <= j
    ensures Pow2(i) <= Pow2(j)
    decreases j - i
  {
    if i < j {
      Pow2Monotone(i, j - 1);
    }
  }

  /** The elements of all parts, in order. */
  function Flatten<T>(xss: seq<seq<T>>): seq<T> {
    if xss == [] then [] else xss[0] + Flatten(xss[1..])
  }

  lemma {:induction false} FlattenAppend<T>(xs: seq<seq<T>>, ys: seq<seq<T>>)
    ensures Flatten(xs + ys) == Flatten(xs) + Flatten(ys)
    decreases |xs|
  {
    if xs == [] {
      assert xs + ys == ys;
    } else {
      FlattenAppend(xs[1..], ys);
      assert (xs + ys)[1..] == xs[1..] + ys;
    }
  }

  lemma FlattenSnoc<T>(xss: seq<seq<T>>, xs: seq<T>)
    ensures Flatten(xss + [xs]) == Flatten(xss) + xs
  {
    FlattenAppend(xss, [xs]);
    assert Flatten([xs]) == xs + [] == xs;
  }

  lemma MulMono(p: int, u: int, v: int)
    requires p >= 0 && u <= v
    ensures p * u <= p * v
  {
    assert p * (v - u) >= 0;
  }

  lemma Quotient(a: int, p: int)
    requires p > 0
    ensures p * (a / p) <= a < p * (a / p) + p
  {
  }

  lemma QuotientUnique(a: int, p: int, q: int)
    requires p > 0 && p * q <= a < p * q + p
    ensures a / p == q
  {
    Quotient(a, p);
    if a / p < q {
      MulMono(p, a / p + 1, q);
    } else if a / p > q {
      MulMono(p, q + 1, a / p);
    }
  }
}
