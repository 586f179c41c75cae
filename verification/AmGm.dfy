/** The inequality of arithmetic and geometric means, for natural numbers at a fixed scale. */
module AmGm {
  import opened Words

  function Total(xs: seq<nat>): nat {
    if xs == [] then 0 else xs[0] + Total(xs[1..])
  }

  function Product(xs: seq<nat>): nat {
    if xs == [] then 1 else xs[0] * Product(xs[1..])
  }

  function Power(base: nat, n: nat): nat {
    if n == 0 then 1 else base * Power(base, n - 1)
  }

  function Without(xs: seq<nat>, i: nat): (ys: seq<nat>)
    requires i < |xs|
    ensures |ys| == |xs| - 1
  {
    xs[..i] + xs[i + 1..]
  }

  lemma {:induction false} TotalWithout(xs: seq<nat>, i: nat)
    requires i < |xs|
    ensures Total(xs) == xs[i] + Total(Without(xs, i))
  {
    if i == 0 {
      assert Without(xs, 0) == xs[1..];
    } else {
      TotalWithout(xs[1..], i - 1);
      assert Without(xs, i) == [xs[0]] + Without(xs[1..], i - 1);
    }
  }

  lemma Swap(a: nat, b: nat, c: nat)
    ensures a * (b * c) == b * (a * c)
  {
  }

  lemma {:induction false} ProductWithout(xs: seq<nat>, i: nat)
    requires i < |xs|
    ensures Product(xs) == xs[i] * Product(Without(xs, i))
  {
    if i == 0 {
      assert Without(xs, 0) == xs[1..];
    } else {
      ProductWithout(xs[1..], i - 1);
      assert Without(xs, i) == [xs[0]] + Without(xs[1..], i - 1);
      Swap(xs[0], xs[i], Product(Without(xs[1..], i - 1)));
    }
  }

  /** Factors no larger than the scale have a product no larger than its power. */
  lemma {:induction false} SmallProduct(xs: seq<nat>, s: nat)
    requires forall i :: 0 <= i < |xs| ==> xs[i] <= s
    ensures Product(xs) <= Power(s, |xs|)
  {
    if xs != [] {
      SmallProduct(xs[1..], s);
      MulMonotone(xs[0], s, Product(xs[1..]));
      MulMonotone(Product(xs[1..]), Power(s, |xs| - 1), s);
    }
  }

  lemma {:induction false} LargeTotal(xs: seq<nat>, s: nat)
    requires forall i :: 0 <= i < |xs| ==> xs[i] >= s
    ensures Total(xs) >= |xs| * s
  {
    if xs != [] {
      LargeTotal(xs[1..], s);
      assert |xs| * s == s + (|xs| - 1) * s;
    }
  }

  /** Moving a factor above the scale and one below it towards each other, down to the scale itself. */
  lemma Smoothing(a: nat, b: nat, s: nat, rest: nat, bound: nat)
    requires a < s < b && (a + b - s) * rest <= bound
    ensures b * (a * rest) <= s * bound
  {
    Gap(a, b, s);
    MulMonotone(a * b, s * (a + b - s), rest);
    MulMonotone((a + b - s) * rest, bound, s);
    Regroup(b, a, rest);
    Regroup(s, a + b - s, rest);
  }

  lemma Gap(a: int, b: int, s: int)
    requires a <= s <= b
    ensures a * b <= s * (a + b - s)
  {
    MulMonotone(0, s - a, b - s);
    assert s * (a + b - s) - a * b == (s - a) * (b - s);
  }

  lemma Regroup(x: int, y: int, z: int)
    ensures x * (y * z) == (y * x) * z && x * (y * z) == (x * y) * z && (y * z) * x == x * (y * z)
  {
  }

  /** If the mean is at most `s`, the product is at most `s` to the number of factors. */
  lemma {:induction false} MeanBoundsProduct(xs: seq<nat>, s: nat)
    requires Total(xs) <= |xs| * s
    ensures Product(xs) <= Power(s, |xs|)
    decreases |xs|
  {
    if forall i :: 0 <= i < |xs| ==> xs[i] <= s {
      SmallProduct(xs, s);
    } else {
      var i :| 0 <= i < |xs| && xs[i] > s;
      var j, ys := SomeSmaller(xs, s, i);
      var merged := [ys[j] + xs[i] - s] + Without(ys, j);
      assert merged[1..] == Without(ys, j);
      MeanBoundsProduct(merged, s);
      ProductWithout(xs, i);
      ProductWithout(ys, j);
      Smoothing(ys[j], xs[i], s, Product(Without(ys, j)), Power(s, |merged|));
    }
  }

  lemma OneLess(n: int, s: int)
    ensures (n + 1) * s == s + n * s
  {
  }

  /** Beside a number above the mean there is one below it, and merging the two keeps the mean. */
  lemma SomeSmaller(xs: seq<nat>, s: nat, i: nat) returns (j: nat, ys: seq<nat>)
    requires i < |xs| && xs[i] > s && Total(xs) <= |xs| * s
    ensures ys == Without(xs, i) && j < |ys| && ys[j] < s
    ensures Total([ys[j] + xs[i] - s] + Without(ys, j)) <= |ys| * s
  {
    ys := Without(xs, i);
    TotalWithout(xs, i);
    OneLess(|ys|, s);
    if forall k :: 0 <= k < |ys| ==> ys[k] >= s {
      LargeTotal(ys, s);
      assert false;
    }
    j :| 0 <= j < |ys| && ys[j] < s;
    TotalWithout(ys, j);
    var merged := [ys[j] + xs[i] - s] + Without(ys, j);
    assert merged[1..] == Without(ys, j);
  }
}
