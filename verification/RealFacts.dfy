/** Facts of real arithmetic that the regressions use. */
module RealFacts {
  lemma Cancel(a: real, x: real, y: real)
    requires a != 0.0 && a * x == a * y
    ensures x == y
  {
    assert x == (a * x) / a && y == (a * y) / a;
  }

  lemma Product(a: real, b: real)
    requires a > 0.0
    ensures a * b > 0.0 <==> b > 0.0
    ensures a * b == 0.0 <==> b == 0.0
  {
  }

  lemma SignOf(z: real, t: real)
    requires z >= 0.0
    ensures z * (t * t) >= 0.0
    ensures z > 0.0 ==> (z * (t * t) == 0.0 <==> t == 0.0)
    ensures z == 0.0 ==> z * (t * t) == 0.0
  {
    var q := t * t;
    if t > 0.0 {
      Product(t, t);
    } else if t < 0.0 {
      Product(0.0 - t, 0.0 - t);
      assert (0.0 - t) * (0.0 - t) == q;
    }
    if z > 0.0 {
      Product(z, q);
      assert q == 0.0 || q > 0.0;
    } else {
      assert z * q == 0.0;
    }
  }

  lemma Distribute(k: real, a: real, b: real)
    ensures k * (a + b) == k * a + k * b
  {
  }
}
