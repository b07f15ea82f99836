/** fitQuadratic() of ntp/tcmp.cpp over exact reals: the in-place elimination solves the
    weighted normal equations of a parabola, and so finds the one parabola of the least
    weighted squared error. */
module QuadraticFit {
  import opened RealFacts

  /** A node: abscissa, value and weight, relative to the means. */
  datatype Node = Node(x: real, y: real, z: real)

  /** A parabola c0 + c1 x + c2 x^2. */
  datatype Coef = Coef(c0: real, c1: real, c2: real)

  // ----- sums over nodes

  /** z times the k-th power of x. */
  function Term(z: real, x: real, k: nat): real {
    if k == 0 then z else Term(z, x, k - 1) * x
  }

  function Moment(ns: seq<Node>, k: nat): real {
    if ns == [] then 0.0 else
      var p := ns[|ns| - 1];
      Moment(ns[..|ns| - 1], k) + Term(p.z, p.x, k)
  }

  function Cross(ns: seq<Node>, k: nat): real {
    if ns == [] then 0.0 else
      var p := ns[|ns| - 1];
      Cross(ns[..|ns| - 1], k) + Term(p.z, p.x, k) * p.y
  }

  /** The coefficients and right-hand sides of the normal equations. */
  datatype Sums = Sums(m0: real, m1: real, m2: real, m3: real, m4: real, y0: real, y1: real, y2: real)

  function SumsOf(ns: seq<Node>): Sums {
    Sums(Moment(ns, 0), Moment(ns, 1), Moment(ns, 2), Moment(ns, 3), Moment(ns, 4),
         Cross(ns, 0), Cross(ns, 1), Cross(ns, 2))
  }

  predicate Normal(s: Sums, c: Coef) {
    && s.m2 * c.c2 + s.m1 * c.c1 + s.m0 * c.c0 == s.y0
    && s.m3 * c.c2 + s.m2 * c.c1 + s.m1 * c.c0 == s.y1
    && s.m4 * c.c2 + s.m3 * c.c1 + s.m2 * c.c0 == s.y2
  }

  function At(c: Coef, x: real): real {
    c.c0 + c.c1 * x + c.c2 * (x * x)
  }

  /** The weighted squared error of a parabola. */
  function Loss(ns: seq<Node>, c: Coef): real {
    if ns == [] then 0.0 else
      var p := ns[|ns| - 1];
      var r := p.y - At(c, p.x);
      Loss(ns[..|ns| - 1], c) + p.z * (r * r)
  }

  // ----- elimination

  /** A row of the matrix; its last entry is the right-hand side. */
  type Row = (real, real, real, real)

  function Top(s: Sums): Row { (s.m4, s.m3, s.m2, s.y2) }
  function Middle(s: Sums): Row { (s.m3, s.m2, s.m1, s.y1) }
  function Low(s: Sums): Row { (s.m2, s.m1, s.m0, s.y0) }

  /** Row b after f times row a was taken from it. */
  function Taken(f: real, a: Row, b: Row): Row {
    (b.0 - f * a.0, b.1 - f * a.1, b.2 - f * a.2, b.3 - f * a.3)
  }

  /** The second row, and the third after the first step, and after the second. */
  function Second(s: Sums): Row
    requires s.m4 != 0.0
  {
    Taken(s.m3 / s.m4, Top(s), Middle(s))
  }

  function Third(s: Sums): Row
    requires s.m4 != 0.0
  {
    Taken(s.m2 / s.m4, Top(s), Low(s))
  }

  function Last(s: Sums): Row
    requires s.m4 != 0.0 && Second(s).1 != 0.0
  {
    Taken(Third(s).1 / Second(s).1, Second(s), Third(s))
  }

  /** The numbers that fitQuadratic() divides by. */
  predicate Pivots(s: Sums) {
    s.m4 != 0.0 && Second(s).1 != 0.0 && Last(s).2 != 0.0
  }

  /** What back substitution solves. */
  predicate Triangular(top: Row, second: Row, last: Row, c: Coef) {
    && last.2 * c.c0 == last.3
    && second.1 * c.c1 == second.3 - second.2 * c.c0
    && top.0 * c.c2 == top.3 - top.2 * c.c0 - top.1 * c.c1
  }

  /** What a row leaves of a solution. */
  function Rest(a: Row, c: Coef): real {
    a.0 * c.c2 + a.1 * c.c1 + a.2 * c.c0 - a.3
  }

  /** Taking a multiple of a solved row keeps what solves the other. */
  lemma TakenKeeps(f: real, a: Row, b: Row, c: Coef)
    requires Rest(a, c) == 0.0
    ensures Rest(Taken(f, a, b), c) == Rest(b, c)
  {
    assert f * Rest(a, c) == (f * a.0) * c.c2 + (f * a.1) * c.c1 + (f * a.2) * c.c0 - f * a.3;
  }

  lemma NormalIs(s: Sums, c: Coef)
    ensures Normal(s, c) <==> Rest(Top(s), c) == 0.0 && Rest(Middle(s), c) == 0.0 && Rest(Low(s), c) == 0.0
  {
  }

  lemma Quotient(a: real, b: real)
    requires b != 0.0
    ensures a - a / b * b == 0.0
  {
  }

  /** Elimination leaves zeros below the diagonal. */
  lemma ZerosLeft(s: Sums)
    requires s.m4 != 0.0 && Second(s).1 != 0.0
    ensures Second(s).0 == 0.0 && Last(s).0 == 0.0 && Last(s).1 == 0.0
  {
    Quotient(s.m3, s.m4);
    Quotient(s.m2, s.m4);
    Quotient(Third(s).1, Second(s).1);
    assert Second(s).0 == 0.0 && Third(s).0 == 0.0;
  }

  lemma TriangularIs(top: Row, second: Row, last: Row, c: Coef)
    requires second.0 == 0.0 && last.0 == 0.0 && last.1 == 0.0
    ensures Triangular(top, second, last, c) <==>
            Rest(top, c) == 0.0 && Rest(second, c) == 0.0 && Rest(last, c) == 0.0
  {
    assert 0.0 * c.c2 == 0.0 && 0.0 * c.c1 == 0.0;
  }

  /** Elimination keeps the solutions. */
  lemma EliminationKeeps(s: Sums, c: Coef)
    requires s.m4 != 0.0 && Second(s).1 != 0.0
    ensures Normal(s, c) <==> Triangular(Top(s), Second(s), Last(s), c)
  {
    ZerosLeft(s);
    NormalIs(s, c);
    TriangularIs(Top(s), Second(s), Last(s), c);
    hide Rest, Taken, Top, Middle, Low, Normal, Triangular;
    if Rest(Top(s), c) == 0.0 {
      TakenKeeps(s.m3 / s.m4, Top(s), Middle(s), c);
      TakenKeeps(s.m2 / s.m4, Top(s), Low(s), c);
      if Rest(Second(s), c) == 0.0 {
        TakenKeeps(Third(s).1 / Second(s).1, Second(s), Third(s), c);
      }
    }
  }

  /** With pivots that are not zero there is one solution. */
  lemma OneSolution(s: Sums, c: Coef, d: Coef)
    requires Pivots(s) && Normal(s, c) && Normal(s, d)
    ensures c == d
  {
    EliminationKeeps(s, c);
    EliminationKeeps(s, d);
    hide Normal, Taken, Second, Last, Third, Triangular;
    OneBackSubstitution(Top(s), Second(s), Last(s), c, d);
  }

  lemma OneBackSubstitution(top: Row, second: Row, last: Row, c: Coef, d: Coef)
    requires top.0 != 0.0 && second.1 != 0.0 && last.2 != 0.0
    requires Triangular(top, second, last, c) && Triangular(top, second, last, d)
    ensures c == d
  {
    Cancel(last.2, c.c0, d.c0);
    Cancel(second.1, c.c1, d.c1);
    Cancel(top.0, c.c2, d.c2);
  }

  // ----- the weighted square of a parabola

  predicate Weighted(ns: seq<Node>) {
    forall i :: 0 <= i < |ns| ==> ns[i].z >= 0.0
  }

  function Form(s: Sums, d: Coef): real {
    Squares(d, s.m0, s.m1, s.m2, s.m3, s.m4)
  }

  /** The square of a parabola, the powers replaced by these numbers. */
  function Squares(d: Coef, t0: real, t1: real, t2: real, t3: real, t4: real): real {
    (d.c0 * d.c0) * t0 + 2.0 * ((d.c0 * d.c1) * t1) + 2.0 * ((d.c0 * d.c2) * t2) + (d.c1 * d.c1) * t2
    + 2.0 * ((d.c1 * d.c2) * t3) + (d.c2 * d.c2) * t4
  }

  lemma Expand(z: real, x: real, d: Coef)
    ensures z * (At(d, x) * At(d, x)) ==
            Squares(d, z, z * x, z * x * x, z * x * x * x, z * x * x * x * x)
  {
    var a, b, c := d.c0, d.c1 * x, d.c2 * (x * x);
    Trinomial(z, a, b, c);
    var z1, z2, z3, z4 := z * x, z * x * x, z * x * x * x, z * x * x * x * x;
    assert z * (a * a) == (d.c0 * d.c0) * z;
    assert z * (a * b) == (d.c0 * d.c1) * z1;
    assert z * (a * c) == (d.c0 * d.c2) * z2;
    assert z * (b * b) == (d.c1 * d.c1) * z2;
    assert z * (b * c) == (d.c1 * d.c2) * z3;
    assert z * (c * c) == (d.c2 * d.c2) * z4;
  }

  lemma Trinomial(z: real, a: real, b: real, c: real)
    ensures z * ((a + b + c) * (a + b + c)) ==
           z * (a * a) + 2.0 * (z * (a * b)) + 2.0 * (z * (a * c)) + z * (b * b) + 2.0 * (z * (b * c)) + z * (c * c)
  {
    assert (a + b + c) * (a + b + c) ==
           a * a + 2.0 * (a * b) + 2.0 * (a * c) + b * b + 2.0 * (b * c) + c * c;
  }

  lemma SquaresAdd(d: Coef, s: (real, real, real, real, real), t: (real, real, real, real, real))
    ensures Squares(d, s.0 + t.0, s.1 + t.1, s.2 + t.2, s.3 + t.3, s.4 + t.4) ==
            Squares(d, s.0, s.1, s.2, s.3, s.4) + Squares(d, t.0, t.1, t.2, t.3, t.4)
  {
    Distribute(d.c0 * d.c0, s.0, t.0);
    Distribute(d.c0 * d.c1, s.1, t.1);
    Distribute(d.c0 * d.c2, s.2, t.2);
    Distribute(d.c1 * d.c1, s.2, t.2);
    Distribute(d.c1 * d.c2, s.3, t.3);
    Distribute(d.c2 * d.c2, s.4, t.4);
  }

  predicate Vanishes(ns: seq<Node>, d: Coef) {
    forall i :: 0 <= i < |ns| ==> (ns[i].z > 0.0 ==> At(d, ns[i].x) == 0.0)
  }

  lemma TermsAre(z: real, x: real)
    ensures Term(z, x, 0) == z && Term(z, x, 1) == z * x && Term(z, x, 2) == z * x * x
    ensures Term(z, x, 3) == z * x * x * x && Term(z, x, 4) == z * x * x * x * x
  {
    assert Term(z, x, 2) == Term(z, x, 1) * x && Term(z, x, 3) == Term(z, x, 2) * x;
    assert Term(z, x, 4) == Term(z, x, 3) * x && Term(z, x, 1) == Term(z, x, 0) * x;
  }

  /** What one node adds to the sums. */
  function Terms(p: Node): Sums {
    var z1 := p.z * p.x;
    var z2 := z1 * p.x;
    Sums(p.z, z1, z2, z2 * p.x, z2 * p.x * p.x, p.z * p.y, z1 * p.y, z2 * p.y)
  }

  function Add(s: Sums, t: Sums): Sums {
    Sums(s.m0 + t.m0, s.m1 + t.m1, s.m2 + t.m2, s.m3 + t.m3, s.m4 + t.m4, s.y0 + t.y0, s.y1 + t.y1, s.y2 + t.y2)
  }

  lemma SumsNext(ns: seq<Node>)
    requires ns != []
    ensures SumsOf(ns) == Add(SumsOf(ns[..|ns| - 1]), Terms(ns[|ns| - 1]))
  {
    TermsAre(ns[|ns| - 1].z, ns[|ns| - 1].x);
  }

  lemma FormAdds(s: Sums, t: Sums, d: Coef)
    ensures Form(Add(s, t), d) == Form(s, d) + Form(t, d)
  {
    SquaresAdd(d, (s.m0, s.m1, s.m2, s.m3, s.m4), (t.m0, t.m1, t.m2, t.m3, t.m4));
  }

  lemma FormOfTerms(p: Node, d: Coef)
    ensures Form(Terms(p), d) == p.z * (At(d, p.x) * At(d, p.x))
  {
    Expand(p.z, p.x, d);
  }

  lemma FormNext(ns: seq<Node>, d: Coef)
    requires ns != []
    ensures var p := ns[|ns| - 1];
            Form(SumsOf(ns), d) == Form(SumsOf(ns[..|ns| - 1]), d) + p.z * (At(d, p.x) * At(d, p.x))
  {
    hide SumsOf, At, Form, Terms, Add;
    SumsNext(ns);
    FormAdds(SumsOf(ns[..|ns| - 1]), Terms(ns[|ns| - 1]), d);
    FormOfTerms(ns[|ns| - 1], d);
  }

  lemma FormOfNone(d: Coef)
    ensures Form(SumsOf([]), d) == 0.0
  {
  }

  /** With weights that are not negative the form is not negative, and it is zero just
      when the parabola is zero at every node that has weight. */
  lemma {:induction false} FormSign(ns: seq<Node>, d: Coef)
    requires Weighted(ns)
    ensures Form(SumsOf(ns), d) >= 0.0
    ensures Form(SumsOf(ns), d) == 0.0 <==> Vanishes(ns, d)
  {
    hide Form, SumsOf, At;
    if ns == [] {
      FormOfNone(d);
    } else {
      var n := |ns| - 1;
      FormSign(ns[..n], d);
      FormNext(ns, d);
      SignOf(ns[n].z, At(d, ns[n].x));
      assert forall i :: 0 <= i < n ==> ns[..n][i] == ns[i];
    }
  }

  // ----- when the fit is defined

  predicate Apart(p: Node, q: Node, r: Node) {
    p.z > 0.0 && q.z > 0.0 && r.z > 0.0 && p.x != q.x && q.x != r.x && p.x != r.x
  }

  /** Three nodes with weight have different abscissas. */
  ghost predicate Three(ns: seq<Node>) {
    exists i, j, k :: 0 <= i < |ns| && 0 <= j < |ns| && 0 <= k < |ns| && Apart(ns[i], ns[j], ns[k])
  }

  const ZERO := Coef(0.0, 0.0, 0.0)

  lemma Root(d: Coef, x: real, y: real)
    requires At(d, x) == 0.0 && At(d, y) == 0.0 && x != y
    ensures d.c1 + d.c2 * (x + y) == 0.0
  {
    assert (x - y) * (d.c1 + d.c2 * (x + y)) == At(d, x) - At(d, y) by {
      assert (x - y) * (x + y) == x * x - y * y;
      assert (x - y) * (d.c2 * (x + y)) == d.c2 * (x * x) - d.c2 * (y * y);
    }
    Cancel(x - y, d.c1 + d.c2 * (x + y), 0.0);
  }

  /** A parabola with three roots is zero. */
  lemma ThreeRoots(d: Coef, x: real, y: real, w: real)
    requires At(d, x) == 0.0 && At(d, y) == 0.0 && At(d, w) == 0.0 && x != y && y != w && x != w
    ensures d == ZERO
  {
    Root(d, x, y);
    Root(d, x, w);
    assert (y - w) * d.c2 == d.c2 * (x + y) - d.c2 * (x + w);
    Cancel(y - w, d.c2, 0.0);
  }

  /** With three such nodes, only the zero parabola has a form that is zero. */
  lemma FormIsPositive(ns: seq<Node>, d: Coef)
    requires Weighted(ns) && Three(ns) && d != ZERO
    ensures Form(SumsOf(ns), d) > 0.0
  {
    hide SumsOf, Form, At;
    FormSign(ns, d);
    if Vanishes(ns, d) {
      var i, j, k :| 0 <= i < |ns| && 0 <= j < |ns| && 0 <= k < |ns| && Apart(ns[i], ns[j], ns[k]);
      ThreeRoots(d, ns[i].x, ns[j].x, ns[k].x);
      assert false;
    }
  }

  /** The form, by the rows that it is the gradient of. */
  lemma FormByRows(s: Sums, d: Coef)
    ensures Form(s, d) == d.c0 * (Rest(Low(s), d) + s.y0) + d.c1 * (Rest(Middle(s), d) + s.y1)
                          + d.c2 * (Rest(Top(s), d) + s.y2)
  {
    ByRow(d.c0, s.m2, d.c2, s.m1, d.c1, s.m0, d.c0);
    ByRow(d.c1, s.m3, d.c2, s.m2, d.c1, s.m1, d.c0);
    ByRow(d.c2, s.m4, d.c2, s.m3, d.c1, s.m2, d.c0);
  }

  lemma ByRow(k: real, a: real, x: real, b: real, y: real, c: real, z: real)
    ensures k * (a * x + b * y + c * z) == (k * x) * a + (k * y) * b + (k * z) * c
  {
  }

  /** Each pivot is the form of a parabola that is not zero. */
  lemma PivotIsForm(s: Sums)
    ensures s.m4 == Form(s, Coef(0.0, 0.0, 1.0))
    ensures s.m4 != 0.0 ==> Second(s).1 == Form(s, Coef(0.0, 1.0, 0.0 - s.m3 / s.m4))
  {
    if s.m4 != 0.0 {
      var f := s.m3 / s.m4;
      assert f * s.m4 == s.m3;
      var d := Coef(0.0, 1.0, 0.0 - f);
      assert (d.c2 * d.c2) * s.m4 == f * (f * s.m4);
    }
  }

  /** The last pivot is what the system with itself in the last place, and zeros in the
      others, on the right makes of the solution that begins with one. */
  lemma LastPivotIsForm(s: Sums)
    requires s.m4 != 0.0 && Second(s).1 != 0.0
    ensures exists d: Coef :: d.c0 == 1.0 && Last(s).2 == Form(s, d)
  {
    var p := Last(s).2;
    var t := s.(y0 := p, y1 := 0.0, y2 := 0.0);
    var c1 := (0.0 - Second(s).2) / Second(s).1;
    var d := Coef(1.0, c1, (0.0 - s.m2 - s.m3 * c1) / s.m4);
    RightSides(s, t);
    assert Triangular(Top(t), Second(t), Last(t), d) by {
      hide Second, Last;
      assert Second(s).1 * c1 == 0.0 - Second(s).2;
      assert s.m4 * d.c2 == 0.0 - s.m2 - s.m3 * c1;
    }
    hide Second, Last, Form, Normal;
    EliminationKeeps(t, d);
    FormOfSolution(t, d);
    SameForm(s, t, d);
  }

  /** With zeros but in the last place on the right. */
  lemma FormOfSolution(t: Sums, d: Coef)
    requires Normal(t, d) && d.c0 == 1.0 && t.y1 == 0.0 && t.y2 == 0.0
    ensures Form(t, d) == t.y0
  {
    NormalIs(t, d);
    FormByRows(t, d);
    hide Form, Rest;
    assert d.c1 * 0.0 == 0.0 && d.c2 * 0.0 == 0.0;
  }

  lemma SameForm(s: Sums, t: Sums, d: Coef)
    requires t == s.(y0 := t.y0, y1 := t.y1, y2 := t.y2)
    ensures Form(t, d) == Form(s, d)
  {
  }

  /** Equal left-hand sides. */
  predicate SameLeft(a: Row, b: Row) {
    a.0 == b.0 && a.1 == b.1 && a.2 == b.2
  }

  lemma TakenSame(f: real, a: Row, b: Row, a': Row, b': Row)
    requires SameLeft(a, a') && SameLeft(b, b')
    ensures SameLeft(Taken(f, a, b), Taken(f, a', b'))
    ensures a.3 == 0.0 ==> Taken(f, a, b).3 == b.3
  {
    assert a.3 == 0.0 ==> f * a.3 == 0.0;
  }

  /** The right-hand sides zero, zero and a number come out of elimination unchanged. */
  lemma RightSides(s: Sums, t: Sums)
    requires s.m4 != 0.0 && Second(s).1 != 0.0 && t == s.(y0 := t.y0, y1 := 0.0, y2 := 0.0)
    ensures SameLeft(Second(t), Second(s)) && SameLeft(Last(t), Last(s))
    ensures Second(t).3 == 0.0 && Last(t).3 == t.y0
  {
    hide Taken;
    TakenSame(s.m3 / s.m4, Top(t), Middle(t), Top(s), Middle(s));
    TakenSame(s.m2 / s.m4, Top(t), Low(t), Top(s), Low(s));
    TakenSame(Third(s).1 / Second(s).1, Second(t), Third(t), Second(s), Third(s));
  }

  lemma ThreeGivePivots(ns: seq<Node>)
    requires Weighted(ns) && Three(ns)
    ensures Pivots(SumsOf(ns))
  {
    var s := SumsOf(ns);
    hide SumsOf, Form, Second, Last, Three, Weighted;
    PivotIsForm(s);
    FormIsPositive(ns, Coef(0.0, 0.0, 1.0));
    FormIsPositive(ns, Coef(0.0, 1.0, 0.0 - s.m3 / s.m4));
    LastPivotIsForm(s);
    var d: Coef :| d.c0 == 1.0 && Last(s).2 == Form(s, d);
    FormIsPositive(ns, d);
  }

  /** The normal equations with zeros on the right. */
  function Homogeneous(s: Sums): Sums {
    s.(y0 := 0.0, y1 := 0.0, y2 := 0.0)
  }

  /** The rests of the three rows. */
  function Rests(s: Sums, c: Coef): (real, real, real) {
    (Rest(Low(s), c), Rest(Middle(s), c), Rest(Top(s), c))
  }

  lemma RestsAdd(s: Sums, t: Sums, c: Coef)
    ensures Rests(Add(s, t), c) ==
            (Rests(s, c).0 + Rests(t, c).0, Rests(s, c).1 + Rests(t, c).1, Rests(s, c).2 + Rests(t, c).2)
  {
    RowAdds(Low(s), Low(t), c);
    RowAdds(Middle(s), Middle(t), c);
    RowAdds(Top(s), Top(t), c);
  }

  lemma RowAdds(a: Row, b: Row, c: Coef)
    ensures Rest((a.0 + b.0, a.1 + b.1, a.2 + b.2, a.3 + b.3), c) == Rest(a, c) + Rest(b, c)
  {
  }

  lemma RestsOfNone(c: Coef)
    ensures Rests(SumsOf([]), c) == NONE
  {
    assert 0.0 * c.c0 == 0.0 && 0.0 * c.c1 == 0.0 && 0.0 * c.c2 == 0.0;
  }

  /** A node's weighted error, and as the three rows weigh it. */
  function Off(p: Node, c: Coef): real {
    p.z * (p.y - At(c, p.x))
  }

  function Offs(p: Node, c: Coef): (real, real, real) {
    (Off(p, c), Off(p, c) * p.x, Off(p, c) * p.x * p.x)
  }

  function Minus(a: (real, real, real), b: (real, real, real)): (real, real, real) {
    (a.0 - b.0, a.1 - b.1, a.2 - b.2)
  }

  const NONE := (0.0, 0.0, 0.0)

  /** Row b is x times row a. */
  predicate Times(a: Row, x: real, b: Row) {
    b.0 == a.0 * x && b.1 == a.1 * x && b.2 == a.2 * x && b.3 == a.3 * x
  }

  lemma RestTimes(a: Row, x: real, b: Row, c: Coef, rest: real)
    requires Times(a, x, b) && Rest(a, c) == rest
    ensures Rest(b, c) == rest * x
  {
    assert (a.0 * c.c2 + a.1 * c.c1 + a.2 * c.c0 - a.3) * x ==
           (a.0 * x) * c.c2 + (a.1 * x) * c.c1 + (a.2 * x) * c.c0 - a.3 * x;
  }

  lemma RowsOfTerms(p: Node)
    ensures Times(Low(Terms(p)), p.x, Middle(Terms(p)))
    ensures Times(Middle(Terms(p)), p.x, Top(Terms(p)))
  {
    assert p.z * p.y * p.x == p.z * p.x * p.y;
    assert p.z * p.x * p.y * p.x == p.z * p.x * p.x * p.y;
  }

  lemma LowOfTerms(p: Node, c: Coef)
    ensures Rest(Low(Terms(p)), c) == 0.0 - Off(p, c)
  {
    var z1 := p.z * p.x;
    var z2 := z1 * p.x;
    assert p.z * (c.c1 * p.x) == z1 * c.c1 && p.z * (c.c2 * (p.x * p.x)) == z2 * c.c2;
    assert p.z * At(c, p.x) == p.z * c.c0 + z1 * c.c1 + z2 * c.c2;
  }

  lemma RestsOfTerms(p: Node, c: Coef)
    ensures Rests(Terms(p), c) == Minus(NONE, Offs(p, c))
  {
    hide Terms, Rest, Off, Low, Middle, Top, Times;
    RowsOfTerms(p);
    LowOfTerms(p, c);
    var low, mid, top := Low(Terms(p)), Middle(Terms(p)), Top(Terms(p));
    Negative(Off(p, c), p.x);
    Negative(Offs(p, c).1, p.x);
    RestTimes(low, p.x, mid, c, 0.0 - Off(p, c));
    RestTimes(mid, p.x, top, c, 0.0 - Offs(p, c).1);
    assert Rest(low, c) == 0.0 - Offs(p, c).0;
    assert Rest(mid, c) == 0.0 - Offs(p, c).1;
    assert Rest(top, c) == 0.0 - Offs(p, c).2;
    assert Rests(Terms(p), c) == (Rest(low, c), Rest(mid, c), Rest(top, c));
    assert Minus(NONE, Offs(p, c)) == (0.0 - Offs(p, c).0, 0.0 - Offs(p, c).1, 0.0 - Offs(p, c).2);
  }

  lemma Negative(a: real, x: real)
    ensures (0.0 - a) * x == 0.0 - a * x
  {
  }

  lemma RestsNext(ns: seq<Node>, c: Coef)
    requires ns != []
    ensures Rests(SumsOf(ns), c) == Minus(Rests(SumsOf(ns[..|ns| - 1]), c), Offs(ns[|ns| - 1], c))
  {
    hide SumsOf, At, Rests, Terms, Add, Offs;
    SumsNext(ns);
    RestsAdd(SumsOf(ns[..|ns| - 1]), Terms(ns[|ns| - 1]), c);
    RestsOfTerms(ns[|ns| - 1], c);
  }

  lemma NormalByRests(s: Sums, c: Coef)
    ensures Normal(s, c) <==> Rests(s, c) == NONE
  {
    NormalIs(s, c);
  }

  /** The nodes with zero for their values. */
  function Flat(ns: seq<Node>): (fs: seq<Node>)
    ensures |fs| == |ns| && forall i :: 0 <= i < |ns| ==> fs[i] == ns[i].(y := 0.0)
  {
    if ns == [] then [] else Flat(ns[..|ns| - 1]) + [ns[|ns| - 1].(y := 0.0)]
  }

  lemma {:induction false} FlatSums(ns: seq<Node>)
    ensures SumsOf(Flat(ns)) == Homogeneous(SumsOf(ns))
  {
    if ns != [] {
      var n := |ns| - 1;
      FlatSums(ns[..n]);
      SumsNext(ns);
      SumsNext(Flat(ns));
      assert Flat(ns)[..n] == Flat(ns[..n]);
      FlatTerms(ns[n]);
      hide SumsOf, Terms;
    }
  }

  lemma FlatTerms(p: Node)
    ensures Terms(p.(y := 0.0)) == Homogeneous(Terms(p))
  {
    assert p.z * 0.0 == 0.0 && p.z * p.x * 0.0 == 0.0 && p.z * p.x * p.x * 0.0 == 0.0;
  }

  /** A parabola that passes through every node with weight solves the equations. */
  lemma {:induction false} PassingSolves(ns: seq<Node>, c: Coef)
    requires Weighted(ns) && forall i :: 0 <= i < |ns| ==> (ns[i].z > 0.0 ==> ns[i].y == At(c, ns[i].x))
    ensures Rests(SumsOf(ns), c) == NONE
  {
    hide SumsOf, At, Rests, Offs;
    if ns == [] {
      RestsOfNone(c);
    } else {
      var n := |ns| - 1;
      assert forall i :: 0 <= i < n ==> ns[..n][i] == ns[i];
      PassingSolves(ns[..n], c);
      RestsNext(ns, c);
      NotOff(ns[n], c);
    }
  }

  lemma NotOff(p: Node, c: Coef)
    requires p.z == 0.0 || p.y == At(c, p.x)
    ensures Offs(p, c) == NONE
  {
    assert Off(p, c) == 0.0;
    assert 0.0 * p.x == 0.0;
  }

  lemma VanishingSolves(ns: seq<Node>, d: Coef)
    requires Weighted(ns) && Vanishes(ns, d)
    ensures Normal(Homogeneous(SumsOf(ns)), d)
  {
    hide SumsOf, At, Rests, Normal;
    PassingSolves(Flat(ns), d);
    FlatSums(ns);
    NormalByRests(Homogeneous(SumsOf(ns)), d);
  }

  /** Without three such nodes, all the weight is at two abscissas. */
  lemma TwoAbscissas(ns: seq<Node>) returns (a: real, b: real)
    requires !Three(ns)
    ensures forall i :: 0 <= i < |ns| ==> (ns[i].z > 0.0 ==> ns[i].x == a || ns[i].x == b)
  {
    a, b := 0.0, 0.0;
    if i :| 0 <= i < |ns| && ns[i].z > 0.0 {
      a, b := ns[i].x, ns[i].x;
      if j :| 0 <= j < |ns| && ns[j].z > 0.0 && ns[j].x != a {
        b := ns[j].x;
        forall k | 0 <= k < |ns| ensures ns[k].z > 0.0 ==> ns[k].x == a || ns[k].x == b {
          assert !Apart(ns[i], ns[j], ns[k]);
        }
      }
    }
  }

  /** The parabola with the roots a and b. */
  lemma RootsOf(a: real, b: real, x: real)
    requires x == a || x == b
    ensures At(Coef(a * b, 0.0 - (a + b), 1.0), x) == 0.0
  {
    assert a * b - (a + b) * x + x * x == (x - a) * (x - b);
  }

  /** The divisions of fitQuadratic() are defined exactly when three nodes with weight
      have different abscissas. */
  lemma DefinedExactly(ns: seq<Node>)
    requires Weighted(ns)
    ensures Pivots(SumsOf(ns)) <==> Three(ns)
  {
    if Three(ns) {
      ThreeGivePivots(ns);
    } else if Pivots(SumsOf(ns)) {
      var a, b := TwoAbscissas(ns);
      var d := Coef(a * b, 0.0 - (a + b), 1.0);
      forall i | 0 <= i < |ns| && ns[i].z > 0.0 ensures At(d, ns[i].x) == 0.0 {
        RootsOf(a, b, ns[i].x);
      }
      VanishingSolves(ns, d);
      NoOtherSolution(SumsOf(ns), d);
      assert false;
    }
  }

  lemma NoOtherSolution(s: Sums, d: Coef)
    requires Pivots(s) && Normal(Homogeneous(s), d)
    ensures d == ZERO
  {
    assert Normal(Homogeneous(s), ZERO);
    assert Pivots(Homogeneous(s));
    OneSolution(Homogeneous(s), d, ZERO);
  }

  // ----- the minimum

  function Plus(c: Coef, d: Coef): Coef {
    Coef(c.c0 + d.c0, c.c1 + d.c1, c.c2 + d.c2)
  }

  lemma AtPlus(c: Coef, d: Coef, x: real)
    ensures At(Plus(c, d), x) == At(c, x) + At(d, x)
  {
    Distribute(x, c.c1, d.c1);
    Distribute(x * x, c.c2, d.c2);
  }

  /** Half the rise of the error along d, to first order. */
  function Slope(r: (real, real, real), d: Coef): real {
    d.c0 * r.0 + d.c1 * r.1 + d.c2 * r.2
  }

  function SquareOff(p: Node, c: Coef): real {
    p.z * ((p.y - At(c, p.x)) * (p.y - At(c, p.x)))
  }

  /** The error of one node after its parabola moved by d. */
  lemma ErrorMoved(p: Node, c: Coef, d: Coef, r: (real, real, real))
    ensures SquareOff(p, Plus(c, d)) ==
            SquareOff(p, c) + 2.0 * (Slope(Minus(r, Offs(p, c)), d) - Slope(r, d)) + p.z * (At(d, p.x) * At(d, p.x))
  {
    var e, t := p.y - At(c, p.x), At(d, p.x);
    AtPlus(c, d, p.x);
    MovedSquare(p.z, e, t);
    SlopeMoves(r, Off(p, c), p.x, d);
  }

  lemma MovedSquare(z: real, e: real, t: real)
    ensures z * ((e - t) * (e - t)) == z * (e * e) - 2.0 * (z * e * t) + z * (t * t)
  {
    assert (e - t) * (e - t) == e * e - 2.0 * (e * t) + t * t;
    assert z * (e * t) == z * e * t;
  }

  lemma SlopeMoves(r: (real, real, real), off: real, x: real, d: Coef)
    ensures Slope(Minus(r, (off, off * x, off * x * x)), d) == Slope(r, d) - off * At(d, x)
  {
    assert off * (d.c1 * x) == d.c1 * (off * x) && off * (d.c2 * (x * x)) == d.c2 * (off * x * x);
    Distribute(d.c0, r.0 - off, off);
    Distribute(d.c1, r.1 - off * x, off * x);
    Distribute(d.c2, r.2 - off * x * x, off * x * x);
  }

  lemma LossNext(ns: seq<Node>, c: Coef)
    requires ns != []
    ensures Loss(ns, c) == Loss(ns[..|ns| - 1], c) + SquareOff(ns[|ns| - 1], c)
  {
  }

  lemma {:induction false} ErrorsMoved(ns: seq<Node>, c: Coef, d: Coef)
    ensures Loss(ns, Plus(c, d)) == Loss(ns, c) + 2.0 * Slope(Rests(SumsOf(ns), c), d) + Form(SumsOf(ns), d)
  {
    hide Form, SumsOf, At, Plus, Slope, Rests, Offs, SquareOff, Minus;
    if ns == [] {
      FormOfNone(d);
      RestsOfNone(c);
      SlopeOfNone(d);
    } else {
      var n := |ns| - 1;
      ErrorsMoved(ns[..n], c, d);
      RestsNext(ns, c);
      FormNext(ns, d);
      LossNext(ns, c);
      LossNext(ns, Plus(c, d));
      ErrorMoved(ns[n], c, d, Rests(SumsOf(ns[..n]), c));
    }
  }

  lemma SlopeOfNone(d: Coef)
    ensures Slope(NONE, d) == 0.0
  {
  }

  lemma Difference(c: Coef, other: Coef) returns (d: Coef)
    ensures Plus(c, d) == other && (d == ZERO <==> other == c)
  {
    d := Coef(other.c0 - c.c0, other.c1 - c.c1, other.c2 - c.c2);
  }

  /** A parabola that meets the normal equations has the least error, and no other has it
      when three nodes with weight have different abscissas. */
  lemma NormalIsLeast(ns: seq<Node>, c: Coef, other: Coef)
    requires Weighted(ns) && Normal(SumsOf(ns), c)
    ensures Loss(ns, c) <= Loss(ns, other)
    ensures Three(ns) && other != c ==> Loss(ns, c) < Loss(ns, other)
  {
    hide Form, SumsOf, Slope, Rests, Normal, Three, Weighted, Loss, Plus;
    var d := Difference(c, other);
    NormalByRests(SumsOf(ns), c);
    SlopeOfNone(d);
    ErrorsMoved(ns, c, d);
    FormSign(ns, d);
    if Three(ns) && d != ZERO {
      FormIsPositive(ns, d);
    }
  }

  // ----- the code

  /** The part of the matrix that the summing loop fills. */
  ghost predicate Filled(xx: array2<real>, s: Sums)
    reads xx
  {
    && xx.Length0 == 3 && xx.Length1 == 4
    && xx[2, 2] == s.m0 && xx[1, 2] == s.m1 && xx[0, 2] == s.m2 && xx[0, 1] == s.m3 && xx[0, 0] == s.m4
    && xx[2, 3] == s.y0 && xx[1, 3] == s.y1 && xx[0, 3] == s.y2
  }

  /** One turn of the summing loop of fitQuadratic(). */
  method Accumulate(xx: array2<real>, p: Node, ghost s: Sums)
    requires Filled(xx, s)
    modifies xx
    ensures Filled(xx, Add(s, Terms(p)))
  {
    var x, y, z := p.x, p.y, p.z;
    xx[2, 2], xx[2, 3] := xx[2, 2] + z, xx[2, 3] + z * y;
    z := z * x;
    xx[1, 2], xx[1, 3] := xx[1, 2] + z, xx[1, 3] + z * y;
    z := z * x;
    xx[0, 2], xx[0, 3] := xx[0, 2] + z, xx[0, 3] + z * y;
    z := z * x;
    xx[0, 1] := xx[0, 1] + z;
    z := z * x;
    xx[0, 0] := xx[0, 0] + z;
  }

  /** The matrix of fitQuadratic(): the sums, and the cells that symmetry gives. */
  method Fill(ns: seq<Node>) returns (xx: array2<real>)
    ensures fresh(xx) && Filled(xx, SumsOf(ns)) && Symmetric(xx)
  {
    hide SumsOf, Terms, Add;
    xx := new real[3, 4]((i, j) => 0.0);
    SumsOfNone();
    var i := 0;
    assert ns[..0] == [];
    while i < |ns|
      invariant 0 <= i <= |ns| && Filled(xx, SumsOf(ns[..i]))
    {
      assert ns[..i + 1][..i] == ns[..i] && ns[..i + 1][i] == ns[i];
      SumsNext(ns[..i + 1]);
      Accumulate(xx, ns[i], SumsOf(ns[..i]));
      i := i + 1;
    }
    assert ns[..i] == ns;
    xx[1, 0] := xx[0, 1];
    xx[1, 1] := xx[0, 2];
    xx[2, 0] := xx[0, 2];
    xx[2, 1] := xx[1, 2];
  }

  ghost predicate Symmetric(xx: array2<real>)
    requires xx.Length0 == 3 && xx.Length1 == 4
    reads xx
  {
    xx[1, 0] == xx[0, 1] && xx[1, 1] == xx[0, 2] == xx[2, 0] && xx[2, 1] == xx[1, 2]
  }

  lemma SumsOfNone()
    ensures SumsOf([]) == Sums(0.0, 0.0, 0.0, 0.0, 0.0, 0.0, 0.0, 0.0)
  {
  }

  /** A row of the matrix, from the diagonal on. */
  ghost predicate HoldsRow(xx: array2<real>, k: nat, row: Row)
    requires xx.Length0 == 3 && xx.Length1 == 4 && k < 3
    reads xx
  {
    && (k < 1 ==> xx[k, 0] == row.0)
    && (k < 2 ==> xx[k, 1] == row.1)
    && xx[k, 2] == row.2 && xx[k, 3] == row.3
  }

  /** Above the diagonal the matrix holds these rows. */
  ghost predicate Holds(xx: array2<real>, top: Row, second: Row, last: Row)
    requires xx.Length0 == 3 && xx.Length1 == 4
    reads xx
  {
    HoldsRow(xx, 0, top) && HoldsRow(xx, 1, second) && HoldsRow(xx, 2, last)
  }

  /** The reduction of the second row of fitQuadratic(). */
  method ReduceSecond(xx: array2<real>, ghost top: Row, ghost second: Row)
    requires xx.Length0 == 3 && xx.Length1 == 4 && top.0 != 0.0
    requires HoldsRow(xx, 0, top) && HoldsRow(xx, 1, second) && xx[1, 0] == second.0
    modifies xx
    ensures HoldsRow(xx, 0, top) && HoldsRow(xx, 1, Taken(second.0 / top.0, top, second))
    ensures forall j :: 0 <= j < 4 ==> xx[2, j] == old(xx[2, j])
  {
    var f := xx[1, 0] / xx[0, 0];
    xx[1, 1] := xx[1, 1] - f * xx[0, 1];
    xx[1, 2] := xx[1, 2] - f * xx[0, 2];
    xx[1, 3] := xx[1, 3] - f * xx[0, 3];
  }

  /** The reduction of the third row by the first. */
  method ReduceThird(xx: array2<real>, ghost top: Row, ghost second: Row, ghost third: Row)
    requires xx.Length0 == 3 && xx.Length1 == 4 && top.0 != 0.0
    requires Holds(xx, top, second, third) && xx[2, 0] == third.0 && xx[2, 1] == third.1
    modifies xx
    ensures var row := Taken(third.0 / top.0, top, third);
            Holds(xx, top, second, row) && xx[2, 1] == row.1
  {
    var f := xx[2, 0] / xx[0, 0];
    xx[2, 1] := xx[2, 1] - f * xx[0, 1];
    xx[2, 2] := xx[2, 2] - f * xx[0, 2];
    xx[2, 3] := xx[2, 3] - f * xx[0, 3];
  }

  /** The reduction of the third row by the second. */
  method ReduceLast(xx: array2<real>, ghost top: Row, ghost second: Row, ghost third: Row)
    requires xx.Length0 == 3 && xx.Length1 == 4 && second.1 != 0.0
    requires Holds(xx, top, second, third) && xx[2, 1] == third.1
    modifies xx
    ensures Holds(xx, top, second, Taken(third.1 / second.1, second, third))
  {
    var f := xx[2, 1] / xx[1, 1];
    xx[2, 2] := xx[2, 2] - f * xx[1, 2];
    xx[2, 3] := xx[2, 3] - f * xx[1, 3];
  }

  /** The three reductions of fitQuadratic(). */
  method Reduce(xx: array2<real>, ghost s: Sums)
    requires Filled(xx, s) && Symmetric(xx) && Pivots(s)
    modifies xx
    ensures Holds(xx, Top(s), Second(s), Last(s))
  {
    hide Taken;
    ReduceSecond(xx, Top(s), Middle(s));
    ReduceThird(xx, Top(s), Second(s), Low(s));
    ReduceLast(xx, Top(s), Second(s), Third(s));
  }

  /** The back substitution of fitQuadratic(). */
  method Substitute(xx: array2<real>, coef: array<real>, ghost top: Row, ghost second: Row, ghost last: Row)
    requires xx.Length0 == 3 && xx.Length1 == 4 && coef.Length == 3 && Holds(xx, top, second, last)
    requires top.0 != 0.0 && second.1 != 0.0 && last.2 != 0.0
    modifies coef
    ensures Triangular(top, second, last, Coef(coef[0], coef[1], coef[2]))
  {
    coef[0] := xx[2, 3] / xx[2, 2];
    coef[1] := (xx[1, 3] - xx[1, 2] * coef[0]) / xx[1, 1];
    coef[2] := (xx[0, 3] - xx[0, 2] * coef[0] - xx[0, 1] * coef[1]) / xx[0, 0];
  }

  /** fitQuadratic() */
  method FitQuadratic(ns: seq<Node>, coef: array<real>)
    requires coef.Length == 3 && Pivots(SumsOf(ns))
    modifies coef
    ensures Normal(SumsOf(ns), Coef(coef[0], coef[1], coef[2]))
    ensures Weighted(ns) ==>
              forall c :: c != Coef(coef[0], coef[1], coef[2]) ==>
                Loss(ns, Coef(coef[0], coef[1], coef[2])) < Loss(ns, c)
  {
    hide SumsOf, Second, Last, Top, Triangular, Normal, Loss;
    ghost var s := SumsOf(ns);
    var xx := Fill(ns);
    Reduce(xx, s);
    TopIs(s);
    Substitute(xx, coef, Top(s), Second(s), Last(s));
    ghost var c := Coef(coef[0], coef[1], coef[2]);
    EliminationKeeps(s, c);
    if Weighted(ns) {
      DefinedExactly(ns);
      forall other | other != c ensures Loss(ns, c) < Loss(ns, other) {
        NormalIsLeast(ns, c, other);
      }
    }
  }

  lemma TopIs(s: Sums)
    ensures Top(s).0 == s.m4
  {
  }
}
