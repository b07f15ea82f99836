/** fitLinear() of ntp/Source.cpp over exact reals: its offset and slope are the one pair
    that minimizes the weighted squared error. */
module LinearFit {
  import opened RealFacts

  /** A sample: abscissa, value, weight. */
  datatype Sample = Sample(x: real, y: real, w: real)

  // ----- sums over samples

  function SumW(s: seq<Sample>): real {
    if s == [] then 0.0 else SumW(s[..|s| - 1]) + s[|s| - 1].w
  }

  function SumWX(s: seq<Sample>): real {
    if s == [] then 0.0 else SumWX(s[..|s| - 1]) + s[|s| - 1].w * s[|s| - 1].x
  }

  function SumWXX(s: seq<Sample>): real {
    if s == [] then 0.0 else SumWXX(s[..|s| - 1]) + s[|s| - 1].w * s[|s| - 1].x * s[|s| - 1].x
  }

  function SumWY(s: seq<Sample>): real {
    if s == [] then 0.0 else SumWY(s[..|s| - 1]) + s[|s| - 1].w * s[|s| - 1].y
  }

  function SumWYX(s: seq<Sample>): real {
    if s == [] then 0.0 else SumWYX(s[..|s| - 1]) + s[|s| - 1].w * s[|s| - 1].y * s[|s| - 1].x
  }

  function Residual(p: Sample, a: real, b: real): real {
    p.y - a - p.x * b
  }

  /** The weighted squared error of the line a + b x. */
  function Loss(s: seq<Sample>, a: real, b: real): real {
    if s == [] then 0.0 else
      var p := s[|s| - 1];
      Loss(s[..|s| - 1], a, b) + p.w * Residual(p, a, b) * Residual(p, a, b)
  }

  /** The weighted square of the line c + d x itself. */
  function Form(s: seq<Sample>, c: real, d: real): real {
    c * c * SumW(s) + 2.0 * (c * d) * SumWX(s) + d * d * SumWXX(s)
  }

  predicate Weighted(s: seq<Sample>) {
    forall i :: 0 <= i < |s| ==> s[i].w >= 0.0
  }

  /** Two samples with weight differ in their abscissas. */
  ghost predicate Spread(s: seq<Sample>) {
    exists i, j :: 0 <= i < |s| && 0 <= j < |s| && Differ(s[i], s[j])
  }

  predicate Differ(p: Sample, q: Sample) {
    p.w > 0.0 && q.w > 0.0 && p.x != q.x
  }

  // ----- the form is the sum of the squares

  function Square(p: Sample, c: real, d: real): real {
    p.w * ((c + d * p.x) * (c + d * p.x))
  }

  lemma SquareIs(p: Sample, c: real, d: real)
    ensures Square(p, c, d) == c * c * p.w + 2.0 * (c * d) * (p.w * p.x) + d * d * (p.w * p.x * p.x)
  {
    Expand(p.w, c, d, p.x);
  }

  lemma Expand(w: real, c: real, d: real, x: real)
    ensures w * ((c + d * x) * (c + d * x)) == c * c * w + 2.0 * (c * d) * (w * x) + d * d * (w * x * x)
  {
    var t := d * x;
    assert w * ((c + t) * (c + t)) == w * (c * c) + 2.0 * (w * (c * t)) + w * (t * t);
    assert w * (c * c) == c * c * w;
    assert w * (c * t) == (c * d) * (w * x);
    assert 2.0 * (c * d) * (w * x) == 2.0 * ((c * d) * (w * x));
    assert w * (t * t) == (d * d) * (w * (x * x)) == d * d * (w * x * x);
  }

  lemma FormNext(s: seq<Sample>, c: real, d: real)
    requires s != []
    ensures Form(s, c, d) == Form(s[..|s| - 1], c, d) + Square(s[|s| - 1], c, d)
  {
    SquareIs(s[|s| - 1], c, d);
  }

  lemma SquareSign(p: Sample, c: real, d: real)
    requires p.w >= 0.0
    ensures Square(p, c, d) >= 0.0
    ensures p.w > 0.0 ==> (Square(p, c, d) == 0.0 <==> c + d * p.x == 0.0)
  {
    SignOf(p.w, c + d * p.x);
  }

  /** With weights that are not negative the form is not negative, and it is zero just
      when the line passes through zero at every sample that has weight. */
  lemma {:induction false} FormSign(s: seq<Sample>, c: real, d: real)
    requires Weighted(s)
    ensures Form(s, c, d) >= 0.0
    ensures Form(s, c, d) == 0.0 <==> Vanishes(s, c, d)
  {
    hide Form, Square;
    if s == [] {
      FormOfNone(c, d);
    } else {
      var n := |s| - 1;
      FormSign(s[..n], c, d);
      FormNext(s, c, d);
      SquareSign(s[n], c, d);
      if s[n].w == 0.0 {
        SquareOfNoWeight(s[n], c, d);
      }
      assert forall i :: 0 <= i < n ==> s[..n][i] == s[i];
    }
  }

  lemma FormOfNone(c: real, d: real)
    ensures Form([], c, d) == 0.0
  {
  }

  lemma SquareOfNoWeight(p: Sample, c: real, d: real)
    requires p.w == 0.0
    ensures Square(p, c, d) == 0.0
  {
  }

  predicate Vanishes(s: seq<Sample>, c: real, d: real) {
    forall i :: 0 <= i < |s| ==> (s[i].w > 0.0 ==> c + d * s[i].x == 0.0)
  }

  // ----- when the fit is defined

  /** The denominator of the slope, times the square of the weights' sum. */
  function Det(s: seq<Sample>): real {
    SumW(s) * SumWXX(s) - SumWX(s) * SumWX(s)
  }

  lemma {:induction false} SumWSign(s: seq<Sample>)
    requires Weighted(s)
    ensures SumW(s) >= 0.0
    ensures SumW(s) == 0.0 <==> forall i :: 0 <= i < |s| ==> s[i].w == 0.0
  {
    if s != [] {
      SumWSign(s[..|s| - 1]);
      assert forall i :: 0 <= i < |s| - 1 ==> s[..|s| - 1][i] == s[i];
    }
  }

  lemma FormAtMean(s: seq<Sample>)
    ensures Form(s, 0.0 - SumWX(s), SumW(s)) == SumW(s) * Det(s)
  {
    hide SumW, SumWX, SumWXX;
    AtMean(SumW(s), SumWX(s), SumWXX(s));
  }

  lemma AtMean(a: real, b: real, c: real)
    ensures (0.0 - b) * (0.0 - b) * a + 2.0 * ((0.0 - b) * a) * b + a * a * c == a * (a * c - b * b)
  {
    var n := 0.0 - b;
    assert n * n == b * b && n * a == 0.0 - a * b;
    assert (n * a) * b == 0.0 - (a * b) * b && (a * b) * b == a * (b * b) && (b * b) * a == a * (b * b);
    assert a * (a * c - b * b) == a * (a * c) - a * (b * b);
  }

  /** The divisions of fitLinear() are defined exactly when two samples with weight have
      different abscissas. */
  lemma DefinedExactly(s: seq<Sample>)
    requires Weighted(s)
    ensures Spread(s) <==> SumW(s) > 0.0 && Det(s) > 0.0
    ensures SumW(s) > 0.0 ==> Det(s) >= 0.0
  {
    hide Form, Det, SumW, SumWX, SumWXX;
    SumWSign(s);
    var sw, sx := SumW(s), SumWX(s);
    if sw > 0.0 {
      FormSign(s, 0.0 - sx, sw);
      FormAtMean(s);
      Product(sw, Det(s));
      if Vanishes(s, 0.0 - sx, sw) {
        forall i, j | 0 <= i < |s| && 0 <= j < |s| ensures !Differ(s[i], s[j]) {
          if s[i].w > 0.0 && s[j].w > 0.0 {
            Cancel(sw, s[i].x, s[j].x);
          }
        }
      } else {
        var i :| 0 <= i < |s| && s[i].w > 0.0 && 0.0 - sx + sw * s[i].x != 0.0;
        AllAtOnce(s, i);
      }
    }
  }

  /** Were all the weight at one abscissa, that would be the mean. */
  lemma AllAtOnce(s: seq<Sample>, i: nat)
    requires Weighted(s) && i < |s| && s[i].w > 0.0 && 0.0 - SumWX(s) + SumW(s) * s[i].x != 0.0
    ensures Spread(s)
  {
    if !Spread(s) {
      forall j | 0 <= j < |s| && s[j].w > 0.0 ensures s[j].x == s[i].x {
        assert !Differ(s[j], s[i]);
      }
      MeanOfOne(s, s[i].x);
      assert false;
    }
  }

  lemma {:induction false} MeanOfOne(s: seq<Sample>, x: real)
    requires Weighted(s) && forall j :: 0 <= j < |s| && s[j].w > 0.0 ==> s[j].x == x
    ensures SumWX(s) == SumW(s) * x
  {
    if s != [] {
      var n := |s| - 1;
      assert forall j :: 0 <= j < n ==> s[..n][j] == s[j];
      MeanOfOne(s[..n], x);
      MeanNext(SumW(s[..n]), s[n].w, s[n].x, x);
    }
  }

  lemma MeanNext(sw: real, w: real, y: real, x: real)
    requires w == 0.0 || y == x
    ensures sw * x + w * y == (sw + w) * x
  {
  }

  // ----- the minimum

  /** The normal equations of the line a + b x. */
  predicate Normal(s: seq<Sample>, a: real, b: real) {
    && a * SumW(s) + b * SumWX(s) == SumWY(s)
    && a * SumWX(s) + b * SumWXX(s) == SumWYX(s)
  }

  /** The gradient terms of the error. */
  function Cross(s: seq<Sample>, a: real, b: real, c: real, d: real): real {
    c * (SumWY(s) - a * SumW(s) - b * SumWX(s)) + d * (SumWYX(s) - a * SumWX(s) - b * SumWXX(s))
  }

  function CrossOf(p: Sample, a: real, b: real, c: real, d: real): real {
    (c + d * p.x) * (p.w * Residual(p, a, b))
  }

  lemma CrossNext(s: seq<Sample>, a: real, b: real, c: real, d: real)
    requires s != []
    ensures Cross(s, a, b, c, d) == Cross(s[..|s| - 1], a, b, c, d) + CrossOf(s[|s| - 1], a, b, c, d)
  {
    var p := s[|s| - 1];
    var r := p.w * Residual(p, a, b);
    assert r == p.w * p.y - a * p.w - b * (p.w * p.x);
    assert r * p.x == p.w * p.y * p.x - a * (p.w * p.x) - b * (p.w * p.x * p.x);
    assert (c + d * p.x) * r == c * r + d * (r * p.x);
    var t := s[..|s| - 1];
    CrossSplit(c, SumWY(t) - a * SumW(t) - b * SumWX(t), r);
    CrossSplit(d, SumWYX(t) - a * SumWX(t) - b * SumWXX(t), r * p.x);
  }

  lemma CrossSplit(c: real, u: real, v: real)
    ensures c * (u + v) == c * u + c * v
  {
  }

  /** Moving a line by c + d x changes one sample's error so. */
  lemma ErrorMoved(p: Sample, a: real, b: real, c: real, d: real)
    ensures p.w * Residual(p, a + c, b + d) * Residual(p, a + c, b + d) ==
            p.w * Residual(p, a, b) * Residual(p, a, b) - 2.0 * CrossOf(p, a, b, c, d) + Square(p, c, d)
  {
    var r, t := Residual(p, a, b), c + d * p.x;
    assert Residual(p, a + c, b + d) == r - t by {
      assert p.x * (b + d) == p.x * b + d * p.x;
    }
    assert (r - t) * (r - t) == r * r - 2.0 * (t * r) + t * t;
    assert p.w * (r - t) * (r - t) == p.w * ((r - t) * (r - t));
    assert p.w * r * r == p.w * (r * r) && t * (p.w * r) == p.w * (t * r);
    assert p.w * (r * r - 2.0 * (t * r) + t * t) == p.w * (r * r) - 2.0 * (p.w * (t * r)) + p.w * (t * t);
  }

  lemma {:induction false} ErrorsMoved(s: seq<Sample>, a: real, b: real, c: real, d: real)
    ensures Loss(s, a + c, b + d) == Loss(s, a, b) - 2.0 * Cross(s, a, b, c, d) + Form(s, c, d)
  {
    hide Form, Square, Cross, CrossOf, Residual;
    if s == [] {
      FormOfNone(c, d);
      CrossOfNone(a, b, c, d);
    } else {
      ErrorsMoved(s[..|s| - 1], a, b, c, d);
      CrossNext(s, a, b, c, d);
      FormNext(s, c, d);
      ErrorMoved(s[|s| - 1], a, b, c, d);
    }
  }

  lemma CrossOfNone(a: real, b: real, c: real, d: real)
    ensures Cross([], a, b, c, d) == 0.0
  {
  }

  lemma NoGradient(s: seq<Sample>, a: real, b: real, c: real, d: real)
    requires Normal(s, a, b)
    ensures Cross(s, a, b, c, d) == 0.0
  {
  }

  /** A line that meets the normal equations has the least error, and no other line has
      it when the samples are spread. */
  lemma NormalIsLeast(s: seq<Sample>, a: real, b: real, a': real, b': real)
    requires Weighted(s) && Normal(s, a, b)
    ensures Loss(s, a, b) <= Loss(s, a', b')
    ensures Spread(s) && (a', b') != (a, b) ==> Loss(s, a, b) < Loss(s, a', b')
  {
    hide Cross, Normal, Form, Loss, SumW, SumWX, SumWXX, SumWY, SumWYX;
    var c, d := a' - a, b' - b;
    NoGradient(s, a, b, c, d);
    ErrorsMoved(s, a, b, c, d);
    FormSign(s, c, d);
    if Vanishes(s, c, d) && Spread(s) {
      var i, j :| 0 <= i < |s| && 0 <= j < |s| && Differ(s[i], s[j]);
      assert c + d * s[i].x == 0.0 && c + d * s[j].x == 0.0;
      OneRoot(c, d, s[i].x, s[j].x);
    }
  }

  lemma OneRoot(c: real, d: real, x: real, y: real)
    requires c + d * x == 0.0 && c + d * y == 0.0 && x != y
    ensures c == 0.0 && d == 0.0
  {
    assert d * x == d * y;
    if d != 0.0 {
      Cancel(d, x, y);
      assert false;
    }
  }

  // ----- the code

  /** The slope and offset from the means solve the normal equations. */
  lemma MeansSolve(sw: real, sx: real, sxx: real, sy: real, sxy: real, slope: real, offset: real)
    requires sw > 0.0 && sw * sxx - sx * sx != 0.0
    requires sxx / sw - (sx / sw) * (sx / sw) != 0.0
    requires slope == (sxy / sw - (sx / sw) * (sy / sw)) / (sxx / sw - (sx / sw) * (sx / sw))
    requires offset == sy / sw - (sx / sw) * slope
    ensures offset * sw + slope * sx == sy && offset * sx + slope * sxx == sxy
  {
    var mx, mxx, my, mxy := sx / sw, sxx / sw, sy / sw, sxy / sw;
    assert mx * sw == sx && mxx * sw == sxx && my * sw == sy && mxy * sw == sxy;
    assert offset + mx * slope == my;
    assert slope * (mxx - mx * mx) == mxy - mx * my;
    assert offset * mx + slope * mxx == mxy by {
      assert offset * mx == my * mx - mx * slope * mx;
      assert slope * (mxx - mx * mx) == slope * mxx - slope * (mx * mx);
    }
    assert (offset + mx * slope) * sw == offset * sw + slope * (mx * sw);
    assert (offset * mx + slope * mxx) * sw == offset * (mx * sw) + slope * (mxx * sw);
  }

  lemma DenominatorIs(s: seq<Sample>)
    requires SumW(s) > 0.0
    ensures Det(s) ==
            (SumWXX(s) / SumW(s) - (SumWX(s) / SumW(s)) * (SumWX(s) / SumW(s))) * (SumW(s) * SumW(s))
  {
    var sw, sx, sxx := SumW(s), SumWX(s), SumWXX(s);
    var mx, mxx := sx / sw, sxx / sw;
    assert mx * sw == sx && mxx * sw == sxx;
    assert mxx * (sw * sw) == sw * sxx && mx * mx * (sw * sw) == (mx * sw) * (mx * sw);
  }

  lemma SumsNext(s: seq<Sample>, i: nat)
    requires i < |s|
    ensures SumW(s[..i + 1]) == SumW(s[..i]) + s[i].w
    ensures SumWX(s[..i + 1]) == SumWX(s[..i]) + s[i].w * s[i].x
    ensures SumWXX(s[..i + 1]) == SumWXX(s[..i]) + s[i].w * s[i].x * s[i].x
    ensures SumWY(s[..i + 1]) == SumWY(s[..i]) + s[i].w * s[i].y
    ensures SumWYX(s[..i + 1]) == SumWYX(s[..i]) + s[i].w * s[i].y * s[i].x
  {
    assert s[..i + 1][..i] == s[..i];
  }

  lemma SumsOfNone()
    ensures SumW([]) == SumWX([]) == SumWXX([]) == SumWY([]) == SumWYX([]) == 0.0
  {
  }

  /** The sums of fitLinear(). */
  method Sums(s: seq<Sample>) returns (scratch: array<real>)
    ensures fresh(scratch) && scratch.Length == 5
    ensures scratch[0] == SumW(s) && scratch[1] == SumWX(s) && scratch[2] == SumWXX(s)
    ensures scratch[3] == SumWY(s) && scratch[4] == SumWYX(s)
  {
    hide SumW, SumWX, SumWXX, SumWY, SumWYX;
    scratch := new real[5](i => 0.0);
    var i := 0;
    SumsOfNone();
    assert s[..0] == [];
    while i < |s|
      invariant 0 <= i <= |s|
      invariant scratch[0] == SumW(s[..i]) && scratch[1] == SumWX(s[..i]) && scratch[2] == SumWXX(s[..i])
      invariant scratch[3] == SumWY(s[..i]) && scratch[4] == SumWYX(s[..i])
    {
      SumsNext(s, i);
      scratch[0] := scratch[0] + s[i].w;
      scratch[1] := scratch[1] + s[i].w * s[i].x;
      scratch[2] := scratch[2] + s[i].w * s[i].x * s[i].x;
      scratch[3] := scratch[3] + s[i].w * s[i].y;
      scratch[4] := scratch[4] + s[i].w * s[i].y * s[i].x;
      i := i + 1;
    }
    assert s[..i] == s;
  }

  /** The division of the sums by the weight's. */
  method Normalize(scratch: array<real>)
    requires scratch.Length == 5 && scratch[0] != 0.0
    modifies scratch
    ensures scratch[0] == old(scratch[0])
    ensures forall k :: 1 <= k < 5 ==> scratch[k] == old(scratch[k]) / scratch[0]
  {
    var i := 1;
    while i < 5
      invariant 1 <= i <= 5 && scratch[0] == old(scratch[0])
      invariant forall k :: 1 <= k < i ==> scratch[k] == old(scratch[k]) / scratch[0]
      invariant forall k :: i <= k < 5 ==> scratch[k] == old(scratch[k])
    {
      scratch[i] := scratch[i] / scratch[0];
      i := i + 1;
    }
  }

  /** The squared error of fitLinear(). */
  method SquaredError(s: seq<Sample>, offset: real, slope: real) returns (mse: real)
    ensures mse == Loss(s, offset, slope)
  {
    mse := 0.0;
    var i := 0;
    while i < |s|
      invariant 0 <= i <= |s|
      invariant mse == Loss(s[..i], offset, slope)
    {
      assert s[..i + 1][..i] == s[..i];
      var error := s[i].y - offset - s[i].x * slope;
      mse := mse + s[i].w * error * error;
      i := i + 1;
    }
    assert s[..i] == s;
  }

  /** The denominator of fitLinear() is not zero. */
  lemma Divides(s: seq<Sample>)
    requires Weighted(s) && Spread(s)
    ensures SumW(s) > 0.0 && Det(s) > 0.0
    ensures SumWXX(s) / SumW(s) - (SumWX(s) / SumW(s)) * (SumWX(s) / SumW(s)) != 0.0
  {
    hide SumW, SumWX, SumWXX, Spread, Det;
    DefinedExactly(s);
    DenominatorIs(s);
  }

  /** The variances times their denominators. */
  lemma VariancesAre(sw: real, sxx: real, den: real, det: real, error: real, sv: real, ov: real)
    requires sw > 0.0 && den != 0.0 && det == den * (sw * sw)
    requires sv == error / sw / den && ov == sv * (sxx / sw)
    ensures sv * det == error * sw && ov * sw == sv * sxx
  {
    assert sv * den == error / sw && (error / sw) * sw == error && (sxx / sw) * sw == sxx;
    assert sv * (den * (sw * sw)) == (sv * den) * sw * sw;
    assert (sv * (sxx / sw)) * sw == sv * ((sxx / sw) * sw);
  }

  /** The sums divided by the weight's. */
  ghost predicate Means(scratch: array<real>, s: seq<Sample>)
    reads scratch
  {
    && scratch.Length == 5 && scratch[0] == SumW(s) > 0.0
    && scratch[1] == SumWX(s) / SumW(s) && scratch[2] == SumWXX(s) / SumW(s)
    && scratch[3] == SumWY(s) / SumW(s) && scratch[4] == SumWYX(s) / SumW(s)
  }

  /** The slope and the offset of fitLinear(). */
  method Line(scratch: array<real>, ghost s: seq<Sample>) returns (offset: real, slope: real)
    requires Weighted(s) && Spread(s) && Means(scratch, s)
    ensures Normal(s, offset, slope)
  {
    hide SumW, SumWX, SumWXX, SumWY, SumWYX, Spread, Weighted;
    Divides(s);
    slope := (scratch[4] - scratch[1] * scratch[3]) / (scratch[2] - scratch[1] * scratch[1]);
    offset := scratch[3] - scratch[1] * slope;
    MeansSolve(SumW(s), SumWX(s), SumWXX(s), SumWY(s), SumWYX(s), slope, offset);
  }

  /** The variances of fitLinear(). */
  method Variances(scratch: array<real>, s: seq<Sample>, offset: real, slope: real)
    returns (offsetVariance: real, slopeVariance: real)
    requires Weighted(s) && Spread(s) && Means(scratch, s)
    ensures slopeVariance * Det(s) == Loss(s, offset, slope) * SumW(s)
    ensures offsetVariance * SumW(s) == slopeVariance * SumWXX(s)
  {
    hide SumW, SumWX, SumWXX, SumWY, SumWYX, Spread, Weighted, Loss, Det;
    Divides(s);
    DenominatorIs(s);
    var mse := SquaredError(s, offset, slope);
    mse := mse / scratch[0];
    slopeVariance := mse / (scratch[2] - scratch[1] * scratch[1]);
    offsetVariance := slopeVariance * scratch[2];
    ghost var den := scratch[2] - scratch[1] * scratch[1];
    VariancesAre(SumW(s), SumWXX(s), den, Det(s), Loss(s, offset, slope), slopeVariance, offsetVariance);
  }

  /** fitLinear(): the one line of the least weighted squared error, and the variances
      that this error gives. */
  method FitLinear(s: seq<Sample>)
    returns (offset: real, slope: real, offsetVariance: real, slopeVariance: real)
    requires Weighted(s) && Spread(s)
    ensures forall a, b :: (a, b) != (offset, slope) ==> Loss(s, offset, slope) < Loss(s, a, b)
    ensures slopeVariance * Det(s) == Loss(s, offset, slope) * SumW(s)
    ensures offsetVariance * SumW(s) == slopeVariance * SumWXX(s)
  {
    hide SumW, SumWX, SumWXX, SumWY, SumWYX, Spread, Det, Loss, Weighted, Normal;
    var scratch := Sums(s);
    DefinedExactly(s);
    Normalize(scratch);
    offset, slope := Line(scratch, s);
    forall a, b | (a, b) != (offset, slope) ensures Loss(s, offset, slope) < Loss(s, a, b) {
      NormalIsLeast(s, offset, slope, a, b);
    }
    offsetVariance, slopeVariance := Variances(scratch, s, offset, slope);
  }
}
