/**
 * The potential ("Q") side of one time step and the scaled profile that is
 * plotted next to the probabilities.
 *
 * The grid positions are numpy.linspace(-1, 1, 16); the potential is the
 * quartic double well V(x) = a * (x^2 - b^2)^2 with a = 50 and b = 0.5;
 * Q_diag holds exp(-1j * v * delta_t) for each value v of V; and the plot
 * uses V divided by its largest value. All arithmetic is over exact reals,
 * and x |-> exp(-1j * x * delta_t) is an arbitrary caller-supplied
 * function `phase`.
 */
module PotentialProfile {

  /** Number of grid points, the literal 16 passed to numpy.linspace. */
  const GridSize: nat := 16

  /** Depth parameter a of the double well. */
  const A: real := 50.0

  /** Half-distance b between the two wells. */
  const B: real := 0.5

  /** numpy.linspace(start, stop, num): num evenly spaced points from start to stop, both included. */
  function Linspace(start: real, stop: real, num: nat): (xs: seq<real>)
    ensures |xs| == num
    ensures num >= 1 ==> xs[0] == start
  {
    seq(num, i requires 0 <= i < num =>
      if num == 1 then start else start + (i as real) * ((stop - start) / ((num - 1) as real)))
  }

  /** positions = np.linspace(-1, 1, 16) */
  const Positions: seq<real> := Linspace(-1.0, 1.0, GridSize)

  function Square(y: real): (r: real)
    ensures r >= 0.0
  {
    y * y
  }

  /** a * (x**2 - b**2)**2 at one position. */
  function Potential(a: real, b: real, x: real): (v: real)
    ensures a >= 0.0 ==> v >= 0.0
  {
    a * Square(Square(x) - Square(b))
  }

  /** The potential evaluated at every position, in grid order. */
  function PotentialTable(a: real, b: real, xs: seq<real>): (vs: seq<real>)
    ensures |vs| == |xs|
    ensures a >= 0.0 ==> forall i :: 0 <= i < |vs| ==> vs[i] >= 0.0
  {
    seq(|xs|, i requires 0 <= i < |xs| => Potential(a, b, xs[i]))
  }

  /** V */
  const V: seq<real> := PotentialTable(A, B, Positions)

  /** [phase(v) for v in vs], the shape of Q_diag. */
  function PhaseTable<P>(vs: seq<real>, phase: real -> P): (q: seq<P>)
    ensures |q| == |vs|
  {
    seq(|vs|, i requires 0 <= i < |vs| => phase(vs[i]))
  }

  /** Python's max over a non-empty list of reals. */
  function Max(s: seq<real>): (m: real)
    requires s != []
    ensures m in s
    ensures forall j :: 0 <= j < |s| ==> s[j] <= m
  {
    if |s| == 1 then s[0]
    else
      var rest := Max(s[1..]);
      if rest > s[0] then rest else s[0]
  }

  /** The Python exceptions the scaling step can raise. */
  datatype ScaleError =
    | EmptySequence  // max() of an empty list raises ValueError
    | ZeroDivision   // v / max_V with max_V == 0.0 raises ZeroDivisionError

  datatype Result<T> = Ok(value: T) | Err(error: ScaleError)

  /** max_V = max(vs); [v / max_V for v in vs] */
  function ScaleByMax(vs: seq<real>): (r: Result<seq<real>>)
    ensures vs == [] <==> r == Err(EmptySequence)
    ensures vs != [] ==> (r == Err(ZeroDivision) <==> Max(vs) == 0.0)
    ensures vs != [] && Max(vs) != 0.0 ==> r.Ok?
    ensures r.Ok? ==> |r.value| == |vs| && r.value == DivideAll(vs, Max(vs))
  {
    if vs == [] then Err(EmptySequence)
    else
      var m := Max(vs);
      if m == 0.0 then Err(ZeroDivision)
      else Ok(DivideAll(vs, m))
  }

  /** [v / m for v in vs], for a non-zero m. */
  function DivideAll(vs: seq<real>, m: real): (r: seq<real>)
    requires m != 0.0
    ensures |r| == |vs|
  {
    seq(|vs|, i requires 0 <= i < |vs| => vs[i] / m)
  }

  // ---------------------------------------------------------------------
  // The grid
  // ---------------------------------------------------------------------

  /** The grid starts at start and, with two or more points, ends exactly at stop. */
  lemma LinspaceEndpoints(start: real, stop: real, num: nat)
    requires num >= 1
    ensures Linspace(start, stop, num)[0] == start
    ensures num >= 2 ==> Linspace(start, stop, num)[num - 1] == stop
  {
    if num >= 2 {
      var step := (stop - start) / ((num - 1) as real);
      var last := (num - 1) as real;
      assert Linspace(start, stop, num)[num - 1] == start + last * step;
      assert last * step == stop - start;
    }
  }

  /** Points are strictly increasing when start < stop. */
  lemma LinspaceIncreasing(start: real, stop: real, num: nat, i: nat, j: nat)
    requires start < stop && i < j < num
    ensures Linspace(start, stop, num)[i] < Linspace(start, stop, num)[j]
  {
    var step := (stop - start) / ((num - 1) as real);
    assert step > 0.0;
    assert (j as real) * step - (i as real) * step == ((j - i) as real) * step;
  }

  /** Every point lies between start and stop. */
  lemma LinspaceBounded(start: real, stop: real, num: nat, i: nat)
    requires start <= stop && i < num
    ensures start <= Linspace(start, stop, num)[i] <= stop
  {
    if num >= 2 {
      var step := (stop - start) / ((num - 1) as real);
      var last := (num - 1) as real;
      assert Linspace(start, stop, num)[i] == start + (i as real) * step;
      assert step >= 0.0;
      assert last * step == stop - start;
      assert (i as real) * step <= last * step;
    }
  }

  /**
   * A grid of two or more points from -h to h is its own mirror image:
   * point num-1-i is minus point i. (A single point is just -h.)
   */
  lemma LinspaceMirror(h: real, num: nat, i: nat)
    requires 2 <= num && i < num
    ensures Linspace(-h, h, num)[num - 1 - i] == -Linspace(-h, h, num)[i]
  {
    var xs := Linspace(-h, h, num);
    var step := (h - -h) / ((num - 1) as real);
    var last := (num - 1) as real;
    assert xs[i] == -h + (i as real) * step;
    assert xs[num - 1 - i] == -h + ((num - 1 - i) as real) * step;
    assert last * step == 2.0 * h;
    assert ((num - 1 - i) as real) * step == last * step - (i as real) * step;
  }

  // ---------------------------------------------------------------------
  // The potential
  // ---------------------------------------------------------------------

  /** A well with non-negative depth is never negative. */
  lemma PotentialNonNegative(a: real, b: real, xs: seq<real>)
    requires a >= 0.0
    ensures forall i :: 0 <= i < |xs| ==> PotentialTable(a, b, xs)[i] >= 0.0
  {
    forall i | 0 <= i < |xs|
      ensures Potential(a, b, xs[i]) >= 0.0
    {
      var y := Square(xs[i]) - Square(b);
      assert Square(y) >= 0.0;
      assert a * Square(y) >= 0.0;
    }
  }

  /** On a mirror-symmetric grid the potential table is mirror-symmetric too. */
  lemma PotentialMirror(a: real, b: real, xs: seq<real>)
    requires forall i :: 0 <= i < |xs| ==> xs[|xs| - 1 - i] == -xs[i]
    ensures forall i :: 0 <= i < |xs| ==>
      PotentialTable(a, b, xs)[|xs| - 1 - i] == PotentialTable(a, b, xs)[i]
  {
    forall i | 0 <= i < |xs|
      ensures Potential(a, b, xs[|xs| - 1 - i]) == Potential(a, b, xs[i])
    {
      assert Square(xs[|xs| - 1 - i]) == Square(-xs[i]) == Square(xs[i]);
    }
  }

  /** On [-1, 1] the well a = 50, b = 0.5 peaks at the ends, where it is 28.125. */
  lemma PotentialAtMostEdge(x: real)
    requires -1.0 <= x <= 1.0
    ensures Potential(A, B, x) <= 28.125
    ensures x == 1.0 || x == -1.0 ==> Potential(A, B, x) == 28.125
  {
    var s := Square(x);
    assert 0.0 <= s <= 1.0 by {
      if x >= 0.0 {
        assert x * x <= 1.0 * x;
      } else {
        assert x * x <= (-1.0) * x;
      }
    }
    var y := s - 0.25;
    assert -0.25 <= y <= 0.75;
    assert Square(y) <= 0.5625 by {
      if y >= 0.0 {
        assert y * y <= 0.75 * y;
      } else {
        assert y * y <= (-0.25) * y;
      }
    }
  }

  /** V is non-negative and symmetric about the grid midpoint: V[i] == V[15 - i]. */
  lemma ProfileSymmetric()
    ensures |Positions| == |V| == GridSize
    ensures forall i :: 0 <= i < GridSize ==> Positions[GridSize - 1 - i] == -Positions[i]
    ensures forall i :: 0 <= i < GridSize ==> V[i] >= 0.0
    ensures forall i :: 0 <= i < GridSize ==> V[GridSize - 1 - i] == V[i]
  {
    forall i | 0 <= i < GridSize
      ensures Positions[GridSize - 1 - i] == -Positions[i]
    {
      LinspaceMirror(1.0, GridSize, i);
    }
    PotentialNonNegative(A, B, Positions);
    PotentialMirror(A, B, Positions);
  }

  /** The largest value of V is 28.125, reached at both ends of the grid. */
  lemma ProfileMaximum()
    ensures Max(V) == 28.125 > 0.0
    ensures V[0] == Max(V) && V[GridSize - 1] == Max(V)
  {
    forall i | 0 <= i < GridSize
      ensures V[i] <= 28.125
    {
      LinspaceBounded(-1.0, 1.0, GridSize, i);
      PotentialAtMostEdge(Positions[i]);
    }
    LinspaceEndpoints(-1.0, 1.0, GridSize);
    PotentialAtMostEdge(Positions[0]);
    PotentialAtMostEdge(Positions[GridSize - 1]);
    var m := Max(V);
    assert m in V;
    assert V[0] <= m;
  }

  // ---------------------------------------------------------------------
  // Q_diag and the scaled profile
  // ---------------------------------------------------------------------

  /** Q_diag inherits the mirror symmetry of V. */
  lemma PhaseTableMirror<P>(phase: real -> P)
    ensures |PhaseTable(V, phase)| == GridSize
    ensures forall i :: 0 <= i < GridSize ==>
      PhaseTable(V, phase)[GridSize - 1 - i] == PhaseTable(V, phase)[i]
  {
    ProfileSymmetric();
  }

  /** Multiplying each quotient back by m gives the original value: scaled[i] * max_V == V[i]. */
  lemma DivideAllInverse(vs: seq<real>, m: real)
    requires m != 0.0
    ensures forall i :: 0 <= i < |vs| ==> DivideAll(vs, m)[i] * m == vs[i]
  {
    forall i | 0 <= i < |vs|
      ensures DivideAll(vs, m)[i] * m == vs[i]
    {
      QuotientTimes(vs[i], m);
    }
  }

  lemma QuotientTimes(v: real, m: real)
    requires m != 0.0
    ensures v / m * m == v
  {
  }

  lemma DivSelf(m: real)
    requires m > 0.0
    ensures m / m == 1.0
  {
  }

  lemma QuotientAtMostOne(v: real, m: real)
    requires 0.0 <= v <= m && m > 0.0
    ensures 0.0 <= v / m <= 1.0
  {
    assert v / m * m == v;
  }

  /**
   * Scaling a non-negative list that has a positive entry succeeds, puts
   * every value in [0, 1], and maps the largest values to exactly 1.
   */
  lemma ScaleByMaxUnitRange(vs: seq<real>, k: nat)
    requires k < |vs| && vs[k] > 0.0
    requires forall i :: 0 <= i < |vs| ==> vs[i] >= 0.0
    ensures ScaleByMax(vs).Ok?
    ensures forall i :: 0 <= i < |vs| ==> 0.0 <= ScaleByMax(vs).value[i] <= 1.0
    ensures forall i :: 0 <= i < |vs| && vs[i] == Max(vs) ==> ScaleByMax(vs).value[i] == 1.0
  {
    var m := Max(vs);
    assert vs[k] <= m;
    var r := ScaleByMax(vs).value;
    forall i | 0 <= i < |vs|
      ensures 0.0 <= r[i] <= 1.0
      ensures vs[i] == m ==> r[i] == 1.0
    {
      assert r[i] == vs[i] / m;
      QuotientAtMostOne(vs[i], m);
      if vs[i] == m {
        DivSelf(m);
      }
    }
  }

  /**
   * V_scaled = [v / max_V for v in V]: it exists (max_V > 0), lies in
   * [0, 1], equals 1 at both ends of the grid where V is largest, and is
   * symmetric like V.
   */
  lemma ProfileScaled()
    ensures ScaleByMax(V).Ok?
    ensures |ScaleByMax(V).value| == GridSize
    ensures forall i :: 0 <= i < GridSize ==> 0.0 <= ScaleByMax(V).value[i] <= 1.0
    ensures ScaleByMax(V).value[0] == 1.0 && ScaleByMax(V).value[GridSize - 1] == 1.0
    ensures forall i :: 0 <= i < GridSize ==>
      ScaleByMax(V).value[GridSize - 1 - i] == ScaleByMax(V).value[i]
  {
    ProfileSymmetric();
    ProfileMaximum();
    ScaleByMaxUnitRange(V, 0);
    var r := ScaleByMax(V).value;
    forall i | 0 <= i < GridSize
      ensures r[GridSize - 1 - i] == r[i]
    {
      assert r[i] == V[i] / Max(V);
    }
  }
}
