/**
 The adapter `LoRAVAEModule`: it is built with two ranges of a flat parameter
 buffer, a rank and a scale; `apply_to` redirects the `forward` of the backbone
 submodule it was built for to the adapter and then forgets the submodule; its
 `forward` passes through to the captured original forward unless it holds a
 buffer and a nonzero multiplier, in which case it adds the rank-1 correction
 read from its two ranges of the buffer.

 Tensors are one-dimensional vectors of exact reals.
 */
module Adapters {

  import opened Types
  import opened Layout

  // ---------------------------------------------------------------------
  // Reading the buffer
  // ---------------------------------------------------------------------

  function Min(a: nat, b: nat): nat { if a <= b then a else b }

  /**
   `params[slice(start, stop)]`: both bounds are clamped to the length of the
   buffer, and a range that starts after it ends is empty.
   */
  function SliceOf(p: Vector, s: Span): (r: Vector)
    ensures |r| <= |p|
    ensures s.start <= s.stop <= |p| ==> r == p[s.start..s.stop]
    ensures s.start <= |p| <= s.stop ==> r == p[s.start..]
    ensures |p| <= s.start || s.stop <= s.start ==> r == []
  {
    var lo := Min(s.start, |p|);
    var hi := Min(s.stop, |p|);
    if lo <= hi then p[lo..hi] else []
  }

  /** The pieces the ranges of `ps` cut out of `buf`, in order: slice_A then slice_B of each module. */
  function Carve(ps: seq<Planned>, buf: Vector): Vector
  {
    if ps == [] then [] else SliceOf(buf, ps[0].sliceA) + SliceOf(buf, ps[0].sliceB) + Carve(ps[1..], buf)
  }

  /** Dropping the first module of contiguous ranges leaves contiguous ranges from where it ended. */
  lemma ContiguousTail(ps: seq<Planned>, from: nat, to: nat)
    requires Contiguous(ps, from, to) && ps != []
    ensures from == ps[0].sliceA.start <= ps[0].sliceA.stop == ps[0].sliceB.start <= ps[0].sliceB.stop
    ensures Contiguous(ps[1..], ps[0].sliceB.stop, to)
  {
    var tail := ps[1..];
    if tail != [] {
      assert tail[0] == ps[1] && tail[|tail| - 1] == ps[|ps| - 1];
    }
    assert forall i :: 0 <= i < |tail| ==> tail[i] == ps[i + 1];
  }

  lemma SliceSplit(buf: Vector, a: nat, b: nat, c: nat, d: nat)
    requires a <= b <= c <= d <= |buf|
    ensures buf[a..d] == buf[a..b] + buf[b..c] + buf[c..d]
  {
  }

  /**
   Contiguous ranges from `from` to `to` inside the buffer read it without gap
   or overlap: their pieces, concatenated, are exactly `buf[from..to]`.
   */
  lemma {:induction false} CarveContiguous(ps: seq<Planned>, from: nat, to: nat, buf: Vector)
    requires Contiguous(ps, from, to) && to <= |buf|
    ensures from <= to && Carve(ps, buf) == buf[from..to]
    decreases |ps|
  {
    if ps != [] {
      var p := ps[0];
      ContiguousTail(ps, from, to);
      CarveContiguous(ps[1..], p.sliceB.stop, to, buf);
      SliceSplit(buf, from, p.sliceA.stop, p.sliceB.stop, to);
    }
  }

  // ---------------------------------------------------------------------
  // Construction: the scale
  // ---------------------------------------------------------------------

  /**
   `alpha / rank`, with alpha replaced by rank when it is None or 0; a rank of
   0 raises ZeroDivisionError in either case.
   */
  function Scale(rank: int, alpha: Option<real>): (r: Result<real>)
    ensures r.Err? <==> rank == 0
    ensures r.Err? ==> r.error == ZeroDivision
    ensures r.Ok? && (alpha.None? || alpha.value == 0.0) ==> r.value == 1.0
    ensures r.Ok? && alpha.Some? && alpha.value != 0.0 ==> r.value * rank as real == alpha.value
  {
    var a := if alpha.None? || alpha.value == 0.0 then rank as real else alpha.value;
    if rank == 0 then Err(ZeroDivision) else Quotient(a, rank as real); Ok(a / rank as real)
  }

  /** Dividing by a nonzero real and multiplying back gives the dividend; a real over itself is 1. */
  lemma Quotient(a: real, b: real)
    requires b != 0.0
    ensures (a / b) * b == a
    ensures a == b ==> a / b == 1.0
  {
  }

  // ---------------------------------------------------------------------
  // The forward pass, as a function of the adapter's state
  // ---------------------------------------------------------------------

  function Dot(x: Vector, a: Vector): real
    requires |x| == |a|
  {
    if x == [] then 0.0 else x[0] * a[0] + Dot(x[1..], a[1..])
  }

  function Scaled(c: real, v: Vector): (r: Vector)
    ensures |r| == |v| && forall j :: 0 <= j < |v| ==> r[j] == c * v[j]
  {
    seq(|v|, j requires 0 <= j < |v| => c * v[j])
  }

  /** Scaling one factor of the dot product scales the product. */
  lemma {:induction false} DotScaled(x: Vector, a: Vector, s: Vector, c: real)
    requires |x| == |a| == |s|
    requires forall j :: 0 <= j < |a| ==> s[j] == c * a[j]
    ensures Dot(x, s) == c * Dot(x, a)
    decreases |x|
  {
    if x != [] {
      DotScaled(x[1..], a[1..], s[1..], c);
    }
  }

  /**
   Elementwise addition with broadcasting of a length-1 operand: lengths must
   agree unless one of them is 1, which is then repeated.
   */
  function BroadcastAdd(u: Vector, v: Vector): (r: Result<Vector>)
    ensures r.Ok? <==> |u| == |v| || |u| == 1 || |v| == 1
    ensures r.Err? ==> r.error == ShapeMismatch
    ensures r.Ok? ==> && |r.value| == (if |u| == 1 then |v| else |u|)
                      && forall j :: 0 <= j < |r.value| ==>
                           r.value[j] == (if |u| == 1 then u[0] else u[j]) + (if |v| == 1 then v[0] else v[j])
  {
    if |u| == |v| then Ok(seq(|u|, j requires 0 <= j < |u| => u[j] + v[j]))
    else if |u| == 1 then Ok(seq(|v|, j requires 0 <= j < |v| => u[0] + v[j]))
    else if |v| == 1 then Ok(seq(|u|, j requires 0 <= j < |u| => u[j] + v[0]))
    else Err(ShapeMismatch)
  }

  /**
   `(x @ A.T @ B.T) * multiplier * scale`, where `x @ A.T` is the single number
   `d`, so that `x @ A.T @ B.T` is `d` times the column B.
   */
  function Correction(d: real, b: Vector, multiplier: real, scale: real): (r: Vector)
    ensures |r| == |b|
  {
    Scaled(scale, Scaled(multiplier, Scaled(d, b)))
  }

  /**
   `forward(x)` of an adapter in the given state. The original forward is
   called first (raising TypeError while it is still None); it is returned
   alone when the multiplier is 0 or no buffer is held; otherwise
   `x @ A.T @ B.T`, with A the row read from slice_A and B the column read
   from slice_B, is scaled by multiplier and scale and added to it.
   */
  function Apply(org: Option<Vector -> Vector>, params: Option<Vector>, sliceA: Span, sliceB: Span,
                 multiplier: real, scale: real, x: Vector): (r: Result<Vector>)
    ensures org.None? ==> r == Err(NotCallable)
    ensures org.Some? && (multiplier == 0.0 || params.None?) ==> r == Ok(org.value(x))
    ensures org.Some? && multiplier != 0.0 && params.Some? ==>
              (r.Ok? <==> |x| == |SliceOf(params.value, sliceA)| &&
                          BroadcastAdd(org.value(x), SliceOf(params.value, sliceB)).Ok?)
    ensures r.Err? ==> r.error in {NotCallable, ShapeMismatch}
  {
    if org.None? then Err(NotCallable)
    else if multiplier == 0.0 || params.None? then Ok(org.value(x))
    else
      var a := SliceOf(params.value, sliceA);
      var b := SliceOf(params.value, sliceB);
      if |x| != |a| then Err(ShapeMismatch)
      else
        BroadcastAdd(org.value(x), Correction(Dot(x, a), b, multiplier, scale))
  }

  /** The rank-1 weight update `B·A` as a |b| × |a| matrix. */
  function Outer(b: Vector, a: Vector): (m: seq<Vector>)
    ensures |m| == |b| && forall j :: 0 <= j < |b| ==> m[j] == Scaled(b[j], a)
  {
    seq(|b|, j requires 0 <= j < |b| => Scaled(b[j], a))
  }

  function MatVec(m: seq<Vector>, x: Vector): (r: Vector)
    requires forall j :: 0 <= j < |m| ==> |m[j]| == |x|
    ensures |r| == |m| && forall j :: 0 <= j < |m| ==> r[j] == Dot(x, m[j])
  {
    seq(|m|, j requires 0 <= j < |m| => Dot(x, m[j]))
  }

  lemma {:induction false} DotScaledBy(x: Vector, a: Vector, c: real)
    requires |x| == |a|
    ensures Dot(x, Scaled(c, a)) == c * Dot(x, a)
  {
    DotScaled(x, a, Scaled(c, a), c);
  }

  /** Row j of `B·A` applied to x is `(x·a) · b_j`. */
  lemma OuterRow(a: Vector, b: Vector, x: Vector, j: nat, d: real, bj: real, row: real)
    requires |x| == |a| && j < |b| && d == Dot(x, a) && bj == b[j] && row == MatVec(Outer(b, a), x)[j]
    ensures row == d * bj
  {
    assert row == Dot(x, Scaled(bj, a));
    DotScaledBy(x, a, bj);
    Commute(bj, d);
  }

  lemma MatVecOuterEntry(a: Vector, b: Vector, x: Vector, d: real, j: nat)
    requires |x| == |a| && d == Dot(x, a) && j < |b|
    ensures MatVec(Outer(b, a), x)[j] == Scaled(d, b)[j]
  {
    OuterRow(a, b, x, j, d, b[j], MatVec(Outer(b, a), x)[j]);
  }

  /** `B·A x` is the column B times the number `x·a`. */
  lemma MatVecOuter(a: Vector, b: Vector, x: Vector, d: real)
    requires |x| == |a| && d == Dot(x, a)
    ensures MatVec(Outer(b, a), x) == Scaled(d, b)
  {
    forall j | 0 <= j < |b| ensures MatVec(Outer(b, a), x)[j] == Scaled(d, b)[j] {
      MatVecOuterEntry(a, b, x, d, j);
    }
  }

  lemma Commute(u: real, v: real)
    ensures u * v == v * u
  {
  }

  lemma ScaledTwice(scale: real, multiplier: real, v: Vector)
    ensures Scaled(scale, Scaled(multiplier, v)) == Scaled(multiplier * scale, v)
  {
    var l, r := Scaled(scale, Scaled(multiplier, v)), Scaled(multiplier * scale, v);
    forall j | 0 <= j < |v| ensures l[j] == r[j] {
      ProductRegroup(scale, multiplier, v[j]);
    }
  }

  lemma ProductRegroup(scale: real, multiplier: real, e: real)
    ensures scale * (multiplier * e) == (multiplier * scale) * e
  {
  }

  /** The correction term of `forward` is the matrix form `B·A x`, scaled. */
  lemma CorrectionIsMatVec(a: Vector, b: Vector, x: Vector, d: real, multiplier: real, scale: real)
    requires |x| == |a| && d == Dot(x, a)
    ensures Correction(d, b, multiplier, scale) == Scaled(multiplier * scale, MatVec(Outer(b, a), x))
  {
    ScaledTwice(scale, multiplier, Scaled(d, b));
    MatVecOuter(a, b, x, d);
  }

  /**
   An active adapter computes the low-rank adaptation: the original output
   plus multiplier · scale · (B·A) x, where A is read from slice_A and B from
   slice_B of the buffer.
   */
  lemma ApplyIsLowRankUpdate(f: Vector -> Vector, p: Vector, sliceA: Span, sliceB: Span,
                             multiplier: real, scale: real, x: Vector)
    requires multiplier != 0.0
    requires |x| == |SliceOf(p, sliceA)|
    ensures var a, b := SliceOf(p, sliceA), SliceOf(p, sliceB);
      Apply(Some(f), Some(p), sliceA, sliceB, multiplier, scale, x) ==
        BroadcastAdd(f(x), Scaled(multiplier * scale, MatVec(Outer(b, a), x)))
  {
    CorrectionIsMatVec(SliceOf(p, sliceA), SliceOf(p, sliceB), x, Dot(x, SliceOf(p, sliceA)), multiplier, scale);
  }

  lemma ZeroProduct(d: real, bj: real, multiplier: real, scale: real)
    requires bj == 0.0
    ensures scale * (multiplier * (d * bj)) == 0.0
  {
  }

  /** A zero column B contributes nothing: the original output is returned (up to broadcasting). */
  lemma ZeroColumnAddsNothing(f: Vector -> Vector, p: Vector, sliceA: Span, sliceB: Span,
                              multiplier: real, scale: real, x: Vector)
    requires |x| == |SliceOf(p, sliceA)|
    requires |SliceOf(p, sliceB)| == |f(x)|
    requires forall j :: 0 <= j < |SliceOf(p, sliceB)| ==> SliceOf(p, sliceB)[j] == 0.0
    ensures Apply(Some(f), Some(p), sliceA, sliceB, multiplier, scale, x) == Ok(f(x))
  {
    if multiplier != 0.0 {
      var b := SliceOf(p, sliceB);
      var c := Correction(Dot(x, SliceOf(p, sliceA)), b, multiplier, scale);
      forall j | 0 <= j < |b| ensures c[j] == 0.0 {
        ZeroProduct(Dot(x, SliceOf(p, sliceA)), b[j], multiplier, scale);
      }
      var r := BroadcastAdd(f(x), c);
      assert r.Ok? && |r.value| == |f(x)|;
      assert r.value == f(x);
    }
  }

  // ---------------------------------------------------------------------
  // The objects
  // ---------------------------------------------------------------------

  /** What a backbone submodule's `forward` attribute currently is. */
  datatype Forward = Native(f: Vector -> Vector) | Hooked(adapter: LoRAVAEModule)

  /** A submodule of the backbone, whose `forward` attribute `apply_to` overwrites. */
  class Submodule {
    var forward: Forward

    constructor (f: Vector -> Vector)
      ensures forward == Native(f)
    {
      forward := Native(f);
    }
  }

  class LoRAVAEModule {
    const name: string
    const sliceA: Span
    const sliceB: Span
    const rank: int
    const scale: real
    var multiplier: real
    /** The submodule to hook; the attribute is deleted (None here) once `apply_to` has run. */
    var orgModule: Option<Submodule>
    var orgForward: Option<Vector -> Vector>
    var params: Option<Vector>

    /**
     `__init__`: the slices, the rank and the scale are fixed for good; no
     original forward is captured yet and no buffer is held. Construction with
     rank 0 raises (see `Scale`); callers check that first.
     */
    constructor (name: string, sliceA: Span, sliceB: Span, orgModule: Submodule,
                 multiplier: real, rank: int, alpha: Option<real>)
      requires rank != 0
      ensures this.name == name && this.sliceA == sliceA && this.sliceB == sliceB
      ensures this.rank == rank && Scale(rank, alpha) == Ok(scale)
      ensures this.multiplier == multiplier && this.orgModule == Some(orgModule)
      ensures orgForward == None && params == None
    {
      this.name := name;
      this.sliceA, this.sliceB := sliceA, sliceB;
      this.rank := rank;
      this.scale := Scale(rank, alpha).value;
      this.multiplier := multiplier;
      this.orgModule := Some(orgModule);
      orgForward := None;
      params := None;
    }

    function Target(): set<Submodule>
      reads this
    {
      if orgModule.Some? then {orgModule.value} else {}
    }

    /**
     `apply_to`: capture the submodule's forward, redirect the submodule to
     this adapter and drop the reference to it. A second call finds the
     attribute gone and raises AttributeError, changing nothing.
     */
    method ApplyTo() returns (r: Outcome)
      requires orgModule.Some? ==> orgModule.value.forward.Native?
      modifies this, Target()
      ensures old(orgModule).None? ==> r == Fail(AlreadyInstalled) && unchanged(this)
      ensures old(orgModule).Some? ==>
                && r == Pass
                && orgModule == None
                && orgForward == Some(old(orgModule.value.forward).f)
                && old(orgModule).value.forward == Hooked(this)
      ensures multiplier == old(multiplier) && params == old(params)
    {
      if orgModule.None? {
        return Fail(AlreadyInstalled);
      }
      var target := orgModule.value;
      orgForward := Some(target.forward.f);
      target.forward := Hooked(this);
      orgModule := None;
      return Pass;
    }

    /** The adapter answers with its original forward alone. */
    predicate Passthrough()
      reads this
    {
      multiplier == 0.0 || params.None?
    }

    /** `forward(x)` in the adapter's current state. */
    function Forward(x: Vector): (r: Result<Vector>)
      reads this
      ensures orgForward.None? ==> r == Err(NotCallable)
      ensures orgForward.Some? && Passthrough() ==> r == Ok(orgForward.value(x))
      ensures !Passthrough() ==> r == Apply(orgForward, params, sliceA, sliceB, multiplier, scale, x)
    {
      Apply(orgForward, params, sliceA, sliceB, multiplier, scale, x)
    }
  }

  /** Calling a submodule: its own forward, or the adapter that hooked it. */
  function Run(s: Submodule, x: Vector): Result<Vector>
    reads s, if s.forward.Hooked? then {s.forward.adapter} else {}
  {
    match s.forward
    case Native(f) => Ok(f(x))
    case Hooked(adapter) => adapter.Forward(x)
  }
}
