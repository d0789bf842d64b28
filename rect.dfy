/**
 * The geometry records of src/domain/rect.ts and the one coordinate transform
 * between the authoring axes (z up, y into the screen) and the render axes
 * (y up, z towards the viewer).
 */
module Rect {
  import opened Wrappers

  /** A position; coordinates are exact reals. */
  datatype Vec3 = Vec3(x: real, y: real, z: real)

  /** The extent of a prism along the authoring axes. */
  datatype Size3 = Size3(lx: real, ly: real, lz: real)

  /** The record the renderer consumes; `rawLine` is optional in the source. */
  datatype RectDefinition = RectDefinition(size: Size3, pos: Vec3, highlighted: bool, rawLine: Option<string>)

  /** One rejected line: its 1-based number, the reason, and the untrimmed text. */
  datatype ParseError = ParseError(line: nat, message: string, raw: string)

  /** A JavaScript number, as far as the model needs it: a finite value, an infinity, or NaN. */
  datatype Num = Finite(value: real) | PosInfinity | NegInfinity | NaN

  /** `Number.isFinite`: neither infinite nor NaN. */
  predicate IsFiniteNumber(v: Num) {
    v.Finite?
  }

  /** The inverse change of axes, render (x, y, z) back to authoring (x, -z, y). */
  function FromRenderPos(p: Vec3): Vec3 {
    Vec3(p.x, -p.z, p.y)
  }

  /** Authoring (x, y, z) to render (x, z, -y): a quarter turn about the x axis. */
  function ToRenderPos(pos: Vec3): (r: Vec3)
    ensures r.x == pos.x
    ensures FromRenderPos(r) == pos
  {
    Vec3(pos.x, pos.z, -pos.y)
  }

  /** FromRenderPos undoes ToRenderPos from the other side too, so the transform is a bijection. */
  lemma ToRenderPosSurjective(q: Vec3)
    ensures ToRenderPos(FromRenderPos(q)) == q
  {
  }

  lemma ToRenderPosInjective(p: Vec3, q: Vec3)
    requires ToRenderPos(p) == ToRenderPos(q)
    ensures p == q
  {
    assert FromRenderPos(ToRenderPos(p)) == p;
  }

  /** Applied twice the transform is a half turn, (x, y, z) to (x, -y, -z). */
  lemma ToRenderPosTwice(p: Vec3)
    ensures ToRenderPos(ToRenderPos(p)) == Vec3(p.x, -p.y, -p.z)
  {
  }

  /** Hence it is not an involution: the point (0, 1, 0) does not come back after two turns. */
  lemma ToRenderPosNotInvolution()
    ensures var p := Vec3(0.0, 1.0, 0.0); ToRenderPos(ToRenderPos(p)) != p
  {
  }

  /** Four quarter turns are the identity. */
  lemma ToRenderPosFourTimes(p: Vec3)
    ensures ToRenderPos(ToRenderPos(ToRenderPos(ToRenderPos(p)))) == p
  {
    ToRenderPosTwice(p);
    ToRenderPosTwice(ToRenderPos(ToRenderPos(p)));
  }

  /** The transform is a rotation: it keeps squared distance from the origin. */
  lemma ToRenderPosKeepsNorm(p: Vec3)
    ensures var r := ToRenderPos(p); r.x * r.x + r.y * r.y + r.z * r.z == p.x * p.x + p.y * p.y + p.z * p.z
  {
  }

  /** Authoring height (z) becomes render height (y); authoring depth (y) becomes negated render depth. */
  lemma ToRenderPosAxes(p: Vec3)
    ensures ToRenderPos(p).y == p.z && ToRenderPos(p).z == -p.y
  {
  }
}
