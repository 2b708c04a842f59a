/** Geometry of the playing area: grid cells, the four directions of the
    `DIRECTIONS` table and the wrap-around at the borders of the area. */
module Grid {

  /** A grid cell, the two-element list `[x, y]` of the game. The y axis grows
      downwards, as on the screen. */
  datatype Pos = Pos(x: int, y: int)

  /** Size of the playing area in cells, one entry per axis. */
  datatype Area = Area(width: int, height: int)

  /** The area the game is played on (`AREA_SIZE`). */
  const AREA_SIZE: Area := Area(80, 60)

  const ORIGIN: Pos := Pos(0, 0)

  predicate ValidArea(a: Area) {
    a.width > 0 && a.height > 0
  }

  predicate InBounds(a: Area, p: Pos) {
    0 <= p.x < a.width && 0 <= p.y < a.height
  }

  /** Every cell of `cells` lies inside the area. */
  predicate AllInBounds(a: Area, cells: seq<Pos>) {
    forall i :: 0 <= i < |cells| ==> InBounds(a, cells[i])
  }

  function Add(p: Pos, q: Pos): Pos {
    Pos(p.x + q.x, p.y + q.y)
  }

  function Sub(p: Pos, q: Pos): Pos {
    Pos(p.x - q.x, p.y - q.y)
  }

  function Scale(k: int, p: Pos): Pos {
    Pos(k * p.x, k * p.y)
  }

  /** The four keys of the `DIRECTIONS` table. */
  datatype Dir = Up | Left | Down | Right

  /** The `DIRECTIONS` table. */
  function Vector(d: Dir): Pos
  {
    match d
    case Up => Pos(0, -1)
    case Left => Pos(-1, 0)
    case Down => Pos(0, 1)
    case Right => Pos(1, 0)
  }

  /** The direction that exactly undoes `d`. */
  function Opposite(d: Dir): Dir {
    match d
    case Up => Down
    case Left => Right
    case Down => Up
    case Right => Left
  }

  /** Reversing is an involution without fixed points: no direction is its
      own reversal, and reversing twice gives back the starting direction. */
  lemma OppositeInvolution(d: Dir)
    ensures Opposite(d) != d
    ensures Opposite(Opposite(d)) == d
  {
    match d
    case Up =>
    case Left =>
    case Down =>
    case Right =>
  }

  /** Each key of the table is mapped to a step of one cell along exactly one
      axis. */
  lemma VectorIsUnitStep(d: Dir)
    ensures (Vector(d).x == 0) != (Vector(d).y == 0)
    ensures -1 <= Vector(d).x <= 1 && -1 <= Vector(d).y <= 1
  {
  }

  /** Distinct keys of the table map to distinct vectors. */
  lemma VectorInjective(a: Dir, b: Dir)
    ensures Vector(a) == Vector(b) <==> a == b
  {
  }

  /** A table vector plus the vector of its reversal is the null vector. */
  lemma ReversalSumsToZero(d: Dir)
    ensures Add(Vector(Opposite(d)), Vector(d)) == ORIGIN
  {
    match d
    case Up =>
    case Left =>
    case Down =>
    case Right =>
  }

  /** Two table vectors whose components cancel out belong to reversed
      directions. */
  lemma CancellingIsReversal(k: Dir, d: Dir)
    requires Vector(k).x + Vector(d).x == 0 && Vector(k).y + Vector(d).y == 0
    ensures k == Opposite(d)
  {
  }

  /** The componentwise sum of two table vectors is zero exactly when one is
      the reversal of the other: the test `set_direction` makes. */
  lemma ReversalIff(k: Dir, d: Dir)
    ensures Add(Vector(k), Vector(d)) == ORIGIN <==> k == Opposite(d)
  {
    var a, b := Vector(k), Vector(d);
    if Add(a, b) == ORIGIN {
      assert Add(a, b).x == 0 && Add(a, b).y == 0;
      CancellingIsReversal(k, d);
    } else {
      ReversalSumsToZero(d);
    }
  }

  /** A step along the opposite direction is a step back along `d`. */
  lemma StepOpposite(p: Pos, d: Dir)
    ensures Add(p, Vector(Opposite(d))) == Sub(p, Vector(d))
  {
    match d
    case Up =>
    case Left =>
    case Down =>
    case Right =>
  }

  /** A multiple of a table vector is the origin only for the factor zero. */
  lemma ScaleVectorZero(k: int, d: Dir)
    ensures Scale(k, Vector(d)) == ORIGIN <==> k == 0
  {
    match d
    case Up =>
    case Left =>
    case Down =>
    case Right =>
  }

  /** Border handling of `move` on one axis. A coordinate inside
      `[0, size)` is kept; a coordinate one step outside, `-1` or `size`,
      re-enters on the other side, which is arithmetic modulo `size`. The
      head only ever leaves the area by one step. */
  function WrapAxis(c: int, size: int): (r: int)
    ensures size > 0 ==> 0 <= r < size
    ensures 0 <= c < size ==> r == c
    ensures size > 0 && -1 <= c <= size ==> r == c % size
  {
    if c < 0 then size - 1
    else if c > size - 1 then 0
    else c
  }

  /** Both axes wrapped independently. */
  function WrapPos(p: Pos, a: Area): (r: Pos)
    ensures ValidArea(a) ==> InBounds(a, r)
    ensures InBounds(a, p) ==> r == p
  {
    Pos(WrapAxis(p.x, a.width), WrapAxis(p.y, a.height))
  }

  /** The cell one step along `d` from `p` on the area seen as a torus:
      arithmetic modulo the area size on each axis. */
  function StepModulo(a: Area, p: Pos, d: Dir): Pos
    requires InBounds(a, p)
  {
    Pos((p.x + Vector(d).x) % a.width, (p.y + Vector(d).y) % a.height)
  }

  /** A cell inside the area moved by one table step and wrapped lands on the
      cell given by arithmetic modulo the area size on each axis. */
  lemma WrapStepIsModulo(a: Area, p: Pos, d: Dir)
    requires InBounds(a, p)
    ensures WrapPos(Add(p, Vector(d)), a) == StepModulo(a, p, d)
  {
    VectorIsUnitStep(d);
  }
}
