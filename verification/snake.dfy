/** The `Snake` class: a body of grid cells with the head first, a direction
    taken from the `DIRECTIONS` table and a digestion flag that makes the next
    move keep the old tail. */
module Snake {
  import opened Grid

  /** Number of segments of a new snake (`_INITIAL_LEN`). */
  const INITIAL_LEN: nat := 20

  /** The attributes `_area`, `_body`, `_direction` and `_digestion`. */
  datatype State = State(area: Area, body: seq<Pos>, dir: Dir, digesting: bool)

  /** The cells `randrange(_INITIAL_LEN, size - _INITIAL_LEN)` can pick as
      the head of a new snake, one range per axis. The range is empty, and no
      snake can be built, when an axis has `2 * _INITIAL_LEN` cells or fewer. */
  predicate ValidAnchor(area: Area, anchor: Pos) {
    && INITIAL_LEN <= anchor.x < area.width - INITIAL_LEN
    && INITIAL_LEN <= anchor.y < area.height - INITIAL_LEN
  }

  /** Consecutive cells of `body` are one step `v` apart, from head to tail:
      the body is a straight segment laid out against the direction `v`. */
  predicate IsLine(body: seq<Pos>, v: Pos) {
    forall i :: 0 <= i < |body| - 1 ==> body[i + 1] == Sub(body[i], v)
  }

  /** The `n` cells obtained by moving back from `anchor` by `i` steps along
      `d`, for `i` from zero up. */
  function Ray(anchor: Pos, d: Dir, n: nat): seq<Pos> {
    seq(n, i => Sub(anchor, Scale(i, Vector(d))))
  }

  lemma RayIsLine(anchor: Pos, d: Dir, n: nat)
    ensures IsLine(Ray(anchor, d, n), Vector(d))
  {
    var body := Ray(anchor, d, n);
    forall i | 0 <= i < |body| - 1
      ensures body[i + 1] == Sub(body[i], Vector(d))
    {
      match d
      case Up =>
      case Left =>
      case Down =>
      case Right =>
    }
  }

  /** `Snake.__init__`, with the random head cell `anchor` and the random
      direction `d` as parameters. Segment `i` is the head moved back `i`
      steps along `d`. */
  function Init(area: Area, anchor: Pos, d: Dir): (s: State)
    requires ValidAnchor(area, anchor)
    ensures s.area == area && s.dir == d && !s.digesting
    ensures |s.body| == INITIAL_LEN && s.body[0] == anchor
    ensures IsLine(s.body, Vector(d))
  {
    RayIsLine(anchor, d, INITIAL_LEN);
    State(area, Ray(anchor, d, INITIAL_LEN), d, false)
  }

  /** `set_direction`: the requested direction is taken unless it is the exact
      reversal of the current one, in which case nothing changes. */
  function SetDirection(s: State, k: Dir): (t: State)
    ensures t.area == s.area && t.body == s.body && t.digesting == s.digesting
    ensures k != Opposite(s.dir) ==> t.dir == k
    ensures k == Opposite(s.dir) ==> t == s
    ensures t.dir != Opposite(s.dir)
  {
    ReversalIff(k, s.dir);
    OppositeInvolution(s.dir);
    if Add(Vector(k), Vector(s.dir)) != ORIGIN then s.(dir := k) else s
  }

  /** After one `set_direction` call the direction is the requested one or,
      when the request was refused, its opposite. */
  lemma SetDirectionLastWins(s: State, k: Dir)
    ensures SetDirection(s, k).dir == k || SetDirection(s, k).dir == Opposite(k)
  {
    OppositeInvolution(s.dir);
  }

  /** `move`: every segment takes the place of its predecessor, the old tail
      is dropped unless the snake is digesting (then it grows by one and the
      digestion ends), and the head steps along the direction, wrapping
      around the borders of the area. */
  function Move(s: State): (t: State)
    requires |s.body| > 0
    ensures t.area == s.area && t.dir == s.dir && !t.digesting
    ensures |t.body| == |s.body| + (if s.digesting then 1 else 0)
    ensures forall i :: 0 <= i < |s.body| - 1 ==> t.body[i + 1] == s.body[i]
    ensures s.digesting ==> t.body[1..] == s.body
    ensures ValidArea(s.area) ==> InBounds(s.area, t.body[0])
    ensures InBounds(s.area, Add(s.body[0], Vector(s.dir)))
            ==> t.body[0] == Add(s.body[0], Vector(s.dir))
    ensures InBounds(s.area, s.body[0]) ==> t.body[0] == StepModulo(s.area, s.body[0], s.dir)
    ensures ValidArea(s.area) && AllInBounds(s.area, s.body) ==> AllInBounds(s.area, t.body)
  {
    var kept := if s.digesting then s.body else s.body[..|s.body| - 1];
    var head := WrapPos(Add(s.body[0], Vector(s.dir)), s.area);
    assert InBounds(s.area, s.body[0]) ==> head == StepModulo(s.area, s.body[0], s.dir) by {
      if InBounds(s.area, s.body[0]) {
        WrapStepIsModulo(s.area, s.body[0], s.dir);
      }
    }
    State(s.area, [head] + kept, s.dir, false)
  }

  /** `move_on_itself`: the head lies on some other segment. */
  function MoveOnItself(s: State): (r: bool)
    requires |s.body| > 0
    ensures r <==> exists i :: 1 <= i < |s.body| && s.body[i] == s.body[0]
  {
    s.body[0] in s.body[1..]
  }

  /** The membership test of `move_on_itself` written as an explicit scan of
      the segments behind the head. */
  method HasSelfCollision(s: State) returns (r: bool)
    requires |s.body| > 0
    ensures r <==> exists i :: 1 <= i < |s.body| && s.body[i] == s.body[0]
  {
    var head := s.body[0];
    r := false;
    var i := 1;
    while i < |s.body|
      invariant 1 <= i <= |s.body|
      invariant !r
      invariant forall j :: 1 <= j < i ==> s.body[j] != head
    {
      if s.body[i] == head {
        return true;
      }
      i := i + 1;
    }
  }

  /** `eat`: reports whether the head is on the cube and, if so, starts the
      digestion. Nothing else changes. */
  function Eat(s: State, cube: Pos): (r: (bool, State))
    requires |s.body| > 0
    ensures r.0 <==> cube == s.body[0]
    ensures r.1.area == s.area && r.1.body == s.body && r.1.dir == s.dir
    ensures r.1.digesting == (s.digesting || r.0)
  {
    if cube == s.body[0] then (true, s.(digesting := true)) else (false, s)
  }

  /** `__len__`: the number of segments, that is the head and the segments
      behind it that `move_on_itself` looks at. */
  function Length(s: State): (n: nat)
    ensures n == 0 <==> s.body == []
    ensures s.body != [] ==> n == 1 + |s.body[1..]|
  {
    |s.body|
  }

  // ---------------------------------------------------------------------
  // Properties of a new snake
  // ---------------------------------------------------------------------

  /** Cells of a straight body are spread apart by whole steps. */
  lemma {:induction false} LineOffset(body: seq<Pos>, v: Pos, i: nat, k: nat)
    requires IsLine(body, v)
    requires i + k < |body|
    ensures body[i + k] == Sub(body[i], Scale(k, v))
    decreases k
  {
    if k > 0 {
      LineOffset(body, v, i, k - 1);
      assert body[i + k] == Sub(body[i + k - 1], v);
      assert k * v.x == (k - 1) * v.x + v.x && k * v.y == (k - 1) * v.y + v.y;
    }
  }

  /** A straight body along a table direction never visits a cell twice. */
  lemma LineDistinct(body: seq<Pos>, d: Dir)
    requires IsLine(body, Vector(d))
    ensures forall i, j :: 0 <= i < j < |body| ==> body[i] != body[j]
  {
    forall i, j | 0 <= i < j < |body|
      ensures body[i] != body[j]
    {
      LineOffset(body, Vector(d), i, j - i);
      ScaleVectorZero(j - i, d);
    }
  }

  /** Every segment of a new snake lies inside the area: the anchor keeps
      `_INITIAL_LEN` cells of margin on every side. */
  lemma InitInBounds(area: Area, anchor: Pos, d: Dir)
    requires ValidAnchor(area, anchor)
    ensures ValidArea(area)
    ensures AllInBounds(area, Init(area, anchor, d).body)
  {
    var body := Init(area, anchor, d).body;
    forall i | 0 <= i < |body|
      ensures InBounds(area, body[i])
    {
      LineOffset(body, Vector(d), 0, i);
      match d
      case Up =>
      case Left =>
      case Down =>
      case Right =>
    }
  }

  /** The segments of a new snake are pairwise distinct, so it does not start
      on itself. */
  lemma InitDistinct(area: Area, anchor: Pos, d: Dir)
    requires ValidAnchor(area, anchor)
    ensures var body := Init(area, anchor, d).body;
            forall i, j :: 0 <= i < j < |body| ==> body[i] != body[j]
    ensures !MoveOnItself(Init(area, anchor, d))
  {
    LineDistinct(Init(area, anchor, d).body, d);
  }

  // ---------------------------------------------------------------------
  // Properties of movement
  // ---------------------------------------------------------------------

  /** Moving never shortens the snake and grows it by at most one segment. */
  lemma MoveLength(s: State)
    requires |s.body| > 0
    ensures Length(s) <= Length(Move(s)) <= Length(s) + 1
    ensures Length(Move(s)) == Length(s) + 1 <==> s.digesting
  {
  }

  /** A snake moving straight ahead without crossing a border stays a straight
      line, and so does not run onto itself. */
  lemma MoveKeepsLine(s: State)
    requires |s.body| > 0 && !s.digesting
    requires IsLine(s.body, Vector(s.dir))
    requires InBounds(s.area, Add(s.body[0], Vector(s.dir)))
    ensures IsLine(Move(s).body, Vector(s.dir))
    ensures !MoveOnItself(Move(s))
  {
    var t := Move(s);
    var v := Vector(s.dir);
    forall i | 0 <= i < |t.body| - 1
      ensures t.body[i + 1] == Sub(t.body[i], v)
    {
      if i > 0 {
        assert t.body[i + 1] == s.body[i] && t.body[i] == s.body[i - 1];
      }
    }
    LineDistinct(t.body, s.dir);
  }

  /** Eating twice before the next move grows the snake by one segment only:
      the digestion flag is a state, not a counter. */
  lemma EatTwiceGrowsOnce(s: State, cube: Pos)
    requires |s.body| > 0 && cube == s.body[0]
    ensures var t := Eat(Eat(s, cube).1, cube).1;
            Eat(s, cube).0 && Eat(Eat(s, cube).1, cube).0 &&
            Length(Move(t)) == Length(s) + 1 && !Move(t).digesting
  {
  }

  /** The digestion cycle: a successful `eat` makes the next move grow the
      snake by one and return to the normal state, after which the following
      move keeps the length. */
  lemma DigestionCycle(s: State, cube: Pos)
    requires |s.body| > 0 && !s.digesting && cube == s.body[0]
    ensures var t1 := Move(Eat(s, cube).1);
            Length(t1) == Length(s) + 1 && !t1.digesting &&
            Length(Move(t1)) == Length(t1)
  {
  }

  /** A snake of at least five segments heading right, away from the right
      and bottom borders, that turns down, left and up on the following ticks
      is back on the cell it started from, which its fifth segment now holds. */
  lemma BoxTurnCollides(s: State)
    requires |s.body| >= 5 && !s.digesting && s.dir == Right
    requires 0 <= s.body[0].x && s.body[0].x + 1 < s.area.width
    requires 0 <= s.body[0].y && s.body[0].y + 1 < s.area.height
    ensures var s1 := Move(s);
            var s2 := Move(SetDirection(s1, Down));
            var s3 := Move(SetDirection(s2, Left));
            var s4 := Move(SetDirection(s3, Up));
            s4.body[0] == s.body[0] && s4.body[4] == s.body[0] && MoveOnItself(s4)
  {
    var s1 := Move(s);
    var s2 := Move(SetDirection(s1, Down));
    var s3 := Move(SetDirection(s2, Left));
    var s4 := Move(SetDirection(s3, Up));
    assert s1.body[0] == Pos(s.body[0].x + 1, s.body[0].y);
    assert s2.body[0] == Pos(s.body[0].x + 1, s.body[0].y + 1);
    assert s3.body[0] == Pos(s.body[0].x, s.body[0].y + 1);
    assert s4.body[0] == s.body[0];
    assert s4.body[4] == s3.body[3] == s2.body[2] == s1.body[1] == s.body[0];
  }
}
