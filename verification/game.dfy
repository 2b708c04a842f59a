/** The main loop of the game: on every tick the direction keys pressed
    since the previous tick are applied in order, the snake moves, the game
    ends if the snake ran onto itself, and otherwise an eaten cube is
    redrawn on a random cell, possibly the same one. Window, clock,
    rendering and the quit event are not modelled; the keys and the cube's
    random draw are the inputs of a tick. */
module Game {
  import opened Grid
  import Snake
  import Cube

  /** The two objects the loop drives, `snake` and `cube`. */
  datatype State = State(snake: Snake.State, cube: Cube.State)

  /** What one tick consumes: the direction keys of the `KEYDOWN` events
      polled in this tick, in order, and the cell the cube is redrawn on if it
      gets eaten. */
  datatype Input = Input(keys: seq<Dir>, draw: Pos)

  /** The loop goes on with a new state, or breaks out because the snake ran
      onto itself. */
  datatype Outcome = Running(game: State) | Over(last: Snake.State) {
    /** The snake as it is after the tick, in both cases. */
    function SnakeOf(): Snake.State {
      if Running? then game.snake else last
    }
  }

  /** The state the game keeps throughout: a proper area, a non-empty snake
      inside it, and the cube inside it. */
  predicate Valid(g: State) {
    && ValidArea(g.snake.area)
    && |g.snake.body| > 0
    && AllInBounds(g.snake.area, g.snake.body)
    && InBounds(g.snake.area, g.cube.pos)
  }

  /** Every cube draw of `inputs` is one `randrange` can return. */
  predicate DrawsInBounds(area: Area, inputs: seq<Input>) {
    forall i :: 0 <= i < |inputs| ==> InBounds(area, inputs[i].draw)
  }

  /** Creation of `snake` and `cube` before the loop, on `AREA_SIZE`: a new
      snake of `_INITIAL_LEN` distinct segments and a cube, all in the area. */
  function Start(anchor: Pos, d: Dir, draw: Pos): (g: State)
    requires Snake.ValidAnchor(AREA_SIZE, anchor)
    requires InBounds(AREA_SIZE, draw)
    ensures Valid(g)
    ensures g.snake.area == AREA_SIZE
    ensures Snake.Length(g.snake) == Snake.INITIAL_LEN
    ensures !Snake.MoveOnItself(g.snake)
    ensures g.snake.body[0] == anchor && g.snake.dir == d && !g.snake.digesting
    ensures Snake.IsLine(g.snake.body, Vector(d))
    ensures g.cube.pos == draw
  {
    Snake.InitInBounds(AREA_SIZE, anchor, d);
    Snake.InitDistinct(AREA_SIZE, anchor, d);
    State(Snake.Init(AREA_SIZE, anchor, d), Cube.Init(AREA_SIZE, draw))
  }

  /** The event loop of one tick: `set_direction` for every key, in order,
      so the last key is applied last. Only the direction can change. It ends
      up as the starting one or one of the keys, and the last key takes
      effect unless it is refused as a reversal, in which case the direction
      is the opposite of that key. */
  function Steer(s: Snake.State, keys: seq<Dir>): (t: Snake.State)
    ensures t.area == s.area && t.body == s.body && t.digesting == s.digesting
    ensures t.dir == s.dir || t.dir in keys
    ensures |keys| > 0 ==> t.dir == keys[|keys| - 1] || t.dir == Opposite(keys[|keys| - 1])
    decreases |keys|
  {
    if |keys| == 0 then s
    else
      var last := keys[|keys| - 1];
      var before := Steer(s, keys[..|keys| - 1]);
      Snake.SetDirectionLastWins(before, last);
      Snake.SetDirection(before, last)
  }

  /** One iteration of the main loop. */
  function Tick(g: State, input: Input): (o: Outcome)
    requires |g.snake.body| > 0
    requires InBounds(g.snake.area, input.draw)
    ensures o.SnakeOf().area == g.snake.area
    ensures o.SnakeOf().dir == Steer(g.snake, input.keys).dir
    ensures |o.SnakeOf().body| == |g.snake.body| + (if g.snake.digesting then 1 else 0)
    ensures InBounds(g.snake.area, g.snake.body[0])
            ==> o.SnakeOf().body[0]
                == StepModulo(g.snake.area, g.snake.body[0], Steer(g.snake, input.keys).dir)
    ensures forall i :: 0 <= i < |g.snake.body| - 1
              ==> o.SnakeOf().body[i + 1] == g.snake.body[i]
    ensures g.snake.digesting ==> o.SnakeOf().body[1..] == g.snake.body
    ensures o.Over? <==> Snake.MoveOnItself(o.SnakeOf())
    ensures o.Running? ==> (o.game.snake.digesting <==> o.game.snake.body[0] == g.cube.pos)
    ensures o.Running?
            ==> o.game.cube.pos == (if o.game.snake.digesting then input.draw else g.cube.pos)
    ensures Valid(g) ==> AllInBounds(g.snake.area, o.SnakeOf().body)
    ensures Valid(g) && o.Running? ==> Valid(o.game)
  {
    var steered := Steer(g.snake, input.keys);
    assert steered.body == g.snake.body && steered.area == g.snake.area;
    var moved := Snake.Move(steered);
    assert moved.dir == steered.dir && moved.area == g.snake.area;
    if Snake.MoveOnItself(moved) then Over(moved)
    else
      var (ate, fed) := Snake.Eat(moved, g.cube.pos);
      assert fed.body == moved.body && fed.area == moved.area && fed.dir == moved.dir;
      var cube := if ate then Cube.Move(g.cube, g.snake.area, input.draw) else g.cube;
      Running(State(fed, cube))
  }

  /** The main loop run over a sequence of ticks, until the inputs run out or
      the snake runs onto itself. The snake never shrinks and gains at most
      one segment per tick. */
  function Play(g: State, inputs: seq<Input>): (o: Outcome)
    requires |g.snake.body| > 0
    requires DrawsInBounds(g.snake.area, inputs)
    ensures o.SnakeOf().area == g.snake.area
    ensures |g.snake.body| <= |o.SnakeOf().body| <= |g.snake.body| + |inputs|
    decreases |inputs|
  {
    if |inputs| == 0 then Running(g)
    else
      match Tick(g, inputs[0])
      case Over(last) => Over(last)
      case Running(next) => Play(next, inputs[1..])
  }

  // ---------------------------------------------------------------------
  // Properties of the loop
  // ---------------------------------------------------------------------

  /** Every tick keeps the game state valid; a game that ends, ends with the
      snake's head on one of its other segments. */
  lemma {:induction false} PlayKeepsValid(g: State, inputs: seq<Input>)
    requires Valid(g)
    requires DrawsInBounds(g.snake.area, inputs)
    ensures var o := Play(g, inputs);
            && AllInBounds(g.snake.area, o.SnakeOf().body)
            && (o.Running? ==> Valid(o.game))
            && (o.Over? ==> Snake.MoveOnItself(o.last))
    decreases |inputs|
  {
    if |inputs| > 0 {
      match Tick(g, inputs[0])
      case Over(last) =>
      case Running(next) =>
        assert DrawsInBounds(next.snake.area, inputs[1..]);
        PlayKeepsValid(next, inputs[1..]);
    }
  }

  /** `Play` is the loop that applies `Tick` to each input in turn: one more
      input runs one more tick on the game the earlier inputs left, unless
      that game is already over. */
  lemma {:induction false} PlaySnoc(g: State, inputs: seq<Input>, i: Input)
    requires |g.snake.body| > 0
    requires DrawsInBounds(g.snake.area, inputs)
    requires InBounds(g.snake.area, i.draw)
    ensures DrawsInBounds(g.snake.area, inputs + [i])
    ensures Play(g, inputs + [i])
            == match Play(g, inputs)
               case Over(last) => Over(last)
               case Running(h) => Tick(h, i)
    decreases |inputs|
  {
    assert DrawsInBounds(g.snake.area, inputs + [i]);
    if |inputs| == 0 {
      assert [] + [i] == [i];
      assert [i][1..] == [];
    } else {
      assert (inputs + [i])[0] == inputs[0];
      assert (inputs + [i])[1..] == inputs[1..] + [i];
      match Tick(g, inputs[0])
      case Over(last) =>
      case Running(next) =>
        assert DrawsInBounds(next.snake.area, inputs[1..]);
        PlaySnoc(next, inputs[1..], i);
    }
  }

  /** A game started by `Start` keeps a snake of at least `_INITIAL_LEN`
      segments, all inside `AREA_SIZE`, whatever the keys and draws. */
  lemma StartThenPlay(anchor: Pos, d: Dir, draw: Pos, inputs: seq<Input>)
    requires Snake.ValidAnchor(AREA_SIZE, anchor)
    requires InBounds(AREA_SIZE, draw)
    requires DrawsInBounds(AREA_SIZE, inputs)
    ensures var o := Play(Start(anchor, d, draw), inputs);
            && Snake.INITIAL_LEN <= Snake.Length(o.SnakeOf()) <= Snake.INITIAL_LEN + |inputs|
            && AllInBounds(AREA_SIZE, o.SnakeOf().body)
  {
    PlayKeepsValid(Start(anchor, d, draw), inputs);
  }

  /** With at most one key in a tick, the snake cannot turn around. */
  lemma SingleKeyNeverReverses(s: Snake.State, keys: seq<Dir>)
    requires |keys| <= 1
    ensures Steer(s, keys).dir != Opposite(s.dir)
  {
    if |keys| == 1 {
      assert keys[..0] == [];
    }
  }

  /** Two keys in the same tick, a sideways one and then the reversal, do
      turn the snake around: each call of `set_direction` only compares with
      the direction left by the previous call. */
  lemma TwoKeysReverse(s: Snake.State, k: Dir)
    requires k != s.dir && k != Opposite(s.dir)
    ensures Steer(s, [k, Opposite(s.dir)]).dir == Opposite(s.dir)
  {
    var o := Opposite(s.dir);
    var keys := [k, o];
    assert [k][..0] == [];
    var s1 := Snake.SetDirection(s, k);
    assert Steer(s, [k]) == s1;
    assert s1.dir == k;
    assert keys[..1] == [k];
    assert Steer(s, keys) == Snake.SetDirection(s1, o);
    assert o != Opposite(k) by {
      OppositeInvolution(s.dir);
      OppositeInvolution(k);
    }
  }

  /** Such a turn-around ends the game at once when the second segment is one
      step behind the head inside the area, and the snake has three segments
      or more: the head steps back onto the second segment. */
  lemma ReversalInOneTickEndsGame(g: State, k: Dir, draw: Pos)
    requires |g.snake.body| >= 3
    requires g.snake.body[1] == Sub(g.snake.body[0], Vector(g.snake.dir))
    requires InBounds(g.snake.area, g.snake.body[1])
    requires InBounds(g.snake.area, draw)
    requires k != g.snake.dir && k != Opposite(g.snake.dir)
    ensures Tick(g, Input([k, Opposite(g.snake.dir)], draw)).Over?
  {
    var s := g.snake;
    var input := Input([k, Opposite(s.dir)], draw);
    var steered := Steer(s, input.keys);
    TwoKeysReverse(s, k);
    assert steered.dir == Opposite(s.dir) && steered.body == s.body;
    StepOpposite(s.body[0], s.dir);
    var moved := Snake.Move(steered);
    assert moved.body[0] == s.body[1];
    assert moved.body[2] == s.body[1];
    assert Snake.MoveOnItself(moved);
  }
}
