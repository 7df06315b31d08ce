/** The snake game's panel: a 20x20 grid with obstacles, a snake kept as two parallel
    coordinate arrays of which the first snakeLength slots are the body (slot 0 is the
    head), one food cell, and the score / speed schedule of a game. */
module Snake {
  import opened JavaLang
  import opened Grid

  const GRID_COLS: int := 20
  const GRID_ROWS: int := 20
  /** Capacity of the coordinate arrays: one slot per grid cell. */
  const MAX_CELLS: int := GRID_COLS * GRID_ROWS
  /** Timer delay in milliseconds at the start of a game, and its floor. */
  const BASE_SPEED: int := 140
  const MIN_SPEED: int := 45
  const SPEED_STEP: int := 8
  /** The delay drops on every third food eaten. */
  const SPEED_INCREASE_FOOD: int := 3
  /** One obstacle is attempted on every fourth food eaten. */
  const OBSTACLE_EVERY: int := 4
  const INITIAL_OBSTACLES: int := 4
  const START_LENGTH: int := 5
  const FOOD_POINTS: int := 10
  /** Random draws addRandomObstacle makes before it gives up. */
  const OBSTACLE_TRIES: int := 200

  predicate InGrid(p: (int, int))
  {
    0 <= p.0 < GRID_COLS && 0 <= p.1 < GRID_ROWS
  }

  /** The 5x5 square around the centre that the initial obstacles stay out of. */
  predicate InStartArea(p: (int, int))
  {
    GRID_COLS / 2 - 2 <= p.0 <= GRID_COLS / 2 + 2 && GRID_ROWS / 2 - 2 <= p.1 <= GRID_ROWS / 2 + 2
  }

  // ---------------------------------------------------------------- direction

  /** A direction (dx, dy) is one step along one axis. */
  predicate Unit(d: (int, int))
  {
    (d.0 == 0 && (d.1 == 1 || d.1 == -1)) || (d.1 == 0 && (d.0 == 1 || d.0 == -1))
  }

  predicate Horizontal(d: (int, int)) { d.1 == 0 }

  /** The keys the panel reacts to; every other key is OtherKey. */
  datatype Key = Space | KeyP | KeyW | Left | Right | Up | Down | OtherKey

  predicate Arrow(k: Key) { k.Left? || k.Right? || k.Up? || k.Down? }

  /** Where an arrow key points; y grows downwards. */
  function Heading(k: Key): (d: (int, int))
    requires Arrow(k)
    ensures Unit(d)
  {
    match k
    case Left => (-1, 0)
    case Right => (1, 0)
    case Up => (0, -1)
    case Down => (0, 1)
  }

  /** The direction after a key press: an arrow key is taken only when it points across the
      current axis, so the snake can turn but a single key never reverses it. */
  function Steer(d: (int, int), key: Key): (r: (int, int))
    ensures Unit(d) ==> Unit(r) && r != (-d.0, -d.1)
    ensures Unit(d) ==> r == d || (Arrow(key) && r == Heading(key) && Horizontal(r) != Horizontal(d))
    ensures Unit(d) && Arrow(key) && Horizontal(Heading(key)) != Horizontal(d) ==> r == Heading(key)
  {
    if key == Left && d.0 == 0 then (-1, 0)
    else if key == Right && d.0 == 0 then (1, 0)
    else if key == Up && d.1 == 0 then (0, -1)
    else if key == Down && d.1 == 0 then (0, 1)
    else d
  }

  /** The rule compares with the direction last set, not the one last moved in: two
      presses between ticks turn the snake right round onto its own neck. */
  lemma TwoKeysReverse()
    ensures Steer(Steer((1, 0), Up), Left) == (-1, 0)
  {
  }

  /** As intended by "prevent reversing": an arrow key is taken only across the axis of the
      direction the snake last moved in, so however many keys arrive between two ticks the
      next move never runs back onto the neck. */
  function SteerFromMoved(moved: (int, int), d: (int, int), key: Key): (r: (int, int))
    ensures Unit(d) ==> Unit(r)
    ensures r == d || (Arrow(key) && r == Heading(key) && Horizontal(r) != Horizontal(moved))
  {
    if Arrow(key) && Horizontal(Heading(key)) != Horizontal(moved) then Heading(key) else d
  }

  /** The keys pressed between two ticks, taken one after another by the intended rule. */
  function SteerAllFromMoved(moved: (int, int), d: (int, int), keys: seq<Key>): (int, int)
    decreases |keys|
  {
    if keys == [] then d else SteerAllFromMoved(moved, SteerFromMoved(moved, d, keys[0]), keys[1..])
  }

  /** Under the intended rule no run of keys between two ticks reverses the snake. */
  lemma {:induction false} SteerFromMovedNeverReverses(moved: (int, int), d: (int, int), keys: seq<Key>)
    requires Unit(moved) && Unit(d) && d != (-moved.0, -moved.1)
    ensures var r := SteerAllFromMoved(moved, d, keys); Unit(r) && r != (-moved.0, -moved.1)
    decreases |keys|
  {
    if keys != [] {
      SteerFromMovedNeverReverses(moved, SteerFromMoved(moved, d, keys[0]), keys[1..]);
    }
  }

  /** The same two keys as TwoKeysReverse, under the intended rule: LEFT is refused, since
      the snake last moved along the horizontal axis. */
  lemma TwoKeysTurnOnly()
    ensures SteerAllFromMoved((1, 0), (1, 0), [Up, Left]) == (0, -1)
  {
    assert [Up, Left][1..] == [Left];
  }

  // ---------------------------------------------------------------- moving

  /** One coordinate of the new head with wrap-around on: -1 becomes the last index and
      size becomes 0, which for a one-step move is arithmetic modulo the grid size. */
  function WrapCoord(n: int, size: int): (r: int)
    ensures 0 < size && -1 <= n <= size ==> 0 <= r < size && r == n % size
    ensures 0 <= n < size ==> r == n
  {
    if n < 0 then size - 1 else if n >= size then 0 else n
  }

  /** Where the head goes in one move. */
  function NextHead(head: (int, int), d: (int, int), wrap: bool): (h: (int, int))
    ensures wrap && InGrid(head) && Unit(d) ==> InGrid(h)
    ensures wrap && InGrid(head) && Unit(d) ==> h == ((head.0 + d.0) % GRID_COLS, (head.1 + d.1) % GRID_ROWS)
    ensures !wrap ==> h == (head.0 + d.0, head.1 + d.1)
  {
    if wrap then (WrapCoord(head.0 + d.0, GRID_COLS), WrapCoord(head.1 + d.1, GRID_ROWS))
    else (head.0 + d.0, head.1 + d.1)
  }

  /** One coordinate array after a move of a snake of length len: the new head in slot 0,
      slot k takes slot k-1 for 0 < k < len, and the slots from len on are untouched. */
  function Shift(s: seq<int>, len: int, head: int): (r: seq<int>)
    requires 1 <= len <= |s|
    ensures |r| == |s| && r[0] == head
    ensures forall k :: 1 <= k < len ==> r[k] == s[k - 1]
    ensures forall k :: len <= k < |s| ==> r[k] == s[k]
  {
    [head] + s[..len - 1] + s[len..]
  }

  /** Writing a head into a shifted array gives the shift with that head. */
  lemma ShiftNewHead(s: seq<int>, len: int, a: int, b: int)
    requires 1 <= len <= |s|
    ensures Shift(s, len, a)[0 := b] == Shift(s, len, b)
  {
    assert Shift(s, len, a)[0 := b] == [b] + s[..len - 1] + s[len..];
  }

  /** Some segment from..to-1 of the body given by coordinate sequences xs, ys lies on p. */
  predicate Covers(xs: seq<int>, ys: seq<int>, from: int, to: int, p: (int, int))
    requires 0 <= from && to <= |xs| && to <= |ys|
  {
    exists i :: from <= i < to && xs[i] == p.0 && ys[i] == p.1
  }

  /** The head on p ends the game: off the grid, on an obstacle, or on a later segment. */
  predicate Collision(p: (int, int), blocked: set<(int, int)>, xs: seq<int>, ys: seq<int>, len: int)
    requires len <= |xs| && len <= |ys|
  {
    !InGrid(p) || p in blocked || Covers(xs, ys, 1, len, p)
  }

  /** After a move the body is the new head plus the old body without its last segment. */
  lemma ShiftCovers(xs: seq<int>, ys: seq<int>, len: int, h: (int, int), p: (int, int))
    requires 1 <= len <= |xs| == |ys|
    ensures Covers(Shift(xs, len, h.0), Shift(ys, len, h.1), 0, len, p) <==> p == h || Covers(xs, ys, 0, len - 1, p)
  {
    var xs', ys' := Shift(xs, len, h.0), Shift(ys, len, h.1);
    if Covers(xs', ys', 0, len, p) && p != h {
      var i :| 0 <= i < len && xs'[i] == p.0 && ys'[i] == p.1;
      assert xs[i - 1] == p.0 && ys[i - 1] == p.1;
    }
    if Covers(xs, ys, 0, len - 1, p) {
      var i :| 0 <= i < len - 1 && xs[i] == p.0 && ys[i] == p.1;
      assert xs'[i + 1] == p.0 && ys'[i + 1] == p.1;
    }
    if p == h {
      assert xs'[0] == p.0 && ys'[0] == p.1;
    }
  }

  /** Food off the old body and off the new head is off the moved body. */
  lemma MovedBodyMisses(xs: seq<int>, ys: seq<int>, len: int, h: (int, int), food: (int, int))
    requires 1 <= len <= |xs| == |ys|
    requires food != h && !Covers(xs, ys, 0, len, food)
    ensures !Covers(Shift(xs, len, h.0), Shift(ys, len, h.1), 0, len, food)
  {
    ShiftCovers(xs, ys, len, h, food);
  }

  // ---------------------------------------------------------------- growing

  /** As the program grows the snake: the move shifts the body within the old length, and
      the length then grows by one, so the new last segment is whatever the array slot just
      past the old body held. When that stale slot holds the cell the head just entered, the
      snake collides with a segment it never had. */
  lemma StaleTailCollides(xs: seq<int>, ys: seq<int>, len: int, h: (int, int))
    requires 1 <= len < |xs| == |ys|
    requires (xs[len], ys[len]) == h
    ensures Covers(Shift(xs, len, h.0), Shift(ys, len, h.1), 1, len + 1, h)
  {
    var xs', ys' := Shift(xs, len, h.0), Shift(ys, len, h.1);
    assert xs'[len] == h.0 && ys'[len] == h.1;
  }

  /** As intended: the move shifts the body within the grown length, so the new last segment
      repeats the old tail, and right after eating the snake meets itself exactly when the
      head entered a cell of its old body. */
  lemma GrowthKeepsTail(xs: seq<int>, ys: seq<int>, len: int, h: (int, int))
    requires 1 <= len < |xs| == |ys|
    ensures Shift(xs, len + 1, h.0)[len] == xs[len - 1] && Shift(ys, len + 1, h.1)[len] == ys[len - 1]
    ensures Covers(Shift(xs, len + 1, h.0), Shift(ys, len + 1, h.1), 1, len + 1, h) <==> Covers(xs, ys, 0, len, h)
  {
    var xs', ys' := Shift(xs, len + 1, h.0), Shift(ys, len + 1, h.1);
    if Covers(xs', ys', 1, len + 1, h) {
      var i :| 1 <= i < len + 1 && xs'[i] == h.0 && ys'[i] == h.1;
      assert xs[i - 1] == h.0 && ys[i - 1] == h.1;
    }
    if Covers(xs, ys, 0, len, h) {
      var i :| 0 <= i < len && xs[i] == h.0 && ys[i] == h.1;
      assert xs'[i + 1] == h.0 && ys'[i + 1] == h.1;
    }
  }

  // ---------------------------------------------------------------- free cells

  /** The distinct cells under segments 0..n-1. */
  function BodyCells(xs: seq<int>, ys: seq<int>, n: int): set<(int, int)>
    requires 0 <= n <= |xs| && n <= |ys|
  {
    set i | 0 <= i < n :: (xs[i], ys[i])
  }

  lemma {:induction false} BodyCellsSize(xs: seq<int>, ys: seq<int>, n: int)
    requires 0 <= n <= |xs| && n <= |ys|
    ensures |BodyCells(xs, ys, n)| <= n
  {
    if n > 0 {
      BodyCellsSize(xs, ys, n - 1);
      assert BodyCells(xs, ys, n) == BodyCells(xs, ys, n - 1) + {(xs[n - 1], ys[n - 1])};
    }
  }

  /** While obstacles and n segments leave part of the grid uncovered, a free cell exists. */
  lemma FreeCell(blocked: set<(int, int)>, xs: seq<int>, ys: seq<int>, n: int) returns (p: (int, int))
    requires 0 <= n <= |xs| && n <= |ys|
    requires |blocked| + n < MAX_CELLS
    ensures InGrid(p) && p !in blocked && !Covers(xs, ys, 0, n, p)
  {
    var used := blocked + BodyCells(xs, ys, n);
    BodyCellsSize(xs, ys, n);
    RectSize(0, GRID_COLS, 0, GRID_ROWS);
    p := MissedMember(used, Rect(0, GRID_COLS, 0, GRID_ROWS));
    InRect(0, GRID_COLS, 0, GRID_ROWS, p);
  }

  /** The cells an initial obstacle may take. */
  function OutsideStart(): set<(int, int)>
  {
    Rect(0, GRID_COLS, 0, GRID_ROWS) - Rect(GRID_COLS / 2 - 2, GRID_COLS / 2 + 3, GRID_ROWS / 2 - 2, GRID_ROWS / 2 + 3)
  }

  lemma OutsideStartSize()
    ensures |OutsideStart()| == MAX_CELLS - 25
  {
    var grid, start := Rect(0, GRID_COLS, 0, GRID_ROWS), Rect(GRID_COLS / 2 - 2, GRID_COLS / 2 + 3, GRID_ROWS / 2 - 2, GRID_ROWS / 2 + 3);
    forall p | p in start ensures p in grid {
      InRect(GRID_COLS / 2 - 2, GRID_COLS / 2 + 3, GRID_ROWS / 2 - 2, GRID_ROWS / 2 + 3, p);
      InRect(0, GRID_COLS, 0, GRID_ROWS, p);
    }
    RectSize(0, GRID_COLS, 0, GRID_ROWS);
    RectSize(GRID_COLS / 2 - 2, GRID_COLS / 2 + 3, GRID_ROWS / 2 - 2, GRID_ROWS / 2 + 3);
    DifferenceSize(grid, start);
  }

  /** While fewer obstacles exist than cells outside the start area, one of those is free. */
  lemma FreeOutsideStart(blocked: set<(int, int)>) returns (p: (int, int))
    requires |blocked| < MAX_CELLS - 25
    ensures InGrid(p) && !InStartArea(p) && p !in blocked
  {
    OutsideStartSize();
    p := MissedMember(blocked, OutsideStart());
    InRect(0, GRID_COLS, 0, GRID_ROWS, p);
    InRect(GRID_COLS / 2 - 2, GRID_COLS / 2 + 3, GRID_ROWS / 2 - 2, GRID_ROWS / 2 + 3, p);
  }

  // ---------------------------------------------------------------- speed and score

  /** increaseSpeed: the delay drops by one step but never below the floor. */
  function SpeedUp(delay: int): (r: int)
    ensures r >= MIN_SPEED
    ensures delay >= MIN_SPEED ==> r <= delay
    ensures r < delay || r == MIN_SPEED
  {
    Max(MIN_SPEED, delay - SPEED_STEP)
  }

  /** The delay after n foods in one game, in closed form: one step per third food. */
  function Delay(n: nat): (d: int)
    ensures MIN_SPEED <= d <= BASE_SPEED
  {
    Max(MIN_SPEED, BASE_SPEED - SPEED_STEP * (n / SPEED_INCREASE_FOOD))
  }

  /** Eating one more food changes the delay exactly as the tick does. */
  lemma DelayStep(n: nat)
    ensures Delay(n + 1) == if (n + 1) % SPEED_INCREASE_FOOD == 0 then SpeedUp(Delay(n)) else Delay(n)
  {
    if (n + 1) % SPEED_INCREASE_FOOD == 0 {
      assert (n + 1) / SPEED_INCREASE_FOOD == n / SPEED_INCREASE_FOOD + 1;
    } else {
      assert (n + 1) / SPEED_INCREASE_FOOD == n / SPEED_INCREASE_FOOD;
    }
  }

  /** Within a game the delay never grows. */
  lemma DelayNeverIncreases(m: nat, n: nat)
    requires m <= n
    ensures Delay(n) <= Delay(m)
  {
    assert m / SPEED_INCREASE_FOOD <= n / SPEED_INCREASE_FOOD;
  }

  /** The high score after a game ends with the given score. */
  function HighScoreAfter(score: int, high: int): (r: int)
    ensures r >= high && r >= score
    ensures r == high || (score > high && r == score)
  {
    if score > high then score else high
  }

  // ---------------------------------------------------------------- high-score file

  /** loadHighScore on the trimmed text of highscore.txt (None: no such file). A blank
      file leaves the initial 0; text parseInt rejects is caught and gives 0. */
  function LoadedHighScore(file: Option<string>): (h: int)
    ensures IsInt(h)
    ensures file.None? || Trim(file.value) == [] ==> h == 0
    ensures file.Some? && ParseInt(Trim(file.value)).None? ==> h == 0
  {
    if file.None? then 0
    else
      var s := Trim(file.value);
      if s == [] then 0
      else match ParseInt(s)
        case None => 0
        case Some(v) => v
  }

  /** saveHighScore writes String.valueOf(highScore), which loads back unchanged. */
  lemma HighScoreRoundTrip(h: int)
    requires IsInt(h)
    ensures LoadedHighScore(Some(IntToString(h))) == h
  {
    IntToStringChars(h);
    TrimUnchanged(IntToString(h));
    ParseIntToString(h);
  }

  // ---------------------------------------------------------------- the panel as a value

  /** The panel's state: the coordinate arrays in full, the body length, the direction
      (dx, dy), the food cell, the obstacle cells, the four flags and the counters. */
  datatype Panel = Panel(snakeX: seq<int>, snakeY: seq<int>, snakeLength: int, dir: (int, int),
                         food: (int, int), obstacles: set<(int, int)>,
                         running: bool, paused: bool, gameOver: bool, wrapAround: bool,
                         score: int, highScore: int, foodsEaten: int, currentDelay: int)

  predicate Arrays(m: Panel)
  {
    |m.snakeX| == MAX_CELLS && |m.snakeY| == MAX_CELLS
  }

  predicate Shaped(m: Panel)
  {
    Arrays(m) && 0 <= m.snakeLength <= MAX_CELLS
  }

  function HeadOf(m: Panel): (int, int)
    requires Shaped(m)
  {
    (m.snakeX[0], m.snakeY[0])
  }

  predicate Playing(m: Panel)
  {
    m.running && !m.paused && !m.gameOver
  }

  /** p is a grid cell free of obstacles and of the body. */
  predicate Fits(m: Panel, p: (int, int))
    requires Shaped(m)
  {
    InGrid(p) && p !in m.obstacles && !Covers(m.snakeX, m.snakeY, 0, m.snakeLength, p)
  }

  /** What every handler keeps: a unit direction; score, length and delay following the
      number of foods eaten; a finished game is not running; obstacles on the grid; the
      food on a free cell; and a running game's head clear of every collision. */
  predicate Inv(m: Panel)
  {
    Settled(m) && (m.running ==> !Collision(HeadOf(m), m.obstacles, m.snakeX, m.snakeY, m.snakeLength))
  }

  /** Inv without the collision clause: what holds in a tick before checkCollision. */
  predicate Settled(m: Panel)
  {
    Shaped(m) && Unit(m.dir) && m.foodsEaten >= 0
    && m.score == FOOD_POINTS * m.foodsEaten
    && m.currentDelay == Delay(m.foodsEaten)
    && m.snakeLength == (if m.running || m.gameOver then Min(MAX_CELLS, START_LENGTH + m.foodsEaten) else 0)
    && !(m.running && m.gameOver)
    && (forall p :: p in m.obstacles ==> InGrid(p))
    && Fits(m, m.food)
  }

  /** The panel as constructed: zero-filled arrays, no snake, no game yet. */
  function Initial(highScore: int): (m: Panel)
    ensures Inv(m) && !m.running && !m.gameOver && m.snakeLength == 0
  {
    Panel(seq(MAX_CELLS, _ => 0), seq(MAX_CELLS, _ => 0), 0, (1, 0), (0, 0), {},
          false, false, false, false, 0, highScore, 0, BASE_SPEED)
  }

  /** startGame with the obstacles and the food it draws. */
  function Restarted(m: Panel, obstacles: set<(int, int)>, food: (int, int)): Panel
    requires Arrays(m)
  {
    m.(snakeX := seq(START_LENGTH, i => GRID_COLS / 2 - i) + m.snakeX[START_LENGTH..],
       snakeY := seq(START_LENGTH, i => GRID_ROWS / 2) + m.snakeY[START_LENGTH..],
       snakeLength := START_LENGTH, dir := (1, 0), food := food, obstacles := obstacles,
       running := true, paused := false, gameOver := false,
       score := 0, foodsEaten := 0, currentDelay := BASE_SPEED)
  }

  /** The draws startGame may make: INITIAL_OBSTACLES obstacle cells outside the start
      area, then food on a free cell of the new board. */
  predicate StartDraws(m: Panel, obstacles: set<(int, int)>, food: (int, int))
    requires Arrays(m)
  {
    |obstacles| == INITIAL_OBSTACLES && (forall p :: p in obstacles ==> InGrid(p) && !InStartArea(p))
    && Fits(Restarted(m, obstacles, food), food)
  }

  /** A new game starts five cells long, heading right from the centre, with score 0 and
      the base delay; it satisfies the invariant whatever the previous state was. */
  lemma RestartedInv(m: Panel, obstacles: set<(int, int)>, food: (int, int))
    requires Arrays(m) && StartDraws(m, obstacles, food)
    ensures var r := Restarted(m, obstacles, food);
      Inv(r) && Playing(r) && r.snakeLength == START_LENGTH && r.dir == (1, 0)
      && HeadOf(r) == (GRID_COLS / 2, GRID_ROWS / 2) && r.score == 0 && r.currentDelay == BASE_SPEED
      && r.highScore == m.highScore && r.wrapAround == m.wrapAround
  {
    var r := Restarted(m, obstacles, food);
    assert InStartArea(HeadOf(r));
    forall i | 1 <= i < r.snakeLength
      ensures r.snakeX[i] != GRID_COLS / 2
    {
    }
  }

  /** keyPressed when it does not start a game. */
  function Pressed(m: Panel, key: Key): Panel
  {
    if m.gameOver then m
    else if key == KeyP then (if m.running then m.(paused := !m.paused) else m)
    else if key == KeyW then m.(wrapAround := !m.wrapAround)
    else m.(dir := Steer(m.dir, key))
  }

  lemma PressedInv(m: Panel, key: Key)
    requires Inv(m)
    ensures Inv(Pressed(m, key))
  {
  }

  /** moveSnake. */
  function Moved(m: Panel): Panel
    requires Shaped(m) && m.snakeLength >= 1
  {
    var h := NextHead(HeadOf(m), m.dir, m.wrapAround);
    m.(snakeX := Shift(m.snakeX, m.snakeLength, h.0), snakeY := Shift(m.snakeY, m.snakeLength, h.1))
  }

  /** checkFoodCollision, with the food it draws when the head is on the food. */
  function Fed(m: Panel, food: (int, int)): Panel
    requires Shaped(m)
  {
    if HeadOf(m) == m.food then m.(snakeLength := Min(MAX_CELLS, m.snakeLength + 1), food := food) else m
  }

  /** The tick's reward for a food, with the obstacle addRandomObstacle adds, if any. */
  function Scored(m: Panel, added: Option<(int, int)>): Panel
  {
    var n := m.foodsEaten + 1;
    m.(score := m.score + FOOD_POINTS, foodsEaten := n,
       currentDelay := if n % SPEED_INCREASE_FOOD == 0 then SpeedUp(m.currentDelay) else m.currentDelay,
       obstacles := if n % OBSTACLE_EVERY == 0 && added.Some? then m.obstacles + {added.value} else m.obstacles)
  }

  /** checkCollision. */
  function Checked(m: Panel): Panel
    requires Shaped(m)
  {
    if Collision(HeadOf(m), m.obstacles, m.snakeX, m.snakeY, m.snakeLength)
    then m.(gameOver := true, running := false, highScore := HighScoreAfter(m.score, m.highScore))
    else m
  }

  /** actionPerformed: one timer tick, given the food and obstacle it draws. */
  function Ticked(m: Panel, food: (int, int), added: Option<(int, int)>): Panel
    requires Shaped(m) && (Playing(m) ==> m.snakeLength >= 1)
  {
    if !Playing(m) then m
    else
      var moved := Moved(m);
      var fed := Fed(moved, food);
      Checked(if HeadOf(moved) == moved.food then Scored(fed, added) else fed)
  }

  /** The draws a tick may make: food on a free cell of the grown board, and an obstacle
      cell, drawn only after eating, off the body, the obstacles and the new food (Scored
      keeps it only on every OBSTACLE_EVERY-th food). */
  predicate TickDraws(m: Panel, food: (int, int), added: Option<(int, int)>)
    requires Shaped(m) && m.snakeLength >= 1
  {
    var moved := Moved(m);
    var ate := HeadOf(moved) == m.food;
    (ate ==> Fits(Fed(moved, food), food))
    && (added.Some? ==> ate && Fits(Fed(moved, food), added.value) && added.value != food)
  }

  /** The draws of a tick, stated over its intermediate states. */
  lemma TickDrawsMade(m: Panel, moved: Panel, fed: Panel, added: Option<(int, int)>)
    requires Shaped(m) && m.snakeLength >= 1 && moved == Moved(m) && fed == Fed(moved, fed.food)
    requires HeadOf(moved) == m.food ==> Fits(fed, fed.food)
    requires added.Some? ==> HeadOf(moved) == m.food && Fits(fed, added.value) && added.value != fed.food
    ensures TickDraws(m, fed.food, added)
  {
  }

  /** checkCollision restores the collision clause. */
  lemma CheckedInv(m: Panel)
    requires Settled(m) && m.running
    ensures Inv(Checked(m))
  {
  }

  /** A tick keeps the invariant. */
  lemma TickedInv(m: Panel, food: (int, int), added: Option<(int, int)>)
    requires Inv(m) && (Playing(m) ==> TickDraws(m, food, added))
    ensures Inv(Ticked(m, food, added))
  {
    if Playing(m) {
      var moved := Moved(m);
      var h := HeadOf(moved);
      if h == m.food {
        var fed := Fed(moved, food);
        DelayStep(m.foodsEaten);
        var scored := Scored(fed, added);
        assert Fits(scored, scored.food);
        assert Settled(scored);
        CheckedInv(scored);
      } else {
        MovedBodyMisses(m.snakeX, m.snakeY, m.snakeLength, h, m.food);
        assert Settled(moved);
        CheckedInv(moved);
      }
    }
  }

  /** What a tick of a running, unpaused game does: the game ends exactly on a collision;
      with wrap-around on the head stays on the grid; the delay never grows; the high score
      only changes to a better final score. */
  lemma TickOutcome(m: Panel, food: (int, int), added: Option<(int, int)>)
    requires Inv(m) && Playing(m)
    ensures var r := Ticked(m, food, added);
      Shaped(r)
      && (r.gameOver <==> Collision(HeadOf(r), r.obstacles, r.snakeX, r.snakeY, r.snakeLength))
      && r.running == !r.gameOver
      && (m.wrapAround ==> InGrid(HeadOf(r)))
      && MIN_SPEED <= r.currentDelay <= m.currentDelay
      && (r.highScore == m.highScore || (r.gameOver && r.highScore == r.score > m.highScore))
  {
    var moved := Moved(m);
    assert HeadOf(moved) == NextHead(HeadOf(m), m.dir, m.wrapAround);
  }

  // ---------------------------------------------------------------- the panel

  class GamePanel {
    const snakeX: array<int>
    const snakeY: array<int>
    /** obstacles[x, y] marks an obstacle at column x, row y. */
    const obstacles: array2<bool>
    /** The obstacle cells, kept equal to the marks of obstacles. */
    ghost var blocked: set<(int, int)>
    var snakeLength: int
    var dx: int
    var dy: int
    var foodX: int
    var foodY: int
    var running: bool
    var paused: bool
    var gameOver: bool
    var wrapAround: bool
    var score: int
    var highScore: int
    var foodsEatenSinceStart: int
    var currentDelay: int

    ghost predicate Dims()
    {
      (snakeX.Length, snakeY.Length, obstacles.Length0, obstacles.Length1) == (MAX_CELLS, MAX_CELLS, GRID_COLS, GRID_ROWS)
      && snakeX != snakeY
    }

    ghost predicate ObstaclesSync()
      reads this`blocked, obstacles
      requires Dims()
    {
      forall x, y :: 0 <= x < GRID_COLS && 0 <= y < GRID_ROWS ==> (obstacles[x, y] <==> (x, y) in blocked)
    }

    ghost function Model(): Panel
      reads this, snakeX, snakeY
    {
      Panel(snakeX[..], snakeY[..], snakeLength, (dx, dy), (foodX, foodY), blocked,
            running, paused, gameOver, wrapAround, score, highScore, foodsEatenSinceStart, currentDelay)
    }

    ghost predicate Valid()
      reads this, snakeX, snakeY, obstacles
    {
      Dims() && ObstaclesSync() && Inv(Model())
    }

    /** Some free cell is left for the food when the body is n segments long. */
    ghost predicate Room(n: int)
      reads this`blocked, snakeX, snakeY
      requires Dims() && 0 <= n <= MAX_CELLS
    {
      exists p :: InGrid(p) && p !in blocked && !Covers(snakeX[..], snakeY[..], 0, n, p)
    }

    /** The panel as created, with the high score read from its file. */
    constructor (file: Option<string>)
      ensures Valid() && Model() == Initial(LoadedHighScore(file))
    {
      snakeX := new int[MAX_CELLS](_ => 0);
      snakeY := new int[MAX_CELLS](_ => 0);
      obstacles := new bool[GRID_COLS, GRID_ROWS]((_, _) => false);
      blocked := {};
      snakeLength := 0;
      dx, dy := 1, 0;
      foodX, foodY := 0, 0;
      running, paused, gameOver, wrapAround := false, false, false, false;
      score, foodsEatenSinceStart, currentDelay := 0, 0, BASE_SPEED;
      highScore := LoadedHighScore(file);
      new;
      assert snakeX[..] == seq(MAX_CELLS, _ => 0);
      assert snakeY[..] == seq(MAX_CELLS, _ => 0);
      assert Model() == Initial(highScore);
      assert ObstaclesSync();
    }

    /** Marks one more obstacle. */
    method SetObstacle(x: int, y: int)
      requires Dims() && ObstaclesSync() && InGrid((x, y))
      modifies this`blocked, obstacles
      ensures ObstaclesSync() && blocked == old(blocked) + {(x, y)}
    {
      obstacles[x, y] := true;
      blocked := blocked + {(x, y)};
    }

    /** Clears every obstacle, column by column. */
    method ClearObstacles()
      requires Dims()
      modifies this`blocked, obstacles
      ensures ObstaclesSync() && blocked == {}
    {
      var x := 0;
      while x < GRID_COLS
        invariant 0 <= x <= GRID_COLS
        invariant forall i, j :: 0 <= i < x && 0 <= j < GRID_ROWS ==> !obstacles[i, j]
      {
        var y := 0;
        while y < GRID_ROWS
          invariant 0 <= y <= GRID_ROWS
          invariant forall i, j :: 0 <= i < x && 0 <= j < GRID_ROWS ==> !obstacles[i, j]
          invariant forall j :: 0 <= j < y ==> !obstacles[x, j]
        {
          obstacles[x, y] := false;
          y := y + 1;
        }
        x := x + 1;
      }
      blocked := {};
    }

    /** Adds count obstacles outside the start area. A draw that falls inside the start area
        or on an obstacle is retried and changes nothing, so each round is one accepted draw. */
    method PlaceInitialObstacles(count: int)
      requires Dims() && ObstaclesSync() && 0 <= count
      requires |blocked| + count <= MAX_CELLS - 25
      modifies this`blocked, obstacles
      ensures ObstaclesSync() && old(blocked) <= blocked && |blocked| == |old(blocked)| + count
      ensures forall p :: p in blocked - old(blocked) ==> InGrid(p) && !InStartArea(p)
    {
      var placed := 0;
      while placed < count
        invariant 0 <= placed <= count
        invariant ObstaclesSync() && old(blocked) <= blocked && |blocked| == |old(blocked)| + placed
        invariant forall p :: p in blocked - old(blocked) ==> InGrid(p) && !InStartArea(p)
      {
        ghost var q := FreeOutsideStart(blocked);
        assert !obstacles[q.0, q.1];
        var ox, oy :| 0 <= ox < GRID_COLS && 0 <= oy < GRID_ROWS && !InStartArea((ox, oy)) && !obstacles[ox, oy];
        SetObstacle(ox, oy);
        placed := placed + 1;
      }
    }

    /** The obstacles of a new game. */
    method ResetObstacles()
      requires Dims()
      modifies this`blocked, obstacles
      ensures ObstaclesSync() && |blocked| == INITIAL_OBSTACLES
      ensures forall p :: p in blocked ==> InGrid(p) && !InStartArea(p)
    {
      ClearObstacles();
      PlaceInitialObstacles(INITIAL_OBSTACLES);
    }

    /** Draws the food on a cell free of obstacles and of the body's snakeLength slots. */
    method PlaceFood()
      requires Dims() && ObstaclesSync() && 0 <= snakeLength <= MAX_CELLS && Room(snakeLength)
      modifies this`foodX, this`foodY
      ensures InGrid((foodX, foodY)) && (foodX, foodY) !in blocked
      ensures !Covers(snakeX[..], snakeY[..], 0, snakeLength, (foodX, foodY))
    {
      ghost var q :| InGrid(q) && q !in blocked && !Covers(snakeX[..], snakeY[..], 0, snakeLength, q);
      assert !obstacles[q.0, q.1];
      var fx, fy :| 0 <= fx < GRID_COLS && 0 <= fy < GRID_ROWS && !obstacles[fx, fy]
        && forall i :: 0 <= i < snakeLength ==> !(snakeX[i] == fx && snakeY[i] == fy);
      foodX, foodY := fx, fy;
    }

    /** The scan over segments from..snakeLength-1 for the cell (x, y). */
    method Occupies(x: int, y: int, from: int) returns (hit: bool)
      requires Dims() && 0 <= from <= MAX_CELLS && snakeLength <= MAX_CELLS
      ensures hit == Covers(snakeX[..], snakeY[..], from, snakeLength, (x, y))
    {
      var i := from;
      while i < snakeLength
        invariant from <= i <= MAX_CELLS
        invariant !Covers(snakeX[..], snakeY[..], from, i, (x, y))
      {
        if snakeX[i] == x && snakeY[i] == y {
          return true;
        }
        i := i + 1;
      }
      return false;
    }

    /** The counters, direction and flags of a new game. */
    method ResetCounters()
      modifies this`snakeLength, this`dx, this`dy, this`score, this`foodsEatenSinceStart, this`currentDelay,
               this`running, this`paused, this`gameOver
      ensures snakeLength == START_LENGTH && (dx, dy) == (1, 0) && score == 0 && foodsEatenSinceStart == 0
      ensures currentDelay == BASE_SPEED && running && !paused && !gameOver
    {
      snakeLength := START_LENGTH;
      dx, dy := 1, 0;
      score := 0;
      foodsEatenSinceStart := 0;
      currentDelay := BASE_SPEED;
      running, paused, gameOver := true, false, false;
    }

    /** The starting body: segment i at (GRID_COLS / 2 - i, GRID_ROWS / 2). */
    method LayOutSnake()
      requires Dims()
      modifies snakeX, snakeY
      ensures snakeX[..] == seq(START_LENGTH, i => GRID_COLS / 2 - i) + old(snakeX[..])[START_LENGTH..]
      ensures snakeY[..] == seq(START_LENGTH, i => GRID_ROWS / 2) + old(snakeY[..])[START_LENGTH..]
    {
      var i := 0;
      while i < START_LENGTH
        invariant 0 <= i <= START_LENGTH
        invariant forall k :: 0 <= k < i ==> snakeX[k] == GRID_COLS / 2 - k && snakeY[k] == GRID_ROWS / 2
        invariant forall k :: START_LENGTH <= k < MAX_CELLS ==> snakeX[k] == old(snakeX[k]) && snakeY[k] == old(snakeY[k])
      {
        snakeX[i] := GRID_COLS / 2 - i;
        snakeY[i] := GRID_ROWS / 2;
        i := i + 1;
      }
    }

    /** The food of a new game, drawn once the starting body is laid out. */
    method StartFood()
      requires Dims() && ObstaclesSync() && |blocked| == INITIAL_OBSTACLES && snakeLength == START_LENGTH
      modifies this`foodX, this`foodY
      ensures InGrid((foodX, foodY)) && (foodX, foodY) !in blocked
      ensures !Covers(snakeX[..], snakeY[..], 0, snakeLength, (foodX, foodY))
    {
      ghost var q := FreeCell(blocked, snakeX[..], snakeY[..], snakeLength);
      PlaceFood();
    }

    /** startGame: resets the counters, clears the obstacles and places the initial ones,
        lays the snake out leftwards from the centre heading right and draws the food (the
        counters are independent of the board, so they are reset first here). Array slots
        past the new body keep what they held. */
    method StartGame()
      requires Dims()
      modifies this, snakeX, snakeY, obstacles
      ensures Valid() && Model() == Restarted(old(Model()), blocked, (foodX, foodY))
      ensures StartDraws(old(Model()), blocked, (foodX, foodY))
    {
      ResetCounters();
      ResetObstacles();
      LayOutSnake();
      StartFood();
      assert Model() == Restarted(old(Model()), blocked, (foodX, foodY));
      RestartedInv(old(Model()), blocked, (foodX, foodY));
    }

    /** P: pauses or resumes a running game. */
    method TogglePause()
      modifies this`paused
      ensures paused == (if running then !old(paused) else old(paused))
    {
      if !running {
        return;
      }
      paused := !paused;
    }

    /** The loop of moveSnake: from the back, each segment 1..snakeLength-1 takes the place
        of the one before it; the head slot is left for the caller. */
    method ShiftBody()
      requires Dims() && 1 <= snakeLength <= MAX_CELLS
      modifies snakeX, snakeY
      ensures snakeX[..] == Shift(old(snakeX[..]), snakeLength, old(snakeX[0]))
      ensures snakeY[..] == Shift(old(snakeY[..]), snakeLength, old(snakeY[0]))
    {
      var i := snakeLength - 1;
      while i > 0
        invariant 0 <= i < snakeLength
        invariant forall k :: 0 <= k <= i ==> snakeX[k] == old(snakeX[k]) && snakeY[k] == old(snakeY[k])
        invariant forall k :: i < k < snakeLength ==> snakeX[k] == old(snakeX[k - 1]) && snakeY[k] == old(snakeY[k - 1])
        invariant forall k :: snakeLength <= k < MAX_CELLS ==> snakeX[k] == old(snakeX[k]) && snakeY[k] == old(snakeY[k])
      {
        snakeX[i] := snakeX[i - 1];
        snakeY[i] := snakeY[i - 1];
        i := i - 1;
      }
    }

    /** Writes the head slot. */
    method SetHead(x: int, y: int)
      requires Dims()
      modifies snakeX, snakeY
      ensures snakeX[..] == old(snakeX[..])[0 := x] && snakeY[..] == old(snakeY[..])[0 := y]
    {
      snakeX[0] := x;
      snakeY[0] := y;
    }

    /** moveSnake: shifts the body one slot towards the tail, then writes the new head,
        wrapped onto the grid when wrap-around is on. */
    method MoveSnake()
      requires Dims() && 1 <= snakeLength <= MAX_CELLS
      modifies snakeX, snakeY
      ensures Model() == Moved(old(Model()))
    {
      ghost var xs, ys := snakeX[..], snakeY[..];
      ShiftBody();
      var nx, ny := snakeX[0] + dx, snakeY[0] + dy;
      if wrapAround {
        if nx < 0 { nx := GRID_COLS - 1; }
        if nx >= GRID_COLS { nx := 0; }
        if ny < 0 { ny := GRID_ROWS - 1; }
        if ny >= GRID_ROWS { ny := 0; }
      }
      assert (nx, ny) == NextHead((xs[0], ys[0]), (dx, dy), wrapAround);
      SetHead(nx, ny);
      ShiftNewHead(xs, snakeLength, xs[0], nx);
      ShiftNewHead(ys, snakeLength, ys[0], ny);
    }

    /** checkFoodCollision: when the head is on the food the length grows by one (capped at
        the array size) and new food is drawn over the grown body. */
    method CheckFoodCollision() returns (ate: bool)
      requires Dims() && ObstaclesSync() && 1 <= snakeLength <= MAX_CELLS
      requires (snakeX[0], snakeY[0]) == (foodX, foodY) ==> Room(Min(MAX_CELLS, snakeLength + 1))
      modifies this`snakeLength, this`foodX, this`foodY
      ensures ate == ((snakeX[0], snakeY[0]) == old((foodX, foodY)))
      ensures Model() == Fed(old(Model()), (foodX, foodY))
      ensures ate ==> Fits(Model(), (foodX, foodY))
    {
      if snakeX[0] == foodX && snakeY[0] == foodY {
        snakeLength := Min(MAX_CELLS, snakeLength + 1);
        PlaceFood();
        return true;
      }
      return false;
    }

    /** increaseSpeed. */
    method IncreaseSpeed()
      modifies this`currentDelay
      ensures currentDelay == SpeedUp(old(currentDelay))
    {
      currentDelay := Max(MIN_SPEED, currentDelay - SPEED_STEP);
    }

    /** addRandomObstacle: up to OBSTACLE_TRIES draws; the first one off the obstacles, the
        body and the food becomes an obstacle. Which cells are drawn is left open, so the
        result says which cell, if any, was added. */
    method AddRandomObstacle() returns (ghost added: Option<(int, int)>)
      requires Dims() && ObstaclesSync() && 0 <= snakeLength <= MAX_CELLS
      modifies this`blocked, obstacles
      ensures ObstaclesSync()
      ensures blocked == if added.Some? then old(blocked) + {added.value} else old(blocked)
      ensures added.Some? ==> InGrid(added.value) && added.value !in old(blocked) && added.value != (foodX, foodY)
                              && !Covers(snakeX[..], snakeY[..], 0, snakeLength, added.value)
    {
      added := None;
      var tries := 0;
      while tries < OBSTACLE_TRIES
        invariant ObstaclesSync() && blocked == old(blocked)
      {
        var ox, oy :| 0 <= ox < GRID_COLS && 0 <= oy < GRID_ROWS;
        if !obstacles[ox, oy] {
          var onSnake := Occupies(ox, oy, 0);
          if !onSnake && !(foodX == ox && foodY == oy) {
            SetObstacle(ox, oy);
            added := Some((ox, oy));
            return;
          }
        }
        tries := tries + 1;
      }
    }

    /** The block the tick runs after eating: score, food count, the speed-up on every third
        food and an obstacle attempt on every fourth. */
    method Eat() returns (ghost added: Option<(int, int)>)
      requires Dims() && ObstaclesSync() && 0 <= snakeLength <= MAX_CELLS
      modifies this`score, this`foodsEatenSinceStart, this`currentDelay, this`blocked, obstacles
      ensures ObstaclesSync() && Model() == Scored(old(Model()), added)
      ensures added.Some? ==> InGrid(added.value)
                              && added.value !in old(blocked) && added.value != (foodX, foodY)
                              && !Covers(snakeX[..], snakeY[..], 0, snakeLength, added.value)
    {
      score := score + FOOD_POINTS;
      foodsEatenSinceStart := foodsEatenSinceStart + 1;
      if foodsEatenSinceStart % SPEED_INCREASE_FOOD == 0 {
        IncreaseSpeed();
      }
      added := None;
      if foodsEatenSinceStart % OBSTACLE_EVERY == 0 {
        added := AddRandomObstacle();
      }
    }

    /** doGameOver: ends the game; a better score becomes the high score and is saved. The
        text saveHighScore writes is returned when it writes one. */
    method DoGameOver() returns (saved: Option<string>)
      modifies this`gameOver, this`running, this`highScore
      ensures gameOver && !running && highScore == HighScoreAfter(score, old(highScore))
      ensures saved == (if highScore > old(highScore) then Some(IntToString(highScore)) else None)
    {
      gameOver := true;
      running := false;
      saved := None;
      if score > highScore {
        highScore := score;
        saved := Some(IntToString(highScore));
      }
    }

    /** checkCollision: the game ends when the head is off the grid (checked the same way
        with wrap-around on or off), on an obstacle, or on a segment 1..snakeLength-1. */
    method CheckCollision() returns (saved: Option<string>)
      requires Dims() && ObstaclesSync() && 1 <= snakeLength <= MAX_CELLS
      modifies this`gameOver, this`running, this`highScore
      ensures Model() == Checked(old(Model()))
      ensures saved == (if highScore > old(highScore) then Some(IntToString(highScore)) else None)
    {
      saved := None;
      var headX, headY := snakeX[0], snakeY[0];
      if headX < 0 || headX >= GRID_COLS || headY < 0 || headY >= GRID_ROWS {
        saved := DoGameOver();
        return;
      }
      if obstacles[headX, headY] {
        saved := DoGameOver();
        return;
      }
      var selfHit := Occupies(headX, headY, 1);
      if selfHit {
        saved := DoGameOver();
      }
    }

    /** actionPerformed, one timer tick: while the game runs unpaused, the snake moves, eats
        the food if its head is on it, and the game ends on a collision. The requirement on
        the free cells keeps the food draw finite. */
    method Tick() returns (ghost added: Option<(int, int)>, saved: Option<string>)
      requires Valid()
      requires Playing(Model()) ==> |blocked| + snakeLength + 1 < MAX_CELLS
      modifies this, snakeX, snakeY, obstacles
      ensures Valid() && Model() == Ticked(old(Model()), (foodX, foodY), added)
      ensures saved == (if highScore > old(highScore) then Some(IntToString(highScore)) else None)
    {
      added, saved := None, None;
      if !running || paused || gameOver {
        return;
      }
      ghost var m := Model();
      MoveSnake();
      ghost var moved := Model();
      if (snakeX[0], snakeY[0]) == (foodX, foodY) {
        ghost var q := FreeCell(blocked, snakeX[..], snakeY[..], snakeLength + 1);
      }
      var ate := CheckFoodCollision();
      ghost var fed := Model();
      if ate {
        added := Eat();
        assert added.Some? ==> Fits(fed, added.value) && added.value != fed.food;
      }
      ghost var scored := Model();
      assert scored.highScore == m.highScore;
      saved := CheckCollision();
      TickDrawsMade(m, moved, fed, added);
      TickedInv(m, fed.food, added);
    }

    /** keyPressed: SPACE starts a game that is not running; once the game is over nothing
        else is heeded; P pauses, W toggles wrap-around, and an arrow key steers. */
    method KeyPressed(key: Key)
      requires Valid()
      modifies this, snakeX, snakeY, obstacles
      ensures Valid()
      ensures old(!running) && key == Space ==>
                Model() == Restarted(old(Model()), blocked, (foodX, foodY)) && StartDraws(old(Model()), blocked, (foodX, foodY))
      ensures !(old(!running) && key == Space) ==> Model() == Pressed(old(Model()), key)
    {
      if !running && key == Space {
        StartGame();
        return;
      }
      // A finished game is not running, so SPACE after a game over was taken above.
      if gameOver {
        return;
      }
      PressedInv(Model(), key);
      if key == KeyP {
        TogglePause();
        return;
      }
      if key == KeyW {
        wrapAround := !wrapAround;
        return;
      }
      var d := Steer((dx, dy), key);
      dx, dy := d.0, d.1;
    }
  }
}
