/** The rules of the terminal snake game as values: the board, the snake's
    heading, one move of the snake, one tick of the input loop and a whole
    run of ticks. The classes in SnakeGame are proved to follow these rules. */
module SnakeRules {

  const HEIGHT: int := 16
  const WIDTH: int := 32
  /** Number of cells of the board, and the capacity of the body array. */
  const CAPACITY: int := WIDTH * HEIGHT

  datatype Option<T> = None | Some(value: T)

  datatype Direction = Up | Down | Left | Right

  /** A board cell; x is the column, y the row (row 0 is the top). */
  datatype Cell = Cell(x: int, y: int)

  predicate InBounds(c: Cell) {
    0 <= c.x < WIDTH && 0 <= c.y < HEIGHT
  }

  function Opposite(d: Direction): Direction {
    match d
    case Up => Down
    case Down => Up
    case Left => Right
    case Right => Left
  }

  /** Column and row offsets of one step in direction d. */
  function Dx(d: Direction): int {
    if d == Left then -1 else if d == Right then 1 else 0
  }

  function Dy(d: Direction): int {
    if d == Up then -1 else if d == Down then 1 else 0
  }

  /** The heading a (upper-case) movement key names, if any. */
  function KeyHeading(key: char): Option<Direction> {
    if key == 'W' then Some(Up)
    else if key == 'S' then Some(Down)
    else if key == 'A' then Some(Left)
    else if key == 'D' then Some(Right)
    else None
  }

  predicate IsMoveKey(key: char) {
    key == 'W' || key == 'A' || key == 'S' || key == 'D'
  }

  /** toupper in the C locale. */
  function Upper(c: char): char {
    if 'a' <= c <= 'z' then (c as int - ('a' as int - 'A' as int)) as char else c
  }

  // ---------------------------------------------------------------------------
  // updateDirection

  /** The heading after key `key` is pressed while heading `d`: a movement key
      turns the snake unless it names the reverse of the current heading. */
  function Turned(d: Direction, key: char): (r: Direction)
    ensures r != Opposite(d)
    ensures KeyHeading(key).None? ==> r == d
    ensures KeyHeading(key).Some? && KeyHeading(key).value != Opposite(d) ==> r == KeyHeading(key).value
    ensures KeyHeading(key).Some? && KeyHeading(key).value == Opposite(d) ==> r == d
  {
    match key
    case 'W' => if d != Down then Up else d
    case 'S' => if d != Up then Down else d
    case 'A' => if d != Right then Left else d
    case 'D' => if d != Left then Right else d
    case _ => d
  }

  // ---------------------------------------------------------------------------
  // moveSnake, head advance and wrap-around

  /** Brings a coordinate that overshot the range 0..n-1 by at most one cell
      back onto the board; only a one-cell overshoot is corrected. */
  function Wrap(v: int, n: int): int {
    if v < 0 then n - 1 else if v >= n then 0 else v
  }

  /** The cell the head reaches after one step from c in direction d. */
  function Advanced(c: Cell, d: Direction): (r: Cell)
    requires InBounds(c)
    ensures InBounds(r)
    ensures r.x == (c.x + Dx(d)) % WIDTH && r.y == (c.y + Dy(d)) % HEIGHT
  {
    var raw := match d
      case Up => Cell(c.x, c.y - 1)
      case Down => Cell(c.x, c.y + 1)
      case Left => Cell(c.x - 1, c.y)
      case Right => Cell(c.x + 1, c.y);
    Cell(Wrap(raw.x, WIDTH), Wrap(raw.y, HEIGHT))
  }

  /** The body after every segment moved to the cell of its predecessor and
      the head moved to `head`; the old tail cell is dropped. */
  function Shifted(body: seq<Cell>, head: Cell): (r: seq<Cell>)
    requires |body| >= 1
    ensures |r| == |body| && r[0] == head
    ensures forall i :: 1 <= i < |r| ==> r[i] == body[i - 1]
  {
    [head] + body[..|body| - 1]
  }

  /** growSnake: one more segment, a copy of the current last one. */
  function Grown(body: seq<Cell>): (r: seq<Cell>)
    requires |body| >= 1
    ensures |r| == |body| + 1 && r[..|body|] == body
    ensures r[|body|] == r[|body| - 1]
  {
    body + [body[|body| - 1]]
  }

  /** The apple cell chosen from two draws of rand(). */
  function Relocated(rx: nat, ry: nat): (r: Cell)
    ensures InBounds(r)
  {
    Cell(rx % WIDTH, ry % HEIGHT)
  }

  /** Whether some non-head segment lies on `head`. */
  predicate HitsBody(head: Cell, body: seq<Cell>) {
    exists i :: 1 <= i < |body| && body[i] == head
  }

  /** The snake: head cell, heading and body (head first); the source's
      length field is |body|. */
  datatype State = State(head: Cell, dir: Direction, body: seq<Cell>)

  /** The snake invariant: a non-empty body whose first segment is the head
      and whose every segment lies on the board. */
  predicate WellFormed(s: State) {
    |s.body| >= 1 && s.body[0] == s.head &&
    forall i :: 0 <= i < |s.body| ==> InBounds(s.body[i])
  }

  /** initializeSnake */
  function InitialSnake(): (s: State)
    ensures WellFormed(s)
    ensures s.head == Cell(16, 8) && s.dir == Right && |s.body| == 3
    ensures s.body == [Cell(16, 8), Cell(15, 8), Cell(14, 8)]
  {
    State(Cell(WIDTH / 2, HEIGHT / 2), Right, seq(3, i => Cell(WIDTH / 2 - i, HEIGHT / 2)))
  }

  /** Shifting a well-formed snake onto an in-bounds head keeps it well formed. */
  lemma ShiftedWellFormed(s: State, head: Cell)
    requires WellFormed(s) && InBounds(head)
    ensures WellFormed(State(head, s.dir, Shifted(s.body, head)))
  {
  }

  datatype MoveResult = MoveResult(snake: State, apple: Cell, collided: bool)

  /** moveSnake: advance the head, shift the body, grow and relocate the apple
      if the head landed on it, then look for a self-collision. */
  function Move(s: State, apple: Cell, rx: nat, ry: nat): (r: MoveResult)
    requires WellFormed(s)
    ensures WellFormed(r.snake) && r.snake.dir == s.dir
    ensures r.snake.head.x == (s.head.x + Dx(s.dir)) % WIDTH
    ensures r.snake.head.y == (s.head.y + Dy(s.dir)) % HEIGHT
    ensures |r.snake.body| == |s.body| + (if r.snake.head == apple then 1 else 0)
    ensures forall i :: 1 <= i < |s.body| ==> r.snake.body[i] == s.body[i - 1]
    ensures r.snake.head == apple ==> r.snake.body[|s.body|] == r.snake.body[|s.body| - 1]
    ensures r.snake.head == apple ==> InBounds(r.apple)
    ensures r.snake.head != apple ==> r.apple == apple
    ensures r.collided <==> exists i :: 1 <= i < |r.snake.body| && r.snake.body[i] == r.snake.head
  {
    var head := Advanced(s.head, s.dir);
    var shifted := Shifted(s.body, head);
    var eaten := head == apple;
    var body := if eaten then Grown(shifted) else shifted;
    MoveResult(State(head, s.dir, body), if eaten then Relocated(rx, ry) else apple, HitsBody(head, body))
  }

  // ---------------------------------------------------------------------------
  // The per-tick input dispatch of main

  /** Everything main keeps between ticks: the snake, the apple and whether a
      movement key has been read yet (startInput). */
  datatype GameState = GameState(snake: State, apple: Cell, started: bool)

  predicate WellFormedGame(g: GameState) {
    WellFormed(g.snake) && InBounds(g.apple)
  }

  function InitialGame(rx: nat, ry: nat): (g: GameState)
    ensures WellFormedGame(g) && !g.started && g.snake == InitialSnake()
  {
    GameState(InitialSnake(), Relocated(rx, ry), false)
  }

  datatype Status = Running | Quit | GameOver

  datatype TickResult = TickResult(game: GameState, status: Status, ate: bool)

  predicate IsQuit(input: Option<char>) {
    input.Some? && Upper(input.value) == 'Q'
  }

  predicate Arms(input: Option<char>) {
    input.Some? && IsMoveKey(Upper(input.value))
  }

  /** The snake after the read: a movement key turns it (updateDirection). */
  function Steered(s: State, input: Option<char>): State {
    if Arms(input) then s.(dir := Turned(s.dir, Upper(input.value))) else s
  }

  /** One iteration of main's loop, after the board is drawn: `input` is the
      byte read (None when there was none), (rx, ry) the draws of rand() used
      if the apple is eaten. */
  function TickStep(g: GameState, input: Option<char>, rx: nat, ry: nat): (r: TickResult)
    requires WellFormedGame(g)
    ensures WellFormedGame(r.game)
    ensures r.status == Quit <==> IsQuit(input)
    ensures r.status == Quit ==> r.game == g && !r.ate
    ensures !IsQuit(input) ==> (r.game.started <==> g.started || Arms(input))
    ensures !r.game.started ==> r.game == g && r.status != GameOver && !r.ate
    ensures r.game.snake.dir != Opposite(g.snake.dir)
    ensures !IsQuit(input) ==>
      r.game.snake.dir == if Arms(input) then Turned(g.snake.dir, Upper(input.value)) else g.snake.dir
    ensures !IsQuit(input) && r.game.started ==> r.game.snake.head == Advanced(g.snake.head, r.game.snake.dir)
    ensures r.status == GameOver <==>
      !IsQuit(input) && r.game.started && HitsBody(r.game.snake.head, r.game.snake.body)
    ensures |r.game.snake.body| == |g.snake.body| + (if r.ate then 1 else 0)
    ensures r.ate ==> r.game.snake.head == g.apple
    ensures !IsQuit(input) && r.game.started ==> (r.ate <==> r.game.snake.head == g.apple)
    ensures !r.ate ==> r.game.apple == g.apple
  {
    if IsQuit(input) then TickResult(g, Quit, false)
    else
      var started := g.started || Arms(input);
      var snake := Steered(g.snake, input);
      if !started then TickResult(g, Running, false)
      else
        var m := Move(snake, g.apple, rx, ry);
        TickResult(GameState(m.snake, m.apple, true), if m.collided then GameOver else Running,
                   m.snake.head == g.apple)
  }

  /** An armed tick that does not quit is the move of the steered snake. */
  lemma TickStepMoves(g: GameState, input: Option<char>, rx: nat, ry: nat)
    requires WellFormedGame(g) && !IsQuit(input) && (g.started || Arms(input))
    ensures var s := Steered(g.snake, input);
      var m := Move(s, g.apple, rx, ry);
      TickStep(g, input, rx, ry) ==
        TickResult(GameState(m.snake, m.apple, true), if m.collided then GameOver else Running,
                   Advanced(s.head, s.dir) == g.apple)
  {
  }

  datatype PlayResult = PlayResult(game: GameState, status: Status, eaten: nat)

  /** main's loop over a finite run of reads: ticks until a quit key, a
      self-collision or the end of the input; `eaten` counts the apples. */
  function Play(g: GameState, inputs: seq<Option<char>>, rolls: seq<(nat, nat)>): (r: PlayResult)
    requires WellFormedGame(g) && |rolls| == |inputs|
    ensures WellFormedGame(r.game)
    ensures |r.game.snake.body| == |g.snake.body| + r.eaten
    ensures r.eaten <= |inputs|
    decreases |inputs|
  {
    if inputs == [] then PlayResult(g, Running, 0)
    else
      var t := TickStep(g, inputs[0], rolls[0].0, rolls[0].1);
      var ate := if t.ate then 1 else 0;
      if t.status != Running then PlayResult(t.game, t.status, ate)
      else
        var rest := Play(t.game, inputs[1..], rolls[1..]);
        PlayResult(rest.game, rest.status, rest.eaten + ate)
  }

  // ---------------------------------------------------------------------------
  // Properties of runs

  /** Until a movement key is read nothing moves: a run of reads with no
      movement key and no quit key leaves the game as it was. */
  lemma {:induction false} IdleUntilArmed(g: GameState, inputs: seq<Option<char>>, rolls: seq<(nat, nat)>)
    requires WellFormedGame(g) && |rolls| == |inputs| && !g.started
    requires forall i :: 0 <= i < |inputs| ==> !Arms(inputs[i]) && !IsQuit(inputs[i])
    ensures Play(g, inputs, rolls) == PlayResult(g, Running, 0)
    decreases |inputs|
  {
    if inputs != [] {
      IdleUntilArmed(g, inputs[1..], rolls[1..]);
    }
  }

  /** Once armed, the game stays armed for the rest of the run. */
  lemma {:induction false} ArmedStaysArmed(g: GameState, inputs: seq<Option<char>>, rolls: seq<(nat, nat)>)
    requires WellFormedGame(g) && |rolls| == |inputs| && g.started
    ensures Play(g, inputs, rolls).game.started
    decreases |inputs|
  {
    if inputs != [] {
      var t := TickStep(g, inputs[0], rolls[0].0, rolls[0].1);
      if t.status == Running {
        ArmedStaysArmed(t.game, inputs[1..], rolls[1..]);
      }
    }
  }

  /** A run that ends Running read no quit key; a run that ends in Quit read
      one. */
  lemma {:induction false} PlayStatus(g: GameState, inputs: seq<Option<char>>, rolls: seq<(nat, nat)>)
    requires WellFormedGame(g) && |rolls| == |inputs|
    ensures Play(g, inputs, rolls).status == Running ==> forall i :: 0 <= i < |inputs| ==> !IsQuit(inputs[i])
    ensures Play(g, inputs, rolls).status == Quit ==> exists i :: 0 <= i < |inputs| && IsQuit(inputs[i])
    decreases |inputs|
  {
    if inputs != [] {
      var t := TickStep(g, inputs[0], rolls[0].0, rolls[0].1);
      if t.status == Running {
        PlayStatus(t.game, inputs[1..], rolls[1..]);
        if Play(g, inputs, rolls).status == Running {
          forall i | 0 <= i < |inputs| ensures !IsQuit(inputs[i]) {
            if i > 0 { assert inputs[i] == inputs[1..][i - 1]; }
          }
        }
        if Play(g, inputs, rolls).status == Quit {
          var j :| 0 <= j < |inputs| - 1 && IsQuit(inputs[1..][j]);
          assert IsQuit(inputs[j + 1]);
        }
      }
    }
  }

  /** A quit key read before anything else ends the run and changes nothing. */
  lemma QuitFirst(g: GameState, inputs: seq<Option<char>>, rolls: seq<(nat, nat)>)
    requires WellFormedGame(g) && |rolls| == |inputs| && |inputs| > 0 && IsQuit(inputs[0])
    ensures Play(g, inputs, rolls) == PlayResult(g, Quit, 0)
  {
  }

  /** The first tick from the start with a movement key that keeps the
      heading: head (17,8), body [(17,8),(16,8),(15,8)]. */
  lemma FirstStep(rx: nat, ry: nat, ax: nat, ay: nat)
    requires Relocated(ax, ay) != Cell(17, 8)
    ensures var t := TickStep(InitialGame(ax, ay), Some('d'), rx, ry);
      t.status == Running && !t.ate &&
      t.game.snake == State(Cell(17, 8), Right, [Cell(17, 8), Cell(16, 8), Cell(15, 8)])
  {
  }

  /** Eating on the first move: the body grows to four, and the new segment
      copies the segment that was last after the shift, (15,8), not the
      former tail (14,8). */
  lemma FirstStepEats(rx: nat, ry: nat)
    ensures var m := Move(InitialSnake(), Cell(17, 8), rx, ry);
      !m.collided && InBounds(m.apple) &&
      m.snake.body == [Cell(17, 8), Cell(16, 8), Cell(15, 8), Cell(15, 8)]
  {
  }
}
