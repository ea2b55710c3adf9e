/** The game state as the program keeps it: a Snake record updated in place
    over a fixed-capacity body array, and the variables of the main loop.
    Every method is proved to do what the matching function of SnakeRules
    describes. */
module SnakeGame {
  import opened SnakeRules

  class Snake {
    var headX: int
    var headY: int
    var length: int
    var dir: Direction
    /** body[i] is segment i (head first); only body[..length] is in use. */
    var body: array<Cell>

    /** The snake's value: body[length..] is spare capacity. */
    ghost function Model(): State
      reads this, body
      requires 0 <= length <= body.Length
    {
      State(Cell(headX, headY), dir, body[..length])
    }

    ghost predicate Valid()
      reads this, body
    {
      body.Length == CAPACITY && 1 <= length <= CAPACITY && WellFormed(Model())
    }

    /** Declares a Snake and runs initializeSnake on it. */
    constructor ()
      ensures Valid() && fresh(body)
      ensures Model() == InitialSnake()
    {
      body := new Cell[CAPACITY];
      headX := WIDTH / 2;
      headY := HEIGHT / 2;
      length := 3;
      dir := Right;
      new;
      for i := 0 to length
        invariant fresh(body) && body.Length == CAPACITY && length == 3
        invariant headX == WIDTH / 2 && headY == HEIGHT / 2 && dir == Right
        invariant forall k :: 0 <= k < i ==> body[k] == Cell(headX - k, headY)
      {
        body[i] := Cell(headX - i, headY);
      }
      assert body[..length] == InitialSnake().body;
    }

    /** updateDirection: `input` is an upper-case key. */
    method UpdateDirection(input: char)
      requires Valid()
      modifies this`dir
      ensures Valid()
      ensures dir == Turned(old(dir), input)
    {
      match input {
        case 'W' => if dir != Down { dir := Up; }
        case 'S' => if dir != Up { dir := Down; }
        case 'A' => if dir != Right { dir := Left; }
        case 'D' => if dir != Left { dir := Right; }
        case _ =>
      }
    }

    /** growSnake: appends a copy of the last segment in slot `length`. */
    method Grow()
      requires Valid() && length < CAPACITY
      modifies this`length, body
      ensures Valid()
      ensures length == old(length) + 1
      ensures Model() == old(Model()).(body := Grown(old(Model()).body))
      ensures forall k :: length <= k < CAPACITY ==> body[k] == old(body[k])
    {
      body[length] := body[length - 1];
      length := length + 1;
      assert body[..length] == Grown(old(body[..length]));
    }

    /** The collision scan of moveSnake: whether a non-head segment lies on
        the head cell. */
    method HitsOwnBody() returns (hit: bool)
      requires Valid()
      ensures hit <==> HitsBody(Model().head, Model().body)
    {
      for i := 1 to length
        invariant forall k :: 1 <= k < i ==> body[k] != Cell(headX, headY)
      {
        if headX == body[i].x && headY == body[i].y {
          assert Model().body[i] == Model().head;
          return true;
        }
      }
      return false;
    }

    /** The head update of moveSnake: one cell in the current heading, with a
        coordinate that left the board by one cell put back at the far edge. */
    method AdvanceHead()
      requires Valid()
      modifies this`headX, this`headY
      ensures Cell(headX, headY) == Advanced(old(Cell(headX, headY)), dir)
    {
      match dir {
        case Up => headY := headY - 1;
        case Down => headY := headY + 1;
        case Left => headX := headX - 1;
        case Right => headX := headX + 1;
      }
      if headX < 0 { headX := WIDTH - 1; } else if headX >= WIDTH { headX := 0; }
      if headY < 0 { headY := HEIGHT - 1; } else if headY >= HEIGHT { headY := 0; }
    }

    /** The shift of moveSnake: every segment takes its predecessor's cell,
        from the tail down, and segment 0 takes the head cell. */
    method ShiftBody()
      requires body.Length == CAPACITY && 1 <= length <= CAPACITY
      modifies body
      ensures body[..length] == Shifted(old(body[..length]), Cell(headX, headY))
      ensures forall k :: length <= k < CAPACITY ==> body[k] == old(body[k])
    {
      var i := length - 1;
      while i > 0
        invariant 0 <= i < length
        invariant forall k :: 0 <= k <= i ==> body[k] == old(body[k])
        invariant forall k :: i < k < length ==> body[k] == old(body[k - 1])
        invariant forall k :: length <= k < CAPACITY ==> body[k] == old(body[k])
      {
        body[i] := body[i - 1];
        i := i - 1;
      }
      body[0] := Cell(headX, headY);
    }

    /** moveSnake: (appleX, appleY) is the apple before the move, (rx, ry)
        the draws of rand() used if it is eaten; returns 1 on a
        self-collision, 0 otherwise, and the apple after the move. */
    method MoveSnake(appleX: int, appleY: int, rx: nat, ry: nat)
      returns (collided: int, newAppleX: int, newAppleY: int)
      requires Valid()
      requires length < CAPACITY || Advanced(Cell(headX, headY), dir) != Cell(appleX, appleY)
      modifies this, body
      ensures Valid() && body == old(body)
      ensures var m := Move(old(Model()), Cell(appleX, appleY), rx, ry);
        Model() == m.snake && Cell(newAppleX, newAppleY) == m.apple &&
        collided == (if m.collided then 1 else 0)
      ensures forall k :: length <= k < CAPACITY ==> body[k] == old(body[k])
    {
      ghost var before := Model();
      AdvanceHead();
      ghost var head := Cell(headX, headY);
      ghost var shifted := Shifted(before.body, head);
      ShiftBody();
      ShiftedWellFormed(before, head);
      assert Model() == State(head, before.dir, shifted);

      if headX == appleX && headY == appleY {
        Grow();
        assert Model() == State(head, before.dir, Grown(shifted));
        newAppleX, newAppleY := rx % WIDTH, ry % HEIGHT;
      } else {
        newAppleX, newAppleY := appleX, appleY;
      }
      ghost var m := Move(before, Cell(appleX, appleY), rx, ry);
      assert Model() == m.snake && Cell(newAppleX, newAppleY) == m.apple;

      var hit := HitsOwnBody();
      collided := if hit then 1 else 0;
    }
  }

  /** The variables of main that survive a tick: the snake, the apple and the
      startInput flag. */
  class Game {
    var snake: Snake
    var appleX: int
    var appleY: int
    var started: bool

    ghost function Model(): GameState
      reads this, snake, snake.body
      requires 0 <= snake.length <= snake.body.Length
    {
      GameState(snake.Model(), Cell(appleX, appleY), started)
    }

    ghost predicate Valid()
      reads this, snake, snake.body
    {
      snake.Valid() && InBounds(Cell(appleX, appleY))
    }

    /** The set-up of main: the apple from two draws of rand(), then the
        snake. */
    constructor (rx: nat, ry: nat)
      ensures Valid() && fresh(snake) && fresh(snake.body)
      ensures Model() == InitialGame(rx, ry)
    {
      appleX := rx % WIDTH;
      appleY := ry % HEIGHT;
      snake := new Snake();
      started := false;
    }

    /** One pass of main's loop after the board is drawn: `input` is the byte
        read, if any. */
    method Tick(input: Option<char>, rx: nat, ry: nat) returns (status: Status)
      requires Valid()
      requires snake.length < CAPACITY || !TickStep(Model(), input, rx, ry).ate
      modifies this, snake, snake.body
      ensures Valid() && snake == old(snake) && snake.body == old(snake.body)
      ensures var t := TickStep(old(Model()), input, rx, ry);
        Model() == t.game && status == t.status
    {
      ghost var g := Model();
      if input.Some? {
        var key := Upper(input.value);
        if key == 'Q' {
          return Quit;
        }
        if key == 'W' || key == 'A' || key == 'S' || key == 'D' {
          started := true;
          snake.UpdateDirection(key);
        }
      }
      assert Model() == g.(snake := Steered(g.snake, input), started := g.started || Arms(input));
      if started {
        TickStepMoves(g, input, rx, ry);
      }
      status := MoveIfStarted(rx, ry);
    }

    /** The move step of main's loop: once a movement key has been read, the
        snake moves and a self-collision ends the game. */
    method MoveIfStarted(rx: nat, ry: nat) returns (status: Status)
      requires Valid()
      requires snake.length < CAPACITY || !started ||
        Advanced(Cell(snake.headX, snake.headY), snake.dir) != Cell(appleX, appleY)
      modifies this, snake, snake.body
      ensures Valid() && snake == old(snake) && snake.body == old(snake.body)
      ensures old(started) ==>
        var m := Move(old(Model()).snake, old(Model()).apple, rx, ry);
        Model() == GameState(m.snake, m.apple, true) &&
        status == if m.collided then GameOver else Running
      ensures !old(started) ==> Model() == old(Model()) && status == Running
    {
      status := Running;
      if started {
        var hit, ax, ay := snake.MoveSnake(appleX, appleY, rx, ry);
        appleX, appleY := ax, ay;
        if hit == 1 {
          status := GameOver;
        }
      }
    }

    /** main's loop over a finite run of reads, one pair of rand() draws per
        read; stops on a quit key or a self-collision. */
    method Run(inputs: seq<Option<char>>, rolls: seq<(nat, nat)>) returns (status: Status)
      requires Valid() && |rolls| == |inputs|
      requires snake.length + Play(Model(), inputs, rolls).eaten <= CAPACITY
      modifies this, snake, snake.body
      ensures Valid() && snake == old(snake) && snake.body == old(snake.body)
      ensures var p := Play(old(Model()), inputs, rolls);
        Model() == p.game && status == p.status
    {
      ghost var start := Model();
      status := Running;
      var i := 0;
      while i < |inputs| && status == Running
        invariant 0 <= i <= |inputs|
        invariant Valid() && snake == old(snake) && snake.body == old(snake.body)
        invariant status == Running ==> snake.length + Play(Model(), inputs[i..], rolls[i..]).eaten <= CAPACITY
        invariant status == Running ==>
          var p, q := Play(Model(), inputs[i..], rolls[i..]), Play(start, inputs, rolls);
          p.game == q.game && p.status == q.status
        invariant status != Running ==>
          var q := Play(start, inputs, rolls);
          Model() == q.game && status == q.status
      {
        ghost var g := Model();
        assert inputs[i..][1..] == inputs[i + 1..] && rolls[i..][1..] == rolls[i + 1..];
        status := Tick(inputs[i], rolls[i].0, rolls[i].1);
        i := i + 1;
      }
    }
  }
}
