/**
  The ghosts of the game: ten-bit position registers that move by one pixel a clock, and a turn logic
  that acts where both coordinates are multiples of 32. Shown to be a walk from tile to tile.
 */
module GhostMovement {

  type U10 = x: int | 0 <= x < 1024
  type Index = x: int | 0 <= x < 32
  type Walls = s: seq<bool> | |s| == 156 witness seq(156, _ => false)
  type Bits16 = s: seq<bool> | |s| == 16 witness seq(16, _ => false)

  datatype Dir = Left | Right | Up | Down

  datatype Openings = Openings(left: bool, right: bool, up: bool, down: bool)

  /** The inputs at one clock. */
  datatype Inputs = Inputs(xWalls: Walls, yWalls: Walls, generation: Bits16, playerX: U10, playerY: U10)

  datatype Regs = Regs(posX: U10, posY: U10, inertiaX: U10, inertiaY: U10, count: nat)

  // ---------------------------------------------------------------- walls

  /** wallVerify: the directions open at a tile. The twelve by twelve tiles of the board are surrounded by
      tiles that only lead back. */
  function WallVerify(xWalls: Walls, yWalls: Walls, x: Index, y: Index): Openings {
    if y == 0 then Openings(false, false, false, true)
    else if y > 12 then Openings(false, false, true, false)
    else if x == 0 then Openings(false, true, false, false)
    else if x > 12 then Openings(true, false, false, false)
    else Openings(!yWalls[13 * (y - 1) + x - 1], !yWalls[13 * (y - 1) + x],
                  !xWalls[12 * (y - 1) + x - 1], !xWalls[12 * y + x - 1])
  }

  predicate IsOpen(o: Openings, d: Dir) {
    match d
    case Left => o.left
    case Right => o.right
    case Up => o.up
    case Down => o.down
  }

  predicate AnyOpen(o: Openings) { o.left || o.right || o.up || o.down }

  // ---------------------------------------------------------------- the combinational logic

  // Ten-bit sums and differences, without the carry.

  function Plus(a: U10, b: U10): U10 { if a + b < 1024 then a + b else a + b - 1024 }

  function Minus(a: U10, b: U10): U10 { if a >= b then a - b else a - b + 1024 }

  predicate OnGrid(a: U10) { a % 32 == 0 }

  predicate SignBit(a: U10) { a >= 512 }

  /** rSelect: two bits of the generation input. */
  function Select(generation: Bits16, count: nat): nat
    requires count < 8
  {
    (if generation[2 * count + 1] then 2 else 0) + (if generation[2 * count] then 1 else 0)
  }

  predicate Crossroad(r: Regs) { OnGrid(r.posX) && OnGrid(r.posY) }

  /** The case statement over the open directions; `xa` and `ya` are the ghost's position minus the
      player's. */
  function Turn(o: Openings, select: nat, inertiaX: U10, inertiaY: U10, xa: U10, ya: U10): Dir {
    var leftMove, upMove := SignBit(inertiaX), SignBit(inertiaY);
    var downMove := inertiaY % 2 == 1 && !SignBit(inertiaY);
    var rightPass, leftPass := !SignBit(xa) && xa != 0, SignBit(xa);
    var downPass, upPass := !SignBit(ya) && ya != 0, SignBit(ya);
    match (o.left, o.right, o.up, o.down)
    case (false, false, false, false) => Up
    case (false, false, false, true) => Down
    case (false, false, true, false) => Up
    case (false, true, false, false) => Right
    case (true, false, false, false) => Left
    case (true, true, false, false) =>
      if select == 3 then (if leftMove then Right else Left) else if leftMove then Left else Right
    case (true, false, true, false) =>
      if select == 3 then (if downMove then Up else Left) else if downMove then Left else Up
    case (true, false, false, true) =>
      if select == 3 then (if upMove then Down else Left) else if upMove then Left else Down
    case (false, true, true, false) =>
      if select == 3 then (if downMove then Up else Right) else if downMove then Right else Up
    case (false, true, false, true) =>
      if select == 3 then (if upMove then Down else Right) else if upMove then Right else Down
    case (false, false, true, true) =>
      if select == 3 then (if upMove then Down else Up) else if upMove then Up else Down
    case (true, true, true, false) => if downPass then Up else if rightPass then Left else Right
    case (true, true, false, true) => if upPass then Down else if rightPass then Left else Right
    case (true, false, true, true) => if rightPass then Left else if downPass then Up else Down
    case (false, true, true, true) => if leftPass then Right else if downPass then Up else Down
    case (true, true, true, true) =>
      if select == 0 then Left else if select == 1 then Right else if select == 2 then Up else Down
  }

  /** The step of a direction, in ten bits. */
  function UnitX(d: Dir): U10 { if d == Left then 1023 else if d == Right then 1 else 0 }

  function UnitY(d: Dir): U10 { if d == Up then 1023 else if d == Down then 1 else 0 }

  function Chosen(r: Regs, i: Inputs): Dir
    requires r.count < 8
  {
    Turn(WallVerify(i.xWalls, i.yWalls, r.posX / 32, r.posY / 32), Select(i.generation, r.count),
         r.inertiaX, r.inertiaY, Minus(r.posX, i.playerX), Minus(r.posY, i.playerY))
  }

  /** What the registers hold after a clock. */
  function Next(r: Regs, i: Inputs): (n: Regs)
    requires r.count < 8
    ensures n.count < 8
  {
    var turning := Crossroad(r);
    var inertiaX := if turning then UnitX(Chosen(r, i)) else r.inertiaX;
    var inertiaY := if turning then UnitY(Chosen(r, i)) else r.inertiaY;
    Regs(Plus(r.posX, inertiaX), Plus(r.posY, inertiaY), inertiaX, inertiaY,
         if !turning then r.count else if r.count == 7 then 0 else r.count + 1)
  }

  /** Reset, at the upper left pixel of a tile. */
  function AtReset(startX: Index, startY: Index): Regs { Regs(32 * startX, 32 * startY, 0, 0, 0) }

  function Run(startX: Index, startY: Index, ins: seq<Inputs>): (r: Regs)
    ensures r.count < 8
    decreases |ins|
  {
    if ins == [] then AtReset(startX, startY)
    else Next(Run(startX, startY, ins[..|ins| - 1]), ins[|ins| - 1])
  }

  // ---------------------------------------------------------------- the walk on tiles

  datatype Heading = Still | Towards(dir: Dir)

  /** A ghost at a tile, after `turns` junctions. */
  datatype Tile = Tile(x: Index, y: Index, heading: Heading, turns: nat)

  function Neighbour(x: Index, y: Index, d: Dir): (Index, Index) {
    match d
    case Left => (if x == 0 then 31 else x - 1, y)
    case Right => (if x == 31 then 0 else x + 1, y)
    case Up => (x, if y == 0 then 31 else y - 1)
    case Down => (x, if y == 31 then 0 else y + 1)
  }

  /** The registers at a tile. */
  function Corner(t: Tile): Regs {
    Regs(32 * t.x, 32 * t.y, if t.heading.Still? then 0 else UnitX(t.heading.dir),
         if t.heading.Still? then 0 else UnitY(t.heading.dir), t.turns % 8)
  }

  /** The k-th junction reads bit pair k mod 8 of the generation input. */
  function Ahead(t: Tile, i: Inputs): Tile {
    var d := Chosen(Corner(t), i);
    var (x, y) := Neighbour(t.x, t.y, d);
    Tile(x, y, Towards(d), t.turns + 1)
  }

  /** The walk that uses every 32nd input. */
  function Walk(startX: Index, startY: Index, ins: seq<Inputs>, m: nat): Tile
    requires 32 * m < |ins| + 32
  {
    if m == 0 then Tile(startX, startY, Still, 0) else Ahead(Walk(startX, startY, ins, m - 1), ins[32 * (m - 1)])
  }

  /** The coordinate `j` pixels past a tile, in steps of `unit`. */
  function Pixel(x: Index, j: nat, unit: U10): U10
    requires j <= 32
  {
    if unit == 0 then 32 * x
    else if unit == 1 then (if 32 * x + j < 1024 then 32 * x + j else 0)
    else if 32 * x >= j then 32 * x - j else 1024 - j
  }

  /** The registers `j` pixels on the way from one tile to the next. */
  function Between(from: Tile, to: Tile, j: nat): Regs
    requires to.heading.Towards? && j <= 32
  {
    var d := to.heading.dir;
    Regs(Pixel(from.x, j, UnitX(d)), Pixel(from.y, j, UnitY(d)), UnitX(d), UnitY(d), to.turns % 8)
  }

  // ---------------------------------------------------------------- the registers follow the walk

  lemma PixelStep(x: Index, j: nat, unit: U10)
    requires j < 32 && (unit == 0 || unit == 1 || unit == 1023)
    ensures Plus(Pixel(x, j, unit), unit) == Pixel(x, j + 1, unit)
    ensures OnGrid(Pixel(x, j, unit)) <==> j == 0 || unit == 0
    ensures Pixel(x, 0, unit) == 32 * x
  {
    GridAt(x, j);
    if unit == 1023 && j > 0 {
      GridAt(if x == 0 then 31 else x - 1, 32 - j);
    }
  }

  lemma GridAt(x: Index, j: nat)
    requires j < 32
    ensures OnGrid(32 * x + j) <==> j == 0
    ensures (32 * x + j) / 32 == x
  {
  }

  lemma Units(d: Dir)
    ensures UnitX(d) == 0 || UnitX(d) == 1 || UnitX(d) == 1023
    ensures UnitY(d) == 0 || UnitY(d) == 1 || UnitY(d) == 1023
    ensures UnitX(d) == 0 <==> UnitY(d) != 0
  {
  }

  lemma LeaveTile(t: Tile, i: Inputs)
    ensures Next(Corner(t), i) == Between(t, Ahead(t, i), 1)
  {
    hide Chosen, Plus, Pixel, UnitX, UnitY, OnGrid, Neighbour;
    var d := Chosen(Corner(t), i);
    Units(d);
    PixelStep(t.x, 0, UnitX(d));
    PixelStep(t.y, 0, UnitY(d));
    CountOn(t.turns);
  }

  lemma CountOn(turns: nat)
    ensures (turns + 1) % 8 == if turns % 8 == 7 then 0 else turns % 8 + 1
  {
  }

  lemma OnTheWay(from: Tile, to: Tile, j: nat, i: Inputs)
    requires 0 < j < 32 && to.heading.Towards?
    ensures Next(Between(from, to, j), i) == Between(from, to, j + 1)
  {
    hide Chosen, Plus, Pixel, UnitX, UnitY, OnGrid;
    var d := to.heading.dir;
    Units(d);
    PixelStep(from.x, j, UnitX(d));
    PixelStep(from.y, j, UnitY(d));
  }

  lemma ReachTile(t: Tile, i: Inputs)
    ensures Between(t, Ahead(t, i), 32) == Corner(Ahead(t, i))
  {
    hide Chosen;
  }

  lemma {:induction false} WalkPrefix(startX: Index, startY: Index, ins: seq<Inputs>, m: nat)
    requires ins != [] && 32 * m < |ins| + 31
    ensures Walk(startX, startY, ins, m) == Walk(startX, startY, ins[..|ins| - 1], m)
  {
    hide Ahead;
    if m == 0 {
    } else {
      WalkPrefix(startX, startY, ins, m - 1);
    }
  }

  /** From reset, for all inputs: after every 32 clocks the registers stand at the next tile of the walk,
      and in between on the straight way to it. */
  lemma {:induction false} FollowsWalk(startX: Index, startY: Index, ins: seq<Inputs>)
    ensures var n := |ins|;
      Run(startX, startY, ins) ==
        if n % 32 == 0 then Corner(Walk(startX, startY, ins, n / 32))
        else Between(Walk(startX, startY, ins, n / 32), Walk(startX, startY, ins, n / 32 + 1), n % 32)
    decreases |ins|
  {
    hide Next, Ahead, Between, Corner;
    if ins == [] {
      StartsAtCorner(startX, startY);
    } else {
      var n := |ins| - 1;
      var m, j := n / 32, n % 32;
      assert if j == 31 then (n + 1) / 32 == m + 1 && (n + 1) % 32 == 0 else (n + 1) / 32 == m && (n + 1) % 32 == j + 1;
      var init, i := ins[..n], ins[n];
      FollowsWalk(startX, startY, init);
      WalkPrefix(startX, startY, ins, m);
      var t := Walk(startX, startY, ins, m);
      var to := Walk(startX, startY, ins, m + 1);
      assert to == Ahead(t, ins[32 * m]);
      AheadHeads(t, ins[32 * m]);
      if j == 0 {
        LeaveTile(t, i);
      } else {
        WalkPrefix(startX, startY, ins, m + 1);
        OnTheWay(t, to, j, i);
        ReachTile(t, ins[32 * m]);
      }
    }
  }

  lemma AheadHeads(t: Tile, i: Inputs)
    ensures Ahead(t, i).heading == Towards(Chosen(Corner(t), i)) && Ahead(t, i).turns == t.turns + 1
  {
  }

  lemma StartsAtCorner(startX: Index, startY: Index)
    ensures AtReset(startX, startY) == Corner(Tile(startX, startY, Still, 0))
  {
  }

  // ---------------------------------------------------------------- what follows for every run

  /** At every clock exactly one coordinate moves, by one pixel, and some coordinate is on the tile grid. */
  ghost predicate OnePixel(a: Regs, b: Regs) {
    || (a.posY == b.posY && (b.posX == Plus(a.posX, 1) || b.posX == Plus(a.posX, 1023)))
    || (a.posX == b.posX && (b.posY == Plus(a.posY, 1) || b.posY == Plus(a.posY, 1023)))
  }

  lemma AlwaysOnePixel(startX: Index, startY: Index, ins: seq<Inputs>, i: Inputs)
    ensures var r := Run(startX, startY, ins);
      OnePixel(r, Next(r, i)) && (OnGrid(r.posX) || OnGrid(r.posY))
  {
    hide Next, Walk, Run, Corner, Between, OnePixel, OnGrid;
    FollowsWalk(startX, startY, ins);
    var m, j := |ins| / 32, |ins| % 32;
    var t := Walk(startX, startY, ins, m);
    if j == 0 {
      LeavingIsOnePixel(t, i);
    } else {
      var to := Walk(startX, startY, ins, m + 1);
      WalkHeads(startX, startY, ins, m);
      WayIsOnePixel(t, to, j, i);
    }
  }

  lemma WalkHeads(startX: Index, startY: Index, ins: seq<Inputs>, m: nat)
    requires 32 * m < |ins|
    ensures Walk(startX, startY, ins, m + 1) == Ahead(Walk(startX, startY, ins, m), ins[32 * m])
    ensures Walk(startX, startY, ins, m + 1).heading.Towards?
  {
    hide Chosen;
  }

  lemma LeavingIsOnePixel(t: Tile, i: Inputs)
    ensures OnePixel(Corner(t), Next(Corner(t), i)) && OnGrid(Corner(t).posX)
  {
    hide Chosen;
    GridAt(t.x, 0);
    GridAt(t.y, 0);
    hide OnGrid;
  }

  lemma WayIsOnePixel(t: Tile, to: Tile, j: nat, i: Inputs)
    requires 0 < j < 32 && to.heading.Towards?
    ensures var r := Between(t, to, j);
      OnePixel(r, Next(r, i)) && (OnGrid(r.posX) || OnGrid(r.posY))
  {
    var d := to.heading.dir;
    hide Chosen, Next, Plus, Pixel, OnGrid;
    OnTheWay(t, to, j, i);
    PixelStep(t.x, j, UnitX(d));
    PixelStep(t.y, j, UnitY(d));
    assert UnitX(d) == 0 ==> Pixel(t.x, j, 0) == Pixel(t.x, j + 1, 0) by { Level(t.x, j); }
    assert UnitY(d) == 0 ==> Pixel(t.y, j, 0) == Pixel(t.y, j + 1, 0) by { Level(t.y, j); }
  }

  lemma Level(x: Index, j: nat)
    requires j < 32
    ensures Pixel(x, j, 0) == Pixel(x, j + 1, 0)
  {
  }

  /** What the turn logic chooses is open whenever anything is; with nothing open it is up. */
  lemma ChosenIsOpen(r: Regs, i: Inputs)
    requires r.count < 8
    ensures var o := WallVerify(i.xWalls, i.yWalls, r.posX / 32, r.posY / 32);
      if AnyOpen(o) then IsOpen(o, Chosen(r, i)) else Chosen(r, i) == Up
  {
    hide WallVerify, Select, Minus;
  }

  /** Every edge of the walk was reported open at the clock at which the ghost turned into it. */
  lemma EdgesAreOpen(startX: Index, startY: Index, ins: seq<Inputs>, m: nat)
    requires 32 * m < |ins|
    ensures var t, to, i := Walk(startX, startY, ins, m), Walk(startX, startY, ins, m + 1), ins[32 * m];
      var o := WallVerify(i.xWalls, i.yWalls, t.x, t.y);
      && to.heading.Towards? && (to.x, to.y) == Neighbour(t.x, t.y, to.heading.dir) && t.turns == m
      && (if AnyOpen(o) then IsOpen(o, to.heading.dir) else to.heading.dir == Up)
  {
    var t := Walk(startX, startY, ins, m);
    TurnsCounted(startX, startY, ins, m);
    ChosenIsOpen(Corner(t), ins[32 * m]);
    CornerTile(t);
    hide Chosen, WallVerify, Corner, IsOpen, AnyOpen, Neighbour;
  }

  lemma CornerTile(t: Tile)
    ensures Corner(t).posX / 32 == t.x && Corner(t).posY / 32 == t.y && Corner(t).count < 8
  {
    GridAt(t.x, 0);
    GridAt(t.y, 0);
  }

  lemma {:induction false} TurnsCounted(startX: Index, startY: Index, ins: seq<Inputs>, m: nat)
    requires 32 * m < |ins| + 32
    ensures Walk(startX, startY, ins, m).turns == m
  {
    hide Chosen;
    if m == 0 {
    } else {
      TurnsCounted(startX, startY, ins, m - 1);
    }
  }

  // ---------------------------------------------------------------- walls

  predicate OnBoard(x: int, y: int) { 1 <= x <= 12 && 1 <= y <= 12 }

  function Opposite(d: Dir): Dir {
    match d
    case Left => Right
    case Right => Left
    case Up => Down
    case Down => Up
  }

  /** On the board a passage is open in both directions or in none. */
  lemma PassagesGoBothWays(xWalls: Walls, yWalls: Walls, x: Index, y: Index, d: Dir)
    requires OnBoard(x, y) && OnBoard(Neighbour(x, y, d).0, Neighbour(x, y, d).1)
    ensures var (x', y') := Neighbour(x, y, d);
      IsOpen(WallVerify(xWalls, yWalls, x, y), d) <==> IsOpen(WallVerify(xWalls, yWalls, x', y'), Opposite(d))
  {
  }

  lemma WalkStarts(startX: Index, startY: Index, ins: seq<Inputs>)
    ensures Walk(startX, startY, ins, 0) == Tile(startX, startY, Still, 0)
  {
  }

  /** The board with the ring of tiles around it. */
  predicate InRing(x: int, y: int) { 0 <= x <= 13 && 0 <= y <= 13 }

  /** The ring without its four corners. */
  predicate NextToBoard(x: int, y: int) { InRing(x, y) && !OnBoard(x, y) && (1 <= x <= 12 || 1 <= y <= 12) }

  /** One step from tile to tile, whatever the walls: the ring is not left, and leads back to the board. */
  lemma StepInRing(xWalls: Walls, yWalls: Walls, x: Index, y: Index, d: Dir)
    requires InRing(x, y)
    requires var o := WallVerify(xWalls, yWalls, x, y); if AnyOpen(o) then IsOpen(o, d) else d == Up
    ensures var (x', y') := Neighbour(x, y, d);
      && InRing(x', y')
      && (OnBoard(x, y) ==> OnBoard(x', y') || NextToBoard(x', y'))
      && (NextToBoard(x, y) ==> OnBoard(x', y') && forall e :: IsOpen(WallVerify(xWalls, yWalls, x, y), e) ==> e == d)
  {
  }

  /** For all walls, even changing ones, a ghost that starts on the board or the ring never leaves them. */
  lemma {:induction false} WalkStaysInRing(startX: Index, startY: Index, ins: seq<Inputs>, m: nat)
    requires InRing(startX, startY) && 32 * m < |ins| + 32
    ensures InRing(Walk(startX, startY, ins, m).x, Walk(startX, startY, ins, m).y)
  {
    hide Walk, WallVerify, IsOpen, AnyOpen, InRing;
    if m == 0 {
      WalkStarts(startX, startY, ins);
    } else {
      WalkStaysInRing(startX, startY, ins, m - 1);
      EdgesAreOpen(startX, startY, ins, m - 1);
      var t, i := Walk(startX, startY, ins, m - 1), ins[32 * (m - 1)];
      StepInRing(i.xWalls, i.yWalls, t.x, t.y, Walk(startX, startY, ins, m).heading.dir);
    }
  }

  /** And one that starts on the board is back on it one tile after it has left it. */
  lemma {:induction false} WalkComesBack(startX: Index, startY: Index, ins: seq<Inputs>, m: nat)
    requires OnBoard(startX, startY) && 32 * m < |ins| + 32
    ensures var t := Walk(startX, startY, ins, m);
      && (OnBoard(t.x, t.y) || NextToBoard(t.x, t.y))
      && (32 * m < |ins| && !OnBoard(t.x, t.y) ==>
           OnBoard(Walk(startX, startY, ins, m + 1).x, Walk(startX, startY, ins, m + 1).y))
  {
    hide Walk, WallVerify, IsOpen, AnyOpen, OnBoard, NextToBoard;
    var t := Walk(startX, startY, ins, m);
    if m == 0 {
      WalkStarts(startX, startY, ins);
    } else {
      WalkComesBack(startX, startY, ins, m - 1);
      EdgesAreOpen(startX, startY, ins, m - 1);
      var from, i := Walk(startX, startY, ins, m - 1), ins[32 * (m - 1)];
      BoardInRing(from.x, from.y);
      StepInRing(i.xWalls, i.yWalls, from.x, from.y, t.heading.dir);
    }
    BoardInRing(t.x, t.y);
    if 32 * m < |ins| {
      EdgesAreOpen(startX, startY, ins, m);
      StepInRing(ins[32 * m].xWalls, ins[32 * m].yWalls, t.x, t.y, Walk(startX, startY, ins, m + 1).heading.dir);
    }
  }

  lemma BoardInRing(x: int, y: int)
    ensures OnBoard(x, y) || NextToBoard(x, y) ==> InRing(x, y)
  {
  }

  /** The pixels, at every clock. */
  lemma PixelsStayInRing(startX: Index, startY: Index, ins: seq<Inputs>)
    requires InRing(startX, startY)
    ensures Run(startX, startY, ins).posX <= 416 && Run(startX, startY, ins).posY <= 416
  {
    hide Walk, Run, WallVerify, IsOpen, AnyOpen, Pixel, InRing;
    FollowsWalk(startX, startY, ins);
    var m, j := |ins| / 32, |ins| % 32;
    WalkStaysInRing(startX, startY, ins, m);
    var t := Walk(startX, startY, ins, m);
    if j == 0 {
      assert t.x <= 13 && t.y <= 13 by { RingBounds(t.x, t.y); }
    } else {
      EdgesAreOpen(startX, startY, ins, m);
      WalkStaysInRing(startX, startY, ins, m + 1);
      hide Neighbour, Between;
      BetweenInRing(t, Walk(startX, startY, ins, m + 1), j);
    }
  }

  lemma RingBounds(x: int, y: int)
    requires InRing(x, y)
    ensures 0 <= x <= 13 && 0 <= y <= 13
  {
  }

  lemma BetweenInRing(t: Tile, to: Tile, j: nat)
    requires InRing(t.x, t.y) && InRing(to.x, to.y) && 0 < j < 32
    requires to.heading.Towards? && (to.x, to.y) == Neighbour(t.x, t.y, to.heading.dir)
    ensures var r := Between(t, to, j); r.posX <= 416 && r.posY <= 416
  {
  }

  // ---------------------------------------------------------------- staying on the board

  /** No opening leads out of the board, and no tile of its upper row is without openings. */
  ghost predicate NoWayOut(xWalls: Walls, yWalls: Walls) {
    forall x: Index, y: Index :: OnBoard(x, y) ==>
      var o := WallVerify(xWalls, yWalls, x, y);
      && (x == 1 ==> !o.left) && (x == 12 ==> !o.right) && (y == 12 ==> !o.down)
      && (y == 1 ==> !o.up && AnyOpen(o))
  }

  lemma StepOnBoard(xWalls: Walls, yWalls: Walls, x: Index, y: Index, d: Dir)
    requires NoWayOut(xWalls, yWalls) && OnBoard(x, y)
    requires var o := WallVerify(xWalls, yWalls, x, y); if AnyOpen(o) then IsOpen(o, d) else d == Up
    ensures OnBoard(Neighbour(x, y, d).0, Neighbour(x, y, d).1)
  {
    hide WallVerify;
  }

  /** A ghost that starts on a board without a way out never leaves it, even if the walls inside change. */
  lemma {:induction false} WalkStaysOnBoard(startX: Index, startY: Index, ins: seq<Inputs>, m: nat)
    requires OnBoard(startX, startY) && 32 * m < |ins| + 32
    requires forall k :: 0 <= k < |ins| ==> NoWayOut(ins[k].xWalls, ins[k].yWalls)
    ensures OnBoard(Walk(startX, startY, ins, m).x, Walk(startX, startY, ins, m).y)
  {
    hide Walk, WallVerify, NoWayOut, IsOpen, AnyOpen;
    if m == 0 {
      WalkStarts(startX, startY, ins);
    } else {
      WalkStaysOnBoard(startX, startY, ins, m - 1);
      EdgesAreOpen(startX, startY, ins, m - 1);
      var t, i := Walk(startX, startY, ins, m - 1), ins[32 * (m - 1)];
      StepOnBoard(i.xWalls, i.yWalls, t.x, t.y, Walk(startX, startY, ins, m).heading.dir);
    }
  }

  lemma PixelsStayOnBoard(startX: Index, startY: Index, ins: seq<Inputs>)
    requires OnBoard(startX, startY) && forall k :: 0 <= k < |ins| ==> NoWayOut(ins[k].xWalls, ins[k].yWalls)
    ensures var r := Run(startX, startY, ins); 32 <= r.posX <= 384 && 32 <= r.posY <= 384
  {
    hide Walk, Run, WallVerify, IsOpen, AnyOpen, NoWayOut, Pixel;
    FollowsWalk(startX, startY, ins);
    var m, j := |ins| / 32, |ins| % 32;
    WalkStaysOnBoard(startX, startY, ins, m);
    if j > 0 {
      EdgesAreOpen(startX, startY, ins, m);
      WalkStaysOnBoard(startX, startY, ins, m + 1);
      hide Neighbour, Between;
      BetweenOnBoard(Walk(startX, startY, ins, m), Walk(startX, startY, ins, m + 1), j);
    }
  }

  /** From reset a ghost can be made to take any open direction, by its generation bits or by the player. */
  function Lure(xWalls: Walls, yWalls: Walls, x: Index, y: Index, d: Dir): Inputs {
    var o := WallVerify(xWalls, yWalls, x, y);
    var all := o.left && o.right && o.up && o.down;
    var back := d == Left || (d == Right && !o.left) || (d == Up && !o.left && !o.right);
    var high := if all then d == Up || d == Down else back;
    var low := if all then d == Right || d == Down else back;
    Inputs(xWalls, yWalls, seq(16, k => if k % 2 == 1 then high else low),
           Minus(32 * x, if d == Left then 1 else if d == Right then 1023 else 0),
           Minus(32 * y, if d == Up then 1 else if d == Down then 1023 else 0))
  }

  lemma LureWorks(xWalls: Walls, yWalls: Walls, x: Index, y: Index, d: Dir)
    requires IsOpen(WallVerify(xWalls, yWalls, x, y), d)
    ensures Chosen(AtReset(x, y), Lure(xWalls, yWalls, x, y, d)) == d
  {
    hide WallVerify;
    GridAt(x, 0);
    GridAt(y, 0);
    MinusBack(32 * x);
    MinusBack(32 * y);
    hide Minus;
  }

  lemma MinusBack(a: U10)
    ensures Minus(a, Minus(a, 0)) == 0 && Minus(a, Minus(a, 1)) == 1 && Minus(a, Minus(a, 1023)) == 1023
  {
  }

  ghost predicate Walled(ins: seq<Inputs>, xWalls: Walls, yWalls: Walls) {
    forall k :: 0 <= k < |ins| ==> ins[k].xWalls == xWalls && ins[k].yWalls == yWalls
  }

  /** Over standing walls every ghost on the board stays there in every run, just when there is no way out. */
  lemma StaysJustWhenNoWayOut(xWalls: Walls, yWalls: Walls)
    ensures NoWayOut(xWalls, yWalls)
      <==> forall x: Index, y: Index, ins: seq<Inputs>, m: nat ::
             OnBoard(x, y) && Walled(ins, xWalls, yWalls) && 32 * m < |ins| + 32 ==>
               OnBoard(Walk(x, y, ins, m).x, Walk(x, y, ins, m).y)
  {
    if NoWayOut(xWalls, yWalls) {
      forall x: Index, y: Index, ins: seq<Inputs>, m: nat
        | OnBoard(x, y) && Walled(ins, xWalls, yWalls) && 32 * m < |ins| + 32
        ensures OnBoard(Walk(x, y, ins, m).x, Walk(x, y, ins, m).y)
      {
        WalkStaysOnBoard(x, y, ins, m);
      }
    } else {
      var x, y, i := WayOut(xWalls, yWalls);
      hide NoWayOut, Walk;
      assert Walled([i], xWalls, yWalls);
      assert !OnBoard(Walk(x, y, [i], 1).x, Walk(x, y, [i], 1).y);
    }
  }

  /** Where there is a way out, some ghost takes it on its first step. */
  lemma WayOut(xWalls: Walls, yWalls: Walls) returns (x: Index, y: Index, i: Inputs)
    requires !NoWayOut(xWalls, yWalls)
    ensures OnBoard(x, y) && i.xWalls == xWalls && i.yWalls == yWalls
    ensures !OnBoard(Walk(x, y, [i], 1).x, Walk(x, y, [i], 1).y)
  {
    hide Walk, Lure, Chosen, WallVerify;
    x, y :| OnBoard(x, y) &&
      var o := WallVerify(xWalls, yWalls, x, y);
      !((x == 1 ==> !o.left) && (x == 12 ==> !o.right) && (y == 12 ==> !o.down) && (y == 1 ==> !o.up && AnyOpen(o)));
    var o := WallVerify(xWalls, yWalls, x, y);
    var d := if x == 1 && o.left then Left else if x == 12 && o.right then Right
      else if y == 12 && o.down then Down else Up;
    i := Lure(xWalls, yWalls, x, y, d);
    LureWalls(xWalls, yWalls, x, y, d);
    GridAt(x, 0);
    GridAt(y, 0);
    if IsOpen(o, d) {
      LureWorks(xWalls, yWalls, x, y, d);
    } else {
      ChosenIsOpen(AtReset(x, y), i);
    }
    FirstStep(x, y, i);
  }

  lemma LureWalls(xWalls: Walls, yWalls: Walls, x: Index, y: Index, d: Dir)
    ensures Lure(xWalls, yWalls, x, y, d).xWalls == xWalls && Lure(xWalls, yWalls, x, y, d).yWalls == yWalls
  {
  }

  lemma FirstStep(x: Index, y: Index, i: Inputs)
    ensures var d := Chosen(AtReset(x, y), i); (Walk(x, y, [i], 1).x, Walk(x, y, [i], 1).y) == Neighbour(x, y, d)
  {
    hide Chosen;
    WalkStarts(x, y, [i]);
    StartsAtCorner(x, y);
    assert Walk(x, y, [i], 1) == Ahead(Walk(x, y, [i], 0), [i][0]);
  }

  lemma BetweenOnBoard(t: Tile, to: Tile, j: nat)
    requires OnBoard(t.x, t.y) && OnBoard(to.x, to.y) && 0 < j < 32
    requires to.heading.Towards? && (to.x, to.y) == Neighbour(t.x, t.y, to.heading.dir)
    ensures var r := Between(t, to, j); 32 <= r.posX <= 384 && 32 <= r.posY <= 384
  {
  }

  // ---------------------------------------------------------------- the maze of the game

  function MazeRowX(y: nat): (r: seq<bool>)
    ensures |r| == 12
  {
    if y == 0 || y >= 12 then [true, true, true, true, true, true, true, true, true, true, true, true]
    else if y == 5 then [true, false, true, true, false, false, false, false, true, true, false, true]
    else if y == 6 || y == 7 then
      [false, false, false, false, false, false, false, false, false, false, false, false]
    else [true, false, true, false, true, false, false, true, false, true, false, true]
  }

  function MazeRowY(y: nat): (r: seq<bool>)
    ensures |r| == 13
  {
    if y == 5 || y == 6 then
      [true, false, false, false, false, false, false, false, false, false, false, false, false]
    else if y == 0 || y == 4 || y == 7 || y == 11 then
      [true, true, false, false, false, false, false, false, false, false, false, true, true]
    else if y == 2 || y == 9 then
      [true, true, false, false, false, false, true, false, false, false, false, true, true]
    else [true, true, true, true, true, true, true, true, true, true, true, true, true]
  }

  const MAZE_X: Walls := seq(156, k requires 0 <= k < 156 => MazeRowX(k / 12)[k % 12])
  const MAZE_Y: Walls := seq(156, k requires 0 <= k < 156 => MazeRowY(k / 13)[k % 13])

  /** Inputs under which a ghost in the sixth row of the maze keeps to the right. */
  const RIGHTWARDS: Inputs := Inputs(MAZE_X, MAZE_Y, seq(16, k => k % 2 == 0), 448, 192)

  lemma InRow(width: nat, y: nat, x: nat)
    requires (width == 12 || width == 13) && x < width
    ensures (width * y + x) / width == y && (width * y + x) % width == x
  {
  }

  lemma MazeRow6(x: Index)
    requires 6 <= x <= 12
    ensures var o := WallVerify(MAZE_X, MAZE_Y, x, 6); o.left && o.right && o.down
  {
    InRow(13, 5, x - 1);
    InRow(13, 5, x);
    InRow(12, 6, x - 1);
    assert !MAZE_Y[13 * 5 + x - 1] && !MAZE_Y[13 * 5 + x] && !MAZE_X[12 * 6 + x - 1];
  }

  lemma RightStep(t: Tile)
    requires 6 <= t.x <= 12 && t.y == 6
    ensures Ahead(t, RIGHTWARDS) == Tile(t.x + 1, 6, Towards(Right), t.turns + 1)
  {
    hide WallVerify, Chosen;
    MazeRow6(t.x);
    KeepsRight(t);
  }

  lemma {:induction false} RunsRight(ins: seq<Inputs>, m: nat)
    requires m <= 7 && 32 * m < |ins| + 32 && forall k :: 0 <= k < |ins| ==> ins[k] == RIGHTWARDS
    ensures Walk(6, 6, ins, m).x == 6 + m && Walk(6, 6, ins, m).y == 6
  {
    hide Ahead;
    if m == 0 {
    } else {
      RunsRight(ins, m - 1);
      RightStep(Walk(6, 6, ins, m - 1));
    }
  }

  lemma KeepsRight(t: Tile)
    requires 6 <= t.x <= 12 && t.y == 6
    requires var o := WallVerify(MAZE_X, MAZE_Y, t.x, 6); o.left && o.right && o.down
    ensures Chosen(Corner(t), RIGHTWARDS) == Right
  {
    hide WallVerify;
    GridAt(t.x, 0);
    GridAt(t.y, 0);
    var k := t.turns % 8;
    assert RIGHTWARDS.generation[2 * k] && !RIGHTWARDS.generation[2 * k + 1];
  }

  /** The maze has a way out: the outer wall is open at the right end of its sixth row, and there is a run in
      which a ghost that starts where the game starts it steps off the board. */
  lemma MazeHasWayOut()
    ensures !NoWayOut(MAZE_X, MAZE_Y)
    ensures exists ins: seq<Inputs> :: |ins| == 224 && Walled(ins, MAZE_X, MAZE_Y) && Walk(6, 6, ins, 7).x == 13
  {
    hide WallVerify, Walk;
    OpenAtTheRight();
    hide NoWayOut;
    var ins := seq(224, _ => RIGHTWARDS);
    RunsRight(ins, 7);
    assert Walled(ins, MAZE_X, MAZE_Y);
  }

  lemma OpenAtTheRight()
    ensures !NoWayOut(MAZE_X, MAZE_Y)
  {
    MazeRow6(12);
    hide WallVerify;
    assert OnBoard(12, 6);
  }

  // ---------------------------------------------------------------- pursuit

  /** The distance of two coordinates on a ring of 1024. */
  function Apart(a: U10, b: U10): nat {
    if Minus(a, b) <= 512 then Minus(a, b) else 1024 - Minus(a, b)
  }

  function Distance(x: U10, y: U10, i: Inputs): nat { Apart(x, i.playerX) + Apart(y, i.playerY) }

  predicate Nearer(r: Regs, i: Inputs, d: Dir) {
    Distance(Plus(r.posX, UnitX(d)), Plus(r.posY, UnitY(d)), i) < Distance(r.posX, r.posY, i)
  }

  predicate ThreeWay(o: Openings) {
    || (o.left && o.right && o.up && !o.down) || (o.left && o.right && !o.up && o.down)
    || (o.left && !o.right && o.up && o.down) || (!o.left && o.right && o.up && o.down)
  }

  /** Nearer, in terms of the differences that the turn logic compares. */
  predicate Closes(xa: U10, ya: U10, d: Dir) {
    match d
    case Left => 0 < xa <= 512
    case Right => 512 <= xa
    case Up => 0 < ya <= 512
    case Down => 512 <= ya
  }

  lemma NearerWhen(r: Regs, i: Inputs, d: Dir)
    ensures Nearer(r, i, d) <==> Closes(Minus(r.posX, i.playerX), Minus(r.posY, i.playerY), d)
  {
    ApartStep(r.posX, i.playerX);
    ApartStep(r.posY, i.playerY);
    hide Plus, Minus, Apart;
  }

  lemma ApartStep(a: U10, b: U10)
    ensures Plus(a, 0) == a
    ensures Apart(Plus(a, 1), b) < Apart(a, b) <==> 512 <= Minus(a, b)
    ensures Apart(Plus(a, 1023), b) < Apart(a, b) <==> 0 < Minus(a, b) <= 512
  {
  }

  lemma TurnPursues(o: Openings, select: nat, inertiaX: U10, inertiaY: U10, xa: U10, ya: U10)
    requires ThreeWay(o)
    ensures ((exists d :: IsOpen(o, d) && Closes(xa, ya, d))
             ==> Closes(xa, ya, Turn(o, select, inertiaX, inertiaY, xa, ya)))
      <==> (!(!o.down && xa == 0 && ya == 512) && !(!o.right && xa == 512 && ya == 0))
  {
    if !o.down && xa == 0 && ya == 512 {
      assert IsOpen(o, Up) && Closes(xa, ya, Up);
    } else if !o.right && xa == 512 && ya == 0 {
      assert IsOpen(o, Left) && Closes(xa, ya, Left);
    } else {
      forall d | IsOpen(o, d) && Closes(xa, ya, d)
        ensures Closes(xa, ya, Turn(o, select, inertiaX, inertiaY, xa, ya))
      {
        NothingBetter(o, select, inertiaX, inertiaY, xa, ya, d);
      }
    }
  }

  lemma NothingBetter(o: Openings, select: nat, inertiaX: U10, inertiaY: U10, xa: U10, ya: U10, d: Dir)
    requires ThreeWay(o) && IsOpen(o, d) && Closes(xa, ya, d)
    requires !(!o.down && xa == 0 && ya == 512) && !(!o.right && xa == 512 && ya == 0)
    ensures Closes(xa, ya, Turn(o, select, inertiaX, inertiaY, xa, ya))
  {
  }

  /** At a three-way junction the ghost gets nearer to a player who stands still whenever some open
      direction would, except when the player is exactly half a turn away in one coordinate, level in the
      other, and the opening that is missing is down or right. */
  lemma PursuitAtThreeWays(r: Regs, i: Inputs)
    requires r.count < 8 && ThreeWay(WallVerify(i.xWalls, i.yWalls, r.posX / 32, r.posY / 32))
    ensures var o := WallVerify(i.xWalls, i.yWalls, r.posX / 32, r.posY / 32);
      var xa, ya := Minus(r.posX, i.playerX), Minus(r.posY, i.playerY);
      ((exists d :: IsOpen(o, d) && Nearer(r, i, d)) ==> Nearer(r, i, Chosen(r, i)))
      <==> (!(!o.down && xa == 0 && ya == 512) && !(!o.right && xa == 512 && ya == 0))
  {
    hide Nearer, WallVerify, Select, Minus, Turn, IsOpen, Closes, ThreeWay;
    var o := WallVerify(i.xWalls, i.yWalls, r.posX / 32, r.posY / 32);
    forall d ensures Nearer(r, i, d) <==> Closes(Minus(r.posX, i.playerX), Minus(r.posY, i.playerY), d) {
      NearerWhen(r, i, d);
    }
    TurnPursues(o, Select(i.generation, r.count), r.inertiaX, r.inertiaY,
                Minus(r.posX, i.playerX), Minus(r.posY, i.playerY));
  }

  /** At a three-way junction an open direction leads nearer and the chosen one does not. */
  ghost predicate Misses(r: Regs, i: Inputs, d: Dir) {
    && r.count < 8 && ThreeWay(WallVerify(i.xWalls, i.yWalls, r.posX / 32, r.posY / 32))
    && IsOpen(WallVerify(i.xWalls, i.yWalls, r.posX / 32, r.posY / 32), d)
    && Nearer(r, i, d) && !Nearer(r, i, Chosen(r, i))
  }

  /** The two failures are real: a player half a turn below a junction without a way down, and half a turn
      beside one without a way right. The nearer step would be up, and left, but is not taken. */
  lemma PursuitFailsAtHalfTurn()
    ensures exists r: Regs, i: Inputs :: Misses(r, i, Up)
    ensures exists r: Regs, i: Inputs :: Misses(r, i, Left)
  {
    var none: Walls := seq(156, _ => false);
    var bits: Bits16 := seq(16, _ => false);
    var r := Regs(192, 192, 0, 0, 0);
    var noDown := Inputs(none[77 := true], none, bits, 192, 704);
    var noRight := Inputs(none, none[71 := true], bits, 704, 192);
    assert WallVerify(noDown.xWalls, none, 6, 6) == Openings(true, true, true, false);
    assert WallVerify(none, noRight.yWalls, 6, 6) == Openings(true, false, true, true);
    hide WallVerify;
    NearerWhen(r, noDown, Up);
    NearerWhen(r, noDown, Chosen(r, noDown));
    NearerWhen(r, noRight, Left);
    NearerWhen(r, noRight, Chosen(r, noRight));
    assert Chosen(r, noDown) == Right && Chosen(r, noRight) == Down;
    hide Nearer, Chosen;
    assert Misses(r, noDown, Up) && Misses(r, noRight, Left);
  }

  /** The Manhattan distance between the ghost and the player. */
  function Manhattan(x: U10, y: U10, i: Inputs): nat {
    (if x < i.playerX then i.playerX - x else x - i.playerX) + (if y < i.playerY then i.playerY - y else y - i.playerY)
  }

  predicate PlainlyNearer(r: Regs, i: Inputs, d: Dir) {
    Manhattan(Plus(r.posX, UnitX(d)), Plus(r.posY, UnitY(d)), i) < Manhattan(r.posX, r.posY, i)
  }

  predicate HalfTurn(r: Regs, i: Inputs) {
    -512 < r.posX - i.playerX < 512 && -512 < r.posY - i.playerY < 512
  }

  /** Within half a turn the ring and the plane agree on what is nearer, even where the registers wrap. */
  lemma PlaneIsRing(r: Regs, i: Inputs, d: Dir)
    requires HalfTurn(r, i)
    ensures Manhattan(r.posX, r.posY, i) == Distance(r.posX, r.posY, i)
    ensures PlainlyNearer(r, i, d) <==> Nearer(r, i, d)
  {
    NearerWhen(r, i, d);
    hide Nearer;
  }

  /** At every three-way junction within half a turn of a player who stands still, the ghost's step reduces
      the Manhattan distance whenever some open direction would. */
  lemma PursuitNearby(r: Regs, i: Inputs, d: Dir)
    requires r.count < 8 && ThreeWay(WallVerify(i.xWalls, i.yWalls, r.posX / 32, r.posY / 32)) && HalfTurn(r, i)
    requires IsOpen(WallVerify(i.xWalls, i.yWalls, r.posX / 32, r.posY / 32), d) && PlainlyNearer(r, i, d)
    ensures PlainlyNearer(r, i, Chosen(r, i))
  {
    PlaneIsRing(r, i, d);
    PlaneIsRing(r, i, Chosen(r, i));
    PursuitAtThreeWays(r, i);
    hide Nearer, PlainlyNearer, Chosen, WallVerify, IsOpen;
  }

  /** The arm of a three-way junction that has no arm opposite to it, and the two others in their order. */
  function Stem(o: Openings): Dir {
    if !o.down then Up else if !o.up then Down else if !o.right then Left else Right
  }

  function FirstArm(o: Openings): Dir { if !o.down || !o.up then Left else Up }

  function SecondArm(o: Openings): Dir { if !o.down || !o.up then Right else Down }

  /** At a three-way junction within half a turn of the player the ghost takes the arm without an opposite just when
      that leads nearer; otherwise the left or upper one of the two others just when that leads nearer; otherwise
      the last one. */
  lemma ChoiceAtThreeWays(r: Regs, i: Inputs)
    requires r.count < 8 && ThreeWay(WallVerify(i.xWalls, i.yWalls, r.posX / 32, r.posY / 32)) && HalfTurn(r, i)
    ensures var o := WallVerify(i.xWalls, i.yWalls, r.posX / 32, r.posY / 32);
      Chosen(r, i) == if PlainlyNearer(r, i, Stem(o)) then Stem(o)
                      else if PlainlyNearer(r, i, FirstArm(o)) then FirstArm(o) else SecondArm(o)
  {
    var o := WallVerify(i.xWalls, i.yWalls, r.posX / 32, r.posY / 32);
    var xa, ya := Minus(r.posX, i.playerX), Minus(r.posY, i.playerY);
    PlaneIsRing(r, i, Stem(o));
    PlaneIsRing(r, i, FirstArm(o));
    NearerWhen(r, i, Stem(o));
    NearerWhen(r, i, FirstArm(o));
    assert xa != 512 && ya != 512;
    hide PlainlyNearer, Nearer, WallVerify, Select, Minus;
  }

  /** On the board and the ring half a turn is never reached: in every run, at every three-way junction, a ghost
      with the player's coordinates below 512 gets nearer whenever some open direction would. */
  lemma PursuitInEveryRun(startX: Index, startY: Index, ins: seq<Inputs>, m: nat, d: Dir)
    requires InRing(startX, startY) && 32 * m < |ins| && ins[32 * m].playerX < 512 && ins[32 * m].playerY < 512
    requires var r, i := Run(startX, startY, ins[..32 * m]), ins[32 * m];
      var o := WallVerify(i.xWalls, i.yWalls, r.posX / 32, r.posY / 32);
      ThreeWay(o) && IsOpen(o, d) && PlainlyNearer(r, i, d)
    ensures var r, i := Run(startX, startY, ins[..32 * m]), ins[32 * m];
      PlainlyNearer(r, i, Chosen(r, i))
  {
    hide Run, WallVerify, ThreeWay, IsOpen, PlainlyNearer, Chosen;
    PixelsStayInRing(startX, startY, ins[..32 * m]);
    PursuitNearby(Run(startX, startY, ins[..32 * m]), ins[32 * m], d);
  }

  lemma {:induction false} WalkUpTo(startX: Index, startY: Index, ins: seq<Inputs>, k: nat, m: nat)
    requires 32 * m <= k <= |ins|
    ensures Walk(startX, startY, ins[..k], m) == Walk(startX, startY, ins, m)
  {
    hide Ahead;
    if m > 0 {
      WalkUpTo(startX, startY, ins, k, m - 1);
    }
  }

  /** And there the arm it takes is the one that ChoiceAtThreeWays says. */
  lemma ChoiceInEveryRun(startX: Index, startY: Index, ins: seq<Inputs>, m: nat)
    requires InRing(startX, startY) && 32 * m < |ins| && ins[32 * m].playerX < 512 && ins[32 * m].playerY < 512
    requires var t, i := Walk(startX, startY, ins, m), ins[32 * m]; ThreeWay(WallVerify(i.xWalls, i.yWalls, t.x, t.y))
    ensures var t, i := Walk(startX, startY, ins, m), ins[32 * m];
      var o, r := WallVerify(i.xWalls, i.yWalls, t.x, t.y), Run(startX, startY, ins[..32 * m]);
      Walk(startX, startY, ins, m + 1).heading
        == Towards(if PlainlyNearer(r, i, Stem(o)) then Stem(o)
                   else if PlainlyNearer(r, i, FirstArm(o)) then FirstArm(o) else SecondArm(o))
  {
    hide Walk, Run, WallVerify, ThreeWay, PlainlyNearer, Chosen, Ahead;
    var t, i, before := Walk(startX, startY, ins, m), ins[32 * m], ins[..32 * m];
    PixelsStayInRing(startX, startY, before);
    FollowsWalk(startX, startY, before);
    WalkUpTo(startX, startY, ins, 32 * m, m);
    WalkHeads(startX, startY, ins, m);
    AheadHeads(t, i);
    CornerTile(t);
    ChoiceAtThreeWays(Run(startX, startY, before), i);
  }

  // ---------------------------------------------------------------- corridors and corners

  predicate TwoWay(o: Openings) {
    (if o.left then 1 else 0) + (if o.right then 1 else 0) + (if o.up then 1 else 0) + (if o.down then 1 else 0) == 2
  }

  /** Where only the way back and one other way are open, a ghost turns back exactly when its two
      generation bits say 3; otherwise it follows the corridor or turns the corner. */
  lemma TurnsBackOnThree(t: Tile, i: Inputs)
    requires t.heading.Towards? && TwoWay(WallVerify(i.xWalls, i.yWalls, t.x, t.y))
    requires IsOpen(WallVerify(i.xWalls, i.yWalls, t.x, t.y), Opposite(t.heading.dir))
    ensures Chosen(Corner(t), i) == Opposite(t.heading.dir) <==> Select(i.generation, t.turns % 8) == 3
  {
    hide WallVerify, Select, Minus;
    GridAt(t.x, 0);
    GridAt(t.y, 0);
  }

  /** A ghost that has just been reset goes the first of two open ways, in the order left, right, up, down, when its
      bits say 3, and the second otherwise. */
  lemma StartsOnThree(t: Tile, i: Inputs, first: Dir, second: Dir)
    requires t.heading.Still? && TwoWay(WallVerify(i.xWalls, i.yWalls, t.x, t.y))
    requires IsOpen(WallVerify(i.xWalls, i.yWalls, t.x, t.y), first)
    requires IsOpen(WallVerify(i.xWalls, i.yWalls, t.x, t.y), second)
    requires first == Left || (first == Right && second != Left) || (first == Up && second == Down)
    requires first != second
    ensures Chosen(Corner(t), i) == if Select(i.generation, t.turns % 8) == 3 then first else second
  {
    hide WallVerify, Select, Minus;
    GridAt(t.x, 0);
    GridAt(t.y, 0);
  }

  /** At a full crossing the upper bit of the pair picks the axis and the lower one the side. */
  lemma CrossingFollowsBits(t: Tile, i: Inputs)
    requires WallVerify(i.xWalls, i.yWalls, t.x, t.y) == Openings(true, true, true, true)
    ensures var d, k := Chosen(Corner(t), i), 2 * (t.turns % 8);
      && (d == Left || d == Right <==> !i.generation[k + 1])
      && (d == Right || d == Down <==> i.generation[k])
  {
    hide WallVerify, Minus;
    GridAt(t.x, 0);
    GridAt(t.y, 0);
  }

  ghost predicate SameWalls(ins: seq<Inputs>) {
    forall k :: 0 <= k < |ins| ==> ins[k].xWalls == ins[0].xWalls && ins[k].yWalls == ins[0].yWalls
  }

  /** A passage between two tiles is open at both ends, and one of them is on the board. */
  ghost predicate Passage(xWalls: Walls, yWalls: Walls, from: Tile, to: Tile) {
    && to.heading.Towards?
    && IsOpen(WallVerify(xWalls, yWalls, from.x, from.y), to.heading.dir)
    && IsOpen(WallVerify(xWalls, yWalls, to.x, to.y), Opposite(to.heading.dir))
    && (OnBoard(from.x, from.y) || (NextToBoard(from.x, from.y) && OnBoard(to.x, to.y)))
  }

  lemma PassageFromBoard(xWalls: Walls, yWalls: Walls, x: Index, y: Index, d: Dir)
    requires OnBoard(x, y) && IsOpen(WallVerify(xWalls, yWalls, x, y), d)
    ensures var (x', y') := Neighbour(x, y, d); IsOpen(WallVerify(xWalls, yWalls, x', y'), Opposite(d))
  {
    var (x', y') := Neighbour(x, y, d);
    if OnBoard(x', y') {
      PassagesGoBothWays(xWalls, yWalls, x, y, d);
    }
  }

  /** One step on: from the board through an opening, or from the ring back through the one just passed. */
  lemma PassageOn(xWalls: Walls, yWalls: Walls, from: Tile, t: Tile, to: Tile)
    requires Passage(xWalls, yWalls, from, t) && (t.x, t.y) == Neighbour(from.x, from.y, t.heading.dir)
    requires to.heading.Towards? && (to.x, to.y) == Neighbour(t.x, t.y, to.heading.dir)
    requires IsOpen(WallVerify(xWalls, yWalls, t.x, t.y), to.heading.dir)
    ensures Passage(xWalls, yWalls, t, to)
  {
    hide WallVerify;
    if OnBoard(t.x, t.y) {
      PassageFromBoard(xWalls, yWalls, t.x, t.y, to.heading.dir);
    } else {
      BoardInRing(from.x, from.y);
      StepInRing(xWalls, yWalls, from.x, from.y, t.heading.dir);
      BoardInRing(t.x, t.y);
      StepInRing(xWalls, yWalls, t.x, t.y, to.heading.dir);
    }
  }

  /** While the walls stand, whatever they are, the way a ghost came is open behind it, if it started on a tile
      of the board that has an opening. */
  lemma {:induction false} WayBackIsOpen(startX: Index, startY: Index, ins: seq<Inputs>, m: nat)
    requires OnBoard(startX, startY) && 0 < m && 32 * m < |ins| && SameWalls(ins)
    requires AnyOpen(WallVerify(ins[0].xWalls, ins[0].yWalls, startX, startY))
    ensures Passage(ins[0].xWalls, ins[0].yWalls, Walk(startX, startY, ins, m - 1), Walk(startX, startY, ins, m))
  {
    hide Walk, WallVerify, IsOpen, AnyOpen, Passage, OnBoard;
    EdgesAreOpen(startX, startY, ins, m - 1);
    var t, to, i := Walk(startX, startY, ins, m - 1), Walk(startX, startY, ins, m), ins[32 * (m - 1)];
    assert i.xWalls == ins[0].xWalls && i.yWalls == ins[0].yWalls;
    if m == 1 {
      WalkStarts(startX, startY, ins);
      PassageFromBoard(i.xWalls, i.yWalls, t.x, t.y, to.heading.dir);
      PassageIs(i.xWalls, i.yWalls, t, to);
    } else {
      WayBackIsOpen(startX, startY, ins, m - 1);
      EdgesAreOpen(startX, startY, ins, m - 2);
      PassageLeadsBack(i.xWalls, i.yWalls, Walk(startX, startY, ins, m - 2), t);
      PassageOn(i.xWalls, i.yWalls, Walk(startX, startY, ins, m - 2), t, to);
    }
  }

  lemma PassageIs(xWalls: Walls, yWalls: Walls, from: Tile, to: Tile)
    requires to.heading.Towards? && OnBoard(from.x, from.y)
    requires IsOpen(WallVerify(xWalls, yWalls, from.x, from.y), to.heading.dir)
    requires IsOpen(WallVerify(xWalls, yWalls, to.x, to.y), Opposite(to.heading.dir))
    ensures Passage(xWalls, yWalls, from, to)
  {
  }

  lemma PassageLeadsBack(xWalls: Walls, yWalls: Walls, from: Tile, to: Tile)
    requires Passage(xWalls, yWalls, from, to)
    ensures to.heading.Towards? && IsOpen(WallVerify(xWalls, yWalls, to.x, to.y), Opposite(to.heading.dir))
    ensures AnyOpen(WallVerify(xWalls, yWalls, to.x, to.y))
  {
    hide WallVerify;
  }

  /** So in every run over standing walls a ghost in a corridor or a corner turns back exactly when the bit
      pair of that junction says 3, and follows the corridor or the corner otherwise. */
  lemma TurnsBackInEveryRun(startX: Index, startY: Index, ins: seq<Inputs>, m: nat)
    requires OnBoard(startX, startY) && 0 < m && 32 * m < |ins| && SameWalls(ins)
    requires AnyOpen(WallVerify(ins[0].xWalls, ins[0].yWalls, startX, startY))
    ensures var t, to, i := Walk(startX, startY, ins, m), Walk(startX, startY, ins, m + 1), ins[32 * m];
      && t.heading.Towards? && to.heading.Towards?
      && IsOpen(WallVerify(i.xWalls, i.yWalls, t.x, t.y), Opposite(t.heading.dir))
      && IsOpen(WallVerify(i.xWalls, i.yWalls, t.x, t.y), to.heading.dir)
      && (TwoWay(WallVerify(i.xWalls, i.yWalls, t.x, t.y)) ==>
           (to.heading.dir == Opposite(t.heading.dir) <==> Select(i.generation, m % 8) == 3))
  {
    hide Walk, WallVerify, Passage, Chosen, Select, Corner;
    WayBackIsOpen(startX, startY, ins, m);
    EdgesAreOpen(startX, startY, ins, m);
    WalkHeads(startX, startY, ins, m);
    var t, i := Walk(startX, startY, ins, m), ins[32 * m];
    assert i.xWalls == ins[0].xWalls && i.yWalls == ins[0].yWalls;
    PassageLeadsBack(i.xWalls, i.yWalls, Walk(startX, startY, ins, m - 1), t);
    AheadHeads(t, i);
    hide Ahead;
    if TwoWay(WallVerify(i.xWalls, i.yWalls, t.x, t.y)) {
      TurnsBackOnThree(t, i);
    }
  }

  // ---------------------------------------------------------------- the registers

  class Ghost {
    var posX: U10
    var posY: U10
    var inertiaX: U10
    var inertiaY: U10
    var generationCount: nat
    ghost var startX: Index
    ghost var startY: Index
    ghost var clocked: seq<Inputs>

    ghost function Now(): Regs
      reads this
    {
      Regs(posX, posY, inertiaX, inertiaY, generationCount)
    }

    /** The registers are those of a run since the last reset. */
    ghost predicate Valid()
      reads this
    {
      Now() == Run(startX, startY, clocked)
    }

    constructor (x: Index, y: Index)
      ensures Valid() && startX == x && startY == y && clocked == []
    {
      posX, posY, inertiaX, inertiaY, generationCount := 32 * x, 32 * y, 0, 0, 0;
      startX, startY, clocked := x, y, [];
    }

    method Reset(x: Index, y: Index)
      modifies this
      ensures Valid() && startX == x && startY == y && clocked == []
    {
      inertiaX, inertiaY, posX, posY, generationCount := 0, 0, 32 * x, 32 * y, 0;
      startX, startY, clocked := x, y, [];
    }

    /** The clock edge. */
    method Clock(i: Inputs)
      requires Valid()
      modifies this
      ensures Valid() && startX == old(startX) && startY == old(startY) && clocked == old(clocked) + [i]
      ensures OnePixel(old(Now()), Now())
    {
      AlwaysOnePixel(startX, startY, clocked, i);
      assert (clocked + [i])[..|clocked|] == clocked;
      hide Chosen, OnePixel, OnGrid, Plus, UnitX, UnitY;
      if Crossroad(Regs(posX, posY, inertiaX, inertiaY, generationCount)) {
        var d := Chosen(Regs(posX, posY, inertiaX, inertiaY, generationCount), i);
        inertiaX, inertiaY := UnitX(d), UnitY(d);
        generationCount := if generationCount == 7 then 0 else generationCount + 1;
      }
      posX := Plus(posX, inertiaX);
      posY := Plus(posY, inertiaY);
      clocked := clocked + [i];
    }
  }
}
