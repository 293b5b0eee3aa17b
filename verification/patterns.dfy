/**
 * What the rules of Life do to well-known patterns on the bounded grid:
 * a still life, an oscillator, and the lifecycle of the `updated` signal
 * seen by a client of the engine.
 */
module Patterns {
  import opened Life
  import opened Engine

  /** A 2x2 block in the top-left corner of a 3x3 grid. */
  function Block(): Generation {
    [[1, 1, 0],
     [1, 1, 0],
     [0, 0, 0]]
  }

  /**
   * A horizontal blinker filling the middle row of a 3x3 grid. It behaves
   * as on an unbounded plane only because the edges do not wrap.
   */
  function BlinkerH(): Generation {
    [[0, 0, 0],
     [1, 1, 1],
     [0, 0, 0]]
  }

  /** The same blinker, vertical. */
  function BlinkerV(): Generation {
    [[0, 1, 0],
     [0, 1, 0],
     [0, 1, 0]]
  }

  /** Each cell of the block's grid keeps its state. */
  lemma BlockCell(r: int, c: int)
    requires 0 <= r < 3 && 0 <= c < 3
    ensures NextCell(Block(), r, c) == Block()[r][c]
  {
    NeighborCountIsMooreCount(Block(), r, c);
  }

  /** The block is a still life: a tick leaves it as it is and reports no change. */
  lemma {:induction false} BlockIsStill()
    ensures NextGen(Block()) == Block()
    ensures !Changes(Block())
  {
    var g := Block();
    forall r, c | 0 <= r < 3 && 0 <= c < 3 ensures NextGen(g)[r][c] == g[r][c] {
      BlockCell(r, c);
    }
    SameCells(NextGen(g), g);
    ChangesIffDiffers(g);
  }

  /** Each cell of the horizontal blinker becomes the vertical one's. */
  lemma BlinkerHCell(r: int, c: int)
    requires 0 <= r < 3 && 0 <= c < 3
    ensures NextCell(BlinkerH(), r, c) == BlinkerV()[r][c]
  {
    NeighborCountIsMooreCount(BlinkerH(), r, c);
  }

  /** Each cell of the vertical blinker becomes the horizontal one's. */
  lemma BlinkerVCell(r: int, c: int)
    requires 0 <= r < 3 && 0 <= c < 3
    ensures NextCell(BlinkerV(), r, c) == BlinkerH()[r][c]
  {
    NeighborCountIsMooreCount(BlinkerV(), r, c);
  }

  /** A tick turns the horizontal blinker vertical. */
  lemma {:induction false} BlinkerTurnsVertical()
    ensures NextGen(BlinkerH()) == BlinkerV()
  {
    var h, v := BlinkerH(), BlinkerV();
    forall r, c | 0 <= r < 3 && 0 <= c < 3 ensures NextGen(h)[r][c] == v[r][c] {
      BlinkerHCell(r, c);
    }
    SameCells(NextGen(h), v);
  }

  /** A tick turns the vertical blinker horizontal. */
  lemma {:induction false} BlinkerTurnsHorizontal()
    ensures NextGen(BlinkerV()) == BlinkerH()
  {
    var h, v := BlinkerH(), BlinkerV();
    forall r, c | 0 <= r < 3 && 0 <= c < 3 ensures NextGen(v)[r][c] == h[r][c] {
      BlinkerVCell(r, c);
    }
    SameCells(NextGen(v), h);
  }

  /** Toggling the middle row of a dead 3x3 grid sets up the horizontal blinker. */
  lemma {:induction false} ToggledRowIsBlinker()
    ensures Toggled(Toggled(Toggled(Dead(3, 3), 1, 0), 1, 1), 1, 2) == BlinkerH()
  {
    var g := Toggled(Toggled(Toggled(Dead(3, 3), 1, 0), 1, 1), 1, 2);
    SameCells(g, BlinkerH());
  }

  /** The blinker has period two, and every tick of it changes the grid. */
  lemma {:induction false} BlinkerOscillates()
    ensures NextGen(NextGen(BlinkerH())) == BlinkerH()
    ensures BlinkerH() != BlinkerV()
    ensures Changes(BlinkerH()) && Changes(BlinkerV())
  {
    BlinkerTurnsVertical();
    BlinkerTurnsHorizontal();
    assert BlinkerH()[1][0] != BlinkerV()[1][0];
    ChangesIffDiffers(BlinkerH());
    ChangesIffDiffers(BlinkerV());
  }

  /**
   * A client's view of `updated`: it reads -1 on a new game and stays -1
   * through toggles and a reset; the first tick, on an all-dead grid,
   * makes it 0.
   */
  method UpdatedLifecycle() returns (created: int, toggled: int, reset: int, ticked: int)
    ensures created == NeverTicked && toggled == NeverTicked && reset == NeverTicked
    ensures ticked == Unchanged
  {
    var game := new GameOfLife(3, 3);
    created := game.Updated();
    var state := game.Toggle(1, 1);
    toggled := game.Updated();
    game.Reset();
    reset := game.Updated();
    DeadStaysDead(3, 3);
    game.Tick();
    ticked := game.Updated();
  }

  /**
   * A game created with no rows and a negative column count still reports
   * the absolute column count, although its grid holds no cells.
   */
  method EmptyGridDimensions() returns (m: int, n: int)
    ensures m == 0 && n == 5
  {
    var game := new GameOfLife(0, -5);
    m := game.GetM();
    n := game.GetN();
  }

  /** A new 3x3 game whose middle row has been toggled alive: the horizontal blinker. */
  method NewBlinkerGame() returns (game: GameOfLife)
    ensures fresh(game) && fresh(game.gameGrid) && game.Valid()
    ensures game.Contents() == BlinkerH() && game.Updated() == NeverTicked
  {
    game := new GameOfLife(3, 3);
    var left := game.Toggle(1, 0);
    var middle := game.Toggle(1, 1);
    var right := game.Toggle(1, 2);
    ToggledRowIsBlinker();
  }

  /**
   * A blinker driven through the engine's methods: a tick turns it
   * vertical and reports a change, and a second tick turns it back and
   * reports a change again.
   */
  method BlinkerGame() returns (first: int, second: int)
    ensures first == Changed && second == Changed
  {
    var game := NewBlinkerGame();
    BlinkerOscillates();
    BlinkerTurnsVertical();
    game.Tick();
    first := game.Updated();
    assert game.Contents() == BlinkerV();
    game.Tick();
    second := game.Updated();
  }
}
