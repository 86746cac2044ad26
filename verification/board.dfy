/** The world state of the falling-block game: a fixed board, the player's
    column on the row just above the floor, the falling blocks, the score and
    the running flag. Rows are numbered from 0 at the top; row `height - 1` is
    the floor and row `height - 2` is the player's row. */
module Board {

  /** One falling block: column `x`, row `y`. */
  datatype Block = Block(x: int, y: int)

  /** The whole shared world. `width` and `height` are set once and never
      change; every other field is mutated by the input, tick and render steps. */
  datatype GameState = GameState(
    width: int,
    height: int,
    playerX: int,
    running: bool,
    blocks: seq<Block>,
    score: int)

  const DefaultWidth: int := 40
  const DefaultHeight: int := 20

  /** A column strictly between the two side walls. */
  predicate InPlayfield(g: GameState, x: int) {
    1 <= x <= g.width - 2
  }

  /** The invariant every state reachable from `Init` keeps: a board wide
      enough to hold a player, the player between the walls, every block
      between the walls and above the floor (and below the spawn row, which a
      block leaves in the tick that creates it), and a non-negative score. */
  predicate Inv(g: GameState) {
    && g.width >= 3
    && g.height >= 2
    && InPlayfield(g, g.playerX)
    && (forall b :: b in g.blocks ==> InPlayfield(g, b.x) && 2 <= b.y < g.height - 1)
    && g.score >= 0
  }

  /** The state a session starts in: a 40 by 20 board, the player centred, no
      blocks, score 0, running. */
  function Init(): (g: GameState)
    ensures g.width == DefaultWidth && g.height == DefaultHeight
    ensures g.playerX == g.width / 2
    ensures g.running && g.blocks == [] && g.score == 0
    ensures Inv(g)
  {
    GameState(DefaultWidth, DefaultHeight, DefaultWidth / 2, true, [], 0)
  }
}
