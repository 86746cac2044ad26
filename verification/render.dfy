/** Building the character buffer the render loop prints: `height` rows of
    `width` characters, the floor, the player and the falling blocks. Clearing
    the console and printing are not modelled; the buffer is the result. */
module Render {
  import opened Board

  /** The indices the source writes are in range: a floor row and a player row
      exist, the player's column is on the board, and so is every block that
      is drawn (the ones above the floor). */
  predicate Drawable(g: GameState) {
    && g.height >= 2
    && 0 <= g.playerX < g.width
    && (forall b :: b in g.blocks && b.y < g.height - 1 ==> 0 <= b.y && 0 <= b.x < g.width)
  }

  /** What the finished buffer shows in row `r`, column `c`: the floor is all
      wall; above it a block wins over the player, and the player over blank. */
  function Cell(g: GameState, r: int, c: int): char {
    if r == g.height - 1 then '#'
    else if Block(c, r) in g.blocks then '*'
    else if r == g.height - 2 && c == g.playerX then 'P'
    else ' '
  }

  /** The rows of a well-formed buffer all have `width` characters. */
  predicate Rectangular(buf: seq<seq<char>>, width: int) {
    forall r :: 0 <= r < |buf| ==> |buf[r]| == width
  }

  /** The buffer with one character replaced. */
  function Put(buf: seq<seq<char>>, r: int, c: int, ch: char): (res: seq<seq<char>>)
    requires 0 <= r < |buf| && 0 <= c < |buf[r]|
    ensures |res| == |buf| && |res[r]| == |buf[r]|
    ensures forall i, j :: 0 <= i < |buf| && 0 <= j < |buf[i]| ==>
              |res[i]| == |buf[i]| && res[i][j] == (if i == r && j == c then ch else buf[i][j])
  {
    buf[r := buf[r][c := ch]]
  }

  /** The render step: a blank `height` by `width` buffer, the floor row set to
      wall, the player put on the row above it, then every block above the
      floor drawn in list order, overwriting the player if they coincide. */
  method Draw(g: GameState) returns (buf: seq<seq<char>>)
    requires Drawable(g)
    ensures |buf| == g.height && Rectangular(buf, g.width)
    ensures forall r, c :: 0 <= r < g.height && 0 <= c < g.width ==> buf[r][c] == Cell(g, r, c)
    ensures buf[g.height - 1] == seq(g.width, _ => '#')
    ensures buf[g.height - 2][g.playerX] == (if Block(g.playerX, g.height - 2) in g.blocks then '*' else 'P')
  {
    buf := seq(g.height, _ => seq(g.width, _ => ' '));
    buf := buf[g.height - 1 := seq(g.width, _ => '#')];
    buf := Put(buf, g.height - 2, g.playerX, 'P');
    var i := 0;
    while i < |g.blocks|
      invariant 0 <= i <= |g.blocks|
      invariant |buf| == g.height && Rectangular(buf, g.width)
      invariant forall r, c :: 0 <= r < g.height && 0 <= c < g.width ==>
                  buf[r][c] == (if r == g.height - 1 then '#'
                                else if Block(c, r) in g.blocks[..i] then '*'
                                else if r == g.height - 2 && c == g.playerX then 'P'
                                else ' ')
    {
      var b := g.blocks[i];
      assert g.blocks[..i + 1] == g.blocks[..i] + [b];
      if b.y < g.height - 1 {
        buf := Put(buf, b.y, b.x, '*');
      }
      i := i + 1;
    }
    assert g.blocks[..i] == g.blocks;
    var floor := buf[g.height - 1];
    assert floor == seq(g.width, _ => '#') by {
      forall c | 0 <= c < g.width ensures floor[c] == '#' {
        assert floor[c] == Cell(g, g.height - 1, c);
      }
    }
  }

  /** Every state that keeps the game invariant can be drawn. */
  lemma InvDrawable(g: GameState)
    requires Inv(g)
    ensures Drawable(g)
  {
  }
}
