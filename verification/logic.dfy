/** The locked body of the simulation loop: one tick runs spawn, advance,
    collision check and reclaim-with-scoring, in that order. The two values the
    random distribution would produce are parameters: `draw1` decides whether a
    block spawns, `draw2` is the column it spawns in. */
module Logic {
  import opened Board

  /** Phase 1: a new block `Block(draw2, 1)` is appended exactly when `draw1`
      is a multiple of 5. (`draw1 % 5 == 0` has the same truth value under
      truncating and Euclidean remainder.) */
  function Spawn(blocks: seq<Block>, draw1: int, draw2: int): (r: seq<Block>)
    ensures draw1 % 5 == 0 ==> |r| == |blocks| + 1 && r[..|blocks|] == blocks && r[|blocks|] == Block(draw2, 1)
    ensures draw1 % 5 != 0 ==> r == blocks
  {
    if draw1 % 5 == 0 then blocks + [Block(draw2, 1)] else blocks
  }

  /** Phase 2: every block falls one row; columns, order and count are kept. */
  function Advance(blocks: seq<Block>): (r: seq<Block>)
    ensures |r| == |blocks|
    ensures forall i :: 0 <= i < |blocks| ==> r[i] == Block(blocks[i].x, blocks[i].y + 1)
  {
    if blocks == [] then []
    else [Block(blocks[0].x, blocks[0].y + 1)] + Advance(blocks[1..])
  }

  /** Phase 3: some block sits on the player's cell, column `playerX` of row
      `height - 2`. */
  function Collides(blocks: seq<Block>, playerX: int, height: int): (hit: bool)
    ensures hit <==> exists i :: 0 <= i < |blocks| && blocks[i].y == height - 2 && blocks[i].x == playerX
  {
    if blocks == [] then false
    else (blocks[0].y == height - 2 && blocks[0].x == playerX) || Collides(blocks[1..], playerX, height)
  }

  /** A block has reached the floor row or gone past it. */
  predicate OffBoard(b: Block, height: int) {
    b.y >= height - 1
  }

  /** Phase 4, what stays: the blocks above the floor, in their order. */
  function Surviving(blocks: seq<Block>, height: int): (r: seq<Block>)
    ensures |r| <= |blocks|
    ensures forall b :: b in r <==> b in blocks && !OffBoard(b, height)
  {
    if blocks == [] then []
    else if OffBoard(blocks[0], height) then Surviving(blocks[1..], height)
    else [blocks[0]] + Surviving(blocks[1..], height)
  }

  /** Phase 4, what is scored: the number of blocks at or past the floor. */
  function CountOffBoard(blocks: seq<Block>, height: int): (n: nat)
    ensures n <= |blocks|
    ensures n == 0 <==> forall i :: 0 <= i < |blocks| ==> !OffBoard(blocks[i], height)
  {
    if blocks == [] then 0
    else (if OffBoard(blocks[0], height) then 1 else 0) + CountOffBoard(blocks[1..], height)
  }

  /** `a` is `b` with some elements left out and the rest in their order. */
  predicate Subsequence<T(==)>(a: seq<T>, b: seq<T>)
    decreases |b|
  {
    if a == [] then true
    else if b == [] then false
    else (a[0] == b[0] && Subsequence(a[1..], b[1..])) || Subsequence(a, b[1..])
  }

  /** Every block is either kept or counted, never both and never neither. */
  lemma {:induction false} ReclaimAccounts(blocks: seq<Block>, height: int)
    ensures |Surviving(blocks, height)| + CountOffBoard(blocks, height) == |blocks|
  {
    if blocks != [] {
      ReclaimAccounts(blocks[1..], height);
    }
  }

  /** Reclaim keeps the surviving blocks in their relative order. */
  lemma {:induction false} SurvivingKeepsOrder(blocks: seq<Block>, height: int)
    ensures Subsequence(Surviving(blocks, height), blocks)
  {
    if blocks != [] {
      SurvivingKeepsOrder(blocks[1..], height);
      if !OffBoard(blocks[0], height) {
        var r := Surviving(blocks, height);
        assert r[0] == blocks[0] && r[1..] == Surviving(blocks[1..], height);
      }
    }
  }

  /** Reclaim works block by block: it distributes over concatenation, which
      is what lets a left-to-right pass compute it. */
  lemma {:induction false} SurvivingAppend(a: seq<Block>, b: seq<Block>, height: int)
    ensures Surviving(a + b, height) == Surviving(a, height) + Surviving(b, height)
    ensures CountOffBoard(a + b, height) == CountOffBoard(a, height) + CountOffBoard(b, height)
  {
    if a == [] {
      assert a + b == b;
    } else {
      assert (a + b)[0] == a[0] && (a + b)[1..] == a[1..] + b;
      SurvivingAppend(a[1..], b, height);
    }
  }

  /** One more block at the end is kept or counted on its own. */
  lemma SurvivingSnoc(a: seq<Block>, b: Block, height: int)
    ensures Surviving(a + [b], height) == Surviving(a, height) + (if OffBoard(b, height) then [] else [b])
    ensures CountOffBoard(a + [b], height) == CountOffBoard(a, height) + (if OffBoard(b, height) then 1 else 0)
  {
    SurvivingAppend(a, [b], height);
    assert Surviving([b], height) == (if OffBoard(b, height) then [] else [b]) by {
      assert [b][1..] == [];
    }
    assert CountOffBoard([b], height) == (if OffBoard(b, height) then 1 else 0) by {
      assert [b][1..] == [];
    }
  }

  /** The erase-remove pass of the source, left to right over the block list:
      it returns what stays and how many were removed, and agrees with the
      functional definitions of reclaim. */
  method RemoveOffBoard(blocks: seq<Block>, height: int) returns (kept: seq<Block>, removed: nat)
    ensures kept == Surviving(blocks, height)
    ensures removed == CountOffBoard(blocks, height)
    ensures removed + |kept| == |blocks|
  {
    kept := [];
    removed := 0;
    var i := 0;
    while i < |blocks|
      invariant 0 <= i <= |blocks|
      invariant kept == Surviving(blocks[..i], height)
      invariant removed == CountOffBoard(blocks[..i], height)
    {
      assert blocks[..i + 1] == blocks[..i] + [blocks[i]];
      SurvivingSnoc(blocks[..i], blocks[i], height);
      if OffBoard(blocks[i], height) {
        removed := removed + 1;
      } else {
        kept := kept + [blocks[i]];
      }
      i := i + 1;
    }
    assert blocks[..i] == blocks;
    ReclaimAccounts(blocks, height);
  }

  /** One tick of the simulation: spawn, advance, collision, reclaim.
      - the board, the player and the order of phases are as in the source;
      - the game stops exactly when it had stopped or a block that was one row
        above the player's cell (or a block spawned on a 4-row board in the
        player's column) now sits on it; a tick never restarts it;
      - no block is left at or past the floor;
      - the score grows by the number of blocks removed, so that score plus
        blocks on the board grows by exactly the number spawned. */
  function Tick(g: GameState, draw1: int, draw2: int): (r: GameState)
    ensures r.width == g.width && r.height == g.height && r.playerX == g.playerX
    ensures !r.running <==>
              || !g.running
              || (exists b :: b in g.blocks && b.y == g.height - 3 && b.x == g.playerX)
              || (draw1 % 5 == 0 && draw2 == g.playerX && g.height == 4)
    ensures r.running ==> g.running
    ensures forall b :: b in r.blocks ==> b.y < g.height - 1
    ensures r.score >= g.score
    ensures r.score + |r.blocks| == g.score + |g.blocks| + (if draw1 % 5 == 0 then 1 else 0)
  {
    var spawned := Spawn(g.blocks, draw1, draw2);
    var fallen := Advance(spawned);
    var running := g.running && !Collides(fallen, g.playerX, g.height);
    var kept := Surviving(fallen, g.height);
    ReclaimAccounts(fallen, g.height);
    CollisionWitness(g, spawned, fallen, draw1, draw2);
    g.(blocks := kept, score := g.score + CountOffBoard(fallen, g.height), running := running)
  }

  /** Which blocks a tick leaves, and in what order: a block is on the board
      after the tick exactly when it is above the floor and the block one row
      above it was there after spawning; the survivors keep the order they had. */
  lemma TickSurvivors(g: GameState, draw1: int, draw2: int)
    ensures var r := Tick(g, draw1, draw2);
            forall b :: b in r.blocks <==>
              b.y < g.height - 1 && Block(b.x, b.y - 1) in Spawn(g.blocks, draw1, draw2)
    ensures Subsequence(Tick(g, draw1, draw2).blocks, Advance(Spawn(g.blocks, draw1, draw2)))
  {
    var spawned := Spawn(g.blocks, draw1, draw2);
    AdvanceMembership(spawned);
    SurvivingKeepsOrder(Advance(spawned), g.height);
  }

  /** A block is in the advanced list exactly when the block one row above it
      was in the list before. */
  lemma AdvanceMembership(blocks: seq<Block>)
    ensures forall b :: b in Advance(blocks) <==> Block(b.x, b.y - 1) in blocks
  {
    var r := Advance(blocks);
    forall b | b in r ensures Block(b.x, b.y - 1) in blocks {
      var i :| 0 <= i < |r| && r[i] == b;
      assert blocks[i] == Block(b.x, b.y - 1);
    }
    forall b: Block | Block(b.x, b.y - 1) in blocks ensures b in r {
      var i :| 0 <= i < |blocks| && blocks[i] == Block(b.x, b.y - 1);
      assert r[i] == b;
    }
  }

  /** The collision phase in terms of the state before the tick. */
  lemma CollisionWitness(g: GameState, spawned: seq<Block>, fallen: seq<Block>, draw1: int, draw2: int)
    requires spawned == Spawn(g.blocks, draw1, draw2)
    requires fallen == Advance(spawned)
    ensures Collides(fallen, g.playerX, g.height) <==>
              || (exists b :: b in g.blocks && b.y == g.height - 3 && b.x == g.playerX)
              || (draw1 % 5 == 0 && draw2 == g.playerX && g.height == 4)
  {
    AdvanceMembership(spawned);
    var cell := Block(g.playerX, g.height - 2);
    assert Collides(fallen, g.playerX, g.height) <==> cell in fallen by {
      if Collides(fallen, g.playerX, g.height) {
        var i :| 0 <= i < |fallen| && fallen[i].y == g.height - 2 && fallen[i].x == g.playerX;
        assert fallen[i] == cell;
      }
      if cell in fallen {
        var i :| 0 <= i < |fallen| && fallen[i] == cell;
        assert fallen[i].y == g.height - 2;
      }
    }
    assert cell in fallen <==> Block(g.playerX, g.height - 3) in spawned;
    if draw1 % 5 == 0 {
      assert spawned == g.blocks + [Block(draw2, 1)];
    }
  }

  /** Ticks keep the invariant, provided the spawn column is a draw from
      `[1, width - 2]` as the source's distribution guarantees; the spawn
      test draw may be anything. */
  lemma TickPreservesInv(g: GameState, draw1: int, draw2: int)
    requires Inv(g)
    requires InPlayfield(g, draw2)
    ensures Inv(Tick(g, draw1, draw2))
  {
    var r := Tick(g, draw1, draw2);
    var spawned := Spawn(g.blocks, draw1, draw2);
    TickSurvivors(g, draw1, draw2);
    forall b | b in r.blocks ensures InPlayfield(r, b.x) && 2 <= b.y < r.height - 1 {
      var above := Block(b.x, b.y - 1);
      assert above in spawned;
      if draw1 % 5 == 0 {
        assert spawned == g.blocks + [Block(draw2, 1)];
      }
    }
  }
}
