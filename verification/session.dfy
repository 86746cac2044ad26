/** A game session with the threads taken out. Arrow moves and ticks run
    under the mutex; ESC stores `running` without it, but the only other write
    to `running` (the tick's collision test) also stores `false`, and no locked
    section reads `running`, so every key event and every tick can be taken as
    one atomic step on the shared state and a session as a sequence of such
    steps. Each loop tests `running` before it acts, so once it is false no
    step changes anything. */
module Session {
  import opened Board
  import Input
  import Logic

  /** One step of one of the two writer loops. */
  datatype Event =
    | KeyPress(ch: int, next: int)
    | TickEvent(draw1: int, draw2: int)

  /** Does this step spawn a block, in the state it is applied to? */
  predicate Spawns(g: GameState, e: Event) {
    g.running && e.TickEvent? && e.draw1 % 5 == 0
  }

  function Step(g: GameState, e: Event): (r: GameState)
    ensures !g.running ==> r == g
    ensures r.running ==> g.running
    ensures r.width == g.width && r.height == g.height
    ensures r.score >= g.score
    ensures r.score + |r.blocks| == g.score + |g.blocks| + (if Spawns(g, e) then 1 else 0)
  {
    if !g.running then g
    else match e
      case KeyPress(ch, next) => Input.OnKey(g, ch, next)
      case TickEvent(draw1, draw2) => Logic.Tick(g, draw1, draw2)
  }

  /** The state after a sequence of steps. */
  function Run(g: GameState, events: seq<Event>): (r: GameState)
    decreases |events|
  {
    if events == [] then g else Run(Step(g, events[0]), events[1..])
  }

  /** The number of blocks a sequence of steps spawns. */
  function SpawnCount(g: GameState, events: seq<Event>): (n: nat)
    decreases |events|
  {
    if events == [] then 0
    else (if Spawns(g, events[0]) then 1 else 0) + SpawnCount(Step(g, events[0]), events[1..])
  }

  /** Every spawn column is a draw of the source's distribution over
      `[1, width - 2]`. */
  predicate DrawsInRange(width: int, events: seq<Event>) {
    forall i :: 0 <= i < |events| && events[i].TickEvent? ==> 1 <= events[i].draw2 <= width - 2
  }

  lemma {:induction false} RunAppend(g: GameState, a: seq<Event>, b: seq<Event>)
    ensures Run(g, a + b) == Run(Run(g, a), b)
    decreases |a|
  {
    if a == [] {
      assert a + b == b;
    } else {
      assert (a + b)[0] == a[0] && (a + b)[1..] == a[1..] + b;
      RunAppend(Step(g, a[0]), a[1..], b);
    }
  }

  /** Every state reachable by key events and ticks keeps the invariant: the
      player between the walls, every block between the walls and above the
      floor. */
  lemma {:induction false} RunPreservesInv(g: GameState, events: seq<Event>)
    requires Inv(g)
    requires DrawsInRange(g.width, events)
    ensures Inv(Run(g, events))
    decreases |events|
  {
    if events != [] {
      var e := events[0];
      if g.running && e.TickEvent? {
        Logic.TickPreservesInv(g, e.draw1, e.draw2);
      }
      assert DrawsInRange(g.width, events[1..]) by {
        forall i | 0 <= i < |events[1..]| && events[1..][i].TickEvent?
          ensures 1 <= events[1..][i].draw2 <= g.width - 2
        {
          assert events[1..][i] == events[i + 1];
        }
      }
      RunPreservesInv(Step(g, e), events[1..]);
    }
  }

  /** The score never decreases, the board never changes size, and the game is
      never restarted. */
  lemma {:induction false} RunMonotone(g: GameState, events: seq<Event>)
    ensures Run(g, events).score >= g.score
    ensures Run(g, events).running ==> g.running
    ensures Run(g, events).width == g.width && Run(g, events).height == g.height
    decreases |events|
  {
    if events != [] {
      RunMonotone(Step(g, events[0]), events[1..]);
    }
  }

  /** Once the game has stopped, no further event changes the state. */
  lemma {:induction false} StoppedIsFinal(g: GameState, events: seq<Event>)
    requires !g.running
    ensures Run(g, events) == g
    decreases |events|
  {
    if events != [] {
      StoppedIsFinal(Step(g, events[0]), events[1..]);
    }
  }

  /** Stopping is permanent: a prefix that stops the game fixes the state for
      the rest of the session. */
  lemma StopIsPermanent(g: GameState, a: seq<Event>, b: seq<Event>)
    requires !Run(g, a).running
    ensures Run(g, a + b) == Run(g, a)
  {
    RunAppend(g, a, b);
    StoppedIsFinal(Run(g, a), b);
  }

  /** Score accounting: every spawned block is either still on the board or
      has been reclaimed and scored once. From `Init` the score is the number
      of blocks spawned minus the number still falling. */
  lemma {:induction false} RunConservesBlocks(g: GameState, events: seq<Event>)
    ensures Run(g, events).score + |Run(g, events).blocks| == g.score + |g.blocks| + SpawnCount(g, events)
    decreases |events|
  {
    if events != [] {
      RunConservesBlocks(Step(g, events[0]), events[1..]);
    }
  }
}

/** Concrete sessions on the default board, with the spawn draws chosen. */
module Scenarios {
  import opened Board
  import opened Session

  /** `n` ticks whose spawn test fails (1 is not a multiple of 5). */
  function Quiet(n: nat): (evs: seq<Event>)
    ensures |evs| == n
  {
    if n == 0 then [] else [TickEvent(1, 1)] + Quiet(n - 1)
  }

  /** Unfolds one quiet tick of a run. */
  lemma RunQuiet(g: GameState, n: nat)
    requires n > 0
    ensures Run(g, Quiet(n)) == Run(Step(g, TickEvent(1, 1)), Quiet(n - 1))
  {
    var evs := Quiet(n);
    assert evs[0] == TickEvent(1, 1) && evs[1..] == Quiet(n - 1);
  }

  /** A tick that spawns nothing on an empty board changes nothing. */
  lemma QuietTick(g: GameState)
    requires g.blocks == []
    ensures Step(g, TickEvent(1, 1)) == g
  {
  }

  /** On an empty board, ticks that spawn nothing change nothing. */
  lemma {:induction false} QuietOnEmptyBoard(g: GameState, n: nat)
    requires g.blocks == []
    ensures Run(g, Quiet(n)) == g
    decreases n
  {
    if n > 0 {
      QuietTick(g);
      RunQuiet(g, n);
      QuietOnEmptyBoard(g, n - 1);
    }
  }

  /** The tick that spawns a block in column `x` on an empty running board:
      the block is on row 2 afterwards, when the board is tall enough. */
  lemma SpawnTickValue(g: GameState, draw1: int, x: int)
    requires g.running && g.blocks == [] && g.height >= 5 && draw1 % 5 == 0
    ensures Step(g, TickEvent(draw1, x)) == g.(blocks := [Block(x, 2)])
  {
  }

  /** One quiet tick on a board holding one block: the block falls a row; it is
      reclaimed and scored if that reaches the floor, and it stops the game if
      that puts it on the player's cell. */
  lemma LoneBlockTick(g: GameState, b: Block)
    requires g.running && g.blocks == [b]
    ensures var b' := Block(b.x, b.y + 1);
            Step(g, TickEvent(1, 1)) ==
              if b'.y >= g.height - 1 then g.(blocks := [], score := g.score + 1)
              else g.(blocks := [b'], running := !(b'.y == g.height - 2 && b'.x == g.playerX))
  {
  }

  /** A lone block falls one row per quiet tick while it stays above the floor
      and misses the player; nothing else changes. */
  lemma {:induction false} LoneBlockFalls(g: GameState, b: Block, n: nat)
    requires g.running && g.blocks == [b]
    requires b.y + n <= g.height - 2
    requires b.x != g.playerX || b.y + n < g.height - 2
    ensures Run(g, Quiet(n)) == g.(blocks := [Block(b.x, b.y + n)])
    decreases n
  {
    if n > 0 {
      var b' := Block(b.x, b.y + 1);
      var g' := g.(blocks := [b']);
      LoneBlockTick(g, b);
      assert Step(g, TickEvent(1, 1)) == g';
      RunQuiet(g, n);
      assert Run(g, Quiet(n)) == Run(g', Quiet(n - 1));
      LoneBlockFalls(g', b', n - 1);
      assert g'.(blocks := [Block(b'.x, b'.y + (n - 1))]) == g.(blocks := [Block(b.x, b.y + n)]);
    }
  }

  /** Ten ticks without a spawn leave the initial state as it was. */
  lemma NoSpawnTenTicks()
    ensures Run(Init(), Quiet(10)) == Init()
  {
    QuietOnEmptyBoard(Init(), 10);
  }

  /** A run of one event is one step. */
  lemma RunOne(g: GameState, e: Event)
    ensures Run(g, [e]) == Step(g, e)
  {
    assert [e][1..] == [];
  }

  /** A block spawned on an empty board away from the player's column falls
      to the player's row and is reclaimed on the following tick: after the
      spawn tick and `height - 3` quiet ticks the board is empty again, the
      score has grown by one and the game still runs. On the default board
      that is the 18th tick. */
  lemma MissedBlockIsScored(g: GameState, draw1: int, x: int)
    requires g.running && g.blocks == [] && g.height >= 5
    requires draw1 % 5 == 0 && x != g.playerX
    ensures Run(g, [TickEvent(draw1, x)] + Quiet(g.height - 3)) == g.(score := g.score + 1)
  {
    var h := g.height;
    var g1 := g.(blocks := [Block(x, 2)]);
    SpawnTickValue(g, draw1, x);
    LoneBlockFalls(g1, Block(x, 2), h - 4);
    var gl := g1.(blocks := [Block(x, h - 2)]);
    LoneBlockTick(gl, Block(x, h - 2));
    QuietSnoc(h - 4);
    RunAppend(g1, Quiet(h - 4), [TickEvent(1, 1)]);
    RunOne(gl, TickEvent(1, 1));
    RunAppend(g, [TickEvent(draw1, x)], Quiet(h - 3));
    RunOne(g, TickEvent(draw1, x));
  }

  lemma {:induction false} QuietSnoc(n: nat)
    ensures Quiet(n + 1) == Quiet(n) + [TickEvent(1, 1)]
  {
    if n > 0 {
      QuietSnoc(n - 1);
    }
  }

  /** A block spawned on an empty board in the player's column reaches the
      player's row after the spawn tick and `height - 4` quiet ticks, which
      stops the game with the block still on that row and the score
      unchanged; whatever happens afterwards changes nothing. On the default
      board that is the 17th tick. */
  lemma HitBlockEndsGame(g: GameState, draw1: int, later: seq<Event>)
    requires g.running && g.blocks == [] && g.height >= 5
    requires draw1 % 5 == 0
    ensures var stop := Run(g, [TickEvent(draw1, g.playerX)] + Quiet(g.height - 4));
            && stop == g.(running := false, blocks := [Block(g.playerX, g.height - 2)])
            && Run(g, [TickEvent(draw1, g.playerX)] + Quiet(g.height - 4) + later) == stop
  {
    var h := g.height;
    var x := g.playerX;
    var g1 := g.(blocks := [Block(x, 2)]);
    SpawnTickValue(g, draw1, x);
    LoneBlockFalls(g1, Block(x, 2), h - 5);
    var gl := g1.(blocks := [Block(x, h - 3)]);
    LoneBlockTick(gl, Block(x, h - 3));
    QuietSnoc(h - 5);
    RunAppend(g1, Quiet(h - 5), [TickEvent(1, 1)]);
    RunOne(gl, TickEvent(1, 1));
    RunAppend(g, [TickEvent(draw1, x)], Quiet(h - 4));
    RunOne(g, TickEvent(draw1, x));
    StopIsPermanent(g, [TickEvent(draw1, x)] + Quiet(h - 4), later);
  }
}
