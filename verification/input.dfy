/** The key dispatch of the input loop, as one pure step per key event. The
    keyboard is not modelled: a key event is the code read first and the code
    that would be read next, which matters only after a 0 or 224 prefix. */
module Input {
  import opened Board

  const Esc: int := 27
  const LeftArrow: int := 75
  const RightArrow: int := 77

  /** Arrow keys arrive as a prefix code (0 or 224) followed by the real code. */
  predicate IsPrefix(ch: int) {
    ch == 0 || ch == 224
  }

  /** The code the move dispatch looks at. The quit test is made on `ch`
      before this replacement, so a prefix followed by 27 does not quit. */
  function Decode(ch: int, next: int): (code: int)
    ensures !IsPrefix(ch) ==> code == ch
    ensures IsPrefix(ch) ==> code == next
  {
    if IsPrefix(ch) then next else ch
  }

  /** One key event. ESC clears `running` and nothing else; the left arrow
      moves the player one column left unless it is at column 1; the right
      arrow moves it one column right unless it is at column `width - 2`;
      every other code changes nothing. */
  function OnKey(g: GameState, ch: int, next: int): (r: GameState)
    ensures ch == Esc ==> r == g.(running := false)
    ensures ch != Esc ==> r == g.(playerX := r.playerX)
    ensures r.playerX == g.playerX - 1 <==>
              ch != Esc && Decode(ch, next) == LeftArrow && g.playerX > 1
    ensures r.playerX == g.playerX + 1 <==>
              ch != Esc && Decode(ch, next) == RightArrow && g.playerX < g.width - 2
    ensures r.playerX in {g.playerX - 1, g.playerX, g.playerX + 1}
    ensures InPlayfield(g, g.playerX) ==> InPlayfield(r, r.playerX)
  {
    if ch == Esc then
      g.(running := false)
    else
      var code := Decode(ch, next);
      if code == LeftArrow then
        if g.playerX > 1 then g.(playerX := g.playerX - 1) else g
      else if code == RightArrow then
        if g.playerX < g.width - 2 then g.(playerX := g.playerX + 1) else g
      else
        g
  }

  /** A move into a wall changes nothing. */
  lemma MoveAtWallIsNoOp(g: GameState, next: int)
    requires g.playerX == 1 || g.playerX == g.width - 2
    ensures g.playerX == 1 ==> OnKey(g, 224, LeftArrow) == g
    ensures g.playerX == g.width - 2 ==> OnKey(g, 224, RightArrow) == g
  {
  }

  /** Away from the walls a left move is undone by a right move, and the other
      way round. */
  lemma LeftRightCancel(g: GameState, n1: int, n2: int)
    requires 1 < g.playerX < g.width - 2
    ensures OnKey(OnKey(g, 224, LeftArrow), 224, RightArrow) == g
    ensures OnKey(OnKey(g, 224, RightArrow), 224, LeftArrow) == g
  {
  }

  /** The prefixed and the bare form of a code act alike, and the code after a
      non-prefix key is never looked at. */
  lemma PrefixTransparent(g: GameState, code: int, next: int, other: int)
    requires code != Esc && !IsPrefix(code)
    ensures OnKey(g, 0, code) == OnKey(g, code, next)
    ensures OnKey(g, 224, code) == OnKey(g, code, other)
  {
  }

  /** A prefix byte followed by 27 is not ESC: it leaves the state as it was. */
  lemma PrefixedEscIgnored(g: GameState, prefix: int)
    requires IsPrefix(prefix)
    ensures OnKey(g, prefix, Esc) == g
  {
  }
}
