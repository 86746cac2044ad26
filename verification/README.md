# Falling blocks and ownership wrappers, in Dafny

This project models two parts of a small C++ teaching repository and proves
properties of them.

1. **The rules of a console falling-block game** (`src/MultiThread.hpp`), with
   the threads taken out.
   - The board is 40 by 20. The player sits on the row above the floor and
     starts centred; blocks fall one row per tick.
   - A key event moves the player left or right within the walls, or quits.
   - A tick does four things in order:
     1. spawns a block in row 1 when the first random draw is a multiple of 5,
        in the column given by a second draw;
     2. moves every block down a row;
     3. stops the game if a block now sits on the player's cell;
     4. removes the blocks that reached the floor and adds their number to the
        score.
   - Rendering builds a `height` by `width` character buffer.
   - A session is a sequence of key events and ticks, each one atomic step.
     Arrow moves and ticks run under the mutex. ESC stores `running` without
     taking it (`src/MultiThread.hpp:40-43`). That loses nothing: the tick only
     ever writes `false` to `running`, and no locked section reads it.
2. **The two ownership wrappers** (`src/SmartPointer.hpp`), over an abstract
   heap.
   - The heap is a set of live objects and a map of live integer cells (the
     reference counters). Addresses are handed out fresh and never reused.
   - A program's handles are its variables in scope, a map from name to handle.
     Self-assignment means naming the same variable on both sides.
   - `UniquePtr`: construction, `Make_Unique`, the move constructor, move
     assignment, `Reset`, `Get` and the destructor.
   - `SharedPtr`: construction from a pointer, `Make_Shared`, the copy
     constructor, copy assignment, `Get` and the destructor.
   - Deleting something that is not live, or using a counter whose cell is gone,
     is reported as a fault (`Result.Err`), never assumed away.
   - For each wrapper, an operation-sequence machine shows what a whole program
     can and cannot do to the heap.

The modules, one per file:

- `Board` (board.dfy): the game state.
- `Input` (input.dfy): key events.
- `Logic` (logic.dfy): one tick.
- `Render` (render.dfy): the character buffer.
- `Session` and `Scenarios` (session.dfy): sessions, and concrete sessions on
  the default board.
- `Heap` (heap.dfy): the abstract heap.
- `Unique` (unique_ptr.dfy) and `Shared` (shared_ptr.dfy): the two wrappers.

### Two details of the tick

- **Two draws.** `Dist(Rng)` is called twice, once for the spawn test and once
  for the column (`src/MultiThread.hpp:78-79`), so a tick takes two draws.
- **When a spawned block arrives.** A block spawns on row 1 and falls a row in
  the same tick.
  - A block spawned in the player's column stops the game on tick `H - 3`, the
    17th on the default board (`Scenarios.HitBlockEndsGame`).
  - A block spawned anywhere else is scored on tick `H - 2`, the 18th
    (`Scenarios.MissedBlockIsScored`).

## Model

| member | source | states |
|---|---|---|
| Board.Init | src/MultiThread.hpp:20-27 | The initial state is a 40 by 20 board with the player at `W / 2`, no blocks, score 0 and running. It satisfies the game invariant. |
| Input.OnKey | src/MultiThread.hpp:39-57 | ESC clears `running` and changes nothing else. The player moves left exactly when the decoded code is 75 and it is past column 1. It moves right exactly when the code is 77 and it is before column `W - 2`. Any other key changes nothing. The player's column moves by at most one and stays between the walls. |
| Input.MoveAtWallIsNoOp | src/MultiThread.hpp:48-57 | An arrow that would move the player into a wall leaves the state unchanged. |
| Input.LeftRightCancel | src/MultiThread.hpp:48-57 | Away from the walls, left then right (or right then left) gives back the original state. |
| Input.PrefixTransparent | src/MultiThread.hpp:46-57 | A prefixed arrow acts like the bare code. After a non-prefix key the following code is never looked at. |
| Input.PrefixedEscIgnored | src/MultiThread.hpp:40-46 | A prefix followed by 27 does not quit. The ESC test is made before the prefix is replaced. |
| Logic.Spawn | src/MultiThread.hpp:78-79 | When `draw1 % 5 == 0`, exactly one block `(draw2, 1)` is appended at the end and the rest is kept. Otherwise the list is unchanged. |
| Logic.Advance | src/MultiThread.hpp:82 | Every block's row grows by one. Columns, order and count are kept. |
| Logic.AdvanceMembership | src/MultiThread.hpp:82 | A block is in the advanced list exactly when the block one row above it was in the list before. |
| Logic.Collides | src/MultiThread.hpp:85-88 | True exactly when some block is at row `H - 2` in the player's column. |
| Logic.Surviving | src/MultiThread.hpp:94-97 | The kept blocks are exactly those of the list that are above the floor (`y < H - 1`). |
| Logic.CountOffBoard | src/MultiThread.hpp:94-96 | The number removed is at most the list's length. It is zero exactly when no block is at or past the floor. |
| Logic.ReclaimAccounts | src/MultiThread.hpp:94-97 | Every block is either kept or counted: the kept plus the removed make up the whole list. |
| Logic.SurvivingKeepsOrder | src/MultiThread.hpp:94-97 | The surviving blocks keep their relative order, as `remove_if` guarantees. |
| Logic.SurvivingAppend | src/MultiThread.hpp:94-95 | Reclaim distributes over concatenation, both for what it keeps and for what it counts. |
| Logic.SurvivingSnoc | src/MultiThread.hpp:94-96 | One more block at the end of the list is kept, or counted, on its own. |
| Logic.RemoveOffBoard | src/MultiThread.hpp:94-97 | The left-to-right erase-remove pass computes the same kept list and removed count as the definitions. The two add up to the input length. |
| Logic.Tick | src/MultiThread.hpp:77-97 | A tick never changes the board size or the player. Afterwards the game is stopped exactly when it was already stopped, or a block from the row above the player's cell (or, on a 4-row board, a block spawned in the player's column) has fallen onto that cell. A tick never restarts the game. No block is left at or past the floor. The score never decreases: score plus blocks on the board grows by exactly the number spawned. |
| Logic.TickSurvivors | src/MultiThread.hpp:78-97 | After a tick, a block is on the board exactly when it is above the floor and the block one row above it was there after spawning. The survivors keep the advanced list's order. |
| Logic.CollisionWitness | src/MultiThread.hpp:78-91 | The collision test after advancing, restated in terms of the blocks before the tick and the spawn draws. |
| Logic.TickPreservesInv | src/MultiThread.hpp:67-97 | With the spawn column drawn from `[1, W - 2]`, a tick keeps every block between the walls and in rows 2 to `H - 2`, keeps the player between the walls, and keeps the score non-negative. |
| Render.Draw | src/MultiThread.hpp:114-122 | The buffer has `H` rows of `W` characters, each cell equal to `Render.Cell`: the bottom row is all `#`; a block above the floor shows `*` at its cell, overwriting the player; the player's cell shows `P` otherwise; every other cell is blank. All writes are in bounds. |
| Render.InvDrawable | src/MultiThread.hpp:114-122 | Every state that keeps the game invariant meets the rendering's index bounds. |
| Session.Step | src/MultiThread.hpp:35-97 | A key event or a tick on a stopped game changes nothing. A step never restarts the game, never changes the board size, never lowers the score, and keeps the block accounting. |
| Session.RunAppend | src/MultiThread.hpp:35-97 | Running two event sequences one after the other is running their concatenation. |
| Session.RunPreservesInv | src/MultiThread.hpp:20-97 | Every state reached from an invariant state keeps the invariant, provided spawn columns are drawn from `[1, W - 2]`. |
| Session.RunMonotone | src/MultiThread.hpp:85-96 | Over any session the score never decreases, the board keeps its size and the game is never restarted. |
| Session.StoppedIsFinal | src/MultiThread.hpp:35-43 | Once the game has stopped, no further event changes the state. |
| Session.StopIsPermanent | src/MultiThread.hpp:35-91 | A prefix that stops the game fixes the state for the rest of the session. |
| Session.RunConservesBlocks | src/MultiThread.hpp:78-97 | Final score plus blocks still falling equals initial score plus initial blocks plus the number of blocks spawned. |
| Scenarios.QuietTick | src/MultiThread.hpp:78-97 | A tick that spawns nothing on an empty board changes nothing. |
| Scenarios.QuietOnEmptyBoard | src/MultiThread.hpp:78-97 | Any number of ticks that spawn nothing leave an empty board's state unchanged. |
| Scenarios.NoSpawnTenTicks | src/MultiThread.hpp:20-27 | Ten ticks without a spawn leave the initial state as it was. |
| Scenarios.SpawnTickValue | src/MultiThread.hpp:78-97 | A spawning tick on an empty board (at least 5 rows) leaves exactly one block, at row 2 in the drawn column. |
| Scenarios.LoneBlockTick | src/MultiThread.hpp:82-97 | One quiet tick on a board holding one block: the block falls a row, is reclaimed and scored if that reaches the floor, and stops the game if that puts it on the player's cell. |
| Scenarios.LoneBlockFalls | src/MultiThread.hpp:82-97 | A lone block that misses the player falls one row per quiet tick, and nothing else changes. |
| Scenarios.MissedBlockIsScored | src/MultiThread.hpp:77-97 | A block spawned away from the player's column is scored after `H - 2` ticks (the 18th on the default board). The board is then empty again and the game still runs. |
| Scenarios.HitBlockEndsGame | src/MultiThread.hpp:85-91 | A block spawned in the player's column stops the game after `H - 3` ticks (the 17th on the default board). The block stays on the player's row and the score is unchanged. Nothing afterwards changes the state. |
| Heap.NewObject | src/SmartPointer.hpp:127 | `new T(...)` adds exactly one object at an address that was not live and leaves the counters alone. |
| Heap.NewCell | src/SmartPointer.hpp:74 | `new int(v)` adds exactly one cell holding `v` at an address that was not live. |
| Heap.Delete | src/SmartPointer.hpp:46 | `delete` of null changes nothing. `delete` of a live object removes exactly that object. Anything else is a fault. |
| Heap.DeleteCell | src/SmartPointer.hpp:105 | Deleting a counter removes exactly that cell, and is a fault if it is not live. |
| Unique.Construct | src/SmartPointer.hpp:20 | A new handle holds the given pointer. The heap and every other variable are unchanged. |
| Unique.ConstructThenGet | src/SmartPointer.hpp:61-64 | A default-constructed handle holds null, and `Get` returns the pointer a handle was built with. |
| Unique.Get | src/SmartPointer.hpp:61-64 | `Get` returns the raw pointer the handle holds; what it returns after each operation is stated by `Unique.ConstructThenGet` and the operations' own contracts. |
| Unique.MakeUnique | src/SmartPointer.hpp:124-128 | A new handle owns one fresh object that was not live before. |
| Unique.MoveConstruct | src/SmartPointer.hpp:27-30 | The new handle takes the source's pointer, the source is left null, and the heap is untouched. |
| Unique.MoveAssign | src/SmartPointer.hpp:32-41 | Onto itself it changes nothing. Otherwise the target's old object is deleted (a fault exactly when it is not deletable), the target takes the source's pointer and the source is left null. |
| Unique.Reset | src/SmartPointer.hpp:54-59 | The old object is deleted, then the handle holds the new pointer. Other handles are unchanged. |
| Unique.Destroy | src/SmartPointer.hpp:43-47 | The handle's object is deleted and the variable leaves scope. |
| Unique.Step | src/SmartPointer.hpp:20-59 | The only fault a step can raise, other than naming a variable wrongly, is a bad delete. |
| Unique.DeclareKeepsExact | src/SmartPointer.hpp:20 | Declaring a null handle keeps one owner per live object. |
| Unique.MakeKeepsExact | src/SmartPointer.hpp:124-128 | `Make_Unique` keeps one owner per live object. |
| Unique.MoveIntoKeepsExact | src/SmartPointer.hpp:27-30 | The move constructor keeps one owner per live object. |
| Unique.MoveAssignKeepsExact | src/SmartPointer.hpp:32-41 | Move assignment never faults on an exact world and keeps one owner per live object. |
| Unique.ResetKeepsExact | src/SmartPointer.hpp:54-59 | `Reset` to null or to an unowned live object never faults and keeps one owner per live object. |
| Unique.DropKeepsExact | src/SmartPointer.hpp:43-47 | The destructor never faults on an exact world and keeps one owner per live object. |
| Unique.StepKeepsExact | src/SmartPointer.hpp:20-64 | Every well-scoped step keeps: no double delete, no handle on a freed object, no unowned object. |
| Unique.RunKeepsExact | src/SmartPointer.hpp:16-68 | The same holds for whole programs. |
| Unique.AliasedRawPointerDoubleFrees | src/SmartPointer.hpp:20-47 | Building a second handle from the raw pointer another handle holds breaks sole ownership, and the two destructors then delete the same object twice. |
| Unique.NeverLeaks | src/SmartPointer.hpp:43-47 | A program that starts from an empty heap and ends with no handle in scope leaves no object behind. |
| Shared.Construct | src/SmartPointer.hpp:74 | A new handle holds the given pointer and a fresh counter equal to 1. No other counter or variable changes. |
| Shared.Get | src/SmartPointer.hpp:114-117 | `Get` returns the raw pointer the handle holds; what it returns after each operation is stated by `Shared.ConstructThenGet` and `Shared.CopyThenGet`. |
| Shared.ConstructThenGet | src/SmartPointer.hpp:74-117 | A handle built from null gives null, and a handle built from a pointer gives that pointer. |
| Shared.CopyThenGet | src/SmartPointer.hpp:77-117 | After the copy constructor, copy assignment as written, or the corrected assignment, `Get` on the target returns the source's pointer. |
| Shared.MakeSharedIsUnheld | src/SmartPointer.hpp:130-134 | `Make_Shared` hands out a pointer that no handle in scope already holds. |
| Shared.MakeShared | src/SmartPointer.hpp:130-134 | A new handle holds a fresh object under a fresh counter equal to 1. |
| Shared.CopyConstruct | src/SmartPointer.hpp:77-80 | The new handle shares the source's pointer and counter, and that counter rises by exactly one. It is a fault exactly when the counter cell is gone. |
| Shared.CopyAssign | src/SmartPointer.hpp:82-91 | As written: onto itself nothing changes. Otherwise the target adopts the source's pointer and counter, that counter rises by one, and the target's previous counter keeps its value. |
| Shared.Release | src/SmartPointer.hpp:98-107 | The counter goes down by one. When it reaches zero the object and then the counter are deleted, and only then. It is a fault when the counter is gone, or the object is when it must be freed. |
| Shared.Destroy | src/SmartPointer.hpp:98-107 | The destructor applies `Release` to the heap, and the variable leaves scope. |
| Shared.Assign | src/SmartPointer.hpp:82-91 | Corrected: onto itself nothing changes. Otherwise the target ends up sharing the source's handle and every other variable is unchanged. |
| Shared.AddFreshCounts | src/SmartPointer.hpp:74 | A new handle on a fresh counter set to 1 is that counter's only holder. Other counters keep their holders. |
| Shared.AddFreshCoherent | src/SmartPointer.hpp:74 | A new handle with a fresh counter and an unshared pointer keeps handles coherent: handles on one counter hold the same pointer, and handles on one object hold the same counter. |
| Shared.AddFreshKeeps | src/SmartPointer.hpp:74 | Such a handle keeps every handle usable: its counter and object are live, and each counter is at least its number of holders. |
| Shared.AddFreshKeepsExact | src/SmartPointer.hpp:74 | Such a handle keeps the accounting exact: each counter equals its holders and every live object is held. |
| Shared.MakeKeeps | src/SmartPointer.hpp:130-134 | `Make_Shared` keeps handles usable and the accounting exact. |
| Shared.DeclareNullKeeps | src/SmartPointer.hpp:74 | A handle built from null keeps handles usable and the accounting exact. |
| Shared.CountsAfterRebind | src/SmartPointer.hpp:86-87 | Rebinding a variable moves it from the holders of its old counter to those of the new one. |
| Shared.CountsAfterRemove | src/SmartPointer.hpp:98-100 | A variable leaving scope leaves the holders of its own counter only. |
| Shared.CoherentAfterCopy | src/SmartPointer.hpp:77 | Binding a variable to a copy of another handle keeps handles coherent. |
| Shared.CopyIntoCounts | src/SmartPointer.hpp:77-80 | The copy constructor adds exactly one holder to the source's counter and none to any other. |
| Shared.CopyIntoKeepsSafe | src/SmartPointer.hpp:77-80 | The copy constructor never faults on usable handles and keeps them usable. |
| Shared.CopyIntoKeepsExact | src/SmartPointer.hpp:77-80 | The copy constructor keeps the accounting exact: the count rises by one with the one new holder. |
| Shared.CopyIntoExactCounts | src/SmartPointer.hpp:77-80 | After the copy constructor every live counter still equals its number of holders and is at least 1. |
| Shared.CopyIntoKeepsHeld | src/SmartPointer.hpp:77-80 | After the copy constructor every live object is still held by some handle. |
| Shared.CopyAssignKeepsSafe | src/SmartPointer.hpp:82-91 | Copy assignment as written never faults on usable handles and keeps them usable: counts stay at least the live handles. |
| Shared.CopyAssignBreaksExact | src/SmartPointer.hpp:84-89 | As written, assigning between handles on different counters leaves the target's old counter one above its holders, so the result is no longer exact. |
| Shared.LastHolder | src/SmartPointer.hpp:98-107 | When a counter is at 1, its holder is the only handle on that counter and on that object. |
| Shared.DropKeepsSafe | src/SmartPointer.hpp:98-107 | The destructor never faults on usable handles and keeps the others usable. |
| Shared.DropKeepsCounts | src/SmartPointer.hpp:98-107 | After the destructor every live counter still equals its number of holders and is at least 1. |
| Shared.DropLastKeepsHeld | src/SmartPointer.hpp:101-106 | When the last holder leaves, its object goes with it and every other live object keeps a holder. |
| Shared.DropSharedKeepsHeld | src/SmartPointer.hpp:98-101 | When other holders remain, the object stays and every live object keeps a holder. |
| Shared.DropKeepsExact | src/SmartPointer.hpp:98-107 | The destructor keeps the accounting exact. The object is freed exactly when its last holder leaves. |
| Shared.AssignSharedIsNoOp | src/SmartPointer.hpp:82-91 | Corrected assignment between two handles already on the same counter changes nothing. |
| Shared.AssignIsDropThenCopy | src/SmartPointer.hpp:77-107 | Otherwise the corrected assignment equals the destructor on the target followed by the copy constructor into it. |
| Shared.ReleaseAfterBump | src/SmartPointer.hpp:98-107 | Releasing one counter commutes with setting another. |
| Shared.AssignKeepsSafe | src/SmartPointer.hpp:82-91 | The corrected assignment never faults on usable handles and keeps them usable. |
| Shared.AssignKeepsExact | src/SmartPointer.hpp:82-91 | The corrected assignment keeps the accounting exact. |
| Shared.StepKeepsSafe | src/SmartPointer.hpp:74-107 | Under either assignment, a step on usable handles faults only by naming a variable wrongly, and keeps handles usable. |
| Shared.StepKeepsExact | src/SmartPointer.hpp:74-107 | Under the corrected assignment every step keeps the accounting exact. |
| Shared.RunKeepsSafe | src/SmartPointer.hpp:70-122 | For whole programs under either assignment: no double delete, no use of a freed counter, no handle on a freed object. |
| Shared.RunKeepsExact | src/SmartPointer.hpp:70-122 | Under the corrected assignment, whole programs keep the accounting exact. |
| Shared.CorrectedNeverLeaks | src/SmartPointer.hpp:98-107 | Under the corrected assignment, a program that starts empty and ends with no handle in scope leaves no object and no counter. |
| Shared.MakeTwo | src/SmartPointer.hpp:130-134 | The two `Make_Shared` steps of the leak program give two objects under two counters, each equal to 1. |
| Shared.DropBoth | src/SmartPointer.hpp:98-107 | When two handles share an object under a counter of 2, dropping both frees exactly that object and counter. |
| Shared.AliasedRawPointerBreaksSafe | src/SmartPointer.hpp:74-107 | Building a second handle from the raw pointer another handle holds puts a second counter on the same object, so handles are no longer coherent. When the first counter is at 1, its destructor frees the object, and the second handle's destructor then deletes it again. |
| Shared.AsWrittenLeaks | src/SmartPointer.hpp:82-91 | As written, the program "make a, make b, a = b, drop a, drop b" ends with no handle in scope, but the first object and its counter are still live. |
| Shared.CorrectedDoesNotLeak | src/SmartPointer.hpp:82-91 | With the corrected assignment the same program ends with an empty heap. |

## Left out

- Threads, the mutex, the condition variable and the `jthread` start-up. A
  session is a sequence of atomic steps instead.
- Session.Step: treats each loop's `running` test as atomic with its step. In
  the source, a loop that passed its test just before the game stopped can
  still run one more key move or tick.
- Sleeps and `steady_clock` deadlines: these are timing, not logic.
- Keyboard and console I/O:
  - `_kbhit` and `_getch` are replaced by a key event that carries the code
    read and the code that would be read next;
  - `system("cls")`, printing the buffer, the "Score:" and "Game Over" lines,
    and the wrappers' destructor messages are left out. The render result is
    the buffer.
- The random number generator: the two draws of a tick are parameters.
  Logic.TickPreservesInv requires the spawn column in `[1, W - 2]`, which the
  distribution guarantees. The spawn test draw is unconstrained.
- Memory orders of the atomic `Running`: it is a plain boolean.
- Logic.Tick: the score is an unbounded integer. The source's `int` could
  overflow after more than two billion reclaimed blocks.
- Unique.MoveConstruct: the source's move constructor takes a `const`
  reference and then writes through it, which does not compile if instantiated.
  The model gives the evidently intended transfer.
- `Reset` assigns null to its own parameter, which has no effect and is not
  modelled. Resetting a handle to the pointer it already holds would leave it
  dangling. The step machine's `Reset` always takes a fresh object or null.
- The step machines build handles only from a fresh object (`Make`,
  `ResetNew`) or from null. A program that aliases a raw pointer between
  handles, such as `SharedPtr<T> b(a.Get())`, is excluded. The whole-program
  lemmas hold only for the modelled operations. What aliasing does is stated
  by `Unique.AliasedRawPointerDoubleFrees` and
  `Shared.AliasedRawPointerBreaksSafe`.
- The heap never reuses an address. The wrappers do not depend on address
  reuse, and the proofs use freshness.
- `operator*` and `operator->` are just `Get` followed by a dereference of the
  object, whose contents are not modelled.
- The `Dummy` and `Main` demonstrations, `src/ObjectFunc.hpp` and
  `src/main.cpp` are not part of this model.

## Findings

| source | as written | input that shows it | evidently intended | confidence | as-written member | corrected member |
|---|---|---|---|---|---|---|
| src/SmartPointer.hpp:82-91 | Copy assignment rebinds the target to the source's pointer and counter without decrementing the target's old counter. That counter then stays one above its live handles, so the old object and counter are never freed. | Make `a`, make `b`, `a = b`, then `a` and `b` leave scope: no handle remains, but the first object and its counter are still live. | Release the target's old handle as the destructor does (after incrementing the source's counter, so assigning between sharers is harmless), then adopt the source. | not executed | Shared.CopyAssign, Shared.AsWrittenLeaks, Shared.CopyAssignBreaksExact | Shared.Assign, Shared.AssignKeepsExact, Shared.CorrectedNeverLeaks, Shared.CorrectedDoesNotLeak |
