/** The snake board: many disjoint linked lists threaded through one array of cells.  A cell holds the index of the
    next cell towards the head, HEAD_SLOT at the head, or EMPTY_SLOT. */
module Snake {
  import opened Basics

  const BWIDTH: nat := 0x40
  const BHEIGHT: nat := 0x40
  const BSIZE: nat := 0x1000
  const MAX_PLAYERS: nat := 0x10
  const EMPTY_SLOT: nat := 0xffff
  const HEAD_SLOT: nat := 0xfffe

  datatype Status = GettingName | NeedSpawn | Playing | NeedKill

  datatype Player = Player(head: nat, tail: nat, dx: int, dy: int, status: Status)

  predicate Direction(dx: int, dy: int) {
    (dx, dy) in {(0, -1), (-1, 0), (0, 1), (1, 0)}
  }

  /** next_head: one step on the torus. */
  function NextHead(head: nat, dx: int, dy: int): (next: nat)
    requires head < BSIZE && -1 <= dx <= 1 && -1 <= dy <= 1
    ensures next < BSIZE
  {
    ((head / BWIDTH + dy + BHEIGHT) % BHEIGHT) * BWIDTH + (head % BWIDTH + dx + BWIDTH) % BWIDTH
  }

  /** The step in coordinates: x and y each move by their part, round the torus. */
  lemma NextHeadCoords(head: nat, dx: int, dy: int)
    requires head < BSIZE && -1 <= dx <= 1 && -1 <= dy <= 1
    ensures NextHead(head, dx, dy) % 64 == (head % 64 + dx) % 64 && NextHead(head, dx, dy) / 64 == (head / 64 + dy) % 64
  {
    var x', y' := (head % 64 + dx + 64) % 64, (head / 64 + dy + 64) % 64;
    assert NextHead(head, dx, dy) == y' * 64 + x';
    assert (y' * 64 + x') / 64 == y' && (y' * 64 + x') % 64 == x';
  }

  // One coordinate: a step and its opposite.
  lemma StepBack(c: nat, d: int)
    requires c < 64 && -1 <= d <= 1
    ensures ((c + d) % 64 - d) % 64 == c && (d != 0 ==> (c + d) % 64 != c)
  {
    assert (c + d) % 64 == if c + d == 64 then 0 else if c + d == -1 then 63 else c + d;
  }

  /** Steps in opposite directions undo each other, and a step never stays in place. */
  lemma NextHeadBack(head: nat, dx: int, dy: int)
    requires head < BSIZE && Direction(dx, dy)
    ensures NextHead(NextHead(head, dx, dy), -dx, -dy) == head
    ensures NextHead(head, dx, dy) != head
  {
    hide NextHead;
    StepBack(head % 64, dx);
    StepBack(head / 64, dy);
    NextHeadCoords(head, dx, dy);
    NextHeadCoords(NextHead(head, dx, dy), -dx, -dy);
  }

  /** The whole game.  `chains` is a history variable: for every player the cells of its snake from tail to head,
      empty before it is spawned. */
  datatype Game = Game(board: seq<nat>, players: seq<Player>, food: nat, chains: seq<seq<nat>>)

  function NewGame(): Game {
    Game(seq(BSIZE, _ => EMPTY_SLOT), [], 7, [])
  }

  // ---------------------------------------------------------------- the invariant

  ghost predicate Linked(board: seq<nat>, c: seq<nat>)
    requires |board| == BSIZE
  {
    forall k :: 0 <= k < |c| ==> c[k] < BSIZE && board[c[k]] == if k + 1 < |c| then c[k + 1] else HEAD_SLOT
  }

  // The chain of one player.
  ghost predicate ChainOk(board: seq<nat>, p: Player, c: seq<nat>)
    requires |board| == BSIZE
  {
    && (c == [] <==> p.head == EMPTY_SLOT)
    && (c != [] ==> |c| >= 2 && NoDup(c) && Linked(board, c) && p.tail == c[0] && p.head == c[|c| - 1])
    && (p.status.Playing? ==> c != [] && Direction(p.dx, p.dy))
    && (p.status.GettingName? || p.status.NeedSpawn? ==> c == [])
  }

  ghost predicate Disjoint(chains: seq<seq<nat>>) {
    forall i, j, x :: 0 <= i < j < |chains| && x in chains[i] ==> x !in chains[j]
  }

  ghost predicate Covered(chains: seq<seq<nat>>, x: nat) {
    exists i :: 0 <= i < |chains| && x in chains[i]
  }

  /** The non-empty cells are exactly the disjoint union of the spawned players' chains. */
  ghost predicate Valid(g: Game) {
    && |g.board| == BSIZE && |g.players| == |g.chains| <= MAX_PLAYERS
    && (forall i :: 0 <= i < |g.players| ==> ChainOk(g.board, g.players[i], g.chains[i]))
    && Disjoint(g.chains)
    && (forall x :: 0 <= x < BSIZE ==> (g.board[x] != EMPTY_SLOT <==> Covered(g.chains, x)))
    && (g.food < BSIZE || g.food == EMPTY_SLOT)
  }

  // ---------------------------------------------------------------- what can happen

  datatype Event =
    | Join                              // a connection is accepted
    | Named(i: nat)                     // a player finished typing a name
    | Steer(i: nat, dx: int, dy: int)   // a key
    | Drop(i: nat)                      // a connection broke
    | Spawn(i: nat, tail: nat)          // a snake of two cells appears at tail and the cell to its right
    | Advance(i: nat)                   // a snake moves, eats or collides
    | Feed(x: nat)                      // food appears
    | Kill(i: nat)                      // a dead player is cleared and its slot filled with the last one

  function Cleared(board: seq<nat>, c: seq<nat>): seq<nat> {
    seq(|board|, x requires 0 <= x < |board| => if x in c then EMPTY_SLOT else board[x])
  }

  // A snake's cells after a step: the tail is given up unless the snake grows.
  function Grown(c: seq<nat>, next: nat, grow: bool): seq<nat>
    requires c != []
  {
    (if grow then c else c[1..]) + [next]
  }

  // The board after a step: the old head points to the new one.
  function Stepped(board: seq<nat>, tail: nat, head: nat, next: nat, grow: bool): seq<nat>
    requires |board| == BSIZE && tail < BSIZE && head < BSIZE && next < BSIZE
  {
    (if grow then board else board[tail := EMPTY_SLOT])[head := next][next := HEAD_SLOT]
  }

  function Moved(g: Game, i: nat): Game
    requires |g.board| == BSIZE && i < |g.players| == |g.chains|
    requires g.players[i].head < BSIZE && g.players[i].tail < BSIZE && Direction(g.players[i].dx, g.players[i].dy)
             && g.chains[i] != []
  {
    var p, c := g.players[i], g.chains[i];
    var next := NextHead(p.head, p.dx, p.dy);
    if g.board[next] != EMPTY_SLOT then g.(players := g.players[i := p.(status := NeedKill)])
    else
      var grow := next == g.food;
      Game(Stepped(g.board, p.tail, p.head, next, grow),
           g.players[i := p.(head := next, tail := if grow then p.tail else g.board[p.tail])],
           if grow then EMPTY_SLOT else g.food,
           g.chains[i := Grown(c, next, grow)])
  }

  function Killed(g: Game, i: nat): Game
    requires i < |g.players| == |g.chains|
  {
    var last := |g.players| - 1;
    Game(Cleared(g.board, g.chains[i]), g.players[i := g.players[last]][..last], g.food,
      g.chains[i := g.chains[last]][..last])
  }

  /** One event; an event whose condition does not hold changes nothing. */
  ghost function Next(g: Game, e: Event): Game
    requires Valid(g)
  {
    var n := |g.players|;
    match e
    case Join =>
      if n == MAX_PLAYERS then g
      else g.(players := g.players + [Player(EMPTY_SLOT, 0, 0, 0, GettingName)], chains := g.chains + [[]])
    case Named(i) =>
      if i < n && g.players[i].status.GettingName?
        then g.(players := g.players[i := g.players[i].(status := NeedSpawn)]) else g
    case Steer(i, dx, dy) =>
      if i < n && g.players[i].status.Playing? && Direction(dx, dy) then
        g.(players := g.players[i := g.players[i].(dx := dx, dy := dy)])
      else g
    case Drop(i) =>
      if i < n && (g.players[i].status.Playing? || g.players[i].status.GettingName?) then
        g.(players := g.players[i := g.players[i].(status := NeedKill)])
      else g
    case Spawn(i, tail) =>
      if i < n && g.players[i].status.NeedSpawn? && FreePair(g.board, tail) then
        var head := NextHead(tail, 1, 0);
        Game(g.board[tail := head][head := HEAD_SLOT], g.players[i := Player(head, tail, 1, 0, Playing)], g.food,
             g.chains[i := [tail, head]])
      else g
    case Advance(i) => if i < n && g.players[i].status.Playing? then Moved(g, i) else g
    case Feed(x) => if g.food == EMPTY_SLOT && x < BSIZE && g.board[x] == EMPTY_SLOT then g.(food := x) else g
    case Kill(i) => if i < n && g.players[i].status.NeedKill? then Killed(g, i) else g
  }

  predicate FreePair(board: seq<nat>, tail: nat)
    requires |board| == BSIZE
  {
    tail < BSIZE && board[tail] == EMPTY_SLOT && board[NextHead(tail, 1, 0)] == EMPTY_SLOT
  }

  // ---------------------------------------------------------------- every event keeps the invariant

  // A chain none of whose cells changed is still a chain.
  lemma ChainFrame(board: seq<nat>, board': seq<nat>, p: Player, c: seq<nat>)
    requires |board| == |board'| == BSIZE && ChainOk(board, p, c)
    requires forall x :: x in c ==> x < BSIZE && board'[x] == board[x]
    ensures ChainOk(board', p, c)
  {
  }

  lemma CellOnBoard(g: Game, i: nat, x: nat)
    requires Valid(g) && i < |g.chains| && x in g.chains[i]
    ensures x < BSIZE && g.board[x] != EMPTY_SLOT
  {
    assert ChainOk(g.board, g.players[i], g.chains[i]);
    var k :| 0 <= k < |g.chains[i]| && g.chains[i][k] == x;
    assert g.chains[i][k] < BSIZE;
    assert Covered(g.chains, x);
  }

  /** Replacing one player's chain: the others are untouched, the new one is a chain, and the board shows exactly the
      replaced cells differently. */
  lemma ReplaceChain(g: Game, g': Game, i: nat)
    requires Valid(g) && i < |g.players| && |g'.board| == BSIZE
    requires |g'.players| == |g'.chains| == |g.players|
    requires g'.players == g.players[i := g'.players[i]] && g'.chains == g.chains[i := g'.chains[i]]
    requires ChainOk(g'.board, g'.players[i], g'.chains[i])
    requires forall x :: x in g'.chains[i] ==> x in g.chains[i] || (x < BSIZE && g.board[x] == EMPTY_SLOT)
    requires forall x :: 0 <= x < BSIZE && x !in g.chains[i] && x !in g'.chains[i] ==> g'.board[x] == g.board[x]
    requires forall x :: 0 <= x < BSIZE && (x in g.chains[i] || x in g'.chains[i]) ==>
               (g'.board[x] != EMPTY_SLOT <==> x in g'.chains[i])
    requires g'.food < BSIZE || g'.food == EMPTY_SLOT
    ensures Valid(g')
  {
    forall j | 0 <= j < |g.players| && j != i
      ensures ChainOk(g'.board, g'.players[j], g'.chains[j])
    {
      forall x | x in g.chains[j] ensures x < BSIZE && g'.board[x] == g.board[x] {
        CellOnBoard(g, j, x);
      }
      ChainFrame(g.board, g'.board, g.players[j], g.chains[j]);
    }
    forall a, b, x | 0 <= a < b < |g'.chains| && x in g'.chains[a] ensures x !in g'.chains[b] {
      if x in g'.chains[b] {
        if a != i { CellOnBoard(g, a, x); }
        if b != i { CellOnBoard(g, b, x); }
      }
    }
    forall x | 0 <= x < BSIZE ensures g'.board[x] != EMPTY_SLOT <==> Covered(g'.chains, x) {
      if x in g'.chains[i] {
        assert Covered(g'.chains, x);
      } else if x in g.chains[i] {
        assert forall j :: 0 <= j < |g'.chains| ==> x !in g'.chains[j];
      } else {
        assert forall j :: 0 <= j < |g'.chains| ==> (x in g'.chains[j] <==> x in g.chains[j]);
        assert Covered(g'.chains, x) <==> Covered(g.chains, x);
      }
    }
  }

  lemma SpawnKeeps(g: Game, i: nat, tail: nat)
    requires Valid(g) && i < |g.players| && g.players[i].status.NeedSpawn? && FreePair(g.board, tail)
    ensures Valid(Next(g, Spawn(i, tail)))
  {
    var g' := Next(g, Spawn(i, tail));
    var head := NextHead(tail, 1, 0);
    NextHeadBack(tail, 1, 0);
    assert ChainOk(g.board, g.players[i], g.chains[i]);
    assert g'.chains[i] == [tail, head];
    ReplaceChain(g, g', i);
  }

  lemma MoveKeeps(g: Game, i: nat)
    requires Valid(g) && i < |g.players| && g.players[i].status.Playing?
    ensures Valid(Next(g, Advance(i)))
  {
    var g', p, c := Next(g, Advance(i)), g.players[i], g.chains[i];
    assert ChainOk(g.board, p, c);
    var next := NextHead(p.head, p.dx, p.dy);
    if g.board[next] == EMPTY_SLOT {
      if next in c {
        CellOnBoard(g, i, next);
      }
      MovedChain(g.board, p, c, next, next == g.food);
      hide Stepped, Grown, ChainOk;
      ReplaceChain(g, g', i);
    } else {
      ReplaceChain(g, g', i);
    }
  }

  lemma GrownCells(c: seq<nat>, next: nat, grow: bool)
    requires |c| >= 2 && NoDup(c) && next !in c
    ensures var c' := Grown(c, next, grow);
            && |c'| >= 2 && NoDup(c') && c'[|c'| - 1] == next && c'[0] == (if grow then c[0] else c[1])
            && (forall x :: x in c' <==> x == next || (x in c && (grow || x != c[0])))
  {
    var c', d := Grown(c, next, grow), if grow then 0 else 1;
    assert forall k :: 0 <= k < |c'| - 1 ==> c'[k] == c[k + d];
    assert c == [c[0]] + c[1..];
  }

  lemma SteppedBoard(board: seq<nat>, c: seq<nat>, next: nat, grow: bool)
    requires |board| == BSIZE && |c| >= 2 && NoDup(c) && Linked(board, c) && next < BSIZE && next !in c
    ensures c[0] < BSIZE && c[|c| - 1] < BSIZE && board[c[0]] == c[1]
    ensures var b' := Stepped(board, c[0], c[|c| - 1], next, grow);
            && Linked(b', Grown(c, next, grow))
            && (forall x :: 0 <= x < BSIZE && x !in c && x != next ==> b'[x] == board[x])
            && (!grow ==> b'[c[0]] == EMPTY_SLOT)
  {
    var c', d := Grown(c, next, grow), if grow then 0 else 1;
    assert c[0] < BSIZE && c[|c| - 1] < BSIZE;
    var b' := Stepped(board, c[0], c[|c| - 1], next, grow);
    forall k | 0 <= k < |c'| ensures c'[k] < BSIZE && b'[c'[k]] == if k + 1 < |c'| then c'[k + 1] else HEAD_SLOT {
      if k + 1 < |c'| {
        assert c'[k] == c[k + d] && c[k + d] in c;
        assert k + 2 < |c'| ==> c'[k + 1] == c[k + d + 1];
      }
    }
  }

  // The snake itself after a step into a free cell.
  lemma MovedChain(board: seq<nat>, p: Player, c: seq<nat>, next: nat, grow: bool)
    requires |board| == BSIZE && p.status.Playing? && ChainOk(board, p, c) && next < BSIZE && next !in c
    ensures p.tail < BSIZE && p.head < BSIZE && c != []
    ensures var b', c' := Stepped(board, p.tail, p.head, next, grow), Grown(c, next, grow);
            && ChainOk(b', p.(head := next, tail := if grow then p.tail else board[p.tail]), c')
            && (forall x :: x in c' <==> x == next || (x in c && (grow || x != c[0])))
            && (forall x :: 0 <= x < BSIZE && x !in c && x != next ==> b'[x] == board[x])
            && (!grow ==> b'[c[0]] == EMPTY_SLOT)
  {
    GrownCells(c, next, grow);
    SteppedBoard(board, c, next, grow);
    hide Linked, NoDup, Stepped, Grown;
  }

  // Which player of g sits at slot j once slot i was filled with the last one.
  function Source(last: nat, i: nat, j: nat): nat {
    if j == i then last else j
  }

  lemma KilledChain(g: Game, i: nat, j: nat)
    requires Valid(g) && i < |g.players| && j < |g.players| - 1
    ensures var g', s := Killed(g, i), Source(|g.players| - 1, i, j);
            && g'.chains[j] == g.chains[s] && g'.players[j] == g.players[s]
            && ChainOk(g'.board, g'.players[j], g'.chains[j])
  {
    hide Covered;
    var g', s := Killed(g, i), Source(|g.players| - 1, i, j);
    forall x | x in g.chains[s] ensures x < BSIZE && g'.board[x] == g.board[x] {
      CellOnBoard(g, s, x);
    }
    hide ChainOk;
    ChainFrame(g.board, g'.board, g.players[s], g.chains[s]);
  }

  lemma KillKeeps(g: Game, i: nat)
    requires Valid(g) && i < |g.players| && g.players[i].status.NeedKill?
    ensures Valid(Killed(g, i))
  {
    hide ChainOk;
    var g', last := Killed(g, i), |g.players| - 1;
    forall j | 0 <= j < last
      ensures ChainOk(g'.board, g'.players[j], g'.chains[j]) && g'.chains[j] == g.chains[Source(last, i, j)]
    {
      KilledChain(g, i, j);
    }
    forall x | 0 <= x < BSIZE ensures g'.board[x] != EMPTY_SLOT <==> Covered(g'.chains, x) {
      if g'.board[x] != EMPTY_SLOT {
        var j :| 0 <= j < |g.chains| && x in g.chains[j];
        var k := if j == last then i else j;
        assert x in g'.chains[k];
      } else {
        assert forall j :: 0 <= j < last ==> x !in g.chains[Source(last, i, j)];
      }
    }
  }

  // Events that only change a player's status or heading, or add an unspawned player.
  lemma QuietKeeps(g: Game, e: Event)
    requires Valid(g) && (e.Join? || e.Named? || e.Steer? || e.Drop? || e.Feed?)
    ensures Valid(Next(g, e))
  {
    var g' := Next(g, e);
    if e.Join? {
      if |g.players| < MAX_PLAYERS {
        assert forall x :: Covered(g'.chains, x) <==> Covered(g.chains, x) by {
          forall x ensures Covered(g'.chains, x) <==> Covered(g.chains, x) {
            assert forall i :: 0 <= i < |g.chains| ==> g'.chains[i] == g.chains[i];
          }
        }
      }
    } else if !e.Feed? && e.i < |g.players| {
      assert ChainOk(g.board, g.players[e.i], g.chains[e.i]);
      assert g'.chains == g.chains[e.i := g'.chains[e.i]];
      forall x | x in g.chains[e.i] ensures x < BSIZE && g.board[x] != EMPTY_SLOT { CellOnBoard(g, e.i, x); }
      ReplaceChain(g, g', e.i);
    }
  }

  lemma NextKeeps(g: Game, e: Event)
    requires Valid(g)
    ensures Valid(Next(g, e))
  {
    hide ChainOk, Disjoint, Covered, Moved, Killed, FreePair;
    match e
    case Spawn(i, tail) =>
      if i < |g.players| && g.players[i].status.NeedSpawn? && FreePair(g.board, tail) {
        SpawnKeeps(g, i, tail);
      }
    case Advance(i) =>
      if i < |g.players| && g.players[i].status.Playing? {
        MoveKeeps(g, i);
      }
    case Kill(i) =>
      if i < |g.players| && g.players[i].status.NeedKill? {
        KillKeeps(g, i);
      }
    case _ => QuietKeeps(g, e);
  }

  ghost function Run(g: Game, events: seq<Event>): (g': Game)
    requires Valid(g)
    ensures Valid(g')
  {
    if events == [] then g
    else
      var before := Run(g, events[..|events| - 1]);
      NextKeeps(before, events[|events| - 1]);
      Next(before, events[|events| - 1])
  }

  lemma RunSnoc(g: Game, events: seq<Event>, e: Event)
    requires Valid(g)
    ensures Run(g, events + [e]) == Next(Run(g, events), e)
  {
    assert (events + [e])[..|events|] == events;
  }

  lemma NewGameValid()
    ensures Valid(NewGame())
  {
  }

  // A whole game from the empty board.
  ghost function Play(events: seq<Event>): (g: Game)
    ensures Valid(g)
  {
    NewGameValid();
    Run(NewGame(), events)
  }

  /** Whatever is typed, joined, eaten or dropped, in whatever order: a cell of the board is non-empty exactly when it
      lies on a snake, and it then lies on only one. */
  lemma CellsAreSnakes(events: seq<Event>, x: nat, i: nat, j: nat)
    requires x < BSIZE
    ensures var g := Play(events);
            && |g.board| == BSIZE && |g.chains| == |g.players| <= MAX_PLAYERS
            && (g.board[x] != EMPTY_SLOT <==> exists s :: 0 <= s < |g.chains| && x in g.chains[s])
            && (i < j < |g.chains| ==> !(x in g.chains[i] && x in g.chains[j]))
  {
    hide ChainOk, Run, NewGame, Next;
    var g := Play(events);
    assert g.board[x] != EMPTY_SLOT <==> Covered(g.chains, x);
  }

  /** Every snake has at least two cells, visits none twice, and leads from its player's tail along the links to a
      HEAD_SLOT at its player's head; every player in play has one, and none before it is spawned. */
  lemma SnakesAreLists(events: seq<Event>, i: nat, k: nat)
    requires i < |Play(events).players|
    ensures var g := Play(events);
            && |g.board| == BSIZE && |g.chains| == |g.players|
            && var p, c := g.players[i], g.chains[i];
            && (p.status.Playing? ==> c != [])
            && (p.status.GettingName? || p.status.NeedSpawn? ==> c == [])
            && (c == [] <==> p.head == EMPTY_SLOT)
            && (c != [] ==> |c| >= 2 && NoDup(c) && p.tail == c[0] && p.head == c[|c| - 1])
            && (k < |c| ==> c[k] < BSIZE && g.board[c[k]] == if k + 1 < |c| then c[k + 1] else HEAD_SLOT)
  {
    hide Disjoint, Covered, Run, NewGame, Next, Direction;
    var g := Play(events);
    assert ChainOk(g.board, g.players[i], g.chains[i]);
  }

  // ---------------------------------------------------------------- what the events come to

  // The cell one step from another, by coordinates.
  predicate StepsTo(cell: nat, dx: int, dy: int, next: nat) {
    next < BSIZE && next % 64 == (cell % 64 + dx) % 64 && next / 64 == (cell / 64 + dy) % 64
  }

  lemma StepsToIs(cell: nat, dx: int, dy: int, next: nat)
    requires cell < BSIZE && -1 <= dx <= 1 && -1 <= dy <= 1 && StepsTo(cell, dx, dy, next)
    ensures next == NextHead(cell, dx, dy)
  {
    NextHeadCoords(cell, dx, dy);
    var n := NextHead(cell, dx, dy);
    assert next == next / 64 * 64 + next % 64 && n == n / 64 * 64 + n % 64;
  }

  /** A move, told by the snakes: into a cell of any snake, its own tail included, the snake only dies; into a free cell it
      goes on, leaving its tail behind; and onto food it grows, and the food is gone. */
  lemma AdvanceIs(g: Game, i: nat, next: nat)
    requires Valid(g) && i < |g.players| && g.players[i].status.Playing?
    requires g.chains[i] != [] ==> var c := g.chains[i]; StepsTo(c[|c| - 1], g.players[i].dx, g.players[i].dy, next)
    ensures var p, c, g' := g.players[i], g.chains[i], Next(g, Advance(i));
            && c != []
            && if Covered(g.chains, next) then g' == g.(players := g.players[i := p.(status := NeedKill)])
               else
                 && g'.chains == g.chains[i := (if next == g.food then c else c[1..]) + [next]]
                 && g'.food == (if next == g.food then EMPTY_SLOT else g.food)
                 && |g'.players| == |g.players| && g'.players == g.players[i := g'.players[i]]
                 && g'.players[i] == p.(head := next, tail := g'.players[i].tail)
  {
    var p, c := g.players[i], g.chains[i];
    assert ChainOk(g.board, p, c);
    assert c[|c| - 1] < BSIZE;
    StepsToIs(p.head, p.dx, p.dy, next);
    hide ChainOk, Disjoint, Covered, NextHead, Stepped;
  }

  /** A spawn: the snake is the free cell and the one to its right, and heads right. */
  lemma SpawnIs(g: Game, i: nat, tail: nat, head: nat)
    requires Valid(g) && i < |g.players| && g.players[i].status.NeedSpawn? && tail < BSIZE && StepsTo(tail, 1, 0, head)
    ensures var g' := Next(g, Spawn(i, tail));
            if Covered(g.chains, tail) || Covered(g.chains, head) then g' == g
            else
              && g'.chains == g.chains[i := [tail, head]] && g'.food == g.food
              && g'.players == g.players[i := Player(head, tail, 1, 0, Playing)]
  {
    StepsToIs(tail, 1, 0, head);
    hide ChainOk, Disjoint, NextHead;
  }

  /** A kill: the snake is gone, the last player has its place, and nobody else is touched. */
  lemma KillIs(g: Game, i: nat, x: nat)
    requires Valid(g) && i < |g.players| && g.players[i].status.NeedKill? && x < BSIZE
    ensures var g', last := Next(g, Kill(i)), |g.players| - 1;
            && |g'.players| == |g'.chains| == last && g'.food == g.food
            && (forall j :: 0 <= j < last ==>
                  g'.players[j] == g.players[Source(last, i, j)] && g'.chains[j] == g.chains[Source(last, i, j)])
            && g'.board[x] == if x in g.chains[i] then EMPTY_SLOT else g.board[x]
  {
    hide ChainOk, Disjoint, Covered;
  }

  /** The other events, told by the player they are about: joining adds a player without a snake, a name lets it be
      spawned, a key turns a playing one, and a broken connection has it removed.  No snake, no cell and no food changes. */
  lemma QuietIs(g: Game, e: Event)
    requires Valid(g) && (e.Join? || e.Named? || e.Steer? || e.Drop?)
    ensures var g', n := Next(g, e), |g.players|;
            && g'.board == g.board && g'.food == g.food && g.chains <= g'.chains
            && (e.Join? && n < MAX_PLAYERS ==>
                  && |g'.players| == n + 1 && g.players <= g'.players
                  && g'.players[n].status.GettingName? && g'.chains[n] == [])
            && (!e.Join? && e.i < n ==>
                  var p, p' := g.players[e.i], g'.players[e.i];
                  && g'.players == g.players[e.i := p'] && p'.head == p.head && p'.tail == p.tail
                  && (e.Named? && p.status.GettingName? ==> p'.status.NeedSpawn?)
                  && (e.Steer? && p.status.Playing? && Direction(e.dx, e.dy) ==> (p'.dx, p'.dy) == (e.dx, e.dy))
                  && (e.Drop? && p.status in {Playing, GettingName} ==> p'.status.NeedKill?))
  {
    hide ChainOk, Disjoint, Covered;
  }
}
