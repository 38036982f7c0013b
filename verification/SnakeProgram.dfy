/** The server's own loops over the board array and the player table, each tied to the events of module Snake. */
module SnakeProgram {
  import opened Basics
  import opened Snake

  // Cells to go from `from` round to `to`.
  function Gap(from: nat, to: nat): nat
    requires from < BSIZE && to < BSIZE
  {
    if from <= to then to - from else to + BSIZE - from
  }

  function Advances(n: nat): (log: seq<Event>) {
    seq(n, i requires 0 <= i => Advance(i))
  }

  // The k-th cell from x on, going round the board.
  function Round(x: nat, k: nat): (cell: nat)
    ensures cell < BSIZE
  {
    (x + k) % BSIZE
  }

  // None of the n cells from x on starts a free pair.
  ghost predicate NoPairs(board: seq<nat>, x: nat, n: nat)
    requires |board| == BSIZE
  {
    forall k :: 0 <= k < n ==> !FreePair(board, Round(x, k))
  }

  lemma RoundOn(x: nat, k: nat)
    ensures (Round(x, k) + 1) % BSIZE == Round(x, k + 1)
  {
  }

  lemma RoundFrom(x: nat)
    ensures (x % BSIZE + 1) % BSIZE == Round(x + 1, 0) && x % BSIZE == Round(x, 0)
  {
  }

  // The traversal of a chain at its k-th cell: what the cell links to, and the board once it is cleared as well.
  lemma ClearedStep(board: seq<nat>, c: seq<nat>, k: nat)
    requires |board| == BSIZE && Linked(board, c) && NoDup(c) && k < |c|
    ensures c[k] < BSIZE && Cleared(board, c[..k])[c[k]] == if k + 1 < |c| then c[k + 1] else HEAD_SLOT
    ensures k + 1 < |c| ==> c[k + 1] < BSIZE
    ensures Cleared(board, c[..k])[c[k] := EMPTY_SLOT] == Cleared(board, c[..k + 1])
  {
    assert c[k] !in c[..k];
    assert k + 1 < |c| ==> c[k + 1] < BSIZE;
    assert c[..k + 1] == c[..k] + [c[k]];
  }

  class Server {
    const board: array<nat>
    const players: array<Player>
    var freeHd: nat
    var food: nat
    ghost var chains: seq<seq<nat>>

    ghost predicate Shaped()
      reads this
    {
      board.Length == BSIZE && players.Length == MAX_PLAYERS && freeHd <= MAX_PLAYERS
    }

    ghost function State(): Game
      requires Shaped()
      reads this, board, players
    {
      Game(board[..], players[..freeHd], food, chains)
    }

    ghost predicate Ok()
      reads this, board, players
    {
      Shaped() && Valid(State())
    }

    constructor ()
      ensures Ok() && State() == NewGame() && fresh(board) && fresh(players)
    {
      board := new nat[BSIZE](_ => EMPTY_SLOT);
      players := new Player[MAX_PLAYERS](_ => Player(0, 0, 0, 0, GettingName));
      freeHd, food, chains := 0, 7, [];
      new;
      assert board[..] == NewGame().board;
      NewGameValid();
    }

    method AllocPlayer()
      requires Ok() && freeHd != MAX_PLAYERS
      modifies this, players
      ensures Ok() && State() == Next(old(State()), Join)
    {
      hide ChainOk, Disjoint, Covered;
      NextKeeps(State(), Join);
      players[freeHd] := Player(EMPTY_SLOT, 0, 0, 0, GettingName);
      freeHd := freeHd + 1;
      chains := chains + [[]];
      assert players[..freeHd] == old(players[..freeHd]) + [players[freeHd - 1]];
    }

    /** Finds the first free pair going round the board from behind the clock's cell; `room` is any free pair. */
    method SpawnPlayer(i: nat, now: nat, ghost room: nat) returns (tail: nat, ghost skipped: nat)
      requires Ok() && i < freeHd && players[i].status.NeedSpawn? && FreePair(board[..], room)
      modifies this, board, players
      ensures Ok() && FreePair(old(board[..]), tail) && State() == Next(old(State()), Spawn(i, tail))
      ensures tail == Round(now + 1, skipped)
      ensures NoPairs(old(board[..]), now + 1, skipped)
    {
      hide ChainOk, Disjoint, Covered, NextHead, Round;
      ghost var g := State();
      tail := (now % BSIZE + 1) % BSIZE;
      skipped := 0;
      RoundFrom(now);
      var head := NextHead(tail, 1, 0);
      while board[head] != EMPTY_SLOT || board[tail] != EMPTY_SLOT
        invariant Shaped() && tail < BSIZE && head == NextHead(tail, 1, 0) && State() == g
        invariant tail == Round(now + 1, skipped)
        invariant NoPairs(g.board, now + 1, skipped)
        decreases Gap(tail, room)
      {
        RoundOn(now + 1, skipped);
        skipped := skipped + 1;
        tail := (tail + 1) % BSIZE;
        head := NextHead(tail, 1, 0);
      }
      NextKeeps(g, Spawn(i, tail));
      players[i] := Player(head, tail, 1, 0, Playing);
      board[tail] := head;
      board[head] := HEAD_SLOT;
      chains := chains[i := [tail, head]];
      assert State() == Next(g, Spawn(i, tail));
    }

    method MoveSnake(i: nat)
      requires Ok() && i < freeHd
      modifies this, board, players
      ensures Ok() && freeHd == old(freeHd) && State() == Next(old(State()), Advance(i))
    {
      hide Disjoint, Covered, NextHead, NoDup;
      ghost var g := State();
      NextKeeps(g, Advance(i));
      var p := players[i];
      if !p.status.Playing? {
        return;
      }
      assert ChainOk(g.board, g.players[i], g.chains[i]);
      var head, tail := p.head, p.tail;
      var next := NextHead(head, p.dx, p.dy);
      var gotFood := next == food;
      if board[next] != EMPTY_SLOT {
        players[i] := p.(status := NeedKill);
        assert State() == Next(g, Advance(i));
        return;
      }
      if !gotFood {
        var nextTail := board[tail];
        board[tail] := EMPTY_SLOT;
        tail := nextTail;
      }
      board[head] := next;
      head := next;
      board[head] := HEAD_SLOT;
      if gotFood {
        food := EMPTY_SLOT;
      }
      players[i] := p.(head := head, tail := tail);
      chains := chains[i := Grown(chains[i], next, gotFood)];
      assert State() == Next(g, Advance(i));
    }

    /** The move phase: every player in turn, each against the board its predecessors left. */
    method MoveSnakes()
      requires Ok()
      modifies this, board, players
      ensures Ok() && freeHd == old(freeHd) && State() == Run(old(State()), Advances(freeHd))
    {
      hide Valid, Next;
      ghost var g := State();
      var i := 0;
      while i < freeHd
        invariant Ok() && i <= freeHd == old(freeHd) && State() == Run(g, Advances(i))
      {
        RunSnoc(g, Advances(i), Advance(i));
        assert Advances(i + 1) == Advances(i) + [Advance(i)];
        MoveSnake(i);
        i := i + 1;
      }
    }

    /** Food is put on the first free cell going round from the clock's; `room` is any free cell. */
    method PlaceFood(now: nat, ghost room: nat) returns (ghost skipped: nat)
      requires Ok() && (food == EMPTY_SLOT ==> room < BSIZE && board[room] == EMPTY_SLOT)
      modifies this`food
      ensures Ok() && food != EMPTY_SLOT && State() == Next(old(State()), Feed(food))
      ensures old(food) == EMPTY_SLOT ==>
                && board[food] == EMPTY_SLOT && food == Round(now, skipped)
                && forall k :: 0 <= k < skipped ==> board[Round(now, k)] != EMPTY_SLOT
    {
      hide ChainOk, Disjoint, Covered, Round;
      ghost var g := State();
      RoundFrom(now);
      skipped := 0;
      if food == EMPTY_SLOT {
        var x := now % BSIZE;
        while board[x] != EMPTY_SLOT
          invariant 0 <= x < BSIZE && x == Round(now, skipped)
          invariant forall k :: 0 <= k < skipped ==> board[Round(now, k)] != EMPTY_SLOT
          decreases Gap(x, room)
        {
          RoundOn(now, skipped);
          skipped := skipped + 1;
          x := (x + 1) % BSIZE;
        }
        NextKeeps(g, Feed(x));
        food := x;
      }
    }

    /** The traversal of a dead snake ends and clears exactly its cells. */
    method ClearSnake(i: nat)
      requires Ok() && i < freeHd && players[i].head != EMPTY_SLOT
      modifies board
      ensures board[..] == Cleared(old(board[..]), chains[i])
    {
      ghost var c, b := chains[i], board[..];
      assert ChainOk(b, players[..freeHd][i], c);
      assert c != [] && NoDup(c) && Linked(b, c) && players[i].tail == c[0];
      assert Cleared(b, c[..0]) == b;
      ClearedStep(b, c, 0);
      hide Ok, ChainOk, NoDup, Linked, Cleared;
      var tail := players[i].tail;
      ghost var k := 0;
      while true
        invariant 0 <= k < |c| && tail == c[k] < BSIZE && board[..] == Cleared(b, c[..k])
        decreases |c| - k
      {
        ClearedStep(b, c, k);
        var nextTail := board[tail];
        board[tail] := EMPTY_SLOT;
        tail := nextTail;
        k := k + 1;
        if tail == HEAD_SLOT {
          break;
        }
      }
      assert c[..k] == c;
    }

    method KillPlayer(i: nat)
      requires Ok() && i < freeHd && players[i].status.NeedKill?
      modifies this, board, players
      ensures Ok() && freeHd == old(freeHd) - 1 && State() == Next(old(State()), Kill(i))
      ensures forall k :: 0 <= k < freeHd && k != i ==> players[k] == old(players[k])
    {
      hide Disjoint, Covered, NoDup, Linked;
      ghost var g := State();
      NextKeeps(g, Kill(i));
      assert ChainOk(g.board, g.players[i], g.chains[i]);
      if players[i].head != EMPTY_SLOT {
        ClearSnake(i);
      } else {
        assert board[..] == Cleared(g.board, g.chains[i]);
      }
      players[i] := players[freeHd - 1];
      freeHd := freeHd - 1;
      chains := chains[i := chains[freeHd]][..freeHd];
      assert players[..freeHd] == g.players[i := g.players[freeHd]][..freeHd];
    }

    /** The kill phase: afterwards nobody is left to kill.  The slot just filled with the last player is looked at again. */
    method KillPlayers() returns (ghost log: seq<Event>)
      requires Ok()
      modifies this, board, players
      ensures Ok() && State() == Run(old(State()), log)
      ensures forall k :: 0 <= k < |log| ==> log[k].Kill?
      ensures forall k :: 0 <= k < freeHd ==> !players[k].status.NeedKill?
    {
      hide Valid, Killed;
      ghost var g := State();
      var i := 0;
      log := [];
      while i < freeHd
        invariant Ok() && i <= freeHd && State() == Run(g, log)
        invariant forall k :: 0 <= k < |log| ==> log[k].Kill?
        invariant forall k :: 0 <= k < i ==> !players[k].status.NeedKill?
        decreases freeHd - i
      {
        if players[i].status.NeedKill? {
          RunSnoc(g, log, Kill(i));
          KillPlayer(i);
          log := log + [Kill(i)];
        } else {
          i := i + 1;
        }
      }
    }
  }
}
