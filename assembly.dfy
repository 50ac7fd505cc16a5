/**
 * `CubeScanner::scan`: six faces are captured in turn; every capture is shown on the cube net and
 * the operator either accepts it (key `n` or `N`), which writes its nine colours into the cube and
 * moves on to the next face, or presses any other key to capture the same face again.
 *
 * The camera, the windows and the keyboard are replaced by a finite sequence of events, each the
 * grid one capture produced and the key pressed after it.
 */
module Assembly {
  import opened Types

  /** One `setColor(face, row, col, color)` call on the cube. */
  datatype ColorWrite = ColorWrite(face: nat, row: nat, col: nat, color: Color)

  /** One round of the rescan loop: the captured grid and the key code the operator pressed. */
  datatype Event = Event(grid: FaceGrid, key: int)

  /** The number of faces of the cube. */
  const FaceCount: nat := 6

  /** The keys that accept a capture. */
  predicate Accepts(key: int)
  {
    key == 'n' as int || key == 'N' as int
  }

  /** The cube being filled in. Only the calls it receives are modelled. */
  class RubiksCube {
    var calls: seq<ColorWrite>

    constructor ()
      ensures calls == []
    {
      calls := [];
    }

    /** Sets the colour of one facelet. */
    method SetColor(face: nat, row: nat, col: nat, color: Color)
      modifies this
      ensures calls == old(calls) + [ColorWrite(face, row, col, color)]
    {
      calls := calls + [ColorWrite(face, row, col, color)];
    }
  }

  /** The three writes that commit `row` as row `i` of face `face`, left to right. */
  function RowWrites(face: nat, i: nat, row: seq<Color>): seq<ColorWrite>
    requires |row| == 3
  {
    [ColorWrite(face, i, 0, row[0]), ColorWrite(face, i, 1, row[1]), ColorWrite(face, i, 2, row[2])]
  }

  /** The writes that commit the first `n` rows of `grid` as face `face`. */
  function RowsWrites(face: nat, grid: FaceGrid, n: nat): (ws: seq<ColorWrite>)
    requires n <= 3
    ensures |ws| == 3 * n
  {
    if n == 0 then [] else RowsWrites(face, grid, n - 1) + RowWrites(face, n - 1, grid[n - 1])
  }

  /** The nine writes that commit `grid` as face `face`, row by row. */
  function FaceWrites(face: nat, grid: FaceGrid): (ws: seq<ColorWrite>)
    ensures |ws| == 9
  {
    RowsWrites(face, grid, 3)
  }

  /** Write 3 i + j of a face commits facelet (i, j) with its colour on the grid. */
  lemma FaceWritesAt(face: nat, grid: FaceGrid)
    ensures forall i, j | 0 <= i < 3 && 0 <= j < 3 :: FaceWrites(face, grid)[3 * i + j] == ColorWrite(face, i, j, grid[i][j])
  {
    var r0, r1, r2 := RowWrites(face, 0, grid[0]), RowWrites(face, 1, grid[1]), RowWrites(face, 2, grid[2]);
    assert RowsWrites(face, grid, 1) == r0;
    assert RowsWrites(face, grid, 2) == r0 + r1;
    assert FaceWrites(face, grid) == r0 + r1 + r2;
  }

  /** Every write of a face names a real facelet of it. */
  lemma FaceWritesOnCube(face: nat, grid: FaceGrid)
    requires face < FaceCount
    ensures forall n | 0 <= n < 9 :: OnCube(FaceWrites(face, grid)[n])
  {
    FaceWritesAt(face, grid);
    forall n | 0 <= n < 9
      ensures OnCube(FaceWrites(face, grid)[n])
    {
      var i, j := n / 3, n % 3;
      assert n == 3 * i + j;
      assert FaceWrites(face, grid)[3 * i + j] == ColorWrite(face, i, j, grid[i][j]);
    }
  }

  /** What a scanning session has done so far: the face being scanned, the net shown, the calls made. */
  datatype Session = Session(face: nat, cubeGrid: CubeGrid, writes: seq<ColorWrite>)

  /** A session before the first capture: face 0, an all-white net, no calls. */
  const Start: Session := Session(0, AllWhiteCube, [])

  /**
   * One capture: it replaces the current face on the net whatever the key; an accepting key also
   * commits it and moves on. Once all six faces are done nothing happens any more.
   */
  function Step(s: Session, e: Event): Session
  {
    if s.face >= FaceCount then s
    else
      var net := s.cubeGrid[s.face := e.grid];
      if Accepts(e.key) then Session(s.face + 1, net, s.writes + FaceWrites(s.face, e.grid))
      else Session(s.face, net, s.writes)
  }

  /** The session after a sequence of captures. */
  function Run(events: seq<Event>): Session
  {
    if events == [] then Start else Step(Run(events[..|events| - 1]), events[|events| - 1])
  }

  /** Commits `grid` as face `face` of `cube`: the nine `setColor` calls of the accept branch. */
  method CommitFace(cube: RubiksCube, face: nat, grid: FaceGrid)
    modifies cube
    ensures cube.calls == old(cube.calls) + FaceWrites(face, grid)
  {
    for i := 0 to 3
      invariant cube.calls == old(cube.calls) + RowsWrites(face, grid, i)
    {
      CommitRow(cube, face, i, grid[i]);
    }
  }

  /** The inner loop of the accept branch: the three `setColor` calls of row `i`. */
  method CommitRow(cube: RubiksCube, face: nat, i: nat, row: seq<Color>)
    requires |row| == 3
    modifies cube
    ensures cube.calls == old(cube.calls) + RowWrites(face, i, row)
  {
    for j := 0 to 3
      invariant cube.calls == old(cube.calls) + RowWrites(face, i, row)[..j]
    {
      cube.SetColor(face, i, j, row[j]);
      assert RowWrites(face, i, row)[..j + 1] == RowWrites(face, i, row)[..j] + [ColorWrite(face, i, j, row[j])];
    }
  }

  /**
   * Runs the scanning session over `events` until six faces are accepted or the events run out.
   * Returns the net, the number of accepted faces and the number of events consumed.
   */
  method Scan(cube: RubiksCube, events: seq<Event>) returns (cubeGrid: CubeGrid, face: nat, used: nat)
    modifies cube
    ensures used <= |events|
    ensures Run(events[..used]).face == face && Run(events[..used]).cubeGrid == cubeGrid
    ensures cube.calls == old(cube.calls) + Run(events[..used]).writes
    ensures face == FaceCount || used == |events|
    ensures face == FaceCount ==> Run(events) == Run(events[..used])
  {
    cubeGrid := AllWhiteCube;
    face := 0;
    used := 0;
    ghost var before := cube.calls;
    assert events[..0] == [];
    while face < FaceCount && used < |events|
      invariant used <= |events|
      invariant face <= FaceCount
      invariant |before| <= |cube.calls| && cube.calls[..|before|] == before
      invariant Run(events[..used]) == Session(face, cubeGrid, cube.calls[|before|..])
    {
      var e := events[used];
      assert events[..used + 1][..used] == events[..used];
      cubeGrid := cubeGrid[face := e.grid];
      if Accepts(e.key) {
        CommitFace(cube, face, e.grid);
        face := face + 1;
      }
      used := used + 1;
    }
    assert cube.calls == before + cube.calls[|before|..];
    if face == FaceCount {
      assert events == events[..used] + events[used..];
      Finished(events[..used], events[used..]);
    }
  }

  /** Captures after the sixth accepted face change nothing. */
  lemma {:induction false} Finished(done: seq<Event>, more: seq<Event>)
    requires Run(done).face == FaceCount
    ensures Run(done + more) == Run(done)
    decreases |more|
  {
    if more != [] {
      var init := more[..|more| - 1];
      assert (done + more)[..|done + more| - 1] == done + init;
      Finished(done, init);
    } else {
      assert done + more == done;
    }
  }

  /** How many of `events` carry an accepting key. */
  function CountAccepts(events: seq<Event>): (n: nat)
    ensures n <= |events|
  {
    if events == [] then 0
    else CountAccepts(events[..|events| - 1]) + (if Accepts(events[|events| - 1].key) then 1 else 0)
  }

  /** The face reached is the number of accepted captures, capped at six. */
  lemma {:induction false} RunFace(events: seq<Event>)
    ensures Run(events).face == if CountAccepts(events) < FaceCount then CountAccepts(events) else FaceCount
  {
    if events != [] {
      RunFace(events[..|events| - 1]);
    }
  }

  /**
   * The bookkeeping a session keeps: one block of nine writes per accepted face, in face order, each
   * block holding exactly the grid the net shows for that face; the faces not reached yet are still
   * all white.
   */
  predicate Committed(s: Session)
  {
    && s.face <= FaceCount
    && |s.writes| == 9 * s.face
    && (forall k | 0 <= k < s.face :: s.writes[9 * k .. 9 * k + 9] == FaceWrites(k, s.cubeGrid[k]))
    && (forall k | s.face < k < FaceCount :: s.cubeGrid[k] == AllWhiteFace)
  }

  /** A capture, accepted or not, keeps the bookkeeping. */
  lemma StepCommitted(s: Session, e: Event)
    requires Committed(s)
    ensures Committed(Step(s, e))
  {
    if s.face < FaceCount && Accepts(e.key) {
      CommitKeepsBookkeeping(s, e.grid);
    }
  }

  /** Accepting `grid` appends its block of nine writes and fixes it on the net. */
  lemma CommitKeepsBookkeeping(s: Session, grid: FaceGrid)
    requires Committed(s) && s.face < FaceCount
    ensures Committed(Session(s.face + 1, s.cubeGrid[s.face := grid], s.writes + FaceWrites(s.face, grid)))
  {
    var t := Session(s.face + 1, s.cubeGrid[s.face := grid], s.writes + FaceWrites(s.face, grid));
    forall k | 0 <= k < t.face
      ensures t.writes[9 * k .. 9 * k + 9] == FaceWrites(k, t.cubeGrid[k])
    {
      if k < s.face {
        AppendSlice(s.writes, FaceWrites(s.face, grid), 9 * k, 9 * k + 9);
      } else {
        assert t.writes[|s.writes|..] == FaceWrites(s.face, grid);
      }
    }
  }

  /** A slice that ends inside `a` is unaffected by appending `b`. */
  lemma AppendSlice<T>(a: seq<T>, b: seq<T>, lo: int, hi: int)
    requires 0 <= lo <= hi <= |a|
    ensures (a + b)[lo..hi] == a[lo..hi]
  {
  }

  /** Every session reached from the start keeps the bookkeeping. */
  lemma {:induction false} RunCommitted(events: seq<Event>)
    ensures Committed(Run(events))
  {
    if events != [] {
      RunCommitted(events[..|events| - 1]);
      StepCommitted(Run(events[..|events| - 1]), events[|events| - 1]);
    }
  }

  /**
   * A finished session has set every one of the 54 facelets exactly once, in face-major, row-major
   * order, to the colour the net shows for it.
   */
  lemma CompleteScan(events: seq<Event>)
    requires Run(events).face == FaceCount
    ensures |Run(events).writes| == 54
    ensures forall f, i, j | 0 <= f < FaceCount && 0 <= i < 3 && 0 <= j < 3 ::
      Run(events).writes[9 * f + 3 * i + j] == ColorWrite(f, i, j, Run(events).cubeGrid[f][i][j])
  {
    var s := Run(events);
    RunCommitted(events);
    forall f, i, j | 0 <= f < FaceCount && 0 <= i < 3 && 0 <= j < 3
      ensures s.writes[9 * f + 3 * i + j] == ColorWrite(f, i, j, s.cubeGrid[f][i][j])
    {
      assert s.writes[9 * f .. 9 * f + 9] == FaceWrites(f, s.cubeGrid[f]);
      FaceWritesAt(f, s.cubeGrid[f]);
      assert s.writes[9 * f + 3 * i + j] == s.writes[9 * f .. 9 * f + 9][3 * i + j];
    }
  }

  /** A call that names a real facelet: face below six, row and column below three. */
  predicate OnCube(w: ColorWrite)
  {
    w.face < FaceCount && w.row < 3 && w.col < 3
  }

  /** Every call of a session names a real facelet. */
  lemma {:induction false} WritesOnCube(events: seq<Event>)
    ensures forall n | 0 <= n < |Run(events).writes| :: OnCube(Run(events).writes[n])
  {
    if events != [] {
      var init := events[..|events| - 1];
      var s, e := Run(init), events[|events| - 1];
      WritesOnCube(init);
      if s.face < FaceCount && Accepts(e.key) {
        var ws := FaceWrites(s.face, e.grid);
        FaceWritesOnCube(s.face, e.grid);
        forall n | 0 <= n < |Run(events).writes|
          ensures OnCube(Run(events).writes[n])
        {
          if n >= |s.writes| {
            assert Run(events).writes[n] == ws[n - |s.writes|];
          }
        }
      }
    }
  }

  /** A rejected capture leaves no trace once the same face is captured again. */
  lemma RejectedCaptureForgotten(events: seq<Event>, rejected: Event, next: Event)
    requires !Accepts(rejected.key)
    ensures Run(events + [rejected, next]) == Run(events + [next])
  {
    var s := Run(events);
    assert (events + [rejected, next])[..|events| + 1] == events + [rejected];
    assert (events + [rejected])[..|events|] == events;
    assert (events + [next])[..|events|] == events;
    if s.face < FaceCount {
      assert Step(s, rejected).cubeGrid[s.face := next.grid] == s.cubeGrid[s.face := next.grid];
    }
  }

  /** Every capture made before the sixth acceptance is shown on the net, in the slot of the face being scanned. */
  lemma CaptureShown(events: seq<Event>, e: Event)
    requires Run(events).face < FaceCount
    ensures Run(events + [e]).cubeGrid[Run(events).face] == e.grid
    ensures forall f | 0 <= f < FaceCount && f != Run(events).face :: Run(events + [e]).cubeGrid[f] == Run(events).cubeGrid[f]
  {
    assert (events + [e])[..|events|] == events;
  }

  /** A capture that is not accepted makes no call and does not move on to the next face. */
  lemma RejectCommitsNothing(events: seq<Event>, e: Event)
    requires !Accepts(e.key)
    ensures Run(events + [e]).face == Run(events).face
    ensures Run(events + [e]).writes == Run(events).writes
  {
    assert (events + [e])[..|events|] == events;
  }
}
