/**
  The board component: the rules library's current board, the position
  strings the component has handed to its parent (`onFenChange`), and the
  result banner. Before a game starts, three gestures edit the board
  freely: dragging a piece, adding a palette piece, clicking a piece away.
  Each gesture extracts the sparse position, edits it, serialises it,
  reloads the board from the string and hands the string to the parent.
  Once the game has started, drops go through the rules library instead.
 */
module BoardComponent {
  import opened Wrappers
  import opened Strings
  import opened Squares
  import opened ChessUtils
  import opened FenParse

  /** The palette letters, white first; case gives the colour. */
  const Palette := "PRNBQKprnbqk"

  /** The first unoccupied square at or after scan index `n`, in the order a8..h8, a7..h7, …, a1..h1. */
  function FirstEmptyFrom(p: Position, n: nat): (i: Option<nat>)
    requires n <= 64
    ensures i.Some? ==> n <= i.value < 64 && SquareAt(i.value) !in p
    ensures i.Some? ==> forall j :: n <= j < i.value ==> SquareAt(j) in p
    ensures i.None? <==> forall j :: n <= j < 64 ==> SquareAt(j) in p
    decreases 64 - n
  {
    if n == 64 then None
    else if SquareAt(n) !in p then Some(n)
    else FirstEmptyFrom(p, n + 1)
  }

  /** The scan index of the first unoccupied square, or nothing when all 64 squares are occupied. */
  function FirstEmpty(p: Position): (i: Option<nat>)
    ensures i.Some? ==> i.value < 64 && SquareAt(i.value) !in p && forall j :: 0 <= j < i.value ==> SquareAt(j) in p
    ensures i.None? <==> forall j :: 0 <= j < 64 ==> SquareAt(j) in p
  {
    FirstEmptyFrom(p, 0)
  }

  /** The first empty square is the only unoccupied square with every earlier square occupied. */
  lemma FirstEmptyIs(p: Position, i: nat)
    requires i < 64 && SquareAt(i) !in p
    requires forall j :: 0 <= j < i ==> SquareAt(j) in p
    ensures FirstEmpty(p) == Some(i)
  {
  }

  /**
    A free drop: the target key takes the source's occupant (whatever stood
    there is overwritten), then the source key is deleted; only the squares
    a1..h8 survive extraction.
   */
  function Relocated(p: Position, source: string, target: string): (q: Position)
    requires source in p
    ensures forall sq :: sq in q ==> ValidSquare(sq)
    ensures source !in q
    ensures ValidSquare(target) && target != source ==> target in q && q[target] == p[source]
    ensures forall sq :: ValidSquare(sq) && sq != source && sq != target ==>
      (sq in q <==> sq in p) && (sq in q ==> q[sq] == p[sq])
  {
    OnBoard(p[target := p[source]] - {source})
  }

  /** Dropping a piece onto its own square deletes it. */
  lemma DropOntoItself(p: Position, source: string)
    requires source in p
    ensures Relocated(p, source, source) == OnBoard(p - {source})
    ensures source !in Relocated(p, source, source)
  {
    assert p[source := p[source]] == p;
  }

  /** A position whose keys are all squares is its own on-board part. */
  lemma OnBoardOfBoard(p: Position)
    requires forall k :: k in p ==> ValidSquare(k)
    ensures OnBoard(p) == p
  {
  }

  /** What the rules library reports about a game. */
  datatype GameStatus = GameStatus(
    checkmate: bool, draw: bool, stalemate: bool, threefold: bool, insufficient: bool,
    turn: string)

  /** The side named as winner of a checkmate: the side that is not to move. */
  function Winner(turn: string): (name: string)
    ensures name == "Black" || name == "White"
    ensures name == "Black" <==> turn == "w"
  {
    if turn == "w" then "Black" else "White"
  }

  /** The result banner: the message of the first predicate that holds, checkmate first; none when none holds. */
  function ResultMessage(s: GameStatus): (message: Option<string>)
    ensures message.None? <==> !(s.checkmate || s.draw || s.stalemate || s.threefold || s.insufficient)
    ensures s.checkmate ==> message == Some("Checkmate! " + Winner(s.turn) + " wins.")
  {
    if s.checkmate then Some("Checkmate! " + Winner(s.turn) + " wins.")
    else if s.draw then Some("Draw!")
    else if s.stalemate then Some("Stalemate!")
    else if s.threefold then Some("Draw by threefold repetition!")
    else if s.insufficient then Some("Draw by insufficient material!")
    else None
  }

  /** The predicates in the order they are consulted, each with the message it selects. */
  function Checks(s: GameStatus): seq<(bool, string)> {
    [(s.checkmate, "Checkmate! " + Winner(s.turn) + " wins."),
     (s.draw, "Draw!"),
     (s.stalemate, "Stalemate!"),
     (s.threefold, "Draw by threefold repetition!"),
     (s.insufficient, "Draw by insufficient material!")]
  }

  /** The message of the first check that holds. */
  function FirstHolding(checks: seq<(bool, string)>): Option<string>
    decreases |checks|
  {
    if checks == [] then None
    else if checks[0].0 then Some(checks[0].1)
    else FirstHolding(checks[1..])
  }

  /** A first-holding choice names a message whose check holds and all of whose predecessors fail. */
  lemma {:induction false} FirstHoldingIsFirst(checks: seq<(bool, string)>)
    ensures FirstHolding(checks).None? <==> forall k :: 0 <= k < |checks| ==> !checks[k].0
    ensures FirstHolding(checks).Some? ==>
      exists k :: 0 <= k < |checks| && checks[k].0 && checks[k].1 == FirstHolding(checks).value &&
        forall j :: 0 <= j < k ==> !checks[j].0
    decreases |checks|
  {
    if checks != [] && !checks[0].0 {
      var rest := checks[1..];
      FirstHoldingIsFirst(rest);
      if FirstHolding(rest).Some? {
        var k :| 0 <= k < |rest| && rest[k].0 && rest[k].1 == FirstHolding(rest).value &&
          forall j :: 0 <= j < k ==> !rest[j].0;
        assert checks[k + 1] == rest[k];
        assert forall j :: 0 <= j < k + 1 ==> !checks[j].0 by {
          forall j | 0 <= j < k + 1 ensures !checks[j].0 {
            if j > 0 { assert checks[j] == rest[j - 1]; }
          }
        }
      } else {
        assert forall k :: 0 <= k < |checks| ==> !checks[k].0 by {
          forall k | 0 <= k < |checks| ensures !checks[k].0 {
            if k > 0 { assert checks[k] == rest[k - 1]; }
          }
        }
      }
    } else if checks != [] {
      assert checks[0].0;
    }
  }

  /**
    The banner follows the fixed priority: checkmate, draw, stalemate,
    threefold repetition, insufficient material; no message when none holds.
   */
  lemma ResultPriority(s: GameStatus)
    ensures ResultMessage(s) == FirstHolding(Checks(s))
    ensures ResultMessage(s).None? <==> !(s.checkmate || s.draw || s.stalemate || s.threefold || s.insufficient)
  {
    var c := Checks(s);
    var c1 := c[1..];
    var c2 := c1[1..];
    var c3 := c2[1..];
    var c4 := c3[1..];
    assert c4[1..] == [];
    assert FirstHolding(c4) == if s.insufficient then Some("Draw by insufficient material!") else None;
    assert FirstHolding(c3) == if s.threefold then Some("Draw by threefold repetition!") else FirstHolding(c4);
    assert FirstHolding(c2) == if s.stalemate then Some("Stalemate!") else FirstHolding(c3);
    assert FirstHolding(c1) == if s.draw then Some("Draw!") else FirstHolding(c2);
  }

  /**
    When the library's draw predicate already covers stalemate, threefold
    repetition and insufficient material, only the checkmate message, the
    plain draw message or no message can appear.
   */
  lemma SpecificDrawsShadowed(s: GameStatus)
    requires s.stalemate || s.threefold || s.insufficient ==> s.draw
    ensures ResultMessage(s) != Some("Stalemate!")
    ensures ResultMessage(s) != Some("Draw by threefold repetition!")
    ensures ResultMessage(s) != Some("Draw by insufficient material!")
  {
    if s.checkmate {
      var m := "Checkmate! " + Winner(s.turn) + " wins.";
      assert m[0] == 'C';
    }
  }

  /** One rank of the standard initial position. */
  function BackRank(color: string): seq<Cell> {
    [Occupied(Piece('r', color)), Occupied(Piece('n', color)), Occupied(Piece('b', color)),
     Occupied(Piece('q', color)), Occupied(Piece('k', color)), Occupied(Piece('b', color)),
     Occupied(Piece('n', color)), Occupied(Piece('r', color))]
  }

  function PawnRank(color: string): seq<Cell> {
    seq(8, _ => Occupied(Piece('p', color)))
  }

  /** The board of a fresh game: black on ranks 8 and 7, white on ranks 2 and 1. */
  function StartGrid(): (g: Grid)
    ensures IsGrid(g) && CanonicalGrid(g)
  {
    var g := [BackRank("b"), PawnRank("b"), Empties(8), Empties(8),
              Empties(8), Empties(8), PawnRank("w"), BackRank("w")];
    assert CanonicalGrid(g) by {
      forall i | 0 <= i < 64 && GridCell(g, i).Occupied?
        ensures Canonical(GridCell(g, i).piece)
      {
        var r, f := i / 8, i % 8;
        assert GridCell(g, i) == g[r][f];
      }
    }
    g
  }

  /** A fully occupied grid row r puts its eight squares into the extracted position. */
  lemma RowOccupied(g: Grid, r: nat)
    requires IsGrid(g) && r < 8
    requires forall f :: 0 <= f < 8 ==> g[r][f].Occupied?
    ensures forall i :: 8 * r <= i < 8 * r + 8 ==> SquareAt(i) in PositionOfGrid(g)
  {
    forall i | 8 * r <= i < 8 * r + 8
      ensures SquareAt(i) in PositionOfGrid(g)
    {
      ScanSquare(r, i - 8 * r);
      PositionOfGridAt(g, r, i - 8 * r);
    }
  }

  /** On a fresh game's board the first sixteen squares in scan order, ranks 8 and 7, are occupied. */
  lemma StartBlackRanksFull()
    ensures forall j :: 0 <= j < 16 ==> SquareAt(j) in PositionOfGrid(StartGrid())
  {
    var g := StartGrid();
    assert g[0] == BackRank("b") && g[1] == PawnRank("b");
    RowOccupied(g, 0);
    RowOccupied(g, 1);
  }

  /** On a fresh game's board scan index 16, a6, is empty. */
  lemma StartA6Empty()
    ensures SquareAt(16) == "a6" && SquareAt(16) !in PositionOfGrid(StartGrid())
  {
    ScanSquare(2, 0);
    PositionOfGridAt(StartGrid(), 2, 0);
  }

  /** Adding a piece to a fresh game puts it on a6, the first square after the black pieces. */
  lemma AddToStartGoesToA6()
    ensures FirstEmpty(PositionOfGrid(StartGrid())) == Some(16)
    ensures SquareAt(16) == "a6"
  {
    var g := StartGrid();
    var p := PositionOfGrid(g);
    StartBlackRanksFull();
    StartA6Empty();
    FirstEmptyIs(p, 16);
  }

  /**
    The search of `addPiece`: ranks 8 down to 1, files a to h, stopping at
    the first square that holds no key of `position`.
   */
  method FindEmptySquare(position: Position) returns (found: Option<string>)
    ensures found.None? <==> FirstEmpty(position).None?
    ensures found.Some? ==> found.value == SquareAt(FirstEmpty(position).value)
  {
    var rank := 8;
    while rank >= 1
      invariant 0 <= rank <= 8
      invariant forall i :: 0 <= i < 8 * (8 - rank) ==> SquareAt(i) in position
      decreases rank
    {
      var fileIdx := 0;
      while fileIdx < 8
        invariant 0 <= fileIdx <= 8
        invariant forall i :: 0 <= i < 8 * (8 - rank) + fileIdx ==> SquareAt(i) in position
      {
        var square := SquareName(fileIdx, rank);
        ScanSquare(8 - rank, fileIdx);
        if square !in position {
          FirstEmptyIs(position, 8 * (8 - rank) + fileIdx);
          return Some(square);
        }
        fileIdx := fileIdx + 1;
      }
      rank := rank - 1;
    }
    return None;
  }

  /** What the library's move produced: its new board and its own position string. */
  datatype MoveOutcome = Moved(board: Grid, fen: string)

  class Board {
    /** The rules library's board snapshot, row 0 = rank 8, column 0 = file a. */
    var game: Grid
    /** Every string handed to the parent's `onFenChange`, oldest first. */
    var emitted: seq<string>
    /** The result banner. */
    var result: Option<string>

    ghost predicate Valid()
      reads this
    {
      IsGrid(game) && CanonicalGrid(game)
    }

    /** The occupants of the current board, keyed by square name. */
    function Occupants(): Position
      reads this
      requires Valid()
    {
      PositionOfGrid(game)
    }

    /** A fresh component holds a fresh game, has emitted nothing and shows no result. */
    constructor ()
      ensures Valid() && game == StartGrid()
      ensures emitted == [] && result == None
    {
      game := StartGrid();
      emitted := [];
      result := None;
    }

    /**
      The common tail of every free edit: serialise the edited position,
      reload the board from the string and hand the string to the parent.
     */
    method Commit(position: Position)
      requires CanonicalPosition(position)
      modifies this
      ensures Valid() && Occupants() == OnBoard(position)
      ensures emitted == old(emitted) + [FenOf(Occupants())]
      ensures result == old(result)
    {
      var newFen := PositionToFen(position);
      LoadFenOf(position);
      var loaded := LoadBoard(newFen);
      game := loaded.value;
      PositionOfGridOf(position);
      FenIgnoresOffBoardKeys(position);
      emitted := emitted + [newFen];
    }

    /**
      A drop before the game starts. It is refused while a game runs, when
      the piece left the board, and when the source square is empty;
      otherwise the piece moves to the target, overwriting its occupant.
     */
    method OnPieceDropFree(started: bool, sourceSquare: string, targetSquare: Option<string>) returns (ok: bool)
      requires Valid()
      modifies this
      ensures Valid()
      ensures ok <==> !started && targetSquare.Some? && sourceSquare in old(Occupants())
      ensures ok ==> Occupants() == Relocated(old(Occupants()), sourceSquare, targetSquare.value)
      ensures ok ==> emitted == old(emitted) + [FenOf(Occupants())] && result == old(result)
      ensures !ok ==> unchanged(this)
    {
      if started {
        return false;
      }
      if targetSquare.None? {
        return false;
      }
      var position := BoardToPosition(game);
      if sourceSquare !in position {
        return false;
      }
      var target := targetSquare.value;
      position := position[target := position[sourceSquare]];
      position := position - {sourceSquare};
      CanonicalPositionOfGrid(game);
      Commit(position);
      ok := true;
    }

    /**
      Adds a palette piece on the first empty square in scan order; does
      nothing while a game runs or when every square is occupied.
     */
    method AddPiece(started: bool, piece: char)
      requires Valid() && piece in Palette
      modifies this
      ensures Valid()
      ensures started || FirstEmpty(old(Occupants())).None? ==> unchanged(this)
      ensures !started && FirstEmpty(old(Occupants())).Some? ==>
        Occupants() == old(Occupants())[SquareAt(FirstEmpty(old(Occupants())).value) := PieceOfLetter(piece)] &&
        emitted == old(emitted) + [FenOf(Occupants())] && result == old(result)
    {
      if started {
        return;
      }
      var position := BoardToPosition(game);
      var found := FindEmptySquare(position);
      if found.Some? {
        Place(position, found.value, PieceOfLetter(piece));
      }
    }

    /** Puts `added` on the empty `square` of the extracted `position`, then commits the edit. */
    method Place(position: Position, square: string, added: Piece)
      requires Valid() && position == Occupants() && ValidSquare(square) && Canonical(added)
      modifies this
      ensures Valid()
      ensures Occupants() == old(Occupants())[square := added]
      ensures emitted == old(emitted) + [FenOf(Occupants())] && result == old(result)
    {
      var edited := position[square := added];
      CanonicalPositionOfGrid(game);
      Commit(edited);
      OnBoardOfBoard(edited);
    }

    /** Removes the clicked piece; does nothing while a game runs or when the square is empty. */
    method OnSquareClick(started: bool, square: string)
      requires Valid()
      modifies this
      ensures Valid()
      ensures started || square !in old(Occupants()) ==> unchanged(this)
      ensures !started && square in old(Occupants()) ==>
        Occupants() == old(Occupants()) - {square} &&
        emitted == old(emitted) + [FenOf(Occupants())] && result == old(result)
    {
      if started {
        return;
      }
      var position := BoardToPosition(game);
      if square !in position {
        return;
      }
      position := position - {square};
      CanonicalPositionOfGrid(game);
      Commit(position);
      OnBoardOfBoard(position);
    }

    /**
      A drop during a game: refused before the game starts and when the
      piece left the board; otherwise the library's move decides, and a
      legal move replaces the board and is handed to the parent.
     */
    method OnDrop(started: bool, targetSquare: Option<string>, moved: Option<MoveOutcome>) returns (ok: bool)
      requires Valid()
      requires moved.Some? ==> IsGrid(moved.value.board) && CanonicalGrid(moved.value.board)
      modifies this
      ensures Valid()
      ensures ok <==> started && targetSquare.Some? && moved.Some?
      ensures ok ==> game == moved.value.board && emitted == old(emitted) + [moved.value.fen] && result == old(result)
      ensures !ok ==> unchanged(this)
    {
      if !started {
        return false;
      }
      if targetSquare.None? {
        return false;
      }
      if moved.None? {
        return false;
      }
      game := moved.value.board;
      emitted := emitted + [moved.value.fen];
      ok := true;
    }

    /** Sets the banner from the library's report on the current game. */
    method UpdateResult(status: GameStatus)
      modifies this`result
      ensures result == ResultMessage(status)
    {
      if status.checkmate {
        result := Some("Checkmate! " + (if status.turn == "w" then "Black" else "White") + " wins.");
      } else if status.draw {
        result := Some("Draw!");
      } else if status.stalemate {
        result := Some("Stalemate!");
      } else if status.threefold {
        result := Some("Draw by threefold repetition!");
      } else if status.insufficient {
        result := Some("Draw by insufficient material!");
      } else {
        result := None;
      }
    }
  }
}
