/**
  Reading a position string back into a board: the partner of the
  serialiser. When a gesture hands its new string to the rules library,
  the library rebuilds its board from the placement field; this module is
  that reading of the placement field (section 16.1.3.1 of the PGN
  standard), and the round-trip laws say that it recovers exactly the
  position that was written.
 */
module FenParse {
  import opened Wrappers
  import opened Strings
  import opened Squares
  import opened ChessUtils

  const PieceLetters := "pnbrqkPNBRQK"

  predicate CanonicalCells(cells: seq<Cell>) {
    forall i :: 0 <= i < |cells| && cells[i].Occupied? ==> Canonical(cells[i].piece)
  }

  /**
    The cells a rank segment stands for: a digit 1..8 for that many empty
    squares, a piece letter for its occupant; any other character makes
    the segment malformed. The cells cover exactly the segment's width.
   */
  function DecodeRank(s: string): (cells: Option<seq<Cell>>)
    ensures cells.Some? ==> |cells.value| == Width(s) && CanonicalCells(cells.value)
    decreases |s|
  {
    if s == [] then Some([])
    else match DecodeRank(s[1..])
      case None => None
      case Some(rest) =>
        if '1' <= s[0] <= '8' then Some(Empties(DigitValue(s[0])) + rest)
        else if s[0] in PieceLetters then Some([Occupied(PieceOfLetter(s[0]))] + rest)
        else None
  }

  /** The rows of a board, one per segment; every segment must cover eight squares. */
  function DecodeRanks(segments: seq<string>): (rows: Option<Grid>)
    ensures rows.Some? ==> |rows.value| == |segments|
    ensures rows.Some? ==> forall r :: 0 <= r < |rows.value| ==> |rows.value[r]| == 8 && CanonicalCells(rows.value[r])
    decreases |segments|
  {
    if segments == [] then Some([])
    else match (DecodeRank(segments[0]), DecodeRanks(segments[1..]))
      case (Some(row), Some(rows)) => if |row| == 8 then Some([row] + rows) else None
      case _ => None
  }

  /** The board a placement field describes: exactly eight "/"-separated segments, rank 8 first. */
  function ParsePlacement(placement: string): (g: Option<Grid>)
    ensures g.Some? ==> IsGrid(g.value) && CanonicalGrid(g.value)
  {
    var segments := Split(placement, '/');
    if |segments| != 8 then None
    else
      var rows := DecodeRanks(segments);
      if rows.Some? then
        assert CanonicalGrid(rows.value) by {
          forall i | 0 <= i < 64 && GridCell(rows.value, i).Occupied?
            ensures Canonical(GridCell(rows.value, i).piece)
          {
            assert CanonicalCells(rows.value[i / 8]);
          }
        }
        rows
      else rows
  }

  /** The board that loading a position string sets up: its first space-separated field, read as a placement field. */
  function LoadBoard(fen: string): (g: Option<Grid>)
    ensures g.Some? ==> IsGrid(g.value) && CanonicalGrid(g.value)
  {
    ParsePlacement(Split(fen, ' ')[0])
  }

  /** The sparse position of the board a position string sets up. */
  function LoadPosition(fen: string): Option<Position> {
    match LoadBoard(fen)
    case Some(g) => Some(PositionOfGrid(g))
    case None => None
  }

  /** A leading piece letter decodes to its occupant, ahead of the rest. */
  lemma DecodeLetter(c: char, t: string)
    requires c in PieceLetters && DecodeRank(t).Some?
    ensures DecodeRank([c] + t) == Some([Occupied(PieceOfLetter(c))] + DecodeRank(t).value)
  {
    assert ([c] + t)[0] == c && ([c] + t)[1..] == t;
  }

  /** Pending empties written ahead of the rest decode to that many empty cells. */
  lemma DecodeRun(run: nat, t: string)
    requires run <= 8 && DecodeRank(t).Some?
    ensures DecodeRank(RunText(run) + t) == Some(Empties(run) + DecodeRank(t).value)
  {
    if run == 0 {
      assert RunText(run) + t == t;
      assert Empties(run) + DecodeRank(t).value == DecodeRank(t).value;
    } else {
      var s := RunText(run) + t;
      assert s[0] == DigitChar(run) && s[1..] == t;
    }
  }

  /** The occupant case of the round trip: pending empties, the letter, then the rest. */
  lemma DecodeEncodeOccupied(cells: seq<Cell>, run: nat)
    requires run + |cells| <= 8 && |cells| > 0 && cells[0].Occupied? && Canonical(cells[0].piece)
    requires DecodeRank(EncodeFrom(cells[1..], 0)) == Some(cells[1..])
    ensures DecodeRank(EncodeFrom(cells, run)) == Some(Empties(run) + cells)
  {
    var p, rest := cells[0].piece, cells[1..];
    LetterRoundTrip(p, PieceLetter(p));
    var letter := PieceLetter(p);
    var tail := EncodeFrom(rest, 0);
    DecodeLetter(letter, tail);
    DecodeRun(run, [letter] + tail);
    assert EncodeFrom(cells, run) == RunText(run) + ([letter] + tail);
    assert [Occupied(p)] + rest == cells;
  }

  /** The cells after the first of a canonical sequence are canonical, and so is the first occupant. */
  lemma CanonicalCellsTail(cells: seq<Cell>)
    requires |cells| > 0 && CanonicalCells(cells)
    ensures CanonicalCells(cells[1..])
    ensures cells[0].Occupied? ==> Canonical(cells[0].piece)
  {
    var rest := cells[1..];
    forall i | 0 <= i < |rest| && rest[i].Occupied?
      ensures Canonical(rest[i].piece)
    {
      assert rest[i] == cells[i + 1];
    }
  }

  /** A leading empty cell joins the pending run. */
  lemma EmptiesCons(cells: seq<Cell>, run: nat)
    requires |cells| > 0 && cells[0] == Empty
    ensures Empties(run + 1) + cells[1..] == Empties(run) + cells
  {
  }

  /** Decoding the encoding of a rank remainder gives back its pending empties followed by its cells. */
  lemma {:induction false} DecodeEncode(cells: seq<Cell>, run: nat)
    requires run + |cells| <= 8 && CanonicalCells(cells)
    ensures DecodeRank(EncodeFrom(cells, run)) == Some(Empties(run) + cells)
    decreases |cells|
  {
    if cells == [] {
      DecodeRun(run, "");
      assert RunText(run) + "" == RunText(run);
      assert Empties(run) + [] == Empties(run);
    } else {
      CanonicalCellsTail(cells);
      if cells[0].Occupied? {
        DecodeEncode(cells[1..], 0);
        assert Empties(0) + cells[1..] == cells[1..];
        DecodeEncodeOccupied(cells, run);
      } else {
        DecodeEncode(cells[1..], run + 1);
        EmptiesCons(cells, run);
      }
    }
  }

  /** Every canonical rank of eight cells is recovered from its segment. */
  lemma DecodeEncodeRank(cells: seq<Cell>)
    requires |cells| == 8 && CanonicalCells(cells)
    ensures DecodeRank(EncodeRank(cells)) == Some(cells)
  {
    DecodeEncode(cells, 0);
    assert Empties(0) + cells == cells;
  }

  /** A position all of whose on-board occupants are canonical has only letters as kinds. */
  lemma CanonicalLetters(p: Position)
    requires CanonicalPosition(p)
    ensures LetterPosition(p)
  {
  }

  /** Every row of the board of a canonical position is canonical. */
  lemma RowCanonical(p: Position, r: nat)
    requires CanonicalPosition(p) && r < 8
    ensures CanonicalCells(GridOf(p)[r])
  {
    forall f | 0 <= f < 8 && GridOf(p)[r][f].Occupied?
      ensures Canonical(GridOf(p)[r][f].piece)
    {
      CellOfSquare(p, r, f);
    }
  }

  /** The segments of a list of rows, one per row. */
  function EncodeRows(rows: seq<seq<Cell>>): (segments: seq<string>)
    requires forall r :: 0 <= r < |rows| ==> |rows[r]| == 8
    ensures |segments| == |rows|
    decreases |rows|
  {
    if rows == [] then [] else [EncodeRank(rows[0])] + EncodeRows(rows[1..])
  }

  /** Decoding the segments of canonical rows gives back the rows. */
  lemma {:induction false} DecodeEncodeRows(rows: seq<seq<Cell>>)
    requires forall r :: 0 <= r < |rows| ==> |rows[r]| == 8 && CanonicalCells(rows[r])
    ensures DecodeRanks(EncodeRows(rows)) == Some(rows)
    decreases |rows|
  {
    if rows != [] {
      var segments := EncodeRows(rows);
      DecodeEncodeRows(rows[1..]);
      DecodeEncodeRank(rows[0]);
      assert segments[0] == EncodeRank(rows[0]) && segments[1..] == EncodeRows(rows[1..]);
      assert rows == [rows[0]] + rows[1..];
    }
  }

  /** The rank segments of a position are the segments of its board's rows. */
  lemma {:induction false} SegmentsOfRows(p: Position, r: nat)
    requires r <= 8
    ensures RankSegments(p)[r..] == EncodeRows(GridOf(p)[r..])
    decreases 8 - r
  {
    var segments, g := RankSegments(p), GridOf(p);
    if r < 8 {
      SegmentsOfRows(p, r + 1);
      assert g[r..][0] == g[r] && g[r..][1..] == g[r + 1..];
      assert segments[r..] == [segments[r]] + segments[r + 1..];
    } else {
      assert segments[r..] == [] && g[r..] == [];
    }
  }

  /** The board of a canonical position is recovered from its rank segments. */
  lemma DecodeSegments(p: Position)
    requires CanonicalPosition(p)
    ensures DecodeRanks(RankSegments(p)) == Some(GridOf(p))
  {
    var g := GridOf(p);
    forall r | 0 <= r < 8
      ensures CanonicalCells(g[r])
    {
      RowCanonical(p, r);
    }
    DecodeEncodeRows(g);
    SegmentsOfRows(p, 0);
    assert RankSegments(p)[0..] == RankSegments(p) && g[0..] == g;
  }

  /**
    Round trip: loading the string written for a canonical position sets up
    the board of that position, and re-extracting it gives back the
    position's occupants on a1..h8, square for square.
   */
  lemma LoadFenOf(p: Position)
    requires CanonicalPosition(p)
    ensures LoadBoard(FenOf(p)) == Some(GridOf(p))
    ensures LoadPosition(FenOf(p)) == Some(OnBoard(p))
  {
    CanonicalLetters(p);
    FenShape(p);
    DecodeSegments(p);
    PositionOfGridOf(p);
  }

  /** Extracting a board, serialising it and loading the string gives back the same board and the same position. */
  lemma ExtractSerializeLoad(g: Grid)
    requires IsGrid(g) && CanonicalGrid(g)
    ensures LoadBoard(FenOf(PositionOfGrid(g))) == Some(g)
    ensures LoadPosition(FenOf(PositionOfGrid(g))) == Some(PositionOfGrid(g))
  {
    var p := PositionOfGrid(g);
    CanonicalPositionOfGrid(g);
    LoadFenOf(p);
    GridOfPositionOfGrid(g);
  }
}
