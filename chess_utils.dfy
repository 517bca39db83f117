/**
  The board helpers: the glyph of a palette letter, the extraction of a
  board snapshot into a sparse position, and the serialisation of a
  position as the piece-placement field of Forsyth-Edwards Notation
  (section 16.1.3.1 of the PGN standard), followed by the fixed tail
  " w - - 0 1".
 */
module ChessUtils {
  import opened Strings
  import opened Squares

  /** The palette letters in the order of the Unicode chess symbols U+2654..U+265F. */
  const GlyphOrder := "KQRBNPkqrbnp"

  const Glyphs: map<string, string> := map[
    "K" := "\U{2654}", "Q" := "\U{2655}", "R" := "\U{2656}",
    "B" := "\U{2657}", "N" := "\U{2658}", "P" := "\U{2659}",
    "k" := "\U{265A}", "q" := "\U{265B}", "r" := "\U{265C}",
    "b" := "\U{265D}", "n" := "\U{265E}", "p" := "\U{265F}"
  ]

  /**
    The chess symbol of a one-letter piece name: the j-th letter of
    KQRBNPkqrbnp gets code point U+2654 + j; any other string is returned
    unchanged.
   */
  function PieceUnicode(piece: string): (glyph: string)
    ensures forall j :: 0 <= j < 12 && piece == [GlyphOrder[j]] ==> glyph == [(0x2654 + j) as char]
    ensures (forall j :: 0 <= j < 12 ==> piece != [GlyphOrder[j]]) ==> glyph == piece
  {
    if piece in Glyphs then
      assert exists j :: 0 <= j < 12 && piece == [GlyphOrder[j]] by {
        var j :| j in {0, 1, 2, 3, 4, 5, 6, 7, 8, 9, 10, 11} && piece == [GlyphOrder[j]];
      }
      Glyphs[piece]
    else piece
  }

  /**
    `boardToPosition`: reduces the rows of the snapshot (rank 8 first) into
    an accumulator, starting from no keys, with `RecordRow` as the step.
   */
  method BoardToPosition(grid: Grid) returns (position: Position)
    requires IsGrid(grid)
    ensures position == PositionOfGrid(grid)
  {
    position := map[];
    var rankIndex := 0;
    while rankIndex < 8
      invariant 0 <= rankIndex <= 8
      invariant position == PositionPrefix(grid, 8 * rankIndex)
    {
      position := RecordRow(grid, rankIndex, position);
      rankIndex := rankIndex + 1;
    }
  }

  /**
    The reducer's step for one row: each occupied cell, file a first, is
    recorded under its label `"abcdefgh"[fileIndex] + (8 - rankIndex)`.
   */
  method RecordRow(grid: Grid, rankIndex: nat, acc: Position) returns (position: Position)
    requires IsGrid(grid) && rankIndex < 8
    requires acc == PositionPrefix(grid, 8 * rankIndex)
    ensures position == PositionPrefix(grid, 8 * rankIndex + 8)
  {
    position := acc;
    var row := grid[rankIndex];
    var fileIndex := 0;
    while fileIndex < 8
      invariant 0 <= fileIndex <= 8
      invariant position == PositionPrefix(grid, 8 * rankIndex + fileIndex)
    {
      var square := row[fileIndex];
      PrefixStepAt(grid, rankIndex, fileIndex);
      if square.Occupied? {
        var rank := 8 - rankIndex;
        position := position[SquareName(fileIndex, rank) := Piece(square.piece.kind, square.piece.color)];
      }
      fileIndex := fileIndex + 1;
    }
  }

  /** The decimal digit of a run of 1..8 empty squares. */
  function DigitChar(n: nat): (d: char)
    requires 1 <= n <= 8
    ensures '1' <= d <= '8' && DigitValue(d) == n
  {
    ('0' as int + n) as char
  }

  /** A pending run of empty squares as text: nothing for a run of 0. */
  function RunText(run: nat): (text: string)
    requires run <= 8
    ensures |text| <= 1 && Width(text) == run
  {
    if run == 0 then "" else [DigitChar(run)]
  }

  /**
    The run-length encoding of the rest of a rank, `cells`, when `run`
    empty squares are still pending before it.
   */
  function EncodeFrom(cells: seq<Cell>, run: nat): (text: string)
    requires run + |cells| <= 8
    ensures |text| <= run + |cells|
    ensures run + |cells| > 0 ==> |text| > 0
    decreases |cells|
  {
    if cells == [] then RunText(run)
    else match cells[0]
      case Occupied(p) => RunText(run) + [PieceLetter(p)] + EncodeFrom(cells[1..], 0)
      case Empty => EncodeFrom(cells[1..], run + 1)
  }

  /** One step of the encoder, at cell k of a rank. */
  lemma EncodeStep(cells: seq<Cell>, k: nat, run: nat)
    requires k < |cells| && run + |cells| - k <= 8
    ensures EncodeFrom(cells[k..], run) ==
      if cells[k].Occupied? then RunText(run) + [PieceLetter(cells[k].piece)] + EncodeFrom(cells[k + 1..], 0)
      else EncodeFrom(cells[k + 1..], run + 1)
  {
    assert cells[k..][0] == cells[k] && cells[k..][1..] == cells[k + 1..];
  }

  /** Grid row r of a position, column f, is what the position holds under `SquareName(f, 8 - r)`. */
  lemma CellOfSquare(p: Position, r: nat, f: nat)
    requires r < 8 && f < 8
    ensures GridOf(p)[r][f] == if SquareName(f, 8 - r) in p then Occupied(p[SquareName(f, 8 - r)]) else Empty
  {
    ScanSquare(r, f);
  }

  /** One rank segment of the placement field. */
  function EncodeRank(cells: seq<Cell>): (segment: string)
    requires |cells| <= 8
    ensures |segment| <= |cells| && (|cells| > 0 ==> |segment| > 0)
  {
    EncodeFrom(cells, 0)
  }

  /** The eight rank segments of a position, rank 8 first. */
  function RankSegments(p: Position): (segments: seq<string>)
    ensures |segments| == 8
  {
    var g := GridOf(p);
    seq(8, r requires 0 <= r < 8 => EncodeRank(g[r]))
  }

  const FreePlacementTail := " w - - 0 1"

  /** The position string of a free-placement edit. */
  function FenOf(p: Position): (fen: string)
    ensures |fen| > |FreePlacementTail| && fen[|fen| - |FreePlacementTail|..] == FreePlacementTail
  {
    Join(RankSegments(p), '/') + FreePlacementTail
  }

  /**
    `positionToFen`: for ranks 8 down to 1 it writes each rank with
    `WriteRank`, collects the eight rank strings and joins them with "/".
   */
  method PositionToFen(position: Position) returns (fen: string)
    ensures fen == FenOf(position)
  {
    var ranksFen: seq<string> := [];
    var rank := 8;
    while rank >= 1
      invariant 0 <= rank <= 8
      invariant ranksFen == RankSegments(position)[..8 - rank]
    {
      var fenRow := WriteRank(position, rank);
      ranksFen := ranksFen + [fenRow];
      rank := rank - 1;
    }
    assert ranksFen == RankSegments(position);
    fen := Join(ranksFen, '/') + " w - - 0 1";
  }

  /**
    The inner loop of `positionToFen` for one rank: files a to h, counting
    empty squares and flushing the count before each occupant's letter and
    at the end of the rank.
   */
  method WriteRank(position: Position, rank: nat) returns (fenRow: string)
    requires 1 <= rank <= 8
    ensures fenRow == RankSegments(position)[8 - rank]
  {
    ghost var cells := GridOf(position)[8 - rank];
    fenRow := "";
    var emptyCount := 0;
    var fileIdx := 0;
    while fileIdx < 8
      invariant 0 <= fileIdx <= 8
      invariant emptyCount <= fileIdx
      invariant fenRow + EncodeFrom(cells[fileIdx..], emptyCount) == EncodeRank(cells)
    {
      var square := SquareName(fileIdx, rank);
      ghost var rest := EncodeFrom(cells[fileIdx + 1..], if square in position then 0 else emptyCount + 1);
      CellOfSquare(position, 8 - rank, fileIdx);
      EncodeStep(cells, fileIdx, emptyCount);
      if square in position {
        var before := fenRow;
        ghost var run := emptyCount;
        if emptyCount != 0 {
          fenRow := fenRow + [DigitChar(emptyCount)];
        }
        assert fenRow == before + RunText(emptyCount);
        emptyCount := 0;
        var p := position[square];
        var letter := if p.color == "w" then Upper(p.kind) else Lower(p.kind);
        assert letter == PieceLetter(cells[fileIdx].piece);
        fenRow := fenRow + [letter];
        Regroup(before, RunText(run), [letter], rest);
      } else {
        emptyCount := emptyCount + 1;
      }
      fileIdx := fileIdx + 1;
    }
    if emptyCount != 0 {
      fenRow := fenRow + [DigitChar(emptyCount)];
    }
    assert fenRow == EncodeRank(cells);
  }

  // Laws of the placement field

  /** How many squares a segment covers: each letter counts one, each digit its value. */
  function Width(s: string): nat
    decreases |s|
  {
    if s == [] then 0
    else (if IsDigit(s[0]) then DigitValue(s[0]) else 1) + Width(s[1..])
  }

  lemma {:induction false} WidthAppend(a: string, b: string)
    ensures Width(a + b) == Width(a) + Width(b)
    decreases |a|
  {
    if a == [] {
      assert a + b == b;
    } else {
      assert (a + b)[0] == a[0] && (a + b)[1..] == a[1..] + b;
      WidthAppend(a[1..], b);
    }
  }

  /** Letters and the digits 1..8 only; never a 0, never two digits side by side. */
  predicate RunLengthForm(s: string) {
    && (forall i :: 0 <= i < |s| ==> IsLetter(s[i]) || '1' <= s[i] <= '8')
    && (forall i, j :: 0 <= i < |s| && j == i + 1 < |s| ==> !(IsDigit(s[i]) && IsDigit(s[j])))
  }

  lemma RunLengthAppend(a: string, b: string)
    requires RunLengthForm(a) && RunLengthForm(b)
    requires a != [] && b != [] ==> !(IsDigit(a[|a| - 1]) && IsDigit(b[0]))
    ensures RunLengthForm(a + b)
  {
    var s := a + b;
    assert forall i :: 0 <= i < |s| ==> IsLetter(s[i]) || '1' <= s[i] <= '8' by {
      forall i | 0 <= i < |s|
        ensures IsLetter(s[i]) || '1' <= s[i] <= '8'
      {
        if i < |a| {
          assert s[i] == a[i];
        } else {
          assert s[i] == b[i - |a|];
        }
      }
    }
    assert forall i, j :: 0 <= i < |s| && j == i + 1 < |s| ==> !(IsDigit(s[i]) && IsDigit(s[j])) by {
      forall i, j | 0 <= i < |s| && j == i + 1 < |s|
        ensures !(IsDigit(s[i]) && IsDigit(s[j]))
      {
        if j < |a| {
          assert s[i] == a[i] && s[j] == a[j];
        } else if i >= |a| {
          assert s[i] == b[i - |a|] && s[j] == b[j - |a|];
        } else {
          assert s[i] == a[|a| - 1] && s[j] == b[0];
        }
      }
    }
  }

  /** Every occupant of these cells has an ASCII letter as its kind. */
  predicate LetterCells(cells: seq<Cell>) {
    forall i :: 0 <= i < |cells| && cells[i].Occupied? ==> IsLetter(cells[i].piece.kind)
  }

  /** Every occupant standing on one of the 64 labels has an ASCII letter as its kind. */
  predicate LetterPosition(p: Position) {
    forall k :: k in p && ValidSquare(k) ==> IsLetter(p[k].kind)
  }

  /**
    The encoding of a rank remainder with `run` pending empties covers
    exactly run + |cells| squares and is in run-length form.
   */
  lemma {:induction false} EncodeLaws(cells: seq<Cell>, run: nat)
    requires run + |cells| <= 8 && LetterCells(cells)
    ensures Width(EncodeFrom(cells, run)) == run + |cells|
    ensures RunLengthForm(EncodeFrom(cells, run))
    decreases |cells|
  {
    if cells == [] {
      assert run > 0 ==> Width([DigitChar(run)]) == run;
    } else {
      var rest := cells[1..];
      assert LetterCells(rest) by {
        forall i | 0 <= i < |rest| && rest[i].Occupied?
          ensures IsLetter(rest[i].piece.kind)
        {
          assert rest[i] == cells[i + 1];
        }
      }
      match cells[0]
      case Occupied(p) =>
        EncodeLaws(rest, 0);
        var digits, letter, tail := RunText(run), [PieceLetter(p)], EncodeFrom(rest, 0);
        assert IsLetter(letter[0]);
        assert run > 0 ==> Width(digits) == run;
        assert Width(letter) == 1;
        WidthAppend(digits, letter);
        WidthAppend(digits + letter, tail);
        RunLengthAppend(digits, letter);
        RunLengthAppend(digits + letter, tail);
      case Empty =>
        EncodeLaws(rest, run + 1);
    }
  }

  /** A rank of eight cells encodes to a segment of width 8 in run-length form. */
  lemma RankLaws(cells: seq<Cell>)
    requires |cells| == 8 && LetterCells(cells)
    ensures Width(EncodeRank(cells)) == 8
    ensures RunLengthForm(EncodeRank(cells))
    ensures '/' !in EncodeRank(cells) && ' ' !in EncodeRank(cells)
  {
    EncodeLaws(cells, 0);
    var s := EncodeRank(cells);
    assert forall i :: 0 <= i < |s| ==> s[i] != '/' && s[i] != ' ';
  }

  lemma SegmentLaws(p: Position)
    requires LetterPosition(p)
    ensures forall r :: 0 <= r < 8 ==> Width(RankSegments(p)[r]) == 8 && RunLengthForm(RankSegments(p)[r])
    ensures forall r :: 0 <= r < 8 ==> '/' !in RankSegments(p)[r] && ' ' !in RankSegments(p)[r]
  {
    var g := GridOf(p);
    forall r | 0 <= r < 8
      ensures Width(RankSegments(p)[r]) == 8 && RunLengthForm(RankSegments(p)[r])
      ensures '/' !in RankSegments(p)[r] && ' ' !in RankSegments(p)[r]
    {
      assert LetterCells(g[r]) by {
        forall f | 0 <= f < 8 && g[r][f].Occupied?
          ensures IsLetter(g[r][f].piece.kind)
        {
          CellOfSquare(p, r, f);
        }
      }
      RankLaws(g[r]);
    }
  }

  /** The five fields after the placement field: side to move, castling, en passant, clocks. */
  const TailFieldValues := ["w", "-", "-", "0", "1"]

  lemma TailFields()
    ensures FreePlacementTail == [' '] + Join(TailFieldValues, ' ')
    ensures Split(Join(TailFieldValues, ' '), ' ') == TailFieldValues
  {
    assert Join(TailFieldValues, ' ') == "w - - 0 1";
    SplitJoin(TailFieldValues, ' ');
  }

  /**
    The shape of every free-placement string: six space-separated fields,
    the placement field first and then "w", "-", "-", "0", "1"; the
    placement field splits on "/" into the eight rank segments, rank 8
    first, each of width 8 and in run-length form.
   */
  lemma FenShape(p: Position)
    requires LetterPosition(p)
    ensures Split(FenOf(p), ' ') == [Join(RankSegments(p), '/'), "w", "-", "-", "0", "1"]
    ensures Split(Join(RankSegments(p), '/'), '/') == RankSegments(p)
    ensures forall r :: 0 <= r < 8 ==> Width(RankSegments(p)[r]) == 8 && RunLengthForm(RankSegments(p)[r])
  {
    SegmentLaws(p);
    PlacementFields(RankSegments(p));
  }

  /** The fields of a placement field followed by the free-placement tail. */
  lemma PlacementFields(segments: seq<string>)
    requires |segments| == 8
    requires forall r :: 0 <= r < 8 ==> '/' !in segments[r] && ' ' !in segments[r]
    ensures Split(Join(segments, '/') + FreePlacementTail, ' ') == [Join(segments, '/'), "w", "-", "-", "0", "1"]
    ensures Split(Join(segments, '/'), '/') == segments
  {
    var placement := Join(segments, '/');
    SplitJoin(segments, '/');
    NotInJoin(segments, '/', ' ');
    TailFields();
    var rest := Join(TailFieldValues, ' ');
    SplitField(placement, rest, ' ');
    assert placement + [' '] + rest == placement + FreePlacementTail;
  }

  /** Keys other than the 64 labels a1..h8 do not affect the string. */
  lemma FenIgnoresOffBoardKeys(p: Position)
    ensures FenOf(p) == FenOf(OnBoard(p))
  {
    var g, h := GridOf(p), GridOf(OnBoard(p));
    forall r | 0 <= r < 8
      ensures g[r] == h[r]
    {
      forall f | 0 <= f < 8
        ensures g[r][f] == h[r][f]
      {
        ScanSquare(r, f);
      }
    }
    assert g == h;
  }

  // Two positions written out

  lemma {:induction false} EncodeEmpties(n: nat, run: nat)
    requires run + n <= 8
    ensures EncodeFrom(Empties(n), run) == RunText(run + n)
    decreases n
  {
    if n > 0 {
      var cells := Empties(n);
      assert cells[1..] == Empties(n - 1);
      EncodeEmpties(n - 1, run + 1);
    }
  }

  /** A rank of the board drawn from a position that has nothing on that rank. */
  lemma EmptyRankOf(p: Position, r: nat)
    requires r < 8
    requires forall k :: k in p && ValidSquare(k) ==> k[1] != RankChar(8 - r)
    ensures GridOf(p)[r] == Empties(8)
    ensures RankSegments(p)[r] == "8"
  {
    forall f | 0 <= f < 8
      ensures GridOf(p)[r][f] == Empty
    {
      CellOfSquare(p, r, f);
    }
    EncodeEmpties(8, 0);
  }

  /** n rank segments "8". */
  function Ranks8(n: nat): seq<string> {
    seq(n, _ => "8")
  }

  /** The text of n empty ranks joined by "/". */
  function Slashed8(n: nat): string
    requires n >= 1
    decreases n
  {
    if n == 1 then "8" else "8/" + Slashed8(n - 1)
  }

  /** n empty rank segments join to n "8"s separated by "/". */
  lemma {:induction false} JoinEmptyRanks(n: nat)
    requires n >= 1
    ensures Join(Ranks8(n), '/') == Slashed8(n)
    decreases n
  {
    if n > 1 {
      JoinEmptyRanks(n - 1);
      assert Ranks8(n) == ["8"] + Ranks8(n - 1);
      JoinCons("8", Ranks8(n - 1), '/');
    }
  }

  /** The empty board. */
  lemma EmptyBoardFen()
    ensures FenOf(map[]) == "8/8/8/8/8/8/8/8 w - - 0 1"
  {
    var p: Position := map[];
    var segments := RankSegments(p);
    forall r | 0 <= r < 8
      ensures segments[r] == "8"
    {
      EmptyRankOf(p, r);
    }
    assert segments == Ranks8(8);
    JoinEmptyRanks(8);
    SlashedEight();
  }

  /** The text of eight empty ranks, followed by the fixed tail. */
  lemma SlashedEight()
    ensures Slashed8(8) + FreePlacementTail == "8/8/8/8/8/8/8/8 w - - 0 1"
  {
    SlashedFour();
    assert Slashed8(8) == "8/8/8/8/" + Slashed8(4);
    EmptyBoardText();
  }

  lemma SlashedThree()
    ensures Slashed8(3) == "8/8/8"
  {
  }

  lemma SlashedFour()
    ensures Slashed8(4) == "8/8/8/8"
  {
    SlashedThree();
  }

  lemma EmptyBoardText()
    ensures "8/8/8/8/" + "8/8/8/8" + FreePlacementTail == "8/8/8/8/8/8/8/8 w - - 0 1"
  {
  }

  /** The rank of a lone white king on e4 is written "4K3". */
  lemma LoneKingRank()
    ensures RankSegments(map["e4" := Piece('k', "w")])[4] == "4K3"
  {
    var king := Piece('k', "w");
    var p: Position := map["e4" := king];
    var row := GridOf(p)[4];
    forall f | 0 <= f < 8
      ensures row[f] == if f == 4 then Occupied(king) else Empty
    {
      CellOfSquare(p, 4, f);
    }
    assert row[5..] == Empties(3);
    EncodeEmpties(3, 0);
    EncodeStep(row, 0, 0);
    EncodeStep(row, 1, 1);
    EncodeStep(row, 2, 2);
    EncodeStep(row, 3, 3);
    EncodeStep(row, 4, 4);
    assert EncodeRank(row) == RunText(4) + [PieceLetter(king)] + EncodeFrom(row[5..], 0);
  }

  /** A lone white king on e4. */
  lemma LoneKingFen()
    ensures FenOf(map["e4" := Piece('k', "w")]) == "8/8/8/8/4K3/8/8/8 w - - 0 1"
  {
    var p: Position := map["e4" := Piece('k', "w")];
    var segments := RankSegments(p);
    forall r | 0 <= r < 8 && r != 4
      ensures segments[r] == "8"
    {
      EmptyRankOf(p, r);
    }
    LoneKingRank();
    var upper, lower := Ranks8(4), ["4K3"] + Ranks8(3);
    assert segments == upper + lower;
    JoinEmptyRanks(4);
    JoinEmptyRanks(3);
    JoinCons("4K3", Ranks8(3), '/');
    JoinAppend(upper, lower, '/');
    LoneKingText();
  }

  lemma LoneKingText()
    ensures Slashed8(4) + "/" + ("4K3" + "/" + Slashed8(3)) + FreePlacementTail == "8/8/8/8/4K3/8/8/8 w - - 0 1"
  {
    SlashedThree();
    SlashedFour();
    LoneKingLiteral();
  }

  lemma LoneKingLiteral()
    ensures "8/8/8/8" + "/" + ("4K3" + "/" + "8/8/8") + FreePlacementTail == "8/8/8/8/4K3/8/8/8 w - - 0 1"
  {
  }
}
