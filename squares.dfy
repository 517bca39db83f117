/**
  The data model shared by the board helpers and the edit gestures.

  A board snapshot (what `game.board()` returns) is an 8x8 grid indexed by
  rank index 0..7 (0 = rank 8) and file index 0..7 (0 = file a). A position
  is the sparse record built from it: square label to occupant, an absent
  key meaning an empty square. Squares are visited everywhere in one scan
  order, a8..h8, a7..h7, ..., a1..h1; the i-th square of that order is
  `SquareAt(i)`, and it lies in grid row i / 8 and grid column i % 8.
 */
module Squares {
  import opened Strings

  /** `{ type, color }`: the kind letter and the colour string of an occupant. */
  datatype Piece = Piece(kind: char, color: string)

  datatype Cell = Empty | Occupied(piece: Piece)

  /** n empty cells in a row; `Empties(8)` is an empty rank. */
  function Empties(n: nat): seq<Cell> {
    seq(n, _ => Empty)
  }

  type Position = map<string, Piece>

  type Grid = seq<seq<Cell>>

  /** The six kinds chess.js uses, and its two colours. */
  predicate Canonical(p: Piece) {
    p.kind in "pnbrqk" && (p.color == "w" || p.color == "b")
  }

  predicate IsGrid(g: Grid) {
    |g| == 8 && forall r :: 0 <= r < 8 ==> |g[r]| == 8
  }

  function FileChar(f: nat): char
    requires f < 8
  {
    ('a' as int + f) as char
  }

  function RankChar(rank: nat): char
    requires 1 <= rank <= 8
  {
    ('0' as int + rank) as char
  }

  /** `"abcdefgh"[fileIndex] + rank`. */
  function SquareName(f: nat, rank: nat): (name: string)
    requires f < 8 && 1 <= rank <= 8
    ensures ValidSquare(name)
  {
    [FileChar(f), RankChar(rank)]
  }

  /** The label is the file letter `"abcdefgh"[f]` followed by the rank's decimal digit. */
  lemma SquareNameLabel(f: nat, rank: nat)
    requires f < 8 && 1 <= rank <= 8
    ensures SquareName(f, rank)[0] == "abcdefgh"[f] && DigitValue(SquareName(f, rank)[1]) == rank
  {
  }

  /** One of the 64 labels a1..h8. */
  predicate ValidSquare(sq: string) {
    |sq| == 2 && 'a' <= sq[0] <= 'h' && '1' <= sq[1] <= '8'
  }

  /** The i-th square of the scan order a8..h8, a7..h7, ..., a1..h1. */
  function SquareAt(i: nat): (sq: string)
    requires i < 64
    ensures ValidSquare(sq)
  {
    SquareName(i % 8, 8 - i / 8)
  }

  /** Where a label stands in the scan order. */
  function IndexOf(sq: string): (i: nat)
    requires ValidSquare(sq)
    ensures i < 64 && SquareAt(i) == sq
  {
    var rowIndex := '8' as int - sq[1] as int;
    var fileIndex := sq[0] as int - 'a' as int;
    var i := 8 * rowIndex + fileIndex;
    assert i / 8 == rowIndex && i % 8 == fileIndex;
    assert SquareAt(i) == [sq[0], sq[1]] == sq;
    i
  }

  /** Square (file index f, rank index r) comes at position 8 * r + f of the scan order. */
  lemma ScanSquare(r: nat, f: nat)
    requires r < 8 && f < 8
    ensures 8 * r + f < 64 && SquareAt(8 * r + f) == SquareName(f, 8 - r)
  {
    assert (8 * r + f) / 8 == r && (8 * r + f) % 8 == f;
  }

  /** The scan order visits every label once. */
  lemma SquareAtInjective()
    ensures forall i, j :: 0 <= i < 64 && 0 <= j < 64 && SquareAt(i) == SquareAt(j) ==> i == j
  {
    forall i, j | 0 <= i < 64 && 0 <= j < 64 && SquareAt(i) == SquareAt(j)
      ensures i == j
    {
      var sq := SquareAt(i);
      assert i / 8 == j / 8 && i % 8 == j % 8 by {
        assert sq[0] == FileChar(i % 8) == FileChar(j % 8);
        assert sq[1] == RankChar(8 - i / 8) == RankChar(8 - j / 8);
      }
    }
  }

  /** The label sitting at each of the 64 scan indices. */
  lemma ValidSquareIsScanned(sq: string)
    requires ValidSquare(sq)
    ensures exists i :: 0 <= i < 64 && SquareAt(i) == sq
  {
    var i := IndexOf(sq);
  }

  /** The occupant of the i-th scanned square of a position. */
  function CellAt(p: Position, i: nat): Cell
    requires i < 64
  {
    if SquareAt(i) in p then Occupied(p[SquareAt(i)]) else Empty
  }

  /** The cell of a grid at the i-th scanned square. */
  function GridCell(g: Grid, i: nat): Cell
    requires IsGrid(g) && i < 64
  {
    g[i / 8][i % 8]
  }

  predicate CanonicalGrid(g: Grid)
    requires IsGrid(g)
  {
    forall i :: 0 <= i < 64 && GridCell(g, i).Occupied? ==> Canonical(GridCell(g, i).piece)
  }

  /** Every occupant standing on one of the 64 labels is canonical. */
  predicate CanonicalPosition(p: Position) {
    forall k :: k in p && ValidSquare(k) ==> Canonical(p[k])
  }

  /** The part of a position that lies on the board: only the 64 labels a1..h8 are ever read. */
  function OnBoard(p: Position): (q: Position)
    ensures forall k :: k in q <==> k in p && ValidSquare(k)
    ensures forall k :: k in q ==> q[k] == p[k]
  {
    map k | k in p && ValidSquare(k) :: p[k]
  }

  /** The board of a position: grid row r, column f holds the occupant of label `SquareName(f, 8 - r)`. */
  function GridOf(p: Position): (g: Grid)
    ensures IsGrid(g)
  {
    seq(8, r requires 0 <= r < 8 => seq(8, f requires 0 <= f < 8 => CellAt(p, 8 * r + f)))
  }

  /** The i-th scanned cell of the board drawn from a position is that position's occupant of `SquareAt(i)`. */
  lemma GridCellOf(p: Position, i: nat)
    requires i < 64
    ensures GridCell(GridOf(p), i) == CellAt(p, i)
  {
    assert 8 * (i / 8) + i % 8 == i;
  }

  /** The occupants of the first n scanned cells of a grid, keyed by label. */
  function PositionPrefix(g: Grid, n: nat): Position
    requires IsGrid(g) && n <= 64
  {
    if n == 0 then map[]
    else
      var before := PositionPrefix(g, n - 1);
      match GridCell(g, n - 1)
      case Occupied(p) => before[SquareAt(n - 1) := p]
      case Empty => before
  }

  /** The keys of a prefix are the labels of its occupied cells, each holding its cell's occupant. */
  lemma {:induction false} PrefixKeys(g: Grid, n: nat)
    requires IsGrid(g) && n <= 64
    ensures forall k :: k in PositionPrefix(g, n) ==> ValidSquare(k)
    ensures forall i :: 0 <= i < 64 ==> (SquareAt(i) in PositionPrefix(g, n) <==> i < n && GridCell(g, i).Occupied?)
    ensures forall i :: 0 <= i < n && SquareAt(i) in PositionPrefix(g, n) ==> PositionPrefix(g, n)[SquareAt(i)] == GridCell(g, i).piece
  {
    if n > 0 {
      PrefixKeys(g, n - 1);
      SquareAtInjective();
    }
  }

  /** Scanning one more cell adds at most that cell's label. */
  lemma PrefixStep(g: Grid, n: nat)
    requires IsGrid(g) && n < 64
    ensures SquareAt(n) !in PositionPrefix(g, n)
    ensures PositionPrefix(g, n + 1) ==
      if GridCell(g, n).Occupied? then PositionPrefix(g, n)[SquareAt(n) := GridCell(g, n).piece]
      else PositionPrefix(g, n)
  {
    PrefixKeys(g, n);
  }

  /** `PrefixStep` at grid cell (r, f). */
  lemma PrefixStepAt(g: Grid, r: nat, f: nat)
    requires IsGrid(g) && r < 8 && f < 8
    ensures 8 * r + f < 64
    ensures PositionPrefix(g, 8 * r + f + 1) ==
      if g[r][f].Occupied? then PositionPrefix(g, 8 * r + f)[SquareName(f, 8 - r) := g[r][f].piece]
      else PositionPrefix(g, 8 * r + f)
  {
    ScanSquare(r, f);
    PrefixStep(g, 8 * r + f);
  }

  lemma {:induction false} PrefixSize(g: Grid, n: nat)
    requires IsGrid(g) && n <= 64
    ensures |PositionPrefix(g, n)| <= n
  {
    if n > 0 {
      PrefixSize(g, n - 1);
      PrefixStep(g, n - 1);
    }
  }

  /**
    The sparse position of a board snapshot: a key exactly for each occupied
    cell, labelled `SquareName(fileIndex, 8 - rankIndex)`, holding that
    cell's occupant; at most 64 keys, all of them labels a1..h8.
   */
  function PositionOfGrid(g: Grid): (p: Position)
    requires IsGrid(g)
    ensures forall k :: k in p ==> ValidSquare(k)
    ensures forall i :: 0 <= i < 64 ==> CellAt(p, i) == GridCell(g, i)
    ensures |p| <= 64
  {
    PrefixSize(g, 64);
    PrefixKeys(g, 64);
    PositionPrefix(g, 64)
  }

  /** The key of a position-of-grid at cell (r, f), stated in the grid's own coordinates. */
  lemma PositionOfGridAt(g: Grid, r: nat, f: nat)
    requires IsGrid(g) && r < 8 && f < 8
    ensures SquareName(f, 8 - r) in PositionOfGrid(g) <==> g[r][f].Occupied?
    ensures g[r][f].Occupied? ==> PositionOfGrid(g)[SquareName(f, 8 - r)] == g[r][f].piece
  {
    ScanSquare(r, f);
    assert GridCell(g, 8 * r + f) == g[r][f];
    assert CellAt(PositionOfGrid(g), 8 * r + f) == g[r][f];
  }

  /** Extracting a snapshot and drawing it again gives back the same board. */
  lemma GridOfPositionOfGrid(g: Grid)
    requires IsGrid(g)
    ensures GridOf(PositionOfGrid(g)) == g
  {
    var p := PositionOfGrid(g);
    var h := GridOf(p);
    forall r | 0 <= r < 8
      ensures h[r] == g[r]
    {
      forall f | 0 <= f < 8
        ensures h[r][f] == g[r][f]
      {
        var i := 8 * r + f;
        assert i / 8 == r && i % 8 == f;
        GridCellOf(p, i);
        calc {
          h[r][f];
          GridCell(h, i);
          CellAt(p, i);
          GridCell(g, i);
          g[r][f];
        }
      }
    }
  }

  /** Drawing a position and extracting it again keeps exactly its on-board part. */
  lemma PositionOfGridOf(p: Position)
    ensures PositionOfGrid(GridOf(p)) == OnBoard(p)
  {
    var q := PositionOfGrid(GridOf(p));
    forall k | k in q || k in OnBoard(p)
      ensures k in q && k in OnBoard(p) && q[k] == p[k]
    {
      var i := IndexOf(k);
      GridCellOf(p, i);
      assert CellAt(q, i) == GridCell(GridOf(p), i) == CellAt(p, i);
    }
  }

  /** The board drawn from a position holds canonical occupants when its on-board part does. */
  lemma CanonicalGridOf(p: Position)
    requires CanonicalPosition(p)
    ensures CanonicalGrid(GridOf(p))
  {
    forall i | 0 <= i < 64
      ensures GridCell(GridOf(p), i) == CellAt(p, i)
    {
      GridCellOf(p, i);
    }
  }

  /** An extracted canonical board is a canonical position. */
  lemma CanonicalPositionOfGrid(g: Grid)
    requires IsGrid(g) && CanonicalGrid(g)
    ensures CanonicalPosition(PositionOfGrid(g))
  {
    var p := PositionOfGrid(g);
    forall k | k in p && ValidSquare(k)
      ensures Canonical(p[k])
    {
      var i := IndexOf(k);
      assert CellAt(p, i) == GridCell(g, i);
    }
  }

  /** The letter of an occupant in a position string: `type` upper-cased for colour "w", lower-cased otherwise. */
  function PieceLetter(p: Piece): (letter: char)
    ensures IsLetter(p.kind) ==> IsLetter(letter) && Lower(letter) == Lower(p.kind)
    ensures IsLetter(p.kind) ==> ('A' <= letter <= 'Z' <==> p.color == "w")
  {
    if p.color == "w" then Upper(p.kind) else Lower(p.kind)
  }

  /** The occupant named by a palette letter: colour "w" when the letter is its own upper case, kind its lower case. */
  function PieceOfLetter(letter: char): (p: Piece)
    ensures p.color == "w" || p.color == "b"
    ensures letter in "PNBRQKpnbrqk" ==> Canonical(p)
  {
    Piece(Lower(letter), if letter == Upper(letter) then "w" else "b")
  }

  /** Letters and canonical occupants are in one-to-one correspondence. */
  lemma LetterRoundTrip(p: Piece, letter: char)
    ensures Canonical(p) ==> PieceOfLetter(PieceLetter(p)) == p
    ensures IsLetter(letter) ==> PieceLetter(PieceOfLetter(letter)) == letter
  {
  }
}
