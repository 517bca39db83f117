# chessdesk: free-placement board editing and its position strings

chessdesk is a web chess board. Before a game starts, the user sets up a position freely:

- drag a piece to any square;
- add a piece from a palette on the first empty square;
- click a piece to remove it.

Each gesture follows the same steps:

1. Extract the rules library's 8×8 board snapshot into a sparse map from square name (`"e4"`) to occupant (`{type, color}`).
2. Edit that map in place.
3. Write the map as a position string: the piece-placement field of Forsyth–Edwards Notation (section 16.1.3.1 of the PGN standard), followed by the fixed tail `" w - - 0 1"`.
4. Reload the board from that string.
5. Hand the string to the parent component.

Once a game has started, drops go through the rules library instead. A result banner reports checkmate or the kind of draw. The top bar's Turn selector rewrites the side-to-move field of the position string.

The model is split into these modules:

- `Strings` (strings.dfy): JavaScript `split` and `join` on one separator character, and ASCII case mapping. Laws: split and join are inverses in both directions.
- `Squares` (squares.dfy): the data model.
  - `Piece`, `Cell`, the sparse `Position` and the 8×8 `Grid`.
  - The scan order a8..h8, a7..h7, …, a1..h1, as index `i` in 0..63: row `i / 8` is rank `8 - i / 8`, column `i % 8` is the file.
  - The value-level extraction `PositionOfGrid` and its inverse `GridOf`.
  - The letter of a piece and the piece of a letter.
- `ChessUtils` (chess_utils.dfy): `pieceUnicode`, plus the imperative `boardToPosition` and `positionToFen`. Each is proved against a specification function (`PositionOfGrid`, `FenOf`). The laws of the placement field are proved about those functions: eight segments, each covering eight squares; run-length form; the fixed tail; off-board keys ignored; concrete strings.
- `FenParse` (fen_parse.dfy): the reading of a placement field back into a board. The rules library performs this reading when the edited string is loaded. Round-trip laws:
  - reading the string written for a position of well-formed occupants gives back that position restricted to the squares a1..h8;
  - extracting, writing and reading a board gives back that board.
- `BoardComponent` (board.dfy):
  - Module-level functions: the first empty square, the drop edit and the banner message.
  - `class Board`: the library's board (`game`), the strings handed to `onFenChange` (`emitted`) and the banner (`result`). Its methods are the three free gestures, the in-game drop's guards and the banner update.
- `TopBar` (top_bar.dfy): the Turn selector's field rewrite and its caption.

Each gesture handler in the source repeats the body of `positionToFen` inline. The model's handlers call the one `PositionToFen` method instead. Each inline loop walks the same squares in the same order and appends the same characters, so the emitted string is `FenOf` of the edited position.

## Model

| member | source | states |
|---|---|---|
| ChessUtils.PieceUnicode | src/components/ChessUtils.ts:3-19 | The j-th letter of KQRBNPkqrbnp maps to the chess symbol U+2654+j. Every other string is returned unchanged. |
| Squares.SquareAt | src/components/ChessUtils.ts:25-27 | Scan index i names a valid square: file letter `"abcdefgh"[i % 8]`, rank digit `8 - i / 8`. |
| Squares.IndexOf | src/components/ChessUtils.ts:25-27 | Every valid square name has a scan index that names it. |
| Squares.ScanSquare | src/components/ChessUtils.ts:25-26 | Row r, column f is scan index 8r+f and is named file f, rank 8 − r. |
| Squares.SquareAtInjective | src/components/ChessUtils.ts:25-27 | Distinct cells get distinct square names, so no extracted key overwrites another. |
| Squares.SquareName | src/components/ChessUtils.ts:25-27 | The label built from a file index and a rank 1..8 is one of the 64 valid square names. |
| Squares.SquareNameLabel | src/components/ChessUtils.ts:40 | The label is the letter `"abcdefgh"[fileIndex]` followed by the rank's decimal digit. |
| Squares.PositionOfGrid | src/components/ChessUtils.ts:21-32 | The extracted map has keys only for valid squares. Each square holds exactly the snapshot cell's occupant. There are at most 64 keys. |
| Squares.PositionOfGridAt | src/components/ChessUtils.ts:23-27 | Key `"abcdefgh"[f] + (8 - r)` is present iff cell (r, f) is occupied, and its value copies that cell's type and colour. |
| Squares.PrefixKeys | src/components/ChessUtils.ts:22-30 | After the first n cells of the scan, the map holds exactly the occupied ones among them, with their occupants. |
| Squares.PrefixSize | src/components/ChessUtils.ts:22-31 | After n cells at most n keys exist. |
| ChessUtils.BoardToPosition | src/components/ChessUtils.ts:21-32 | Reducing the rows, from no keys, with the row step builds exactly `PositionOfGrid` of the snapshot. |
| ChessUtils.RecordRow | src/components/ChessUtils.ts:22-30 | The reducer's step for row r: from the map of the first r rows' occupants it builds the map of the first r + 1 rows' occupants, each under its own label and with its type and colour. |
| Squares.GridOf | src/components/ChessUtils.ts:36-41 | The board a position describes is an 8×8 grid, read square by square in scan order. |
| Squares.GridCellOf | src/components/ChessUtils.ts:39-41 | Cell i of that board is what the position holds under `SquareAt(i)`. |
| Squares.GridOfPositionOfGrid | src/components/ChessUtils.ts:21-32 | Extraction loses nothing: the board of the extracted map is the snapshot itself. |
| Squares.PositionOfGridOf | src/components/ChessUtils.ts:21-41 | Describing a position as a board and extracting it again gives the position restricted to a1..h8. |
| Squares.OnBoard | src/components/ChessUtils.ts:36-41 | The on-board part of a map keeps exactly its valid-square keys, with their values. |
| Squares.CanonicalGridOf | src/components/ChessUtils.ts:36-47 | A position of well-formed occupants describes a board of well-formed occupants. |
| Squares.CanonicalPositionOfGrid | src/components/ChessUtils.ts:21-32 | Extracting a board of well-formed occupants gives a map of well-formed occupants. |
| Squares.PieceLetter | src/components/ChessUtils.ts:47 | For a letter kind, the piece's letter is that kind's letter. It is upper case iff the colour is exactly `"w"`. |
| Squares.PieceOfLetter | src/components/Board.tsx:160-161 | A palette letter gives colour `"w"` or `"b"`. A letter of PNBRQKpnbrqk gives a well-formed piece. |
| Squares.LetterRoundTrip | src/components/ChessUtils.ts:47 | A well-formed piece survives letter and back. A letter survives piece and back. |
| ChessUtils.DigitChar | src/components/ChessUtils.ts:43 | A pending count 1..8 is written as one digit '1'..'8' of that value. |
| ChessUtils.RunText | src/components/ChessUtils.ts:42-44 | A pending run is written as at most one character, and that text covers exactly the run's squares; a run of 0 writes nothing, since `if (emptyCount)` skips it. |
| ChessUtils.EncodeFrom | src/components/ChessUtils.ts:39-53 | The encoding of a rank remainder after `run` pending empties: never longer than the squares it covers, and never empty when it covers any. |
| ChessUtils.EncodeRank | src/components/ChessUtils.ts:37-53 | One rank's segment: at most one character per square, and non-empty for a non-empty rank. |
| ChessUtils.EncodeStep | src/components/ChessUtils.ts:41-51 | One file of the scan: an occupant flushes the pending count and appends its letter; an empty square adds one to the count. |
| ChessUtils.CellOfSquare | src/components/ChessUtils.ts:40-41 | The square the loop looks up at rank `rank`, file f is row 8 − rank, column f of the board. |
| ChessUtils.RankSegments | src/components/ChessUtils.ts:36-54 | Exactly eight rank segments, rank 8 first. |
| ChessUtils.FenOf | src/components/ChessUtils.ts:34-57 | The string the serialiser returns ends with the fixed tail " w - - 0 1", after a non-empty placement. Every placement-field law (`FenShape`, `SegmentLaws`, `PlacementFields`, `LoadFenOf`) is stated about it. |
| ChessUtils.PositionToFen | src/components/ChessUtils.ts:34-57 | The rank loop, whose body is `WriteRank`, produces exactly `FenOf` of the position: the eight run-length-encoded segments joined by "/", then " w - - 0 1". |
| ChessUtils.WriteRank | src/components/ChessUtils.ts:37-54 | One pass of the rank loop, with its `emptyCount` and `fenRow`, writes exactly segment 8 − rank of `RankSegments`: pending empties are flushed as a digit before each letter and at the end of the rank. |
| ChessUtils.WidthAppend | src/components/ChessUtils.ts:38-53 | The squares covered by a concatenation are the sum of the squares covered by its parts. |
| ChessUtils.RunLengthAppend | src/components/ChessUtils.ts:42-48 | Concatenation keeps run-length form, provided no digit meets a digit at the seam. |
| ChessUtils.EncodeLaws | src/components/ChessUtils.ts:38-53 | A rank remainder with `run` pending empties is encoded to cover exactly run + its length squares. The encoding has only letters and digits 1..8 (never 0), and no two digits are adjacent. |
| ChessUtils.RankLaws | src/components/ChessUtils.ts:38-53 | Every rank segment covers exactly 8 squares, is in run-length form, and contains no "/" or space. |
| ChessUtils.SegmentLaws | src/components/ChessUtils.ts:36-54 | All eight segments of a position obey the rank laws. |
| ChessUtils.TailFields | src/components/ChessUtils.ts:56 | The tail is a space followed by the fields w, -, -, 0, 1. |
| ChessUtils.PlacementFields | src/components/ChessUtils.ts:54-56 | Eight segments free of "/" and space, joined and followed by the tail, split into six fields. Splitting the placement on "/" gives back the segments. |
| ChessUtils.FenShape | src/components/ChessUtils.ts:34-57 | The written string has six space-separated fields: the placement, then w, -, -, 0, 1. Its placement splits into exactly the eight segments, each of width 8 and in run-length form. |
| ChessUtils.FenIgnoresOffBoardKeys | src/components/ChessUtils.ts:36-41 | Only the 64 labels a1..h8 are read. Extra or ill-formed keys do not change the string. |
| ChessUtils.EncodeEmpties | src/components/ChessUtils.ts:49-53 | A run of empty squares is written as the single digit of its length. |
| ChessUtils.EmptyRankOf | src/components/ChessUtils.ts:38-54 | A rank with no occupant is written "8". |
| ChessUtils.JoinEmptyRanks | src/components/ChessUtils.ts:56 | n segments "8" are joined into n eights separated by "/". |
| ChessUtils.EmptyBoardFen | src/components/ChessUtils.ts:34-57 | The empty map is written "8/8/8/8/8/8/8/8 w - - 0 1". |
| ChessUtils.LoneKingRank | src/components/ChessUtils.ts:38-54 | The rank of a lone white king on e4 is written "4K3": four empties flushed before the letter, three after it. |
| ChessUtils.LoneKingFen | src/components/ChessUtils.ts:34-57 | A lone white king on e4 is written "8/8/8/8/4K3/8/8/8 w - - 0 1". |
| FenParse.DecodeRank | src/components/ChessUtils.ts:38-53 | A decoded segment covers exactly as many cells as the segment's width, and all its occupants are well-formed. |
| FenParse.DecodeRanks | src/components/ChessUtils.ts:36-54 | Decoded rows, one per segment, each of eight well-formed cells. |
| FenParse.ParsePlacement | src/components/ChessUtils.ts:56 | A placement that decodes gives an 8×8 board of well-formed occupants. |
| FenParse.LoadBoard | src/components/Board.tsx:127-128 | Loading reads the first space-separated field as a placement. A successful load gives an 8×8 board of well-formed occupants. |
| FenParse.DecodeLetter | src/components/ChessUtils.ts:47-48 | A leading piece letter decodes to its occupant. |
| FenParse.DecodeRun | src/components/ChessUtils.ts:42-44 | A leading count decodes to that many empty cells. |
| FenParse.DecodeEncodeOccupied | src/components/ChessUtils.ts:42-48 | Pending empties flushed before an occupant's letter decode back to those empties followed by the occupant and the rest of the rank. |
| FenParse.DecodeEncode | src/components/ChessUtils.ts:38-53 | Decoding the encoding of a rank remainder gives back the pending empties followed by exactly its cells. |
| FenParse.DecodeEncodeRank | src/components/ChessUtils.ts:38-53 | Every well-formed rank is recovered from its segment. |
| FenParse.RowCanonical | src/components/ChessUtils.ts:39-41 | Every row of the board a well-formed position describes holds only well-formed occupants. |
| FenParse.EncodeRows | src/components/ChessUtils.ts:36-54 | One segment per row of eight cells. |
| FenParse.DecodeEncodeRows | src/components/ChessUtils.ts:36-54 | Decoding the segments of rows of eight well-formed cells gives back exactly those rows. |
| FenParse.SegmentsOfRows | src/components/ChessUtils.ts:36-54 | The segments of a position from rank index r on are the encodings of its board's rows from r on. |
| FenParse.DecodeSegments | src/components/ChessUtils.ts:36-54 | The board of a well-formed position is recovered, row for row, from its eight segments. |
| FenParse.LoadFenOf | src/components/ChessUtils.ts:34-57 | Round trip: loading the string written for a well-formed position sets up that position's board. Re-extracting it gives the position restricted to a1..h8, with the same kind and colour on every square. |
| FenParse.ExtractSerializeLoad | src/components/Board.tsx:89-128 | Extracting a board, writing it and loading the string gives back the same board and the same map. |
| BoardComponent.FirstEmptyFrom | src/components/Board.tsx:156-159 | The first unoccupied square at or after scan index n. Every square between is occupied. There is none iff all of them are occupied. |
| BoardComponent.FirstEmpty | src/components/Board.tsx:156-159 | The first unoccupied square in the order a8..h8, …, a1..h1, with every earlier square occupied. There is none iff all 64 squares are occupied. |
| BoardComponent.FirstEmptyIs | src/components/Board.tsx:156-159 | An unoccupied square whose predecessors are all occupied is the first empty square. |
| BoardComponent.Relocated | src/components/Board.tsx:100-102 | After a drop only valid squares remain. The source is empty. A valid target other than the source holds the source's former occupant, whatever was there before. Every other square is unchanged. |
| BoardComponent.DropOntoItself | src/components/Board.tsx:101-102 | Dropping a piece onto its own square deletes it. |
| BoardComponent.Winner | src/components/Board.tsx:26 | The checkmate winner named is "Black" iff White is to move: the side not to move. |
| BoardComponent.ResultMessage | src/components/Board.tsx:24-37 | The banner is null iff none of checkmate, draw, stalemate, threefold repetition and insufficient material holds. A checkmate always names the winner, whatever else holds. |
| BoardComponent.FirstHoldingIsFirst | src/components/Board.tsx:24-37 | A first-holding choice returns the message of a check that holds, after only failing checks. It returns nothing iff no check holds. |
| BoardComponent.ResultPriority | src/components/Board.tsx:24-37 | The banner is the message of the first holding predicate in the order checkmate, draw, stalemate, threefold repetition, insufficient material. It is null iff none holds. |
| BoardComponent.SpecificDrawsShadowed | src/components/Board.tsx:27-34 | When the draw predicate covers stalemate, threefold repetition and insufficient material, their three specific messages never appear. |
| BoardComponent.StartGrid | src/components/Board.tsx:20 | A fresh game's board is an 8×8 grid of well-formed occupants. |
| BoardComponent.RowOccupied | src/components/Board.tsx:156-159 | When every cell of row r is occupied, the eight squares the search visits for that row are keys of the extracted map. |
| BoardComponent.StartBlackRanksFull | src/components/Board.tsx:20 | On a fresh game's board the sixteen squares of ranks 8 and 7 are all occupied. |
| BoardComponent.StartA6Empty | src/components/Board.tsx:20 | On a fresh game's board a6, scan index 16, is empty. |
| BoardComponent.AddToStartGoesToA6 | src/components/Board.tsx:156-162 | On a fresh game's board the first empty square is index 16, a6. |
| BoardComponent.FindEmptySquare | src/components/Board.tsx:156-159 | The rank/file search finds a square iff some square holds no key, and the square it finds is `FirstEmpty`: every square before it in the scan is occupied. |
| BoardComponent.Board.constructor | src/components/Board.tsx:20-21 | A fresh component holds a fresh game, has emitted nothing and shows no result. |
| BoardComponent.Board.Commit | src/components/Board.tsx:104-130 | Writes the edited position with `PositionToFen` and reloads the board from the string. The board then holds the position's on-board part, and the string, which equals `FenOf` of the new board, is handed to the parent. |
| BoardComponent.Board.OnPieceDropFree | src/components/Board.tsx:84-135 | Succeeds iff the game has not started, the target is not null and the source is occupied. On success the board is `Relocated`, and exactly one string, `FenOf` of the new board, is emitted. Otherwise nothing changes. |
| BoardComponent.Board.AddPiece | src/components/Board.tsx:142-194 | While not started and some square is empty, the piece of the palette letter is placed on `FirstEmpty`, nothing else changes, and `FenOf` of the new board is emitted. When started or when the board is full, nothing changes. |
| BoardComponent.Board.Place | src/components/Board.tsx:159-190 | The board then holds the old occupants plus the added piece on the chosen square. The string of the new board is emitted. The banner is kept. |
| BoardComponent.Board.OnSquareClick | src/components/Board.tsx:196-241 | While not started, an occupied clicked square is emptied, every other square is unchanged, and `FenOf` of the new board is emitted. Otherwise nothing changes. |
| BoardComponent.Board.OnDrop | src/components/Board.tsx:58-82 | Refused, changing nothing, before the game starts, for a null target, or when the library rejects the move. Otherwise the library's new board replaces the old and its string is emitted. |
| BoardComponent.Board.UpdateResult | src/components/Board.tsx:24-38 | The banner is set to `ResultMessage` of the library's report. |
| Strings.JoinSplit | src/components/TopBar.tsx:139-142 | Splitting on a separator and joining on it gives back the string. |
| Strings.SplitJoin | src/components/ChessUtils.ts:56 | Joining pieces free of the separator and splitting again gives back the pieces. |
| Strings.SplitPartsFree | src/components/TopBar.tsx:139 | No piece of a split contains the separator. |
| Strings.Split | src/components/TopBar.tsx:139 | A split always yields at least one piece. |
| Strings.SplitWhole | src/components/TopBar.tsx:139-140 | A string with no separator splits into itself alone. |
| Strings.Join | src/components/ChessUtils.ts:56 | `join`, also at TopBar.tsx:142: no pieces give ""; otherwise the first piece comes first, followed by the separator when another piece follows. |
| Strings.Upper | src/components/ChessUtils.ts:47 | `toUpperCase`, also at Board.tsx:160: a letter becomes an upper-case letter; anything but a lower-case letter is kept. |
| Strings.Lower | src/components/ChessUtils.ts:47 | `toLowerCase`, also at Board.tsx:161: a letter becomes a lower-case letter; anything but an upper-case letter is kept. |
| Strings.CaseRoundTrip | src/components/Board.tsx:160-161 | Upper-casing a lower-case letter and lower-casing it again gives it back, and likewise the other way round. |
| Strings.JoinCons | src/components/ChessUtils.ts:56 | Joining a leading piece onto a non-empty list puts one separator after it. |
| Strings.JoinAppend | src/components/ChessUtils.ts:56 | Joining two non-empty lists is joining each with one separator between them. |
| TopBar.SetTurn | src/components/TopBar.tsx:138-144 | No new string, so `setFen` is not called, iff there are fewer than two space-separated fields. |
| TopBar.TurnLabel | src/components/TopBar.tsx:148 | The caption is "White" or "Black". |
| TopBar.SetTurnFields | src/components/TopBar.tsx:139-142 | With at least two fields, the new string's fields are the old ones with exactly field 1 replaced by the chosen value. The number of fields and every other field are kept. |
| TopBar.SetTurnCurrent | src/components/TopBar.tsx:137-142 | Choosing the current value gives back the same string. |
| TopBar.SetTurnIdempotent | src/components/TopBar.tsx:139-142 | Choosing a value twice is the same as choosing it once. |
| TopBar.TurnLabelAfterSet | src/components/TopBar.tsx:141-148 | After a choice the caption reads "White" iff "w" was chosen. |
| TopBar.TurnLabelMissing | src/components/TopBar.tsx:140-148 | With field 1 missing, the caption reads "Black" and no choice produces a string. |
| TopBar.SetTurnStart | src/components/TopBar.tsx:139-140 | The sentinel "start" has one field: choosing a turn does nothing, and the caption reads "Black". |
| TopBar.TurnOfEditedFen | src/components/TopBar.tsx:139-148 | Every string the free editor writes has White to move. Choosing Black changes only its side-to-move field to "b". |

## Left out

- The rules library (chess.js). Its board snapshot is the `game` field. Its `move` outcome and its game-end predicates are parameters (`MoveOutcome`, `GameStatus`).
- Loading a string (Board.tsx:127-128, 186-187, 237-238) is modelled as reading the placement field. The library's further checks are not modelled: king count, pawns on the back ranks, the other fields, and throwing on a string it rejects. Every string the editor writes decodes, by `FenParse.LoadFenOf`.
- The `fen`-prop synchronisation effect (Board.tsx:41-51) and the effect that runs `updateResult` when the game changes (Board.tsx:53-56) are not modelled. React scheduling of state updates is not modelled either: each method applies its `setGame` / `setResult` at once.
- Rendering and event plumbing (Board.tsx:243-293) are left out, including which handler receives a drop (Board.tsx:257). Also left out: the palette buttons and Board.tsx's own glyph table (Board.tsx:296-312). That table differs from `pieceUnicode` only in presentation, such as the variation selector on its black pawn.
- TopBar.tsx outside the Turn selector is left out, as is the `disabled={started}` flag that disables the selector during a game (it stays on screen).
- src/app/page.tsx, src/app/api/bestmove/route.ts and src/hooks/useBoardSize.tsx are not part of this model. They hold state wiring, a network proxy and a resize listener.
- Strings.Lower, Strings.Upper: case mapping covers ASCII letters only. Piece kinds from the library are always one of `pnbrqk`.
- ChessUtils.PieceUnicode: JavaScript object lookups also find inherited keys such as `"toString"`. The model treats only the twelve letters as keys. The gesture methods likewise test membership in the map's own keys only.
- BoardComponent.Board.AddPiece takes its letter from the palette. The palette's twelve letters are the only values it is called with, so the model requires one of them.
- BoardComponent.Board.OnDrop: the move's `from`, `to` and queen promotion arguments go to the library. The model receives only the library's answer, so it does not relate the new board to the squares dropped on.
- The `console.error(err)` report of a move the library throws on (Board.tsx:70-72) is left out. The model treats a thrown move like a rejected one: the drop is refused.
- Squares.Piece: an occupant's `type` is one character, because the library's piece symbol always is. `positionToFen` is exported with `type: string`, and for a longer or empty type string it would append that whole string, upper- or lower-cased, and break the eight-squares-per-rank law. The model does not cover such type strings.
