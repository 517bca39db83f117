/**
  The Turn selector of the top bar. It shows and rewrites field 1 of the
  position string (the side to move): the string is split on single
  spaces, field 1 is overwritten and the fields are joined again.
 */
module TopBar {
  import opened Wrappers
  import opened Strings
  import opened Squares
  import opened ChessUtils

  /**
    The string handed to `setFen` when `val` is chosen, or nothing when the
    string has fewer than two space-separated fields.
   */
  function SetTurn(fen: string, val: string): (updated: Option<string>)
    ensures updated.None? <==> |Split(fen, ' ')| < 2
  {
    var parts := Split(fen, ' ');
    if |parts| >= 2 then Some(Join(parts[1 := val], ' ')) else None
  }

  /** The selector's caption: "White" exactly when field 1 exists and is "w". */
  function TurnLabel(fen: string): (caption: string)
    ensures caption == "White" || caption == "Black"
  {
    var parts := Split(fen, ' ');
    if |parts| >= 2 && parts[1] == "w" then "White" else "Black"
  }

  /**
    Choosing a value free of spaces replaces exactly field 1: the fields of
    the new string are the old ones with field 1 overwritten, so their
    number and every other field are kept.
   */
  lemma SetTurnFields(fen: string, val: string)
    requires ' ' !in val && |Split(fen, ' ')| >= 2
    ensures Split(SetTurn(fen, val).value, ' ') == Split(fen, ' ')[1 := val]
    ensures |Split(SetTurn(fen, val).value, ' ')| == |Split(fen, ' ')|
    ensures Split(SetTurn(fen, val).value, ' ')[1] == val
    ensures forall i :: 0 <= i < |Split(fen, ' ')| && i != 1 ==>
      Split(SetTurn(fen, val).value, ' ')[i] == Split(fen, ' ')[i]
  {
    var parts := Split(fen, ' ');
    SplitPartsFree(fen, ' ');
    var edited := parts[1 := val];
    assert forall i :: 0 <= i < |edited| ==> ' ' !in edited[i] by {
      forall i | 0 <= i < |edited| ensures ' ' !in edited[i] {
        if i != 1 {
          assert edited[i] == parts[i];
        }
      }
    }
    SplitJoin(edited, ' ');
  }

  /** Choosing the side already to move gives back the same string. */
  lemma SetTurnCurrent(fen: string)
    requires |Split(fen, ' ')| >= 2
    ensures SetTurn(fen, Split(fen, ' ')[1]) == Some(fen)
  {
    var parts := Split(fen, ' ');
    assert parts[1 := parts[1]] == parts;
    JoinSplit(fen, ' ');
  }

  /** Choosing the same value twice is the same as choosing it once. */
  lemma SetTurnIdempotent(fen: string, val: string)
    requires ' ' !in val
    ensures SetTurn(fen, val).Some? ==> SetTurn(SetTurn(fen, val).value, val) == SetTurn(fen, val)
  {
    if SetTurn(fen, val).Some? {
      SetTurnFields(fen, val);
      var parts := Split(fen, ' ');
      assert parts[1 := val][1 := val] == parts[1 := val];
    }
  }

  /** After a choice, the caption names the chosen side: "White" exactly when "w" was chosen. */
  lemma TurnLabelAfterSet(fen: string, val: string)
    requires ' ' !in val && |Split(fen, ' ')| >= 2
    ensures TurnLabel(SetTurn(fen, val).value) == (if val == "w" then "White" else "Black")
  {
    SetTurnFields(fen, val);
  }

  /** The caption reads "Black" whenever field 1 is missing. */
  lemma TurnLabelMissing(fen: string)
    requires |Split(fen, ' ')| < 2
    ensures TurnLabel(fen) == "Black" && SetTurn(fen, "w").None? && SetTurn(fen, "b").None?
  {
  }

  /** The sentinel "start" has a single field: choosing a turn leaves it alone. */
  lemma SetTurnStart(val: string)
    ensures SetTurn("start", val) == None
    ensures TurnLabel("start") == "Black"
  {
    SplitWhole("start", ' ');
  }

  /**
    Every string the free editor writes has White to move, and choosing
    Black rewrites only its side-to-move field.
   */
  lemma TurnOfEditedFen(p: Position)
    requires LetterPosition(p)
    ensures TurnLabel(FenOf(p)) == "White"
    ensures SetTurn(FenOf(p), "b") == Some(Join(RankSegments(p), '/') + " b - - 0 1")
  {
    FenShape(p);
    var placement := Join(RankSegments(p), '/');
    assert Split(FenOf(p), ' ')[1 := "b"] == [placement, "b", "-", "-", "0", "1"];
    JoinBlackFields(placement);
  }

  /** A placement followed by the fields b, -, -, 0, 1 joins into the placement and " b - - 0 1". */
  lemma JoinBlackFields(placement: string)
    ensures Join([placement, "b", "-", "-", "0", "1"], ' ') == placement + " b - - 0 1"
  {
    var edited := [placement, "b", "-", "-", "0", "1"];
    BlackTail();
    assert edited[1..] == ["b", "-", "-", "0", "1"];
    JoinCons(placement, edited[1..], ' ');
    assert edited == [placement] + edited[1..];
    assert placement + [' '] + "b - - 0 1" == placement + ([' '] + "b - - 0 1");
  }

  /** The fields after the placement of the edited string, joined back. */
  lemma BlackTail()
    ensures Join(["b", "-", "-", "0", "1"], ' ') == "b - - 0 1"
    ensures [' '] + "b - - 0 1" == " b - - 0 1"
  {
  }
}
