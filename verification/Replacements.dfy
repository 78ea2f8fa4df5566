/** Which occurrences a replacement of text replaces, and paths as text. */
module Replacements {
  import opened Text
  import opened FileTree
  import P = PlainSteps

  // ----- replaced text -----

  ghost predicate Occurs(part: string, text: string) {
    exists left, right :: text == left + part + right
  }

  /** The pieces with `glue` between each two. */
  function Glued(pieces: seq<string>, glue: string): string
    requires pieces != []
  {
    if |pieces| == 1 then pieces[0] else pieces[0] + glue + Glued(pieces[1..], glue)
  }

  /** `part` stands in `piece` + `part` at the end only. */
  ghost predicate EndsFirst(piece: string, part: string) {
    forall i | 0 <= i < |piece| :: !(part <= (piece + part)[i..])
  }

  /** The text cut at its occurrences from left to right, or at the first one only. An empty part stands at
      both ends and between all bytes. */
  ghost predicate Cut(pieces: seq<string>, text: string, part: string, firstOnly: bool)
    requires pieces != []
  {
    && text == Glued(pieces, part)
    && if part == "" then
         if firstOnly then pieces == ["", text]
         else && |pieces| == |text| + 2 && pieces[0] == "" && pieces[|text| + 1] == ""
              && forall i | 0 <= i < |text| :: pieces[i + 1] == [text[i]]
       else
         && (forall i | 0 <= i < |pieces| - 1 :: EndsFirst(pieces[i], part))
         && if firstOnly && |pieces| > 1 then |pieces| == 2 else !Occurs(part, pieces[|pieces| - 1])
  }

  lemma OccursAt(part: string, text: string)
    ensures Occurs(part, text) <==> P.Contains(text, part)
  {
    if left, right :| text == left + part + right {
      assert P.OccursAt(text, part, |left|);
    }
    if i: nat :| i <= |text| && P.OccursAt(text, part, i) {
      assert text == text[..i] + part + text[i + |part|..];
    }
  }

  lemma OccursFirst(part: string, text: string)
    requires text != "" && !(part <= text)
    ensures Occurs(part, text) <==> Occurs(part, text[1..])
  {
    if left, right :| text == left + part + right {
      assert left != "";
      assert text[1..] == left[1..] + part + right;
    }
    if left, right :| text[1..] == left + part + right {
      assert text == ([text[0]] + left) + part + right;
    }
  }

  lemma {:induction false} ReplacedPieces(text: string, before: string, after: string, firstOnly: bool) returns (pieces: seq<string>)
    requires before != ""
    ensures pieces != [] && Cut(pieces, text, before, firstOnly)
    ensures P.Replaced(text, before, after, firstOnly) == Glued(pieces, after)
    ensures |pieces| > 1 <==> Occurs(before, text)
    decreases |text|
  {
    if before <= text {
      var rest := text[|before|..];
      var more := [rest];
      if !firstOnly {
        more := ReplacedPieces(rest, before, after, false);
      }
      pieces := CutHere(text, before, after, firstOnly, more);
    } else if text == "" {
      pieces := [""];
      assert forall left, right :: "" == left + before + right ==> before == "";
    } else {
      var more := ReplacedPieces(text[1..], before, after, firstOnly);
      OccursFirst(before, text);
      pieces := Prepended(text, before, after, firstOnly, more);
    }
  }

  lemma CutHere(text: string, before: string, after: string, firstOnly: bool, more: seq<string>) returns (pieces: seq<string>)
    requires before != "" && before <= text && more != []
    requires if firstOnly then more == [text[|before|..]] else Cut(more, text[|before|..], before, false)
    ensures |pieces| == |more| + 1 && Cut(pieces, text, before, firstOnly) && Occurs(before, text)
    ensures Glued(pieces, after) == after + Glued(more, after)
  {
    assert text == "" + before + text[|before|..];
    pieces := [""] + more;
    assert pieces[1..] == more && pieces[|pieces| - 1] == more[|more| - 1];
    assert forall i | 1 <= i < |pieces| :: pieces[i] == more[i - 1];
  }

  lemma Prepended(text: string, before: string, after: string, firstOnly: bool, more: seq<string>) returns (pieces: seq<string>)
    requires before != "" && text != "" && !(before <= text) && more != [] && Cut(more, text[1..], before, firstOnly)
    requires Occurs(before, text) <==> Occurs(before, text[1..])
    requires |more| > 1 <==> Occurs(before, text[1..])
    ensures |pieces| == |more| && Cut(pieces, text, before, firstOnly)
    ensures Glued(pieces, after) == [text[0]] + Glued(more, after)
  {
    hide Occurs, EndsFirst;
    pieces := [[text[0]] + more[0]] + more[1..];
    assert pieces[1..] == more[1..];
    assert Glued(pieces, before) == [text[0]] + Glued(more, before) == text;
    if |more| > 1 {
      FirstPieceEnds(text, before, more);
      assert pieces[|pieces| - 1] == more[|more| - 1];
    } else {
      assert Glued(pieces, before) == pieces[0];
    }
  }

  lemma FirstPieceEnds(text: string, part: string, more: seq<string>)
    requires text != "" && !(part <= text) && |more| > 1 && text[1..] == Glued(more, part) && EndsFirst(more[0], part)
    ensures EndsFirst([text[0]] + more[0], part)
  {
    var piece := [text[0]] + more[0];
    var tail := Glued(more[1..], part);
    assert text == piece + part + tail;
    forall i | 0 <= i < |piece|
      ensures !(part <= (piece + part)[i..])
    {
      if i == 0 {
        assert piece + part <= text;
      } else {
        assert (piece + part)[i..] == (more[0] + part)[i - 1..];
      }
    }
  }

  lemma {:induction false} ReplacedBetween(text: string, after: string) returns (pieces: seq<string>)
    ensures |pieces| == |text| + 2 && pieces[0] == "" && pieces[|text| + 1] == ""
    ensures forall i | 0 <= i < |text| :: pieces[i + 1] == [text[i]]
    ensures Glued(pieces, "") == text && Glued(pieces, after) == P.Replaced(text, "", after, false)
    decreases |text|
  {
    if text == "" {
      pieces := ["", ""];
      assert pieces[1..] == [""];
    } else {
      var more := ReplacedBetween(text[1..], after);
      pieces := ["", [text[0]]] + more[1..];
      assert pieces[1..] == [[text[0]]] + more[1..];
      assert pieces[1..][1..] == more[1..];
      assert Glued(more, after) == after + Glued(more[1..], after);
      assert text == [text[0]] + text[1..];
    }
  }

  /** A replacement cuts the text at the occurrences and puts the new text between the pieces. */
  lemma ReplacedIs(text: string, before: string, after: string, firstOnly: bool) returns (pieces: seq<string>)
    requires Occurs(before, text)
    ensures |pieces| > 1 && Cut(pieces, text, before, firstOnly)
    ensures P.Replaced(text, before, after, firstOnly) == Glued(pieces, after)
  {
    if before != "" {
      pieces := ReplacedPieces(text, before, after, firstOnly);
    } else if firstOnly {
      pieces := ["", text];
      assert text[0..] == text;
    } else {
      pieces := ReplacedBetween(text, after);
    }
  }
}
