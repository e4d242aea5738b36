/** regiloader.cpp, main: a recipe is split into actions at each "->". */
module Recipe {
  import opened Bytes

  predicate ArrowAt(s: string, i: nat) {
    i + 2 <= |s| && s[i] == '-' && s[i + 1] == '>'
  }

  predicate HasArrow(s: string) {
    exists i: nat :: i < |s| && ArrowAt(s, i)
  }

  /** std::string::find of the delimiter. */
  function Find(s: string, from: nat): (r: Option<nat>)
    requires from <= |s|
    ensures r.None? ==> forall i: nat :: from <= i ==> !ArrowAt(s, i)
    ensures r.Some? ==> from <= r.value && ArrowAt(s, r.value)
    ensures r.Some? ==> forall i: nat :: from <= i < r.value ==> !ArrowAt(s, i)
    decreases |s| - from
  {
    if from == |s| then None
    else if ArrowAt(s, from) then Some(from)
    else Find(s, from + 1)
  }

  function Pieces(s: string): seq<string>
    decreases |s|
  {
    match Find(s, 0)
    case None => [s]
    case Some(i) => [s[..i]] + Pieces(s[i + 2..])
  }

  function Join(pieces: seq<string>): string {
    if pieces == [] then ""
    else if |pieces| == 1 then pieces[0]
    else pieces[0] + "->" + Join(pieces[1..])
  }

  ghost predicate Contains(s: string, part: string) {
    exists i, j :: 0 <= i <= j <= |s| && s[i..j] == part
  }

  lemma HasArrowIff(s: string)
    ensures HasArrow(s) <==> Contains(s, "->")
  {
    if HasArrow(s) {
      var i: nat :| i < |s| && ArrowAt(s, i);
      assert s[i..i + 2] == "->";
    }
    if Contains(s, "->") {
      var i, j :| 0 <= i <= j <= |s| && s[i..j] == "->";
      assert s[i] == s[i..j][0] && s[i + 1] == s[i..j][1];
      assert ArrowAt(s, i);
    }
  }

  lemma FindShift(s: string, from: nat)
    requires from <= |s|
    ensures
      var tail := Find(s[from..], 0);
      Find(s, from) == if tail.None? then None else Some(from + tail.value)
  {
    var rest, tail, r := s[from..], Find(s[from..], 0), Find(s, from);
    assert forall i: nat :: ArrowAt(rest, i) <==> ArrowAt(s, from + i);
    if r.Some? {
      assert ArrowAt(rest, r.value - from);
    }
  }

  lemma {:induction false} PiecesUnfold(s: string)
    ensures
      var r := Find(s, 0);
      Pieces(s) == if r.None? then [s] else [s[..r.value]] + Pieces(s[r.value + 2..])
  {
    hide Find;
  }

  lemma SliceOfRest(s: string, from: nat, at: nat)
    requires from <= at && at + 2 <= |s|
    ensures s[from..][..at - from] == s[from..at] && s[from..][at - from + 2..] == s[at + 2..]
  {
  }

  lemma {:induction false} PiecesFrom(s: string, from: nat)
    requires from <= |s|
    ensures
      var r := Find(s, from);
      Pieces(s[from..]) ==
      if r.None? then [s[from..]] else [s[from..r.value]] + Pieces(s[r.value + 2..])
  {
    hide Find, Pieces;
    FindShift(s, from);
    PiecesUnfold(s[from..]);
    var r := Find(s, from);
    if r.Some? {
      SliceOfRest(s, from, r.value);
    }
  }

  method Split(acts: string) returns (recipe: seq<string>)
    ensures recipe == Pieces(acts)
  {
    hide Pieces, Find;
    recipe := [];
    var found := 0;
    assert acts[found..] == acts;
    while true
      invariant found <= |acts|
      invariant recipe + Pieces(acts[found..]) == Pieces(acts)
      decreases |acts| - found
    {
      var fromOff := found;
      var at := Find(acts, found);
      PiecesFrom(acts, found);
      if at.None? {
        recipe := recipe + [acts[fromOff..]];
        break;
      }
      found := at.value;
      recipe := recipe + [acts[fromOff..found]];
      found := found + 2;
    }
  }

  lemma {:induction false} JoinPieces(s: string)
    ensures Join(Pieces(s)) == s
    decreases |s|
  {
    var at := Find(s, 0);
    if at.Some? {
      JoinPieces(s[at.value + 2..]);
      assert Pieces(s)[1..] == Pieces(s[at.value + 2..]);
      assert s == s[..at.value] + "->" + s[at.value + 2..];
    }
  }

  ghost predicate AllPlain(pieces: seq<string>) {
    forall i :: 0 <= i < |pieces| ==> !Contains(pieces[i], "->")
  }

  lemma {:induction false} PiecesArePlain(s: string)
    ensures Pieces(s) != [] && AllPlain(Pieces(s))
    decreases |s|
  {
    var at := Find(s, 0);
    if at.Some? {
      PiecesArePlain(s[at.value + 2..]);
      forall i: nat | i < at.value ensures !ArrowAt(s[..at.value], i) {
        assert !ArrowAt(s, i);
      }
      assert !HasArrow(s[..at.value]);
      HasArrowIff(s[..at.value]);
    } else {
      HasArrowIff(s);
    }
  }

  /** A piece without the delimiter, then the delimiter: no earlier one arises between them. */
  lemma FindAfterPlain(piece: string, rest: string)
    requires !HasArrow(piece)
    ensures Find(piece + "->" + rest, 0) == Some(|piece|)
  {
    var s := piece + "->" + rest;
    assert ArrowAt(s, |piece|);
    forall i: nat | i < |piece| ensures !ArrowAt(s, i) {
      assert !ArrowAt(piece, i);
      assert s[i] == piece[i];
      if i + 1 == |piece| {
        assert s[i + 1] == '-';
      } else {
        assert s[i + 1] == piece[i + 1];
      }
    }
  }

  lemma {:induction false} PiecesOfJoin(pieces: seq<string>)
    requires pieces != [] && AllPlain(pieces)
    ensures Pieces(Join(pieces)) == pieces
    decreases |pieces|
  {
    hide Contains;
    var s := Join(pieces);
    HasArrowIff(pieces[0]);
    if |pieces| == 1 {
      assert !HasArrow(s);
      assert Find(s, 0).None?;
    } else {
      var first, rest := pieces[0], Join(pieces[1..]);
      FindAfterPlain(first, rest);
      PiecesOfJoin(pieces[1..]);
      assert s[..|first|] == first && s[|first| + 2..] == rest;
    }
  }

  /** The pieces are the one non-empty list of "->"-free strings that joins to the input. */
  lemma PiecesIff(s: string, pieces: seq<string>)
    ensures pieces == Pieces(s) <==> pieces != [] && AllPlain(pieces) && Join(pieces) == s
  {
    JoinPieces(s);
    PiecesArePlain(s);
    if pieces != [] && AllPlain(pieces) && Join(pieces) == s {
      PiecesOfJoin(pieces);
    }
  }
}
