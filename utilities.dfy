/** Utilities.java: the splitting routine every codec of the system is built on, and list membership. */
module Utilities {
  import opened Text

  /** Utilities.stringSplit(toSplit, breakPoint) for a one-character separator c, following the
      source's loop: while c occurs, keep the text before its first occurrence unless that text is
      empty, then drop everything up to and including that occurrence; finally keep a non-empty
      remainder. Empty pieces are therefore never produced. */
  function Split(s: string, c: char): (pieces: seq<string>)
    decreases |s|
  {
    var i := IndexOf(s, c);
    if i < 0 then (if |s| == 0 then [] else [s])
    else Lead(s, i) + Split(s[i + 1..], c)
  }

  /** The text before position i as a piece, or no piece when that text is empty. */
  function Lead(s: string, i: int): seq<string>
    requires 0 <= i <= |s|
  {
    if i != 0 then [s[..i]] else []
  }

  /** Pieces joined by single separators. */
  function Join(pieces: seq<string>, c: char): string {
    if |pieces| == 0 then []
    else if |pieces| == 1 then pieces[0]
    else pieces[0] + [c] + Join(pieces[1..], c)
  }

  /** Pieces each followed by the separator, as the files of the system are written. */
  function JoinTerminated(pieces: seq<string>, c: char): string {
    if |pieces| == 0 then [] else pieces[0] + [c] + JoinTerminated(pieces[1..], c)
  }

  function Flatten(pieces: seq<string>): string {
    if |pieces| == 0 then [] else pieces[0] + Flatten(pieces[1..])
  }

  /** Pieces that Split could have produced: non-empty and free of the separator. */
  predicate ValidPieces(pieces: seq<string>, c: char) {
    forall i :: 0 <= i < |pieces| ==> |pieces[i]| > 0 && c !in pieces[i]
  }

  /** A separator cuts the text in two independent halves: this is how leading and trailing
      separators disappear and runs of separators collapse. */
  lemma {:induction false} SplitAroundSeparator(a: string, b: string, c: char)
    ensures Split(a + [c] + b, c) == Split(a, c) + Split(b, c)
    decreases |a|
  {
    if c !in a {
      SplitAtFirstSeparator(a, b, c);
    } else {
      var i := IndexOf(a, c);
      var after := a[i + 1..];
      var whole, r := Split(a + [c] + b, c), Split(after + [c] + b, c);
      var front, x, y := Split(a, c), Split(after, c), Split(b, c);
      SplitAtSeparatorOfFirst(a, b, c);
      assert whole == Lead(a, i) + r;
      SplitAroundSeparator(after, b, c);
      assert r == x + y;
      SplitUnfold(a, c);
      assert front == Lead(a, i) + x;
      Regrouped(whole, Lead(a, i), r, x, y, front);
    }
  }

  /** Rewriting with three equations of concatenations, over any element type. */
  lemma Regrouped<T>(whole: seq<T>, h: seq<T>, r: seq<T>, x: seq<T>, y: seq<T>, front: seq<T>)
    requires whole == h + r && r == x + y && front == h + x
    ensures whole == front + y
  {
  }

  /** The case of SplitAroundSeparator where the separator shown is the first one. */
  lemma SplitAtFirstSeparator(a: string, b: string, c: char)
    requires c !in a
    ensures Split(a + [c] + b, c) == Split(a, c) + Split(b, c)
  {
    var s := a + [c] + b;
    assert s[..|a|] == a;
    IndexOfIs(s, c, |a|);
    assert s[|a| + 1..] == b;
    SplitUnfold(s, c);
    SplitWithoutSeparator(a, c);
  }

  /** When the first separator lies inside a, Split takes the same first step on a + [c] + b. */
  lemma SplitAtSeparatorOfFirst(a: string, b: string, c: char)
    requires c in a
    ensures Split(a + [c] + b, c) == Lead(a, IndexOf(a, c)) + Split(a[IndexOf(a, c) + 1..] + [c] + b, c)
  {
    var s := a + [c] + b;
    var i := IndexOf(a, c);
    assert s[..i] == a[..i];
    IndexOfIs(s, c, i);
    assert s[i + 1..] == a[i + 1..] + [c] + b;
    SplitUnfold(s, c);
  }

  /** One step of Split: the text before the first separator, when non-empty, then the pieces
      of the text after it. */
  lemma SplitUnfold(s: string, c: char)
    requires c in s
    ensures Split(s, c) == Lead(s, IndexOf(s, c)) + Split(s[IndexOf(s, c) + 1..], c)
  {
    assert IndexOf(s, c) >= 0;
  }

  /** The loop step of stringSplit keeps "pieces so far, then the pieces of what is left". */
  lemma SplitStep(split: seq<string>, rest: string, c: char, goal: seq<string>, i: int, next: string, split': seq<string>)
    requires c in rest && split + Split(rest, c) == goal
    requires i == IndexOf(rest, c) && next == rest[i + 1..]
    requires split' == if i != 0 then split + [rest[..i]] else split
    ensures split' + Split(next, c) == goal
  {
    SplitUnfold(rest, c);
    if i != 0 {
      AppendAssociates(split, [rest[..i]], Split(next, c));
    } else {
      assert [] + Split(next, c) == Split(next, c);
    }
  }

  lemma AppendAssociates<T>(a: seq<T>, b: seq<T>, d: seq<T>)
    ensures a + (b + d) == (a + b) + d
  {
  }

  /** The last step of stringSplit: a remainder without separator is the final piece, if any. */
  lemma SplitLast(split: seq<string>, rest: string, c: char, goal: seq<string>)
    requires c !in rest && split + Split(rest, c) == goal
    ensures (if |rest| != 0 then split + [rest] else split) == goal
  {
    SplitWithoutSeparator(rest, c);
    if |rest| == 0 {
      assert split + [] == split;
    }
  }

  /** The first occurrence is the one with no occurrence before it. */
  lemma IndexOfIs(s: string, c: char, i: int)
    requires 0 <= i < |s| && s[i] == c && c !in s[..i]
    ensures IndexOf(s, c) == i
  {
  }

  /** The pieces, concatenated, are the input with every separator removed: nothing else is
      lost, added or reordered. */
  lemma {:induction false} SplitKeepsContent(s: string, c: char)
    ensures Flatten(Split(s, c)) == RemoveChar(s, c)
    decreases |s|
  {
    if c !in s {
      RemoveCharAbsent(s, c);
    } else {
      var i := IndexOf(s, c);
      assert s == s[..i] + [c] + s[i + 1..];
      RemoveCharAppend(s[..i] + [c], s[i + 1..], c);
      RemoveCharAppend(s[..i], [c], c);
      RemoveCharAbsent(s[..i], c);
      SplitKeepsContent(s[i + 1..], c);
      FlattenAppend(Lead(s, i), Split(s[i + 1..], c));
    }
  }

  lemma {:induction false} FlattenAppend(a: seq<string>, b: seq<string>)
    ensures Flatten(a + b) == Flatten(a) + Flatten(b)
  {
    if a != [] {
      assert (a + b)[1..] == a[1..] + b;
      FlattenAppend(a[1..], b);
    } else {
      assert a + b == b;
    }
  }

  /** A text with no separator is one piece, an empty text none. */
  lemma SplitWithoutSeparator(s: string, c: char)
    requires c !in s
    ensures Split(s, c) == if s == [] then [] else [s]
  {
  }

  /** A non-empty leading field is the first piece. */
  lemma SplitLeadingField(a: string, b: string, c: char)
    requires |a| > 0 && c !in a
    ensures Split(a + [c] + b, c) == [a] + Split(b, c)
  {
    SplitAroundSeparator(a, b, c);
    SplitWithoutSeparator(a, c);
  }

  /** Three non-empty leading fields are the first three pieces. */
  lemma SplitThreeFields(x: string, y: string, m: string, rest: string, c: char)
    requires |x| > 0 && c !in x && |y| > 0 && c !in y && |m| > 0 && c !in m
    ensures Split(x + [c] + y + [c] + m + [c] + rest, c) == [x, y, m] + Split(rest, c)
  {
    var tail2 := m + [c] + rest;
    var tail1 := y + [c] + tail2;
    Associate(x, y, m, rest, c);
    SplitLeadingField(m, rest, c);
    SplitLeadingField(y, tail2, c);
    SplitLeadingField(x, tail1, c);
    Regroup(x, y, m, Split(rest, c));
  }

  /** Four non-empty fields, each followed by the separator, are the four pieces. */
  lemma SplitFourTerminated(a: string, b: string, x: string, d: string, c: char)
    requires |a| > 0 && c !in a && |b| > 0 && c !in b && |x| > 0 && c !in x && |d| > 0 && c !in d
    ensures Split(a + [c] + b + [c] + x + [c] + d + [c], c) == [a, b, x, d]
  {
    SplitThreeFields(a, b, x, d + [c], c);
    assert a + [c] + b + [c] + x + [c] + (d + [c]) == a + [c] + b + [c] + x + [c] + d + [c];
    SplitTerminatedOne(d, c);
    assert [a, b, x] + [d] == [a, b, x, d];
  }

  /** Three non-empty fields with an empty one between the second and the third: the empty
      field leaves no piece. */
  lemma SplitEmptyThird(a: string, b: string, d: string, c: char)
    requires |a| > 0 && c !in a && |b| > 0 && c !in b && |d| > 0 && c !in d
    ensures Split(a + [c] + b + [c] + [] + [c] + d + [c], c) == [a, b, d]
  {
    EmptyThirdGrouping(a, b, d, [c]);
    SplitDoubledSeparator(a, b, d, c);
  }

  lemma EmptyThirdGrouping<T>(a: seq<T>, b: seq<T>, d: seq<T>, sep: seq<T>)
    ensures a + sep + b + sep + [] + sep + d + sep == (a + sep + (b + sep)) + sep + (d + sep)
  {
  }

  lemma SplitDoubledSeparator(a: string, b: string, d: string, c: char)
    requires |a| > 0 && c !in a && |b| > 0 && c !in b && |d| > 0 && c !in d
    ensures Split((a + [c] + (b + [c])) + [c] + (d + [c]), c) == [a, b, d]
  {
    SplitAroundSeparator(a + [c] + (b + [c]), d + [c], c);
    SplitTerminatedTwo(a, b, c);
    SplitTerminatedOne(d, c);
  }

  /** Two non-empty fields, each followed by the separator, are two pieces. */
  lemma SplitTerminatedTwo(a: string, b: string, c: char)
    requires |a| > 0 && c !in a && |b| > 0 && c !in b
    ensures Split(a + [c] + (b + [c]), c) == [a, b]
  {
    SplitLeadingField(a, b + [c], c);
    SplitTerminatedOne(b, c);
  }

  /** One non-empty field followed by the separator is one piece. */
  lemma SplitTerminatedOne(a: string, c: char)
    requires |a| > 0 && c !in a
    ensures Split(a + [c], c) == [a]
  {
    SplitLeadingField(a, [], c);
    assert a + [c] + [] == a + [c];
    SplitWithoutSeparator([], c);
  }

  lemma Regroup(x: string, y: string, m: string, r: seq<string>)
    ensures [x] + ([y] + ([m] + r)) == [x, y, m] + r
  {
    assert [x, y, m] == [x] + [y] + [m];
  }

  lemma Associate(x: string, y: string, m: string, rest: string, c: char)
    ensures x + [c] + y + [c] + m + [c] + rest == x + [c] + (y + [c] + (m + [c] + rest))
  {
  }

  /** Four pieces, each followed by the separator. */
  lemma JoinTerminatedFour(a: string, b: string, x: string, d: string, c: char)
    ensures JoinTerminated([a, b, x, d], c) == a + [c] + b + [c] + x + [c] + d + [c]
  {
    JoinTerminatedOne(d, c);
    JoinTerminatedCons(x, [d], c);
    JoinTerminatedCons(b, [x, d], c);
    JoinTerminatedCons(a, [b, x, d], c);
  }

  lemma JoinTerminatedOne(a: string, c: char)
    ensures JoinTerminated([a], c) == a + [c]
  {
    assert [a][1..] == [];
  }

  lemma JoinTerminatedCons(a: string, rest: seq<string>, c: char)
    ensures JoinTerminated([a] + rest, c) == a + [c] + JoinTerminated(rest, c)
  {
    assert ([a] + rest)[1..] == rest;
  }

  /** Split undoes Join on pieces that Split could have produced. */
  lemma {:induction false} SplitJoin(pieces: seq<string>, c: char)
    requires ValidPieces(pieces, c)
    ensures Split(Join(pieces, c), c) == pieces
  {
    if |pieces| == 0 {
      SplitWithoutSeparator([], c);
    } else if |pieces| == 1 {
      SplitWithoutSeparator(pieces[0], c);
    } else {
      var t := Join(pieces[1..], c);
      assert Join(pieces, c) == pieces[0] + [c] + t;
      SplitAroundSeparator(pieces[0], t, c);
      SplitWithoutSeparator(pieces[0], c);
      SplitJoin(pieces[1..], c);
      assert pieces == [pieces[0]] + pieces[1..];
    }
  }

  /** Split undoes JoinTerminated on pieces that Split could have produced. */
  lemma {:induction false} SplitJoinTerminated(pieces: seq<string>, c: char)
    requires ValidPieces(pieces, c)
    ensures Split(JoinTerminated(pieces, c), c) == pieces
  {
    if |pieces| > 0 {
      assert pieces == [pieces[0]] + pieces[1..];
      JoinTerminatedCons(pieces[0], pieces[1..], c);
      SplitLeadingField(pieces[0], JoinTerminated(pieces[1..], c), c);
      SplitJoinTerminated(pieces[1..], c);
    } else {
      SplitWithoutSeparator([], c);
    }
  }

  /** Split never produces an empty piece, nor one holding the separator. */
  lemma {:induction false} SplitValid(s: string, c: char)
    ensures ValidPieces(Split(s, c), c)
    decreases |s|
  {
    if c in s {
      var i := IndexOf(s, c);
      SplitValid(s[i + 1..], c);
      SplitUnfold(s, c);
      assert i != 0 ==> c !in s[..i];
    }
  }

  /** A character absent from the text is absent from every piece. */
  lemma {:induction false} SplitAvoids(s: string, c: char, x: char)
    requires x !in s
    ensures forall i :: 0 <= i < |Split(s, c)| ==> x !in Split(s, c)[i]
    decreases |s|
  {
    if c in s {
      var i := IndexOf(s, c);
      SplitAvoids(s[i + 1..], c, x);
      SplitUnfold(s, c);
    }
  }

  /** A character that is neither the separator nor in any piece is not in the joined text. */
  lemma {:induction false} JoinTerminatedAvoids(pieces: seq<string>, c: char, x: char)
    requires x != c && forall i :: 0 <= i < |pieces| ==> x !in pieces[i]
    ensures x !in JoinTerminated(pieces, c)
  {
    if |pieces| > 0 {
      JoinTerminatedAvoids(pieces[1..], c, x);
    }
  }

  /** A non-empty terminated join ends with the separator. */
  lemma {:induction false} JoinTerminatedLast(pieces: seq<string>, c: char)
    requires pieces != []
    ensures |JoinTerminated(pieces, c)| > 0 && JoinTerminated(pieces, c)[|JoinTerminated(pieces, c)| - 1] == c
  {
    if |pieces| > 1 {
      JoinTerminatedLast(pieces[1..], c);
    }
  }

  lemma {:induction false} JoinTerminatedAppend(a: seq<string>, b: seq<string>, c: char)
    ensures JoinTerminated(a + b, c) == JoinTerminated(a, c) + JoinTerminated(b, c)
  {
    if a != [] {
      assert (a + b)[1..] == a[1..] + b;
      JoinTerminatedAppend(a[1..], b, c);
    } else {
      assert a + b == b;
    }
  }

  /** Utilities.stringSplit(String, String). The loop skips one character after each match, so
      the source only works for a one-character separator; every caller passes one. */
  method StringSplit(toSplit: string, breakPoint: string) returns (pieces: seq<string>)
    requires |breakPoint| == 1
    ensures pieces == Split(toSplit, breakPoint[0])
  {
    var c := breakPoint[0];
    ghost var goal := Split(toSplit, c);
    var rest := toSplit;
    var split: seq<string> := [];
    while c in rest
      invariant split + Split(rest, c) == goal
      decreases |rest|
    {
      var i := IndexOf(rest, c);
      var next := rest[i + 1..];
      var split' := split;
      if i != 0 {
        split' := split + [rest[..i]];
      }
      SplitStep(split, rest, c, goal, i, next, split');
      split, rest := split', next;
    }
    SplitLast(split, rest, c, goal);
    if |rest| != 0 {
      split := split + [rest];
    }
    var splitArray := ToArray(split);
    pieces := splitArray[..];
  }

  /** The closing loop of stringSplit: the collected pieces copied into a fresh array. */
  method ToArray(split: seq<string>) returns (splitArray: array<string>)
    ensures fresh(splitArray) && splitArray[..] == split
  {
    splitArray := new string[|split|];
    for i := 0 to |split|
      invariant forall j :: 0 <= j < i ==> splitArray[j] == split[j]
    {
      splitArray[i] := split[i];
    }
  }

  /** Pieces each followed by the separator, accumulated in a loop as the writers of the
      system do. */
  method AppendTerminated(pieces: seq<string>, c: char) returns (text: string)
    ensures text == JoinTerminated(pieces, c)
  {
    text := "";
    for i := 0 to |pieces|
      invariant text == JoinTerminated(pieces[..i], c)
    {
      JoinTerminatedAppend(pieces[..i], [pieces[i]], c);
      JoinTerminatedOne(pieces[i], c);
      assert pieces[..i + 1] == pieces[..i] + [pieces[i]];
      text := text + pieces[i] + [c];
    }
    assert pieces[..|pieces|] == pieces;
  }

  /** Utilities.stringSplit(String, char). */
  method StringSplitChar(toSplit: string, breakPoint: char) returns (pieces: seq<string>)
    ensures pieces == Split(toSplit, breakPoint)
  {
    pieces := StringSplit(toSplit, [breakPoint]);
  }

  /** Utilities.isPresent, for both the List and the array overload: a linear search with early
      return. */
  method IsPresent<T(==)>(lst: seq<T>, target: T) returns (found: bool)
    ensures found <==> exists i :: 0 <= i < |lst| && lst[i] == target
  {
    for i := 0 to |lst|
      invariant forall j :: 0 <= j < i ==> lst[j] != target
    {
      if lst[i] == target {
        return true;
      }
    }
    return false;
  }
}
