// The rotation order of SdEnumerator, stated over the set of suitable names:
// which name comes next after a cursor, and what repeated calls visit.
module Rotation {
  import opened Base
  import opened CStrings
  import opened Storage

  /** m is the strcmp-least member of S. */
  ghost predicate IsLeast(m: EntryName, S: set<EntryName>)
  {
    m in S && forall x :: x in S ==> !Less(x, m)
  }

  /** Every non-empty finite set of names has a least member. */
  lemma {:induction false} LeastExists(S: set<EntryName>)
    requires S != {}
    ensures exists m :: IsLeast(m, S)
    decreases |S|
  {
    var y :| y in S;
    LessIrreflexive(y);
    if S == {y} {
      assert IsLeast(y, S);
    } else {
      var R := S - {y};
      LeastExists(R);
      var m: EntryName :| IsLeast(m, R);
      if Less(y, m) {
        forall x | x in S ensures !Less(x, y) {
          if x != y && Less(x, y) {
            LessTransitive(x, y, m);
          }
        }
        assert IsLeast(y, S);
      } else {
        assert IsLeast(m, S);
      }
    }
  }

  /** The least member is unique. */
  lemma LeastUnique(S: set<EntryName>, a: EntryName, b: EntryName)
    requires IsLeast(a, S) && IsLeast(b, S)
    ensures a == b
  {
    LessTotal(a, b);
  }

  ghost function Least(S: set<EntryName>): (m: EntryName)
    requires S != {}
    ensures IsLeast(m, S)
  {
    LeastExists(S);
    var m :| IsLeast(m, S);
    m
  }

  /** The suitable names strictly after the cursor: strcmp(name, cursor) > 0. */
  ghost function Above(S: set<EntryName>, cursor: seq<byte>): set<EntryName>
  {
    set x | x in S && Less(cursor, x)
  }

  /** The name getNextImage moves the cursor to: the least name after the
      cursor, or else the least name of all, or none when S is empty. */
  ghost function NextName(S: set<EntryName>, cursor: seq<byte>): (r: Option<EntryName>)
    ensures r.None? <==> S == {}
    ensures r.Some? ==> r.value in S
  {
    var A := Above(S, cursor);
    if A != {} then Some(Least(A))
    else if S != {} then Some(Least(S))
    else None
  }

  /** The file getNextImage returns: the first suitable entry in directory
      order that carries NextName. */
  ghost function NextImage(dir: seq<Entry>, expectedFileSize: nat, cursor: seq<byte>): File
  {
    match NextName(SuitableNames(dir, expectedFileSize), cursor)
    case None => NotOpen
    case Some(n) =>
      match FirstWhere(dir, (e: Entry) => SuitableEntry(e, expectedFileSize) && e.name == n)
      case None => NotOpen
      case Some(k) => Open(k, dir[k])
  }

  /** getNextImage returns an open file exactly when some entry is suitable;
      that file is suitable, sits at its directory index, and carries the
      name chosen by NextName. */
  lemma NextImageIsSuitable(dir: seq<Entry>, expectedFileSize: nat, cursor: seq<byte>)
    ensures var f := NextImage(dir, expectedFileSize, cursor);
            var S := SuitableNames(dir, expectedFileSize);
            && (f.NotOpen? <==> S == {})
            && (f.Open? ==> f.dirIndex < |dir| && f.entry == dir[f.dirIndex]
                            && IsSuitable(f, expectedFileSize)
                            && NextName(S, cursor) == Some(f.entry.name))
  {
    var S := SuitableNames(dir, expectedFileSize);
    if S != {} {
      var n := NextName(S, cursor).value;
      var k :| 0 <= k < |dir| && SuitableEntry(dir[k], expectedFileSize) && dir[k].name == n;
      var p := (e: Entry) => SuitableEntry(e, expectedFileSize) && e.name == n;
      assert p(dir[k]);
    }
  }

  /** An entry a running minimum of getNextImage may take: suitable and, when
      there is a bound, strictly after it under strcmp. */
  predicate Eligible(e: Entry, expectedFileSize: nat, bound: Option<seq<byte>>)
  {
    SuitableEntry(e, expectedFileSize) && (bound.Some? ==> Less(bound.value, e.name))
  }

  /** The state of a running minimum after it has seen dir[..i]: None when
      nothing eligible has been seen yet, otherwise the first position that
      carries the least eligible name seen so far. */
  predicate LeastSoFar(dir: seq<Entry>, expectedFileSize: nat, bound: Option<seq<byte>>, i: nat, best: Option<nat>)
  {
    && i <= |dir|
    && match best
       case None => forall k :: 0 <= k < i ==> !Eligible(dir[k], expectedFileSize, bound)
       case Some(j) =>
         && j < i && Eligible(dir[j], expectedFileSize, bound)
         && (forall k :: 0 <= k < i && Eligible(dir[k], expectedFileSize, bound) ==> !Less(dir[k].name, dir[j].name))
         && (forall k :: 0 <= k < j && Eligible(dir[k], expectedFileSize, bound) ==> dir[k].name != dir[j].name)
  }

  /** One step of a running minimum: position i replaces the best so far only
      when it is eligible and its name sorts strictly below. */
  function Improve(dir: seq<Entry>, expectedFileSize: nat, bound: Option<seq<byte>>, i: nat, best: Option<nat>): Option<nat>
    requires i < |dir| && (best.Some? ==> best.value < |dir|)
  {
    if Eligible(dir[i], expectedFileSize, bound) && (best.None? || Less(dir[i].name, dir[best.value].name))
    then Some(i) else best
  }

  /** The step keeps the running minimum: a strictly smaller name is taken,
      an equal or larger one (a later duplicate included) is not. */
  lemma LeastStep(dir: seq<Entry>, expectedFileSize: nat, bound: Option<seq<byte>>, i: nat, best: Option<nat>)
    requires i < |dir| && LeastSoFar(dir, expectedFileSize, bound, i, best)
    ensures LeastSoFar(dir, expectedFileSize, bound, i + 1, Improve(dir, expectedFileSize, bound, i, best))
  {
    var n := dir[i].name;
    LessIrreflexive(n);
    if Eligible(dir[i], expectedFileSize, bound) && best.Some? && Less(n, dir[best.value].name) {
      var m := dir[best.value].name;
      forall k | 0 <= k < i && Eligible(dir[k], expectedFileSize, bound)
        ensures !Less(dir[k].name, n) && dir[k].name != n
      {
        if Less(dir[k].name, n) {
          LessTransitive(dir[k].name, n, m);
        }
      }
    }
  }

  /** The running minimum above the cursor ended at k: getNextImage's answer
      is the entry at k. */
  lemma ScanFindsSuccessor(dir: seq<Entry>, expectedFileSize: nat, cursor: seq<byte>, k: nat)
    requires LeastSoFar(dir, expectedFileSize, Some(cursor), |dir|, Some(k))
    ensures NextImage(dir, expectedFileSize, cursor) == Open(k, dir[k])
  {
    var S := SuitableNames(dir, expectedFileSize);
    var A := Above(S, cursor);
    var n := dir[k].name;
    assert n in A;
    forall x | x in A ensures !Less(x, n) {
      var j :| 0 <= j < |dir| && SuitableEntry(dir[j], expectedFileSize) && dir[j].name == x;
      assert Eligible(dir[j], expectedFileSize, Some(cursor));
    }
    assert IsLeast(n, A);
    LeastUnique(A, n, Least(A));
    var p := (e: Entry) => SuitableEntry(e, expectedFileSize) && e.name == n;
    assert p(dir[k]);
    forall j | 0 <= j < k ensures !p(dir[j]) {
      if p(dir[j]) {
        assert Eligible(dir[j], expectedFileSize, Some(cursor));
      }
    }
  }

  /** Nothing suitable after the cursor, and the running minimum over all
      suitable entries ended at k: getNextImage wraps around to k. */
  lemma ScanWrapsAround(dir: seq<Entry>, expectedFileSize: nat, cursor: seq<byte>, k: nat)
    requires LeastSoFar(dir, expectedFileSize, Some(cursor), |dir|, None)
    requires LeastSoFar(dir, expectedFileSize, None, |dir|, Some(k))
    ensures NextImage(dir, expectedFileSize, cursor) == Open(k, dir[k])
  {
    var S := SuitableNames(dir, expectedFileSize);
    var n := dir[k].name;
    forall x | x in S ensures !Less(cursor, x) && !Less(x, n) {
      var j :| 0 <= j < |dir| && SuitableEntry(dir[j], expectedFileSize) && dir[j].name == x;
      assert !Eligible(dir[j], expectedFileSize, Some(cursor));
      assert Eligible(dir[j], expectedFileSize, None);
    }
    assert Above(S, cursor) == {};
    assert IsLeast(n, S);
    LeastUnique(S, n, Least(S));
    var p := (e: Entry) => SuitableEntry(e, expectedFileSize) && e.name == n;
    assert p(dir[k]);
  }

  /** The running minimum over all suitable entries found none: nothing is
      suitable and getNextImage returns a file that is not open. */
  lemma ScanFindsNothing(dir: seq<Entry>, expectedFileSize: nat, cursor: seq<byte>)
    requires LeastSoFar(dir, expectedFileSize, None, |dir|, None)
    ensures SuitableNames(dir, expectedFileSize) == {}
    ensures NextImage(dir, expectedFileSize, cursor) == NotOpen
  {
    forall j | 0 <= j < |dir| ensures !SuitableEntry(dir[j], expectedFileSize) {
      assert !Eligible(dir[j], expectedFileSize, None);
    }
  }

  /** The choice depends on the entries only as a collection: listing the same
      entries in another directory order selects the same name. */
  lemma SelectionIgnoresDirectoryOrder(dir1: seq<Entry>, dir2: seq<Entry>, expectedFileSize: nat, cursor: seq<byte>)
    requires multiset(dir1) == multiset(dir2)
    ensures SuitableNames(dir1, expectedFileSize) == SuitableNames(dir2, expectedFileSize)
    ensures NextName(SuitableNames(dir1, expectedFileSize), cursor) == NextName(SuitableNames(dir2, expectedFileSize), cursor)
  {
    SuitableNamesFollowEntries(dir1, dir2, expectedFileSize);
    SuitableNamesFollowEntries(dir2, dir1, expectedFileSize);
  }

  lemma SuitableNamesFollowEntries(dir1: seq<Entry>, dir2: seq<Entry>, expectedFileSize: nat)
    requires multiset(dir1) <= multiset(dir2)
    ensures SuitableNames(dir1, expectedFileSize) <= SuitableNames(dir2, expectedFileSize)
  {
    forall x | x in SuitableNames(dir1, expectedFileSize)
      ensures x in SuitableNames(dir2, expectedFileSize)
    {
      var k :| 0 <= k < |dir1| && SuitableEntry(dir1[k], expectedFileSize) && dir1[k].name == x;
      assert dir1[k] in multiset(dir1);
      var k2 :| 0 <= k2 < |dir2| && dir2[k2] == dir1[k];
    }
  }

  /** Self-healing: deleting the file under the cursor does not change which
      name comes next, as long as some suitable file is left. */
  lemma DeletedCursorStillAdvances(S: set<EntryName>, cursor: EntryName)
    requires cursor in S && S - {cursor} != {}
    ensures NextName(S - {cursor}, cursor) == NextName(S, cursor)
  {
    var S' := S - {cursor};
    LessIrreflexive(cursor);
    assert Above(S', cursor) == Above(S, cursor);
    if Above(S, cursor) == {} {
      var m := Least(S);
      var y :| y in S';
      LessTotal(y, cursor);
      assert y !in Above(S, cursor);
      assert m != cursor;
      assert IsLeast(m, S');
      LeastUnique(S', m, Least(S'));
    }
  }

  /** Strictly ascending under strcmp. */
  predicate Ascending(s: seq<EntryName>)
  {
    forall i, j :: 0 <= i < j < |s| ==> Less(s[i], s[j])
  }

  /** A least name followed by an ascending list of larger names is ascending. */
  lemma AscendingCons(m: EntryName, rest: seq<EntryName>)
    requires Ascending(rest)
    requires forall i :: 0 <= i < |rest| ==> Less(m, rest[i])
    ensures Ascending([m] + rest)
  {
    var s := [m] + rest;
    forall i, j | 0 <= i < j < |s| ensures Less(s[i], s[j]) {
      if i > 0 {
        assert s[i] == rest[i - 1] && s[j] == rest[j - 1];
      }
    }
  }

  /** The suitable names in ascending strcmp order: the order of the rotation. */
  ghost function Sorted(S: set<EntryName>): (s: seq<EntryName>)
    ensures |s| == |S| && Ascending(s)
    ensures forall x :: x in S <==> x in s
  {
    SortedExists(S);
    var s :| |s| == |S| && Ascending(s) && (forall x :: x in S <==> x in s);
    s
  }

  /** Every finite set of names can be listed in ascending order: the least
      name first, then the rest. */
  lemma {:induction false} SortedExists(S: set<EntryName>)
    ensures exists s: seq<EntryName> :: |s| == |S| && Ascending(s) && (forall x :: x in S <==> x in s)
    decreases |S|
  {
    if S == {} {
      assert Ascending([]);
    } else {
      var m := Least(S);
      SortedExists(S - {m});
      var rest: seq<EntryName> :| |rest| == |S - {m}| && Ascending(rest) && (forall x :: x in S - {m} <==> x in rest);
      assert forall i :: 0 <= i < |rest| ==> rest[i] in S - {m};
      LeastBelowOthers(S, m, rest);
      AscendingCons(m, rest);
      var s := [m] + rest;
      assert forall x :: x in S <==> x in s;
    }
  }

  lemma LeastBelowOthers(S: set<EntryName>, m: EntryName, rest: seq<EntryName>)
    requires IsLeast(m, S)
    requires forall i :: 0 <= i < |rest| ==> rest[i] in S - {m}
    ensures forall i :: 0 <= i < |rest| ==> Less(m, rest[i])
  {
    forall i | 0 <= i < |rest| ensures Less(m, rest[i]) {
      LessTotal(m, rest[i]);
    }
  }

  /** Everything in an ascending list is above the cursor once its head is. */
  lemma AboveFromHead(s: seq<EntryName>, cursor: seq<byte>)
    requires Ascending(s) && |s| > 0 && Less(cursor, s[0])
    ensures forall i :: 0 <= i < |s| ==> Less(cursor, s[i])
  {
    forall i | 0 < i < |s| ensures Less(cursor, s[i]) {
      LessTransitive(cursor, s[0], s[i]);
    }
  }

  /** How many names of an ascending list are not after the cursor: they form
      a prefix, and every later name is after the cursor. */
  function Position(s: seq<EntryName>, cursor: seq<byte>): (j: nat)
    requires Ascending(s)
    ensures j <= |s|
    ensures forall i :: 0 <= i < j ==> !Less(cursor, s[i])
    ensures forall i :: j <= i < |s| ==> Less(cursor, s[i])
    decreases |s|
  {
    if s == [] then 0
    else if Less(cursor, s[0]) then AboveFromHead(s, cursor); 0
    else
      assert forall i :: 1 <= i < |s| ==> s[1..][i - 1] == s[i];
      1 + Position(s[1..], cursor)
  }

  /** Each name's position in the ascending list is one past its index. */
  lemma PositionOfMember(s: seq<EntryName>, i: nat)
    requires Ascending(s) && i < |s|
    ensures Position(s, s[i]) == i + 1
  {
    LessIrreflexive(s[i]);
    if i + 1 < |s| {
      assert Less(s[i], s[i + 1]);
    }
  }

  /** Where the next call resumes in the ascending list: after every name not
      above the cursor, or at the start when that is past the end. */
  function Start(s: seq<EntryName>, cursor: seq<byte>): (j: nat)
    requires Ascending(s) && |s| > 0
    ensures j < |s|
  {
    var p := Position(s, cursor);
    if p < |s| then p else 0
  }

  /** NextName in terms of the ascending list: the name at Start. */
  lemma NextNameInSorted(S: set<EntryName>, cursor: seq<byte>)
    requires S != {}
    ensures NextName(S, cursor) == Some(Sorted(S)[Start(Sorted(S), cursor)])
  {
    var s := Sorted(S);
    var j := Position(s, cursor);
    var A := Above(S, cursor);
    if j < |s| {
      assert s[j] in A;
      forall x | x in A ensures !Less(x, s[j]) {
        var i :| 0 <= i < |s| && s[i] == x;
        LessIrreflexive(x);
        LessAsymmetric(s[j], x);
      }
      LeastUnique(A, s[j], Least(A));
    } else {
      assert A == {};
      forall x | x in S ensures !Less(x, s[0]) {
        var i :| 0 <= i < |s| && s[i] == x;
        LessIrreflexive(x);
        LessAsymmetric(s[0], x);
      }
      LeastUnique(S, s[0], Least(S));
    }
  }

  /** The names returned by k consecutive getNextImage calls from a cursor,
      each call starting from the cursor the previous one left. */
  ghost function Visits(S: set<EntryName>, cursor: seq<byte>, k: nat): seq<EntryName>
    decreases k
  {
    if k == 0 then []
    else
      match NextName(S, cursor)
      case None => []
      case Some(r) => [r] + Visits(S, r, k - 1)
  }

  /** The cursor left after k consecutive calls. */
  ghost function After(S: set<EntryName>, cursor: seq<byte>, k: nat): seq<byte>
    decreases k
  {
    if k == 0 then cursor
    else
      match NextName(S, cursor)
      case None => []
      case Some(r) => After(S, r, k - 1)
  }

  /** One getNextImage call is the first step of Visits: the file it opens
      carries the first visited name, and it opens nothing exactly when there
      is nothing to visit. */
  lemma NextImageIsFirstVisit(dir: seq<Entry>, expectedFileSize: nat, cursor: seq<byte>)
    ensures var f := NextImage(dir, expectedFileSize, cursor);
            var v := Visits(SuitableNames(dir, expectedFileSize), cursor, 1);
            && (f.NotOpen? <==> v == [])
            && (f.Open? ==> v == [f.entry.name] && After(SuitableNames(dir, expectedFileSize), cursor, 1) == f.entry.name)
  {
    NextImageIsSuitable(dir, expectedFileSize, cursor);
  }

  /** Up to |S| calls walk the ascending list from Start, wrapping once. */
  lemma {:induction false} VisitsWalkSorted(S: set<EntryName>, cursor: seq<byte>, k: nat)
    requires S != {} && k <= |S|
    ensures var s := Sorted(S); var j := Start(s, cursor);
            && |Visits(S, cursor, k)| == k
            && forall i :: 0 <= i < k ==>
                 Visits(S, cursor, k)[i] == s[if j + i < |s| then j + i else j + i - |s|]
    decreases k
  {
    if k > 0 {
      var s := Sorted(S);
      var n := |s|;
      var j := Start(s, cursor);
      NextNameInSorted(S, cursor);
      var r := s[j];
      var v := Visits(S, cursor, k);
      var rest := Visits(S, r, k - 1);
      assert v == [r] + rest;
      VisitsWalkSorted(S, r, k - 1);
      PositionOfMember(s, j);
      WalkStep(s, j, Start(s, r), rest);
    }
  }

  /** One step of the walk: prepending the name at j to a walk that starts at
      j's successor yields a walk that starts at j. */
  lemma WalkStep(s: seq<EntryName>, j: nat, j': nat, rest: seq<EntryName>)
    requires j < |s| && |rest| < |s|
    requires j' == if j + 1 < |s| then j + 1 else 0
    requires forall i :: 0 <= i < |rest| ==> rest[i] == s[if j' + i < |s| then j' + i else j' + i - |s|]
    ensures var v := [s[j]] + rest;
            forall i :: 0 <= i < |v| ==> v[i] == s[if j + i < |s| then j + i else j + i - |s|]
  {
    var v := [s[j]] + rest;
    forall i | 0 < i < |v| ensures v[i] == s[if j + i < |s| then j + i else j + i - |s|] {
      assert v[i] == rest[i - 1];
    }
  }

  /** n calls on n suitable names, from any cursor (even one naming a file
      that is gone), return every name exactly once: the ascending list
      rotated to start after the cursor. */
  lemma RotationVisitsEachOnce(S: set<EntryName>, cursor: seq<byte>)
    requires S != {}
    ensures var s := Sorted(S); var j := Start(s, cursor);
            Visits(S, cursor, |S|) == s[j..] + s[..j]
    ensures forall x :: x in S <==> x in Visits(S, cursor, |S|)
    ensures forall a, b :: 0 <= a < b < |S| ==> Visits(S, cursor, |S|)[a] != Visits(S, cursor, |S|)[b]
  {
    var s := Sorted(S);
    var j := Start(s, cursor);
    VisitsWalkSorted(S, cursor, |S|);
    WalkIsRotation(s, j, Visits(S, cursor, |S|));
    RotationOfAscending(s, j);
  }

  /** A full walk from j is the list rotated to start at j. */
  lemma WalkIsRotation(s: seq<EntryName>, j: nat, v: seq<EntryName>)
    requires j < |s| && |v| == |s|
    requires forall i :: 0 <= i < |v| ==> v[i] == s[if j + i < |s| then j + i else j + i - |s|]
    ensures v == s[j..] + s[..j]
  {
    var n := |s|;
    var w := s[j..] + s[..j];
    forall i | 0 <= i < n ensures v[i] == w[i] {
      if i < n - j {
        assert w[i] == s[j + i];
      } else {
        assert w[i] == s[..j][i - (n - j)];
      }
    }
  }

  /** A rotation of an ascending list holds the same names, each once. */
  lemma RotationOfAscending(s: seq<EntryName>, j: nat)
    requires Ascending(s) && j <= |s|
    ensures var w := s[j..] + s[..j];
            && (forall x :: x in s <==> x in w)
            && (forall a, b :: 0 <= a < b < |w| ==> w[a] != w[b])
  {
    var n := |s|;
    var w := s[j..] + s[..j];
    forall x | x in s ensures x in w {
      var i :| 0 <= i < n && s[i] == x;
      if i < j { assert w[n - j + i] == x; } else { assert w[i - j] == x; }
    }
    forall a, b | 0 <= a < b < n ensures w[a] != w[b] {
      var ia := if a < n - j then j + a else a - (n - j);
      var ib := if b < n - j then j + b else b - (n - j);
      assert w[a] == s[ia] && w[b] == s[ib];
      LessIrreflexive(s[ia]);
      if ia < ib { assert Less(s[ia], s[ib]); } else { assert Less(s[ib], s[ia]); }
    }
  }

  /** From the empty cursor (a fresh start), n calls return the names in
      strictly ascending strcmp order. */
  lemma FreshStartVisitsAscending(S: set<EntryName>)
    requires S != {}
    ensures Visits(S, [], |S|) == Sorted(S)
    ensures Ascending(Visits(S, [], |S|))
  {
    var s := Sorted(S);
    EmptyIsLeast(s[0]);
    RotationVisitsEachOnce(S, []);
    assert s[0..] + s[..0] == s;
  }

  /** Visits and After split at any point. */
  lemma {:induction false} VisitsSplit(S: set<EntryName>, cursor: seq<byte>, a: nat, b: nat)
    requires S != {}
    ensures Visits(S, cursor, a + b) == Visits(S, cursor, a) + Visits(S, After(S, cursor, a), b)
    decreases a
  {
    if a > 0 {
      var r := NextName(S, cursor).value;
      VisitsSplit(S, r, a - 1, b);
      assert a + b - 1 == (a - 1) + b;
    }
  }

  /** After k >= 1 calls the cursor is the last name visited. */
  lemma {:induction false} AfterIsLastVisit(S: set<EntryName>, cursor: seq<byte>, k: nat)
    requires S != {} && k > 0
    ensures |Visits(S, cursor, k)| == k
    ensures After(S, cursor, k) == Visits(S, cursor, k)[k - 1]
    decreases k
  {
    var r := NextName(S, cursor).value;
    if k > 1 {
      AfterIsLastVisit(S, r, k - 1);
    }
  }

  /** Visits depend on the cursor only through the next name it selects. */
  lemma VisitsFromSameNext(S: set<EntryName>, c1: seq<byte>, c2: seq<byte>, k: nat)
    requires NextName(S, c1) == NextName(S, c2)
    ensures Visits(S, c1, k) == Visits(S, c2, k)
  {
  }

  /** The cycle repeats: after n calls on n names the next calls return the
      same names again, in the same order. */
  lemma RotationRepeats(S: set<EntryName>, cursor: seq<byte>, k: nat)
    requires S != {}
    ensures Visits(S, cursor, |S| + k) == Visits(S, cursor, |S|) + Visits(S, cursor, k)
  {
    var s := Sorted(S);
    var n := |S|;
    var j := Start(s, cursor);
    VisitsSplit(S, cursor, n, k);
    AfterIsLastVisit(S, cursor, n);
    VisitsWalkSorted(S, cursor, n);
    var last := After(S, cursor, n);
    var li := if j + n - 1 < n then j + n - 1 else j - 1;
    assert last == s[li];
    PositionOfMember(s, li);
    NextNameInSorted(S, last);
    NextNameInSorted(S, cursor);
    VisitsFromSameNext(S, last, cursor, k);
  }
}
