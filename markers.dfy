/**
 * Check-in markers: the substrings `/\[\d{2}:\d{2}\]/` finds in a note.
 * `Matches` is what `content.match(re)` with the global flag returns, as
 * start positions; `LastIndexOf` is `String.prototype.lastIndexOf`.
 */
module Markers {
  import opened Strings

  /** Every marker is seven characters long: `[`, two digits, `:`, two digits, `]`. */
  const MarkerLength: nat := 7

  predicate MarkerAt(s: string, i: int) {
    && 0 <= i && i + MarkerLength <= |s|
    && s[i] == '[' && IsDigit(s[i + 1]) && IsDigit(s[i + 2]) && s[i + 3] == ':'
    && IsDigit(s[i + 4]) && IsDigit(s[i + 5]) && s[i + 6] == ']'
  }

  /** The global-flag scan: try each position from `from`; after a hit resume past it. */
  function MatchesFrom(s: string, from: nat): seq<nat>
    decreases |s| - from
  {
    if from + MarkerLength > |s| then []
    else if MarkerAt(s, from) then [from] + MatchesFrom(s, from + MarkerLength)
    else MatchesFrom(s, from + 1)
  }

  function Matches(s: string): seq<nat> {
    MatchesFrom(s, 0)
  }

  /** The text of the marker at `i`. */
  function MarkerText(s: string, i: nat): string
    requires i + MarkerLength <= |s|
  {
    s[i..i + MarkerLength]
  }

  /** The rightmost occurrence of `pat` at or below `i`, or -1. */
  function LastIndexAtOrBelow(s: string, pat: string, i: int): (r: int)
    ensures r == -1 || 0 <= r <= i
    ensures r >= 0 ==> OccursAt(s, pat, r)
    ensures forall j :: r < j <= i ==> !OccursAt(s, pat, j)
    decreases i + 1
  {
    if i < 0 then -1
    else if OccursAt(s, pat, i) then i
    else LastIndexAtOrBelow(s, pat, i - 1)
  }

  /** `s.lastIndexOf(pat)`. */
  function LastIndexOf(s: string, pat: string): int {
    LastIndexAtOrBelow(s, pat, |s| - |pat|)
  }

  // ------------------------------------------------------------ the scan

  /** Markers never overlap: inside one, only its first character is `[`. */
  lemma MarkersDisjoint(s: string, i: int, j: int)
    requires MarkerAt(s, i) && i < j < i + MarkerLength
    ensures !MarkerAt(s, j)
  {
  }

  /** The scan finds every marker at or after `from`, and nothing else, in increasing order. */
  lemma {:induction false} MatchesFromExact(s: string, from: nat)
    ensures forall k :: 0 <= k < |MatchesFrom(s, from)| ==>
      from <= MatchesFrom(s, from)[k] && MarkerAt(s, MatchesFrom(s, from)[k])
    ensures forall i :: from <= i && MarkerAt(s, i) ==> i in MatchesFrom(s, from)
    ensures forall k, l :: 0 <= k < l < |MatchesFrom(s, from)| ==>
      MatchesFrom(s, from)[k] < MatchesFrom(s, from)[l]
    decreases |s| - from
  {
    if from + MarkerLength > |s| {
    } else if MarkerAt(s, from) {
      MatchesFromExact(s, from + MarkerLength);
      forall i | from <= i && MarkerAt(s, i) ensures i in MatchesFrom(s, from) {
        if from < i < from + MarkerLength {
          MarkersDisjoint(s, from, i);
        }
      }
    } else {
      MatchesFromExact(s, from + 1);
    }
  }

  /** The scan depends only on the length and on where markers stand. */
  lemma {:induction false} MatchesFromSameMarkers(s: string, t: string, from: nat)
    requires |s| == |t|
    requires forall i :: MarkerAt(s, i) <==> MarkerAt(t, i)
    ensures MatchesFrom(s, from) == MatchesFrom(t, from)
    decreases |s| - from
  {
    if from + MarkerLength > |s| {
    } else if MarkerAt(s, from) {
      MatchesFromSameMarkers(s, t, from + MarkerLength);
    } else {
      MatchesFromSameMarkers(s, t, from + 1);
    }
  }

  /** `lastIndexOf` of the last match's text finds that very match. */
  lemma LastIndexOfLastMatch(s: string)
    requires |Matches(s)| > 0
    ensures var p := Matches(s)[|Matches(s)| - 1];
      p + MarkerLength <= |s| && LastIndexOf(s, MarkerText(s, p)) == p
  {
    var ms := Matches(s);
    MatchesFromExact(s, 0);
    var p := ms[|ms| - 1];
    var text := MarkerText(s, p);
    assert OccursAt(s, text, p);
    var r := LastIndexOf(s, text);
    if r != p {
      assert r > p;
      assert s[r..r + MarkerLength] == text;
      assert MarkerAt(s, r) by {
        forall j | r <= j < r + MarkerLength ensures s[j] == s[j - r + p] {
          assert s[r..r + MarkerLength][j - r] == text[j - r];
        }
      }
      assert false;
    }
  }

  // ------------------------------------------------- markers and editing

  /** Appending after a line break keeps the old markers and shifts the new ones. */
  lemma {:induction false} MatchesAfterBreak(a: string, b: string, from: nat)
    requires a == [] || a[|a| - 1] == '\n'
    requires from <= |a|
    ensures MatchesFrom(a + b, from) == MatchesFrom(a, from) + Shift(Matches(b), |a|)
    decreases |a| - from
  {
    if from == |a| {
      assert MatchesFrom(a, from) == [];
      MatchesShift(a, b, 0);
    } else {
      MarkerBeforeBreak(a, b, from);
      if MarkerAt(a, from) {
        MatchesAfterBreak(a, b, from + MarkerLength);
        ScanHit(a, a + b, from, Shift(Matches(b), |a|));
      } else {
        MatchesAfterBreak(a, b, from + 1);
        ScanMiss(a, a + b, from, Shift(Matches(b), |a|));
      }
    }
  }

  /** A marker at `from` in both strings carries the scans' agreement back over it. */
  lemma ScanHit(a: string, c: string, from: nat, tail: seq<nat>)
    requires MarkerAt(a, from) && MarkerAt(c, from)
    requires MatchesFrom(c, from + MarkerLength) == MatchesFrom(a, from + MarkerLength) + tail
    ensures MatchesFrom(c, from) == MatchesFrom(a, from) + tail
  {
    assert [from] + (MatchesFrom(a, from + MarkerLength) + tail) == ([from] + MatchesFrom(a, from + MarkerLength)) + tail;
  }

  /** No marker at `from` in either string: the scans' agreement carries back one position. */
  lemma ScanMiss(a: string, c: string, from: nat, tail: seq<nat>)
    requires from < |a| && !MarkerAt(a, from) && !MarkerAt(c, from)
    requires MatchesFrom(c, from + 1) == MatchesFrom(a, from + 1) + tail
    ensures MatchesFrom(c, from) == MatchesFrom(a, from) + tail
  {
    assert MatchesFrom(a, from) == MatchesFrom(a, from + 1);
    if from + MarkerLength > |c| {
      assert MatchesFrom(c, from + 1) == [];
    }
  }

  /** Left of a line break, `a + b` has a marker exactly where `a` has one. */
  lemma MarkerBeforeBreak(a: string, b: string, from: nat)
    requires a != [] && a[|a| - 1] == '\n' && from < |a|
    ensures MarkerAt(a + b, from) == MarkerAt(a, from)
  {
    if from + MarkerLength <= |a| {
      assert (a + b)[from..from + MarkerLength] == a[from..from + MarkerLength];
    } else {
      assert (a + b)[|a| - 1] == '\n';
    }
  }

  function Shift(ps: seq<nat>, n: nat): (r: seq<nat>)
    ensures |r| == |ps|
    ensures forall k :: 0 <= k < |ps| ==> r[k] == ps[k] + n
  {
    if ps == [] then [] else [ps[0] + n] + Shift(ps[1..], n)
  }

  /** The scan of `a + b` from inside `b` is the scan of `b`, shifted. */
  lemma {:induction false} MatchesShift(a: string, b: string, from: nat)
    requires from <= |b|
    ensures MatchesFrom(a + b, |a| + from) == Shift(MatchesFrom(b, from), |a|)
    decreases |b| - from
  {
    if from + MarkerLength <= |b| {
      MatchesShiftStep(a, b, from);
      if MarkerAt(b, from) {
        MatchesShift(a, b, from + MarkerLength);
      } else {
        MatchesShift(a, b, from + 1);
      }
    }
  }

  /** One step of the scan over `a + b` inside `b` mirrors one step over `b`. */
  lemma MatchesShiftStep(a: string, b: string, from: nat)
    requires from + MarkerLength <= |b|
    ensures MarkerAt(b, from) ==>
      MatchesFrom(a + b, |a| + from) == [|a| + from] + MatchesFrom(a + b, |a| + (from + MarkerLength))
      && Shift(MatchesFrom(b, from), |a|) == [from + |a|] + Shift(MatchesFrom(b, from + MarkerLength), |a|)
    ensures !MarkerAt(b, from) ==>
      MatchesFrom(a + b, |a| + from) == MatchesFrom(a + b, |a| + (from + 1))
      && MatchesFrom(b, from) == MatchesFrom(b, from + 1)
  {
    MarkerAtShift(a, b, from);
    if MarkerAt(b, from) {
      ShiftCons(from, MatchesFrom(b, from + MarkerLength), |a|);
    }
  }

  lemma MarkerAtShift(a: string, b: string, i: nat)
    ensures MarkerAt(a + b, |a| + i) == MarkerAt(b, i)
  {
    if i + MarkerLength <= |b| {
      assert forall j :: |a| + i <= j < |a| + i + MarkerLength ==> (a + b)[j] == b[j - |a|];
    }
  }

  lemma ShiftCons(x: nat, ps: seq<nat>, n: nat)
    ensures Shift([x] + ps, n) == [x + n] + Shift(ps, n)
  {
    assert ([x] + ps)[1..] == ps;
  }

  /** A trailing newline neither adds nor removes a marker. */
  lemma {:induction false} MatchesNewlineAppended(s: string, from: nat)
    ensures MatchesFrom(s + "\n", from) == MatchesFrom(s, from)
    decreases |s| + 1 - from
  {
    var t := s + "\n";
    if from + MarkerLength > |t| {
    } else if from + MarkerLength == |t| {
      assert t[from + 6] == '\n';
      assert !MarkerAt(t, from);
      MatchesNewlineAppended(s, from + 1);
    } else {
      assert MarkerAt(t, from) == MarkerAt(s, from) by {
        assert forall j :: from <= j < from + MarkerLength ==> t[j] == s[j];
      }
      if MarkerAt(s, from) {
        MatchesNewlineAppended(s, from + MarkerLength);
      } else {
        MatchesNewlineAppended(s, from + 1);
      }
    }
  }

  /** Overwriting a marker with another marker leaves every marker position as it was. */
  lemma ReplaceMarkerKeepsMarkers(s: string, p: nat, m: string)
    requires MarkerAt(s, p) && |m| == MarkerLength && MarkerAt(m, 0)
    ensures var t := s[..p] + m + s[p + MarkerLength..];
      |t| == |s| && Matches(t) == Matches(s)
  {
    var t := s[..p] + m + s[p + MarkerLength..];
    forall i ensures MarkerAt(s, i) <==> MarkerAt(t, i) {
      if 0 <= i && i + MarkerLength <= |s| {
        if i + MarkerLength <= p || p + MarkerLength <= i {
          assert forall j :: i <= j < i + MarkerLength ==> t[j] == s[j];
        } else if i < p {
          assert s[p] == '[' && t[p] == '[';
        } else if p < i {
          assert t[i] == m[i - p];
        }
      }
    }
    MatchesFromSameMarkers(s, t, 0);
  }
}
