/**
 * The range matcher (extract_text_ranges): which line indices open an email block ("From:"
 * headers), which close one (lines mentioning "regards"), and how the two are paired by a
 * forward-only cursor over the closing lines.
 */
module RangeMatcher {
  import opened Wrappers
  import opened PyStr

  /** The regex `^[\s]*From:` searched in a line: optional leading whitespace, then "From:". */
  predicate IsStart(line: string) {
    IsPrefix("From:", StripLeft(line))
  }

  /** A closing line: it contains "regards" or "Regards". */
  predicate IsEnd(line: string) {
    Contains(line, "regards") || Contains(line, "Regards")
  }

  predicate StrictlyIncreasing(xs: seq<nat>) {
    forall i, j :: 0 <= i < j < |xs| ==> xs[i] < xs[j]
  }

  /** The indices of the lines satisfying `p`, in ascending order (a pandas boolean-mask `.index`). */
  function Where(lines: seq<string>, p: string -> bool): (r: seq<nat>)
    ensures StrictlyIncreasing(r)
    ensures forall i: nat :: i in r <==> i < |lines| && p(lines[i])
  {
    if lines == [] then []
    else
      var n := |lines| - 1;
      var front := Where(lines[..n], p);
      WhereStep(lines, p, front);
      front + (if p(lines[n]) then [n] else [])
  }

  lemma WhereStep(lines: seq<string>, p: string -> bool, front: seq<nat>)
    requires lines != []
    requires StrictlyIncreasing(front)
    requires forall i: nat :: i in front <==> i < |lines| - 1 && p(lines[..|lines| - 1][i])
    ensures var r := front + (if p(lines[|lines| - 1]) then [|lines| - 1] else []);
      StrictlyIncreasing(r) && forall i: nat :: i in r <==> i < |lines| && p(lines[i])
  {
    var n := |lines| - 1;
    var r := front + (if p(lines[n]) then [n] else []);
    assert forall i :: i in front ==> i < n;
    forall a, b | 0 <= a < b < |r| ensures r[a] < r[b] {
      if b == |front| {
        assert r[a] == front[a];
        assert front[a] in front;
      }
    }
    forall i: nat ensures i in r <==> i < |lines| && p(lines[i]) {
      if i < n {
        assert lines[..n][i] == lines[i];
      }
    }
  }

  function StartIndices(lines: seq<string>): seq<nat> {
    Where(lines, IsStart)
  }

  function EndIndices(lines: seq<string>): seq<nat> {
    Where(lines, IsEnd)
  }

  /** The first element of `ends` above `s`; for ascending `ends`, the least such element. */
  function FirstAbove(ends: seq<nat>, s: nat): (r: Option<nat>)
    ensures r.Some? ==> r.value in ends && s < r.value
    ensures r.None? ==> forall e :: e in ends ==> e <= s
    ensures r.Some? && StrictlyIncreasing(ends) ==> forall e :: e in ends && s < e ==> r.value <= e
  {
    if ends == [] then None
    else if ends[0] > s then Some(ends[0])
    else
      var r := FirstAbove(ends[1..], s);
      assert forall e :: e in ends ==> e == ends[0] || e in ends[1..];
      r
  }

  /** What one start contributes: a pair with the first closing index above it, or nothing. */
  function PairFor(s: nat, ends: seq<nat>): seq<(nat, nat)> {
    match FirstAbove(ends, s)
    case None => []
    case Some(e) => [(s, e)]
  }

  /** Reference definition of the pairing: every start, in order, with the first closing index
      above it; a start with none above it contributes nothing. No closing index is consumed. */
  function Pairing(starts: seq<nat>, ends: seq<nat>): seq<(nat, nat)> {
    if starts == [] then []
    else Pairing(starts[..|starts| - 1], ends) + PairFor(starts[|starts| - 1], ends)
  }

  /** The pairs extract_text_ranges returns for `lines`. */
  function TextRanges(lines: seq<string>): seq<(nat, nat)> {
    Pairing(StartIndices(lines), EndIndices(lines))
  }

  /** extract_text_ranges: the start and closing indices of the lines, paired by the cursor.
      Every pair delimits a block (TextRangesAreBlocks). */
  method ExtractTextRanges(lines: seq<string>) returns (result: seq<(nat, nat)>)
    ensures result == TextRanges(lines)
  {
    result := PairByCursor(StartIndices(lines), EndIndices(lines));
  }

  /** The pairing loop of extract_text_ranges: a cursor over the closing indices only ever moves
      forward; each start not yet used takes the closing index under the cursor once the cursor
      has passed every closing index at or below it. The cursor is not moved past the index it
      pairs with, so the next start may take the same one. */
  method PairByCursor(starts: seq<nat>, ends: seq<nat>) returns (result: seq<(nat, nat)>)
    requires StrictlyIncreasing(starts) && StrictlyIncreasing(ends)
    ensures result == Pairing(starts, ends)
  {
    result := [];
    var used: set<nat> := {};
    var cursor := 0;  // ends[cursor] is the current end; cursor == |ends| stands for None
    var k := 0;
    ghost var bound: int := -1;  // the previous start, below every start still to come
    while k < |starts|
      invariant 0 <= k <= |starts| && 0 <= cursor <= |ends|
      invariant result == Pairing(starts[..k], ends)
      invariant k < |starts| ==> bound < starts[k]
      invariant 0 < cursor ==> ends[cursor - 1] <= bound
      invariant forall u :: u in used ==> u <= bound
    {
      var start := starts[k];
      if start !in used {
        while cursor < |ends| && ends[cursor] <= start
          invariant cursor <= |ends|
          invariant 0 < cursor ==> ends[cursor - 1] <= start
        {
          cursor := cursor + 1;
        }
        PairingAtCursor(starts, ends, k, cursor);
        if cursor < |ends| && ends[cursor] > start {
          result := result + [(start, ends[cursor])];
          used := used + {start};
        }
      }
      assert result == Pairing(starts[..k + 1], ends);
      bound := start;
      k := k + 1;
    }
    assert starts[..k] == starts;
  }

  /** One step of the pairing: start `k` takes the closing index under the cursor, if any. */
  lemma PairingAtCursor(starts: seq<nat>, ends: seq<nat>, k: nat, cursor: nat)
    requires k < |starts| && StrictlyIncreasing(ends) && cursor <= |ends|
    requires 0 < cursor ==> ends[cursor - 1] <= starts[k]
    requires cursor < |ends| ==> ends[cursor] > starts[k]
    ensures Pairing(starts[..k + 1], ends) ==
      Pairing(starts[..k], ends) + if cursor < |ends| then [(starts[k], ends[cursor])] else []
  {
    var front := starts[..k + 1];
    assert front[..k] == starts[..k];
    assert Pairing(front, ends) == Pairing(starts[..k], ends) + PairFor(starts[k], ends);
    FirstAboveAtCursor(ends, starts[k], cursor);
  }

  /** When the cursor has passed exactly the closing indices at or below `s`, it points at
      the first one above `s`. */
  lemma FirstAboveAtCursor(ends: seq<nat>, s: nat, cursor: nat)
    requires StrictlyIncreasing(ends) && cursor <= |ends|
    requires 0 < cursor ==> ends[cursor - 1] <= s
    requires cursor < |ends| ==> ends[cursor] > s
    ensures FirstAbove(ends, s) == if cursor < |ends| then Some(ends[cursor]) else None
    ensures PairFor(s, ends) == if cursor < |ends| then [(s, ends[cursor])] else []
  {
    assert forall t :: 0 <= t < cursor ==> ends[t] <= ends[cursor - 1];
    var r := FirstAbove(ends, s);
    if cursor < |ends| {
      assert ends[cursor] in ends;
      var j :| 0 <= j < |ends| && ends[j] == r.value;
      assert cursor <= j;
      assert ends[cursor] <= ends[j];
    } else {
      assert forall e :: e in ends ==> e <= s;
    }
  }

  /** The block a pair delimits: its first line is a "From:" header, its last line is the
      nearest closing line after it. */
  predicate IsBlock(lines: seq<string>, s: nat, e: nat) {
    && s < e < |lines|
    && IsStart(lines[s])
    && IsEnd(lines[e])
    && forall m :: s < m < e ==> !IsEnd(lines[m])
  }

  lemma {:induction false} PairingMembers(starts: seq<nat>, ends: seq<nat>)
    ensures forall k :: 0 <= k < |Pairing(starts, ends)| ==>
      var (s, e) := Pairing(starts, ends)[k];
      s in starts && FirstAbove(ends, s) == Some(e)
  {
    if starts != [] {
      var front := starts[..|starts| - 1];
      PairingMembers(front, ends);
      assert forall x :: x in front ==> x in starts;
    }
  }

  /** Every pair delimits a block: a "From:" line, then the nearest closing line strictly after it. */
  lemma TextRangesAreBlocks(lines: seq<string>)
    ensures forall k :: 0 <= k < |TextRanges(lines)| ==> IsBlock(lines, TextRanges(lines)[k].0, TextRanges(lines)[k].1)
  {
    var ends := EndIndices(lines);
    PairingMembers(StartIndices(lines), ends);
    forall k | 0 <= k < |TextRanges(lines)|
      ensures IsBlock(lines, TextRanges(lines)[k].0, TextRanges(lines)[k].1)
    {
      var (s, e) := TextRanges(lines)[k];
      forall m | s < m < e ensures !IsEnd(lines[m]) {
        assert IsEnd(lines[m]) ==> m in ends;
      }
    }
  }
}

module RangeMatcherProperties {
  import opened Wrappers
  import opened RangeMatcher

  lemma {:induction false} PairingStartsIff(starts: seq<nat>, ends: seq<nat>, s: nat)
    ensures (exists k :: 0 <= k < |Pairing(starts, ends)| && Pairing(starts, ends)[k].0 == s)
        <==> s in starts && FirstAbove(ends, s).Some?
  {
    if starts != [] {
      var front := starts[..|starts| - 1];
      var last := starts[|starts| - 1];
      PairingStartsIff(front, ends, s);
      assert starts == front + [last];
      var P := Pairing(starts, ends);
      var Q := Pairing(front, ends);
      assert P == Q + PairFor(last, ends);
      if exists k :: 0 <= k < |P| && P[k].0 == s {
        var k :| 0 <= k < |P| && P[k].0 == s;
        if k < |Q| {
          assert Q[k] == P[k];
          assert Pairing(front, ends)[k].0 == s;
          assert exists k' :: 0 <= k' < |Pairing(front, ends)| && Pairing(front, ends)[k'].0 == s;
          assert s in front;
          var i :| 0 <= i < |front| && front[i] == s;
          assert starts[i] == s;
        } else {
          assert PairFor(last, ends) != [];
          assert s == last && FirstAbove(ends, last).Some?;
          assert last in starts;
        }
      }
      if s in starts && FirstAbove(ends, s).Some? {
        if s in front {
          var k :| 0 <= k < |Q| && Q[k].0 == s;
          assert P[k] == Q[k];
        } else {
          assert s == last;
          var e := FirstAbove(ends, s).value;
          assert PairFor(last, ends) == [(s, e)];
          assert Pairing(starts, ends)[|Q|] == (s, e);
        }
      }
    }
  }

  /** For ascending closing indices, one lies above `s` exactly when the last one does. */
  lemma FirstAboveLast(ends: seq<nat>, s: nat)
    requires StrictlyIncreasing(ends)
    ensures FirstAbove(ends, s).Some? <==> exists e :: e in ends && s < e
    ensures FirstAbove(ends, s).Some? <==> ends != [] && s < ends[|ends| - 1]
  {
    if FirstAbove(ends, s).Some? {
      var e := FirstAbove(ends, s).value;
      var j :| 0 <= j < |ends| && ends[j] == e;
      assert ends[j] <= ends[|ends| - 1];
    }
    if ends != [] && s < ends[|ends| - 1] {
      assert ends[|ends| - 1] in ends;
    }
  }

  /** Some closing line follows `s` exactly when the first closing index above `s` exists, and
      exactly when `s` lies below the last closing index. */
  lemma ClosingLineAfter(lines: seq<string>, s: nat)
    ensures FirstAbove(EndIndices(lines), s).Some? <==> exists t :: s < t < |lines| && IsEnd(lines[t])
    ensures FirstAbove(EndIndices(lines), s).Some? <==>
      EndIndices(lines) != [] && s < EndIndices(lines)[|EndIndices(lines)| - 1]
  {
    var ends := EndIndices(lines);
    FirstAboveLast(ends, s);
    if exists t :: s < t < |lines| && IsEnd(lines[t]) {
      var t :| s < t < |lines| && IsEnd(lines[t]);
      assert t in ends;
    }
  }

  /** A start is paired exactly when some closing line follows it, that is, when it lies below
      the last closing index; all other starts are dropped without error. */
  lemma PairedStarts(lines: seq<string>, s: nat)
    ensures (exists k :: 0 <= k < |TextRanges(lines)| && TextRanges(lines)[k].0 == s)
        <==> s < |lines| && IsStart(lines[s]) && exists t :: s < t < |lines| && IsEnd(lines[t])
    ensures (exists k :: 0 <= k < |TextRanges(lines)| && TextRanges(lines)[k].0 == s)
        <==> s in StartIndices(lines) && EndIndices(lines) != [] && s < EndIndices(lines)[|EndIndices(lines)| - 1]
  {
    var starts := StartIndices(lines);
    var ends := EndIndices(lines);
    assert TextRanges(lines) == Pairing(starts, ends);
    PairingStartsIff(starts, ends, s);
    ClosingLineAfter(lines, s);
    assert s in starts <==> s < |lines| && IsStart(lines[s]);
  }

  /** Once a start is dropped, every later start is dropped too. */
  lemma DroppedStaysDropped(lines: seq<string>, s: nat, later: nat)
    requires s < later < |lines| && IsStart(lines[s]) && IsStart(lines[later])
    requires forall k :: 0 <= k < |TextRanges(lines)| ==> TextRanges(lines)[k].0 != s
    ensures forall k :: 0 <= k < |TextRanges(lines)| ==> TextRanges(lines)[k].0 != later
  {
    PairedStarts(lines, s);
    PairedStarts(lines, later);
  }

  lemma FirstAboveMonotone(ends: seq<nat>, x: nat, y: nat)
    requires StrictlyIncreasing(ends) && x <= y && FirstAbove(ends, y).Some?
    ensures FirstAbove(ends, x).Some? && FirstAbove(ends, x).value <= FirstAbove(ends, y).value
  {
    assert FirstAbove(ends, y).value in ends;
  }

  lemma {:induction false} PairingOrdered(starts: seq<nat>, ends: seq<nat>)
    requires StrictlyIncreasing(starts) && StrictlyIncreasing(ends)
    ensures forall i, j :: 0 <= i < j < |Pairing(starts, ends)| ==>
      Pairing(starts, ends)[i].0 < Pairing(starts, ends)[j].0 && Pairing(starts, ends)[i].1 <= Pairing(starts, ends)[j].1
  {
    if starts != [] {
      var front := starts[..|starts| - 1];
      var last := starts[|starts| - 1];
      PairingOrdered(front, ends);
      PairingMembers(front, ends);
      var P := Pairing(starts, ends);
      var Q := Pairing(front, ends);
      assert P == Q + PairFor(last, ends);
      forall i, j | 0 <= i < j < |P| ensures P[i].0 < P[j].0 && P[i].1 <= P[j].1 {
        if j == |Q| {
          assert P[i] == Q[i];
          var x := Q[i].0;
          assert x in front;
          assert x < last;
          FirstAboveMonotone(ends, x, last);
        }
      }
    }
  }

  /** Pairs come in strictly increasing start order; closing indices never decrease but may
      repeat, because the cursor is not moved past a closing index once it is paired. */
  lemma PairsOrdered(lines: seq<string>)
    ensures forall i, j :: 0 <= i < j < |TextRanges(lines)| ==>
      TextRanges(lines)[i].0 < TextRanges(lines)[j].0 && TextRanges(lines)[i].1 <= TextRanges(lines)[j].1
  {
    PairingOrdered(StartIndices(lines), EndIndices(lines));
  }

  /** Two "From:" headers before a single closing line share it: the closing line is not consumed. */
  lemma SharedEnd()
    ensures Pairing([0, 2], [5]) == [(0, 5), (2, 5)]
  {
    assert [0, 2][..1] == [0];
    assert [0][..0] == [];
  }
}
