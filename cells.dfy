/** How one line of the tab-separated table is cut into a pivot and feature
    cells. The encoder and the decoder both walk a line this way: the search
    for the first tab fixes where the feature cells start, then every tab ends
    one cell, and the text after the last tab is the final cell. */
module Cells {
  import opened CppString
  import Seqs

  const TAB: char := '\t'

  /** The index of the first tab at or after p, or |s| when there is none. */
  function NextTab(s: string, p: nat): (q: nat)
    requires p <= |s|
    ensures p <= q <= |s|
    ensures q < |s| ==> s[q] == TAB
    decreases |s| - p
  {
    if p == |s| then |s| else if s[p] == TAB then p else NextTab(s, p + 1)
  }

  /** The segments of s[p..] between tabs, in order; the segment after the last
      tab is always one of them, even when it is empty. */
  function Segments(s: string, p: nat): (r: seq<string>)
    requires p <= |s|
    ensures |r| >= 1
    decreases |s| - p
  {
    var q := NextTab(s, p);
    if q == |s| then [s[p..]] else [s[p..q]] + Segments(s, q + 1)
  }

  predicate HasTab(line: string)
  {
    NextTab(line, 0) < |line|
  }

  /** Where the feature cells start: just after the first tab, or at 0 when the
      line holds no tab (find returns npos and npos + 1 wraps to 0). */
  function CellStart(line: string): (p: nat)
    ensures p <= |line|
  {
    if HasTab(line) then NextTab(line, 0) + 1 else 0
  }

  /** The feature cells of a data line: every segment after the pivot, or the
      whole line as a single cell when it holds no tab. */
  function FeatureCells(line: string): (cells: seq<string>)
    ensures |cells| >= 1
    ensures !HasTab(line) ==> cells == [line]
  {
    Segments(line, CellStart(line))
  }

  /** The pivot: the longest prefix of the line without a tab, which is the
      whole line when it holds none. */
  function Pivot(line: string): (r: string)
    ensures |r| <= |line| && r == line[..|r|]
    ensures TAB !in r
    ensures HasTab(line) ==> line[|r|] == TAB
    ensures !HasTab(line) ==> r == line
  {
    NoTabBefore(line, 0);
    line[..NextTab(line, 0)]
  }

  /** The cells joined back, each preceded by a tab. */
  function Prefixed(cells: seq<string>): string
  {
    if cells == [] then "" else [TAB] + cells[0] + Prefixed(cells[1..])
  }

  /** The number of feature cells a line is expected to have, counted from its
      characters: its number of tabs, or 1 when it holds none. */
  function CellCount(line: string): (n: nat)
    ensures n >= 1
  {
    CountFromTab(line, 0);
    if HasTab(line) then CountFrom(line, TAB, 0) else 1
  }

  // ---------------------------------------------------------------------------

  /** NextTab finds the first tab: there is none between p and it. */
  lemma {:induction false} NextTabIsFirst(s: string, p: nat, i: nat)
    requires p <= |s| && p <= i < NextTab(s, p)
    ensures s[i] != TAB
    decreases |s| - p
  {
    if i > p {
      NextTabIsFirst(s, p + 1, i);
    }
  }

  /** Between p and NextTab(s, p) there is no tab. */
  lemma NoTabBefore(s: string, p: nat)
    requires p <= |s|
    ensures TAB !in s[p..NextTab(s, p)]
  {
    forall i | p <= i < NextTab(s, p)
      ensures s[i] != TAB
    {
      NextTabIsFirst(s, p, i);
    }
  }

  /** No segment holds a tab. */
  lemma {:induction false} SegmentsTabFree(s: string, p: nat)
    requires p <= |s|
    ensures forall i :: 0 <= i < |Segments(s, p)| ==> TAB !in Segments(s, p)[i]
    decreases |s| - p
  {
    NoTabBefore(s, p);
    var q := NextTab(s, p);
    if q < |s| {
      SegmentsTabFree(s, q + 1);
    }
  }

  /** No feature cell holds a tab: every tab of the line separates cells. */
  lemma FeatureCellsTabFree(line: string)
    ensures forall i :: 0 <= i < |FeatureCells(line)| ==> TAB !in FeatureCells(line)[i]
  {
    SegmentsTabFree(line, CellStart(line));
  }

  /** HasTab is tab membership. */
  lemma HasTabIsMembership(line: string)
    ensures HasTab(line) <==> TAB in line
  {
    if TAB in line {
      var i :| 0 <= i < |line| && line[i] == TAB;
      if !HasTab(line) {
        NextTabIsFirst(line, 0, i);
      }
    }
  }

  /** string::find for a tab is NextTab, with npos for "none". */
  lemma {:induction false} FindIsNextTab(s: string, p: nat)
    requires Fits(s) && p <= |s|
    ensures Find(s, TAB, p) == if NextTab(s, p) == |s| then NPOS else NextTab(s, p)
    decreases |s| - p
  {
    if p < |s| && s[p] != TAB {
      FindIsNextTab(s, p + 1);
    }
  }

  /** Where segment c of s[p..] starts; |s| once past the last segment. */
  function SegStart(s: string, p: nat, c: nat): (r: nat)
    requires p <= |s|
    ensures p <= r <= |s|
    decreases c
  {
    if c == 0 then p
    else
      var q := NextTab(s, p);
      if q == |s| then |s| else SegStart(s, q + 1, c - 1)
  }

  /** Where feature cell c of a line starts. */
  function CellPos(line: string, c: nat): (r: nat)
    ensures r <= |line|
  {
    SegStart(line, CellStart(line), c)
  }

  /** Segment c runs from its start to the next tab; another segment follows
      exactly when that tab exists, and it starts just after the tab. */
  lemma {:induction false} SegmentAt(s: string, p: nat, c: nat)
    requires p <= |s| && c < |Segments(s, p)|
    ensures var b := SegStart(s, p, c);
      var q := NextTab(s, b);
      && Segments(s, p)[c] == s[b..q]
      && (c + 1 < |Segments(s, p)| <==> q < |s|)
      && (q < |s| ==> SegStart(s, p, c + 1) == q + 1)
    decreases c
  {
    if c > 0 {
      SegmentAt(s, NextTab(s, p) + 1, c - 1);
    }
  }

  /** One step of the cell loop: from the start p of cell c, find either
      reports the tab that ends cell c, substr up to it is that cell and the
      next cell starts after the tab; or it reports npos, and cell c is the
      last one and runs to the end of the line (substr with the length
      npos - p, in size_type, is cut there). */
  lemma ScanStep(line: string, c: nat, p: nat, q: nat)
    requires Fits(line) && c < |FeatureCells(line)| && p == CellPos(line, c)
    requires q == Find(line, TAB, p)
    ensures q == NPOS ==> c == |FeatureCells(line)| - 1
    ensures q == NPOS ==> Substr(line, p, q - p) == FeatureCells(line)[c]
    ensures q != NPOS ==> p <= q < |line| && c + 1 < |FeatureCells(line)|
    ensures q != NPOS ==> Substr(line, p, q - p) == FeatureCells(line)[c]
    ensures q != NPOS ==> q + 1 == CellPos(line, c + 1)
  {
    SegmentAt(line, CellStart(line), c);
    FindIsNextTab(line, p);
  }

  /** The first find of each pass: adding one to its result in size_type gives
      CellStart, and the substring up to it is the pivot. */
  lemma FirstTab(line: string)
    requires Fits(line)
    ensures SizeAdd(Find(line, TAB, 0), 1) == CellStart(line)
    ensures Find(line, TAB, 0) == NPOS || Find(line, TAB, 0) < |line|
    ensures Substr(line, 0, Find(line, TAB, 0)) == Pivot(line)
  {
    FindIsNextTab(line, 0);
    var q := NextTab(line, 0);
    if q == |line| {
      assert Find(line, TAB, 0) == NPOS;
      assert (NPOS + 1) % SIZE_MOD == 0;
      assert Substr(line, 0, NPOS) == line[0..];
    } else {
      assert Find(line, TAB, 0) == q;
      assert q + 1 < SIZE_MOD;
      assert Substr(line, 0, q) == line[0..q];
    }
  }

  lemma {:induction false} PrefixedSnoc(cells: seq<string>, c: string)
    ensures Prefixed(cells + [c]) == Prefixed(cells) + [TAB] + c
  {
    if cells != [] {
      assert (cells + [c])[1..] == cells[1..] + [c];
      PrefixedSnoc(cells[1..], c);
    } else {
      assert [c][1..] == [];
    }
  }

  /** Splitting on tabs loses nothing: the segments of s[p..], each after a
      tab, are s[p..] after a tab. */
  lemma {:induction false} SegmentsJoin(s: string, p: nat)
    requires p <= |s|
    ensures Prefixed(Segments(s, p)) == [TAB] + s[p..]
    decreases |s| - p
  {
    var q := NextTab(s, p);
    var segs := Segments(s, p);
    if q == |s| {
      assert segs[1..] == [];
    } else {
      SegmentsJoin(s, q + 1);
      assert segs[1..] == Segments(s, q + 1);
      assert Prefixed(segs) == [TAB] + s[p..q] + ([TAB] + s[q + 1..]);
      assert s[p..] == s[p..q] + [TAB] + s[q + 1..];
    }
  }

  /** A tab at or after p is counted from p. */
  lemma {:induction false} CountFromTab(s: string, p: nat)
    requires p <= |s|
    ensures NextTab(s, p) < |s| ==> CountFrom(s, TAB, p) >= 1
    decreases |s| - p
  {
    if p < |s| && s[p] != TAB {
      CountFromTab(s, p + 1);
    }
  }

  /** No tab between p and q: the count from p is the count from q. */
  lemma {:induction false} CountFromSkip(s: string, p: nat, q: nat)
    requires p <= q <= |s|
    requires forall i :: p <= i < q ==> s[i] != TAB
    ensures CountFrom(s, TAB, p) == CountFrom(s, TAB, q)
    decreases q - p
  {
    if p < q {
      CountFromSkip(s, p + 1, q);
    }
  }

  /** s[p..] splits into one more segment than it has tabs. */
  lemma {:induction false} SegmentsCount(s: string, p: nat)
    requires p <= |s|
    ensures |Segments(s, p)| == CountFrom(s, TAB, p) + 1
    decreases |s| - p
  {
    var q := NextTab(s, p);
    forall i | p <= i < q ensures s[i] != TAB {
      NextTabIsFirst(s, p, i);
    }
    CountFromSkip(s, p, q);
    if q < |s| {
      SegmentsCount(s, q + 1);
    }
  }

  /** The number of feature cells of a line is its number of tabs when it holds
      one, and 1 (the whole line) when it holds none. */
  lemma FeatureCellsCount(line: string)
    ensures |FeatureCells(line)| == CellCount(line)
  {
    var q := NextTab(line, 0);
    if HasTab(line) {
      SegmentsCount(line, q + 1);
      forall i | 0 <= i < q ensures line[i] != TAB {
        NextTabIsFirst(line, 0, i);
      }
      CountFromSkip(line, 0, q);
    } else {
      assert line[0..] == line;
    }
  }

  /** A line that holds a tab is its pivot followed by its feature cells, each
      after a tab: cutting a line into cells loses nothing. */
  lemma LineJoin(line: string)
    requires HasTab(line)
    ensures line == Pivot(line) + Prefixed(FeatureCells(line))
  {
    var q := NextTab(line, 0);
    SegmentsJoin(line, q + 1);
    assert line == line[..q] + ([TAB] + line[q + 1..]);
  }

  /** The last segment from p is the text after the last tab. */
  lemma {:induction false} SegmentsLast(s: string, p: nat, t: nat)
    requires p <= t < |s| && s[t] == TAB
    requires forall i :: t < i < |s| ==> s[i] != TAB
    ensures Segments(s, p)[|Segments(s, p)| - 1] == s[t + 1..]
    decreases |s| - p
  {
    var q := NextTab(s, p);
    if q < t {
      SegmentsLast(s, q + 1, t);
    } else if q == t {
      var r := NextTab(s, t + 1);
      assert r == |s|;
    } else {
      NextTabIsFirst(s, p, t);
    }
  }

  /** The text after the last tab of a line is always its last feature cell. */
  lemma LastCellAfterLastTab(line: string, t: nat)
    requires t < |line| && line[t] == TAB
    requires forall i :: t < i < |line| ==> line[i] != TAB
    ensures FeatureCells(line)[|FeatureCells(line)| - 1] == line[t + 1..]
  {
    var q := NextTab(line, 0);
    assert q <= t by {
      if q > t {
        NextTabIsFirst(line, 0, t);
      }
    }
    if q == t {
      assert NextTab(line, t + 1) == |line|;
    } else {
      SegmentsLast(line, q + 1, t);
    }
  }

  /** A line that ends in a tab has an empty last feature cell. */
  lemma TrailingTabEmptyCell(line: string)
    requires |line| >= 1 && line[|line| - 1] == TAB
    ensures FeatureCells(line)[|FeatureCells(line)| - 1] == ""
  {
    LastCellAfterLastTab(line, |line| - 1);
  }
}
