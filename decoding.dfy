/** What postprocessor computes, as functions of the retained lines and the
    predictions: every line is rebuilt from its pivot and its feature cells,
    numeric cells kept and every other cell replaced by the next prediction,
    the predictions being consumed in row-major order across all lines. */
module Decoding {
  import opened Cells
  import opened Encoding
  import opened Seqs

  /** The rebuilt value of cell j of a row whose non-numeric cells take their
      predictions from preds[k] on: the cell itself when numeric, otherwise the
      prediction after the k + (non-numeric cells before j) already used. */
  function CellValue(fs: seq<string>, j: nat, preds: seq<real>, k: nat, isNum: string -> bool, fmt: real -> string): string
    requires j < |fs| && k + CountOf(fs, |fs|, isNum, false) <= |preds|
  {
    if isNum(fs[j]) then fs[j]
    else
      CountOfBound(fs, j, |fs|, isNum, false);
      fmt(preds[k + CountOf(fs, j, isNum, false)])
  }

  /** The rebuilt cells of a row. */
  function Fill(fs: seq<string>, preds: seq<real>, k: nat, isNum: string -> bool, fmt: real -> string): (r: seq<string>)
    requires k + CountOf(fs, |fs|, isNum, false) <= |preds|
    ensures |r| == |fs|
  {
    seq(|fs|, j requires 0 <= j < |fs| => CellValue(fs, j, preds, k, isNum, fmt))
  }

  /** One rebuilt line from its pivot p and feature cells fs: the pivot, then
      a tab and the rebuilt value of each cell. */
  function DecodeRow(p: string, fs: seq<string>, preds: seq<real>, k: nat, isNum: string -> bool, fmt: real -> string): string
    requires k + CountOf(fs, |fs|, isNum, false) <= |preds|
  {
    p + Prefixed(Fill(fs, preds, k, isNum, fmt))
  }

  /** The line as the decoder has rebuilt it after the first c cells. */
  function PartialRow(p: string, fs: seq<string>, preds: seq<real>, k: nat, c: nat,
                      isNum: string -> bool, fmt: real -> string): string
    requires c <= |fs| && k + CountOf(fs, |fs|, isNum, false) <= |preds|
  {
    if c == 0 then p
    else PartialRow(p, fs, preds, k, c - 1, isNum, fmt) + ("\t" + CellValue(fs, c - 1, preds, k, isNum, fmt))
  }

  /** The rebuilt rows, row i taking its predictions after those of the rows
      before it. */
  function DecodeRows(ps: seq<string>, rows: seq<seq<string>>, preds: seq<real>, isNum: string -> bool, fmt: real -> string): (r: seq<string>)
    requires |ps| == |rows| && CountIn(rows, |rows|, isNum, false) <= |preds|
    ensures |r| == |rows|
  {
    seq(|rows|, i requires 0 <= i < |rows| =>
      CountInBound(rows, i, |rows|, isNum, false);
      DecodeRow(ps[i], rows[i], preds, CountIn(rows, i, isNum, false), isNum, fmt))
  }

  /** The pivot of each line. */
  function Pivots(lines: seq<string>): (ps: seq<string>)
    ensures |ps| == |lines|
  {
    seq(|lines|, i requires 0 <= i < |lines| => Pivot(lines[i]))
  }

  /** The number of non-numeric feature cells of the lines: the number of
      predictions the decoder consumes for them. */
  function Missing(lines: seq<string>, isNum: string -> bool): nat
  {
    CountIn(Rows(lines), |lines|, isNum, false)
  }

  /** What postprocessor rebuilds from the lines after the header. */
  function DecodeLines(lines: seq<string>, preds: seq<real>, isNum: string -> bool, fmt: real -> string): (r: seq<string>)
    requires Missing(lines, isNum) <= |preds|
    ensures |r| == |lines|
  {
    DecodeRows(Pivots(lines), Rows(lines), preds, isNum, fmt)
  }

  // ---------------------------------------------------------------------------
  // Properties of one row

  /** Predictions beyond those a row needs are not looked at. */
  lemma FillExtra(fs: seq<string>, preds: seq<real>, extra: seq<real>, k: nat, isNum: string -> bool, fmt: real -> string)
    requires k + CountOf(fs, |fs|, isNum, false) <= |preds|
    ensures Fill(fs, preds + extra, k, isNum, fmt) == Fill(fs, preds, k, isNum, fmt)
  {
    forall j | 0 <= j < |fs|
      ensures CellValue(fs, j, preds + extra, k, isNum, fmt) == CellValue(fs, j, preds, k, isNum, fmt)
    {
      if !isNum(fs[j]) {
        CountOfBound(fs, j, |fs|, isNum, false);
        var q := k + CountOf(fs, j, isNum, false);
        assert (preds + extra)[q] == preds[q];
      }
    }
  }

  /** One step of the decoder's cell loop: reading cell c appends a tab and
      its rebuilt value to the line built so far. */
  lemma FillStep(p: string, fs: seq<string>, preds: seq<real>, k: nat, c: nat, isNum: string -> bool, fmt: real -> string)
    requires c < |fs| && k + CountOf(fs, |fs|, isNum, false) <= |preds|
    ensures p + Prefixed(Fill(fs, preds, k, isNum, fmt)[..c + 1])
      == (p + Prefixed(Fill(fs, preds, k, isNum, fmt)[..c])) + ("\t" + CellValue(fs, c, preds, k, isNum, fmt))
  {
    var filled := Fill(fs, preds, k, isNum, fmt);
    TakeSnoc(filled, c);
    PrefixedSnoc(filled[..c], filled[c]);
    assert "\t" == [TAB];
    AppendAssoc(Prefixed(filled[..c]), [TAB], filled[c]);
    AppendAssoc(p, Prefixed(filled[..c]), [TAB] + filled[c]);
  }

  /** The rebuilt prefix after c cells is the pivot followed by the first c
      rebuilt cells, each after a tab. */
  lemma {:induction false} PartialRowIsPrefix(p: string, fs: seq<string>, preds: seq<real>, k: nat, c: nat,
                                              isNum: string -> bool, fmt: real -> string)
    requires c <= |fs| && k + CountOf(fs, |fs|, isNum, false) <= |preds|
    ensures PartialRow(p, fs, preds, k, c, isNum, fmt) == p + Prefixed(Fill(fs, preds, k, isNum, fmt)[..c])
  {
    if c == 0 {
      var filled := Fill(fs, preds, k, isNum, fmt);
      assert filled[..0] == [];
    } else {
      PartialRowIsPrefix(p, fs, preds, k, c - 1, isNum, fmt);
      FillStep(p, fs, preds, k, c - 1, isNum, fmt);
    }
  }

  /** Once every cell is rebuilt, the prefix is the decoded line. */
  lemma PartialRowComplete(p: string, fs: seq<string>, preds: seq<real>, k: nat,
                           isNum: string -> bool, fmt: real -> string)
    requires k + CountOf(fs, |fs|, isNum, false) <= |preds|
    ensures PartialRow(p, fs, preds, k, |fs|, isNum, fmt) == DecodeRow(p, fs, preds, k, isNum, fmt)
  {
    PartialRowIsPrefix(p, fs, preds, k, |fs|, isNum, fmt);
    TakeAll(Fill(fs, preds, k, isNum, fmt));
  }

  /** One pass of the decoder's cell loop over cell c: a numeric cell is
      appended as it is, any other cell as the formatted prediction at the
      running index, which then advances. */
  lemma DecodeStep(p: string, fs: seq<string>, preds: seq<real>, k: nat, c: nat, acc: string,
                   isNum: string -> bool, fmt: real -> string)
    requires c < |fs| && k + CountOf(fs, |fs|, isNum, false) <= |preds|
    requires acc == PartialRow(p, fs, preds, k, c, isNum, fmt)
    ensures isNum(fs[c]) ==>
      && acc + ("\t" + fs[c]) == PartialRow(p, fs, preds, k, c + 1, isNum, fmt)
      && CountOf(fs, c + 1, isNum, false) == CountOf(fs, c, isNum, false)
    ensures !isNum(fs[c]) ==>
      && k + CountOf(fs, c, isNum, false) < |preds|
      && acc + ("\t" + fmt(preds[k + CountOf(fs, c, isNum, false)])) == PartialRow(p, fs, preds, k, c + 1, isNum, fmt)
      && CountOf(fs, c + 1, isNum, false) == CountOf(fs, c, isNum, false) + 1
  {
    CountOfBound(fs, c, |fs|, isNum, false);
  }

  /** A row whose cells are all numeric needs no prediction and keeps its cells. */
  lemma {:induction false} AllNumericCount(fs: seq<string>, j: nat, isNum: string -> bool)
    requires j <= |fs|
    requires forall c :: 0 <= c < |fs| ==> isNum(fs[c])
    ensures CountOf(fs, j, isNum, false) == 0
  {
    if j > 0 {
      AllNumericCount(fs, j - 1, isNum);
    }
  }

  /** A line that holds a tab and has only numeric feature cells is rebuilt
      unchanged, and uses no prediction. */
  lemma AllNumericLineUnchanged(line: string, preds: seq<real>, k: nat, isNum: string -> bool, fmt: real -> string)
    requires HasTab(line) && k <= |preds|
    requires forall j :: 0 <= j < |FeatureCells(line)| ==> isNum(FeatureCells(line)[j])
    ensures CountOf(FeatureCells(line), |FeatureCells(line)|, isNum, false) == 0
    ensures DecodeRow(Pivot(line), FeatureCells(line), preds, k, isNum, fmt) == line
  {
    var fs := FeatureCells(line);
    AllNumericCount(fs, |fs|, isNum);
    assert Fill(fs, preds, k, isNum, fmt) == fs;
    LineJoin(line);
  }

  /** A line without a tab is its own pivot and its own only cell, so it comes
      back twice, tab-separated, when it is numeric, and followed by a
      prediction when it is not. */
  lemma NoTabLineDoubled(line: string, preds: seq<real>, k: nat, isNum: string -> bool, fmt: real -> string)
    requires !HasTab(line) && k + CountOf(FeatureCells(line), |FeatureCells(line)|, isNum, false) <= |preds|
    ensures isNum(line) ==> DecodeRow(Pivot(line), FeatureCells(line), preds, k, isNum, fmt) == line + [TAB] + line
    ensures !isNum(line) ==>
      k < |preds| && DecodeRow(Pivot(line), FeatureCells(line), preds, k, isNum, fmt) == line + [TAB] + fmt(preds[k])
  {
    var r := Fill(FeatureCells(line), preds, k, isNum, fmt);
    assert r == [r[0]];
    assert Prefixed(r) == [TAB] + r[0] + Prefixed([]);
  }

  // ---------------------------------------------------------------------------
  // Properties of all lines


  /** The predictions the first i lines consume are those of their rows. */
  lemma {:induction false} MissingPrefix(lines: seq<string>, i: nat, isNum: string -> bool)
    requires i <= |lines|
    ensures Missing(lines[..i], isNum) == CountIn(Rows(lines), i, isNum, false)
  {
    if i > 0 {
      MissingPrefix(lines, i - 1, isNum);
      var rows := Rows(lines);
      var pre := Rows(lines[..i]);
      assert Missing(lines[..i - 1], isNum) == CountIn(pre, i - 1, isNum, false) by {
        assert lines[..i][..i - 1] == lines[..i - 1];
        CountInSame(Rows(lines[..i - 1]), pre, i - 1, isNum, false);
      }
      CountInSame(pre, rows, i - 1, isNum, false);
      assert pre[i - 1] == rows[i - 1];
    }
  }

  /** CountIn over the first n rows looks at no other row. */
  lemma {:induction false} CountInSame(a: seq<seq<string>>, b: seq<seq<string>>, n: nat, isNum: string -> bool, numeric: bool)
    requires n <= |a| && n <= |b| && a[..n] == b[..n]
    ensures CountIn(a, n, isNum, numeric) == CountIn(b, n, isNum, numeric)
  {
    if n > 0 {
      assert a[..n - 1] == b[..n - 1] && a[n - 1] == b[n - 1] by {
        assert a[..n - 1] == a[..n][..n - 1] && b[..n - 1] == b[..n][..n - 1];
        assert a[n - 1] == a[..n][n - 1] && b[n - 1] == b[..n][n - 1];
      }
      CountInSame(a, b, n - 1, isNum, numeric);
    }
  }

  /** Decoder line content, as DecodeLinesRow with the prediction offset
      written as what the earlier lines alone need: rebuilt line i is the
      pivot of lines[i] followed by its rebuilt feature cells, their
      predictions starting after the Missing ones of the lines before it. */
  lemma DecodeLinesAt(lines: seq<string>, preds: seq<real>, i: nat, isNum: string -> bool, fmt: real -> string)
    requires Missing(lines, isNum) <= |preds| && i < |lines|
    ensures Missing(lines[..i], isNum) + CountOf(FeatureCells(lines[i]), |FeatureCells(lines[i])|, isNum, false) <= |preds|
    ensures DecodeLines(lines, preds, isNum, fmt)[i]
      == Pivot(lines[i]) + Prefixed(Fill(FeatureCells(lines[i]), preds, Missing(lines[..i], isNum), isNum, fmt))
  {
    DecodeLinesRow(lines, preds, i, isNum, fmt);
    MissingPrefix(lines, i, isNum);
  }

  /** The predictions of line i follow those of the lines before it and lie
      within the Missing ones of all lines. */
  lemma MissingBound(lines: seq<string>, i: nat, isNum: string -> bool)
    requires i < |lines|
    ensures CountIn(Rows(lines), i, isNum, false) + CountOf(FeatureCells(lines[i]), |FeatureCells(lines[i])|, isNum, false)
      == CountIn(Rows(lines), i + 1, isNum, false)
    ensures CountIn(Rows(lines), i + 1, isNum, false) <= Missing(lines, isNum)
  {
    var rows := Rows(lines);
    assert rows[i] == FeatureCells(lines[i]);
    CountInBound(rows, i, |rows|, isNum, false);
  }

  /** One step of the decoder's line loop: once line i is rebuilt as lp, the
      first i + 1 rebuilt lines are the first i followed by lp. */
  lemma DecodeLinesSnoc(lines: seq<string>, preds: seq<real>, i: nat, lp: string, isNum: string -> bool, fmt: real -> string)
    requires Missing(lines, isNum) <= |preds| && i < |lines|
    requires CountIn(Rows(lines), i, isNum, false) + CountOf(FeatureCells(lines[i]), |FeatureCells(lines[i])|, isNum, false) <= |preds|
    requires lp == DecodeRow(Pivot(lines[i]), FeatureCells(lines[i]), preds, CountIn(Rows(lines), i, isNum, false), isNum, fmt)
    ensures DecodeLines(lines, preds, isNum, fmt)[..i + 1] == DecodeLines(lines, preds, isNum, fmt)[..i] + [lp]
  {
    DecodeLinesRow(lines, preds, i, isNum, fmt);
    TakeSnoc(DecodeLines(lines, preds, isNum, fmt), i);
  }

  /** Rebuilt line i in the terms of the decoder's loop: the line's pivot and
      cells, decoded from the prediction the rows before it stopped at. */
  lemma DecodeLinesRow(lines: seq<string>, preds: seq<real>, i: nat, isNum: string -> bool, fmt: real -> string)
    requires Missing(lines, isNum) <= |preds| && i < |lines|
    ensures CountIn(Rows(lines), i, isNum, false) + CountOf(FeatureCells(lines[i]), |FeatureCells(lines[i])|, isNum, false) <= |preds|
    ensures DecodeLines(lines, preds, isNum, fmt)[i]
      == DecodeRow(Pivot(lines[i]), FeatureCells(lines[i]), preds, CountIn(Rows(lines), i, isNum, false), isNum, fmt)
  {
    var rows := Rows(lines);
    CountInBound(rows, i, |rows|, isNum, false);
    assert rows[i] == FeatureCells(lines[i]);
  }

  /** Extra predictions are ignored. */
  lemma DecodeLinesExtra(lines: seq<string>, preds: seq<real>, extra: seq<real>, isNum: string -> bool, fmt: real -> string)
    requires Missing(lines, isNum) <= |preds|
    ensures DecodeLines(lines, preds + extra, isNum, fmt) == DecodeLines(lines, preds, isNum, fmt)
  {
    var rows := Rows(lines);
    forall i | 0 <= i < |lines|
      ensures DecodeLines(lines, preds + extra, isNum, fmt)[i] == DecodeLines(lines, preds, isNum, fmt)[i]
    {
      CountInBound(rows, i, |rows|, isNum, false);
      FillExtra(rows[i], preds, extra, CountIn(rows, i, isNum, false), isNum, fmt);
    }
  }
}
