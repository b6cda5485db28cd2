/** The encoder and the decoder together: what postprocessor makes of the
    predictions for a table that preprocessor2 encoded. Prediction k is meant
    for the k-th placeholder token of ret[1]; these lemmas show that the
    decoder writes it into exactly the cell that token stands for, and that
    numeric cells come back unchanged. */
module RoundTrip {
  import opened CppString
  import opened Cells
  import opened Encoding
  import opened Decoding
  import Processor

  /** The rebuilt feature cells of data line t[i] when the decoder is given
      the data lines t[1..]. */
  function DecodedCells(t: seq<string>, preds: seq<real>, i: nat, isNum: string -> bool, fmt: real -> string): (r: seq<string>)
    requires 1 <= i < |t| && Missing(t[1..], isNum) <= |preds|
    ensures |r| == |FeatureCells(t[i])|
  {
    MissingBound(t[1..], i - 1, isNum);
    Fill(FeatureCells(t[i]), preds, CountIn(Rows(t[1..]), i - 1, isNum, false), isNum, fmt)
  }

  /** The decoder needs one prediction per placeholder token of the encoder. */
  lemma PlaceholderCount(t: seq<string>, isNum: string -> bool)
    requires |t| >= 1
    ensures |TokenList(t, isNum, false)| == Missing(t[1..], isNum)
  {
    TokenCount(t, isNum);
  }

  /** Every feature cell survives the round trip in its place: a numeric cell
      is copied back, and it is the text of its token in ret[0]; a non-numeric
      cell gets the prediction whose index is the position of its placeholder
      token in ret[1]. */
  lemma DecodedCell(t: seq<string>, preds: seq<real>, i: nat, j: nat, isNum: string -> bool, fmt: real -> string)
    requires 1 <= i < |t| && j < |FeatureCells(t[i])| && Missing(t[1..], isNum) <= |preds|
    ensures var cell := FeatureCells(t[i])[j];
      var k := KindIndex(Rows(t[1..]), i - 1, j, isNum, isNum(cell));
      && k < |TokenList(t, isNum, isNum(cell))|
      && (isNum(cell) ==>
            && TokenList(t, isNum, true)[k] == Tok(cell, i - 1, |t| + j)
            && DecodedCells(t, preds, i, isNum, fmt)[j] == cell)
      && (!isNum(cell) ==>
            && TokenList(t, isNum, false)[k] == Tok("0", i - 1, |t| + j)
            && k < |preds|
            && DecodedCells(t, preds, i, isNum, fmt)[j] == fmt(preds[k]))
  {
    var cell := FeatureCells(t[i])[j];
    TokenOfCell(t, i, j, isNum, isNum(cell));
    PlaceholderCount(t, isNum);
    assert Rows(t[1..])[i - 1] == FeatureCells(t[i]);
  }

  /** Conversely, prediction k, for k below the number of placeholder
      tokens, lands in the non-numeric cell whose placeholder is token k of
      ret[1], carrying its row id i - 1 and column id |t| + j. */
  lemma PredictionPlacement(t: seq<string>, preds: seq<real>, k: nat, isNum: string -> bool, fmt: real -> string)
    returns (i: nat, j: nat)
    requires |t| >= 1 && Missing(t[1..], isNum) <= |preds| && k < |TokenList(t, isNum, false)|
    ensures 1 <= i < |t| && j < |FeatureCells(t[i])| && !isNum(FeatureCells(t[i])[j])
    ensures TokenList(t, isNum, false)[k] == Tok("0", i - 1, |t| + j)
    ensures k < |preds| && DecodedCells(t, preds, i, isNum, fmt)[j] == fmt(preds[k])
  {
    i, j := CellOfToken(t, k, isNum, false);
    DecodedCell(t, preds, i, j, isNum, fmt);
  }

  /** A table whose data lines all hold a tab and only numeric cells comes
      back as it was, whatever the predictions. */
  lemma AllNumericRoundTrip(t: seq<string>, preds: seq<real>, isNum: string -> bool, fmt: real -> string)
    requires |t| >= 1
    requires forall i :: 1 <= i < |t| ==> HasTab(t[i])
    requires forall i, j :: 1 <= i < |t| && 0 <= j < |FeatureCells(t[i])| ==> isNum(FeatureCells(t[i])[j])
    ensures Missing(t[1..], isNum) == 0
    ensures [t[0]] + DecodeLines(t[1..], preds, isNum, fmt) == t
  {
    var lines := t[1..];
    AllNumericMissing(lines, |lines|, isNum);
    var dec := DecodeLines(lines, preds, isNum, fmt);
    forall i | 0 <= i < |lines|
      ensures dec[i] == lines[i]
    {
      DecodeLinesRow(lines, preds, i, isNum, fmt);
      assert lines[i] == t[i + 1];
      AllNumericLineUnchanged(lines[i], preds, CountIn(Rows(lines), i, isNum, false), isNum, fmt);
    }
    assert dec == lines;
  }

  /** Lines with only numeric cells need no prediction. */
  lemma {:induction false} AllNumericMissing(lines: seq<string>, n: nat, isNum: string -> bool)
    requires n <= |lines|
    requires forall i, j :: 0 <= i < |lines| && 0 <= j < |FeatureCells(lines[i])| ==> isNum(FeatureCells(lines[i])[j])
    ensures CountIn(Rows(lines), n, isNum, false) == 0
  {
    if n > 0 {
      AllNumericMissing(lines, n - 1, isNum);
      var fs := FeatureCells(lines[n - 1]);
      assert Rows(lines)[n - 1] == fs;
      AllNumericCount(fs, |fs|, isNum);
    }
  }

  /** A fresh processor that encodes t and then decodes predictions for it
      returns the header followed by the rebuilt data lines. */
  method EncodeThenDecode(t: seq<string>, preds: seq<real>, isNum: string -> bool, fmt: real -> string)
    returns (encoded: seq<seq<string>>, decoded: seq<string>)
    requires |t| >= 1 && AllFit(t) && Missing(t[1..], isNum) <= |preds|
    ensures encoded == [TokenList(t, isNum, true), TokenList(t, isNum, false), Meta(t)]
    ensures decoded == [t[0]] + DecodeLines(t[1..], preds, isNum, fmt)
  {
    var p := new Processor.PrePostProcessor(isNum, fmt);
    encoded := p.Preprocessor2(t);
    assert p.obsLines == t;
    decoded := p.Postprocessor(preds);
  }
}
