# PrePostProcessor: sparse encoder and prediction decoder

This project models the `PrePostProcessor` class of the libFM wrapper.
Its encoder, `preprocessor2`, turns a tab-separated table into sparse libFM text tokens of the form
`"value row:1 col:1"`:

- line 0 is a header;
- each data line is a pivot cell, the text before the first tab, followed by its feature cells;
- a numeric feature cell becomes a token in one list;
- any other cell becomes a placeholder token `"0 row:1 col:1"` in a second list;
- a third list, the 0/1 metadata vector, marks row ids and column ids;
- every line is kept in the field `obs_lines`.

Its decoder, `postprocessor`, walks the kept lines again with the same cell split and the same numeric test.
It rebuilds every line, and each non-numeric cell takes the next prediction in order.

The model follows the C++ code as written:

- `total_line` counts the header, so column ids start at the number of lines, header included, not at the number of data lines.
- `col` is never incremented past the last cell of the last line, so the metadata vector holds one `"1"` fewer than that line has feature cells.
  The id of the last column therefore has no entry.
- `string::find` returns `npos` on a line with no tab, and `npos + 1` wraps to 0 in `string::size_type`.
  The model takes the 64-bit `size_type` of a 64-bit target, so `npos` is 2^64 - 1; the wrap to 0 holds at any width.
  Such a line is therefore encoded as one cell, pivot included.
  The decoder writes it out as itself, a tab and again itself when it is numeric, or as itself, a tab and the next prediction when it is not.
  The wrap is modelled explicitly with `CppString.SizeAdd`.

Modules:

- `CppString`: the parts of `std::string` used here: `find`, `substr`, `npos` and size_type wrap-around.
  It also holds `to_string` on non-negative integers, as a concrete decimal printer with a round-trip lemma.
- `Cells`: how a line is cut into a pivot and feature cells. It states the loop position of every cell (`CellPos`) and the scanning step both loops share (`ScanStep`).
- `Encoding`: what `preprocessor2` returns, as functions of the input table, in row-major order:
  - `TokenList(t, isNum, true)` is `ret[0]`;
  - `TokenList(t, isNum, false)` is `ret[1]`;
  - `Meta(t)` is `ret[2]`.
- `Decoding`: what `postprocessor` returns, as functions of the kept lines and the predictions: `DecodeLines`.
- `Processor`: the class `PrePostProcessor`.
  - Its fields are `obsLines` (`obs_lines`) and `totalLine` (`total_line`).
  - Its methods `Preprocessor2` and `Postprocessor` keep the loops of the source.
  - Each method is proved to compute exactly the functions above.
- `RoundTrip`: the encoder and the decoder together.
  - Prediction k lands in the cell whose placeholder is token k of `ret[1]`.
  - The decoder needs exactly `|ret[1]|` predictions.
  - A line that holds a tab and has only numeric cells comes back unchanged.

Two C++ library calls are parameters of the object, passed to its constructor:

- the `stof` success test is `isNum: string -> bool`, one test shared by both passes;
- `to_string(double)` is `fmt: real -> string`.

The only fact assumed about `isNum` is `!isNum("")`, because `stof` throws on an empty string.
It is assumed only by the lemma about trailing tabs.

## Model

| member | source | states |
|---|---|---|
| `Processor.PrePostProcessor.constructor` | Code/src/src/libfm/src/preprocessor.h:11 | a fresh object holds no line; the numeric test and the formatter are the ones given |
| `Processor.PrePostProcessor.Preprocessor2` | Code/src/src/libfm/src/preprocessor.h:20-95 | `obsLines` is extended by every line of the table, in order, without clearing what it held; `totalLine` becomes the number of lines; the result is exactly three lists: `TokenList` for numeric cells, `TokenList` for placeholders, and `Meta` |
| `Processor.PrePostProcessor.EncodeLine` | Code/src/src/libfm/src/preprocessor.h:45-73 | one pass of the line loop appends the tokens of the line's numeric cells to `vstr` and its placeholders to `nstr`, in cell order with column ids from `total_line` on; `col` ends at the id of the last cell |
| `Processor.PrePostProcessor.BuildMeta` | Code/src/src/libfm/src/preprocessor.h:76-82 | `vmeta` has max(n, col) entries, `"0"` below n and `"1"` from n up to col |
| `Processor.PrePostProcessor.DecodeCell` | Code/src/src/libfm/src/preprocessor.h:212-234 | one cell of the decoder: a numeric cell is appended after a tab as it is; any other cell is appended as the formatted prediction at the running index, which then advances by one |
| `Processor.PrePostProcessor.DecodeLine` | Code/src/src/libfm/src/preprocessor.h:206-234 | a kept line is rebuilt as its pivot followed by its rebuilt cells (`DecodeRow`); the prediction index advances by the line's number of non-numeric cells |
| `Processor.PrePostProcessor.Postprocessor` | Code/src/src/libfm/src/preprocessor.h:190-240 | the result is `obs_lines[0]` unchanged, followed by one rebuilt line per later kept line, in order (`DecodeLines`); sufficient predictions are demanded because `vpred` is indexed unchecked |
| `CppString.SizeAdd` | Code/src/src/libfm/src/preprocessor.h:47 | size_type addition is below 2^64 and exact when it does not overflow |
| `CppString.Find` | Code/src/src/libfm/src/preprocessor.h:45 | `find` gives `npos` or a position at or after the start that holds the character |
| `CppString.Substr` | Code/src/src/libfm/src/preprocessor.h:50 | `substr` gives the characters from pos on, cut at the end of the string |
| `CppString.NatToStringRoundTrip` | Code/src/src/libfm/src/preprocessor.h:53 | reading the decimal digits of `to_string(n)` back gives n |
| `CppString.NatToString` | Code/src/src/libfm/src/preprocessor.h:53 | `to_string` on a non-negative id is a non-empty run of decimal digits, starting with `0` exactly when the id is 0 |
| `CppString.NatToStringInjective` | Code/src/src/libfm/src/preprocessor.h:57 | distinct row or column ids print as distinct strings |
| `Cells.Pivot` | Code/src/src/libfm/src/preprocessor.h:206-208 | the pivot is the longest prefix of the line without a tab: the line up to its first tab, or the whole line when it holds none |
| `Cells.FeatureCells` | Code/src/src/libfm/src/preprocessor.h:45-64 | a line has at least one feature cell, and a line with no tab is its own only cell (npos + 1 wraps to 0) |
| `Cells.FeatureCellsTabFree` | Code/src/src/libfm/src/preprocessor.h:49-50 | no feature cell holds a tab: each cell ends at the next tab the search finds |
| `Cells.FirstTab` | Code/src/src/libfm/src/preprocessor.h:45-47 | the first search plus one, in size_type, is where the feature cells start: after the first tab, or 0 when there is none (npos + 1 wraps); the text before it is the pivot |
| `Cells.ScanStep` | Code/src/src/libfm/src/preprocessor.h:49-64 | from the start of cell c, either a tab is found and `substr` is cell c with the next cell after the tab, or npos is found and `substr` is the last cell |
| `Cells.SegmentAt` | Code/src/src/libfm/src/preprocessor.h:49-62 | segment c starts where c tab-steps lead and ends at the next tab; a later segment exists exactly when that tab does |
| `Cells.SegmentsJoin` | Code/src/src/libfm/src/preprocessor.h:49-64 | splitting on tabs loses nothing: the segments, each after a tab, give back the text |
| `Cells.FeatureCellsCount` | Code/src/src/libfm/src/preprocessor.h:45-50 | a line has as many feature cells as tabs, or one when it holds no tab |
| `Cells.LineJoin` | Code/src/src/libfm/src/preprocessor.h:208-229 | a line with a tab is its pivot followed by its feature cells, each after a tab |
| `Cells.LastCellAfterLastTab` | Code/src/src/libfm/src/preprocessor.h:64 | the text after the last tab is always the last feature cell |
| `Cells.TrailingTabEmptyCell` | Code/src/src/libfm/src/preprocessor.h:64 | a line ending in a tab has an empty last feature cell |
| `Encoding.Tok` | Code/src/src/libfm/src/preprocessor.h:53 | a token begins with the cell's value followed by a space (the row and column ids follow) |
| `Encoding.TokInjective` | Code/src/src/libfm/src/preprocessor.h:57 | a token names its cell unambiguously: equal tokens have the same value, the same row id and the same column id, even when the value holds spaces or digits |
| `Encoding.TokenList` | Code/src/src/libfm/src/preprocessor.h:42-75 | `ret[0]` (numeric) or `ret[1]` (placeholders) has one token per feature cell of that kind over all data lines |
| `Encoding.Meta` | Code/src/src/libfm/src/preprocessor.h:76-82 | `ret[2]` is `["0"]` for a header-only table, otherwise N copies of `"0"` followed by one `"1"` fewer than the last data line has cells, counted from its tabs |
| `Encoding.TableTokensAreRowTokens` | Code/src/src/libfm/src/preprocessor.h:42-75 | the lists built after every data line are the row-major token lists of the whole table |
| `Encoding.LineTokenAt` | Code/src/src/libfm/src/preprocessor.h:49-73 | a cell's token sits among its line's tokens at the number of cells of its kind before it |
| `Encoding.RowTokenAt` | Code/src/src/libfm/src/preprocessor.h:42-75 | a cell's token sits among the tokens of all rows at its row-major index among cells of its kind |
| `Encoding.LocateInLine` | Code/src/src/libfm/src/preprocessor.h:49-73 | every token of a line comes from a cell of its kind, with that many such cells before it |
| `Encoding.LocateInRows` | Code/src/src/libfm/src/preprocessor.h:42-75 | every token of the table comes from a cell of its kind at that row-major index |
| `Encoding.LineTokensCount` | Code/src/src/libfm/src/preprocessor.h:49-73 | a line contributes one token per cell of the kind |
| `Encoding.RowTokensCount` | Code/src/src/libfm/src/preprocessor.h:42-75 | the rows contribute one token per cell of the kind |
| `Encoding.CountInPartition` | Code/src/src/libfm/src/preprocessor.h:51-59 | every cell is numeric or not, never both: the two counts add up to all cells |
| `Encoding.TokenCount` | Code/src/src/libfm/src/preprocessor.h:45-64 | `ret[0]` has one token per numeric cell, `ret[1]` one per other cell, and together they have one per feature cell of the data lines: its number of tabs, or 1 |
| `Encoding.TokenOfCell` | Code/src/src/libfm/src/preprocessor.h:39-75 | feature cell j of data line i has its token at its row-major index among cells of its kind, with value the cell or `"0"`, row id i - 1 and column id N + j, where N is the number of lines |
| `Encoding.CellOfToken` | Code/src/src/libfm/src/preprocessor.h:39-75 | conversely, every token of `ret[0]` or `ret[1]` is the token of one cell of its kind, at that cell's row-major index |
| `Encoding.MetaMissesLastColumn` | Code/src/src/libfm/src/preprocessor.h:62-82 | the token of the last cell of the last data line, in `ret[0]` or `ret[1]`, carries column id `|ret[2]|`, an id the metadata vector has no entry for |
| `Encoding.HeaderOnly` | Code/src/src/libfm/src/preprocessor.h:76-86 | a header-only table gives two empty token lists and `["0"]` |
| `Encoding.TrailingTabPlaceholder` | Code/src/src/libfm/src/preprocessor.h:64-73 | a line ending in a tab puts a placeholder for its empty last cell into `ret[1]` |
| `Decoding.DecodeLines` | Code/src/src/libfm/src/preprocessor.h:205-237 | the decoder rebuilds exactly one line per kept line after the header |
| `Decoding.FillStep` | Code/src/src/libfm/src/preprocessor.h:216 | the rebuilt prefix after c + 1 cells is the one after c cells plus a tab and cell c's value |
| `Decoding.PartialRowIsPrefix` | Code/src/src/libfm/src/preprocessor.h:212-225 | the line built after c cells is the pivot followed by the first c rebuilt cells |
| `Decoding.PartialRowComplete` | Code/src/src/libfm/src/preprocessor.h:226-236 | once the last cell is appended, the line is `DecodeRow` |
| `Decoding.DecodeStep` | Code/src/src/libfm/src/preprocessor.h:213-221 | a numeric cell is appended as it is and uses no prediction; any other cell uses the prediction at the running index, which exists, and advances it by one |
| `Decoding.FillExtra` | Code/src/src/libfm/src/preprocessor.h:219 | a row's rebuilt cells do not depend on predictions beyond those it needs |
| `Decoding.AllNumericCount` | Code/src/src/libfm/src/preprocessor.h:214-216 | a row of numeric cells uses no prediction |
| `Decoding.AllNumericLineUnchanged` | Code/src/src/libfm/src/preprocessor.h:206-236 | a line with a tab and only numeric cells is rebuilt unchanged |
| `Decoding.NoTabLineDoubled` | Code/src/src/libfm/src/preprocessor.h:206-232 | a line with no tab comes back as itself, a tab and itself when numeric, or as itself, a tab and the next prediction |
| `Decoding.MissingPrefix` | Code/src/src/libfm/src/preprocessor.h:199-220 | the predictions used by the first i lines are those of their non-numeric cells |
| `Decoding.CountInSame` | Code/src/src/libfm/src/preprocessor.h:205-220 | the count over the first n rows looks at no later row |
| `Decoding.MissingBound` | Code/src/src/libfm/src/preprocessor.h:219-220 | line i's predictions follow those of the lines before it and stay within the total |
| `Decoding.DecodeLinesAt` | Code/src/src/libfm/src/preprocessor.h:199-234 | rebuilt line i is the pivot and the rebuilt cells of line i, its predictions starting after those the earlier lines used |
| `Decoding.DecodeLinesRow` | Code/src/src/libfm/src/preprocessor.h:205-236 | rebuilt line i, with predictions starting at the running count of non-numeric cells before it |
| `Decoding.DecodeLinesExtra` | Code/src/src/libfm/src/preprocessor.h:219 | extra predictions are ignored |
| `RoundTrip.PlaceholderCount` | Code/src/src/libfm/src/preprocessor.h:56-58 | `ret[1]` has exactly as many tokens as the decoder uses predictions |
| `RoundTrip.DecodedCell` | Code/src/src/libfm/src/preprocessor.h:51-73 | a numeric cell comes back as itself and is its token's value in `ret[0]`; a non-numeric cell whose placeholder is token k of `ret[1]` comes back as prediction k |
| `RoundTrip.PredictionPlacement` | Code/src/src/libfm/src/preprocessor.h:219-220 | prediction k, for every placeholder token k, lands in the non-numeric cell that token names, with the same row and column ids |
| `RoundTrip.AllNumericRoundTrip` | Code/src/src/libfm/src/preprocessor.h:202-236 | a table whose data lines all hold a tab and only numeric cells is rebuilt as it was, whatever the predictions |
| `RoundTrip.AllNumericMissing` | Code/src/src/libfm/src/preprocessor.h:214-216 | such lines need no prediction |
| `RoundTrip.EncodeThenDecode` | Code/src/src/libfm/src/preprocessor.h:20-95 | a fresh object that encodes t and then decodes returns the three token lists and the header followed by `DecodeLines` of the data lines |

## Left out

- `preprocessor(string filepath)` (lines 98-186) is not modelled: it reads a file, and its encoding loop is the one in `preprocessor2`.
- `Code/inst/src/src/libfm/src/test.cpp` is not modelled: it is a standalone driver that reads a fixed file and repeats the same encoding loop.
- The `cout` lines are not modelled. `ret[0][100]` and `ret[1][10]` read out of bounds on small tables, and none of them changes the result.
- `stof` is abstract (`isNum`). Its prefix parse, `inf`/`nan`/hex forms and uncaught `out_of_range` are not modelled.
- `to_string(double)` and its `%f` formatting are abstract (`fmt`). Predictions are `real`, not `double`.
- The `int` width of `row`, `col`, `total_line` and `pred_index` is not modelled; they are unbounded naturals. Only `string::size_type` wrap-around is modelled.
- `Processor.PrePostProcessor.constructor`: `total_line` is left uninitialised, as in the C++ default constructor, so the constructor says nothing about `totalLine`.
- In `postprocessor`, `row` is uninitialised and `col` is dead. Neither affects the result, and they are left out.
- `Processor.PrePostProcessor.Preprocessor2` requires a table with at least the header line; the source reads `data_table[0]` without a check, which is undefined behaviour on an empty table.
- `Processor.PrePostProcessor.Postprocessor` requires at least as many predictions as there are non-numeric cells; the source indexes `vpred` without a check, and a shorter vector is undefined behaviour there. It also requires at least one kept line: the source reads `obs_lines[0]` without a check, which is undefined behaviour when no table was encoded before.
- The body of the line loop of `preprocessor2` is the method `EncodeLine`. The body of the line loop of `postprocessor` is `DecodeLine`, and its cell step is `DecodeCell`. The two meta loops are `BuildMeta`.
  These are the same statements, split into methods, and the duplicated last-cell code calls `DecodeCell` once more after the loop.
