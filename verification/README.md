# vcfR text core in Dafny

This project models the C++ core of vcfR, the R package that reads and writes
Variant Call Format (VCF) files. VCF is a tab-separated text format with
three kinds of line:

- meta lines start with `##`;
- one header line starts with a single `#` and names the columns;
- every other line is one variant. It has eight fixed fields (CHROM, POS,
  ID, REF, ALT, QUAL, FILTER, INFO) followed by one genotype field per
  sample.

The model covers these pieces:

- **`tabsplit`**: the fixed-width tab splitter, quirks included.
  - The scan starts at index 1.
  - After a separating tab, the next character is skipped.
  - Unused slots stay empty.
- **`vcf_stats`**: the counting pass over the file's lines.
- **`vcf_meta`**: the echo of the meta lines.
- **`vcf_body`**: the record coercion ("." becomes NA, POS goes through C's
  `atoi`) and the header naming.
- **`DataFrame_to_StringMatrix`**: the column-to-matrix copy.
- **The two body writers**:
  - `write_vcf_body` (plain text);
  - `write_vcf_body_gz` (gzip, modelled as the decompressed text).
- **`rank_variants`**: its window-number cursor.

Files are modelled as sequences of lines and columns as sequences of
`Option` cells, where `None` is R's NA. Rcpp's bounds-checked vector access
becomes a `Failure` result.

Modules:

- `Values` (values.dfy): `Option`, `Result`, and how an NA string prints.
  Rcpp streams NA_STRING as the two letters `NA`, and VCF writes NA as `.`.
- `Text` (text.dfy): tab joins, tab counts, C's `atoi` and decimal rendering.
- `TabSplit` (tabsplit.dfy): `tabsplit`.
- `FileStats` (stats.dfy): `vcf_stats` and `vcf_meta`.
- `VcfBody` (body.dfy): `vcf_body`.
- `Writers` (writer.dfy):
  - `DataFrame_to_StringMatrix`;
  - both writers as written;
  - a corrected plain writer (see Findings).
- `RoundTrip` (roundtrip.dfy): reading a file and writing its table back.
- `Windows` (windows.dfy): the window assignment of `rank_variants`.

Some behaviours of the code are easy to misread. The model follows the code:

- **POS**: a POS that is not a number is not an error. `atoi` turns it into
  its leading digits, or 0.
- **Fewer lines than counted**: a file with fewer data lines than counted
  leaves default rows (`VcfBody.BodyRow`). The source writes those rows with
  the empty string, POS 0 and QUAL 0.
- **NA in the writers**: NA is not written as "." everywhere.
  - CHROM, POS, REF and ALT are streamed unchanged, so an NA there prints as
    `NA`.
  - The gzip writer also prints an NA INFO as `NA`.
  - The plain writer writes an NA INFO as "." followed by two tabs.
- **Window assignment**: the window cursor fails whenever Rcpp's checked
  access fails. That happens with no scores, fewer positions than scores, no
  windows, or a position past the windows the cursor can still reach.
- **Fewer scores than variants**: only the first `|score|` variants are
  numbered. `DataFrame::create` then sets those numbers beside all the
  variant rows. R's `data.frame` repeats the numbers when their count
  divides the number of rows, and stops with an error otherwise.
- **Ranking**: `rank_variants` computes no ranking at all.

## Model

| member | source | states |
|---|---|---|
| TabSplit.Split | src/read_vcf3.cpp:181-207 | the result has exactly `elements` slots: the scanned fields first, then empty strings; it needs fewer separators than slots |
| TabSplit.SepsFrom | src/read_vcf3.cpp:187-197 | the positions the scan cuts at are tabs inside the line, and any two of them are at least two characters apart, since a tab right after a cut is skipped |
| TabSplit.SepsFromExact | src/read_vcf3.cpp:187-197 | the scan misses no tab: from its first position on, a position is a cut exactly when it holds a tab and is the first position scanned or does not directly follow a cut |
| TabSplit.TabSplitScan | src/read_vcf3.cpp:178-208 | the slot-by-slot loop with its `i = i+1` skip yields exactly the fields of `Split`, padding included |
| TabSplit.FieldsJoin | src/read_vcf3.cpp:187-203 | for every line, joining the scanned fields with single tabs gives back the whole line |
| TabSplit.PlainLineFields | src/read_vcf3.cpp:187-203 | a line with no tab at index 0 and no two adjacent tabs has one field more than it has tabs; no field holds a tab; the join gives the line back |
| TabSplit.LastField | src/read_vcf3.cpp:200-203 | the last field is the suffix after the last recognised separator, or the whole line when there is none |
| TabSplit.LeadingTabKept | src/read_vcf3.cpp:187-189 | a tab at index 0 is not a separator: "\tA\tB" splits into "\tA" and "B" |
| TabSplit.AdjacentTabAbsorbed | src/read_vcf3.cpp:189-196 | of two adjacent tabs only the first separates: "A\t\tB" splits into "A" and "\tB" |
| FileStats.VcfStats | src/read_vcf3.cpp:105-126 | the line loop, with its inner tab-counting loop, computes the same four numbers as the fold `Scan` |
| FileStats.ScanCounts | src/read_vcf3.cpp:105-121 | the meta counter counts the `##` lines and the variant counter the remaining non-header lines, the empty line included; meta + header lines + variants is the number of lines read |
| FileStats.SingleHeader | src/read_vcf3.cpp:109-117 | with exactly one header line, `header` is one more than the meta lines before it and `columns` is one more than its tab count |
| FileStats.WellFormedStats | src/read_vcf3.cpp:105-126 | on meta lines, one header, then data lines, the four counts are the meta count, the header's 1-based line, the data line count and the header's field count |
| FileStats.MetaWithinFile | src/read_vcf3.cpp:107-108 | the meta count never exceeds the number of lines |
| FileStats.VcfMeta | src/read_vcf3.cpp:141-168 | `vcf_meta` returns `stats[0]` lines: the first ones of the file, in order |
| FileStats.MetaOfWellFormed | src/read_vcf3.cpp:141-168 | with the counts of the same well-formed file, `vcf_meta` returns exactly its meta lines |
| Text.AtoiCanonical | src/read_vcf3.cpp:271 | `atoi` reads a plain decimal numeral as its value |
| Text.AtoiOfNatToString | src/read_vcf3.cpp:271 | `atoi` inverts the decimal rendering of every non-negative integer |
| Text.RenderAtoi | src/read_vcf3.cpp:271 | the decimal rendering inverts `atoi` on every canonical numeral |
| VcfBody.NaString | src/read_vcf3.cpp:263-302 | a text field is NA exactly when it is "."; writing NA back as "." restores the field |
| VcfBody.NaPos | src/read_vcf3.cpp:268-272 | POS is NA exactly when the field is "."; a canonical numeral becomes its value |
| VcfBody.Coerce | src/read_vcf3.cpp:259-307 | each fixed field becomes NA exactly when it is "." and keeps its text otherwise; the genotype cells are fields 8 onwards, unchanged |
| VcfBody.ParseBody | src/read_vcf3.cpp:221-333 | one row per counted variant, each the coercion of the matching line after the header, or a default row; the names are the header's split fields with the first one's marker erased |
| VcfBody.HeaderMarkerStripped | src/read_vcf3.cpp:331-333 | on a header line the first name is the first field without its leading `#` |
| Writers.ToStringMatrix | src/read_vcf3.cpp:379-394 | `DataFrame_to_StringMatrix`: cell (j, c) of the matrix is row j of column c; the matrix has a row per frame row and a column per frame column |
| Writers.TransposeTwice | src/read_vcf3.cpp:386-391 | copying the matrix back gives the frame back |
| Writers.Kept | src/read_vcf3.cpp:428-432 | the rows a writer emits, ascending and each at most once; a row is emitted exactly when the mask does not skip it |
| Writers.MaskedWritersComplementary | src/read_vcf3.cpp:514 | with mask 1 every row goes to exactly one of the two writers: the plain one drops PASS rows, the gzip one all others |
| Writers.UnmaskedKeepsAll | src/read_vcf3.cpp:428-432 | with any mask other than 1 every row is emitted, in input order |
| Writers.WriteVcfBody | src/read_vcf3.cpp:428-479 | one line per kept row, in order: the row's fields as the plain writer prints them, tab-joined, then a newline |
| Writers.WriteVcfBodyGz | src/read_vcf3.cpp:512-550 | one line per kept row, in order: the row's fields as the gzip writer prints them, tab-joined, then a newline |
| Writers.WriteVcfBodyFixed | src/read_vcf3.cpp:462-470 | the plain writer with the INFO branch corrected: NA INFO prints as a single "." field |
| Writers.PlainLinesEndInOneNewline | src/read_vcf3.cpp:477 | when no cell holds a newline, every plain line ends in one newline and holds no other |
| Writers.GzLinesEndInOneNewline | src/read_vcf3.cpp:547-549 | when no cell holds a newline, every gzip line ends in one newline and holds no other |
| Writers.NaWrittenAsDot | src/read_vcf3.cpp:437-470 | NA in ID, QUAL and FILTER prints as "." in both writers; NA INFO prints as "." in the plain writer and as "NA" in the gzip writer |
| Writers.PlainLineTabCount | src/read_vcf3.cpp:462-470 | with tab-free cells a plain line has 8 + genotype-columns tabs when INFO is NA and 7 + genotype-columns otherwise |
| Writers.FixedLineTabCount | src/read_vcf3.cpp:462-470 | the corrected writer always emits 7 + genotype-columns tabs |
| Writers.FixedAgreesWhenInfoPresent | src/read_vcf3.cpp:462-470 | when no INFO cell is NA the plain writer and the corrected one emit the same lines |
| Writers.PlainNaInfoDoubledTab | src/read_vcf3.cpp:462-470 | a one-row table with NA INFO and one genotype cell: the plain writer emits an empty field before the genotype, the corrected one does not |
| RoundTrip.CoerceRenders | src/read_vcf3.cpp:263-302 | coercing the fields of a line whose CHROM, REF and ALT are not "." and whose POS is canonical, then rendering the record, gives the fields back |
| RoundTrip.CleanFileReady | src/read_vcf3.cpp:221-261 | a clean file's counts meet everything `vcf_body` needs |
| RoundTrip.CleanFileParses | src/read_vcf3.cpp:259-307 | a clean file's table has one row per data line, the coercion of that line |
| RoundTrip.FileRoundTrip | src/read_vcf3.cpp:259-307 | reading a clean file and writing the table back with the corrected writer and no mask reproduces every data line, in order, with QUAL kept as its text and POS not overflowing |
| RoundTrip.FileRoundTripInfoPresent | src/read_vcf3.cpp:428-550 | when no INFO field is ".", the plain writer as written and the gzip writer reproduce every data line too, with QUAL kept as its text and POS not overflowing |
| RoundTrip.TableRoundTrip | src/read_vcf3.cpp:428-479 | rows coerced from clean lines, written with the corrected writer, give back the lines, with QUAL kept as its text and POS not overflowing |
| RoundTrip.TablePlainRoundTrip | src/read_vcf3.cpp:428-479 | rows coerced from clean lines with no "." INFO, written with the plain writer as written and no mask, give back the lines, with QUAL kept as its text and POS not overflowing |
| RoundTrip.TableGzRoundTrip | src/read_vcf3.cpp:512-550 | rows coerced from clean lines with no "." INFO, written with the gzip writer and no mask, give back the lines, with QUAL kept as its text and POS not overflowing |
| RoundTrip.SplitOfClean | src/read_vcf3.cpp:181-207 | a line with no tab at index 0, no adjacent tabs and exactly `columns - 1` tabs splits into exactly its tab-separated fields, with no padding |
| RoundTrip.DotSurvives | src/read_vcf3.cpp:273-302 | "." in ID, QUAL, FILTER or INFO is read as NA and written back as "." |
| Windows.AdvanceCursor | src/rank_variants.cpp:48 | the inner loop stops at the first window from the cursor whose end reaches the position; it runs off the end exactly when every remaining end is below the position |
| Windows.NumberWindows | src/rank_variants.cpp:23-55 | on success one window number per score, obeying the cursor law; success whenever there are scores, at least as many positions, windows, and no position past the last end; with ascending ends success needs exactly that |
| Windows.RankVariants | src/rank_variants.cpp:23-63 | on success the column has one number per variant row: the cursor-law numbers of the scored variants, repeated with the score count as period, which divides the row count; when the cursor succeeds but the score count does not divide the row count the call fails with differing rows |
| Windows.RecycleShape | src/rank_variants.cpp:63 | a column recycled to the frame's row count starts with the column itself and repeats with its length as period |
| Windows.CursorMonotone | src/rank_variants.cpp:27-49 | window numbers never decrease along the rows |
| Windows.CursorLawUnique | src/rank_variants.cpp:32-49 | the cursor law fixes the numbering: two numberings of equal length that obey it are equal |
| Windows.AscendingPositionsFirstFit | src/rank_variants.cpp:32-49 | with non-decreasing positions every row lies in the first window, counted from 0, whose end reaches it: the ends of all earlier windows are below its position |
| Windows.AscendingWindowCount | src/rank_variants.cpp:32-49 | with both vectors ascending a row's window number counts the window ends below its position |
| Windows.ThreeWindows | src/rank_variants.cpp:32-49 | ends 100, 200, 300 and positions 10, 50, 150, 250, 280 give windows 0, 0, 1, 2, 2 and no other numbering |
| Windows.CursorNeverReturns | src/rank_variants.cpp:37-49 | the cursor never moves back: positions 250 then 10 both get window 2 |

## Left out

- File and zlib I/O are not modelled. This covers opening, append mode,
  `getline`, `gzopen` and `gzwrite`. A file is a sequence of lines, and a
  writer's output is the sequence of lines it appends.
- `vcf_stats_gz`, `read_to_line` and `ram_test` are not modelled. They are
  debug or plumbing code with no logic of their own.
- Progress printing and `Rcpp::checkUserInterrupt` are left out. They are
  host side effects.
- The debug print loop after the window loop in `rank_variants` is left out.
- Ranking by score in `rank_variants` is not modelled. The source declares
  `win_rank` but never computes or returns it. `score` only sets how many
  rows are numbered.
- The column lookups `variants["POS"]`, `variants["mask"]` and `fix[...]`
  are not modelled. Positions and columns are passed in directly, and the
  unused mask column is not passed at all.
- Numeric vectors are modelled as integers.
  - POS, window ends and the four counts are R doubles in the source.
  - Fractional and NaN values are not modelled.
- VcfBody.Coerce: QUAL is kept as its text. It is not converted with `atof`,
  because floating point is not modelled. R later turns the number back into
  text for the writers.
- VcfBody.NaPos: `atoi` overflow is not modelled. The value `-2147483648`
  would coincide with R's NA_INTEGER, and that collision is not modelled
  either.
- RoundTrip.PosCell: R's conversion of the integer POS column to text for
  the writers is modelled as decimal rendering. That conversion happens in R
  code, which is not part of this model.
- VcfBody.ParseBody requires the counts to come from the same file.
  - The meta count must be below the number of lines.
  - Every line from the header on must have fewer separators than
    `columns`.
  - There must be no more data lines than `variants`.
  - Otherwise the source writes past its vectors, which is undefined
    behaviour.
  - It also requires `columns` to be at least 8. With fewer, the source asks
    for a genotype matrix of negative width (src/read_vcf3.cpp:231) and reads
    field 7 past the end of the split vector. Neither outcome is modelled.
- FileStats.VcfMeta requires the meta count to be at most the number of
  lines. Past the end of the file, `getline` fills every later slot with
  "" when the file ends in a newline, and repeats the last line when it
  does not. Whether the file ends in a newline is not modelled.
- Writers.WriteVcfBody requires all columns of the fix frame to share one
  length. So do Writers.WriteVcfBodyGz and Writers.ToStringMatrix for the
  genotype frame.
  - It also requires at least one genotype column. `DataFrame_to_StringMatrix`
    reads column 0 unconditionally.
  - R data frames always meet both requirements.
  - It also requires the genotype frame to have exactly one row per row of
    the fix frame. So do Writers.WriteVcfBodyGz and Writers.WriteVcfBodyFixed.
    Two separate frames need not agree. With fewer genotype rows, the
    writer reads `gt_cm(i, 0)` past the matrix's rows once it reaches a
    missing row. Extra genotype rows are ignored. Neither case is modelled.
- RoundTrip.FileRoundTrip and the other round-trip lemmas (FileRoundTripInfoPresent,
  TableRoundTrip, TablePlainRoundTrip, TableGzRoundTrip) hold for the model,
  where QUAL is kept as its text and `atoi` does not overflow. In the
  program, QUAL goes through `atof` and back through R, so `50.0` returns as
  `50` and a non-numeric QUAL as `0`. A POS beyond C's `int` range
  overflows `atoi`. The round trip is not promised for such lines.
- Windows.RankVariants: the recycling step follows the documented rule of
  R's `data.frame`. R's own code is not part of this model. The other
  columns of `variants` are not modelled.
- Windows.NumberWindows and Windows.RankVariants: `Ascending` is used only to state the converse of
  success. With unsorted ends, a numbering can succeed while a position
  exceeds the last end, because the cursor stops at an earlier, larger end.

## Findings

| source | as written | input that shows it | evidently intended | confidence | as-written member | corrected member |
|---|---|---|---|---|---|---|
| src/read_vcf3.cpp:462-470 | when INFO is NA the plain writer emits "." and a tab, then the tab that opens the genotype region, leaving an empty extra field | CHROM 1, POS 100, REF A, ALT C, everything else NA, one genotype cell `0\|1`: the line is `1\t100\t.\tA\tC\t.\t.\t.\t\t0\|1` | a single "." field for INFO, as for ID, QUAL and FILTER, so every line has as many fields as the header | not executed | Writers.PlainNaInfoDoubledTab | Writers.WriteVcfBodyFixed |
