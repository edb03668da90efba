/** The row serialisers `write_vcf_body` (plain text) and `write_vcf_body_gz`
    (gzip) of src/read_vcf3.cpp, and the column-to-matrix copy
    `DataFrame_to_StringMatrix` they use for the genotype frame. Each writer
    is modelled as the sequence of lines it appends; the gzip writer's lines
    are the decompressed text. */
module Writers {
  import opened Values
  import opened Text

  /** A cell of an R character vector: text or NA_STRING. */
  type Cell = Option<string>

  /** The eight fixed columns of the `fix` data frame, as character vectors. */
  datatype FixColumns = FixColumns(
    chrom: seq<Cell>, pos: seq<Cell>, id: seq<Cell>, ref: seq<Cell>,
    alt: seq<Cell>, qual: seq<Cell>, filter: seq<Cell>, info: seq<Cell>)

  /** All fixed columns have the length of CHROM, as in any data frame. */
  predicate Rectangular(fix: FixColumns) {
    var n := |fix.chrom|;
    && |fix.pos| == n && |fix.id| == n && |fix.ref| == n && |fix.alt| == n
    && |fix.qual| == n && |fix.filter| == n && |fix.info| == n
  }

  /** A data frame of at least one column, all columns as long as the
      first. `DataFrame_to_StringMatrix` reads column 0 unconditionally. */
  predicate IsFrame(df: seq<seq<Cell>>) {
    |df| >= 1 && forall c :: 0 <= c < |df| ==> |df[c]| == |df[0]|
  }

  /** A genotype data frame of `n` rows. */
  predicate GenotypeFrame(gt: seq<seq<Cell>>, n: nat) {
    IsFrame(gt) && |gt[0]| == n
  }

  /** `DataFrame_to_StringMatrix`: the columns of a data frame as the rows of
      a matrix, cell (j, c) holding row j of column c. */
  function ToStringMatrix(df: seq<seq<Cell>>): (sm: seq<seq<Cell>>)
    requires IsFrame(df)
    ensures |sm| == |df[0]|
    ensures forall j :: 0 <= j < |sm| ==> |sm[j]| == |df|
    ensures forall j, c :: 0 <= j < |sm| && 0 <= c < |df| ==> sm[j][c] == df[c][j]
  {
    seq(|df[0]|, j requires 0 <= j < |df[0]| =>
      seq(|df|, c requires 0 <= c < |df| => df[c][j]))
  }

  /** Copying a matrix of at least one row back again gives the frame back. */
  lemma TransposeTwice(df: seq<seq<Cell>>)
    requires IsFrame(df) && |df[0]| >= 1
    ensures IsFrame(ToStringMatrix(df))
    ensures ToStringMatrix(ToStringMatrix(df)) == df
  {
    var sm := ToStringMatrix(df);
    var back := ToStringMatrix(sm);
    assert |back| == |df|;
    forall c | 0 <= c < |df|
      ensures back[c] == df[c]
    {
      assert |back[c]| == |df[c]|;
    }
  }

  // ---------------------------------------------------------------------
  // Filtering

  /** Whether the mask drops a row with this FILTER value. The plain writer
      skips PASS rows (`skipOnPass`), the gzip writer skips every other row.
      An NA FILTER prints as "NA", which never equals "PASS". */
  predicate Skipped(filter: Cell, mask: int, skipOnPass: bool) {
    mask == 1 && ((filter == Some("PASS")) == skipOnPass)
  }

  /** The rows a writer emits, in input order. */
  function Kept(filter: seq<Cell>, mask: int, skipOnPass: bool): (ks: seq<nat>)
    ensures forall k :: 0 <= k < |ks| ==> ks[k] < |filter|
    ensures forall a, b :: 0 <= a < b < |ks| ==> ks[a] < ks[b]
    ensures forall i :: 0 <= i < |filter| ==> (i in ks <==> !Skipped(filter[i], mask, skipOnPass))
    decreases |filter|
  {
    if |filter| == 0 then []
    else
      var ks := Kept(filter[..|filter| - 1], mask, skipOnPass);
      if Skipped(filter[|filter| - 1], mask, skipOnPass) then ks else ks + [|filter| - 1]
  }

  /** With the mask set the two writers split the rows between them: every
      row goes to exactly one of them. */
  lemma MaskedWritersComplementary(filter: seq<Cell>, i: nat)
    requires i < |filter|
    ensures i in Kept(filter, 1, true) <==> i !in Kept(filter, 1, false)
  {
  }

  /** With any mask other than 1 both writers emit every row. */
  lemma {:induction false} UnmaskedKeepsAll(filter: seq<Cell>, mask: int, skipOnPass: bool)
    requires mask != 1
    ensures Kept(filter, mask, skipOnPass) == seq(|filter|, i => i)
    decreases |filter|
  {
    if |filter| > 0 {
      UnmaskedKeepsAll(filter[..|filter| - 1], mask, skipOnPass);
    }
  }

  // ---------------------------------------------------------------------
  // Row text as the writers build it

  /** CHROM to FILTER, each followed by a tab: identical in both writers. ID,
      QUAL and FILTER print NA as "."; CHROM, POS, REF and ALT print it as
      "NA". */
  function Lead(fix: FixColumns, i: nat): string
    requires Rectangular(fix) && i < |fix.chrom|
  {
    Suffixed(LeadFields(fix, i))
  }

  function ShownAll(cells: seq<Cell>): (r: seq<string>)
    ensures |r| == |cells| && forall k :: 0 <= k < |cells| ==> r[k] == Shown(cells[k])
  {
    seq(|cells|, k requires 0 <= k < |cells| => Shown(cells[k]))
  }

  /** A row of `write_vcf_body`, as written: an NA INFO is written as ".\t",
      and then the genotype region opens with another tab. */
  function PlainRow(fix: FixColumns, sm: seq<seq<Cell>>, i: nat): string
    requires Rectangular(fix) && i < |fix.chrom| && i < |sm| && |sm[i]| >= 1
  {
    Lead(fix, i)
    + (if fix.info[i] == None then ".\t" else fix.info[i].value)
    + ("\t" + Shown(sm[i][0]) + Tabbed(ShownAll(sm[i][1..])))
    + "\n"
  }

  /** A row of `write_vcf_body_gz`: INFO is not substituted, so NA prints as
      "NA". */
  function GzRow(fix: FixColumns, sm: seq<seq<Cell>>, i: nat): string
    requires Rectangular(fix) && i < |fix.chrom| && i < |sm|
  {
    Lead(fix, i) + (Shown(fix.info[i]) + Tabbed(ShownAll(sm[i]))) + "\n"
  }

  /** A row of the plain writer with the doubled tab removed: NA INFO is
      written as a single ".". */
  function FixedPlainRow(fix: FixColumns, sm: seq<seq<Cell>>, i: nat): string
    requires Rectangular(fix) && i < |fix.chrom| && i < |sm|
  {
    Lead(fix, i) + (Dotted(fix.info[i]) + Tabbed(ShownAll(sm[i]))) + "\n"
  }

  // ---------------------------------------------------------------------
  // Row text as fields

  /** The fields CHROM to FILTER as the writers render them. */
  function LeadFields(fix: FixColumns, i: nat): (f: seq<string>)
    requires Rectangular(fix) && i < |fix.chrom|
    ensures |f| == 7
  {
    [Shown(fix.chrom[i]), Shown(fix.pos[i]), Dotted(fix.id[i]), Shown(fix.ref[i]),
     Shown(fix.alt[i]), Dotted(fix.qual[i]), Dotted(fix.filter[i])]
  }

  /** Row `i` of the genotype frame, rendered. */
  function GtFields(gt: seq<seq<Cell>>, i: nat): (f: seq<string>)
    requires IsFrame(gt) && i < |gt[0]|
    ensures |f| == |gt|
  {
    seq(|gt|, c requires 0 <= c < |gt| => Shown(gt[c][i]))
  }

  /** VCF fields of row `i`: fixed fields with NA INFO as ".", then
      genotypes. */
  function VcfFields(fix: FixColumns, gt: seq<seq<Cell>>, i: nat): (f: seq<string>)
    requires Rectangular(fix) && GenotypeFrame(gt, |fix.chrom|) && i < |fix.chrom|
    ensures |f| == 8 + |gt|
  {
    LeadFields(fix, i) + [Dotted(fix.info[i])] + GtFields(gt, i)
  }

  /** The fields of a plain-writer row: an NA INFO brings an extra empty
      field after the ".". */
  function PlainFields(fix: FixColumns, gt: seq<seq<Cell>>, i: nat): (f: seq<string>)
    requires Rectangular(fix) && GenotypeFrame(gt, |fix.chrom|) && i < |fix.chrom|
    ensures |f| == (if fix.info[i] == None then 9 else 8) + |gt|
  {
    LeadFields(fix, i)
    + (if fix.info[i] == None then [".", ""] else [fix.info[i].value])
    + GtFields(gt, i)
  }

  /** The fields of a gzip-writer row: NA INFO as "NA". */
  function GzFields(fix: FixColumns, gt: seq<seq<Cell>>, i: nat): (f: seq<string>)
    requires Rectangular(fix) && GenotypeFrame(gt, |fix.chrom|) && i < |fix.chrom|
    ensures |f| == 8 + |gt|
  {
    LeadFields(fix, i) + [Shown(fix.info[i])] + GtFields(gt, i)
  }

  lemma LeadIsJoin(fix: FixColumns, i: nat, rest: seq<string>)
    requires Rectangular(fix) && i < |fix.chrom| && |rest| >= 1
    ensures Lead(fix, i) + TabJoin(rest) == TabJoin(LeadFields(fix, i) + rest)
  {
    SuffixedJoin(LeadFields(fix, i), rest);
  }

  lemma GtRowIsShown(gt: seq<seq<Cell>>, i: nat)
    requires IsFrame(gt) && i < |gt[0]|
    ensures ShownAll(ToStringMatrix(gt)[i]) == GtFields(gt, i)
  {
  }

  /** The INFO field and the genotype run of a plain row, as fields. */
  lemma PlainTailIsJoin(info: Cell, cells: seq<string>)
    ensures (if info == None then ".\t" else info.value) + Tabbed(cells)
         == TabJoin((if info == None then [".", ""] else [info.value]) + cells)
  {
    var rest := (if info == None then [".", ""] else [info.value]) + cells;
    if info == None {
      assert rest[1..] == [""] + cells;
      assert Tabbed(rest[1..]) == "\t" + "" + Tabbed(cells);
      Assoc(".", "\t", Tabbed(cells));
    } else {
      assert rest[1..] == cells;
    }
  }

  /** The genotype run of a plain row opens with a tab before cell 0. */
  lemma PlainGtRun(gt: seq<seq<Cell>>, i: nat)
    requires IsFrame(gt) && i < |gt[0]|
    ensures var sm := ToStringMatrix(gt);
      "\t" + Shown(sm[i][0]) + Tabbed(ShownAll(sm[i][1..])) == Tabbed(GtFields(gt, i))
  {
    var sm := ToStringMatrix(gt);
    var cells := GtFields(gt, i);
    GtRowIsShown(gt, i);
    assert ShownAll(sm[i][1..]) == cells[1..];
    assert cells == [cells[0]] + cells[1..];
  }

  lemma PlainRowIsJoin(fix: FixColumns, gt: seq<seq<Cell>>, i: nat)
    requires Rectangular(fix) && GenotypeFrame(gt, |fix.chrom|) && i < |fix.chrom|
    ensures PlainRow(fix, ToStringMatrix(gt), i) == TabJoin(PlainFields(fix, gt, i)) + "\n"
  {
    var sm := ToStringMatrix(gt);
    var cells := GtFields(gt, i);
    PlainGtRun(gt, i);
    var tail := "\t" + Shown(sm[i][0]) + Tabbed(ShownAll(sm[i][1..]));
    var info := if fix.info[i] == None then ".\t" else fix.info[i].value;
    var rest := (if fix.info[i] == None then [".", ""] else [fix.info[i].value]) + cells;
    assert PlainRow(fix, sm, i) == Lead(fix, i) + info + tail + "\n";
    PlainTailIsJoin(fix.info[i], cells);
    Assoc(Lead(fix, i), info, tail);
    LeadIsJoin(fix, i, rest);
    Assoc(LeadFields(fix, i), if fix.info[i] == None then [".", ""] else [fix.info[i].value], cells);
  }

  lemma GzRowIsJoin(fix: FixColumns, gt: seq<seq<Cell>>, i: nat)
    requires Rectangular(fix) && GenotypeFrame(gt, |fix.chrom|) && i < |fix.chrom|
    ensures GzRow(fix, ToStringMatrix(gt), i) == TabJoin(GzFields(fix, gt, i)) + "\n"
  {
    GtRowIsShown(gt, i);
    var rest := [Shown(fix.info[i])] + GtFields(gt, i);
    assert rest[1..] == GtFields(gt, i);
    LeadIsJoin(fix, i, rest);
    assert LeadFields(fix, i) + rest == GzFields(fix, gt, i);
  }

  lemma FixedPlainRowIsJoin(fix: FixColumns, gt: seq<seq<Cell>>, i: nat)
    requires Rectangular(fix) && GenotypeFrame(gt, |fix.chrom|) && i < |fix.chrom|
    ensures FixedPlainRow(fix, ToStringMatrix(gt), i) == TabJoin(VcfFields(fix, gt, i)) + "\n"
  {
    GtRowIsShown(gt, i);
    var rest := [Dotted(fix.info[i])] + GtFields(gt, i);
    assert rest[1..] == GtFields(gt, i);
    LeadIsJoin(fix, i, rest);
    assert LeadFields(fix, i) + rest == VcfFields(fix, gt, i);
  }

  // ---------------------------------------------------------------------
  // The writers

  /** `write_vcf_body`: one line per row the mask keeps, in input order; each
      line is the tab-joined plain fields ended by one newline. */
  function WriteVcfBody(fix: FixColumns, gt: seq<seq<Cell>>, mask: int): (out: seq<string>)
    requires Rectangular(fix) && GenotypeFrame(gt, |fix.chrom|)
    ensures var ks := Kept(fix.filter, mask, true);
      && |out| == |ks|
      && forall k :: 0 <= k < |out| ==> out[k] == TabJoin(PlainFields(fix, gt, ks[k])) + "\n"
  {
    var sm := ToStringMatrix(gt);
    var ks := Kept(fix.filter, mask, true);
    assert forall k :: 0 <= k < |ks| ==>
      PlainRow(fix, sm, ks[k]) == TabJoin(PlainFields(fix, gt, ks[k])) + "\n" by {
      forall k | 0 <= k < |ks| {
        PlainRowIsJoin(fix, gt, ks[k]);
      }
    }
    seq(|ks|, k requires 0 <= k < |ks| => PlainRow(fix, sm, ks[k]))
  }

  /** `write_vcf_body_gz`: one line per row the mask keeps (the opposite
      polarity), each the tab-joined gzip fields ended by one newline. */
  function WriteVcfBodyGz(fix: FixColumns, gt: seq<seq<Cell>>, mask: int): (out: seq<string>)
    requires Rectangular(fix) && GenotypeFrame(gt, |fix.chrom|)
    ensures var ks := Kept(fix.filter, mask, false);
      && |out| == |ks|
      && forall k :: 0 <= k < |out| ==> out[k] == TabJoin(GzFields(fix, gt, ks[k])) + "\n"
  {
    var sm := ToStringMatrix(gt);
    var ks := Kept(fix.filter, mask, false);
    assert forall k :: 0 <= k < |ks| ==>
      GzRow(fix, sm, ks[k]) == TabJoin(GzFields(fix, gt, ks[k])) + "\n" by {
      forall k | 0 <= k < |ks| {
        GzRowIsJoin(fix, gt, ks[k]);
      }
    }
    seq(|ks|, k requires 0 <= k < |ks| => GzRow(fix, sm, ks[k]))
  }

  /** The plain writer with the doubled tab removed: every emitted line is
      the tab-joined VCF fields, 8 plus one per genotype column. */
  function WriteVcfBodyFixed(fix: FixColumns, gt: seq<seq<Cell>>, mask: int): (out: seq<string>)
    requires Rectangular(fix) && GenotypeFrame(gt, |fix.chrom|)
    ensures var ks := Kept(fix.filter, mask, true);
      && |out| == |ks|
      && forall k :: 0 <= k < |out| ==> out[k] == TabJoin(VcfFields(fix, gt, ks[k])) + "\n"
  {
    var sm := ToStringMatrix(gt);
    var ks := Kept(fix.filter, mask, true);
    assert forall k :: 0 <= k < |ks| ==>
      FixedPlainRow(fix, sm, ks[k]) == TabJoin(VcfFields(fix, gt, ks[k])) + "\n" by {
      forall k | 0 <= k < |ks| {
        FixedPlainRowIsJoin(fix, gt, ks[k]);
      }
    }
    seq(|ks|, k requires 0 <= k < |ks| => FixedPlainRow(fix, sm, ks[k]))
  }

  // ---------------------------------------------------------------------
  // Laws of the writers

  /** No cell of the input holds a tab. */
  predicate TabFreeCells(fix: FixColumns, gt: seq<seq<Cell>>) {
    && (forall i :: 0 <= i < |fix.chrom| ==> NoTab(Shown(fix.chrom[i])))
    && (forall i :: 0 <= i < |fix.pos| ==> NoTab(Shown(fix.pos[i])))
    && (forall i :: 0 <= i < |fix.id| ==> NoTab(Shown(fix.id[i])))
    && (forall i :: 0 <= i < |fix.ref| ==> NoTab(Shown(fix.ref[i])))
    && (forall i :: 0 <= i < |fix.alt| ==> NoTab(Shown(fix.alt[i])))
    && (forall i :: 0 <= i < |fix.qual| ==> NoTab(Shown(fix.qual[i])))
    && (forall i :: 0 <= i < |fix.filter| ==> NoTab(Shown(fix.filter[i])))
    && (forall i :: 0 <= i < |fix.info| ==> NoTab(Shown(fix.info[i])))
    && (forall c, i :: 0 <= c < |gt| && 0 <= i < |gt[c]| ==> NoTab(Shown(gt[c][i])))
  }

  /** No cell of the input holds a newline. */
  predicate NewlineFreeCells(fix: FixColumns, gt: seq<seq<Cell>>) {
    && (forall i :: 0 <= i < |fix.chrom| ==> NoNewline(Shown(fix.chrom[i])))
    && (forall i :: 0 <= i < |fix.pos| ==> NoNewline(Shown(fix.pos[i])))
    && (forall i :: 0 <= i < |fix.id| ==> NoNewline(Shown(fix.id[i])))
    && (forall i :: 0 <= i < |fix.ref| ==> NoNewline(Shown(fix.ref[i])))
    && (forall i :: 0 <= i < |fix.alt| ==> NoNewline(Shown(fix.alt[i])))
    && (forall i :: 0 <= i < |fix.qual| ==> NoNewline(Shown(fix.qual[i])))
    && (forall i :: 0 <= i < |fix.filter| ==> NoNewline(Shown(fix.filter[i])))
    && (forall i :: 0 <= i < |fix.info| ==> NoNewline(Shown(fix.info[i])))
    && (forall c, i :: 0 <= c < |gt| && 0 <= i < |gt[c]| ==> NoNewline(Shown(gt[c][i])))
  }

  lemma FieldsNewlineFree(fix: FixColumns, gt: seq<seq<Cell>>, i: nat)
    requires Rectangular(fix) && GenotypeFrame(gt, |fix.chrom|) && i < |fix.chrom|
    requires NewlineFreeCells(fix, gt)
    ensures forall m :: 0 <= m < |PlainFields(fix, gt, i)| ==> NoNewline(PlainFields(fix, gt, i)[m])
    ensures forall m :: 0 <= m < |GzFields(fix, gt, i)| ==> NoNewline(GzFields(fix, gt, i)[m])
  {
    assert NoNewline(".") && NoNewline("") && NoNewline("NA");
    var lf := LeadFields(fix, i);
    assert forall m :: 0 <= m < 7 ==> NoNewline(lf[m]);
    var g := GtFields(gt, i);
    assert forall m :: 0 <= m < |g| ==> NoNewline(g[m]);
  }

  /** Every line the plain writer emits ends in one newline and holds no
      other, when no cell holds one. */
  lemma PlainLinesEndInOneNewline(fix: FixColumns, gt: seq<seq<Cell>>, mask: int)
    requires Rectangular(fix) && GenotypeFrame(gt, |fix.chrom|)
    requires NewlineFreeCells(fix, gt)
    ensures forall k :: 0 <= k < |WriteVcfBody(fix, gt, mask)| ==>
      var line := WriteVcfBody(fix, gt, mask)[k];
      |line| >= 1 && line[|line| - 1] == '\n' && NoNewline(line[..|line| - 1])
  {
    var out := WriteVcfBody(fix, gt, mask);
    var ks := Kept(fix.filter, mask, true);
    forall k | 0 <= k < |out|
      ensures |out[k]| >= 1 && out[k][|out[k]| - 1] == '\n' && NoNewline(out[k][..|out[k]| - 1])
    {
      var f := PlainFields(fix, gt, ks[k]);
      FieldsNewlineFree(fix, gt, ks[k]);
      TabJoinNoNewline(f);
      assert out[k][..|out[k]| - 1] == TabJoin(f);
    }
  }

  /** Every line the gzip writer emits ends in one newline and holds no
      other, when no cell holds one. */
  lemma GzLinesEndInOneNewline(fix: FixColumns, gt: seq<seq<Cell>>, mask: int)
    requires Rectangular(fix) && GenotypeFrame(gt, |fix.chrom|)
    requires NewlineFreeCells(fix, gt)
    ensures forall k :: 0 <= k < |WriteVcfBodyGz(fix, gt, mask)| ==>
      var line := WriteVcfBodyGz(fix, gt, mask)[k];
      |line| >= 1 && line[|line| - 1] == '\n' && NoNewline(line[..|line| - 1])
  {
    var out := WriteVcfBodyGz(fix, gt, mask);
    var ks := Kept(fix.filter, mask, false);
    forall k | 0 <= k < |out|
      ensures |out[k]| >= 1 && out[k][|out[k]| - 1] == '\n' && NoNewline(out[k][..|out[k]| - 1])
    {
      var f := GzFields(fix, gt, ks[k]);
      FieldsNewlineFree(fix, gt, ks[k]);
      TabJoinNoNewline(f);
      assert out[k][..|out[k]| - 1] == TabJoin(f);
    }
  }

  /** ID, QUAL and FILTER print NA as "." in both writers; INFO does only in
      the plain writer. */
  lemma NaWrittenAsDot(fix: FixColumns, gt: seq<seq<Cell>>, i: nat)
    requires Rectangular(fix) && GenotypeFrame(gt, |fix.chrom|) && i < |fix.chrom|
    ensures fix.id[i] == None ==> PlainFields(fix, gt, i)[2] == "." && GzFields(fix, gt, i)[2] == "."
    ensures fix.qual[i] == None ==> PlainFields(fix, gt, i)[5] == "." && GzFields(fix, gt, i)[5] == "."
    ensures fix.filter[i] == None ==> PlainFields(fix, gt, i)[6] == "." && GzFields(fix, gt, i)[6] == "."
    ensures fix.info[i] == None ==> PlainFields(fix, gt, i)[7] == "." && GzFields(fix, gt, i)[7] == "NA"
  {
  }

  lemma FieldsTabFree(fix: FixColumns, gt: seq<seq<Cell>>, i: nat)
    requires Rectangular(fix) && GenotypeFrame(gt, |fix.chrom|) && i < |fix.chrom|
    requires TabFreeCells(fix, gt)
    ensures forall m :: 0 <= m < |PlainFields(fix, gt, i)| ==> NoTab(PlainFields(fix, gt, i)[m])
    ensures forall m :: 0 <= m < |VcfFields(fix, gt, i)| ==> NoTab(VcfFields(fix, gt, i)[m])
  {
    assert NoTab(".") && NoTab("") && NoTab("NA");
    var lf := LeadFields(fix, i);
    assert forall m :: 0 <= m < 7 ==> NoTab(lf[m]);
    var g := GtFields(gt, i);
    assert forall m :: 0 <= m < |g| ==> NoTab(g[m]);
  }

  /** The doubled tab: with tab-free cells a plain-writer line has one tab
      more than its fixed counterpart exactly when INFO is NA. */
  lemma PlainLineTabCount(fix: FixColumns, gt: seq<seq<Cell>>, mask: int, k: nat)
    requires Rectangular(fix) && GenotypeFrame(gt, |fix.chrom|) && TabFreeCells(fix, gt)
    requires k < |WriteVcfBody(fix, gt, mask)|
    ensures var line := WriteVcfBody(fix, gt, mask)[k];
      var i := Kept(fix.filter, mask, true)[k];
      TabCount(line[..|line| - 1]) == (if fix.info[i] == None then 8 else 7) + |gt|
  {
    var i := Kept(fix.filter, mask, true)[k];
    var f := PlainFields(fix, gt, i);
    var line := WriteVcfBody(fix, gt, mask)[k];
    assert line[..|line| - 1] == TabJoin(f);
    FieldsTabFree(fix, gt, i);
    TabJoinTabCount(f);
  }

  /** The corrected writer always emits 7 tabs plus one per genotype column. */
  lemma FixedLineTabCount(fix: FixColumns, gt: seq<seq<Cell>>, mask: int, k: nat)
    requires Rectangular(fix) && GenotypeFrame(gt, |fix.chrom|) && TabFreeCells(fix, gt)
    requires k < |WriteVcfBodyFixed(fix, gt, mask)|
    ensures var line := WriteVcfBodyFixed(fix, gt, mask)[k];
      TabCount(line[..|line| - 1]) == 7 + |gt|
  {
    var i := Kept(fix.filter, mask, true)[k];
    var f := VcfFields(fix, gt, i);
    var line := WriteVcfBodyFixed(fix, gt, mask)[k];
    assert line[..|line| - 1] == TabJoin(f);
    FieldsTabFree(fix, gt, i);
    TabJoinTabCount(f);
  }

  /** The two plain writers agree on every row whose INFO is present. */
  lemma FixedAgreesWhenInfoPresent(fix: FixColumns, gt: seq<seq<Cell>>, mask: int)
    requires Rectangular(fix) && GenotypeFrame(gt, |fix.chrom|)
    requires forall i :: 0 <= i < |fix.info| ==> fix.info[i] != None
    ensures WriteVcfBody(fix, gt, mask) == WriteVcfBodyFixed(fix, gt, mask)
  {
    var a := WriteVcfBody(fix, gt, mask);
    var b := WriteVcfBodyFixed(fix, gt, mask);
    var ks := Kept(fix.filter, mask, true);
    assert |a| == |ks| == |b|;
    forall k | 0 <= k < |ks|
      ensures a[k] == b[k]
    {
      assert fix.info[ks[k]] != None;
      assert PlainFields(fix, gt, ks[k]) == VcfFields(fix, gt, ks[k]);
    }
  }

  /** The example's single row passes an unmasked writer. */
  lemma ExampleKept(filter: seq<Cell>)
    requires filter == [None]
    ensures Kept(filter, 0, true) == [0]
  {
    UnmaskedKeepsAll(filter, 0, true);
  }

  /** The example's fields: the plain writer adds an empty one after the
      NA INFO's ".". */
  lemma ExampleFields(fix: FixColumns, gt: seq<seq<Cell>>)
    requires fix == FixColumns([Some("1")], [Some("100")], [None], [Some("A")],
                               [Some("C")], [None], [None], [None])
    requires gt == [[Some("0|1")]]
    ensures Rectangular(fix) && GenotypeFrame(gt, |fix.chrom|)
    ensures PlainFields(fix, gt, 0) == ["1", "100", ".", "A", "C", ".", ".", ".", "", "0|1"]
    ensures VcfFields(fix, gt, 0) == ["1", "100", ".", "A", "C", ".", ".", ".", "0|1"]
  {
    assert GtFields(gt, 0) == ["0|1"];
    assert LeadFields(fix, 0) == ["1", "100", ".", "A", "C", ".", "."];
  }

  /** When the writers keep exactly row 0, each writes that row's line alone. */
  lemma SingleRowWritten(fix: FixColumns, gt: seq<seq<Cell>>)
    requires Rectangular(fix) && GenotypeFrame(gt, |fix.chrom|)
    requires Kept(fix.filter, 0, true) == [0]
    ensures WriteVcfBody(fix, gt, 0) == [TabJoin(PlainFields(fix, gt, 0)) + "\n"]
    ensures WriteVcfBodyFixed(fix, gt, 0) == [TabJoin(VcfFields(fix, gt, 0)) + "\n"]
  {
    var plain := WriteVcfBody(fix, gt, 0);
    assert plain == [plain[0]];
    var fixed := WriteVcfBodyFixed(fix, gt, 0);
    assert fixed == [fixed[0]];
  }

  /** A concrete row showing the doubled tab: NA INFO and one genotype cell
      give ten fields, one of them empty, where the header announces nine. */
  lemma PlainNaInfoDoubledTab()
    ensures var fix := FixColumns([Some("1")], [Some("100")], [None], [Some("A")],
                                  [Some("C")], [None], [None], [None]);
      var gt := [[Some("0|1")]];
      && WriteVcfBody(fix, gt, 0)
         == [TabJoin(["1", "100", ".", "A", "C", ".", ".", ".", "", "0|1"]) + "\n"]
      && WriteVcfBodyFixed(fix, gt, 0)
         == [TabJoin(["1", "100", ".", "A", "C", ".", ".", ".", "0|1"]) + "\n"]
  {
    var fix := FixColumns([Some("1")], [Some("100")], [None], [Some("A")],
                          [Some("C")], [None], [None], [None]);
    var gt := [[Some("0|1")]];
    ExampleFields(fix, gt);
    ExampleKept(fix.filter);
    SingleRowWritten(fix, gt);
  }
}
