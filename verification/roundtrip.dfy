/** Reading a file with `vcf_stats` and `vcf_body` and writing the table back
    with the writers of src/read_vcf3.cpp. The hand-over between them happens
    in R: every fixed column becomes a character vector, POS integers as their
    decimal text, genotype cells as they are. */
module RoundTrip {
  import opened Values
  import opened Text
  import opened TabSplit
  import opened FileStats
  import opened VcfBody
  import opened Writers

  /** POS as R's character conversion gives it to a writer. */
  function PosCell(p: Option<int>): (c: Cell)
    ensures c == None <==> p == None
  {
    match p
    case None => None
    case Some(n) => Some(IntToString(n))
  }

  /** The fixed columns of a table, as the writers' `fix` frame. */
  function FixOf(rows: seq<Record>): (fix: FixColumns)
    ensures Rectangular(fix) && |fix.chrom| == |rows|
    ensures forall i :: 0 <= i < |rows| ==>
      && fix.chrom[i] == rows[i].chrom && fix.pos[i] == PosCell(rows[i].pos)
      && fix.id[i] == rows[i].id && fix.ref[i] == rows[i].ref && fix.alt[i] == rows[i].alt
      && fix.qual[i] == rows[i].qual && fix.filter[i] == rows[i].filter && fix.info[i] == rows[i].info
  {
    FixColumns(
      seq(|rows|, i requires 0 <= i < |rows| => rows[i].chrom),
      seq(|rows|, i requires 0 <= i < |rows| => PosCell(rows[i].pos)),
      seq(|rows|, i requires 0 <= i < |rows| => rows[i].id),
      seq(|rows|, i requires 0 <= i < |rows| => rows[i].ref),
      seq(|rows|, i requires 0 <= i < |rows| => rows[i].alt),
      seq(|rows|, i requires 0 <= i < |rows| => rows[i].qual),
      seq(|rows|, i requires 0 <= i < |rows| => rows[i].filter),
      seq(|rows|, i requires 0 <= i < |rows| => rows[i].info))
  }

  predicate GtWidth(rows: seq<Record>, g: nat) {
    forall i :: 0 <= i < |rows| ==> |rows[i].gt| == g
  }

  /** The genotype cells of a table, as the writers' `gt` frame. */
  function GtOf(rows: seq<Record>, g: nat): (gt: seq<seq<Cell>>)
    requires g >= 1 && GtWidth(rows, g)
    ensures GenotypeFrame(gt, |rows|) && |gt| == g
    ensures forall c, i :: 0 <= c < g && 0 <= i < |rows| ==> gt[c][i] == Some(rows[i].gt[c])
  {
    seq(g, c requires 0 <= c < g =>
      seq(|rows|, i requires 0 <= i < |rows| => Some(rows[i].gt[c])))
  }

  /** A data line that survives the trip: no tab at index 0, no two adjacent
      tabs, exactly `columns` fields, CHROM, REF and ALT present and POS a
      plain decimal number. */
  predicate CleanRecord(line: string, columns: nat) {
    && IsVariant(line)
    && (|line| > 0 ==> line[0] != '\t')
    && NoAdjacentTabs(line)
    && SepCount(line) + 1 == columns
    && columns >= 8
    && Fields(line)[0] != "." && Fields(line)[3] != "." && Fields(line)[4] != "."
    && CanonicalNat(Fields(line)[1])
  }

  /** The scan never recognises more separators than there are tabs. */
  lemma {:induction false} SepsFromAtMostTabs(line: string, i: nat)
    requires i <= |line|
    ensures |SepsFrom(line, i)| <= TabCount(line[i..])
    decreases |line| - i
  {
    if i < |line| {
      assert line[i..][1..] == line[i + 1..];
      if line[i] == '\t' && i + 1 < |line| {
        SepsFromAtMostTabs(line, i + 2);
        assert line[i + 1..][1..] == line[i + 2..];
      } else if line[i] != '\t' {
        SepsFromAtMostTabs(line, i + 1);
      }
    }
  }

  lemma SepCountAtMostTabs(line: string)
    ensures SepCount(line) <= TabCount(line)
  {
    if |line| > 0 {
      SepsFromAtMostTabs(line, 1);
      assert line[1..] == line[..][1..];
    }
  }

  /** The eight fixed fields the corrected writer renders for one record. */
  function RecordHead(r: Record): seq<string> {
    [Shown(r.chrom), Shown(PosCell(r.pos)), Dotted(r.id), Shown(r.ref), Shown(r.alt),
     Dotted(r.qual), Dotted(r.filter), Dotted(r.info)]
  }

  /** All the fields the corrected writer renders for one record. */
  function RecordFields(r: Record): seq<string> {
    RecordHead(r) + r.gt
  }

  lemma SplitOfClean(line: string, columns: nat)
    requires CleanRecord(line, columns)
    ensures Split(line, columns) == Fields(line)
  {
    var s := Split(line, columns);
    assert s[..SepCount(line) + 1] == Fields(line);
  }

  /** A canonical POS numeral survives `atoi` and decimal rendering. */
  lemma PosRenders(s: string)
    requires CanonicalNat(s)
    ensures Shown(PosCell(NaPos(s))) == s
  {
    assert IsDigit(s[0]);
    RenderAtoi(s);
    AtoiCanonical(s);
  }

  /** A present text cell shows as it is dotted. */
  lemma ShownPresent(c: Option<string>, s: string)
    requires Dotted(c) == s && s != "."
    ensures Shown(c) == s
  {
  }

  /** A record whose cells dot back to `f`, with CHROM, REF and ALT present,
      renders its head as the first eight fields of `f`. */
  lemma HeadOfDotted(r: Record, f: seq<string>)
    requires |f| >= 8 && f[0] != "." && f[3] != "." && f[4] != "."
    requires Dotted(r.chrom) == f[0] && Shown(PosCell(r.pos)) == f[1] && Dotted(r.id) == f[2]
    requires Dotted(r.ref) == f[3] && Dotted(r.alt) == f[4] && Dotted(r.qual) == f[5]
    requires Dotted(r.filter) == f[6] && Dotted(r.info) == f[7]
    ensures RecordHead(r) == f[..8]
  {
    ShownPresent(r.chrom, f[0]);
    ShownPresent(r.ref, f[3]);
    ShownPresent(r.alt, f[4]);
    assert RecordHead(r) == [f[0], f[1], f[2], f[3], f[4], f[5], f[6], f[7]];
    assert f[..8] == [f[0], f[1], f[2], f[3], f[4], f[5], f[6], f[7]];
  }

  /** The first eight fields of a clean line survive coercion and
      rendering. */
  lemma CoerceHead(f: seq<string>)
    requires |f| >= 8 && f[0] != "." && f[3] != "." && f[4] != "." && CanonicalNat(f[1])
    ensures RecordHead(Coerce(f)) == f[..8]
  {
    var r := Coerce(f);
    PosRenders(f[1]);
    assert r.pos == NaPos(f[1]);
    HeadOfDotted(r, f);
  }

  /** Coercing the fields of a clean line and rendering them again gives the
      same fields. */
  lemma CoerceRenders(f: seq<string>)
    requires |f| >= 8 && f[0] != "." && f[3] != "." && f[4] != "." && CanonicalNat(f[1])
    ensures RecordFields(Coerce(f)) == f
  {
    CoerceHead(f);
    assert Coerce(f).gt == f[8..];
    assert f == f[..8] + f[8..];
  }

  /** Row `i` of the writers' frames, rendered, is the record's own fields. */
  lemma FramesRenderRecord(rows: seq<Record>, g: nat, i: nat)
    requires g >= 1 && GtWidth(rows, g) && i < |rows|
    ensures VcfFields(FixOf(rows), GtOf(rows, g), i) == RecordFields(rows[i])
    ensures rows[i].info != None ==> GzFields(FixOf(rows), GtOf(rows, g), i) == RecordFields(rows[i])
    ensures rows[i].info != None ==> PlainFields(FixOf(rows), GtOf(rows, g), i) == RecordFields(rows[i])
  {
    var fix := FixOf(rows);
    var gt := GtOf(rows, g);
    var v := VcfFields(fix, gt, i);
    var w := RecordFields(rows[i]);
    assert |v| == |w|;
    forall m | 0 <= m < |v|
      ensures v[m] == w[m]
    {
      if m >= 8 {
        assert v[m] == GtFields(gt, i)[m - 8] == Shown(gt[m - 8][i]);
      }
    }
    if rows[i].info != None {
      assert GzFields(fix, gt, i) == v;
      assert PlainFields(fix, gt, i) == v;
    }
  }

  /** One clean line, coerced and rendered by the corrected writer, gives its
      own text back; so do the other two writers when INFO is present. */
  lemma RenderedCleanRow(rows: seq<Record>, g: nat, i: nat, line: string)
    requires g >= 1 && GtWidth(rows, g) && i < |rows|
    requires CleanRecord(line, 8 + g)
    requires rows[i] == Coerce(Split(line, 8 + g))
    ensures TabJoin(VcfFields(FixOf(rows), GtOf(rows, g), i)) == line
    ensures rows[i].info != None ==> TabJoin(GzFields(FixOf(rows), GtOf(rows, g), i)) == line
    ensures rows[i].info != None ==> TabJoin(PlainFields(FixOf(rows), GtOf(rows, g), i)) == line
  {
    SplitOfClean(line, 8 + g);
    CoerceRenders(Fields(line));
    FramesRenderRecord(rows, g, i);
    PlainLineFields(line);
  }

  /** A well-formed file whose data lines are clean and whose header
      announces `8 + g` columns. */
  predicate CleanFile(metas: seq<string>, header: string, body: seq<string>, g: nat) {
    && WellFormed(metas, header, body)
    && g >= 1
    && TabCount(header) == 7 + g
    && (forall k :: 0 <= k < |body| ==> CleanRecord(body[k], 8 + g))
  }

  /** The counts of a clean file satisfy everything `vcf_body` needs. */
  lemma CleanFileReady(metas: seq<string>, header: string, body: seq<string>, g: nat)
    requires CleanFile(metas, header, body, g)
    ensures var lines := metas + [header] + body;
      && Scan(lines) == Stats(|metas|, |metas| + 1, |body|, 8 + g)
      && BodyReady(lines, Scan(lines))
  {
    var lines := metas + [header] + body;
    WellFormedStats(metas, header, body);
    SepCountAtMostTabs(header);
    assert lines[|metas|] == header;
    forall k | |metas| < k < |lines|
      ensures SepCount(lines[k]) < 8 + g
    {
      assert lines[k] == body[k - |metas| - 1];
    }
  }

  /** A row whose line exists is the coercion of that line. */
  lemma ParsedRow(lines: seq<string>, st: Stats, k: nat)
    requires BodyReady(lines, st) && k < st.variants && st.meta + 1 + k < |lines|
    ensures ParseBody(lines, st).rows[k] == Coerce(Split(lines[st.meta + 1 + k], st.columns))
  {
    assert ParseBody(lines, st).rows[k] == BodyRow(lines, st, k);
  }

  /** When the lines after the header are exactly the announced variants,
      every row is the coercion of its line. */
  lemma ParsedRows(lines: seq<string>, st: Stats, body: seq<string>)
    requires BodyReady(lines, st) && st.variants == |body|
    requires lines[st.meta + 1..] == body
    ensures forall k :: 0 <= k < |body| ==>
      ParseBody(lines, st).rows[k] == Coerce(Split(body[k], st.columns))
  {
    forall k | 0 <= k < |body|
      ensures ParseBody(lines, st).rows[k] == Coerce(Split(body[k], st.columns))
    {
      assert lines[st.meta + 1 + k] == body[k];
      ParsedRow(lines, st, k);
    }
  }

  /** The table of a clean file has one row per data line, each the coercion
      of that line. */
  lemma CleanFileParses(metas: seq<string>, header: string, body: seq<string>, g: nat)
    requires CleanFile(metas, header, body, g)
    ensures var lines := metas + [header] + body;
      && BodyReady(lines, Scan(lines))
      && |ParseBody(lines, Scan(lines)).rows| == |body|
      && GtWidth(ParseBody(lines, Scan(lines)).rows, g)
      && forall k :: 0 <= k < |body| ==>
           ParseBody(lines, Scan(lines)).rows[k] == Coerce(Split(body[k], 8 + g))
  {
    var lines := metas + [header] + body;
    CleanFileReady(metas, header, body, g);
    var st := Scan(lines);
    assert lines[st.meta + 1..] == body;
    ParsedRows(lines, st, body);
  }

  /** Each line followed by its newline. */
  function Terminated(body: seq<string>): (out: seq<string>)
    ensures |out| == |body|
    ensures forall k :: 0 <= k < |body| ==> out[k] == body[k] + "\n"
  {
    seq(|body|, k requires 0 <= k < |body| => body[k] + "\n")
  }

  /** The rows read from clean lines, written back by the corrected writer,
      give the lines. */
  lemma TableRoundTrip(rows: seq<Record>, body: seq<string>, g: nat)
    requires g >= 1 && GtWidth(rows, g) && |rows| == |body|
    requires forall k :: 0 <= k < |body| ==>
      CleanRecord(body[k], 8 + g) && rows[k] == Coerce(Split(body[k], 8 + g))
    ensures WriteVcfBodyFixed(FixOf(rows), GtOf(rows, g), 0) == Terminated(body)
  {
    var fix := FixOf(rows);
    var out := WriteVcfBodyFixed(fix, GtOf(rows, g), 0);
    UnmaskedKeepsAll(fix.filter, 0, true);
    forall k | 0 <= k < |body|
      ensures out[k] == body[k] + "\n"
    {
      RenderedCleanRow(rows, g, k, body[k]);
    }
  }

  /** No row has INFO missing. */
  predicate InfoKept(rows: seq<Record>) {
    forall k :: 0 <= k < |rows| ==> rows[k].info != None
  }

  /** The same for the plain writer as written, when no row lacks INFO. */
  lemma TablePlainRoundTrip(rows: seq<Record>, body: seq<string>, g: nat)
    requires g >= 1 && GtWidth(rows, g) && |rows| == |body| && InfoKept(rows)
    requires forall k :: 0 <= k < |body| ==>
      CleanRecord(body[k], 8 + g) && rows[k] == Coerce(Split(body[k], 8 + g))
    ensures WriteVcfBody(FixOf(rows), GtOf(rows, g), 0) == Terminated(body)
  {
    var fix := FixOf(rows);
    var out := WriteVcfBody(fix, GtOf(rows, g), 0);
    UnmaskedKeepsAll(fix.filter, 0, true);
    forall k | 0 <= k < |body|
      ensures out[k] == body[k] + "\n"
    {
      RenderedCleanRow(rows, g, k, body[k]);
    }
  }

  /** The same for the gzip writer, when no row lacks INFO. */
  lemma TableGzRoundTrip(rows: seq<Record>, body: seq<string>, g: nat)
    requires g >= 1 && GtWidth(rows, g) && |rows| == |body| && InfoKept(rows)
    requires forall k :: 0 <= k < |body| ==>
      CleanRecord(body[k], 8 + g) && rows[k] == Coerce(Split(body[k], 8 + g))
    ensures WriteVcfBodyGz(FixOf(rows), GtOf(rows, g), 0) == Terminated(body)
  {
    var fix := FixOf(rows);
    var out := WriteVcfBodyGz(fix, GtOf(rows, g), 0);
    UnmaskedKeepsAll(fix.filter, 0, false);
    forall k | 0 <= k < |body|
      ensures out[k] == body[k] + "\n"
    {
      RenderedCleanRow(rows, g, k, body[k]);
    }
  }

  /** Round trip: reading a clean file and writing its table back with the
      corrected plain writer and no mask reproduces every data line, in
      order, each ended by a newline. */
  lemma FileRoundTrip(metas: seq<string>, header: string, body: seq<string>, g: nat)
    requires CleanFile(metas, header, body, g)
    ensures var lines := metas + [header] + body;
      && BodyReady(lines, Scan(lines))
      && var rows := ParseBody(lines, Scan(lines)).rows;
      && GtWidth(rows, g)
      && WriteVcfBodyFixed(FixOf(rows), GtOf(rows, g), 0) == Terminated(body)
  {
    CleanFileParses(metas, header, body, g);
    var lines := metas + [header] + body;
    TableRoundTrip(ParseBody(lines, Scan(lines)).rows, body, g);
  }

  /** No data line has "." as its INFO field. */
  predicate InfoPresent(body: seq<string>) {
    forall k :: 0 <= k < |body| ==> SepCount(body[k]) >= 7 && Fields(body[k])[7] != "."
  }

  /** When no INFO field is ".", the plain writer as written and the gzip
      writer also reproduce every data line. */
  lemma FileRoundTripInfoPresent(metas: seq<string>, header: string, body: seq<string>, g: nat)
    requires CleanFile(metas, header, body, g) && InfoPresent(body)
    ensures var lines := metas + [header] + body;
      && BodyReady(lines, Scan(lines))
      && var rows := ParseBody(lines, Scan(lines)).rows;
      && GtWidth(rows, g)
      && WriteVcfBody(FixOf(rows), GtOf(rows, g), 0) == Terminated(body)
      && WriteVcfBodyGz(FixOf(rows), GtOf(rows, g), 0) == Terminated(body)
  {
    CleanFileParses(metas, header, body, g);
    var lines := metas + [header] + body;
    var rows := ParseBody(lines, Scan(lines)).rows;
    forall k | 0 <= k < |rows|
      ensures rows[k].info != None
    {
      SplitOfClean(body[k], 8 + g);
      assert Dotted(rows[k].info) == Fields(body[k])[7];
    }
    TablePlainRoundTrip(rows, body, g);
    TableGzRoundTrip(rows, body, g);
  }

  /** The NA law across the trip: a "." in ID, QUAL, FILTER or INFO is read
      as NA and written back as "." by the corrected writer. */
  lemma DotSurvives(fields: seq<string>, g: nat)
    requires g >= 1 && |fields| == 8 + g
    ensures var r := Coerce(fields);
      var out := VcfFields(FixOf([r]), GtOf([r], g), 0);
      && (fields[2] == "." ==> r.id == None && out[2] == ".")
      && (fields[5] == "." ==> r.qual == None && out[5] == ".")
      && (fields[6] == "." ==> r.filter == None && out[6] == ".")
      && (fields[7] == "." ==> r.info == None && out[7] == ".")
  {
  }
}
