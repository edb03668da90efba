/** The record pass `vcf_body` of src/read_vcf3.cpp: skip the meta lines, keep
    the header for column names, and coerce every following line into a row
    of the fixed columns plus the raw genotype cells. */
module VcfBody {
  import opened Values
  import opened Text
  import opened TabSplit
  import opened FileStats

  /** One row: the eight fixed VCF columns, NA-capable, and the genotype cells
      verbatim. QUAL keeps its text (its conversion by `atof` is not part of
      this model). */
  datatype Record = Record(
    chrom: Option<string>, pos: Option<int>, id: Option<string>, ref: Option<string>,
    alt: Option<string>, qual: Option<string>, filter: Option<string>, info: Option<string>,
    gt: seq<string>)

  /** The data frame `vcf_body` returns: column names and rows. */
  datatype Table = Table(names: seq<string>, rows: seq<Record>)

  /** A fixed text field: "." becomes NA, anything else is kept. */
  function NaString(s: string): (c: Option<string>)
    ensures c == None <==> s == "."
    ensures Dotted(c) == s
  {
    if s == "." then None else Some(s)
  }

  /** POS: "." becomes NA, anything else goes through `atoi`. */
  function NaPos(s: string): (p: Option<int>)
    ensures p == None <==> s == "."
    ensures CanonicalNat(s) ==> p == Some(DigitsValue(s))
  {
    AtoiCanonical(s);
    if s == "." then None else Some(Atoi(s))
  }

  /** The coercion of one split line; fields 8 and up are genotype cells. */
  function Coerce(fields: seq<string>): (r: Record)
    requires |fields| >= 8
    ensures r.gt == fields[8..]
    ensures r.chrom == None <==> fields[0] == "."
    ensures r.pos == None <==> fields[1] == "."
    ensures r.id == None <==> fields[2] == "."
    ensures r.ref == None <==> fields[3] == "."
    ensures r.alt == None <==> fields[4] == "."
    ensures r.qual == None <==> fields[5] == "."
    ensures r.filter == None <==> fields[6] == "."
    ensures r.info == None <==> fields[7] == "."
    ensures Dotted(r.chrom) == fields[0] && Dotted(r.id) == fields[2]
    ensures Dotted(r.ref) == fields[3] && Dotted(r.alt) == fields[4]
    ensures Dotted(r.qual) == fields[5] && Dotted(r.filter) == fields[6]
    ensures Dotted(r.info) == fields[7]
  {
    Record(NaString(fields[0]), NaPos(fields[1]), NaString(fields[2]), NaString(fields[3]),
           NaString(fields[4]), NaString(fields[5]), NaString(fields[6]), NaString(fields[7]),
           fields[8..])
  }

  /** A row the loop never reached: the zero-initialised vectors hold ""
      for text, 0 for POS and the number 0 for QUAL. */
  function Blank(genotypes: nat): Record {
    Record(Some(""), Some(0), Some(""), Some(""), Some(""), Some("0"), Some(""), Some(""),
           seq(genotypes, _ => ""))
  }

  /** The header's split fields with the first character of the first one
      erased (`erase(0, 1)` leaves an empty string empty). */
  function HeaderNames(fields: seq<string>): (names: seq<string>)
    requires |fields| >= 1
    ensures |names| == |fields| && names[1..] == fields[1..]
    ensures |fields[0]| >= 1 ==> fields[0] == [fields[0][0]] + names[0]
    ensures fields[0] == "" ==> names[0] == ""
  {
    if |fields[0]| == 0 then fields else [fields[0][1..]] + fields[1..]
  }

  /** What `vcf_body` needs of the counts and the file: the header line
      exists, at least the eight fixed columns are announced, the lines after
      the header fit in the row vectors, and no line after the meta lines
      splits into more fields than there are columns. */
  predicate BodyReady(lines: seq<string>, st: Stats) {
    && st.meta < |lines|
    && 8 <= st.columns
    && |lines| - st.meta - 1 <= st.variants
    && (forall k :: st.meta <= k < |lines| ==> SepCount(lines[k]) < st.columns)
  }

  /** Row `i` of the table: the coercion of the `i`-th line after the header,
      or a blank row when the file has no such line. */
  function BodyRow(lines: seq<string>, st: Stats, i: nat): (r: Record)
    requires BodyReady(lines, st)
    ensures |r.gt| == st.columns - 8
  {
    if st.meta + 1 + i < |lines| then Coerce(Split(lines[st.meta + 1 + i], st.columns))
    else Blank(st.columns - 8)
  }

  /** `vcf_body` over the lines of the file and the counts of `vcf_stats`:
      one row per announced variant, and the header's names. */
  function ParseBody(lines: seq<string>, st: Stats): (t: Table)
    requires BodyReady(lines, st)
    ensures |t.rows| == st.variants && |t.names| == st.columns
    ensures forall i :: 0 <= i < st.variants ==> t.rows[i] == BodyRow(lines, st, i)
    ensures t.names == HeaderNames(Split(lines[st.meta], st.columns))
  {
    Table(HeaderNames(Split(lines[st.meta], st.columns)),
          seq(st.variants, i requires 0 <= i < st.variants => BodyRow(lines, st, i)))
  }

  /** On a header line the first column name is the first field without its
      leading '#'. */
  lemma HeaderMarkerStripped(header: string, columns: nat)
    requires IsHeader(header) && SepCount(header) < columns
    ensures var fields := Split(header, columns);
      |fields[0]| >= 1 && fields[0] == "#" + HeaderNames(fields)[0]
  {
    var seps := Separators(header);
    var f := Fields(header);
    assert Split(header, columns)[0] == Split(header, columns)[..SepCount(header) + 1][0] == f[0];
    if |seps| == 0 {
      assert f[0] == header;
    } else {
      assert f[0] == header[0..seps[0]];
      assert seps[0] >= 1;
    }
  }
}
