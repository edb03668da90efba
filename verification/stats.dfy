/** The counting pass `vcf_stats` and the meta echo `vcf_meta` of
    src/read_vcf3.cpp, over a file already cut into lines. */
module FileStats {
  import opened Text

  /** The four numbers `vcf_stats` returns: meta lines, the 1-based line of the
      header, variant lines, and columns. */
  datatype Stats = Stats(meta: nat, header: nat, variants: nat, columns: nat)

  /** A line opening with "##". For a one-character line the source compares
      the terminating NUL with '#', which fails, so "#" is not meta. */
  predicate IsMeta(line: string) {
    |line| >= 2 && line[0] == '#' && line[1] == '#'
  }

  /** A line opening with '#' that is not meta. */
  predicate IsHeader(line: string) {
    |line| >= 1 && line[0] == '#' && !IsMeta(line)
  }

  /** Everything else, the empty line included. */
  predicate IsVariant(line: string) {
    !IsMeta(line) && !IsHeader(line)
  }

  /** One turn of the counting loop. A header line records the meta count so
      far plus one and ADDS its column count: the counter is never reset. */
  function Step(st: Stats, line: string): Stats {
    if IsMeta(line) then st.(meta := st.meta + 1)
    else if IsHeader(line) then st.(header := st.meta + 1, columns := st.columns + TabCount(line) + 1)
    else st.(variants := st.variants + 1)
  }

  /** The counts after reading `lines` in order, starting from zeros. */
  function Scan(lines: seq<string>): Stats
    decreases |lines|
  {
    if |lines| == 0 then Stats(0, 0, 0, 0)
    else Step(Scan(lines[..|lines| - 1]), lines[|lines| - 1])
  }

  /** The loop of `vcf_stats`, line by line, with the inner loop that counts
      the header's tabs one character at a time. */
  method VcfStats(lines: seq<string>) returns (st: Stats)
    ensures st == Scan(lines)
  {
    st := Stats(0, 0, 0, 0);
    var i := 0;
    while i < |lines|
      invariant i <= |lines|
      invariant st == Scan(lines[..i])
    {
      var line := lines[i];
      assert lines[..i + 1][..i] == lines[..i];
      if IsMeta(line) {
        st := st.(meta := st.meta + 1);
      } else if IsHeader(line) {
        st := st.(header := st.meta + 1);
        var columns := st.columns;
        var j := 0;
        while j < |line|
          invariant j <= |line|
          invariant columns == st.columns + TabCount(line[..j])
        {
          TabCountAppend(line[..j], [line[j]]);
          assert line[..j + 1] == line[..j] + [line[j]];
          if line[j] == '\t' {
            columns := columns + 1;
          }
          j := j + 1;
        }
        assert line[..j] == line;
        st := st.(columns := columns + 1);
      } else {
        st := st.(variants := st.variants + 1);
      }
      i := i + 1;
    }
    assert lines[..i] == lines;
  }

  /** How many of `lines` satisfy `p`, counted from the front. */
  function Count(lines: seq<string>, p: string -> bool): nat
    decreases |lines|
  {
    if |lines| == 0 then 0 else (if p(lines[0]) then 1 else 0) + Count(lines[1..], p)
  }

  lemma {:induction false} CountSnoc(lines: seq<string>, x: string, p: string -> bool)
    ensures Count(lines + [x], p) == Count(lines, p) + (if p(x) then 1 else 0)
    decreases |lines|
  {
    if |lines| > 0 {
      assert (lines + [x])[1..] == lines[1..] + [x];
      CountSnoc(lines[1..], x, p);
    }
  }

  /** Every line lands in exactly one class: the meta and variant counters
      count their class, and together with the header lines they account for
      every line read. */
  lemma {:induction false} ScanCounts(lines: seq<string>)
    ensures Scan(lines).meta == Count(lines, IsMeta)
    ensures Scan(lines).variants == Count(lines, IsVariant)
    ensures Scan(lines).meta + Count(lines, IsHeader) + Scan(lines).variants == |lines|
    decreases |lines|
  {
    if |lines| > 0 {
      var init := lines[..|lines| - 1];
      var x := lines[|lines| - 1];
      ScanCounts(init);
      assert lines == init + [x];
      CountSnoc(init, x, IsMeta);
      CountSnoc(init, x, IsHeader);
      CountSnoc(init, x, IsVariant);
    }
  }

  predicate NoHeader(lines: seq<string>) {
    forall k :: 0 <= k < |lines| ==> !IsHeader(lines[k])
  }

  /** Lines without a header leave the header slot and the column count
      where they were. */
  lemma {:induction false} ScanNoHeaderTail(pre: seq<string>, tail: seq<string>)
    requires NoHeader(tail)
    ensures Scan(pre + tail).header == Scan(pre).header
    ensures Scan(pre + tail).columns == Scan(pre).columns
    decreases |tail|
  {
    if |tail| > 0 {
      var t := tail[..|tail| - 1];
      assert (pre + tail)[..|pre + tail| - 1] == pre + t;
      ScanNoHeaderTail(pre, t);
    } else {
      assert pre + tail == pre;
    }
  }

  /** Scanning one more line is one more step of the fold. */
  lemma ScanSnoc(pre: seq<string>, x: string)
    ensures Scan(pre + [x]) == Step(Scan(pre), x)
  {
    assert (pre + [x])[..|pre|] == pre;
  }

  /** The lines on either side of the only header line hold no header. */
  lemma AroundHeader(lines: seq<string>, h: nat)
    requires h < |lines|
    requires forall k :: 0 <= k < |lines| && k != h ==> !IsHeader(lines[k])
    ensures NoHeader(lines[..h]) && NoHeader(lines[h + 1..])
    ensures lines[..h] + [lines[h]] + lines[h + 1..] == lines
  {
    var pre := lines[..h];
    var post := lines[h + 1..];
    forall k | 0 <= k < |pre|
      ensures !IsHeader(pre[k])
    {
      assert pre[k] == lines[k];
    }
    forall k | 0 <= k < |post|
      ensures !IsHeader(post[k])
    {
      assert post[k] == lines[h + 1 + k];
    }
  }

  /** With exactly one header line, at index `h`: the header slot is one more
      than the number of meta lines before it, and the column count is one
      more than the number of tabs in it. */
  lemma SingleHeader(lines: seq<string>, h: nat)
    requires h < |lines| && IsHeader(lines[h])
    requires forall k :: 0 <= k < |lines| && k != h ==> !IsHeader(lines[k])
    ensures Scan(lines).header == Count(lines[..h], IsMeta) + 1
    ensures Scan(lines).columns == TabCount(lines[h]) + 1
  {
    var pre := lines[..h];
    var x := lines[h];
    var post := lines[h + 1..];
    AroundHeader(lines, h);
    ScanNoHeaderTail([], pre);
    assert [] + pre == pre;
    ScanCounts(pre);
    ScanSnoc(pre, x);
    ScanNoHeaderTail(pre + [x], post);
  }

  /** The shape of a well-formed file: meta lines, one header line, then
      variant lines. */
  predicate WellFormed(metas: seq<string>, header: string, body: seq<string>) {
    && (forall k :: 0 <= k < |metas| ==> IsMeta(metas[k]))
    && IsHeader(header)
    && (forall k :: 0 <= k < |body| ==> IsVariant(body[k]))
  }

  lemma {:induction false} ScanOfMetas(metas: seq<string>)
    requires forall k :: 0 <= k < |metas| ==> IsMeta(metas[k])
    ensures Scan(metas) == Stats(|metas|, 0, 0, 0)
    decreases |metas|
  {
    if |metas| > 0 {
      ScanOfMetas(metas[..|metas| - 1]);
    }
  }

  lemma {:induction false} ScanOfBody(pre: seq<string>, body: seq<string>)
    requires forall k :: 0 <= k < |body| ==> IsVariant(body[k])
    ensures Scan(pre + body) == Scan(pre).(variants := Scan(pre).variants + |body|)
    decreases |body|
  {
    if |body| > 0 {
      var b := body[..|body| - 1];
      assert (pre + body)[..|pre + body| - 1] == pre + b;
      ScanOfBody(pre, b);
    } else {
      assert pre + body == pre;
    }
  }

  /** On a well-formed file the counting pass reports the meta count, the
      header's 1-based line number, the body length and the header's field
      count. */
  lemma WellFormedStats(metas: seq<string>, header: string, body: seq<string>)
    requires WellFormed(metas, header, body)
    ensures Scan(metas + [header] + body)
         == Stats(|metas|, |metas| + 1, |body|, TabCount(header) + 1)
  {
    ScanOfMetas(metas);
    assert (metas + [header])[..|metas|] == metas;
    ScanOfBody(metas + [header], body);
  }

  /** `vcf_meta`: the first `st.meta` lines, in file order. The source reads
      that many lines whatever they are, so the counts must come from this
      same file. */
  function VcfMeta(lines: seq<string>, st: Stats): (m: seq<string>)
    requires st.meta <= |lines|
    ensures |m| == st.meta
    ensures forall k :: 0 <= k < st.meta ==> m[k] == lines[k]
  {
    lines[..st.meta]
  }

  /** The counting pass never claims more meta lines than the file has. */
  lemma MetaWithinFile(lines: seq<string>)
    ensures Scan(lines).meta <= |lines|
  {
    ScanCounts(lines);
  }

  /** On a well-formed file, `vcf_meta` with the counts of `vcf_stats` returns
      exactly the meta lines. */
  lemma MetaOfWellFormed(metas: seq<string>, header: string, body: seq<string>)
    requires WellFormed(metas, header, body)
    ensures var lines := metas + [header] + body;
      Scan(lines).meta == |metas| && VcfMeta(lines, Scan(lines)) == metas
  {
    WellFormedStats(metas, header, body);
    assert (metas + [header] + body)[..|metas|] == metas;
  }
}
