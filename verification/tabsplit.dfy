/** The fixed-width tab splitter `tabsplit` of src/read_vcf3.cpp.

    The scan starts at index 1, so a tab at index 0 never separates, and after
    a separating tab at position p the scan resumes at p + 2, so a tab at p + 1
    becomes the first character of the next field. The result always has the
    requested number of slots; slots the scan does not reach stay empty. */
module TabSplit {
  import opened Text

  /** Positions from `i` on that the scan treats as separators. */
  function SepsFrom(line: string, i: nat): (s: seq<nat>)
    ensures forall k :: 0 <= k < |s| ==> i <= s[k] < |line| && line[s[k]] == '\t'
    ensures forall a, b :: 0 <= a < b < |s| ==> s[a] + 1 < s[b]
    decreases |line| - i
  {
    if i >= |line| then []
    else if line[i] == '\t' then [i] + SepsFrom(line, i + 2)
    else SepsFrom(line, i + 1)
  }

  /** The scan misses no tab it may cut at: from `i` on, a position is a
      separator exactly when it holds a tab and is either the first position
      scanned or does not directly follow a separator. */
  lemma {:induction false} SepsFromExact(line: string, i: nat)
    ensures forall p :: i <= p < |line| ==>
      (p in SepsFrom(line, i) <==> line[p] == '\t' && (p == i || p - 1 !in SepsFrom(line, i)))
    decreases |line| - i
  {
    if i < |line| {
      var s := SepsFrom(line, i);
      if line[i] == '\t' {
        var t := SepsFrom(line, i + 2);
        SepsFromExact(line, i + 2);
        assert s == [i] + t;
        forall p | i <= p < |line|
          ensures p in s <==> line[p] == '\t' && (p == i || p - 1 !in s)
        {
          if p == i + 1 {
            assert p !in t;
          } else if p > i + 1 {
            assert p in s <==> p in t;
            assert p - 1 in s <==> p - 1 in t;
          }
        }
      } else {
        var t := SepsFrom(line, i + 1);
        SepsFromExact(line, i + 1);
        assert s == t;
        assert i !in t;
      }
    }
  }

  /** The separators of a whole line: the scan begins at index 1. */
  function Separators(line: string): seq<nat> {
    SepsFrom(line, 1)
  }

  function SepCount(line: string): nat {
    |Separators(line)|
  }

  /** `seps` are ascending cut points inside `line[start..]`. */
  predicate CutsOk(line: string, start: nat, seps: seq<nat>) {
    && start <= |line|
    && (forall k :: 0 <= k < |seps| ==> start <= seps[k] < |line|)
    && (forall a, b :: 0 <= a < b < |seps| ==> seps[a] < seps[b])
  }

  /** `line[start..]` cut at each position in `seps`, the cut character
      itself belonging to no piece. */
  function Cut(line: string, start: nat, seps: seq<nat>): (f: seq<string>)
    requires CutsOk(line, start, seps)
    ensures |f| == |seps| + 1
    decreases |seps|
  {
    if |seps| == 0 then [line[start..]]
    else [line[start..seps[0]]] + Cut(line, seps[0] + 1, seps[1..])
  }

  /** The fields the scan produces, before padding. */
  function Fields(line: string): (f: seq<string>)
    ensures |f| == SepCount(line) + 1
  {
    Cut(line, 0, Separators(line))
  }

  /** The vector `tabsplit(line, elements)` returns. The source writes slot
      `SepCount(line)` unconditionally, so more separators than
      `elements - 1` would write past the vector. */
  function Split(line: string, elements: nat): (r: seq<string>)
    requires SepCount(line) < elements
    ensures |r| == elements
    ensures r[..SepCount(line) + 1] == Fields(line)
    ensures forall k :: SepCount(line) < k < elements ==> r[k] == ""
  {
    Fields(line) + seq(elements - SepCount(line) - 1, _ => "")
  }

  /** One separating tab seen by the scan: the piece before it is done and
      the scan goes on after the character that follows it. */
  lemma ScanTab(line: string, start: nat, i: nat, done: seq<string>)
    requires start <= i < |line| && line[i] == '\t'
    ensures SepsFrom(line, i) == [i] + SepsFrom(line, i + 2)
    ensures CutsOk(line, i + 1, SepsFrom(line, i + 2))
    ensures done + Cut(line, start, SepsFrom(line, i))
         == (done + [line[start..i]]) + Cut(line, i + 1, SepsFrom(line, i + 2))
  {
    var seps := SepsFrom(line, i);
    assert seps[1..] == SepsFrom(line, i + 2);
    Assoc(done, [line[start..i]], Cut(line, i + 1, SepsFrom(line, i + 2)));
  }

  /** A character other than a tab leaves the separators ahead unchanged. */
  lemma ScanOther(line: string, i: nat)
    requires i < |line| && line[i] != '\t'
    ensures SepsFrom(line, i) == SepsFrom(line, i + 1)
  {
  }

  /** Where the scan stands before position `i`: slots below `j` hold the
      finished pieces, the piece in progress starts at `start`, and the
      remaining separators cut the rest of the line into the fields still
      due; the slots from `j` on are still empty. */
  predicate ScanState(line: string, elements: nat, r: seq<string>, start: nat, j: nat, i: nat) {
    && start <= i && start <= |line|
    && j + |SepsFrom(line, i)| == SepCount(line)
    && CutsOk(line, start, SepsFrom(line, i))
    && |r| == elements && j <= elements
    && r[..j] + Cut(line, start, SepsFrom(line, i)) == Fields(line)
    && (forall k :: j <= k < elements ==> r[k] == "")
  }

  /** The scan begins with empty slots at index 1. */
  lemma ScanStart(line: string, elements: nat)
    ensures ScanState(line, elements, seq(elements, _ => ""), 0, 0, 1)
  {
    var r := seq(elements, _ => "");
    assert r[..0] == [];
  }

  /** A separating tab at `i` fills slot `j` and resumes the scan at i + 2. */
  lemma ScanTabStep(line: string, elements: nat, r: seq<string>, start: nat, j: nat, i: nat)
    requires SepCount(line) < elements
    requires ScanState(line, elements, r, start, j, i)
    requires i < |line| && line[i] == '\t'
    ensures j < elements
    ensures ScanState(line, elements, r[j := line[start..i]], i + 1, j + 1, i + 2)
  {
    ScanTab(line, start, i, r[..j]);
    var piece := line[start..i];
    var t := r[j := piece];
    assert t[..j + 1] == r[..j] + [piece];
  }

  /** Any other character only moves the scan on. */
  lemma ScanOtherStep(line: string, elements: nat, r: seq<string>, start: nat, j: nat, i: nat)
    requires ScanState(line, elements, r, start, j, i)
    requires i < |line| && line[i] != '\t'
    ensures ScanState(line, elements, r, start, j, i + 1)
  {
    ScanOther(line, i);
  }

  /** Writing the last piece into slot `j` completes the padded split. */
  lemma ScanLast(line: string, elements: nat, r: seq<string>, start: nat, j: nat, i: nat)
    requires SepCount(line) < elements
    requires ScanState(line, elements, r, start, j, i)
    requires i >= |line|
    ensures j < elements
    ensures r[j := line[start..]] == Split(line, elements)
  {
    assert SepsFrom(line, i) == [];
    var t := r[j := line[start..]];
    var s := Split(line, elements);
    assert t[..j + 1] == r[..j] + [line[start..]];
    forall k | 0 <= k < elements
      ensures t[k] == s[k]
    {
      if k <= j {
        assert t[k] == t[..j + 1][k] && s[k] == s[..j + 1][k];
      }
    }
  }

  /** The loop of `tabsplit`, slot by slot. */
  method TabSplitScan(line: string, elements: nat) returns (r: seq<string>)
    requires SepCount(line) < elements
    ensures r == Split(line, elements)
  {
    r := seq(elements, _ => "");
    var start: nat := 0;
    var j: nat := 0;
    var i: nat := 1;
    ScanStart(line, elements);
    while i < |line|
      invariant ScanState(line, elements, r, start, j, i)
      decreases |line| - i
    {
      if line[i] == '\t' {
        ScanTabStep(line, elements, r, start, j, i);
        r := r[j := line[start..i]];
        j := j + 1;
        start := i + 1;
        i := i + 1;
      } else {
        ScanOtherStep(line, elements, r, start, j, i);
      }
      i := i + 1;
    }
    ScanLast(line, elements, r, start, j, i);
    r := r[j := line[start..]];
  }

  // ---------------------------------------------------------------------
  // Laws

  /** A suffix split around the character at `p`. */
  lemma SliceAround(line: string, start: nat, p: nat)
    requires start <= p < |line|
    ensures line[start..] == line[start..p] + ([line[p]] + line[p + 1..])
  {
  }

  /** Joining the pieces with tabs restores the cut text, since every cut
      position holds a tab. */
  lemma {:induction false} CutJoin(line: string, start: nat, seps: seq<nat>)
    requires CutsOk(line, start, seps)
    requires forall k :: 0 <= k < |seps| ==> line[seps[k]] == '\t'
    ensures TabJoin(Cut(line, start, seps)) == line[start..]
    decreases |seps|
  {
    if |seps| > 0 {
      var p := seps[0];
      var rest := Cut(line, p + 1, seps[1..]);
      CutJoin(line, p + 1, seps[1..]);
      TabJoinTabbed(rest);
      var c := Cut(line, start, seps);
      assert c[0] == line[start..p] && c[1..] == rest;
      assert TabJoin(c) == line[start..p] + Tabbed(rest);
      assert [line[p]] == "\t";
      SliceAround(line, start, p);
    }
  }

  /** Round trip: the fields of any line, joined with tabs, give back the
      line, whatever quirks decided where the cuts fall. */
  lemma FieldsJoin(line: string)
    ensures TabJoin(Fields(line)) == line
  {
    CutJoin(line, 0, Separators(line));
  }

  /** With no adjacent tabs, every tab from `i` on is recognised. */
  lemma {:induction false} SepsFromCoversTabs(line: string, i: nat)
    requires NoAdjacentTabs(line)
    requires i <= |line|
    ensures forall p :: i <= p < |line| && line[p] == '\t' ==> p in SepsFrom(line, i)
    ensures |SepsFrom(line, i)| == TabCount(line[i..])
    decreases |line| - i
  {
    if i < |line| {
      if line[i] == '\t' {
        if i + 1 < |line| {
          SepsFromCoversTabs(line, i + 2);
          assert line[i + 1] != '\t';
          assert line[i..][1..] == line[i + 1..];
          assert line[i + 1..][1..] == line[i + 2..];
        } else {
          assert SepsFrom(line, i + 2) == [];
          assert line[i..] == [line[i]];
        }
      } else {
        SepsFromCoversTabs(line, i + 1);
        assert line[i..][1..] == line[i + 1..];
      }
    }
  }

  /** A stretch of the line without tab characters is a tab-free piece. */
  lemma SliceNoTab(line: string, a: nat, b: nat)
    requires a <= b <= |line|
    requires forall q :: a <= q < b ==> line[q] != '\t'
    ensures NoTab(line[a..b])
  {
    forall q | 0 <= q < b - a
      ensures line[a..b][q] != '\t'
    {
      assert line[a..b][q] == line[a + q];
    }
  }

  /** When the cut points cover every tab, none lies before the first cut,
      and the later cut points cover every tab after it. */
  lemma FirstCut(line: string, start: nat, seps: seq<nat>)
    requires CutsOk(line, start, seps) && |seps| > 0
    requires forall p :: start <= p < |line| && line[p] == '\t' ==> p in seps
    ensures forall q :: start <= q < seps[0] ==> line[q] != '\t'
    ensures forall q :: seps[0] + 1 <= q < |line| && line[q] == '\t' ==> q in seps[1..]
  {
    var p := seps[0];
    assert forall k :: 0 <= k < |seps| ==> p <= seps[k] by {
      forall k | 0 < k < |seps|
        ensures p < seps[k]
      {
        assert seps[0] < seps[k];
      }
    }
    forall q | start <= q < p
      ensures line[q] != '\t'
    {
      assert q !in seps;
    }
    forall q | p + 1 <= q < |line| && line[q] == '\t'
      ensures q in seps[1..]
    {
      var k :| 0 <= k < |seps| && seps[k] == q;
      assert k != 0;
      assert seps[1..][k - 1] == q;
    }
  }

  /** A piece between cut points that cover every tab holds no tab. */
  lemma {:induction false} CutNoTab(line: string, start: nat, seps: seq<nat>)
    requires CutsOk(line, start, seps)
    requires forall p :: start <= p < |line| && line[p] == '\t' ==> p in seps
    ensures forall k :: 0 <= k < |seps| + 1 ==> NoTab(Cut(line, start, seps)[k])
    decreases |seps|
  {
    var f := Cut(line, start, seps);
    if |seps| == 0 {
      SliceNoTab(line, start, |line|);
    } else {
      var p := seps[0];
      FirstCut(line, start, seps);
      SliceNoTab(line, start, p);
      CutNoTab(line, p + 1, seps[1..]);
      var rest := Cut(line, p + 1, seps[1..]);
      assert f[1..] == rest;
      forall k | 0 <= k < |seps| + 1
        ensures NoTab(f[k])
      {
        if k > 0 {
          assert f[k] == rest[k - 1];
        }
      }
    }
  }

  /** For a line with no tab at index 0 and no two adjacent tabs, the fields
      are exactly the tab-free pieces: one more than there are tabs, none
      holding a tab, and joined by tabs they give the line back. */
  lemma PlainLineFields(line: string)
    requires |line| > 0 ==> line[0] != '\t'
    requires NoAdjacentTabs(line)
    ensures SepCount(line) == TabCount(line)
    ensures forall k :: 0 <= k < |Fields(line)| ==> NoTab(Fields(line)[k])
    ensures TabJoin(Fields(line)) == line
  {
    if |line| > 0 {
      SepsFromCoversTabs(line, 1);
      assert line[1..] == line[..][1..];
    }
    CutNoTab(line, 0, Separators(line));
    FieldsJoin(line);
  }

  /** The last field runs from just after the last separator (or from the
      start, when there is none) to the end of the line. */
  lemma {:induction false} CutLast(line: string, start: nat, seps: seq<nat>)
    requires CutsOk(line, start, seps)
    ensures Cut(line, start, seps)[|seps|]
         == line[(if |seps| == 0 then start else seps[|seps| - 1] + 1)..]
    decreases |seps|
  {
    if |seps| > 0 {
      CutLast(line, seps[0] + 1, seps[1..]);
    }
  }

  lemma LastField(line: string)
    ensures var seps := Separators(line);
      Fields(line)[|seps|] == line[(if |seps| == 0 then 0 else seps[|seps| - 1] + 1)..]
  {
    CutLast(line, 0, Separators(line));
  }

  /** A tab at index 0 is not a separator: it stays in the first field. */
  lemma LeadingTabKept()
    ensures Fields("\tA\tB") == ["\tA", "B"]
  {
    var line := "\tA\tB";
    assert SepsFrom(line, 4) == [];
    assert SepsFrom(line, 2) == [2];
    assert Separators(line) == [2];
    assert line[0..2] == "\tA" && line[3..] == "B";
  }

  /** Of two adjacent tabs only the first separates; the second opens the
      next field. */
  lemma AdjacentTabAbsorbed()
    ensures Fields("A\t\tB") == ["A", "\tB"]
  {
    var line := "A\t\tB";
    assert SepsFrom(line, 3) == [];
    assert SepsFrom(line, 1) == [1];
    assert line[0..1] == "A" && line[2..] == "\tB";
  }
}
