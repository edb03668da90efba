/** Character-level helpers: tab-joined rows, tab counting, and the decimal
    integer conversions that meet at the POS column (C's `atoi` on the way in,
    R's decimal rendering of an integer on the way out). */
module Text {

  predicate NoTab(s: string) {
    forall k :: 0 <= k < |s| ==> s[k] != '\t'
  }

  predicate NoNewline(s: string) {
    forall k :: 0 <= k < |s| ==> s[k] != '\n'
  }

  /** No two tabs stand next to each other anywhere in `s`. */
  predicate NoAdjacentTabs(s: string) {
    forall k :: 0 <= k < |s| - 1 && s[k] == '\t' ==> s[k + 1] != '\t'
  }

  /** Each cell preceded by a tab, all concatenated: the tail of a row. */
  function Tabbed(cells: seq<string>): string
    decreases |cells|
  {
    if |cells| == 0 then "" else "\t" + cells[0] + Tabbed(cells[1..])
  }

  /** Each cell followed by a tab, all concatenated: the head of a row. */
  function Suffixed(cells: seq<string>): string
    decreases |cells|
  {
    if |cells| == 0 then "" else cells[0] + "\t" + Suffixed(cells[1..])
  }

  /** The cells separated by single tabs. */
  function TabJoin(parts: seq<string>): string {
    if |parts| == 0 then "" else parts[0] + Tabbed(parts[1..])
  }

  /** Number of tab characters in `s`. */
  function TabCount(s: string): nat
    decreases |s|
  {
    if |s| == 0 then 0 else (if s[0] == '\t' then 1 else 0) + TabCount(s[1..])
  }

  lemma {:induction false} TabbedAppend(a: seq<string>, b: seq<string>)
    ensures Tabbed(a + b) == Tabbed(a) + Tabbed(b)
    decreases |a|
  {
    if |a| > 0 {
      assert (a + b)[1..] == a[1..] + b;
      TabbedAppend(a[1..], b);
    } else {
      assert a + b == b;
    }
  }

  /** A tab in front of a non-empty join opens a `Tabbed` run. */
  lemma TabJoinTabbed(parts: seq<string>)
    requires |parts| >= 1
    ensures "\t" + TabJoin(parts) == Tabbed(parts)
  {
    Assoc("\t", parts[0], Tabbed(parts[1..]));
  }

  lemma Assoc<T>(a: seq<T>, b: seq<T>, c: seq<T>)
    ensures a + (b + c) == a + b + c
  {
  }

  /** A head of tab-terminated cells followed by a join is the join of all
      the cells. */
  lemma {:induction false} SuffixedJoin(head: seq<string>, rest: seq<string>)
    requires |rest| >= 1
    ensures Suffixed(head) + TabJoin(rest) == TabJoin(head + rest)
    decreases |head|
  {
    if |head| == 0 {
      assert head + rest == rest;
    } else {
      var t := head[1..] + rest;
      SuffixedJoin(head[1..], rest);
      assert (head + rest)[0] == head[0] && (head + rest)[1..] == t;
      TabJoinTabbed(t);
      calc {
        Suffixed(head) + TabJoin(rest);
        head[0] + "\t" + Suffixed(head[1..]) + TabJoin(rest);
        head[0] + ("\t" + (Suffixed(head[1..]) + TabJoin(rest)));
        head[0] + ("\t" + TabJoin(t));
        head[0] + Tabbed(t);
        TabJoin(head + rest);
      }
    }
  }

  lemma {:induction false} TabCountAppend(a: string, b: string)
    ensures TabCount(a + b) == TabCount(a) + TabCount(b)
    decreases |a|
  {
    if |a| > 0 {
      assert (a + b)[1..] == a[1..] + b;
      TabCountAppend(a[1..], b);
    } else {
      assert a + b == b;
    }
  }

  lemma {:induction false} NoTabCount(s: string)
    requires NoTab(s)
    ensures TabCount(s) == 0
    decreases |s|
  {
    if |s| > 0 {
      NoTabCount(s[1..]);
    }
  }

  /** Joining tab-free cells puts exactly one tab between neighbours. */
  lemma {:induction false} TabbedTabCount(cells: seq<string>)
    requires forall k :: 0 <= k < |cells| ==> NoTab(cells[k])
    ensures TabCount(Tabbed(cells)) == |cells|
    decreases |cells|
  {
    if |cells| > 0 {
      TabbedTabCount(cells[1..]);
      NoTabCount(cells[0]);
      TabCountAppend("\t", cells[0]);
      TabCountAppend("\t" + cells[0], Tabbed(cells[1..]));
    }
  }

  lemma TabJoinTabCount(parts: seq<string>)
    requires |parts| >= 1
    requires forall k :: 0 <= k < |parts| ==> NoTab(parts[k])
    ensures TabCount(TabJoin(parts)) == |parts| - 1
  {
    NoTabCount(parts[0]);
    TabbedTabCount(parts[1..]);
    TabCountAppend(parts[0], Tabbed(parts[1..]));
  }

  lemma {:induction false} TabbedNoNewline(cells: seq<string>)
    requires forall k :: 0 <= k < |cells| ==> NoNewline(cells[k])
    ensures NoNewline(Tabbed(cells))
    decreases |cells|
  {
    if |cells| > 0 {
      TabbedNoNewline(cells[1..]);
      var t := Tabbed(cells[1..]);
      assert Tabbed(cells) == "\t" + cells[0] + t;
      forall k | 0 <= k < |Tabbed(cells)|
        ensures Tabbed(cells)[k] != '\n'
      {
        if k == 0 {
        } else if k < 1 + |cells[0]| {
          assert Tabbed(cells)[k] == cells[0][k - 1];
        } else {
          assert Tabbed(cells)[k] == t[k - 1 - |cells[0]|];
        }
      }
    }
  }

  lemma TabJoinNoNewline(parts: seq<string>)
    requires forall k :: 0 <= k < |parts| ==> NoNewline(parts[k])
    ensures NoNewline(TabJoin(parts))
  {
    if |parts| > 0 {
      TabbedNoNewline(parts[1..]);
      var j := TabJoin(parts);
      forall k | 0 <= k < |j|
        ensures j[k] != '\n'
      {
        if k >= |parts[0]| {
          assert j[k] == Tabbed(parts[1..])[k - |parts[0]|];
        }
      }
    }
  }

  // ---------------------------------------------------------------------
  // Decimal integers

  predicate IsDigit(c: char) {
    '0' <= c <= '9'
  }

  predicate AllDigits(s: string) {
    forall k :: 0 <= k < |s| ==> IsDigit(s[k])
  }

  function DigitChar(d: nat): (c: char)
    requires d < 10
    ensures IsDigit(c)
  {
    ('0' as int + d) as char
  }

  function DigitOf(c: char): (d: nat)
    requires IsDigit(c)
    ensures d < 10
  {
    c as int - '0' as int
  }

  /** Shortest decimal rendering of `n`, as R prints a non-negative integer. */
  function NatToString(n: nat): (s: string)
    ensures |s| >= 1 && AllDigits(s)
    decreases n
  {
    if n < 10 then [DigitChar(n)] else NatToString(n / 10) + [DigitChar(n % 10)]
  }

  /** Decimal rendering of a possibly negative integer. */
  function IntToString(n: int): string {
    if n < 0 then "-" + NatToString(-n) else NatToString(n)
  }

  /** The number a string of decimal digits denotes. */
  function DigitsValue(s: string): nat
    requires AllDigits(s)
    decreases |s|
  {
    if |s| == 0 then 0 else DigitsValue(s[..|s| - 1]) * 10 + DigitOf(s[|s| - 1])
  }

  /** Length of the longest prefix of `s` made of digits. */
  function DigitRun(s: string): (n: nat)
    ensures n <= |s| && AllDigits(s[..n])
    ensures n < |s| ==> !IsDigit(s[n])
    decreases |s|
  {
    if |s| > 0 && IsDigit(s[0]) then 1 + DigitRun(s[1..]) else 0
  }

  /** The characters C's `isspace` accepts in the "C" locale. */
  predicate IsSpace(c: char) {
    c == ' ' || 9 <= c as int <= 13
  }

  function DropSpaces(s: string): (t: string)
    ensures |t| <= |s| && t == s[|s| - |t|..]
    ensures |t| > 0 ==> !IsSpace(t[0])
    decreases |s|
  {
    if |s| > 0 && IsSpace(s[0]) then DropSpaces(s[1..]) else s
  }

  /** Value of the leading digit run; zero when there is none. */
  function LeadingValue(s: string): nat {
    DigitsValue(s[..DigitRun(s)])
  }

  /** C's `atoi`: skip white space, read an optional sign, then as many digits
      as follow. Anything after the digits is ignored, and a string without
      digits gives 0. */
  function Atoi(s: string): int {
    var t := DropSpaces(s);
    if |t| > 0 && t[0] == '-' then -(LeadingValue(t[1..]) as int)
    else if |t| > 0 && t[0] == '+' then LeadingValue(t[1..])
    else LeadingValue(t)
  }

  /** A non-empty digit string without a superfluous leading zero: exactly
      the strings `NatToString` produces. */
  predicate CanonicalNat(s: string) {
    |s| >= 1 && AllDigits(s) && (s[0] == '0' ==> |s| == 1)
  }

  lemma {:induction false} DigitsValueAtLeastFirst(s: string)
    requires |s| >= 1 && AllDigits(s)
    ensures DigitsValue(s) >= DigitOf(s[0])
    decreases |s|
  {
    if |s| > 1 {
      DigitsValueAtLeastFirst(s[..|s| - 1]);
    }
  }

  /** The decimal rendering of a number reads back as that number. */
  lemma {:induction false} DigitsValueOfNatToString(n: nat)
    ensures DigitsValue(NatToString(n)) == n
    decreases n
  {
    if n >= 10 {
      var s := NatToString(n);
      assert s[..|s| - 1] == NatToString(n / 10);
      DigitsValueOfNatToString(n / 10);
    }
  }

  /** A canonical digit string is the rendering of its own value. */
  lemma {:induction false} NatToStringOfDigitsValue(s: string)
    requires CanonicalNat(s)
    ensures NatToString(DigitsValue(s)) == s
    decreases |s|
  {
    var p := s[..|s| - 1];
    var d := DigitOf(s[|s| - 1]);
    if |s| == 1 {
      assert DigitsValue(s) == d;
      assert [DigitChar(d)] == s;
    } else {
      assert CanonicalNat(p);
      DigitsValueAtLeastFirst(p);
      NatToStringOfDigitsValue(p);
      var v := DigitsValue(s);
      assert v == DigitsValue(p) * 10 + d;
      assert v / 10 == DigitsValue(p) && v % 10 == d;
      assert DigitChar(d) == s[|s| - 1];
      assert s == p + [s[|s| - 1]];
    }
  }

  lemma {:induction false} DigitRunOfDigits(s: string)
    requires AllDigits(s)
    ensures DigitRun(s) == |s|
    decreases |s|
  {
    if |s| > 0 {
      DigitRunOfDigits(s[1..]);
    }
  }

  lemma AtoiOfDigits(s: string)
    requires |s| >= 1 && AllDigits(s)
    ensures Atoi(s) == DigitsValue(s)
  {
    assert IsDigit(s[0]);
    assert !IsSpace(s[0]) && s[0] != '-' && s[0] != '+';
    assert DropSpaces(s) == s;
    DigitRunOfDigits(s);
    assert s[..DigitRun(s)] == s;
  }

  lemma AtoiCanonical(s: string)
    ensures CanonicalNat(s) ==> Atoi(s) == DigitsValue(s)
  {
    if CanonicalNat(s) {
      AtoiOfDigits(s);
    }
  }

  /** Only the number 0 renders with a leading zero. */
  lemma {:induction false} NatToStringLeadingZero(n: nat)
    ensures NatToString(n)[0] == '0' ==> n == 0
    decreases n
  {
    if n >= 10 {
      NatToStringLeadingZero(n / 10);
      assert NatToString(n)[0] == NatToString(n / 10)[0];
    }
  }

  /** `atoi` inverts the decimal rendering of a non-negative integer. */
  lemma AtoiOfNatToString(n: nat)
    ensures Atoi(NatToString(n)) == n
    ensures CanonicalNat(NatToString(n))
  {
    AtoiOfDigits(NatToString(n));
    DigitsValueOfNatToString(n);
    NatToStringLeadingZero(n);
  }

  /** The decimal rendering inverts `atoi` on canonical strings. */
  lemma RenderAtoi(s: string)
    requires CanonicalNat(s)
    ensures Atoi(s) >= 0 && IntToString(Atoi(s)) == s
  {
    AtoiOfDigits(s);
    NatToStringOfDigitsValue(s);
  }
}
