/** The dashboard's `formatNumber`: `x.toString()`, then the first `.` becomes
    `,`, then `/\B(?=(\d{3})+(?!\d))/g` puts a `.` before every group of three
    digits that ends a digit run. The regex is modelled position by position;
    `Grouped` is an independent, group-by-group description of the intended
    output, and the lemmas connect the two. */
module NumberFormat {

  import opened Decimal

  // ---------------------------------------------------------------------------
  // The first replace: a string pattern replaces the first occurrence only.

  function ReplaceFirst(s: string, target: char, replacement: char): (r: string)
    ensures |r| == |s|
    ensures forall i :: 0 <= i < |s| ==>
      r[i] == (if s[i] == target && FirstAt(s, target, i) then replacement else s[i])
  {
    if s == [] then []
    else if s[0] == target then [replacement] + s[1..]
    else [s[0]] + ReplaceFirst(s[1..], target, replacement)
  }

  /** No occurrence of `c` comes before position `i`. */
  predicate FirstAt(s: string, c: char, i: nat)
    requires i <= |s|
  {
    forall j :: 0 <= j < i ==> s[j] != c
  }

  lemma {:induction false} ReplaceFirstAbsent(s: string, target: char, replacement: char)
    requires target !in s
    ensures ReplaceFirst(s, target, replacement) == s
    decreases |s|
  {
    if s != [] {
      assert s[0] in s && target !in s[1..];
      ReplaceFirstAbsent(s[1..], target, replacement);
      assert [s[0]] + s[1..] == s;
    }
  }

  lemma {:induction false} ReplaceFirstAt(a: string, target: char, b: string, replacement: char)
    requires target !in a
    ensures ReplaceFirst(a + [target] + b, target, replacement) == a + [replacement] + b
    decreases |a|
  {
    var s := a + [target] + b;
    if a == [] {
      assert s == [target] + b;
    } else {
      var a' := a[1..];
      assert target !in a' by {
        assert forall c :: c in a' ==> c in a;
      }
      calc {
        ReplaceFirst(s, target, replacement);
        == { assert s[0] == a[0] && a[0] in a; }
        [a[0]] + ReplaceFirst(s[1..], target, replacement);
        == { assert s[1..] == a' + [target] + b; }
        [a[0]] + ReplaceFirst(a' + [target] + b, target, replacement);
        == { ReplaceFirstAt(a', target, b, replacement); }
        [a[0]] + (a' + [replacement] + b);
        == { assert [a[0]] + a' == a; }
        a + [replacement] + b;
      }
    }
  }

  // ---------------------------------------------------------------------------
  // The global regex /\B(?=(\d{3})+(?!\d))/g, position by position.

  /** `\w` in a JavaScript regex without the `u` flag. */
  predicate IsWordChar(c: char) {
    IsDigit(c) || 'a' <= c <= 'z' || 'A' <= c <= 'Z' || c == '_'
  }

  /** `\B` at position `p`: the characters on both sides are alike in being
      word characters (outside the string counts as a non-word character). */
  predicate NotWordBoundary(s: string, p: nat)
    requires p <= |s|
  {
    (p > 0 && IsWordChar(s[p - 1])) == (p < |s| && IsWordChar(s[p]))
  }

  /** Number of consecutive digits starting at `p`. */
  function RunLength(s: string, p: nat): (n: nat)
    requires p <= |s|
    ensures p + n <= |s|
    ensures forall i :: p <= i < p + n ==> IsDigit(s[i])
    ensures p + n == |s| || !IsDigit(s[p + n])
    decreases |s| - p
  {
    if p < |s| && IsDigit(s[p]) then 1 + RunLength(s, p + 1) else 0
  }

  /** `(?=(\d{3})+(?!\d))` at `p`: the digits from `p` on come in whole threes. */
  predicate GroupsAhead(s: string, p: nat)
    requires p <= |s|
  {
    var n := RunLength(s, p);
    n > 0 && n % 3 == 0
  }

  /** The regex matches (an empty match) at `p`. */
  predicate SeparatorAt(s: string, p: nat)
    requires p <= |s|
  {
    NotWordBoundary(s, p) && GroupsAhead(s, p)
  }

  /** `k` groups of three digits start at `p`, followed by a non-digit or the end. */
  predicate GroupsOf(s: string, p: nat, k: nat) {
    && 1 <= k && p + 3 * k <= |s| && AllDigits(s[p..p + 3 * k])
    && (p + 3 * k == |s| || !IsDigit(s[p + 3 * k]))
  }

  /** The lookahead in its own words: some k >= 1 groups of three digits,
      followed by a non-digit or the end of the string. */
  lemma GroupsAheadMeaning(s: string, p: nat)
    requires p <= |s|
    ensures GroupsAhead(s, p) <==> exists k: nat :: GroupsOf(s, p, k)
  {
    if GroupsAhead(s, p) {
      GroupsAheadWitness(s, p);
    }
    forall k: nat | GroupsOf(s, p, k) ensures GroupsAhead(s, p) {
      SliceDigits(s, p, p + 3 * k);
      RunLengthInRun(s, p, p + 3 * k);
    }
  }

  lemma GroupsAheadWitness(s: string, p: nat)
    requires p <= |s| && GroupsAhead(s, p)
    ensures GroupsOf(s, p, RunLength(s, p) / 3)
  {
    var n := RunLength(s, p);
    assert 3 * (n / 3) == n;
    var t := s[p..p + n];
    forall i | 0 <= i < |t| ensures IsDigit(t[i]) {
      assert t[i] == s[p + i];
    }
  }

  lemma SliceDigits(s: string, i: nat, q: nat)
    requires i <= q <= |s| && AllDigits(s[i..q])
    ensures forall j :: i <= j < q ==> IsDigit(s[j])
  {
    forall j | i <= j < q ensures IsDigit(s[j]) {
      assert s[j] == s[i..q][j - i];
    }
  }

  /** Where the global regex matches, decided on the whole string before
      anything is inserted (a position at the very end never matches: the
      lookahead needs a digit). */
  function MatchPositions(s: string): (m: seq<bool>)
    ensures |m| == |s|
    ensures forall p :: 0 <= p < |s| ==> m[p] == SeparatorAt(s, p)
  {
    seq(|s|, p requires 0 <= p < |s| => SeparatorAt(s, p))
  }

  /** The replacement from position `p` on: a `.` goes in before every match. */
  function InsertAt(s: string, m: seq<bool>, p: nat): string
    requires |m| == |s| && p <= |s|
    decreases |s| - p
  {
    if p == |s| then []
    else (if m[p] then ['.'] else []) + [s[p]] + InsertAt(s, m, p + 1)
  }

  /** `s.replace(/\B(?=(\d{3})+(?!\d))/g, ".")`, from position `p` on. */
  function GroupDigitsFrom(s: string, p: nat): string
    requires p <= |s|
  {
    InsertAt(s, MatchPositions(s), p)
  }

  /** `formatNumber`, applied to the text `x.toString()` produces. */
  function FormatNumber(text: string): string {
    GroupDigitsFrom(ReplaceFirst(text, '.', ','), 0)
  }

  // ---------------------------------------------------------------------------
  // The intended output, group by group.

  /** Length of the leading group of an n-digit run: 1 to 3, the rest whole threes. */
  function LeadLength(n: nat): (k: nat)
    ensures k <= n && (n - k) % 3 == 0
    ensures n > 0 ==> 1 <= k <= 3
  {
    if n == 0 then 0 else (n - 1) % 3 + 1
  }

  /** `.ddd` for each group of three. */
  function Thousands(t: string): string
    requires |t| % 3 == 0
    decreases |t|
  {
    if t == [] then [] else ['.'] + t[..3] + Thousands(t[3..])
  }

  /** A digit run with thousands separators: a leading group of 1-3 digits,
      then `.` before every further group of three. */
  function Grouped(d: string): string {
    var k := LeadLength(|d|);
    d[..k] + Thousands(d[k..])
  }

  // ---------------------------------------------------------------------------
  // The regex produces Grouped on every digit run that follows a non-word character.

  lemma {:induction false} RunLengthInRun(s: string, i: nat, q: nat)
    requires i <= q <= |s|
    requires forall j :: i <= j < q ==> IsDigit(s[j])
    requires q == |s| || !IsDigit(s[q])
    ensures RunLength(s, i) == q - i
    decreases q - i
  {
    if i < q {
      RunLengthInRun(s, i + 1, q);
    }
  }

  /** A maximal digit run s[p..q] that follows a non-word character (or starts the string). */
  predicate IsRun(s: string, p: nat, q: nat) {
    && p <= q <= |s|
    && (forall j :: p <= j < q ==> IsDigit(s[j]))
    && (q == |s| || !IsDigit(s[q]))
    && (p == 0 || !IsWordChar(s[p - 1]))
  }

  /** Inside such a run the regex matches exactly where the rest of the run is
      a multiple of three long, except at the run's first digit (a word boundary). */
  lemma SeparatorInRun(s: string, p: nat, q: nat, i: nat)
    requires IsRun(s, p, q) && p <= i < q
    ensures SeparatorAt(s, i) <==> i > p && (q - i) % 3 == 0
  {
    RunLengthInRun(s, i, q);
    if i > p {
      assert IsWordChar(s[i - 1]);
    }
  }

  /** The match positions of a run, as one quantified fact. */
  predicate RunMarks(m: seq<bool>, p: nat, q: nat)
    requires p <= q <= |m|
  {
    forall i :: p <= i < q ==> (m[i] <==> i > p && (q - i) % 3 == 0)
  }

  lemma MarksOfRun(s: string, p: nat, q: nat)
    requires IsRun(s, p, q)
    ensures RunMarks(MatchPositions(s), p, q)
  {
    forall i | p <= i < q ensures MatchPositions(s)[i] <==> i > p && (q - i) % 3 == 0 {
      SeparatorInRun(s, p, q, i);
    }
  }

  lemma ModThreeOffset(m: nat, r: nat)
    requires m % 3 == 0 && 1 <= r <= 2
    ensures (m + r) % 3 != 0
  {
  }

  lemma ThousandsOfSlice(s: string, j: nat, q: nat)
    requires j + 3 <= q <= |s| && (q - j) % 3 == 0
    ensures Thousands(s[j..q]) == ['.'] + s[j..j + 3] + Thousands(s[j + 3..q])
  {
    var t := s[j..q];
    assert t[..3] == s[j..j + 3];
    assert t[3..] == s[j + 3..q];
  }

  lemma Reassociate<T>(a: seq<T>, b: seq<T>, c: seq<T>)
    ensures a + (b + c) == (a + b) + c
  {
  }

  lemma ThreeSteps(s: string, m: seq<bool>, j: nat)
    requires |m| == |s| && j + 3 <= |s|
    requires m[j] && !m[j + 1] && !m[j + 2]
    ensures InsertAt(s, m, j) == ['.'] + s[j..j + 3] + InsertAt(s, m, j + 3)
  {
    var rest := InsertAt(s, m, j + 3);
    assert InsertAt(s, m, j + 1) == [s[j + 1]] + ([s[j + 2]] + rest);
    assert s[j..j + 3] == [s[j], s[j + 1], s[j + 2]];
  }

  /** Inside a run the separators fall where the remaining length is a multiple of three. */
  lemma {:induction false} ThousandsInRun(s: string, m: seq<bool>, p: nat, q: nat, j: nat)
    requires |m| == |s| && p < j <= q <= |s|
    requires RunMarks(m, p, q)
    requires (q - j) % 3 == 0
    ensures InsertAt(s, m, j) == Thousands(s[j..q]) + InsertAt(s, m, q)
    decreases q - j
  {
    if j < q {
      var group, tail := ['.'] + s[j..j + 3], InsertAt(s, m, q);
      GroupMarks(m, p, q, j);
      calc {
        InsertAt(s, m, j);
        == { ThreeSteps(s, m, j); }
        group + InsertAt(s, m, j + 3);
        == { ThousandsInRun(s, m, p, q, j + 3); }
        group + (Thousands(s[j + 3..q]) + tail);
        == { Reassociate(group, Thousands(s[j + 3..q]), tail); }
        (group + Thousands(s[j + 3..q])) + tail;
        == { ThousandsOfSlice(s, j, q); }
        Thousands(s[j..q]) + tail;
      }
    }
  }

  /** A group of three inside a run: a match before its first digit only. */
  lemma GroupMarks(m: seq<bool>, p: nat, q: nat, j: nat)
    requires p < j < q <= |m| && (q - j) % 3 == 0
    requires RunMarks(m, p, q)
    ensures j + 3 <= q && (q - (j + 3)) % 3 == 0
    ensures m[j] && !m[j + 1] && !m[j + 2]
  {
    ModThreeOffset(q - j - 3, 1);
    ModThreeOffset(q - j - 3, 2);
  }

  /** The leading group gets no separator: not at its start (a word boundary),
      and not inside it (the rest of the run is not a multiple of three). */
  lemma {:induction false} LeadInRun(s: string, m: seq<bool>, p: nat, q: nat, i: nat)
    requires |m| == |s| && p <= q <= |s| && p <= i <= p + LeadLength(q - p)
    requires RunMarks(m, p, q)
    ensures InsertAt(s, m, p) == s[p..i] + InsertAt(s, m, i)
    decreases i - p
  {
    if i > p {
      LeadInRun(s, m, p, q, i - 1);
      var k := LeadLength(q - p);
      if i - 1 > p {
        ModThreeOffset(q - p - k, k - (i - 1 - p));
      }
      assert !m[i - 1];
      assert s[p..i] == s[p..i - 1] + [s[i - 1]];
    }
  }

  /** A run whose match positions are those of a digit run comes out as Grouped. */
  lemma RunGrouped(s: string, m: seq<bool>, p: nat, q: nat)
    requires |m| == |s| && p <= q <= |s|
    requires RunMarks(m, p, q)
    ensures InsertAt(s, m, p) == Grouped(s[p..q]) + InsertAt(s, m, q)
  {
    var k := LeadLength(q - p);
    LeadInRun(s, m, p, q, p + k);
    RunRest(s, m, p, q, k);
    GroupedSlice(s, p, q);
    Chain(InsertAt(s, m, p), s[p..p + k], InsertAt(s, m, p + k),
          Thousands(s[p + k..q]), InsertAt(s, m, q), Grouped(s[p..q]));
  }

  /** x = lead + after, after = rest + tail and g = lead + rest give x = g + tail. */
  lemma Chain(x: string, lead: string, after: string, rest: string, tail: string, g: string)
    requires x == lead + after && after == rest + tail && g == lead + rest
    ensures x == g + tail
  {
    Reassociate(lead, rest, tail);
  }

  /** After the leading group, a run comes out as its groups of three. */
  lemma RunRest(s: string, m: seq<bool>, p: nat, q: nat, k: nat)
    requires |m| == |s| && p <= q <= |s| && k == LeadLength(q - p)
    requires RunMarks(m, p, q)
    ensures InsertAt(s, m, p + k) == Thousands(s[p + k..q]) + InsertAt(s, m, q)
  {
    if k > 0 {
      var n := q - p;
      assert (n - k) % 3 == 0 && q - (p + k) == n - k;
      ThousandsInRun(s, m, p, q, p + k);
    } else {
      assert s[p + k..q] == [];
    }
  }

  lemma GroupedSlice(s: string, p: nat, q: nat)
    requires p <= q <= |s|
    ensures var k := LeadLength(q - p);
      Grouped(s[p..q]) == s[p..p + k] + Thousands(s[p + k..q])
  {
    var k := LeadLength(q - p);
    var d := s[p..q];
    assert d[..k] == s[p..p + k];
    assert d[k..] == s[p + k..q];
  }

  /** A whole digit run comes out as Grouped. */
  lemma DigitRun(s: string, p: nat, q: nat)
    requires IsRun(s, p, q)
    ensures GroupDigitsFrom(s, p) == Grouped(s[p..q]) + GroupDigitsFrom(s, q)
  {
    MarksOfRun(s, p, q);
    RunGrouped(s, MatchPositions(s), p, q);
  }

  /** A character that is not a digit never receives a separator. */
  lemma NonDigitStep(s: string, p: nat)
    requires p < |s| && !IsDigit(s[p])
    ensures GroupDigitsFrom(s, p) == [s[p]] + GroupDigitsFrom(s, p + 1)
  {
  }

  // ---------------------------------------------------------------------------
  // What `x.toString()` hands to the formatter, and what comes out.

  /** The plain decimal text of a JavaScript number: an optional `-`, the
      integer digits, and a `.` with the fraction digits when there are any. */
  datatype Numeral = Numeral(negative: bool, whole: string, fraction: string) {
    predicate Valid() {
      |whole| >= 1 && AllDigits(whole) && AllDigits(fraction)
    }

    function Text(): string {
      Sign(negative) + whole + (if fraction == [] then [] else ['.'] + fraction)
    }
  }

  function Sign(negative: bool): string {
    if negative then "-" else ""
  }

  /** `x.toString()` for an integer (below 1e21 in magnitude). */
  function IntegerText(x: int): string {
    Numeral(x < 0, Digits(if x < 0 then -x else x), "").Text()
  }

  lemma NoDotInDigits(sign: string, d: string)
    requires sign == "" || sign == "-"
    requires AllDigits(d)
    ensures '.' !in sign + d
  {
    var t := sign + d;
    forall i | 0 <= i < |t| ensures t[i] != '.' {
      if i >= |sign| {
        assert t[i] == d[i - |sign|];
      }
    }
  }

  /** The first replace turns the decimal point into a comma and touches nothing else. */
  lemma ReplacedText(n: Numeral)
    requires n.Valid()
    ensures ReplaceFirst(n.Text(), '.', ',') ==
      Sign(n.negative) + n.whole + (if n.fraction == [] then [] else [','] + n.fraction)
  {
    var head := Sign(n.negative) + n.whole;
    NoDotInDigits(Sign(n.negative), n.whole);
    if n.fraction == [] {
      calc {
        ReplaceFirst(n.Text(), '.', ',');
        == { assert n.Text() == head; }
        ReplaceFirst(head, '.', ',');
        == { ReplaceFirstAbsent(head, '.', ','); }
        head;
        == { assert head + [] == head; }
        head + [];
      }
    } else {
      calc {
        ReplaceFirst(n.Text(), '.', ',');
        == { assert n.Text() == head + ['.'] + n.fraction; }
        ReplaceFirst(head + ['.'] + n.fraction, '.', ',');
        == { ReplaceFirstAt(head, '.', n.fraction, ','); }
        head + [','] + n.fraction;
        == { Reassociate(head, [','], n.fraction); }
        head + ([','] + n.fraction);
      }
    }
  }

  /** The comma and the fraction digits after it. */
  lemma FractionGrouped(r: string, q: nat)
    requires q < |r| && r[q] == ',' && AllDigits(r[q + 1..])
    ensures GroupDigitsFrom(r, q) == [','] + Grouped(r[q + 1..])
  {
    NonDigitStep(r, q);
    assert IsRun(r, q + 1, |r|) by {
      forall j | q + 1 <= j < |r| ensures IsDigit(r[j]) {
        assert r[j] == r[q + 1..][j - q - 1];
      }
    }
    DigitRun(r, q + 1, |r|);
    assert r[q + 1..|r|] == r[q + 1..];
  }

  /** A leading `-` is copied through without a separator after it. */
  lemma SignKept(sign: string, w: string, rest: string)
    requires sign == "" || sign == "-"
    requires |w| >= 1
    ensures GroupDigitsFrom(sign + w + rest, 0) == sign + GroupDigitsFrom(sign + w + rest, |sign|)
  {
    if sign == "-" {
      NonDigitStep(sign + w + rest, 0);
    }
  }

  /** The integer digits, followed by the end of the text or by the comma. */
  lemma WholeGrouped(sign: string, w: string, rest: string)
    requires sign == "" || sign == "-"
    requires |w| >= 1 && AllDigits(w)
    requires rest == [] || rest[0] == ','
    ensures var r := sign + w + rest;
      GroupDigitsFrom(r, |sign|) == Grouped(w) + GroupDigitsFrom(r, |sign| + |w|)
  {
    var r := sign + w + rest;
    var b, q := |sign|, |sign| + |w|;
    assert r[b..q] == w;
    assert IsRun(r, b, q) by {
      forall j | b <= j < q ensures IsDigit(r[j]) {
        assert r[j] == w[j - b];
      }
      if q < |r| {
        assert r[q] == rest[0];
      }
    }
    DigitRun(r, b, q);
  }

  /** What follows the integer digits: nothing, or the comma and the grouped fraction. */
  lemma RestGrouped(sign: string, w: string, f: string)
    requires AllDigits(f)
    ensures var r := sign + w + (if f == [] then [] else [','] + f);
      GroupDigitsFrom(r, |sign| + |w|) == (if f == [] then [] else [','] + Grouped(f))
  {
    var r := sign + w + (if f == [] then [] else [','] + f);
    var q := |sign| + |w|;
    if f != [] {
      assert r[q] == ',';
      assert r[q + 1..] == f;
      FractionGrouped(r, q);
    }
  }

  /** The main property: the sign is kept, the integer digits are grouped by
      thousands with `.`, the decimal point becomes `,` and the fraction digits
      are grouped by the same rule. */
  lemma FormatNumeral(n: Numeral)
    requires n.Valid()
    ensures FormatNumber(n.Text()) == Sign(n.negative) + Grouped(n.whole) +
      (if n.fraction == [] then [] else [','] + Grouped(n.fraction))
  {
    var sign := Sign(n.negative);
    var tailText: string := if n.fraction == [] then [] else [','] + n.fraction;
    var r := sign + n.whole + tailText;
    ReplacedText(n);
    SignKept(sign, n.whole, tailText);
    WholeGrouped(sign, n.whole, tailText);
    RestGrouped(sign, n.whole, n.fraction);
    var fracOut: string := if n.fraction == [] then [] else [','] + Grouped(n.fraction);
    Reassociate(sign, Grouped(n.whole), fracOut);
  }

  // ---------------------------------------------------------------------------
  // Properties of the grouped output.

  /** The text with every `.` deleted. */
  function RemoveSeparators(t: string): (r: string)
    ensures '.' !in r
  {
    if t == [] then []
    else (if t[0] == '.' then [] else [t[0]]) + RemoveSeparators(t[1..])
  }

  /** JavaScript's `t.split(sep)` for a one-character separator. */
  function Split(t: string, sep: char): (g: seq<string>)
    ensures |g| >= 1
    decreases |t|
  {
    if t == [] then [[]]
    else
      var g := Split(t[..|t| - 1], sep);
      if t[|t| - 1] == sep then g + [[]] else g[..|g| - 1] + [g[|g| - 1] + [t[|t| - 1]]]
  }

  /** The groups of three of a digit string whose length is a multiple of three. */
  function Triples(t: string): (g: seq<string>)
    requires |t| % 3 == 0
    ensures |g| == |t| / 3
    ensures forall i :: 0 <= i < |g| ==> |g[i]| == 3
    ensures AllDigits(t) ==> forall i :: 0 <= i < |g| ==> AllDigits(g[i])
    decreases |t|
  {
    if t == [] then [] else [t[..3]] + Triples(t[3..])
  }

  /** Split output with a leading group of 1-3 digits and further groups of exactly three. */
  predicate ThousandsShape(g: seq<string>) {
    && |g| >= 1
    && 1 <= |g[0]| <= 3 && AllDigits(g[0])
    && forall i :: 1 <= i < |g| ==> |g[i]| == 3 && AllDigits(g[i])
  }

  lemma {:induction false} RemoveSeparatorsAppend(a: string, b: string)
    ensures RemoveSeparators(a + b) == RemoveSeparators(a) + RemoveSeparators(b)
    decreases |a|
  {
    if a != [] {
      RemoveSeparatorsAppend(a[1..], b);
      assert (a + b)[0] == a[0];
      assert (a + b)[1..] == a[1..] + b;
      var piece: string := if a[0] == '.' then [] else [a[0]];
      assert RemoveSeparators(a + b) == piece + RemoveSeparators(a[1..] + b);
      assert RemoveSeparators(a) == piece + RemoveSeparators(a[1..]);
      Reassociate(piece, RemoveSeparators(a[1..]), RemoveSeparators(b));
    } else {
      assert a + b == b;
    }
  }

  lemma {:induction false} RemoveSeparatorsNone(a: string)
    requires '.' !in a
    ensures RemoveSeparators(a) == a
    decreases |a|
  {
    if a != [] {
      RemoveSeparatorsNone(a[1..]);
    }
  }

  lemma {:induction false} RemoveSeparatorsThousands(t: string)
    requires |t| % 3 == 0 && '.' !in t
    ensures RemoveSeparators(Thousands(t)) == t
    decreases |t|
  {
    if t != [] {
      RemoveSeparatorsThousands(t[3..]);
      RemoveSeparatorsAppend(['.'] + t[..3], Thousands(t[3..]));
      RemoveSeparatorsAppend(['.'], t[..3]);
      RemoveSeparatorsNone(t[..3]);
      assert t[..3] + t[3..] == t;
    }
  }

  /** Deleting the separators gives back the digits that were grouped. */
  lemma GroupedRemoveSeparators(d: string)
    requires '.' !in d
    ensures RemoveSeparators(Grouped(d)) == d
  {
    var k := LeadLength(|d|);
    Absent(d, '.', k);
    calc {
      RemoveSeparators(Grouped(d));
      == { RemoveSeparatorsAppend(d[..k], Thousands(d[k..])); }
      RemoveSeparators(d[..k]) + RemoveSeparators(Thousands(d[k..]));
      == { RemoveSeparatorsNone(d[..k]); RemoveSeparatorsThousands(d[k..]); }
      d[..k] + d[k..];
      == d;
    }
  }

  lemma {:induction false} SplitNone(t: string, sep: char)
    requires sep !in t
    ensures Split(t, sep) == [t]
    decreases |t|
  {
    if t != [] {
      var t', c := t[..|t| - 1], t[|t| - 1];
      assert sep !in t' by {
        assert forall x :: x in t' ==> x in t;
      }
      calc {
        Split(t, sep);
        == { assert t' + [c] == t; }
        Split(t' + [c], sep);
        == { SplitSnoc(t', sep, c); SplitNone(t', sep); }
        [t' + [c]];
        == { assert t' + [c] == t; }
        [t];
      }
    }
  }

  /** Neither side of a cut of a string without `sep` contains `sep`. */
  lemma Absent(t: string, sep: char, i: nat)
    requires sep !in t && i <= |t|
    ensures sep !in t[..i] && sep !in t[i..]
  {
    assert forall x :: x in t[..i] ==> x in t;
    assert forall x :: x in t[i..] ==> x in t;
  }

  /** Appending one non-separator character extends the last group. */
  lemma SplitSnoc(t: string, sep: char, c: char)
    requires c != sep
    ensures var g := Split(t, sep);
      Split(t + [c], sep) == g[..|g| - 1] + [g[|g| - 1] + [c]]
  {
    assert (t + [c])[..|t|] == t;
  }

  lemma SplitSnocSep(t: string, sep: char)
    ensures Split(t + [sep], sep) == Split(t, sep) + [[]]
  {
    assert (t + [sep])[..|t|] == t;
  }

  lemma ExtendLast(gx: seq<string>, gy: seq<string>, c: char)
    requires |gy| >= 1
    ensures var g := gx + gy;
      g[..|g| - 1] + [g[|g| - 1] + [c]] == gx + (gy[..|gy| - 1] + [gy[|gy| - 1] + [c]])
  {
    var g := gx + gy;
    assert g[..|g| - 1] == gx + gy[..|gy| - 1];
  }

  lemma SplitAtSnoc(x: string, sep: char, y: string, c: char)
    requires Split(x + [sep] + y, sep) == Split(x, sep) + Split(y, sep)
    ensures Split(x + [sep] + (y + [c]), sep) == Split(x, sep) + Split(y + [c], sep)
  {
    assert x + [sep] + (y + [c]) == (x + [sep] + y) + [c];
    if c == sep {
      SplitAtSnocSep(x, sep, y);
    } else {
      SplitAtSnocOther(x, sep, y, c);
    }
  }

  lemma SplitAtSnocSep(x: string, sep: char, y: string)
    requires Split(x + [sep] + y, sep) == Split(x, sep) + Split(y, sep)
    ensures Split((x + [sep] + y) + [sep], sep) == Split(x, sep) + Split(y + [sep], sep)
  {
    SplitSnocSep(x + [sep] + y, sep);
    SplitSnocSep(y, sep);
  }

  lemma SplitAtSnocOther(x: string, sep: char, y: string, c: char)
    requires c != sep
    requires Split(x + [sep] + y, sep) == Split(x, sep) + Split(y, sep)
    ensures Split((x + [sep] + y) + [c], sep) == Split(x, sep) + Split(y + [c], sep)
  {
    SplitSnoc(x + [sep] + y, sep, c);
    SplitSnoc(y, sep, c);
    ExtendLast(Split(x, sep), Split(y, sep), c);
  }

  /** Splitting at one separator splits the two sides independently. */
  lemma {:induction false} SplitAt(x: string, sep: char, y: string)
    ensures Split(x + [sep] + y, sep) == Split(x, sep) + Split(y, sep)
    decreases |y|
  {
    if y == [] {
      SplitSnocSep(x, sep);
      assert x + [sep] + y == x + [sep];
    } else {
      var y', c := y[..|y| - 1], y[|y| - 1];
      SplitAt(x, sep, y');
      SplitAtSnoc(x, sep, y', c);
      assert y' + [c] == y;
    }
  }

  lemma {:induction false} SplitThousands(x: string, t: string)
    requires |t| % 3 == 0 && '.' !in t
    ensures Split(x + Thousands(t), '.') == Split(x, '.') + Triples(t)
    decreases |t|
  {
    if t == [] {
      assert x + Thousands(t) == x;
    } else {
      var head, tail := t[..3], t[3..];
      var x' := x + ['.'] + head;
      Absent(t, '.', 3);
      calc {
        Split(x + Thousands(t), '.');
        == { Reassociate(x, ['.'] + head, Thousands(tail)); Reassociate(x, ['.'], head); }
        Split(x' + Thousands(tail), '.');
        == { SplitThousands(x', tail); }
        Split(x', '.') + Triples(tail);
        == { SplitAt(x, '.', head); SplitNone(head, '.'); }
        (Split(x, '.') + [head]) + Triples(tail);
        == { Reassociate(Split(x, '.'), [head], Triples(tail)); }
        Split(x, '.') + Triples(t);
      }
    }
  }

  lemma DigitsHaveNoDot(d: string)
    requires AllDigits(d)
    ensures '.' !in d
  {
  }

  /** Split on `.`, a grouped digit string is a leading group of 1-3 digits
      followed by groups of exactly three digits. */
  lemma GroupedShape(d: string)
    requires |d| >= 1 && AllDigits(d)
    ensures ThousandsShape(Split(Grouped(d), '.'))
  {
    var k := LeadLength(|d|);
    DigitsHaveNoDot(d);
    assert '.' !in d[k..] && '.' !in d[..k] by {
      assert forall c :: c in d[k..] ==> c in d;
      assert forall c :: c in d[..k] ==> c in d;
    }
    SplitThousands(d[..k], d[k..]);
    SplitNone(d[..k], '.');
    assert AllDigits(d[k..]) by {
      forall i | 0 <= i < |d[k..]| ensures IsDigit(d[k..][i]) {
        assert d[k..][i] == d[k + i];
      }
    }
  }

  /** Runs of at most three digits are left alone. */
  lemma ShortGroupedUnchanged(d: string)
    requires |d| <= 3
    ensures Grouped(d) == d
  {
    assert d[LeadLength(|d|)..] == [];
  }

  // ---------------------------------------------------------------------------
  // The properties the dashboard relies on, for the values it formats.

  /** An integer comes out as its sign and its grouped digits. */
  lemma FormatInteger(x: int)
    ensures FormatNumber(IntegerText(x)) == Sign(x < 0) + Grouped(Digits(if x < 0 then -x else x))
  {
    FormatNumeral(Numeral(x < 0, Digits(if x < 0 then -x else x), ""));
  }

  /** Deleting every `.` from the formatted non-negative integer gives its decimal digits. */
  lemma FormatIntegerKeepsDigits(n: nat)
    ensures RemoveSeparators(FormatNumber(IntegerText(n))) == Digits(n)
    ensures Value(RemoveSeparators(FormatNumber(IntegerText(n)))) == n
  {
    FormatInteger(n);
    assert Sign(false) + Grouped(Digits(n)) == Grouped(Digits(n));
    DigitsHaveNoDot(Digits(n));
    GroupedRemoveSeparators(Digits(n));
    ValueOfDigits(n);
  }

  /** A formatted non-negative integer splits on `.` into 1-3 digits and then groups of three. */
  lemma FormatIntegerShape(n: nat)
    ensures ThousandsShape(Split(FormatNumber(IntegerText(n)), '.'))
  {
    FormatInteger(n);
    assert Sign(false) + Grouped(Digits(n)) == Grouped(Digits(n));
    GroupedShape(Digits(n));
  }

  /** Integers with at most three digits are returned unchanged. */
  lemma SmallIntegerUnchanged(x: int)
    requires -1000 < x < 1000
    ensures FormatNumber(IntegerText(x)) == IntegerText(x)
  {
    var d := Digits(if x < 0 then -x else x);
    DigitsLength(if x < 0 then -x else x, 3);
    FormatInteger(x);
    ShortGroupedUnchanged(d);
  }

  /** A leading `-` is kept, and a digit, never a separator, follows it. */
  lemma NegativeIntegerKeepsSign(x: int)
    requires x < 0
    ensures FormatNumber(IntegerText(x)) == "-" + FormatNumber(IntegerText(-x))
    ensures |FormatNumber(IntegerText(x))| >= 2 && IsDigit(FormatNumber(IntegerText(x))[1])
  {
    var d := Digits(-x);
    calc {
      FormatNumber(IntegerText(x));
      == { FormatInteger(x); }
      "-" + Grouped(d);
      == { assert Sign(false) + Grouped(d) == Grouped(d); FormatInteger(-x); }
      "-" + FormatNumber(IntegerText(-x));
    }
    assert Grouped(d)[0] == d[0];
  }

  /** The `toFixed(2)` texts: grouped integer digits, a comma, then the same two
      fraction digits with no separator among them. */
  lemma FormatTwoDecimals(n: Numeral)
    requires n.Valid() && |n.fraction| == 2
    ensures FormatNumber(n.Text()) == Sign(n.negative) + Grouped(n.whole) + [','] + n.fraction
  {
    FormatNumeral(n);
    ShortGroupedUnchanged(n.fraction);
  }

  lemma GroupedFourDigits(a: char, b: char, c: char, d: char)
    ensures Grouped([a, b, c, d]) == [a, '.', b, c, d]
  {
    var t := [a, b, c, d];
    assert LeadLength(4) == 1;
    assert t[..1] == [a];
    assert t[1..] == [b, c, d];
    assert Thousands([b, c, d]) == ['.', b, c, d] by {
      assert [b, c, d][3..] == [];
      assert [b, c, d][..3] == [b, c, d];
    }
  }

  /** 5000 is shown as `5.000`. */
  lemma FormatFiveThousand()
    ensures FormatNumber(IntegerText(5000)) == "5.000"
  {
    assert Digits(5000) == "5000" by {
      assert Digits(5) == "5";
      assert Digits(50) == "50";
      assert Digits(500) == "500";
    }
    calc {
      FormatNumber(IntegerText(5000));
      == { FormatInteger(5000); }
      Sign(false) + Grouped("5000");
      == { GroupedFourDigits('5', '0', '0', '0'); }
      "" + "5.000";
      ==
      "5.000";
    }
  }

  /** -1234 is shown as `-1.234`. */
  lemma FormatMinusTwelveThirtyFour()
    ensures FormatNumber(IntegerText(-1234)) == "-1.234"
  {
    assert Digits(1234) == "1234" by {
      assert Digits(1) == "1";
      assert Digits(12) == "12";
      assert Digits(123) == "123";
    }
    calc {
      FormatNumber(IntegerText(-1234));
      == { FormatInteger(-1234); }
      Sign(true) + Grouped("1234");
      == { GroupedFourDigits('1', '2', '3', '4'); }
      "-" + "1.234";
      ==
      "-1.234";
    }
  }

  /** The regex does not stop at the comma: a fraction of four or more digits is
      grouped too, so the text "0.1234" comes out as `0,1.234`. */
  lemma LongFractionIsGrouped()
    ensures FormatNumber("0.1234") == "0,1.234"
  {
    var n := Numeral(false, "0", "1234");
    calc {
      FormatNumber("0.1234");
      == { assert n.Text() == "0.1234"; }
      FormatNumber(n.Text());
      == { FormatNumeral(n); }
      Sign(false) + Grouped("0") + ([','] + Grouped("1234"));
      == { ShortGroupedUnchanged("0"); GroupedFourDigits('1', '2', '3', '4'); }
      "" + "0" + ([','] + "1.234");
      ==
      "0,1.234";
    }
  }
}
