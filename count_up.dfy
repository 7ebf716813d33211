/**
 * The number formatting of the animated counter (src/components/CountUp.tsx).
 *
 * `formatNumber` takes the counter's current value as text, as
 * `num.toFixed(decimals)` renders it, inserts a comma at every position the
 * regular expression `/\B(?=(\d{3})+(?!\d))/g` matches, and wraps the result
 * in the component's prefix and suffix (both empty by default). `toFixed`
 * itself is not modelled: the text it produced is the input here.
 *
 * A position i of s (0 <= i <= |s|, between s[i-1] and s[i]) matches when
 *  - `\B`: it is not a word boundary, i.e. the characters on both sides are
 *    either both word characters or both not (outside the string counts as
 *    not a word character), and
 *  - `(?=(\d{3})+(?!\d))`: from i on there are 3k digits, k >= 1, and then
 *    no further digit.
 * The global replace tries every position of the original text once and all
 * matches are empty, so the result is the text with a comma put in front of
 * each matching position. `MatchAt` states the pattern literally; `CommaAt`
 * is the same test over digit runs (lemma `MatchAtIff`). The replacement is
 * written as the per-position decisions (`Decisions`) applied to the text
 * (`Interleave`).
 */
module CountUp {

  const DefaultPrefix: string := ""
  const DefaultSuffix: string := ""
  const DefaultDecimals: nat := 0

  /** `\d` */
  predicate IsDigit(c: char) { '0' <= c <= '9' }

  /** `\w`: ASCII letters, digits and underscore. */
  predicate IsWordChar(c: char) {
    IsDigit(c) || 'a' <= c <= 'z' || 'A' <= c <= 'Z' || c == '_'
  }

  predicate AllDigits(s: string) { forall i :: 0 <= i < |s| ==> IsDigit(s[i]) }

  // ----------------------------------------------------------- the regex

  /** `\B` at position i. */
  predicate NotWordBoundary(s: string, i: nat)
    requires i <= |s|
    // in front of a digit, `\B` holds iff a word character comes before it
    ensures i < |s| && IsDigit(s[i]) ==> (NotWordBoundary(s, i) <==> 0 < i && IsWordChar(s[i - 1]))
    // between two non-word characters, or at an end next to one, `\B` holds
    ensures (i == 0 || !IsWordChar(s[i - 1])) && (i == |s| || !IsWordChar(s[i])) ==> NotWordBoundary(s, i)
  {
    var before := i > 0 && IsWordChar(s[i - 1]);
    var after := i < |s| && IsWordChar(s[i]);
    before == after
  }

  /** `(\d{3})+(?!\d)` matched with exactly k groups from position i. */
  predicate GroupsThenNoDigit(s: string, i: nat, k: nat)
    requires i <= |s|
  {
    i + 3 * k <= |s|
    && (forall j :: i <= j < i + 3 * k ==> IsDigit(s[j]))
    && (i + 3 * k == |s| || !IsDigit(s[i + 3 * k]))
  }

  /** `(?=(\d{3})+(?!\d))` at position i. */
  predicate LookaheadAt(s: string, i: nat)
    requires i <= |s|
    ensures LookaheadAt(s, i) ==> i + 3 <= |s| && IsDigit(s[i]) && IsDigit(s[i + 1]) && IsDigit(s[i + 2])
  {
    exists k: nat :: 1 <= k <= |s| - i && GroupsThenNoDigit(s, i, k)
  }

  /** The pattern `\B(?=(\d{3})+(?!\d))` matches (empty) at position i. */
  predicate MatchAt(s: string, i: nat)
    requires i <= |s|
    ensures MatchAt(s, i) ==> 0 < i && IsWordChar(s[i - 1]) && i + 3 <= |s|
  {
    NotWordBoundary(s, i) && LookaheadAt(s, i)
  }

  /**
   * The test the replacement applies at position i: a word character before
   * and a digit run of positive length divisible by three ahead.
   */
  predicate CommaAt(s: string, i: nat)
    requires i <= |s|
  {
    0 < i && IsWordChar(s[i - 1]) && DigitRun(s, i) > 0 && DigitRun(s, i) % 3 == 0
  }

  /** The replace's decision at each position of s: does a comma go in front of s[i]? */
  function Decisions(s: string): (marks: seq<bool>)
    ensures |marks| == |s|
    ensures forall i :: 0 <= i < |s| ==> (marks[i] <==> MatchAt(s, i))
  {
    assert forall i :: 0 <= i < |s| ==> (MatchAt(s, i) <==> CommaAt(s, i)) by {
      forall i | 0 <= i < |s| { MatchAtIff(s, i); }
    }
    seq(|s|, i requires 0 <= i < |s| => CommaAt(s, i))
  }

  /** The number of set marks. */
  function CountMarks(marks: seq<bool>): (count: nat)
    ensures count <= |marks|
  {
    if marks == [] then 0 else (if marks[0] then 1 else 0) + CountMarks(marks[1..])
  }

  /** The text with a comma in front of each character whose mark is set. */
  function Interleave(s: string, marks: seq<bool>): (r: string)
    requires |marks| == |s|
    ensures |s| <= |r| <= 2 * |s|
    ensures s != [] ==> r[|r| - 1] == s[|s| - 1]
  {
    if s == [] then ""
    else (if marks[0] then "," else "") + [s[0]] + Interleave(s[1..], marks[1..])
  }

  /** `text.replace(/\B(?=(\d{3})+(?!\d))/g, ",")` */
  function InsertCommas(s: string): (r: string)
    ensures |s| <= |r|
    // fewer added characters than the text has, and the last character stays last;
    // `Decisions` and `InterleaveCount` say where the commas go
    ensures s != [] ==> |r| < 2 * |s| && r[|r| - 1] == s[|s| - 1]
  {
    Interleave(s, Decisions(s))
  }

  /** `formatNumber`: `fixed` is the text `toFixed(decimals)` produced. */
  function FormatNumber(prefix: string, fixed: string, suffix: string): (r: string)
    ensures |r| >= |prefix| + |suffix|
    ensures r[..|prefix|] == prefix && r[|r| - |suffix|..] == suffix
    ensures RemoveCommas(r[|prefix|..|r| - |suffix|]) == RemoveCommas(fixed)
    ensures ',' !in fixed ==> RemoveCommas(r[|prefix|..|r| - |suffix|]) == fixed
  {
    var middle := InsertCommas(fixed);
    ErasingCommas(fixed);
    assert (prefix + middle + suffix)[|prefix|..|prefix| + |middle|] == middle;
    prefix + middle + suffix
  }

  // ---------------------------------------------- independent references

  /** The text with every comma removed. */
  function RemoveCommas(s: string): string
  {
    if s == [] then []
    else (if s[0] == ',' then [] else [s[0]]) + RemoveCommas(s[1..])
  }

  /** Digits grouped by threes from the right, the leading group holding 1 to 3. */
  function GroupThousands(d: string): string
    decreases |d|
  {
    if |d| <= 3 then d
    else GroupThousands(d[..|d| - 3]) + "," + d[|d| - 3..]
  }

  /**
   * The shape of `toFixed` output for a finite value with |x| < 1e21: sign,
   * integer digits, and a fraction when decimals > 0.
   */
  datatype FixedNotation = FixedNotation(negative: bool, whole: string, fraction: string)
  {
    predicate WellFormed() { |whole| >= 1 && AllDigits(whole) && AllDigits(fraction) }

    function Sign(): string { if negative then "-" else "" }

    /** The text carries exactly `decimals` digits after the point. */
    predicate HasDecimals(decimals: nat) { |fraction| == decimals }

    function Text(): string {
      Sign() + whole + (if fraction == "" then "" else "." + fraction)
    }
  }

  /** The length of the run of digits that starts at position i. */
  function DigitRun(s: string, i: nat): nat
    requires i <= |s|
    decreases |s| - i
  {
    if i == |s| || !IsDigit(s[i]) then 0 else 1 + DigitRun(s, i + 1)
  }

  // ---------------------------------------------------------- digit runs

  lemma {:induction false} DigitRunSpec(s: string, i: nat)
    requires i <= |s|
    ensures i + DigitRun(s, i) <= |s|
    ensures forall j :: i <= j < i + DigitRun(s, i) ==> IsDigit(s[j])
    ensures i + DigitRun(s, i) == |s| || !IsDigit(s[i + DigitRun(s, i)])
    decreases |s| - i
  {
    if i < |s| && IsDigit(s[i]) {
      DigitRunSpec(s, i + 1);
    }
  }

  /** The look-ahead holds exactly when the digit run ahead is a positive multiple of three. */
  lemma LookaheadByRun(s: string, i: nat)
    requires i <= |s|
    ensures LookaheadAt(s, i) <==> DigitRun(s, i) > 0 && DigitRun(s, i) % 3 == 0
  {
    var run := DigitRun(s, i);
    DigitRunSpec(s, i);
    if LookaheadAt(s, i) {
      var k: nat :| 1 <= k <= |s| - i && GroupsThenNoDigit(s, i, k);
    }
    if run > 0 && run % 3 == 0 {
      assert GroupsThenNoDigit(s, i, run / 3);
    }
  }

  /** The pattern matches exactly where the replacement puts a comma. */
  lemma MatchAtIff(s: string, i: nat)
    requires i <= |s|
    ensures MatchAt(s, i) <==> CommaAt(s, i)
  {
    LookaheadByRun(s, i);
  }

  /** In a text of digits the run from i reaches the end. */
  lemma {:induction false} DigitRunOfDigits(d: string, i: nat)
    requires i <= |d| && AllDigits(d)
    ensures DigitRun(d, i) == |d| - i
    decreases |d| - i
  {
    if i < |d| {
      DigitRunOfDigits(d, i + 1);
    }
  }

  /** In a text of digits a comma goes at i exactly when 0 < i and |d| - i is a multiple of 3. */
  lemma CommaInDigits(d: string, i: nat)
    requires i < |d| && AllDigits(d)
    ensures CommaAt(d, i) <==> 0 < i && (|d| - i) % 3 == 0
  {
    DigitRunOfDigits(d, i);
  }

  /** A run that stops inside x is the same run in x + y. */
  lemma {:induction false} DigitRunPrefix(x: string, y: string, i: nat)
    requires i <= |x|
    requires i + DigitRun(x, i) < |x| || y == [] || !IsDigit(y[0])
    ensures DigitRun(x + y, i) == DigitRun(x, i)
    decreases |x| - i
  {
    if i < |x| && IsDigit(x[i]) {
      DigitRunPrefix(x, y, i + 1);
    }
  }

  /** Runs inside y are unchanged by putting x in front. */
  lemma {:induction false} DigitRunSuffix(x: string, y: string, k: nat)
    requires k <= |y|
    ensures DigitRun(x + y, |x| + k) == DigitRun(y, k)
    decreases |y| - k
  {
    if k < |y| && IsDigit(y[k]) {
      DigitRunSuffix(x, y, k + 1);
    }
  }

  // ------------------------------------------------- inserting the marks

  lemma {:induction false} InterleaveAppend(x: string, mx: seq<bool>, y: string, my: seq<bool>)
    requires |mx| == |x| && |my| == |y|
    ensures Interleave(x + y, mx + my) == Interleave(x, mx) + Interleave(y, my)
  {
    if x == [] {
      assert x + y == y && mx + my == my;
    } else {
      var lead := (if mx[0] then "," else "") + [x[0]];
      assert (x + y)[0] == x[0] && (mx + my)[0] == mx[0];
      assert (x + y)[1..] == x[1..] + y && (mx + my)[1..] == mx[1..] + my;
      calc {
        Interleave(x + y, mx + my);
        lead + Interleave(x[1..] + y, mx[1..] + my);
        { InterleaveAppend(x[1..], mx[1..], y, my); }
        lead + (Interleave(x[1..], mx[1..]) + Interleave(y, my));
        (lead + Interleave(x[1..], mx[1..])) + Interleave(y, my);
        Interleave(x, mx) + Interleave(y, my);
      }
    }
  }

  /** Interleaving adds exactly one comma per set mark. */
  lemma {:induction false} InterleaveCount(s: string, marks: seq<bool>)
    requires |marks| == |s|
    ensures |Interleave(s, marks)| == |s| + CountMarks(marks)
  {
    if s != [] {
      InterleaveCount(s[1..], marks[1..]);
    }
  }

  lemma {:induction false} InterleaveErases(s: string, marks: seq<bool>)
    requires |marks| == |s|
    ensures RemoveCommas(Interleave(s, marks)) == RemoveCommas(s)
  {
    if s != [] {
      InterleaveErases(s[1..], marks[1..]);
      var lead := (if marks[0] then "," else "") + [s[0]];
      RemoveCommasAppend(lead, Interleave(s[1..], marks[1..]));
      assert s == [s[0]] + s[1..];
      RemoveCommasAppend([s[0]], s[1..]);
      if marks[0] {
        RemoveCommasAppend(",", [s[0]]);
      }
    }
  }

  lemma {:induction false} InterleaveUnmarked(s: string, marks: seq<bool>)
    requires |marks| == |s| && forall i :: 0 <= i < |marks| ==> !marks[i]
    ensures Interleave(s, marks) == s
  {
    if s != [] {
      InterleaveUnmarked(s[1..], marks[1..]);
      assert s == [s[0]] + s[1..];
    }
  }

  /**
   * x and y are formatted independently when no digit run crosses the seam
   * or the seam is a word boundary: y does not start with a digit, or x does
   * not end with a word character.
   */
  predicate Separated(x: string, y: string)
  {
    x == [] || y == [] || !IsDigit(y[0]) || !IsWordChar(x[|x| - 1])
  }

  /** Across a separated seam the decisions of x + y are those of x, then those of y. */
  lemma DecisionsConcat(x: string, y: string)
    requires Separated(x, y)
    ensures Decisions(x + y) == Decisions(x) + Decisions(y)
  {
    forall j | 0 <= j < |x|
      ensures CommaAt(x + y, j) <==> CommaAt(x, j)
    {
      DigitRunSpec(x, j);
      DigitRunPrefix(x, y, j);
      if j > 0 { assert (x + y)[j - 1] == x[j - 1]; }
    }
    forall k | 0 <= k < |y|
      ensures CommaAt(x + y, |x| + k) <==> CommaAt(y, k)
    {
      DigitRunSuffix(x, y, k);
      if k > 0 { assert (x + y)[|x| + k - 1] == y[k - 1]; }
      if k == 0 && x != [] { assert (x + y)[|x| - 1] == x[|x| - 1]; }
    }
    var l, r := Decisions(x + y), Decisions(x) + Decisions(y);
    forall j | 0 <= j < |l|
      ensures l[j] == r[j]
    {
      if j >= |x| {
        assert l[|x| + (j - |x|)] == CommaAt(x + y, |x| + (j - |x|));
      }
    }
  }

  /** Two texts with a separated seam are formatted independently. */
  lemma InsertCommasConcat(x: string, y: string)
    requires Separated(x, y)
    ensures InsertCommas(x + y) == InsertCommas(x) + InsertCommas(y)
  {
    DecisionsConcat(x, y);
    InterleaveAppend(x, Decisions(x), y, Decisions(y));
  }

  // ----------------------------------------------------------- properties

  lemma {:induction false} RemoveCommasAppend(a: string, b: string)
    ensures RemoveCommas(a + b) == RemoveCommas(a) + RemoveCommas(b)
  {
    if a == [] {
      assert a + b == b;
    } else {
      var head := if a[0] == ',' then [] else [a[0]];
      assert RemoveCommas(a) == head + RemoveCommas(a[1..]);
      assert (a + b)[0] == a[0];
      assert (a + b)[1..] == a[1..] + b;
      calc {
        RemoveCommas(a + b);
        head + RemoveCommas(a[1..] + b);
        { RemoveCommasAppend(a[1..], b); }
        head + (RemoveCommas(a[1..]) + RemoveCommas(b));
        RemoveCommas(a) + RemoveCommas(b);
      }
    }
  }

  lemma {:induction false} RemoveCommasNoComma(s: string)
    requires ',' !in s
    ensures RemoveCommas(s) == s
  {
    if s != [] {
      RemoveCommasNoComma(s[1..]);
    }
  }

  /** The replace only inserts commas: erasing commas gives back comma-free input exactly. */
  lemma ErasingCommas(s: string)
    ensures RemoveCommas(InsertCommas(s)) == RemoveCommas(s)
    ensures ',' !in s ==> RemoveCommas(InsertCommas(s)) == s
  {
    InterleaveErases(s, Decisions(s));
    if ',' !in s { RemoveCommasNoComma(s); }
  }

  /** The pattern never matches before the first character nor after the last. */
  lemma NoLeadingComma(s: string)
    requires s != []
    ensures !MatchAt(s, 0) && !MatchAt(s, |s|)
    ensures InsertCommas(s)[0] == s[0]
  {
    MatchAtIff(s, 0);
    MatchAtIff(s, |s|);
  }

  /** The decisions in a digit string: a comma before every position with a multiple of 3 digits to its right. */
  lemma DecisionsOfDigits(d: string)
    requires AllDigits(d)
    ensures forall i :: 0 <= i < |d| ==> (Decisions(d)[i] <==> 0 < i && (|d| - i) % 3 == 0)
  {
    forall i | 0 <= i < |d|
      ensures Decisions(d)[i] <==> 0 < i && (|d| - i) % 3 == 0
    {
      CommaInDigits(d, i);
    }
  }

  /** A run of digits is grouped by threes from the right. */
  lemma {:induction false} DigitsGrouped(d: string)
    requires AllDigits(d)
    ensures InsertCommas(d) == GroupThousands(d)
    decreases |d|
  {
    if |d| <= 3 {
      DecisionsOfDigits(d);
      InterleaveUnmarked(d, Decisions(d));
    } else {
      DigitsGrouped(d[..|d| - 3]);
      DigitsStep(d);
    }
  }

  /** Three more digits on the right of a digit string add one comma and the three digits. */
  lemma DigitsStep(d: string)
    requires AllDigits(d) && |d| > 3
    ensures InsertCommas(d) == InsertCommas(d[..|d| - 3]) + "," + d[|d| - 3..]
  {
    var x, t := d[..|d| - 3], d[|d| - 3..];
    var mx, mt := Decisions(x), [true, false, false];
    assert d == x + t;
    DecisionsDropThree(d);
    calc {
      InsertCommas(d);
      Interleave(x + t, mx + mt);
      { InterleaveAppend(x, mx, t, mt); }
      Interleave(x, mx) + Interleave(t, mt);
      { CommaBeforeThree(t); }
      InsertCommas(x) + ("," + t);
    }
  }

  /** The last three digits of a longer digit string are decided comma, none, none. */
  lemma DecisionsDropThree(d: string)
    requires AllDigits(d) && |d| > 3
    ensures Decisions(d) == Decisions(d[..|d| - 3]) + [true, false, false]
  {
    var x := d[..|d| - 3];
    DecisionsOfDigits(d);
    DecisionsOfDigits(x);
  }

  /** Marking only the first of three characters puts one comma in front. */
  lemma CommaBeforeThree(t: string)
    requires |t| == 3
    ensures Interleave(t, [true, false, false]) == "," + t
  {
    var m := [true, false, false];
    assert m[1..] == [false, false] && m[2..] == [false];
    assert Interleave(t[2..], [false]) == t[2..];
    assert Interleave(t[1..], [false, false]) == [t[1]] + t[2..];
    assert t == [t[0]] + ([t[1]] + t[2..]);
  }

  /** A digit run of at most three characters gets no comma. */
  lemma ShortRunUnchanged(d: string)
    requires AllDigits(d) && |d| <= 3
    ensures InsertCommas(d) == d
  {
    DigitsGrouped(d);
  }

  /** A grouping of n digits holds (n-1)/3 commas. */
  lemma {:induction false} GroupThousandsLength(d: string)
    requires |d| >= 1
    ensures |GroupThousands(d)| == |d| + (|d| - 1) / 3
    decreases |d|
  {
    if |d| > 3 {
      GroupThousandsLength(d[..|d| - 3]);
    }
  }

  /** The commas of g sit exactly at every fourth place counted from the right end. */
  predicate CommasEveryFourth(g: string)
  {
    forall j :: 0 <= j < |g| ==> (g[j] == ',' <==> 0 < j && (|g| - j) % 4 == 0)
  }

  lemma CommasEveryFourthAppend(g: string, t: string)
    requires CommasEveryFourth(g) && |g| >= 1 && AllDigits(t) && |t| == 3
    ensures CommasEveryFourth(g + "," + t)
  {
    var h := g + "," + t;
    forall j | 0 <= j < |h|
      ensures h[j] == ',' <==> 0 < j && (|h| - j) % 4 == 0
    {
      if j < |g| {
        assert h[j] == g[j];
        assert (|h| - j) % 4 == (|g| - j) % 4;
      } else if j > |g| {
        assert h[j] == t[j - |g| - 1];
      }
    }
  }

  /** Commas sit exactly at every fourth place counted from the right end. */
  lemma {:induction false} GroupThousandsCommas(d: string)
    requires AllDigits(d)
    ensures CommasEveryFourth(GroupThousands(d))
    decreases |d|
  {
    if |d| > 3 {
      var x := d[..|d| - 3];
      GroupThousandsCommas(x);
      GroupThousandsLength(x);
      CommasEveryFourthAppend(GroupThousands(x), d[|d| - 3..]);
    } else {
      forall j | 0 <= j < |d|
        ensures d[j] != ','
      {
        assert IsDigit(d[j]);
      }
    }
  }

  /** The size of the leading group of n digits: n itself up to 3, else that of n - 3. */
  function LeadSize(n: nat): (lead: nat)
    ensures n >= 1 ==> 1 <= lead <= 3 && lead <= n
  {
    if n <= 3 then n else LeadSize(n - 3)
  }

  /** The leading group holds the first 1 to 3 digits, followed by a comma if more come. */
  lemma {:induction false} GroupThousandsLead(d: string)
    requires |d| >= 1
    ensures var g, lead := GroupThousands(d), LeadSize(|d|);
            1 <= lead <= 3 && lead <= |g| && g[..lead] == d[..lead]
            && (|d| > 3 ==> lead < |g| && g[lead] == ',')
    decreases |d|
  {
    if |d| > 3 {
      var x, t := d[..|d| - 3], d[|d| - 3..];
      var lead := LeadSize(|x|);
      assert LeadSize(|d|) == lead;
      GroupThousandsLead(x);
      var gx := GroupThousands(x);
      assert GroupThousands(d) == gx + ("," + t);
      assert d == x + t;
      LeadAfterAppend(gx, x, t, lead);
    }
  }

  /** The leading group of gx survives appending "," + t, and a comma follows it. */
  lemma LeadAfterAppend(gx: string, x: string, t: string, lead: nat)
    requires lead <= |gx| && lead <= |x| && gx[..lead] == x[..lead]
    requires lead < |gx| ==> gx[lead] == ','
    ensures (gx + ("," + t))[..lead] == (x + t)[..lead]
    ensures lead < |gx + ("," + t)| && (gx + ("," + t))[lead] == ','
  {
    PrefixOfAppend(gx, "," + t, lead);
    PrefixOfAppend(x, t, lead);
  }

  /** A prefix that fits in a is unchanged by appending b. */
  lemma PrefixOfAppend(a: string, b: string, k: nat)
    requires k <= |a|
    ensures (a + b)[..k] == a[..k]
    ensures k < |a| ==> (a + b)[k] == a[k]
    ensures k == |a| && b != [] ==> (a + b)[k] == b[0]
  {
  }

  /** Erasing the commas of a grouping gives the digits back. */
  lemma GroupThousandsErases(d: string)
    requires AllDigits(d)
    ensures RemoveCommas(GroupThousands(d)) == d
  {
    DigitsGrouped(d);
    ErasingCommas(d);
    assert ',' !in d;
  }

  /** A single character gets no comma. */
  lemma SingleUnchanged(c: char)
    ensures InsertCommas([c]) == [c]
  {
    var r := InsertCommas([c]);
    assert |r| == 1 && r[0] == c;
  }

  /** The sign and the integer digits: the sign is followed by the grouped digits. */
  lemma SignedWholeGrouped(sign: string, whole: string)
    requires |sign| <= 1 && (sign == [] || !IsWordChar(sign[0]))
    requires |whole| >= 1 && AllDigits(whole)
    ensures InsertCommas(sign + whole) == sign + GroupThousands(whole)
  {
    InsertCommasConcat(sign, whole);
    DigitsGrouped(whole);
    if sign != [] {
      SingleUnchanged(sign[0]);
      assert sign == [sign[0]];
    }
  }

  /** A point and fraction digits: the digits are grouped as well. */
  lemma FractionGrouped(fraction: string)
    requires |fraction| >= 1 && AllDigits(fraction)
    ensures InsertCommas("." + fraction) == "." + GroupThousands(fraction)
  {
    InsertCommasConcat(".", fraction);
    SingleUnchanged('.');
    assert "." == ['.'];
    DigitsGrouped(fraction);
  }

  /**
   * `toFixed` output is grouped part by part: no comma after a leading '-',
   * the integer digits by threes from the right, and when there is a
   * fraction its digits too, from the fraction's right end, because the
   * pattern does not stop at the decimal point (1234.5678 -> 1,234.5,678).
   */
  lemma FixedNotationGrouped(f: FixedNotation)
    requires f.WellFormed()
    ensures InsertCommas(f.Text())
            == f.Sign() + GroupThousands(f.whole)
               + (if f.fraction == "" then "" else "." + GroupThousands(f.fraction))
  {
    var tail := if f.fraction == "" then "" else "." + f.fraction;
    assert f.Text() == (f.Sign() + f.whole) + tail;
    InsertCommasConcat(f.Sign() + f.whole, tail);
    SignedWholeGrouped(f.Sign(), f.whole);
    if f.fraction != "" {
      FractionGrouped(f.fraction);
    }
  }

  /** With the default prefix, suffix and zero decimals, a count shows as grouped digits. */
  lemma DefaultFormat(f: FixedNotation)
    requires f.WellFormed() && f.HasDecimals(DefaultDecimals)
    ensures FormatNumber(DefaultPrefix, f.Text(), DefaultSuffix) == f.Sign() + GroupThousands(f.whole)
  {
    var t := f.Text();
    UnwrappedFormat(t);
    assert f.fraction == "";
    FixedNotationGrouped(f);
  }

  /** With an empty prefix and suffix, `formatNumber` is the replacement alone. */
  lemma UnwrappedFormat(fixed: string)
    ensures FormatNumber(DefaultPrefix, fixed, DefaultSuffix) == InsertCommas(fixed)
  {
    assert DefaultPrefix + InsertCommas(fixed) + DefaultSuffix == InsertCommas(fixed);
  }

  /** Three more digits on the right add one comma and the three digits. */
  lemma GroupAppend(x: string, t: string)
    requires |x| >= 1 && |t| == 3
    ensures GroupThousands(x + t) == GroupThousands(x) + "," + t
  {
    assert (x + t)[..|x|] == x && (x + t)[|x|..] == t;
  }

  /** Worked value: a count of 1234567 shows as 1,234,567. */
  lemma WholeExample(count: string)
    requires count == "1234567"
    ensures InsertCommas(count) == "1,234,567"
  {
    assert AllDigits(count);
    DigitsGrouped(count);
    assert count == "1" + "234" + "567";
    GroupAppend("1", "234");
    GroupAppend("1234", "567");
  }

  /** Four digits take one comma, after the first. */
  lemma GroupFour(d: string)
    requires |d| == 4
    ensures GroupThousands(d) == [d[0]] + "," + d[1..]
  {
    assert d[..1] == [d[0]];
  }

  /** Worked value: with four decimals, 1234.5678 shows as 1,234.5,678. */
  lemma FractionExample(count: string)
    requires count == "1234.5678"
    ensures InsertCommas(count) == "1,234.5,678"
  {
    var f := FixedNotation(false, "1234", "5678");
    assert f.WellFormed();
    assert f.Text() == count;
    FixedNotationGrouped(f);
    GroupFour("1234");
    GroupFour("5678");
  }
}
