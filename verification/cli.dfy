/** The command-line front end: how the extension arguments are normalised
    before the analysis, and how counts are rendered with thousands
    separators. */
module Cli {
  import opened Text
  import ProjectAnalysis

  // ---------------------------------------------------------------------
  // Extension arguments

  predicate Dotted(e: string) {
    |e| > 0 && e[0] == '.'
  }

  /** One extension argument: kept when it starts with a dot, else given one. */
  function Normalize(e: string): (r: string)
    ensures Dotted(r)
    ensures |e| <= |r| <= |e| + 1 && r[|r| - |e|..] == e
    ensures Dotted(e) ==> r == e
  {
    if Dotted(e) then e else "." + e
  }

  /** The extension list the analysis receives: the given extensions, each
      with a leading dot, or the default list when none or an empty list is
      given. */
  function NormalizeExtensions(given: Option<seq<string>>): (exts: seq<string>)
    ensures given.None? || given.value == [] ==> exts == ProjectAnalysis.DefaultExtensions
    ensures given.Some? && given.value != [] ==>
              |exts| == |given.value| && forall k :: 0 <= k < |exts| ==> exts[k] == Normalize(given.value[k])
  {
    if given.None? || given.value == [] then ProjectAnalysis.DefaultExtensions
    else seq(|given.value|, k requires 0 <= k < |given.value| => Normalize(given.value[k]))
  }

  /** Every extension the analysis receives from the command line starts
      with a dot, the defaults included. */
  lemma NormalizedAreDotted(given: Option<seq<string>>)
    ensures forall k :: 0 <= k < |NormalizeExtensions(given)| ==> Dotted(NormalizeExtensions(given)[k])
  {
    var d := ProjectAnalysis.DefaultExtensions;
    assert forall k :: 0 <= k < |d| ==> d[k][0] == '.';
  }

  /** Normalising an already normalised list changes nothing. */
  lemma NormalizeIdempotent(given: Option<seq<string>>)
    ensures NormalizeExtensions(Some(NormalizeExtensions(given))) == NormalizeExtensions(given)
  {
    NormalizedAreDotted(given);
    var exts := NormalizeExtensions(given);
    if exts != [] {
      var again := NormalizeExtensions(Some(exts));
      assert forall k :: 0 <= k < |exts| ==> again[k] == exts[k];
    }
  }

  /** An argument given with or without its dot names the same extension. */
  lemma DotOptional(e: string)
    requires !Dotted(e)
    ensures Normalize(e) == Normalize("." + e)
  {
  }

  // ---------------------------------------------------------------------
  // Thousands separators

  predicate IsDigit(c: char) {
    '0' <= c <= '9'
  }

  predicate AllDigits(s: string) {
    forall k :: 0 <= k < |s| ==> IsDigit(s[k])
  }

  function DigitChar(d: nat): (c: char)
    requires d < 10
    ensures IsDigit(c)
  {
    (('0' as int) + d) as char
  }

  function DigitValue(c: char): (d: nat)
    requires IsDigit(c)
    ensures d < 10
  {
    (c as int) - ('0' as int)
  }

  /** The decimal digits of `n`, without leading zeros. */
  function Decimal(n: nat): (s: string)
    ensures |s| >= 1 && AllDigits(s)
    ensures s[0] == '0' ==> n == 0
  {
    if n < 10 then [DigitChar(n)] else Decimal(n / 10) + [DigitChar(n % 10)]
  }

  /** The number a string of decimal digits denotes. */
  function ValueOf(s: string): nat
    requires AllDigits(s)
  {
    if s == [] then 0 else ValueOf(s[..|s| - 1]) * 10 + DigitValue(s[|s| - 1])
  }

  /** Reading back the digits of `n` gives `n`. */
  lemma {:induction false} DecimalValue(n: nat)
    ensures ValueOf(Decimal(n)) == n
    decreases n
  {
    if n >= 10 {
      DecimalValue(n / 10);
      var s := Decimal(n);
      assert s[..|s| - 1] == Decimal(n / 10);
    }
  }

  /** Digits with a comma before every group of three counted from the right. */
  function Group(ds: string): (r: string)
    decreases |ds|
  {
    if |ds| <= 3 then ds else Group(ds[..|ds| - 3]) + "," + ds[|ds| - 3..]
  }

  /** `f"{num:,}"` for an integer: a minus sign when negative, then the
      decimal digits of the magnitude grouped by threes. */
  function FormatNumber(num: int): (r: string)
    ensures |r| >= 1
    ensures r[0] == '-' <==> num < 0
  {
    if num < 0 then "-" + Group(Decimal(-num))
    else
      GroupStartsWithDigit(Decimal(num));
      Group(Decimal(num))
  }

  /** The text with its commas removed. */
  function Ungrouped(s: string): string {
    if s == [] then [] else Ungrouped(s[..|s| - 1]) + (if s[|s| - 1] == ',' then [] else [s[|s| - 1]])
  }

  lemma {:induction false} UngroupedAppend(a: string, b: string)
    ensures Ungrouped(a + b) == Ungrouped(a) + Ungrouped(b)
    decreases |b|
  {
    if b == [] {
      assert a + b == a;
    } else {
      assert (a + b)[..|a + b| - 1] == a + b[..|b| - 1];
      UngroupedAppend(a, b[..|b| - 1]);
    }
  }

  lemma {:induction false} UngroupedNoComma(s: string)
    requires ',' !in s
    ensures Ungrouped(s) == s
    decreases |s|
  {
    if s != [] {
      UngroupedNoComma(s[..|s| - 1]);
    }
  }

  /** Grouping only inserts commas: removing them gives the digits back. */
  lemma {:induction false} GroupUngroups(ds: string)
    requires ',' !in ds
    ensures Ungrouped(Group(ds)) == ds
    decreases |ds|
  {
    if |ds| <= 3 {
      UngroupedNoComma(ds);
    } else {
      var front, back := ds[..|ds| - 3], ds[|ds| - 3..];
      NoCommaInParts(ds, |ds| - 3);
      GroupUngroups(front);
      UngroupedGroupStep(ds, front, back);
    }
  }

  /** Removing the commas of a grouping of more than three digits gives the
      ungrouped front followed by the last three digits. */
  lemma UngroupedGroupStep(ds: string, front: string, back: string)
    requires |ds| > 3 && front == ds[..|ds| - 3] && back == ds[|ds| - 3..]
    requires ',' !in back && Ungrouped(Group(front)) == front
    ensures Ungrouped(Group(ds)) == ds
  {
    assert Group(ds) == Group(front) + "," + back;
    UngroupedAroundComma(Group(front), back);
    assert front + back == ds;
  }

  lemma NoCommaInParts(ds: string, i: nat)
    requires ',' !in ds && i <= |ds|
    ensures ',' !in ds[..i] && ',' !in ds[i..]
  {
    assert forall c :: c in ds[..i] ==> c in ds;
    assert forall c :: c in ds[i..] ==> c in ds;
  }

  lemma UngroupedAroundComma(a: string, b: string)
    requires ',' !in b
    ensures Ungrouped(a + "," + b) == Ungrouped(a) + b
  {
    var comma := [','];
    assert Ungrouped(comma) == [] by {
      assert comma[..0] == [];
    }
    UngroupedAppend(a, comma);
    assert Ungrouped(a + comma) == Ungrouped(a) + [];
    assert Ungrouped(a + comma) == Ungrouped(a);
    UngroupedAppend(a + comma, b);
    UngroupedNoComma(b);
  }

  /** The groups between the commas: the first has one to three digits and
      every later one exactly three. */
  lemma {:induction false} GroupShape(ds: string)
    requires |ds| >= 1 && ',' !in ds
    ensures var parts := Split(Group(ds), ',');
            1 <= |parts[0]| <= 3 && forall k :: 1 <= k < |parts| ==> |parts[k]| == 3
    ensures Join(Split(Group(ds), ','), ',') == Group(ds)
    decreases |ds|
  {
    JoinSplit(Group(ds), ',');
    if |ds| <= 3 {
      SplitNoSep(ds, ',');
    } else {
      var front, back := ds[..|ds| - 3], ds[|ds| - 3..];
      GroupShape(front);
      SplitAtLastSep(Group(front), back, ',');
      assert Group(ds) == Group(front) + [','] + back;
    }
  }

  /** A string `FormatNumber` can produce: an optional minus sign, then
      digits and commas. */
  predicate NumberText(s: string) {
    var body := if |s| > 0 && s[0] == '-' then s[1..] else s;
    AllDigits(Ungrouped(body))
  }

  /** The number a formatted string denotes, reading past the commas. */
  function ParseNumber(s: string): int
    requires NumberText(s)
  {
    if |s| > 0 && s[0] == '-' then -(ValueOf(Ungrouped(s[1..])) as int) else ValueOf(Ungrouped(s))
  }

  /** Formatting loses nothing: the formatted text reads back as the number. */
  lemma FormatNumberRoundTrip(num: int)
    ensures NumberText(FormatNumber(num))
    ensures ParseNumber(FormatNumber(num)) == num
  {
    if num < 0 {
      NegativeRoundTrip(num);
    } else {
      NonNegativeRoundTrip(num);
    }
  }

  /** The grouped digits of `n`, with their commas removed, read back as `n`. */
  lemma GroupedDigitsRoundTrip(n: nat)
    ensures AllDigits(Ungrouped(Group(Decimal(n))))
    ensures ValueOf(Ungrouped(Group(Decimal(n)))) == n
  {
    var ds := Decimal(n);
    assert ',' !in ds by {
      assert forall k :: 0 <= k < |ds| ==> ds[k] != ',';
    }
    GroupUngroups(ds);
    DecimalValue(n);
  }

  lemma NegativeRoundTrip(num: int)
    requires num < 0
    ensures NumberText(FormatNumber(num))
    ensures ParseNumber(FormatNumber(num)) == num
  {
    var g := Group(Decimal(-num));
    GroupedDigitsRoundTrip(-num);
    MinusSignRead(g);
    assert FormatNumber(num) == "-" + g;
  }

  /** A minus sign before digits and commas reads as the negated value. */
  lemma MinusSignRead(g: string)
    requires AllDigits(Ungrouped(g))
    ensures NumberText("-" + g)
    ensures ParseNumber("-" + g) == -(ValueOf(Ungrouped(g)) as int)
  {
    assert ("-" + g)[1..] == g;
  }

  lemma NonNegativeRoundTrip(num: int)
    requires num >= 0
    ensures NumberText(FormatNumber(num))
    ensures ParseNumber(FormatNumber(num)) == num
  {
    GroupedDigitsRoundTrip(num);
    GroupStartsWithDigit(Decimal(num));
  }

  /** The grouped text starts with the first digit. */
  lemma {:induction false} GroupStartsWithDigit(ds: string)
    requires |ds| >= 1
    ensures |Group(ds)| >= 1 && Group(ds)[0] == ds[0]
    decreases |ds|
  {
    if |ds| > 3 {
      GroupStartsWithDigit(ds[..|ds| - 3]);
    }
  }

  /** Numbers below a thousand have no separator. */
  lemma FormatBelowThousand()
    ensures FormatNumber(0) == "0"
    ensures FormatNumber(999) == "999"
  {
    assert Decimal(999) == "999";
  }

  /** A negative number gets its minus sign before the grouped digits. */
  lemma FormatNegativeThousand()
    ensures FormatNumber(-1000) == "-1,000"
  {
    assert Decimal(1000) == "1000";
    assert Group("1000") == "1,000";
  }

  /** Every group of three from the right is set off by a comma. */
  lemma FormatMillions()
    ensures FormatNumber(1234567) == "1,234,567"
  {
    DigitsOfMillions();
    GroupsOfMillions();
  }

  lemma DigitsOfMillions()
    ensures Decimal(1234567) == "1234567"
  {
    assert Decimal(1234) == "1234";
  }

  lemma GroupsOfMillions()
    ensures Group("1234567") == "1,234,567"
  {
    assert Group("1234") == "1,234";
  }
}
