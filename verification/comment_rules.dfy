/** The comment-rule table of the analyzer and the lookup from a file
    extension to the rules of its language group. */
module CommentRules {
  import opened Text

  /** One comment syntax. A `Line` rule is a marker that comments out the
      rest of its line (regex `marker.*`); a `Block` rule is a pair of
      delimiters that may enclose several lines (regex `open.*?close`). */
  datatype Rule = Line(marker: string) | Block(open: string, close: string)

  /** A group of extensions sharing one ordered rule list. The names are the
      alternatives of the group's regex key, written `js|jsx|ts|...` in the
      source. */
  datatype Group = Group(names: seq<string>, rules: seq<Rule>)

  /** The comment-pattern table, in the order the lookup tries it. */
  const Table: seq<Group> := [
    Group(["py"], [Line("#"), Block("\"\"\"", "\"\"\""), Block("'''", "'''")]),
    Group(["js", "jsx", "ts", "tsx", "java", "c", "cpp", "h", "hpp", "cs", "go", "php", "swift", "kt", "rs", "scala"],
          [Line("//"), Block("/*", "*/")]),
    Group(["rb"], [Line("#"), Block("=begin", "=end")]),
    Group(["html"], [Block("<!--", "-->")]),
    Group(["css", "scss", "sass", "less"], [Block("/*", "*/"), Line("//")]),
    Group(["sh"], [Line("#")]),
    Group(["md"], []),
    Group(["json", "yml", "yaml"], [])
  ]

  /** Whether `re.match('^(' + key + ')$', ext)` succeeds for the group's key:
      `ext` is one of the alternatives, or one of them followed by a single
      trailing newline, which `$` also accepts. */
  predicate Names(g: Group, ext: string) {
    || ext in g.names
    || (|ext| > 0 && ext[|ext| - 1] == '\n' && ext[..|ext| - 1] in g.names)
  }

  /** The extension as the lookup sees it: `file_ext.lstrip('.')`. */
  function Bare(fileExt: string): string {
    LStripChar(fileExt, '.')
  }

  /** The first group, from index `i` on, that names `ext`. */
  function FirstMatch(ext: string, i: nat): (rules: seq<Rule>)
    requires i <= |Table|
    ensures rules == [] || exists g :: i <= g < |Table| && Names(Table[g], ext) && rules == Table[g].rules
    decreases |Table| - i
  {
    if i == |Table| then []
    else if Names(Table[i], ext) then Table[i].rules
    else FirstMatch(ext, i + 1)
  }

  /** `get_comment_pattern`: the rule list of the group naming the extension
      once its leading dots are stripped, or no rules at all. */
  function GetCommentPattern(fileExt: string): (rules: seq<Rule>)
    ensures rules == [] || exists g :: 0 <= g < |Table| && Names(Table[g], Bare(fileExt)) && rules == Table[g].rules
  {
    FirstMatch(Bare(fileExt), 0)
  }

  /** Delimiters are non-empty. */
  predicate WellFormedRule(r: Rule) {
    match r
    case Line(m) => m != []
    case Block(o, c) => o != [] && c != []
  }

  predicate WellFormed(rules: seq<Rule>) {
    forall k :: 0 <= k < |rules| ==> WellFormedRule(rules[k])
  }

  /** At most one line rule in a list. */
  predicate AtMostOneLineRule(rules: seq<Rule>) {
    forall i, j :: 0 <= i < j < |rules| ==> !(rules[i].Line? && rules[j].Line?)
  }

  /** No extension name belongs to two groups, and no name holds a newline. */
  predicate NamesDisjoint(t: seq<Group>) {
    && (forall g, h, n :: 0 <= g < h < |t| && n in t[g].names ==> n !in t[h].names)
    && (forall g, n :: 0 <= g < |t| && n in t[g].names ==> '\n' !in n)
  }

  /** Every group of the table has well-formed rules and at most one line rule. */
  lemma TableRulesShape()
    ensures forall g :: 0 <= g < |Table| ==> WellFormed(Table[g].rules) && AtMostOneLineRule(Table[g].rules)
  {
  }

  /** Whatever the extension, the rules it gets are well formed. */
  lemma LookedUpRulesWellFormed(fileExt: string)
    ensures WellFormed(GetCommentPattern(fileExt))
  {
    TableRulesShape();
    var rules := GetCommentPattern(fileExt);
    if rules != [] {
      var g :| 0 <= g < |Table| && Names(Table[g], Bare(fileExt)) && rules == Table[g].rules;
    }
  }

  /** No two groups share a name. */
  lemma TableNamesDisjoint()
    ensures NamesDisjoint(Table)
  {
    forall g, h | 0 <= g < h < |Table|
      ensures forall n :: n in Table[g].names ==> n !in Table[h].names
    {
      DisjointPair(g, h);
    }
    forall g | 0 <= g < |Table|
      ensures forall n :: n in Table[g].names ==> '\n' !in n
    {
      NewlineFreeNames(g);
    }
  }

  lemma NewlineFreeNames(g: nat)
    requires g < |Table|
    ensures forall n :: n in Table[g].names ==> '\n' !in n
  {
    var a := Table[g].names;
    forall i | 0 <= i < |a| ensures '\n' !in a[i] {
      assert forall k :: 0 <= k < |a[i]| ==> a[i][k] != '\n';
    }
  }

  lemma DisjointPair(g: nat, h: nat)
    requires g < h < |Table|
    ensures forall n :: n in Table[g].names ==> n !in Table[h].names
  {
    var a, b := Table[g].names, Table[h].names;
    forall i, j | 0 <= i < |a| && 0 <= j < |b| ensures a[i] != b[j] {
      assert |a[i]| != |b[j]| || a[i][0] != b[j][0] || a[i][1] != b[j][1] || a[i][|a[i]| - 1] != b[j][|b[j]| - 1];
    }
  }

  /** An extension is named by at most one group. */
  lemma NamedByOneGroup(ext: string, g: nat, h: nat)
    requires g < |Table| && h < |Table| && g != h
    requires Names(Table[g], ext)
    ensures !Names(Table[h], ext)
  {
    TableNamesDisjoint();
    if g < h {
      NamedByOneGroupOrdered(Table, ext, g, h);
    } else {
      if Names(Table[h], ext) {
        NamedByOneGroupOrdered(Table, ext, h, g);
      }
    }
  }

  lemma NamedByOneGroupOrdered(t: seq<Group>, ext: string, g: nat, h: nat)
    requires g < h < |t|
    requires NamesDisjoint(t)
    requires Names(t[g], ext)
    ensures !Names(t[h], ext)
  {
    if ext in t[g].names {
      // A listed name holds no newline, so it cannot match with one appended.
      assert ext !in t[h].names;
      if |ext| > 0 {
        assert ext[|ext| - 1] in ext;
      }
    } else {
      // The name matched with a trailing newline, which no listed name holds.
      assert ext[..|ext| - 1] !in t[h].names;
      assert ext[|ext| - 1] in ext;
      assert ext !in t[h].names;
    }
  }

  /** The lookup returns the rule list of the one group that names the
      dot-stripped extension, whatever number of leading dots it carries. */
  lemma {:induction false} DispatchNamed(fileExt: string, g: nat)
    requires g < |Table|
    requires Names(Table[g], Bare(fileExt))
    ensures GetCommentPattern(fileExt) == Table[g].rules
  {
    var ext := Bare(fileExt);
    var i := 0;
    while i < g
      invariant 0 <= i <= g
      invariant FirstMatch(ext, 0) == FirstMatch(ext, i)
    {
      NamedByOneGroup(ext, g, i);
      i := i + 1;
    }
  }

  /** An extension named by no group gets no rules. */
  lemma {:induction false} DispatchUnnamed(fileExt: string)
    requires forall g :: 0 <= g < |Table| ==> !Names(Table[g], Bare(fileExt))
    ensures GetCommentPattern(fileExt) == []
  {
    var ext := Bare(fileExt);
    var i := 0;
    while i < |Table|
      invariant 0 <= i <= |Table|
      invariant FirstMatch(ext, 0) == FirstMatch(ext, i)
    {
      i := i + 1;
    }
  }

  /** Python source gets its three rules, in table order. */
  lemma DispatchPython()
    ensures GetCommentPattern(".py") == [Line("#"), Block("\"\"\"", "\"\"\""), Block("'''", "'''")]
  {
    calc {
      GetCommentPattern(".py");
      FirstMatch(Bare(".py"), 0);
      { assert Bare(".py") == "py"; }
      FirstMatch("py", 0);
      { assert Names(Table[0], "py"); }
      Table[0].rules;
    }
  }

  /** Leading dots are all stripped before the lookup. */
  lemma DispatchManyDots()
    ensures GetCommentPattern("..sh") == [Line("#")]
  {
    ShellGroupNamesSh();
    DispatchNamed("..sh", 5);
  }

  lemma ShellGroupNamesSh()
    ensures Names(Table[5], Bare("..sh"))
  {
    assert Names(Table[5], "sh");
    assert Bare("..sh") == "sh";
  }

  /** Markdown is in the table with no rules. */
  lemma DispatchMarkdown()
    ensures GetCommentPattern(".md") == []
  {
    MarkdownGroupNamesMd();
    DispatchNamed(".md", 6);
  }

  lemma MarkdownGroupNamesMd()
    ensures Names(Table[6], Bare(".md"))
  {
    assert Names(Table[6], "md");
    assert Bare(".md") == "md";
  }

  /** JSON is in the table with no rules. */
  lemma DispatchJson()
    ensures GetCommentPattern(".json") == []
  {
    DataGroupNamesJson();
    DispatchNamed(".json", 7);
  }

  lemma DataGroupNamesJson()
    ensures Names(Table[7], Bare(".json"))
  {
    assert Names(Table[7], "json");
    assert Bare(".json") == "json";
  }

  /** An extension outside the table gets no rules. */
  lemma DispatchUnknown()
    ensures GetCommentPattern(".txt") == []
  {
    NoGroupNamesTxt();
    DispatchUnnamed(".txt");
  }

  lemma NoGroupNamesTxt()
    ensures forall g :: 0 <= g < |Table| ==> !Names(Table[g], Bare(".txt"))
  {
    BareTxt();
    forall g | 0 <= g < |Table| ensures !Names(Table[g], "txt") {
      TxtNotListed(g);
    }
  }

  lemma BareTxt()
    ensures Bare(".txt") == "txt"
  {
  }

  lemma TxtNotListed(g: nat)
    requires g < |Table|
    ensures !Names(Table[g], "txt")
  {
    var a := Table[g].names;
    forall i | 0 <= i < |a| ensures a[i] != "txt" {
      assert |a[i]| != 3 || a[i][0] != 't' || a[i][1] != 'x';
    }
  }

  /** `re.escape`-style rendering of a delimiter as the table writes it:
      only `*` needs a backslash among the delimiters used. */
  function Escape(s: string): (r: string)
    ensures '?' in r ==> '?' in s
  {
    if s == [] then [] else (if s[0] == '*' then "\\*" else [s[0]]) + Escape(s[1..])
  }

  /** The regex text of a rule as it stands in the source table. */
  function PatternText(r: Rule): string {
    match r
    case Line(m) => Escape(m) + ".*"
    case Block(o, c) => Escape(o) + ".*?" + Escape(c)
  }

  /** `'.*?' in pattern`: the test the stripper uses to tell block rules. */
  predicate IsBlockPattern(p: string) {
    Contains(p, ".*?")
  }

  /** Text with the substring `.*?` holds a `?`. */
  lemma LazyNeedsQuestionMark(p: string)
    requires IsBlockPattern(p)
    ensures '?' in p
  {
    var i :| 0 <= i <= |p| && OccursAt(p, ".*?", i);
    assert p[i + 2] == ".*?"[2];
  }

  /** The substring test on the regex text classifies every rule whose
      delimiters hold no `?` exactly as its kind does. */
  lemma BlockIffLazy(r: Rule)
    requires match r case Line(m) => '?' !in m case Block(_, _) => true
    ensures IsBlockPattern(PatternText(r)) <==> r.Block?
  {
    match r
    case Line(m) =>
      if IsBlockPattern(PatternText(r)) {
        LazyNeedsQuestionMark(PatternText(r));
      }
    case Block(o, c) =>
      var p := PatternText(r);
      assert p[|Escape(o)|..|Escape(o)| + 3] == ".*?";
      assert OccursAt(p, ".*?", |Escape(o)|);
  }

  /** In the table, the `.*?` test picks out exactly the block rules. */
  lemma TableBlockIffLazy()
    ensures forall g, k :: 0 <= g < |Table| && 0 <= k < |Table[g].rules| ==>
              (IsBlockPattern(PatternText(Table[g].rules[k])) <==> Table[g].rules[k].Block?)
  {
    forall g, k | 0 <= g < |Table| && 0 <= k < |Table[g].rules|
      ensures IsBlockPattern(PatternText(Table[g].rules[k])) <==> Table[g].rules[k].Block?
    {
      BlockIffLazy(Table[g].rules[k]);
    }
  }

}
