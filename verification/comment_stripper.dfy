/** `remove_comments`: block comments are deleted from the whole text first,
    then the text is split into lines, blank and whole-line-comment lines are
    dropped, and the rest lose their trailing comment. The matching is by the
    fixed delimiters of the rule table, naive on purpose: a marker inside a
    string literal counts as a comment too. */
module CommentStripper {
  import opened Text
  import opened CommentRules

  /** `re.sub(open + '.*?' + close, '', s, flags=re.DOTALL)`: scanning left to
      right, an opener followed somewhere by a closer is deleted together with
      everything up to the end of the first such closer; an opener with no
      closer after it stays, and the scan moves on by one character. */
  function DeleteSpans(s: string, open: string, close: string): (r: string)
    requires open != []
    ensures |r| <= |s|
    decreases |s|
  {
    if |s| == 0 then []
    else if OccursAt(s, open, 0) then
      match FindFrom(s, close, |open|)
      case Some(j) => DeleteSpans(s[j + |close|..], open, close)
      case None => [s[0]] + DeleteSpans(s[1..], open, close)
    else [s[0]] + DeleteSpans(s[1..], open, close)
  }

  /** Occurrences in a suffix are occurrences in the whole text, shifted. */
  lemma OccursAtShift(s: string, t: string, d: nat, i: int)
    requires d <= |s|
    ensures OccursAt(s[d..], t, i) <==> (0 <= i && OccursAt(s, t, i + d))
  {
    if 0 <= i && i + |t| <= |s| - d {
      assert s[d..][i..i + |t|] == s[i + d..i + d + |t|];
    }
  }

  /** Text before the first opener passes through the scan untouched. */
  lemma {:induction false} OpenerFreePrefix(pre: string, rest: string, open: string, close: string)
    requires open != []
    requires forall i :: 0 <= i < |pre| ==> !OccursAt(pre + rest, open, i)
    ensures DeleteSpans(pre + rest, open, close) == pre + DeleteSpans(rest, open, close)
    decreases |pre|
  {
    if pre != [] {
      var s := pre + rest;
      assert DeleteSpans(s, open, close) == [s[0]] + DeleteSpans(s[1..], open, close);
      assert s[1..] == pre[1..] + rest;
      forall i | 0 <= i < |pre[1..]| ensures !OccursAt(pre[1..] + rest, open, i) {
        OccursAtShift(s, open, 1, i);
      }
      OpenerFreePrefix(pre[1..], rest, open, close);
      assert s[0] == pre[0];
      assert [pre[0]] + pre[1..] == pre;
      calc {
        DeleteSpans(s, open, close);
        [pre[0]] + DeleteSpans(pre[1..] + rest, open, close);
        [pre[0]] + (pre[1..] + DeleteSpans(rest, open, close));
        ([pre[0]] + pre[1..]) + DeleteSpans(rest, open, close);
      }
    } else {
      assert pre + rest == rest;
    }
  }

  /** A text with no opener is left as it is. */
  lemma NoOpenerUnchanged(s: string, open: string, close: string)
    requires open != []
    requires !Contains(s, open)
    ensures DeleteSpans(s, open, close) == s
  {
    assert s + [] == s;
    OpenerFreePrefix(s, [], open, close);
  }

  /** An opener with no closer anywhere after it is not a comment: a text
      without any closer is left as it is. */
  lemma {:induction false} NoCloserUnchanged(s: string, open: string, close: string)
    requires open != []
    requires !Contains(s, close)
    ensures DeleteSpans(s, open, close) == s
    decreases |s|
  {
    if s != [] {
      if OccursAt(s, open, 0) {
        assert FindFrom(s, close, |open|).None?;
      }
      assert !Contains(s[1..], close) by {
        if Contains(s[1..], close) {
          var i :| 0 <= i <= |s[1..]| && OccursAt(s[1..], close, i);
          OccursAtShift(s, close, 1, i);
        }
      }
      NoCloserUnchanged(s[1..], open, close);
      assert [s[0]] + s[1..] == s;
    }
  }

  /** A delimited span is deleted whole, newlines included: the text before
      its opener and the text after its closer are kept and become adjacent,
      and scanning resumes after the closer. The span ends at the first closer
      after the opener. */
  lemma SpanDeleted(pre: string, open: string, mid: string, close: string, post: string)
    requires open != []
    requires forall i :: 0 <= i < |pre| ==> !OccursAt(pre + open + mid + close + post, open, i)
    requires forall k :: 0 <= k < |mid| ==> !OccursAt(mid + close + post, close, k)
    ensures DeleteSpans(pre + open + mid + close + post, open, close) == pre + DeleteSpans(post, open, close)
  {
    var t := open + mid + close + post;
    assert pre + open + mid + close + post == pre + t;
    OpenerFreePrefix(pre, t, open, close);
    SpanAtStart(open, mid, close, post);
  }

  lemma SpanAtStart(open: string, mid: string, close: string, post: string)
    requires open != []
    requires forall k :: 0 <= k < |mid| ==> !OccursAt(mid + close + post, close, k)
    ensures DeleteSpans(open + mid + close + post, open, close) == DeleteSpans(post, open, close)
  {
    var t := open + mid + close + post;
    var e := |open| + |mid|;
    assert t[..|open|] == open;
    assert OccursAt(t, open, 0);
    assert t[e..e + |close|] == close;
    assert t[|open|..] == mid + close + post;
    forall k | |open| <= k < e ensures !OccursAt(t, close, k) {
      OccursAtShift(t, close, |open|, k - |open|);
    }
    FindFromFirst(t, close, |open|, e);
    assert t[e + |close|..] == post;
  }

  /** The search stops at the first occurrence. */
  lemma FindFromFirst(s: string, t: string, start: nat, e: nat)
    requires start <= e
    requires OccursAt(s, t, e)
    requires forall k :: start <= k < e ==> !OccursAt(s, t, k)
    ensures FindFrom(s, t, start) == Some(e)
  {
  }

  /** The text after every block rule of the list has run, in list order,
      over the whole text (`re.DOTALL`). */
  function StripBlocks(s: string, rules: seq<Rule>): (r: string)
    requires WellFormed(rules)
    ensures |r| <= |s|
    ensures (forall k :: 0 <= k < |rules| ==> rules[k].Line?) ==> r == s
  {
    if rules == [] then s
    else
      var before := StripBlocks(s, rules[..|rules| - 1]);
      match rules[|rules| - 1]
      case Block(o, c) => DeleteSpans(before, o, c)
      case Line(_) => before
  }

  /** Block rules leave the empty text empty. */
  lemma {:induction false} StripBlocksEmpty(rules: seq<Rule>)
    requires WellFormed(rules)
    ensures StripBlocks([], rules) == []
    decreases |rules|
  {
    if rules != [] {
      StripBlocksEmpty(rules[..|rules| - 1]);
    }
  }

  /** An empty text keeps no line, whatever the rules. */
  lemma EmptyTextKeepsNothing(rules: seq<Rule>)
    requires WellFormed(rules)
    ensures Cleaned([], rules) == []
  {
    StripBlocksEmpty(rules);
    var lines: seq<string> := [[]];
    assert Split([], '\n') == lines;
    assert lines[..0] == [];
    assert IsBlank([]);
  }

  /** `re.sub(marker + '.*', '', line)` on a newline-free line: everything
      from the first occurrence of the marker to the end is removed. */
  function Cut(line: string, marker: string): (r: string)
    ensures r <= line
    ensures !Contains(line, marker) ==> r == line
    ensures r != line ==> OccursAt(line, marker, |r|)
    ensures r != line ==> forall k :: 0 <= k < |r| ==> !OccursAt(line, marker, k)
    ensures marker != [] ==> !Contains(r, marker)
  {
    match FindFrom(line, marker, 0)
    case Some(i) =>
      FirstOccurrenceEndsPrefix(line, marker, i);
      line[..i]
    case None => line
  }

  /** Overlapping occurrences: the cut is at the first one, so `///x`
      cut at `//` leaves nothing, not the `/` before the second one. */
  lemma CutAtFirstOfOverlapping()
    ensures Cut("///x", "//") == ""
  {
    var r := Cut("///x", "//");
    assert OccursAt("///x", "//", 0);
    assert r != "///x";
  }

  /** Cutting at the first occurrence leaves no occurrence behind. */
  lemma FirstOccurrenceEndsPrefix(line: string, marker: string, i: nat)
    requires i <= |line|
    requires forall k :: 0 <= k < i ==> !OccursAt(line, marker, k)
    ensures marker != [] ==> !Contains(line[..i], marker)
  {
    forall k | 0 <= k <= i ensures marker != [] ==> !OccursAt(line[..i], marker, k) {
      if k + |marker| <= i {
        assert line[..i][k..k + |marker|] == line[k..k + |marker|];
        assert OccursAt(line[..i], marker, k) ==> OccursAt(line, marker, k);
      }
    }
  }

  /** The line after every line rule of the list has cut it, in list order. */
  function CutInline(line: string, rules: seq<Rule>): (r: string)
    ensures r <= line
  {
    if rules == [] then line
    else
      var before := CutInline(line, rules[..|rules| - 1]);
      match rules[|rules| - 1]
      case Line(m) => Cut(before, m)
      case Block(_, _) => before
  }

  /** After the cuts, no marker of a line rule occurs in the line. */
  lemma {:induction false} CutInlineRemovesMarkers(line: string, rules: seq<Rule>)
    ensures forall k :: 0 <= k < |rules| && rules[k].Line? && rules[k].marker != [] ==>
              !Contains(CutInline(line, rules), rules[k].marker)
    decreases |rules|
  {
    if rules != [] {
      var front := rules[..|rules| - 1];
      var before := CutInline(line, front);
      var r := CutInline(line, rules);
      CutInlineRemovesMarkers(line, front);
      forall k | 0 <= k < |rules| - 1 && rules[k].Line? && rules[k].marker != []
        ensures !Contains(r, rules[k].marker)
      {
        assert front[k] == rules[k];
        NoOccurrenceInPrefix(before, r, rules[k].marker);
      }
    }
  }

  /** `re.match('^' + marker + '.*$', stripped)` for a line rule: the
      stripped line starts with the marker. */
  predicate MarksWholeLine(r: Rule, stripped: string) {
    r.Line? && r.marker <= stripped
  }

  /** Some line rule of the list marks the whole stripped line as a comment. */
  predicate IsWholeLineComment(stripped: string, rules: seq<Rule>) {
    exists k :: 0 <= k < |rules| && MarksWholeLine(rules[k], stripped)
  }

  /** What becomes of one line: dropped when blank or a whole-line comment,
      otherwise cut at its inline comment and kept if anything non-blank is
      left. A kept line is a non-blank prefix of the line holding no marker. */
  function CleanLine(line: string, rules: seq<Rule>): (r: Option<string>)
    ensures IsBlank(line) ==> r.None?
    ensures r.Some? ==> !IsBlank(r.value) && r.value <= line
  {
    if IsBlank(line) then None
    else if IsWholeLineComment(Strip(line), rules) then None
    else
      var cut := CutInline(line, rules);
      if IsBlank(cut) then None else Some(cut)
  }

  /** A kept line is a non-blank prefix of the line holding no marker of a
      line rule. */
  lemma CleanLineShape(line: string, rules: seq<Rule>)
    ensures CleanLine(line, rules).Some? ==>
              var r := CleanLine(line, rules).value;
              !IsBlank(r) && r <= line &&
              forall k :: 0 <= k < |rules| && rules[k].Line? && rules[k].marker != [] ==> !Contains(r, rules[k].marker)
  {
    CutInlineRemovesMarkers(line, rules);
  }

  /** The kept lines, in order. */
  function CleanLines(lines: seq<string>, rules: seq<Rule>): (kept: seq<string>)
    ensures |kept| <= |lines|
  {
    if lines == [] then []
    else
      var before := CleanLines(lines[..|lines| - 1], rules);
      match CleanLine(lines[|lines| - 1], rules)
      case Some(l) => before + [l]
      case None => before
  }

  /** No kept line is blank, and none holds a newline when no input line does. */
  lemma {:induction false} KeptLinesShape(lines: seq<string>, rules: seq<Rule>)
    ensures forall k :: 0 <= k < |CleanLines(lines, rules)| ==> !IsBlank(CleanLines(lines, rules)[k])
    ensures (forall i :: 0 <= i < |lines| ==> '\n' !in lines[i]) ==>
              forall k :: 0 <= k < |CleanLines(lines, rules)| ==> '\n' !in CleanLines(lines, rules)[k]
    decreases |lines|
  {
    if lines != [] {
      var p := lines[..|lines| - 1];
      var line := lines[|lines| - 1];
      KeptLinesShape(p, rules);
      assert forall i :: 0 <= i < |p| ==> p[i] == lines[i];
      CleanLineShape(line, rules);
      match CleanLine(line, rules)
      case Some(l) =>
        assert forall c :: c in l ==> c in line;
      case None =>
    }
  }

  /** One more line either adds its cleaned form to the kept lines or
      nothing. */
  lemma CleanLinesStep(lines: seq<string>, j: nat, rules: seq<Rule>)
    requires j < |lines|
    ensures CleanLines(lines[..j + 1], rules) ==
      match CleanLine(lines[j], rules)
      case Some(l) => CleanLines(lines[..j], rules) + [l]
      case None => CleanLines(lines[..j], rules)
  {
    assert lines[..j + 1][..j] == lines[..j];
  }

  /** The kept lines of a text: block comments first, then line by line. */
  function Cleaned(content: string, rules: seq<Rule>): (kept: seq<string>)
    requires WellFormed(rules)
    ensures forall k :: 0 <= k < |kept| ==> !IsBlank(kept[k]) && '\n' !in kept[k]
  {
    KeptLinesShape(Split(StripBlocks(content, rules), '\n'), rules);
    CleanLines(Split(StripBlocks(content, rules), '\n'), rules)
  }

  /** `remove_comments(content, file_ext)`. */
  method RemoveComments(content: string, fileExt: string) returns (clean: string)
    ensures WellFormed(GetCommentPattern(fileExt))
    ensures clean == Join(Cleaned(content, GetCommentPattern(fileExt)), '\n')
  {
    var commentPatterns := GetCommentPattern(fileExt);
    LookedUpRulesWellFormed(fileExt);
    // Multi-line comments first, over the whole text.
    var text := StripBlockComments(content, commentPatterns);
    // Then single-line comments, line by line.
    var lines := Split(text, '\n');
    var resultLines := StripLineComments(lines, commentPatterns);
    clean := Join(resultLines, '\n');
  }

  /** The loop over the lines, keeping what is left of each line in order. */
  method StripLineComments(lines: seq<string>, rules: seq<Rule>) returns (resultLines: seq<string>)
    ensures resultLines == CleanLines(lines, rules)
  {
    resultLines := [];
    for j := 0 to |lines|
      invariant resultLines == CleanLines(lines[..j], rules)
    {
      CleanLinesStep(lines, j, rules);
      var kept := StripLine(lines[j], rules);
      if kept.Some? {
        resultLines := resultLines + [kept.value];
      }
    }
    assert lines[..|lines|] == lines;
  }

  /** The body of the loop over the lines: a blank line and a whole-line
      comment are dropped, any other line loses its inline comments and is
      kept when something non-blank is left. */
  method StripLine(line: string, rules: seq<Rule>) returns (kept: Option<string>)
    ensures kept == CleanLine(line, rules)
  {
    var lineStripped := Strip(line);
    if lineStripped == [] {
      return None;
    }
    var isComment := IsCommentLine(lineStripped, rules);
    if isComment {
      return None;
    }
    var cut := CutInlineComments(line, rules);
    if IsBlank(cut) {
      return None;
    }
    return Some(cut);
  }

  /** The loop over the rules that applies every block rule to the whole text. */
  method StripBlockComments(content: string, rules: seq<Rule>) returns (text: string)
    requires WellFormed(rules)
    ensures text == StripBlocks(content, rules)
  {
    text := content;
    for i := 0 to |rules|
      invariant text == StripBlocks(content, rules[..i])
    {
      assert rules[..i + 1][..i] == rules[..i];
      if rules[i].Block? {
        text := DeleteSpans(text, rules[i].open, rules[i].close);
      }
    }
    assert rules[..|rules|] == rules;
  }

  /** The loop that looks for a line rule matching the whole stripped line,
      stopping at the first. */
  method IsCommentLine(lineStripped: string, rules: seq<Rule>) returns (isComment: bool)
    ensures isComment <==> IsWholeLineComment(lineStripped, rules)
  {
    isComment := false;
    var k := 0;
    while k < |rules|
      invariant 0 <= k <= |rules|
      invariant !isComment
      invariant forall q :: 0 <= q < k ==> !MarksWholeLine(rules[q], lineStripped)
    {
      if rules[k].Line? && rules[k].marker <= lineStripped {
        isComment := true;
        break;
      }
      k := k + 1;
    }
  }

  /** The loop that removes every line rule's inline comment from a line. */
  method CutInlineComments(line: string, rules: seq<Rule>) returns (cut: string)
    ensures cut == CutInline(line, rules)
  {
    cut := line;
    for q := 0 to |rules|
      invariant cut == CutInline(line, rules[..q])
    {
      assert rules[..q + 1][..q] == rules[..q];
      if rules[q].Line? {
        cut := Cut(cut, rules[q].marker);
      }
    }
    assert rules[..|rules|] == rules;
  }

  /** Without rules, the kept lines are exactly the non-blank lines, unchanged
      and in their original order. */
  function NonBlank(lines: seq<string>): seq<string> {
    if lines == [] then []
    else if IsBlank(lines[|lines| - 1]) then NonBlank(lines[..|lines| - 1])
    else NonBlank(lines[..|lines| - 1]) + [lines[|lines| - 1]]
  }

  lemma {:induction false} NoRulesKeepsNonBlankLines(lines: seq<string>)
    ensures CleanLines(lines, []) == NonBlank(lines)
  {
    if lines != [] {
      NoRulesKeepsNonBlankLines(lines[..|lines| - 1]);
    }
  }

  /** For an extension with no rules, the cleaned text is the input's
      non-blank lines. */
  lemma NoRulesCleaned(content: string)
    ensures Cleaned(content, []) == NonBlank(Split(content, '\n'))
  {
    NoRulesKeepsNonBlankLines(Split(content, '\n'));
  }

  /** A line whose stripped form starts with a line-comment marker is dropped. */
  lemma CommentLineDropped(line: string, rules: seq<Rule>, k: nat)
    requires k < |rules| && rules[k].Line?
    requires rules[k].marker <= Strip(line)
    ensures CleanLine(line, rules).None?
  {
  }

  /** With a single line rule, every other line loses everything from the
      first marker occurrence on. */
  lemma {:induction false} SingleMarkerCut(line: string, rules: seq<Rule>, k: nat)
    requires AtMostOneLineRule(rules)
    requires k < |rules| && rules[k].Line?
    ensures CutInline(line, rules) == Cut(line, rules[k].marker)
  {
    var n := |rules|;
    var p := rules[..n - 1];
    assert AtMostOneLineRule(p);
    if k == n - 1 {
      NoLineRuleNoCut(line, p);
    } else {
      SingleMarkerCut(line, p, k);
      assert !rules[n - 1].Line?;
    }
  }

  lemma {:induction false} NoLineRuleNoCut(line: string, rules: seq<Rule>)
    requires forall k :: 0 <= k < |rules| ==> !rules[k].Line?
    ensures CutInline(line, rules) == line
  {
    if rules != [] {
      NoLineRuleNoCut(line, rules[..|rules| - 1]);
    }
  }

  /** A marker is only removed where it occurs: a line with no marker in it
      passes through line-comment cutting unchanged. */
  lemma {:induction false} MarkerFreeNoCut(line: string, rules: seq<Rule>)
    requires forall k :: 0 <= k < |rules| && rules[k].Line? ==> !Contains(line, rules[k].marker)
    ensures CutInline(line, rules) == line
  {
    if rules != [] {
      MarkerFreeNoCut(line, rules[..|rules| - 1]);
    }
  }

  /** A non-blank line with no marker in it is kept unchanged. */
  lemma MarkerFreeLineKept(line: string, rules: seq<Rule>)
    requires !IsBlank(line)
    requires forall k :: 0 <= k < |rules| && rules[k].Line? ==> !Contains(line, rules[k].marker)
    ensures CleanLine(line, rules) == Some(line)
  {
    MarkerFreeNoCut(line, rules);
    if IsWholeLineComment(Strip(line), rules) {
      var k :| 0 <= k < |rules| && MarksWholeLine(rules[k], Strip(line));
      var m, l := rules[k].marker, LStrip(line);
      LStripShape(line);
      RStripShape(l);
      var off := |line| - |l|;
      assert Strip(line) <= l;
      assert line[off..off + |m|] == m;
      assert OccursAt(line, m, off);
    }
  }

  /** The indices of the lines that are kept. */
  function KeptIndices(lines: seq<string>, rules: seq<Rule>): seq<nat> {
    if lines == [] then []
    else
      var before := KeptIndices(lines[..|lines| - 1], rules);
      if CleanLine(lines[|lines| - 1], rules).Some? then before + [|lines| - 1] else before
  }

  /** There are as many kept indices as kept lines. */
  lemma {:induction false} KeptIndicesCount(lines: seq<string>, rules: seq<Rule>)
    ensures |KeptIndices(lines, rules)| == |CleanLines(lines, rules)|
    decreases |lines|
  {
    if lines != [] {
      KeptIndicesCount(lines[..|lines| - 1], rules);
    }
  }

  /** The kept indices are indices of the input, in increasing order. */
  lemma {:induction false} KeptIndicesIncrease(lines: seq<string>, rules: seq<Rule>)
    ensures forall k :: 0 <= k < |KeptIndices(lines, rules)| ==> KeptIndices(lines, rules)[k] < |lines|
    ensures forall a, b :: 0 <= a < b < |KeptIndices(lines, rules)| ==> KeptIndices(lines, rules)[a] < KeptIndices(lines, rules)[b]
    decreases |lines|
  {
    if lines != [] {
      var p := lines[..|lines| - 1];
      KeptIndicesIncrease(p, rules);
      KeptIndicesStep(lines, rules);
    }
  }

  /** Kept lines come from the input lines in their original order: the k-th
      kept line is what CleanLine made of the line at an index that increases
      with k. */
  lemma {:induction false} KeptLinesInOrder(lines: seq<string>, rules: seq<Rule>)
    ensures |KeptIndices(lines, rules)| == |CleanLines(lines, rules)|
    ensures forall a, b :: 0 <= a < b < |KeptIndices(lines, rules)| ==> KeptIndices(lines, rules)[a] < KeptIndices(lines, rules)[b]
    ensures forall k :: 0 <= k < |KeptIndices(lines, rules)| ==>
              KeptIndices(lines, rules)[k] < |lines| &&
              CleanLine(lines[KeptIndices(lines, rules)[k]], rules) == Some(CleanLines(lines, rules)[k])
    decreases |lines|
  {
    KeptIndicesCount(lines, rules);
    KeptIndicesIncrease(lines, rules);
    if lines != [] {
      var p := lines[..|lines| - 1];
      KeptLinesInOrder(p, rules);
      var idx := KeptIndices(p, rules);
      forall k | 0 <= k < |idx| ensures p[idx[k]] == lines[idx[k]] { }
    }
  }

  /** Every line whose index is not among the kept ones was dropped. */
  lemma {:induction false} DroppedLines(lines: seq<string>, rules: seq<Rule>)
    ensures forall i :: 0 <= i < |lines| && i !in KeptIndices(lines, rules) ==> CleanLine(lines[i], rules).None?
    decreases |lines|
  {
    if lines != [] {
      var n := |lines|;
      var p := lines[..n - 1];
      DroppedLines(p, rules);
      KeptIndicesStep(lines, rules);
      var idx := KeptIndices(p, rules);
      forall i | 0 <= i < n && i !in KeptIndices(lines, rules) ensures CleanLine(lines[i], rules).None? {
        if i < n - 1 {
          assert i !in idx;
          assert lines[i] == p[i];
        }
      }
    }
  }

  /** One more line adds its index to the kept ones exactly when it is kept. */
  lemma KeptIndicesStep(lines: seq<string>, rules: seq<Rule>)
    requires lines != []
    ensures KeptIndices(lines, rules) ==
      var before := KeptIndices(lines[..|lines| - 1], rules);
      if CleanLine(lines[|lines| - 1], rules).Some? then before + [|lines| - 1] else before
  {
  }

  /** `len('\n'.join(kept).split('\n'))`: one per kept line, but 1 when
      nothing is kept, because splitting the empty text gives one empty piece. */
  lemma LineCount(kept: seq<string>)
    requires forall k :: 0 <= k < |kept| ==> '\n' !in kept[k]
    ensures |Split(Join(kept, '\n'), '\n')| == if |kept| == 0 then 1 else |kept|
  {
    if |kept| > 0 {
      SplitJoin(kept, '\n');
    }
  }
}
