/** One file's measurement: the binary probe, the extension as
    `os.path.splitext` finds it, and `analyze_file`, which yields the logical
    line count of the comment-stripped text and the token count of the raw
    text, or zeros when the file is binary or anything raises. */
module FileAnalysis {
  import opened Text
  import opened CommentRules
  import opened CommentStripper

  newtype byte = x: int | 0 <= x < 256

  /** A file as the directory walk presents it: its name; its bytes as a
      binary read returns them, `None` when that read raises; and its text
      as the UTF-8 text-mode read returns it, `None` when that read raises. */
  datatype FileData = FileData(name: string, bytes: Option<seq<byte>>, text: Option<string>)

  /** The external token counter: the number of tokens of a text, or `None`
      when encoding raises. */
  type Tokenizer = string -> Option<nat>

  /** How many leading bytes the binary probe reads. */
  const ProbeSize: nat := 1024

  /** `is_binary_file`: a NUL byte among the first 1024 bytes, or a read
      that raises. */
  function IsBinaryFile(bytes: Option<seq<byte>>): (binary: bool)
    ensures binary <==> bytes.None? || exists i :: 0 <= i < |bytes.value| && i < 1024 && bytes.value[i] == 0
  {
    match bytes
    case None => true
    case Some(data) =>
      var chunk := if |data| <= ProbeSize then data else data[..ProbeSize];
      0 in chunk
  }

  /** Only the first 1024 bytes are probed: what follows them never changes
      the verdict. */
  lemma BinaryProbeSeesHeadOnly(head: seq<byte>, tail: seq<byte>)
    requires |head| >= 1024
    ensures IsBinaryFile(Some(head + tail)) == IsBinaryFile(Some(head))
  {
    var s := head + tail;
    assert forall i :: 0 <= i < 1024 ==> s[i] == head[i];
  }

  /** The index of the last `c` in `s`, or -1 (`str.rfind`). */
  function RFind(s: string, c: char): (i: int)
    ensures -1 <= i < |s|
    ensures i >= 0 ==> s[i] == c
    ensures forall k :: i < k < |s| ==> s[k] != c
  {
    if |s| == 0 then -1
    else if s[|s| - 1] == c then |s| - 1
    else RFind(s[..|s| - 1], c)
  }

  /** The last path component has a dot preceded by some character other
      than a dot. */
  predicate HasExtension(p: string) {
    exists d, k :: 0 <= k < d < |p| && p[d] == '.' && p[k] != '.' && '/' !in p[k..]
  }

  /** `os.path.splitext` for `/`-separated paths: the extension runs from the
      last dot of the last component, unless everything before that dot in
      the component is dots (so `.bashrc` has none). */
  function SplitExt(p: string): (parts: (string, string))
    ensures parts.0 + parts.1 == p
    ensures parts.1 != [] <==> HasExtension(p)
    ensures parts.1 != [] ==> parts.1[0] == '.' && '.' !in parts.1[1..] && '/' !in parts.1
  {
    var sepIndex := RFind(p, '/');
    var dotIndex := RFind(p, '.');
    if dotIndex > sepIndex && exists k :: sepIndex < k < dotIndex && p[k] != '.' then
      var k :| sepIndex < k < dotIndex && p[k] != '.';
      assert '/' !in p[k..] by {
        forall q | 0 <= q < |p[k..]| ensures p[k..][q] != '/' {
          assert p[k..][q] == p[k + q];
        }
      }
      assert (p[..dotIndex], p[dotIndex..]).1[1..] == p[dotIndex + 1..];
      (p[..dotIndex], p[dotIndex..])
    else
      assert !HasExtension(p) by {
        forall d, k | 0 <= k < d < |p| && p[d] == '.' && p[k] != '.' ensures '/' in p[k..] {
          assert dotIndex >= d;
          assert k <= sepIndex;
          assert p[k..][sepIndex - k] == '/';
        }
      }
      assert p + [] == p;
      (p, [])
  }

  /** The extension starts at the last dot. */
  lemma SplitExtLastDot()
    ensures SplitExt("a.tar.gz").1 == ".gz"
  {
    var p := "a.tar.gz";
    assert forall i :: 0 <= i < |p| ==> p[i] != '/';
    assert RFind(p, '/') == -1;
    assert RFind(p, '.') == 5;
    assert p[0] != '.';
  }

  /** A leading dot alone does not start an extension. */
  lemma SplitExtLeadingDot()
    ensures SplitExt(".bashrc").1 == []
  {
    var q := ".bashrc";
    assert forall i :: 0 <= i < |q| ==> q[i] != '/';
    assert forall i :: 0 < i < |q| ==> q[i] != '.';
    assert q[0] == '.';
    assert RFind(q, '.') == 0;
  }

  /** The extension keeps its case. */
  lemma SplitExtKeepsCase()
    ensures SplitExt("Main.PY").1 == ".PY"
  {
    var m := "Main.PY";
    assert forall i :: 0 <= i < |m| ==> m[i] != '/';
    assert RFind(m, '/') == -1;
    assert RFind(m, '.') == 4;
    assert m[0] != '.';
  }

  /** `os.path.splitext(name)[1].lower()`. */
  function FileExtension(name: string): (ext: string)
    ensures ext != [] <==> HasExtension(name)
    ensures ext != [] ==> ext[0] == '.'
    ensures !HasUpper(ext)
  {
    LowerIsLower(SplitExt(name).1);
    Lower(SplitExt(name).1)
  }

  /** What `analyze_file` returns: the logical line count, the token count
      and the text read. */
  datatype FileResult = FileResult(loc: nat, tokens: nat, content: string)

  /** The file is skipped, yielding `(0, 0, "")`: it is binary, its text
      cannot be read, or the token counter raises. */
  predicate Skipped(f: FileData, countTokens: Tokenizer) {
    || IsBinaryFile(f.bytes)
    || f.text.None?
    || countTokens(f.text.value).None?
  }

  /** The lines `remove_comments` keeps for a readable file. */
  function KeptLines(f: FileData): seq<string>
    requires f.text.Some?
  {
    LookedUpRulesWellFormed(FileExtension(f.name));
    Cleaned(f.text.value, GetCommentPattern(FileExtension(f.name)))
  }

  /** The result of `analyze_file` for a file. */
  function Analysis(f: FileData, countTokens: Tokenizer): (r: FileResult)
    ensures !Skipped(f, countTokens) ==> r.loc >= 1 && r.content == f.text.value
  {
    if Skipped(f, countTokens) then FileResult(0, 0, [])
    else
      var clean := Join(KeptLines(f), '\n');
      FileResult(|Split(clean, '\n')|, countTokens(f.text.value).value, f.text.value)
  }

  /** `analyze_file(file_path)`. */
  method AnalyzeFile(f: FileData, countTokens: Tokenizer) returns (loc: nat, tokens: nat, content: string)
    ensures FileResult(loc, tokens, content) == Analysis(f, countTokens)
  {
    if IsBinaryFile(f.bytes) {
      return 0, 0, [];
    }
    if f.text.None? {
      // The text-mode read raised.
      return 0, 0, [];
    }
    content := f.text.value;
    var fileExt := FileExtension(f.name);
    var cleanContent := RemoveComments(content, fileExt);
    loc := |Split(cleanContent, '\n')|;
    var counted := countTokens(content);
    if counted.None? {
      // The token counter raised.
      return 0, 0, [];
    }
    tokens := counted.value;
  }

  /** For a file that is not skipped, the line count is the number of kept
      lines, or 1 when none is kept, and the tokens are counted over the raw
      text, never the comment-stripped one. */
  lemma MeasuredFile(f: FileData, countTokens: Tokenizer)
    requires !Skipped(f, countTokens)
    ensures Analysis(f, countTokens).loc == if |KeptLines(f)| == 0 then 1 else |KeptLines(f)|
    ensures Analysis(f, countTokens).tokens == countTokens(f.text.value).value
    ensures Analysis(f, countTokens).content == f.text.value
  {
    LineCount(KeptLines(f));
  }

  /** A file yields no lines exactly when it is skipped, and then it yields
      `(0, 0, "")`. */
  lemma NoLinesIffSkipped(f: FileData, countTokens: Tokenizer)
    ensures Analysis(f, countTokens).loc == 0 <==> Skipped(f, countTokens)
    ensures Skipped(f, countTokens) ==> Analysis(f, countTokens) == FileResult(0, 0, [])
  {
    if !Skipped(f, countTokens) {
      MeasuredFile(f, countTokens);
    }
  }

  /** An empty or comment-only text still counts one line: joining no kept
      lines gives the empty text, and splitting that gives one empty piece. */
  lemma NoCodeCountsOneLine(f: FileData, countTokens: Tokenizer)
    requires !Skipped(f, countTokens)
    requires KeptLines(f) == []
    ensures Analysis(f, countTokens).loc == 1
  {
    MeasuredFile(f, countTokens);
  }

  /** In particular an empty readable file counts one line. */
  lemma EmptyFileCountsOneLine(f: FileData, countTokens: Tokenizer)
    requires !Skipped(f, countTokens)
    requires f.text == Some([])
    ensures Analysis(f, countTokens).loc == 1
  {
    LookedUpRulesWellFormed(FileExtension(f.name));
    EmptyTextKeepsNothing(GetCommentPattern(FileExtension(f.name)));
    NoCodeCountsOneLine(f, countTokens);
  }

  /** Two readable files with the same text get the same token count,
      whatever their extensions and so whatever comments are stripped. */
  lemma TokensIgnoreCommentRules(f: FileData, g: FileData, countTokens: Tokenizer)
    requires !Skipped(f, countTokens) && !Skipped(g, countTokens)
    requires f.text == g.text
    ensures Analysis(f, countTokens).tokens == Analysis(g, countTokens).tokens
  {
    MeasuredFile(f, countTokens);
    MeasuredFile(g, countTokens);
  }
}
