/**
 * The side panel of the 3D town: the small text helpers it renders with
 * (elapsed time, token counts, HTML escaping, tool-output truncation), the
 * artifact list built from a delegate's conversation, and the grouping of
 * desk documents by directory.
 */
module Panel {
  import opened Wrappers
  import opened Text

  // ---------------------------------------------------------------------
  // Elapsed time: "42s", "3m 07s"

  /** JavaScript's `%`: the remainder takes the sign of the dividend. */
  function JsRem(a: int, b: int): (r: int)
    requires b > 0
    ensures -b < r < b
    ensures a >= 0 ==> 0 <= r
    ensures a <= 0 ==> r <= 0
    ensures a >= 0 ==> r == a % b
  {
    if a >= 0 then a % b else -((-a) % b)
  }

  /** `String(n)` for an integer. */
  function IntToString(n: int): (s: string)
    ensures |s| >= 1
    ensures n >= 0 ==> s == NatToString(n)
  {
    if n < 0 then "-" + NatToString(-n) else NatToString(n)
  }

  /** `s.padStart(2, '0')`. */
  function PadStart2(s: string): (p: string)
    ensures |p| == if |s| >= 2 then |s| else 2
    ensures p[|p| - |s|..] == s
    ensures forall i :: 0 <= i < |p| - |s| ==> p[i] == '0'
  {
    if |s| >= 2 then s else if |s| == 1 then "0" + s else "00"
  }

  /**
   * formatElapsed for a whole number of seconds. The minutes are the
   * floor of seconds / 60 (Dafny's division agrees with the floor for a
   * positive divisor) and the seconds are JavaScript's remainder.
   */
  function FormatElapsed(seconds: int): string {
    var m := seconds / 60;
    var s := JsRem(seconds, 60);
    if m == 0 then IntToString(s) + "s"
    else IntToString(m) + "m " + PadStart2(IntToString(s)) + "s"
  }

  /** Reads a "42s" or "3m 07s" label back into a number of seconds. */
  function ParseElapsed(t: string): Option<nat> {
    if |t| == 0 || t[|t| - 1] != 's' then None
    else ParseFields(Split(t[..|t| - 1], ' '))
  }

  /** The space-separated fields of a label without its final "s". */
  function ParseFields(parts: seq<string>): Option<nat> {
    if |parts| == 1 then ParseNat(parts[0])
    else if |parts| == 2 then
      match (ParseMinutes(parts[0]), ParseNat(parts[1]))
      case (Some(m), Some(s)) => Some(m * 60 + s)
      case _ => None
    else None
  }

  function ParseMinutes(field: string): Option<nat> {
    if |field| >= 1 && field[|field| - 1] == 'm' then ParseNat(field[..|field| - 1]) else None
  }

  /** Under a minute the label is the bare seconds; from a minute on it is minutes and two-digit seconds. */
  lemma ElapsedShape(seconds: nat)
    ensures seconds < 60 ==> FormatElapsed(seconds) == NatToString(seconds) + "s"
    ensures seconds >= 60 ==>
      var pad := PadStart2(NatToString(seconds % 60));
      |pad| == 2 && ParseNat(pad) == Some(seconds % 60) &&
      FormatElapsed(seconds) == NatToString(seconds / 60) + "m " + pad + "s"
  {
    if seconds >= 60 {
      var s := seconds % 60;
      TwoDigits(s);
    }
  }

  /** The zero-padded seconds field reads back as the seconds. */
  lemma TwoDigits(s: nat)
    requires s < 60
    ensures |PadStart2(NatToString(s))| == 2
    ensures ParseNat(PadStart2(NatToString(s))) == Some(s)
  {
    ParseNatToString(s);
    if s < 10 {
      var p := PadStart2(NatToString(s));
      assert p == ['0', DigitChar(s)];
      assert p[..1] == "0";
      assert ParseNat(p[..1]) == Some(0);
    } else {
      assert s / 10 < 10;
    }
  }

  /** A label is its fields followed by "s". */
  lemma ParseElapsedOf(body: string)
    ensures ParseElapsed(body + "s") == ParseFields(Split(body, ' '))
  {
    var t := body + "s";
    assert t[..|t| - 1] == body;
  }

  lemma ParseShort(n: nat)
    ensures ParseElapsed(NatToString(n) + "s") == Some(n)
  {
    ParseElapsedOf(NatToString(n));
    SplitNoSep(NatToString(n), ' ');
    ParseNatToString(n);
  }

  lemma ParseLong(m: nat, s: nat)
    requires s < 60
    ensures ParseElapsed(NatToString(m) + "m " + PadStart2(NatToString(s)) + "s") == Some(m * 60 + s)
  {
    var pad := PadStart2(NatToString(s));
    var head := NatToString(m) + "m";
    var body := head + [' '] + pad;
    LabelPieces(NatToString(m), pad);
    ParseElapsedOf(body);
    MinutesField(m);
    TwoDigits(s);
    SplitAtSpace(head, pad);
    FieldsOfTwo(head, pad, m, s);
  }

  lemma LabelPieces(minutes: string, pad: string)
    ensures minutes + "m " + pad + "s" == (minutes + "m") + [' '] + pad + "s"
  {
  }

  lemma MinutesField(m: nat)
    ensures ' ' !in NatToString(m) + "m"
    ensures ParseMinutes(NatToString(m) + "m") == Some(m)
  {
    var head := NatToString(m) + "m";
    assert forall i :: 0 <= i < |head| - 1 ==> head[i] == NatToString(m)[i];
    assert head[..|head| - 1] == NatToString(m);
    ParseNatToString(m);
  }

  lemma SplitAtSpace(head: string, tail: string)
    requires ' ' !in head && ' ' !in tail
    ensures Split(head + [' '] + tail, ' ') == [head, tail]
  {
    SplitConcat(head, ' ', tail);
    SplitNoSep(head, ' ');
    SplitNoSep(tail, ' ');
  }

  lemma FieldsOfTwo(head: string, pad: string, m: nat, s: nat)
    requires ParseMinutes(head) == Some(m) && ParseNat(pad) == Some(s)
    ensures ParseFields([head, pad]) == Some(m * 60 + s)
  {
    var parts := [head, pad];
    assert parts[0] == head && parts[1] == pad;
  }

  /** Every label for a non-negative elapsed time reads back as that time. */
  lemma ElapsedRoundTrip(seconds: nat)
    ensures ParseElapsed(FormatElapsed(seconds)) == Some(seconds)
  {
    ElapsedShape(seconds);
    if seconds < 60 {
      ParseShort(seconds);
    } else {
      var m, sec := seconds / 60, seconds % 60;
      assert m * 60 + sec == seconds;
      ParseLong(m, sec);
      assert FormatElapsed(seconds) == NatToString(m) + "m " + PadStart2(NatToString(sec)) + "s";
    }
  }

  // ---------------------------------------------------------------------
  // Token counts: "1.23M", "4.5K", "999"

  /** Which form formatTokens picks; the scaled value is printed with toFixed. */
  datatype TokenLabel = Millions(scaled: real) | Thousands(scaled: real) | Plain(text: string)

  function FormatTokens(n: int): (r: TokenLabel)
    ensures r.Millions? <==> n >= 1000000
    ensures r.Thousands? <==> 1000 <= n < 1000000
    ensures r.Plain? <==> n < 1000
    ensures r.Millions? ==> r.scaled >= 1.0 && r.scaled * 1000000.0 == n as real
    ensures r.Thousands? ==> 1.0 <= r.scaled < 1000.0 && r.scaled * 1000.0 == n as real
    ensures r.Plain? && n >= 0 ==> ParseNat(r.text) == Some(n)
  {
    if n >= 1000000 then Millions(n as real / 1000000.0)
    else if n >= 1000 then Thousands(n as real / 1000.0)
    else if n >= 0 then
      ParseNatToString(n);
      Plain(IntToString(n))
    else Plain(IntToString(n))
  }

  /** A goose without a token count shows the label for zero. */
  function TokensLabel(tokens: Option<int>): (r: TokenLabel)
    ensures tokens.None? ==> r == Plain("0")
    ensures tokens.Some? ==> r == FormatTokens(tokens.value)
  {
    FormatTokens(tokens.GetOr(0))
  }

  // ---------------------------------------------------------------------
  // HTML escaping

  /** `s.replace(/c/g, r)` for a single character c. */
  function ReplaceChar(s: string, c: char, r: string): (t: string)
    ensures c !in r ==> c !in t
  {
    if |s| == 0 then ""
    else (if s[0] == c then r else [s[0]]) + ReplaceChar(s[1..], c, r)
  }

  /** escapeHtml: the two global replacements, `<` first, then `>`. */
  function EscapeHtml(s: string): string {
    ReplaceChar(ReplaceChar(s, '<', "&lt;"), '>', "&gt;")
  }

  /** Reference definition: each character escaped on its own. */
  function EscapeChar(c: char): string {
    if c == '<' then "&lt;" else if c == '>' then "&gt;" else [c]
  }

  function EscapeEach(s: string): (t: string)
    ensures '<' !in t && '>' !in t
  {
    if |s| == 0 then "" else EscapeChar(s[0]) + EscapeEach(s[1..])
  }

  lemma {:induction false} ReplaceAppend(a: string, b: string, c: char, r: string)
    ensures ReplaceChar(a + b, c, r) == ReplaceChar(a, c, r) + ReplaceChar(b, c, r)
  {
    if |a| > 0 {
      var h := if a[0] == c then r else [a[0]];
      assert (a + b)[0] == a[0];
      assert (a + b)[1..] == a[1..] + b;
      assert ReplaceChar(a + b, c, r) == h + ReplaceChar(a[1..] + b, c, r);
      ReplaceAppend(a[1..], b, c, r);
      assert ReplaceChar(a, c, r) == h + ReplaceChar(a[1..], c, r);
    } else {
      assert a + b == b;
    }
  }

  lemma {:induction false} ReplaceAbsent(s: string, c: char, r: string)
    requires c !in s
    ensures ReplaceChar(s, c, r) == s
  {
    if |s| > 0 {
      ReplaceAbsent(s[1..], c, r);
    }
  }

  /** The two replacement passes escape every character independently, leaving all but `<` and `>` as they were. */
  lemma {:induction false} EscapeHtmlPerChar(s: string)
    ensures EscapeHtml(s) == EscapeEach(s)
  {
    if |s| > 0 {
      var head := if s[0] == '<' then "&lt;" else [s[0]];
      assert ReplaceChar(s, '<', "&lt;") == head + ReplaceChar(s[1..], '<', "&lt;");
      ReplaceAppend(head, ReplaceChar(s[1..], '<', "&lt;"), '>', "&gt;");
      if s[0] == '<' {
        ReplaceAbsent("&lt;", '>', "&gt;");
      } else {
        assert ReplaceChar(head, '>', "&gt;") == EscapeChar(s[0]);
      }
      EscapeHtmlPerChar(s[1..]);
    }
  }

  /** The output holds no angle bracket. */
  lemma EscapeHtmlNoAngles(s: string)
    ensures '<' !in EscapeHtml(s) && '>' !in EscapeHtml(s)
  {
    EscapeHtmlPerChar(s);
  }

  /** Text without angle brackets passes through unchanged, so escaping twice is escaping once. */
  lemma EscapeHtmlIdempotent(s: string)
    ensures '<' !in s && '>' !in s ==> EscapeHtml(s) == s
    ensures EscapeHtml(EscapeHtml(s)) == EscapeHtml(s)
  {
    if '<' !in s && '>' !in s {
      ReplaceAbsent(s, '<', "&lt;");
      ReplaceAbsent(s, '>', "&gt;");
    }
    var e := EscapeHtml(s);
    EscapeHtmlNoAngles(s);
    ReplaceAbsent(e, '<', "&lt;");
    ReplaceAbsent(e, '>', "&gt;");
  }

  // ---------------------------------------------------------------------
  // Tool responses in the conversation tab

  const ToolTextLimit: nat := 2000

  /** The shown tool output: the first 2000 characters, and an ellipsis exactly when more was cut. */
  function Truncated(text: string): (t: string)
    ensures |text| <= ToolTextLimit ==> t == text
    ensures |text| > ToolTextLimit ==>
      |t| == ToolTextLimit + 1 && t[..ToolTextLimit] == text[..ToolTextLimit] && t[ToolTextLimit] == '…'
  {
    if |text| > ToolTextLimit then text[..ToolTextLimit] + "…" else text
  }

  /** The markup body for one tool response, or nothing when its text is empty. */
  function ToolResponseText(text: string): (r: Option<string>)
    ensures r.None? <==> text == ""
    ensures r.Some? ==> '<' !in r.value && '>' !in r.value
    ensures r.Some? && |text| <= ToolTextLimit && '<' !in text && '>' !in text ==> r.value == text
    ensures |text| <= ToolTextLimit ==> r == if text == "" then None else Some(EscapeHtml(text))
    ensures |text| > ToolTextLimit ==> r == Some(EscapeHtml(text[..ToolTextLimit]) + "…")
  {
    if text == "" then None
    else
      var cut := if |text| > ToolTextLimit then text[..ToolTextLimit] else text;
      EscapeHtmlNoAngles(cut);
      EscapeHtmlIdempotent(cut);
      assert '…' != '<' && '…' != '>';
      assert EscapeHtml(cut) + "" == EscapeHtml(cut);
      Some(EscapeHtml(cut) + (if |text| > ToolTextLimit then "…" else ""))
  }

  // ---------------------------------------------------------------------
  // Artifacts tab

  /** The tool arguments the artifact list looks at; "" stands for a missing or empty field. */
  datatype ToolArgs = ToolArgs(path: string, filePath: string, command: string)

  /** A content block: its type, its own name and input, and the name and arguments of a nested tool call. */
  datatype Block = Block(kind: string, name: string, callName: string, input: Option<ToolArgs>, callArgs: Option<ToolArgs>)

  datatype ParsedMessage = ParsedMessage(content: seq<Block>)

  datatype Artifact = FileArtifact(path: string, command: string) | ShellArtifact(command: string)

  const ArtifactTools: set<string> :=
    {"developer__text_editor", "text_editor", "Write", "Edit", "developer__shell", "Bash"}

  /** JavaScript's `a || b` on strings. */
  function Or(a: string, b: string): (r: string)
    ensures r == a || r == b
    ensures r == "" ==> b == ""
  {
    if a != "" then a else b
  }

  predicate IsToolUse(b: Block) {
    b.kind == "tool_use" || b.kind == "toolRequest"
  }

  function ToolName(b: Block): string {
    Or(b.name, b.callName)
  }

  function ArgsOf(b: Block): ToolArgs {
    if b.input.Some? then b.input.value
    else if b.callArgs.Some? then b.callArgs.value
    else ToolArgs("", "", "")
  }

  predicate IsFileTool(name: string) {
    Contains(name, "text_editor") || name == "Write" || name == "Edit"
  }

  /** The artifact one block contributes, if any. */
  function ArtifactOf(b: Block): (r: Option<Artifact>)
    ensures r.Some? <==> IsToolUse(b) && ToolName(b) in ArtifactTools
    ensures r.Some? ==> (r.value.FileArtifact? <==> IsFileTool(ToolName(b)))
    ensures r.Some? && r.value.FileArtifact? ==> r.value.path != "" && r.value.command != ""
    ensures r.Some? && r.value.FileArtifact? ==>
      var a := ArgsOf(b);
      (a.path != "" ==> r.value.path == a.path) &&
      (a.path == "" && a.filePath != "" ==> r.value.path == a.filePath) &&
      (a.path == "" && a.filePath == "" ==> r.value.path == "unknown") &&
      (a.command != "" ==> r.value.command == a.command) &&
      (a.command == "" ==> r.value.command == "edit")
    ensures r.Some? && r.value.ShellArtifact? ==> r.value.command == ArgsOf(b).command
  {
    if !IsToolUse(b) || ToolName(b) !in ArtifactTools then None
    else
      var args := ArgsOf(b);
      if IsFileTool(ToolName(b)) then
        Some(FileArtifact(Or(Or(args.path, args.filePath), "unknown"), Or(args.command, "edit")))
      else Some(ShellArtifact(args.command))
  }

  /** Of the six tool names, the editors and writers give file artifacts and the shells give shell artifacts. */
  lemma ToolKinds()
    ensures IsFileTool("developer__text_editor") && IsFileTool("text_editor")
    ensures IsFileTool("Write") && IsFileTool("Edit")
    ensures !IsFileTool("developer__shell") && !IsFileTool("Bash")
  {
    EditorNamed("developer__text_editor", 11);
    EditorNamed("text_editor", 0);
    ShellToolNames();
  }

  lemma ShellToolNames()
    ensures !IsFileTool("developer__shell") && !IsFileTool("Bash")
  {
    NoEditorWithoutT("developer__shell");
  }

  lemma EditorNamed(name: string, k: int)
    requires OccursAt(name, k, "text_editor")
    ensures IsFileTool(name)
  {
    ContainsOccurs(name, "text_editor");
  }

  lemma NoEditorWithoutT(name: string)
    requires 't' !in name
    ensures !IsFileTool(name) || name == "Write" || name == "Edit"
  {
    var pat := "text_editor";
    ContainsOccurs(name, pat);
    forall i | 0 <= i <= |name| - |pat|
      ensures !OccursAt(name, i, pat)
    {
      assert name[i..i + |pat|][0] == name[i];
    }
  }

  function BlockArtifacts(blocks: seq<Block>): seq<Artifact> {
    if |blocks| == 0 then []
    else
      var last := ArtifactOf(blocks[|blocks| - 1]);
      BlockArtifacts(blocks[..|blocks| - 1]) + (if last.Some? then [last.value] else [])
  }

  /** The artifacts of a conversation, message by message. */
  function Artifacts(msgs: seq<ParsedMessage>): seq<Artifact> {
    if |msgs| == 0 then []
    else Artifacts(msgs[..|msgs| - 1]) + BlockArtifacts(msgs[|msgs| - 1].content)
  }

  function AllBlocks(msgs: seq<ParsedMessage>): seq<Block> {
    if |msgs| == 0 then [] else AllBlocks(msgs[..|msgs| - 1]) + msgs[|msgs| - 1].content
  }

  /** The blocks that yield an artifact, in conversation order. */
  function Qualifying(blocks: seq<Block>): (q: seq<Block>)
    ensures forall i :: 0 <= i < |q| ==> ArtifactOf(q[i]).Some?
  {
    if |blocks| == 0 then []
    else
      var b := blocks[|blocks| - 1];
      Qualifying(blocks[..|blocks| - 1]) + (if ArtifactOf(b).Some? then [b] else [])
  }

  lemma {:induction false} BlockArtifactsAppend(a: seq<Block>, b: seq<Block>)
    ensures BlockArtifacts(a + b) == BlockArtifacts(a) + BlockArtifacts(b)
    decreases |b|
  {
    if |b| > 0 {
      assert (a + b)[..|a + b| - 1] == a + b[..|b| - 1];
      BlockArtifactsAppend(a, b[..|b| - 1]);
    } else {
      assert a + b == a;
    }
  }

  lemma {:induction false} BlockArtifactsMatchQualifying(blocks: seq<Block>)
    ensures |BlockArtifacts(blocks)| == |Qualifying(blocks)|
    ensures forall i :: 0 <= i < |Qualifying(blocks)| ==>
      ArtifactOf(Qualifying(blocks)[i]) == Some(BlockArtifacts(blocks)[i])
  {
    if |blocks| > 0 {
      BlockArtifactsMatchQualifying(blocks[..|blocks| - 1]);
    }
  }

  /**
   * The i-th artifact is the one made from the i-th qualifying block of the
   * whole conversation: only tool calls named in ArtifactTools count, and
   * their order is kept.
   */
  lemma {:induction false} ArtifactsInOrder(msgs: seq<ParsedMessage>)
    ensures Artifacts(msgs) == BlockArtifacts(AllBlocks(msgs))
    ensures |Artifacts(msgs)| == |Qualifying(AllBlocks(msgs))|
    ensures forall i :: 0 <= i < |Artifacts(msgs)| ==>
      ArtifactOf(Qualifying(AllBlocks(msgs))[i]) == Some(Artifacts(msgs)[i])
  {
    if |msgs| > 0 {
      ArtifactsInOrder(msgs[..|msgs| - 1]);
      BlockArtifactsAppend(AllBlocks(msgs[..|msgs| - 1]), msgs[|msgs| - 1].content);
    }
    BlockArtifactsMatchQualifying(AllBlocks(msgs));
  }

  /** renderArtifacts' double loop over the messages and their blocks. */
  method CollectArtifacts(msgs: seq<ParsedMessage>) returns (arts: seq<Artifact>)
    ensures arts == Artifacts(msgs)
  {
    arts := [];
    var i := 0;
    while i < |msgs|
      invariant 0 <= i <= |msgs|
      invariant arts == Artifacts(msgs[..i])
    {
      var content := msgs[i].content;
      var j := 0;
      while j < |content|
        invariant 0 <= j <= |content|
        invariant arts == Artifacts(msgs[..i]) + BlockArtifacts(content[..j])
      {
        var found := ArtifactOf(content[j]);
        assert content[..j + 1][..j] == content[..j];
        if found.Some? {
          arts := arts + [found.value];
        }
        j := j + 1;
      }
      assert content[..j] == content;
      assert msgs[..i + 1][..i] == msgs[..i];
      i := i + 1;
    }
    assert msgs[..i] == msgs;
  }

  // ---------------------------------------------------------------------
  // Desk browser: documents grouped by directory

  datatype DeskFile = DeskFile(path: string, filename: string)

  /** Everything before the last '/', or "." for a bare file name. */
  function DirOf(path: string): string {
    if '/' in path then
      var segs := Split(path, '/');
      Join(segs[..|segs| - 1], "/")
    else "."
  }

  function LastSegment(path: string): (s: string)
    ensures '/' !in s
  {
    var segs := Split(path, '/');
    segs[|segs| - 1]
  }

  lemma {:induction false} JoinSnoc(parts: seq<string>, sep: string, last: string)
    requires |parts| >= 1
    ensures Join(parts + [last], sep) == Join(parts, sep) + sep + last
  {
    if |parts| > 1 {
      assert (parts + [last])[1..] == parts[1..] + [last];
      JoinSnoc(parts[1..], sep, last);
    }
  }

  lemma {:induction false} SplitHasSep(s: string, sep: char)
    requires sep in s
    ensures |Split(s, sep)| >= 2
  {
    if s[0] != sep {
      SplitHasSep(s[1..], sep);
    }
  }

  /** The directory, a '/', and the last segment give back the path; a path without '/' is in ".". */
  lemma DirRebuild(path: string)
    ensures '/' in path ==> DirOf(path) + "/" + LastSegment(path) == path
    ensures '/' !in path ==> DirOf(path) == "." && LastSegment(path) == path
  {
    var segs := Split(path, '/');
    if '/' in path {
      SplitHasSep(path, '/');
      assert segs[..|segs| - 1] + [segs[|segs| - 1]] == segs;
      JoinSnoc(segs[..|segs| - 1], "/", segs[|segs| - 1]);
      JoinSplit(path, '/');
    } else {
      SplitNoSep(path, '/');
    }
  }

  /** `(groups[dir] ||= []).push(f)`. */
  function AddToGroup(groups: map<string, seq<DeskFile>>, f: DeskFile): map<string, seq<DeskFile>> {
    var d := DirOf(f.path);
    groups[d := (if d in groups then groups[d] else []) + [f]]
  }

  function Grouped(files: seq<DeskFile>): map<string, seq<DeskFile>> {
    if |files| == 0 then map[]
    else AddToGroup(Grouped(files[..|files| - 1]), files[|files| - 1])
  }

  /** Reference definition: the files of one directory, in their original order. */
  function InDir(files: seq<DeskFile>, d: string): (r: seq<DeskFile>)
    ensures forall i :: 0 <= i < |r| ==> DirOf(r[i].path) == d
  {
    if |files| == 0 then []
    else
      var f := files[|files| - 1];
      InDir(files[..|files| - 1], d) + (if DirOf(f.path) == d then [f] else [])
  }

  /** A directory has a group exactly when some file lies in it, and its group lists those files in order. */
  lemma {:induction false} GroupedRules(files: seq<DeskFile>)
    ensures forall d :: d in Grouped(files) <==> InDir(files, d) != []
    ensures forall d :: d in Grouped(files) ==> Grouped(files)[d] == InDir(files, d)
  {
    if |files| > 0 {
      GroupedRules(files[..|files| - 1]);
    }
  }

  /** The desk browser shows a placeholder for no documents, otherwise the
      groups; `Threw` is the `TypeError` raised at the first file whose
      directory is the name of an inherited object member, for which
      `groups[dir]` finds that member instead of `undefined` and `push`
      is not a method of it. */
  datatype DeskView = NoDocuments | Groups(groups: map<string, seq<DeskFile>>) | Threw(at: nat)

  /** openDeskBrowser's grouping loop. */
  method OpenDeskBrowser(files: seq<DeskFile>) returns (view: DeskView)
    ensures view.NoDocuments? <==> |files| == 0
    ensures view.Threw? <==>
      exists i :: 0 <= i < |files| && DirOf(files[i].path) in ObjectProtoMembers
    ensures view.Threw? ==>
      view.at < |files| && DirOf(files[view.at].path) in ObjectProtoMembers &&
      forall j :: 0 <= j < view.at ==> DirOf(files[j].path) !in ObjectProtoMembers
    ensures view.Groups? ==> view.groups == Grouped(files)
  {
    if |files| == 0 {
      return NoDocuments;
    }
    var groups: map<string, seq<DeskFile>> := map[];
    var i := 0;
    while i < |files|
      invariant 0 <= i <= |files|
      invariant groups == Grouped(files[..i])
      invariant forall j :: 0 <= j < i ==> DirOf(files[j].path) !in ObjectProtoMembers
    {
      var f := files[i];
      var dir := DirOf(f.path);
      if dir in ObjectProtoMembers {
        return Threw(i);
      }
      var items := if dir in groups then groups[dir] else [];
      groups := groups[dir := items + [f]];
      assert files[..i + 1][..i] == files[..i];
      i := i + 1;
    }
    assert files[..i] == files;
    return Groups(groups);
  }
}
