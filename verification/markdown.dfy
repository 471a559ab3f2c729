/**
 * `MarkdownService.ConvertToHtml`: the markdown is split into lines, each
 * trimmed line is classified (heading, list item, blank, paragraph), and a
 * two-flag state machine wraps runs of list items in `<ul>` or `<ol>`.
 * The output is modelled as the sequence of lines `AppendLine` writes; the
 * inline rewriting (links, bold, italics) is a parameter.
 */
module Markdown {
  import opened Wrappers
  import opened Text

  predicate IsNewline(c: char) {
    c == '\r' || c == '\n'
  }

  ghost predicate NoNewline(s: string) {
    forall i :: 0 <= i < |s| ==> !IsNewline(s[i])
  }

  // ---------------------------------------------------------------------------
  // Splitting on "\r\n", "\r" and "\n"

  /**
   * `Split(new[] { "\r\n", "\r", "\n" }, StringSplitOptions.None)`: at each
   * position the separators are tried in that order, so "\r\n" is one break.
   */
  function SplitLines(s: string): (r: seq<string>)
    ensures |r| >= 1
    ensures forall i :: 0 <= i < |r| ==> NoNewline(r[i])
    decreases |s|
  {
    if s == [] then [""]
    else if s[0] == '\r' && |s| >= 2 && s[1] == '\n' then [""] + SplitLines(s[2..])
    else if IsNewline(s[0]) then [""] + SplitLines(s[1..])
    else
      var rest := SplitLines(s[1..]);
      assert NoNewline(rest[0]);
      [[s[0]] + rest[0]] + rest[1..]
  }

  /** Every line break, "\r\n", "\r" or "\n", written as "\n". */
  function NormalizeNewlines(s: string): (r: string)
    decreases |s|
  {
    if s == [] then []
    else if s[0] == '\r' && |s| >= 2 && s[1] == '\n' then "\n" + NormalizeNewlines(s[2..])
    else if IsNewline(s[0]) then "\n" + NormalizeNewlines(s[1..])
    else [s[0]] + NormalizeNewlines(s[1..])
  }

  /** The lines glued back together with "\n" between them. */
  function JoinLines(lines: seq<string>): string
    decreases |lines|
  {
    if lines == [] then []
    else if |lines| == 1 then lines[0]
    else lines[0] + "\n" + JoinLines(lines[1..])
  }

  /** Splitting loses nothing but the choice of line break. */
  lemma {:induction false} SplitThenJoin(s: string)
    ensures JoinLines(SplitLines(s)) == NormalizeNewlines(s)
    decreases |s|
  {
    if s == [] {
    } else if s[0] == '\r' && |s| >= 2 && s[1] == '\n' {
      SplitThenJoin(s[2..]);
      assert [""] + SplitLines(s[2..]) == SplitLines(s);
    } else if IsNewline(s[0]) {
      SplitThenJoin(s[1..]);
    } else {
      var rest := SplitLines(s[1..]);
      SplitThenJoin(s[1..]);
      if |rest| == 1 {
        assert SplitLines(s) == [[s[0]] + rest[0]];
      } else {
        assert SplitLines(s)[1..] == rest[1..];
        assert JoinLines(SplitLines(s)) == [s[0]] + rest[0] + "\n" + JoinLines(rest[1..]);
        assert JoinLines(rest) == rest[0] + "\n" + JoinLines(rest[1..]);
      }
    }
  }

  /** Lines with no line break in them come back out of a join unchanged. */
  lemma {:induction false} JoinThenSplit(lines: seq<string>)
    requires |lines| >= 1
    requires forall i :: 0 <= i < |lines| ==> NoNewline(lines[i])
    ensures SplitLines(JoinLines(lines)) == lines
    decreases |lines|, |lines[0]|
  {
    var first := lines[0];
    if first == [] {
      if |lines| > 1 {
        JoinThenSplit(lines[1..]);
        assert JoinLines(lines) == "\n" + JoinLines(lines[1..]);
        assert ("\n" + JoinLines(lines[1..]))[1..] == JoinLines(lines[1..]);
      }
    } else {
      var shorter := [first[1..]] + lines[1..];
      assert NoNewline(first[1..]) by {
        forall i | 0 <= i < |first[1..]| ensures !IsNewline(first[1..][i]) {
          assert first[1..][i] == first[i + 1];
        }
      }
      JoinThenSplit(shorter);
      assert shorter[1..] == lines[1..];
      if |lines| == 1 {
        assert JoinLines(lines) == first;
        assert JoinLines(shorter) == first[1..];
      } else {
        assert JoinLines(lines) == first + "\n" + JoinLines(lines[1..]);
        assert JoinLines(shorter) == first[1..] + "\n" + JoinLines(lines[1..]);
        assert JoinLines(lines)[1..] == JoinLines(shorter);
      }
      assert JoinLines(lines)[0] == first[0];
      assert [first[0]] + first[1..] == first;
    }
  }

  // ---------------------------------------------------------------------------
  // Classifying one trimmed line

  predicate StartsWith(s: string, prefix: string) {
    |prefix| <= |s| && s[..|prefix|] == prefix
  }

  predicate IsAsciiDigit(c: char) {
    '0' <= c <= '9'
  }

  /** The length of the run of digits at the front of `s`. */
  function DigitRun(s: string): (n: nat)
    ensures n <= |s|
    ensures forall i :: 0 <= i < n ==> IsAsciiDigit(s[i])
    ensures n < |s| ==> !IsAsciiDigit(s[n])
    decreases |s|
  {
    if s != [] && IsAsciiDigit(s[0]) then 1 + DigitRun(s[1..]) else 0
  }

  /** The regular expression `^\d+\. (.+)$` on a line without line breaks: the text of group 1. */
  function OrderedItem(t: string): (r: Option<string>)
    ensures r.Some? <==>
      exists k :: 1 <= k && k + 2 < |t| && (forall i :: 0 <= i < k ==> IsAsciiDigit(t[i]))
        && t[k] == '.' && t[k + 1] == ' '
    ensures r.Some? ==>
      exists k :: (1 <= k && k + 2 < |t| && r.value == t[k + 2..]
        && (forall i :: 0 <= i < k ==> IsAsciiDigit(t[i])) && t[k] == '.' && t[k + 1] == ' ')
  {
    var k := DigitRun(t);
    if 1 <= k && k + 2 < |t| && t[k] == '.' && t[k + 1] == ' ' then Some(t[k + 2..])
    else
      assert forall j :: (1 <= j && j + 2 < |t| && (forall i :: 0 <= i < j ==> IsAsciiDigit(t[i]))
        && t[j] == '.') ==> j == k;
      None
  }

  datatype Block =
    | HeadingBlock(level: nat, text: string)
    | ItemBlock(ordered: bool, text: string)
    | BlankBlock
    | ParaBlock(text: string)

  /** The tests of the loop body, in the order the loop makes them. */
  function Classify(t: string): (b: Block)
    ensures b.HeadingBlock? ==> 1 <= b.level <= 3
    ensures b.BlankBlock? <==> t == []
    ensures b.ParaBlock? ==> b.text == t
  {
    if StartsWith(t, "### ") then HeadingBlock(3, t[4..])
    else if StartsWith(t, "## ") then HeadingBlock(2, t[3..])
    else if StartsWith(t, "# ") then HeadingBlock(1, t[2..])
    else if StartsWith(t, "- ") || StartsWith(t, "* ") then ItemBlock(false, t[2..])
    else match OrderedItem(t)
      case Some(text) => ItemBlock(true, text)
      case None => if t == [] then BlankBlock else ParaBlock(t)
  }

  /** `t` starts with `n` hashes and a space. */
  predicate HashPrefix(t: string, n: nat) {
    n < |t| && (forall i :: 0 <= i < n ==> t[i] == '#') && t[n] == ' '
  }

  /** `t` starts with a `-` or `*` bullet and a space. */
  predicate BulletPrefix(t: string) {
    2 <= |t| && (t[0] == '-' || t[0] == '*') && t[1] == ' '
  }

  /**
   * A trimmed line is a bullet item exactly when it starts with `- ` or `* `,
   * and then its text is the rest of the line; it is a numbered item exactly
   * when the ordered-item pattern matches, and then its text is the group.
   */
  lemma ClassifyItems(t: string)
    ensures Classify(t).ItemBlock? && !Classify(t).ordered <==> BulletPrefix(t)
    ensures BulletPrefix(t) ==> Classify(t).text == t[2..]
    ensures Classify(t).ItemBlock? && Classify(t).ordered <==> OrderedItem(t).Some?
    ensures Classify(t).ItemBlock? && Classify(t).ordered ==> OrderedItem(t) == Some(Classify(t).text)
  {
    if StartsWith(t, "### ") || StartsWith(t, "## ") || StartsWith(t, "# ") {
      assert t[0] == '#' by {
        if StartsWith(t, "### ") {
          assert t[..4][0] == '#';
        } else if StartsWith(t, "## ") {
          assert t[..3][0] == '#';
        } else {
          assert t[..2][0] == '#';
        }
      }
      assert !IsAsciiDigit(t[0]);
    } else if StartsWith(t, "- ") || StartsWith(t, "* ") {
      assert t[0] == t[..2][0] && t[1] == t[..2][1];
      assert !IsAsciiDigit(t[0]);
    }
  }

  /**
   * A trimmed line is a heading exactly when it starts with one to three
   * hashes and a space; the level is the number of hashes (the longest prefix
   * wins) and the text is the rest of the line, untouched.
   */
  lemma ClassifyHeading(t: string)
    ensures Classify(t).HeadingBlock? <==> exists n :: 1 <= n <= 3 && HashPrefix(t, n)
    ensures Classify(t).HeadingBlock? ==>
      HashPrefix(t, Classify(t).level) && Classify(t).text == t[Classify(t).level + 1..]
  {
    if StartsWith(t, "### ") {
      assert t[..4] == "### ";
      assert HashPrefix(t, 3) by {
        assert t[0] == '#' && t[1] == '#' && t[2] == '#' && t[3] == ' ';
      }
    } else if StartsWith(t, "## ") {
      assert t[..3] == "## ";
      assert HashPrefix(t, 2) by {
        assert t[0] == '#' && t[1] == '#' && t[2] == ' ';
      }
    } else if StartsWith(t, "# ") {
      assert t[..2] == "# ";
      assert HashPrefix(t, 1) by {
        assert t[0] == '#' && t[1] == ' ';
      }
    } else {
      assert !HashPrefix(t, 3) && !HashPrefix(t, 2) && !HashPrefix(t, 1);
    }
  }

  /** Markdown source that writes a block, the way a user would type it. */
  function SourceOf(b: Block): string {
    match b
    case HeadingBlock(level, text) =>
      (if level == 3 then "### " else if level == 2 then "## " else "# ") + text
    case ItemBlock(ordered, text) => (if ordered then "1. " else "- ") + text
    case BlankBlock => ""
    case ParaBlock(text) => text
  }

  /** Blocks a user can write: headings of levels 1 to 3, numbered items with text, paragraphs that start plainly. */
  predicate Writable(b: Block) {
    match b
    case HeadingBlock(level, _) => 1 <= level <= 3
    case ItemBlock(ordered, text) => ordered ==> text != []
    case BlankBlock => true
    case ParaBlock(text) =>
      text != [] && text[0] != '#' && text[0] != '-' && text[0] != '*' && !IsAsciiDigit(text[0])
  }

  lemma HeadingSourceOf(level: nat, text: string)
    requires 1 <= level <= 3
    ensures Classify(SourceOf(HeadingBlock(level, text))) == HeadingBlock(level, text)
  {
    var t := SourceOf(HeadingBlock(level, text));
    if level == 3 {
      assert t[..4] == "### " && t[4..] == text;
    } else if level == 2 {
      assert t[..3] == "## " && t[3..] == text;
      assert !StartsWith(t, "### ") by {
        assert |t| < 4 || t[..4][2] == ' ';
      }
    } else {
      assert t[..2] == "# " && t[2..] == text;
      assert !StartsWith(t, "### ") by {
        assert |t| < 4 || t[..4][1] == ' ';
      }
      assert !StartsWith(t, "## ") by {
        assert |t| < 3 || t[..3][1] == ' ';
      }
    }
  }

  lemma OrderedSourceOf(text: string)
    requires text != []
    ensures Classify(SourceOf(ItemBlock(true, text))) == ItemBlock(true, text)
  {
    var t := SourceOf(ItemBlock(true, text));
    assert t[..1] == "1" && t[1] == '.' && t[2] == ' ' && t[3..] == text;
    assert DigitRun(t) == 1 by {
      assert DigitRun(t[1..]) == 0;
    }
    assert !StartsWith(t, "### ") && !StartsWith(t, "## ") && !StartsWith(t, "# ") by {
      assert t[0] == '1';
    }
    assert !StartsWith(t, "- ") && !StartsWith(t, "* ") by {
      assert t[0] == '1';
    }
  }

  lemma BulletSourceOf(text: string)
    ensures Classify(SourceOf(ItemBlock(false, text))) == ItemBlock(false, text)
  {
    var t := SourceOf(ItemBlock(false, text));
    assert t[..2] == "- " && t[2..] == text;
    assert !StartsWith(t, "### ") && !StartsWith(t, "## ") && !StartsWith(t, "# ") by {
      assert t[0] == '-';
    }
  }

  lemma ParaSourceOf(text: string)
    requires Writable(ParaBlock(text))
    ensures Classify(SourceOf(ParaBlock(text))) == ParaBlock(text)
  {
    var t := SourceOf(ParaBlock(text));
    assert !StartsWith(t, "### ") && !StartsWith(t, "## ") && !StartsWith(t, "# ") by {
      assert t[0] == text[0];
    }
    assert !StartsWith(t, "- ") && !StartsWith(t, "* ");
    assert DigitRun(t) == 0;
  }

  /** Classifying what a block's source reads as gives the block back. */
  lemma ClassifySourceOf(b: Block)
    requires Writable(b)
    ensures Classify(SourceOf(b)) == b
  {
    match b
    case HeadingBlock(level, text) => HeadingSourceOf(level, text);
    case ItemBlock(ordered, text) =>
      if ordered {
        OrderedSourceOf(text);
      } else {
        BulletSourceOf(text);
      }
    case BlankBlock =>
    case ParaBlock(text) => ParaSourceOf(text);
  }

  // ---------------------------------------------------------------------------
  // The lines written

  datatype Html =
    | OpenUl | CloseUl | OpenOl | CloseOl
    | ListItem(body: string)
    | Heading(level: nat, body: string)
    | Para(body: string)
    | BlankLine

  predicate IsListTag(h: Html) {
    h.OpenUl? || h.CloseUl? || h.OpenOl? || h.CloseOl?
  }

  /** The line a block turns into; headings are written as they are, the rest go through `inline`. */
  function BlockHtml(b: Block, inline: string -> string): Html {
    match b
    case HeadingBlock(level, text) => Heading(level, text)
    case ItemBlock(_, text) => ListItem(inline(text))
    case BlankBlock => BlankLine
    case ParaBlock(text) => Para(inline(text))
  }

  function LineBlock(line: string): Block {
    Classify(Trim(line))
  }

  /** `inUnorderedList` and `inOrderedList`. */
  datatype ListState = ListState(inUl: bool, inOl: bool)

  const Closed := ListState(false, false)

  /** `CloseLists`: `</ul>` first, then `</ol>`, for whichever is open. */
  function CloseLists(st: ListState): (r: seq<Html>)
    ensures forall i :: 0 <= i < |r| ==> r[i].CloseUl? || r[i].CloseOl?
    ensures !st.inUl && !st.inOl <==> r == []
  {
    (if st.inUl then [CloseUl] else []) + (if st.inOl then [CloseOl] else [])
  }

  /** One pass of the loop body on a classified line: the lines written and the flags afterwards. */
  function Step(st: ListState, b: Block, inline: string -> string): (seq<Html>, ListState) {
    match b
    case ItemBlock(false, text) =>
      if st.inUl then ([ListItem(inline(text))], st)
      else (CloseLists(st) + [OpenUl, ListItem(inline(text))], ListState(true, false))
    case ItemBlock(true, text) =>
      if st.inOl then ([ListItem(inline(text))], st)
      else (CloseLists(st) + [OpenOl, ListItem(inline(text))], ListState(false, true))
    case _ => (CloseLists(st) + [BlockHtml(b, inline)], Closed)
  }

  /** What each line of the input is, after trimming. */
  function ClassifyLines(lines: seq<string>): (r: seq<Block>)
    ensures |r| == |lines|
  {
    seq(|lines|, i requires 0 <= i < |lines| => LineBlock(lines[i]))
  }

  /** The lines written and the flags after the loop has consumed `blocks`. */
  function Consume(blocks: seq<Block>, inline: string -> string): (seq<Html>, ListState)
    decreases |blocks|
  {
    if blocks == [] then ([], Closed)
    else
      var (out, st) := Consume(blocks[..|blocks| - 1], inline);
      var (more, st') := Step(st, blocks[|blocks| - 1], inline);
      (out + more, st')
  }

  /** The loop followed by the final `CloseLists`. */
  function ConvertLines(lines: seq<string>, inline: string -> string): seq<Html> {
    var (out, st) := Consume(ClassifyLines(lines), inline);
    out + CloseLists(st)
  }

  function TagText(h: Html): string {
    match h
    case OpenUl => "<ul>"
    case CloseUl => "</ul>"
    case OpenOl => "<ol>"
    case CloseOl => "</ol>"
    case ListItem(body) => "<li>" + body + "</li>"
    case Heading(level, body) =>
      var d := if level == 1 then '1' else if level == 2 then '2' else '3';
      "<h" + [d] + ">" + body + "</h" + [d] + ">"
    case Para(body) => "<p>" + body + "</p>"
    case BlankLine => ""
  }

  /** `StringBuilder.AppendLine` for each line, `newline` standing for `Environment.NewLine`. */
  function AppendLines(out: seq<Html>, newline: string): string
    decreases |out|
  {
    if out == [] then [] else TagText(out[0]) + newline + AppendLines(out[1..], newline)
  }

  /**
   * `ConvertToHtml`: null or blank markdown gives a single empty paragraph;
   * anything else is converted line by line.
   */
  function ConvertToHtml(markdown: Option<string>, inline: string -> string, newline: string): (r: string)
    ensures IsNullOrWhiteSpace(markdown) ==> r == "<p></p>"
  {
    if IsNullOrWhiteSpace(markdown) then "<p></p>"
    else AppendLines(ConvertLines(SplitLines(markdown.value), inline), newline)
  }

  // ---------------------------------------------------------------------------
  // What the conversion guarantees

  /** The two flags are never both set. */
  predicate Exclusive(st: ListState) {
    !(st.inUl && st.inOl)
  }

  /**
   * A reference reading of the output: `<ul>`/`<ol>` only open when no list is
   * open, close only the list that is open, list items only inside a list,
   * every other line outside one. Returns the list left open, or `None` on a
   * violation.
   */
  datatype Open = NoList | InUl | InOl

  function CheckOne(h: Html, open: Open): Option<Open> {
    match h
    case OpenUl => if open == NoList then Some(InUl) else None
    case OpenOl => if open == NoList then Some(InOl) else None
    case CloseUl => if open == InUl then Some(NoList) else None
    case CloseOl => if open == InOl then Some(NoList) else None
    case ListItem(_) => if open != NoList then Some(open) else None
    case _ => if open == NoList then Some(NoList) else None
  }

  function Check(out: seq<Html>, open: Open): Option<Open>
    decreases |out|
  {
    if out == [] then Some(open)
    else
      match CheckOne(out[0], open)
      case None => None
      case Some(next) => Check(out[1..], next)
  }

  function OpenOf(st: ListState): Open {
    if st.inUl then InUl else if st.inOl then InOl else NoList
  }

  lemma {:induction false} CheckConcat(a: seq<Html>, b: seq<Html>, open: Open, mid: Open)
    requires Check(a, open) == Some(mid)
    ensures Check(a + b, open) == Check(b, mid)
    decreases |a|
  {
    if a == [] {
      assert a + b == b;
    } else {
      assert (a + b)[0] == a[0] && (a + b)[1..] == a[1..] + b;
      CheckConcat(a[1..], b, CheckOne(a[0], open).value, mid);
    }
  }

  lemma CloseListsChecks(st: ListState)
    requires Exclusive(st)
    ensures Check(CloseLists(st), OpenOf(st)) == Some(NoList)
  {
  }

  lemma StepChecks(st: ListState, b: Block, inline: string -> string)
    requires Exclusive(st)
    ensures Exclusive(Step(st, b, inline).1)
    ensures Check(Step(st, b, inline).0, OpenOf(st)) == Some(OpenOf(Step(st, b, inline).1))
  {
    CloseListsChecks(st);
    match b
    case ItemBlock(false, text) =>
      var item := [ListItem(inline(text))];
      assert Check(item, InUl) == Some(InUl) by {
        assert item[1..] == [];
      }
      if !st.inUl {
        assert Check([OpenUl] + item, NoList) == Some(InUl) by {
          assert ([OpenUl] + item)[1..] == item;
        }
        assert [OpenUl, ListItem(inline(text))] == [OpenUl] + item;
        CheckConcat(CloseLists(st), [OpenUl] + item, OpenOf(st), NoList);
      }
    case ItemBlock(true, text) =>
      var item := [ListItem(inline(text))];
      assert Check(item, InOl) == Some(InOl) by {
        assert item[1..] == [];
      }
      if !st.inOl {
        assert Check([OpenOl] + item, NoList) == Some(InOl) by {
          assert ([OpenOl] + item)[1..] == item;
        }
        assert [OpenOl, ListItem(inline(text))] == [OpenOl] + item;
        CheckConcat(CloseLists(st), [OpenOl] + item, OpenOf(st), NoList);
      }
    case _ =>
      CheckConcat(CloseLists(st), [BlockHtml(b, inline)], OpenOf(st), NoList);
  }

  lemma {:induction false} ConsumeChecks(blocks: seq<Block>, inline: string -> string)
    ensures Exclusive(Consume(blocks, inline).1)
    ensures Check(Consume(blocks, inline).0, NoList) == Some(OpenOf(Consume(blocks, inline).1))
    decreases |blocks|
  {
    if blocks != [] {
      var prefix := blocks[..|blocks| - 1];
      ConsumeChecks(prefix, inline);
      var (out, st) := Consume(prefix, inline);
      var b := blocks[|blocks| - 1];
      StepChecks(st, b, inline);
      CheckConcat(out, Step(st, b, inline).0, NoList, OpenOf(st));
    }
  }

  /** The output is well nested: lists never nest or overlap, items sit inside a list, and all lists are closed. */
  lemma ConvertLinesWellNested(lines: seq<string>, inline: string -> string)
    ensures Check(ConvertLines(lines, inline), NoList) == Some(NoList)
  {
    var blocks := ClassifyLines(lines);
    ConsumeChecks(blocks, inline);
    var (out, st) := Consume(blocks, inline);
    CloseListsChecks(st);
    CheckConcat(out, CloseLists(st), NoList, OpenOf(st));
  }

  /** The output with the list tags removed. */
  function Contents(out: seq<Html>): (r: seq<Html>)
    ensures forall i :: 0 <= i < |r| ==> !IsListTag(r[i])
    decreases |out|
  {
    if out == [] then []
    else (if IsListTag(out[0]) then [] else [out[0]]) + Contents(out[1..])
  }

  lemma {:induction false} ContentsConcat(a: seq<Html>, b: seq<Html>)
    ensures Contents(a + b) == Contents(a) + Contents(b)
    decreases |a|
  {
    if a != [] {
      assert (a + b)[1..] == a[1..] + b;
      ContentsConcat(a[1..], b);
    } else {
      assert a + b == b;
    }
  }

  /** The line each block turns into, in order. */
  function Rendered(blocks: seq<Block>, inline: string -> string): (r: seq<Html>)
    ensures |r| == |blocks|
    ensures forall i :: 0 <= i < |blocks| ==> r[i] == BlockHtml(blocks[i], inline)
    decreases |blocks|
  {
    if blocks == [] then []
    else Rendered(blocks[..|blocks| - 1], inline) + [BlockHtml(blocks[|blocks| - 1], inline)]
  }

  lemma CloseListsContents(st: ListState)
    ensures Contents(CloseLists(st)) == []
  {
    var c := CloseLists(st);
    if |c| == 2 {
      assert Contents(c) == Contents(c[1..]);
    }
  }

  lemma StepContents(st: ListState, b: Block, inline: string -> string)
    ensures Contents(Step(st, b, inline).0) == [BlockHtml(b, inline)]
  {
    var c := CloseLists(st);
    CloseListsContents(st);
    if b.ItemBlock? {
      var open := if b.ordered then OpenOl else OpenUl;
      var item := [ListItem(inline(b.text))];
      assert Contents(item) == item by {
        assert item[1..] == [];
      }
      if (b.ordered && !st.inOl) || (!b.ordered && !st.inUl) {
        assert Contents([open] + item) == item by {
          assert ([open] + item)[1..] == item;
        }
        assert [open, ListItem(inline(b.text))] == [open] + item;
        ContentsConcat(c, [open] + item);
      }
    } else {
      var line := [BlockHtml(b, inline)];
      assert Contents(line) == line by {
        assert line[1..] == [];
      }
      ContentsConcat(c, line);
    }
  }

  lemma {:induction false} ConsumeContents(blocks: seq<Block>, inline: string -> string)
    ensures Contents(Consume(blocks, inline).0) == Rendered(blocks, inline)
    decreases |blocks|
  {
    if blocks != [] {
      var prefix := blocks[..|blocks| - 1];
      ConsumeContents(prefix, inline);
      var (out, st) := Consume(prefix, inline);
      var b := blocks[|blocks| - 1];
      StepContents(st, b, inline);
      ContentsConcat(out, Step(st, b, inline).0);
    }
  }

  /**
   * Apart from the list tags, the output is one line per input line, in
   * order: the i-th is what the i-th trimmed line classifies as. Nothing is
   * dropped or reordered.
   */
  lemma ConvertLinesContents(lines: seq<string>, inline: string -> string)
    ensures var c := Contents(ConvertLines(lines, inline));
      |c| == |lines| && forall i :: 0 <= i < |lines| ==> c[i] == BlockHtml(LineBlock(lines[i]), inline)
  {
    var blocks := ClassifyLines(lines);
    ConsumeContents(blocks, inline);
    var (out, st) := Consume(blocks, inline);
    ContentsConcat(out, CloseLists(st));
    CloseListsContents(st);
  }

  predicate IsUnorderedItem(b: Block) {
    b.ItemBlock? && !b.ordered
  }

  predicate IsOrderedItem(b: Block) {
    b.ItemBlock? && b.ordered
  }

  /** After a line, a `<ul>` is open exactly when that line was a bullet item, an `<ol>` when it was numbered. */
  lemma ConsumeState(blocks: seq<Block>, inline: string -> string)
    requires blocks != []
    ensures Consume(blocks, inline).1.inUl <==> IsUnorderedItem(blocks[|blocks| - 1])
    ensures Consume(blocks, inline).1.inOl <==> IsOrderedItem(blocks[|blocks| - 1])
  {
    var st := Consume(blocks[..|blocks| - 1], inline).1;
    var b := blocks[|blocks| - 1];
    assert Consume(blocks, inline).1 == Step(st, b, inline).1;
  }

  /**
   * A line opens a new `<ul>` exactly when it is a bullet item and the line
   * before it, if any, was not: a run of bullet items shares one list.
   */
  lemma OpensUnorderedList(blocks: seq<Block>, inline: string -> string)
    requires blocks != []
    ensures var prefix := blocks[..|blocks| - 1];
      var b := blocks[|blocks| - 1];
      var more := Step(Consume(prefix, inline).1, b, inline).0;
      OpenUl in more <==> IsUnorderedItem(b) && (prefix == [] || !IsUnorderedItem(prefix[|prefix| - 1]))
  {
    var prefix := blocks[..|blocks| - 1];
    if prefix != [] {
      ConsumeState(prefix, inline);
    }
    var st := Consume(prefix, inline).1;
    assert OpenUl !in CloseLists(st);
  }

  /** Likewise a run of numbered items shares one `<ol>`. */
  lemma OpensOrderedList(blocks: seq<Block>, inline: string -> string)
    requires blocks != []
    ensures var prefix := blocks[..|blocks| - 1];
      var b := blocks[|blocks| - 1];
      var more := Step(Consume(prefix, inline).1, b, inline).0;
      OpenOl in more <==> IsOrderedItem(b) && (prefix == [] || !IsOrderedItem(prefix[|prefix| - 1]))
  {
    var prefix := blocks[..|blocks| - 1];
    if prefix != [] {
      ConsumeState(prefix, inline);
    }
    var st := Consume(prefix, inline).1;
    assert OpenOl !in CloseLists(st);
  }
}
