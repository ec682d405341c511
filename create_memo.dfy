/**
 * Writing a new memo into a daily note: the memo becomes one bullet line, the line is
 * inserted after the last non-blank line of the section that starts at the configured
 * anchor line, and the memo's id is the note date's stamp followed by the new line's number.
 */
module CreateMemo {
  import opened Wrappers
  import opened Strings
  import opened Seqs
  import opened Memos

  /** The lines of a note: `content.split('\n')`. */
  function Lines(s: string): seq<string> {
    Split(s, '\n')
  }

  /** Joining the lines gives the note back, and there is one line more than there are line breaks. */
  lemma LinesRoundTrip(s: string)
    ensures Join(Lines(s), '\n') == s
    ensures |Lines(s)| == multiset(s)['\n'] + 1
    ensures forall k :: 0 <= k < |Lines(s)| ==> '\n' !in Lines(s)[k]
  {
    JoinSplit(s, '\n');
    SplitCount(s, '\n');
    SplitPieces(s, '\n');
  }

  /** `getLinesInString`: cuts the text at each line break in turn. */
  method GetLinesInString(input: string) returns (lines: seq<string>)
    ensures lines == Lines(input)
  {
    lines := [];
    var tempString := input;
    while Contains(tempString, "\n")
      invariant Lines(input) == lines + Lines(tempString)
      decreases |tempString|
    {
      IndexOfChar(tempString, '\n');
      var lineEndIndex := IndexOf(tempString, "\n");
      SplitAtFirst(tempString, '\n', lineEndIndex);
      lines := lines + [tempString[..lineEndIndex]];
      tempString := tempString[lineEndIndex + 1..];
    }
    ContainsChar(tempString, '\n');
    SplitWithoutSeparator(tempString, '\n');
    lines := lines + [tempString];
  }

  // ---------------------------------------------------------------------------
  // The anchor

  /** The characters `escapeRegExp` puts a backslash before: ``-[]{}()*+?.,\^$|#`` and whitespace. */
  predicate IsRegExpSpecial(c: char) {
    c in "-[]{}()*+?.,\\^$|#" || IsWhitespace(c)
  }

  /**
   * `escapeRegExp(text)`: each special character preceded by a backslash. The result is at
   * most twice as long, and text with no special character comes back unchanged.
   */
  function EscapeRegExp(text: string): (r: string)
    ensures |text| <= |r| <= 2 * |text|
    ensures (forall k :: 0 <= k < |text| ==> !IsRegExpSpecial(text[k])) ==> r == text
    decreases |text|
  {
    if text == [] then []
    else (if IsRegExpSpecial(text[0]) then ['\\', text[0]] else [text[0]]) + EscapeRegExp(text[1..])
  }

  /**
   * A pattern made of plain characters and backslash escapes of special characters only: no
   * special character stands unescaped, and no backslash starts a class or control escape
   * such as `\d` or `\n`, so every atom matches one fixed character.
   */
  predicate LiteralPattern(p: string)
    decreases |p|
  {
    p == []
    || (|p| >= 2 && p[0] == '\\' && IsRegExpSpecial(p[1]) && LiteralPattern(p[2..]))
    || (!IsRegExpSpecial(p[0]) && LiteralPattern(p[1..]))
  }

  /** The text a literal pattern matches: each escaped character stands for itself. */
  function LiteralText(p: string): string
    decreases |p|
  {
    if p == [] then []
    else if |p| >= 2 && p[0] == '\\' then [p[1]] + LiteralText(p[2..])
    else [p[0]] + LiteralText(p[1..])
  }

  /** The escaped anchor is a literal pattern that matches exactly the anchor text. */
  lemma {:induction false} EscapeRegExpIsLiteral(text: string)
    ensures LiteralPattern(EscapeRegExp(text))
    ensures LiteralText(EscapeRegExp(text)) == text
    decreases |text|
  {
    if text != [] {
      EscapeRegExpIsLiteral(text[1..]);
      var e := EscapeRegExp(text);
      if IsRegExpSpecial(text[0]) {
        assert e[2..] == EscapeRegExp(text[1..]);
      } else {
        assert e[1..] == EscapeRegExp(text[1..]);
        assert text[0] != '\\';
      }
    }
  }

  /**
   * `fileContentLines.findIndex(line => targetRegex.test(line))` with the expression
   * `new RegExp(`\s*${escapeRegExp(anchor)}\s*`)`. Inside a template literal `\s` is plain `s`,
   * so the pattern is `s*`, the escaped anchor, `s*`; both repetitions may match nothing, so
   * the test asks whether the line contains the anchor: the target is the first such line.
   */
  function TargetLine(lines: seq<string>, anchor: string): (t: int)
    ensures -1 <= t < |lines|
  {
    FirstIndex(lines, line => Contains(line, anchor))
  }

  /** The target line contains the anchor and no line before it does; -1 when no line does. */
  lemma TargetLineSpec(lines: seq<string>, anchor: string)
    ensures var t := TargetLine(lines, anchor);
      (t >= 0 ==> Contains(lines[t], anchor))
      && forall j :: 0 <= j < |lines| && (t == -1 || j < t) ==> !Contains(lines[j], anchor)
  {
    FirstIndexSpec(lines, line => Contains(line, anchor));
  }

  /** The target line is determined by its defining property. */
  lemma TargetLineIs(lines: seq<string>, anchor: string, t: int)
    requires -1 <= t < |lines|
    requires t >= 0 ==> Contains(lines[t], anchor)
    requires forall j :: 0 <= j < |lines| && (t == -1 || j < t) ==> !Contains(lines[j], anchor)
    ensures TargetLine(lines, anchor) == t
  {
    FirstIndexIs(lines, line => Contains(line, anchor), t);
  }

  /** The number of `#` characters a line starts with. */
  function LeadingHashes(line: string): (k: nat)
    ensures k <= |line|
    decreases |line|
  {
    if line != [] && line[0] == '#' then 1 + LeadingHashes(line[1..]) else 0
  }

  /** The count covers the whole run of `#` at the start and stops at the first other character. */
  lemma {:induction false} LeadingHashesSpec(line: string)
    ensures var k := LeadingHashes(line);
      (forall j :: 0 <= j < k ==> line[j] == '#') && (k < |line| ==> line[k] != '#')
    decreases |line|
  {
    if line != [] && line[0] == '#' {
      LeadingHashesSpec(line[1..]);
    }
  }

  /** `/^#+ |---/.test(line)`: a markdown heading, or a line with `---` anywhere in it. */
  predicate IsHeaderLine(line: string)
    ensures IsHeaderLine(line) ==> |line| >= 2
    ensures IsHeaderLine(line) && !Contains(line, "---") ==> line[0] == '#'
  {
    var k := LeadingHashes(line);
    (1 <= k < |line| && line[k] == ' ') || Contains(line, "---")
  }

  /** `/^[\s\n ]*$/.test(line)`: nothing but whitespace. */
  predicate IsBlankLine(line: string)
    ensures IsBlankLine(line) <==> forall k :: 0 <= k < |line| ==> IsWhitespace(line[k])
    decreases |line|
  {
    line == [] || (IsWhitespace(line[0]) && IsBlankLine(line[1..]))
  }

  // ---------------------------------------------------------------------------
  // Inserting the line

  /** The rewritten note and the index of the line the new one follows (-1: appended at the end). */
  datatype MContent = MContent(content: string, posNum: int)

  /**
   * `insertTextAfterPositionInBody`: with `pos == -1` the text is appended on a line of its own;
   * otherwise it goes after line `pos`, and when the section end was not `found` the lines
   * after `pos` are dropped (its caller passes the last line then, so nothing is lost).
   */
  function InsertTextAfterPositionInBody(text: string, body: string, pos: int, found: bool): (r: MContent)
    requires -1 <= pos < |Lines(body)|
    ensures r.posNum == pos
  {
    if pos == -1 then MContent(body + "\n" + text, -1)
    else
      var splitContent := Lines(body);
      var pre := Join(splitContent[..pos + 1], '\n');
      var post := Join(splitContent[pos + 1..], '\n');
      if found then MContent(pre + "\n" + text + "\n" + post, pos)
      else MContent(pre + "\n" + text, pos)
  }

  /**
   * The last line in `lines(lo, hi)` (both ends excluded) that is not blank, or `lo` when
   * all of them are: the backward scan of `insertAfterHandler`.
   */
  function LastNonBlank(lines: seq<string>, lo: int, hi: int): (p: int)
    requires -1 <= lo < hi <= |lines|
    ensures lo <= p < hi
    decreases hi - lo
  {
    if hi - 1 == lo then lo
    else if !IsBlankLine(lines[hi - 1]) then hi - 1
    else LastNonBlank(lines, lo, hi - 1)
  }

  /** The line found is not blank (unless it is `lo`), and every line after it is. */
  lemma {:induction false} LastNonBlankSpec(lines: seq<string>, lo: int, hi: int)
    requires -1 <= lo < hi <= |lines|
    ensures var p := LastNonBlank(lines, lo, hi);
      (p > lo ==> !IsBlankLine(lines[p])) && forall j :: p < j < hi ==> IsBlankLine(lines[j])
    decreases hi - lo
  {
    if hi - 1 != lo && IsBlankLine(lines[hi - 1]) {
      LastNonBlankSpec(lines, lo, hi - 1);
    }
  }

  /** The last non-blank line is determined by its defining property. */
  lemma LastNonBlankIs(lines: seq<string>, lo: int, hi: int, p: int)
    requires -1 <= lo <= p < hi <= |lines|
    requires p > lo ==> !IsBlankLine(lines[p])
    requires forall j :: p < j < hi ==> IsBlankLine(lines[j])
    ensures LastNonBlank(lines, lo, hi) == p
  {
    LastNonBlankSpec(lines, lo, hi);
    var q := LastNonBlank(lines, lo, hi);
    if q > lo {
      assert !IsBlankLine(lines[q]);
    }
    if p > lo {
      assert !IsBlankLine(lines[p]);
    }
  }

  /** Where `insertAfterHandler` puts the text: the line it follows, and whether a heading ends the section. */
  datatype Spot = Spot(pos: int, found: bool)

  /**
   * The position `insertAfterHandler` chooses: the target is the first line containing the
   * anchor (-1 when none does); when a heading or `---` line follows it, the text goes after
   * the last non-blank line between the two (after the target when there is none);
   * otherwise after the last line of the note. The heading is found here by its index in the
   * whole note; `insertAfterHandler` searches the lines after the target and adds the offset back.
   */
  function InsertSpot(lines: seq<string>, targetString: string): (s: Spot)
    ensures -1 <= s.pos < |lines|
    ensures s.found ==> s.pos < |lines| - 1
    ensures !s.found ==> s.pos == |lines| - 1
  {
    SpotAfter(lines, TargetLine(lines, targetString))
  }

  /** The position chosen in the section that follows line `target`. */
  function SpotAfter(lines: seq<string>, target: int): (s: Spot)
    requires -1 <= target < |lines|
    ensures -1 <= s.pos < |lines|
    ensures s.found ==> s.pos < |lines| - 1
    ensures !s.found ==> s.pos == |lines| - 1
  {
    var next := IndexFrom(lines, target + 1, IsHeaderLine);
    if next != -1 then Spot(LastNonBlank(lines, target, next), true)
    else Spot(|lines| - 1, false)
  }

  /** What `insertAfterHandler` returns: the text inserted at the chosen position. */
  function InsertAfter(targetString: string, formatted: string, fileContent: string): MContent {
    var spot := InsertSpot(Lines(fileContent), targetString);
    InsertTextAfterPositionInBody(formatted, fileContent, spot.pos, spot.found)
  }

  /**
   * The backward scan of `insertAfterHandler`: from line `hi - 1` down to just above `lo`,
   * the first line that is not blank; `lo` when there is none.
   */
  method ScanBackForText(lines: seq<string>, lo: int, hi: int) returns (insertPosition: int)
    requires -1 <= lo < hi <= |lines|
    ensures insertPosition == LastNonBlank(lines, lo, hi)
  {
    insertPosition := lo;
    var i := hi - 1;
    while i > lo
      invariant lo <= i <= hi - 1
      invariant insertPosition == lo
      invariant forall j :: i < j < hi ==> IsBlankLine(lines[j])
    {
      if !IsBlankLine(lines[i]) {
        insertPosition := i;
        break;
      }
      i := i - 1;
    }
    LastNonBlankIs(lines, lo, hi, insertPosition);
  }

  /** `insertAfterHandler`: finds the anchor and the next heading, then scans back for a non-blank line. */
  method InsertAfterHandler(targetString: string, formatted: string, fileContent: string) returns (r: MContent)
    ensures r == InsertAfter(targetString, formatted, fileContent)
  {
    var fileContentLines := GetLinesInString(fileContent);
    // a target of -1 is only logged; the search for the next heading then starts at line 0
    var targetPosition := TargetLine(fileContentLines, targetString);
    // `slice(targetPosition + 1)`: from a target of -1 that is the whole list
    var nextHeader;
    if targetPosition == -1 {
      nextHeader := FirstIndex(fileContentLines, IsHeaderLine);
    } else {
      nextHeader := FirstIndex(fileContentLines[targetPosition + 1..], IsHeaderLine);
      FirstIndexOfSuffix(fileContentLines, targetPosition + 1, IsHeaderLine);
    }
    if nextHeader != -1 {
      var insertPosition := ScanBackForText(fileContentLines, targetPosition, nextHeader + targetPosition + 1);
      r := InsertTextAfterPositionInBody(formatted, fileContent, insertPosition, true);
    } else {
      r := InsertTextAfterPositionInBody(formatted, fileContent, |fileContentLines| - 1, false);
    }
  }

  /** A line break between two texts separates their lines. */
  lemma LinesConcat(a: string, b: string)
    ensures Lines(a + "\n" + b) == Lines(a) + Lines(b)
  {
    assert a + "\n" + b == a + ['\n'] + b;
    SplitConcat(a, b, '\n');
  }

  /** Lines without line breaks are recovered from their join. */
  lemma LinesOfJoin(xs: seq<string>)
    requires xs != [] && forall k :: 0 <= k < |xs| ==> '\n' !in xs[k]
    ensures Lines(Join(xs, '\n')) == xs
  {
    SplitJoin(xs, '\n');
  }

  /** A text with no line break is one line. */
  lemma LinesOfLine(text: string)
    requires '\n' !in text
    ensures Lines(text) == [text]
  {
    SplitWithoutSeparator(text, '\n');
  }

  /** The lines of `pre`, a new line and `post`, joined back together. */
  lemma LinesAround(a: seq<string>, text: string, b: seq<string>)
    requires a != [] && b != [] && '\n' !in text
    requires forall k :: 0 <= k < |a| ==> '\n' !in a[k]
    requires forall k :: 0 <= k < |b| ==> '\n' !in b[k]
    ensures Lines(Join(a, '\n') + "\n" + text + "\n" + Join(b, '\n')) == a + [text] + b
  {
    var pre, post := Join(a, '\n'), Join(b, '\n');
    var tail := text + "\n" + post;
    assert Lines(tail) == [text] + b by {
      LinesConcat(text, post);
      LinesOfLine(text);
      LinesOfJoin(b);
    }
    assert Lines(pre + "\n" + tail) == a + ([text] + b) by {
      LinesConcat(pre, tail);
      LinesOfJoin(a);
    }
    var front := pre + "\n";
    assert front + text + "\n" + post == front + tail by {
      AppendAssoc(front, text, "\n");
      AppendAssoc(front, text + "\n", post);
    }
    AppendAssoc(a, [text], b);
  }

  /** The lines after an insertion: the old lines with the text as a new line right after line `pos`, or at the end for -1. */
  lemma InsertTextLines(text: string, body: string, pos: int, found: bool)
    requires '\n' !in text
    requires -1 <= pos < |Lines(body)|
    requires found ==> pos < |Lines(body)| - 1
    requires !found ==> pos == -1 || pos == |Lines(body)| - 1
    ensures var r := InsertTextAfterPositionInBody(text, body, pos, found);
      var lines := Lines(body);
      (pos == -1 ==> Lines(r.content) == lines + [text])
      && (pos >= 0 ==> Lines(r.content) == lines[..pos + 1] + [text] + lines[pos + 1..])
  {
    var lines := Lines(body);
    LinesRoundTrip(body);
    LinesOfLine(text);
    if pos == -1 {
      LinesConcat(body, text);
    } else {
      var a := lines[..pos + 1];
      var b := lines[pos + 1..];
      if found {
        LinesAround(a, text, b);
      } else {
        assert a == lines && b == [];
        LinesConcat(Join(a, '\n'), text);
      }
    }
  }

  /** The lines of `r` are `lines` with `text` put after line `r.posNum`, or at the end for -1. */
  predicate PutAfter(lines: seq<string>, text: string, r: MContent) {
    -1 <= r.posNum < |lines|
    && Lines(r.content) == if r.posNum == -1 then lines + [text] else InsertAt(lines, r.posNum + 1, text)
  }

  /** With a one-line text, the note gains exactly that line: right after line `posNum`, or at the end for -1. */
  lemma InsertAfterLines(targetString: string, formatted: string, fileContent: string)
    requires '\n' !in formatted
    ensures var r := InsertAfter(targetString, formatted, fileContent);
      r.posNum == InsertSpot(Lines(fileContent), targetString).pos
      && PutAfter(Lines(fileContent), formatted, r)
  {
    var spot := InsertSpot(Lines(fileContent), targetString);
    InsertTextLines(formatted, fileContent, spot.pos, spot.found);
  }

  /** No line contains the anchor exactly when the target is -1. */
  lemma TargetLineMissing(lines: seq<string>, anchor: string)
    ensures TargetLine(lines, anchor) == -1 <==> forall j :: 0 <= j < |lines| ==> !Contains(lines[j], anchor)
  {
    TargetLineSpec(lines, anchor);
    var t := TargetLine(lines, anchor);
    if t >= 0 {
      assert Contains(lines[t], anchor);
    }
  }

  /**
   * Where the new line goes, relative to the target line `t` (see `TargetLineSpec`): after the
   * last line when no heading follows `t`; otherwise strictly before the first heading after
   * `t`, after the last non-blank line in between or, when there is none, after `t` itself.
   */
  lemma InsertSpotPosition(lines: seq<string>, targetString: string)
    ensures var t := TargetLine(lines, targetString);
      var spot := InsertSpot(lines, targetString);
      (forall j :: t < j < |lines| ==> !IsHeaderLine(lines[j])) ==> spot == Spot(|lines| - 1, false)
    ensures var t := TargetLine(lines, targetString);
      var spot := InsertSpot(lines, targetString);
      forall h :: t < h < |lines| && IsHeaderLine(lines[h]) && (forall j :: t < j < h ==> !IsHeaderLine(lines[j]))
        ==> spot.found && t <= spot.pos < h
            && (spot.pos > t ==> !IsBlankLine(lines[spot.pos]))
            && (forall j :: spot.pos < j < h ==> IsBlankLine(lines[j]))
  {
    var t := TargetLine(lines, targetString);
    IndexFromSpec(lines, t + 1, IsHeaderLine);
    var h := IndexFrom(lines, t + 1, IsHeaderLine);
    if h != -1 {
      LastNonBlankSpec(lines, t, h);
    }
  }

  /**
   * The position is -1, and the text is appended at the end of the note, exactly when no
   * line contains the anchor and some heading is preceded by blank lines only.
   */
  lemma InsertSpotAppends(lines: seq<string>, targetString: string)
    requires lines != []
    ensures InsertSpot(lines, targetString).pos == -1 <==>
      TargetLine(lines, targetString) == -1
      && exists h :: 0 <= h < |lines| && IsHeaderLine(lines[h]) && forall j :: 0 <= j < h ==> IsBlankLine(lines[j])
  {
    var target := TargetLine(lines, targetString);
    IndexFromSpec(lines, target + 1, IsHeaderLine);
    var next := IndexFrom(lines, target + 1, IsHeaderLine);
    if next != -1 {
      SpotAfterFound(lines, target, next);
      LastNonBlankSpec(lines, target, next);
    }
    if InsertSpot(lines, targetString).pos == -1 {
      assert next != -1 && target == -1;
      assert IsHeaderLine(lines[next]);
    }
    if target == -1
       && exists h :: 0 <= h < |lines| && IsHeaderLine(lines[h]) && forall j :: 0 <= j < h ==> IsBlankLine(lines[j])
    {
      var h :| 0 <= h < |lines| && IsHeaderLine(lines[h]) && forall j :: 0 <= j < h ==> IsBlankLine(lines[j]);
      assert next != -1 && next <= h;
      LastNonBlankIs(lines, -1, next, -1);
    }
  }

  /** An empty anchor is contained in every line, so the section starts at the first line. */
  lemma EmptyAnchorTargetsFirstLine(lines: seq<string>)
    requires lines != []
    ensures TargetLine(lines, "") == 0
  {
    assert OccursAt(lines[0], "", 0);
    ContainsAt(lines[0], "", 0);
    TargetLineIs(lines, "", 0);
  }

  /** The target line stays put when the lines up to it are kept. */
  lemma TargetLineKeptPrefix(lines: seq<string>, lines': seq<string>, anchor: string)
    requires 0 <= TargetLine(lines, anchor) < |lines'|
    requires lines'[..TargetLine(lines, anchor) + 1] == lines[..TargetLine(lines, anchor) + 1]
    ensures TargetLine(lines', anchor) == TargetLine(lines, anchor)
  {
    TargetLineSpec(lines, anchor);
    var t := TargetLine(lines, anchor);
    assert lines'[t] == lines[t];
    forall j | 0 <= j < t
      ensures !Contains(lines'[j], anchor)
    {
      assert lines'[j] == lines[j];
    }
    TargetLineIs(lines', anchor, t);
  }

  /**
   * After a non-blank, non-heading line is put at the chosen position of a section that ends
   * at a heading, the next position chosen is right after it.
   */
  lemma InsertSpotAfterInsert(lines: seq<string>, anchor: string, x: string)
    requires !IsBlankLine(x) && !IsHeaderLine(x)
    requires var t := TargetLine(lines, anchor);
      t >= 0 && IndexFrom(lines, t + 1, IsHeaderLine) >= 0
    ensures var p := InsertSpot(lines, anchor).pos;
      0 <= p < |lines| && InsertSpot(InsertAt(lines, p + 1, x), anchor) == Spot(p + 1, true)
  {
    var t := TargetLine(lines, anchor);
    var p := SpotAfter(lines, t).pos;
    SpotAfterInsert(lines, t, x);
    TargetLineAfterInsert(lines, anchor, p + 1, x);
  }

  /** Within one section: the line put at the chosen position is followed by the next one chosen. */
  lemma SpotAfterInsert(lines: seq<string>, t: int, x: string)
    requires !IsBlankLine(x) && !IsHeaderLine(x)
    requires 0 <= t < |lines| && IndexFrom(lines, t + 1, IsHeaderLine) >= 0
    ensures var p := SpotAfter(lines, t).pos;
      t <= p < |lines| && SpotAfter(InsertAt(lines, p + 1, x), t) == Spot(p + 1, true)
  {
    var h := IndexFrom(lines, t + 1, IsHeaderLine);
    SpotAfterFound(lines, t, h);
    var p := LastNonBlank(lines, t, h);
    assert SpotAfter(lines, t).pos == p;
    var lines1 := InsertAt(lines, p + 1, x);
    // the heading moves down by one
    IndexFromAfterInsert(lines, t + 1, p + 1, x, IsHeaderLine);
    assert IndexFrom(lines1, t + 1, IsHeaderLine) == h + 1;
    // the last non-blank line before it is the new one
    LastNonBlankAfterInsert(lines, t, h, x);
    SpotAfterFound(lines1, t, h + 1);
  }

  /** With a heading after the target, the position is the last non-blank line before it. */
  lemma SpotAfterFound(lines: seq<string>, t: int, h: int)
    requires -1 <= t < h < |lines| && IndexFrom(lines, t + 1, IsHeaderLine) == h
    ensures SpotAfter(lines, t) == Spot(LastNonBlank(lines, t, h), true)
  {
  }

  /** A line put after the target line leaves the target where it was. */
  lemma TargetLineAfterInsert(lines: seq<string>, anchor: string, i: nat, x: string)
    requires 0 <= TargetLine(lines, anchor) < i <= |lines|
    ensures TargetLine(InsertAt(lines, i, x), anchor) == TargetLine(lines, anchor)
  {
    var t := TargetLine(lines, anchor);
    var lines1 := InsertAt(lines, i, x);
    assert lines1[..t + 1] == lines[..t + 1] by {
      assert lines1[..t + 1] == lines1[..i][..t + 1];
    }
    TargetLineKeptPrefix(lines, lines1, anchor);
  }

  /** A non-blank line put right after the last non-blank line before `hi` becomes the last one. */
  lemma LastNonBlankAfterInsert(lines: seq<string>, lo: int, hi: int, x: string)
    requires -1 <= lo < hi <= |lines| && !IsBlankLine(x)
    ensures var p := LastNonBlank(lines, lo, hi);
      LastNonBlank(InsertAt(lines, p + 1, x), lo, hi + 1) == p + 1
  {
    var p := LastNonBlank(lines, lo, hi);
    var lines1 := InsertAt(lines, p + 1, x);
    LastNonBlankSpec(lines, lo, hi);
    forall j | p + 1 < j < hi + 1
      ensures IsBlankLine(lines1[j])
    {
      InsertAtIndex(lines, p + 1, x, j - 1);
    }
    LastNonBlankIs(lines1, lo, hi + 1, p + 1);
  }

  /** `y` written after `x`: `x` went right after line `r1.posNum`, and `y` right after `x`. */
  predicate WrittenInOrder(lines: seq<string>, x: string, y: string, r1: MContent, r2: MContent) {
    0 <= r1.posNum < |lines|
    && r2.posNum == r1.posNum + 1
    && Lines(r2.content) == lines[..r1.posNum + 1] + [x, y] + lines[r1.posNum + 1..]
  }

  /**
   * Two memos written one after the other into a section that ends at a heading: the second
   * is put right after the first, so they come out in writing order on adjacent lines, with
   * every other line kept in place.
   */
  lemma InsertTwice(anchor: string, x: string, y: string, fileContent: string)
    requires '\n' !in x && '\n' !in y
    requires !IsBlankLine(x) && !IsHeaderLine(x)
    requires var lines := Lines(fileContent);
      var t := TargetLine(lines, anchor);
      t >= 0 && IndexFrom(lines, t + 1, IsHeaderLine) >= 0
    ensures var r1 := InsertAfter(anchor, x, fileContent);
      WrittenInOrder(Lines(fileContent), x, y, r1, InsertAfter(anchor, y, r1.content))
  {
    var r1 := InsertAfter(anchor, x, fileContent);
    var r2 := InsertAfter(anchor, y, r1.content);
    InsertAfterLines(anchor, x, fileContent);
    InsertAfterLines(anchor, y, r1.content);
    PutTwice(Lines(fileContent), anchor, x, y, r1, r2);
  }

  /** The line-level part of `InsertTwice`. */
  lemma PutTwice(lines: seq<string>, anchor: string, x: string, y: string, r1: MContent, r2: MContent)
    requires !IsBlankLine(x) && !IsHeaderLine(x)
    requires var t := TargetLine(lines, anchor);
      t >= 0 && IndexFrom(lines, t + 1, IsHeaderLine) >= 0
    requires r1.posNum == InsertSpot(lines, anchor).pos && PutAfter(lines, x, r1)
    requires r2.posNum == InsertSpot(Lines(r1.content), anchor).pos && PutAfter(Lines(r1.content), y, r2)
    ensures WrittenInOrder(lines, x, y, r1, r2)
  {
    NextSpotAfterPut(lines, anchor, x, r1);
    PutTwiceAt(lines, x, y, r1, r2);
  }

  /** After a memo is put at the chosen spot of a section, the next spot is the line just put. */
  lemma NextSpotAfterPut(lines: seq<string>, anchor: string, x: string, r1: MContent)
    requires !IsBlankLine(x) && !IsHeaderLine(x)
    requires var t := TargetLine(lines, anchor);
      t >= 0 && IndexFrom(lines, t + 1, IsHeaderLine) >= 0
    requires r1.posNum == InsertSpot(lines, anchor).pos && PutAfter(lines, x, r1)
    ensures 0 <= r1.posNum < |lines| && InsertSpot(Lines(r1.content), anchor).pos == r1.posNum + 1
  {
    InsertSpotAfterInsertInto(lines, anchor, x, Lines(r1.content));
  }

  /** `InsertSpotAfterInsert`, stated about a given copy of the new lines. */
  lemma InsertSpotAfterInsertInto(lines: seq<string>, anchor: string, x: string, lines1: seq<string>)
    requires !IsBlankLine(x) && !IsHeaderLine(x)
    requires var t := TargetLine(lines, anchor);
      t >= 0 && IndexFrom(lines, t + 1, IsHeaderLine) >= 0
    requires var p := InsertSpot(lines, anchor).pos;
      0 <= p < |lines| ==> lines1 == InsertAt(lines, p + 1, x)
    ensures var p := InsertSpot(lines, anchor).pos;
      0 <= p < |lines| && InsertSpot(lines1, anchor).pos == p + 1
  {
    InsertSpotAfterInsert(lines, anchor, x);
  }

  /** Putting `y` right after the line where `x` was put gives both lines, in that order. */
  lemma PutTwiceAt(lines: seq<string>, x: string, y: string, r1: MContent, r2: MContent)
    requires 0 <= r1.posNum < |lines| && PutAfter(lines, x, r1)
    requires r2.posNum == r1.posNum + 1 && PutAfter(Lines(r1.content), y, r2)
    ensures WrittenInOrder(lines, x, y, r1, r2)
  {
    InsertAtTwice(lines, r1.posNum + 1, x, y);
  }

  // ---------------------------------------------------------------------------
  // The memo line

  /** `content.replace(/\n/g, '<br>').replace(/(<br>)(<br>)/g, '$1 $2')`. */
  function EscapeNewlines(content: string): string {
    ReplaceAll(ReplaceAll(content, "\n", "<br>"), "<br><br>", "<br> <br>")
  }

  /** The escaped content has no line break, so a memo always occupies a single line. */
  lemma EscapeNewlinesSingleLine(content: string)
    ensures '\n' !in EscapeNewlines(content)
  {
    var s1 := ReplaceAll(content, "\n", "<br>");
    if '\n' in EscapeNewlines(content) {
      ReplaceAllChars(s1, "<br><br>", "<br> <br>", '\n');
      ReplaceAllChars(content, "\n", "<br>", '\n');
    }
  }

  /** Content without line breaks and without `<br><br>` is written as it is. */
  lemma EscapeNewlinesKeepsPlainText(content: string)
    requires '\n' !in content && !Contains(content, "<br><br>")
    ensures EscapeNewlines(content) == content
  {
    ContainsChar(content, '\n');
    ReplaceAllAbsent(content, "\n", "<br>");
    ReplaceAllAbsent(content, "<br><br>", "<br> <br>");
  }

  /**
   * The line `waitForInsert` writes: a task checkbox or a plain bullet, then either the time
   * and the escaped content or the memo template with each `{TIME}` and `{CONTENT}` filled in.
   * Either way the line starts with the bullet of its kind.
   */
  function FormatMemoLine(isTask: bool, composition: string, date: Moment, content: string): (line: string)
    requires date.Valid()
    ensures (if isTask then "- [ ] " else "- ") <= line
  {
    var removeEnter := EscapeNewlines(content);
    var bullet := if isTask then "- [ ] " else "- ";
    if composition == "" then bullet + date.TimeText() + " " + removeEnter
    else bullet + ReplaceAll(ReplaceAll(composition, "{TIME}", date.TimeText()), "{CONTENT}", removeEnter)
  }

  /**
   * Without a template the memo line reads `- [ ] HH:mm:ss ` or `- HH:mm:ss `, then the
   * escaped content; with a template free of line breaks it is one line.
   */
  lemma FormatMemoLineShape(isTask: bool, composition: string, date: Moment, content: string)
    requires date.Valid()
    ensures var line := FormatMemoLine(isTask, composition, date, content);
      var b := if isTask then 6 else 2;
      (composition == "" ==>
         |line| >= b + 9 && IsClockText(line[b..b + 8]) && line[b + 8] == ' '
         && line[b + 9..] == EscapeNewlines(content))
      && ('\n' !in composition ==> '\n' !in line)
  {
    if composition == "" {
      PlainMemoLine(isTask, date, content);
    } else if '\n' !in composition {
      TemplateMemoLine(isTask, composition, date, content);
    } else {
    }
  }

  /** Without a template: the bullet, the time, a space and the escaped content. */
  lemma PlainMemoLine(isTask: bool, date: Moment, content: string)
    requires date.Valid()
    ensures var line := FormatMemoLine(isTask, "", date, content);
      var b := if isTask then 6 else 2;
      |line| >= b + 9 && IsClockText(line[b..b + 8]) && line[b + 8] == ' '
      && line[b + 9..] == EscapeNewlines(content) && '\n' !in line
  {
    EscapeNewlinesSingleLine(content);
    var bullet := if isTask then "- [ ] " else "- ";
    assert FormatMemoLine(isTask, "", date, content) == bullet + date.TimeText() + " " + EscapeNewlines(content);
    LineParts(bullet, date.TimeText(), EscapeNewlines(content));
  }

  /** The parts of `bullet + time + " " + text`, and no line break where the parts have none. */
  lemma LineParts(bullet: string, time: string, text: string)
    requires |time| == 8 && '\n' !in bullet && '\n' !in time && '\n' !in text
    ensures var line := bullet + time + " " + text;
      var b := |bullet|;
      |line| >= b + 9 && line[b..b + 8] == time && line[b + 8] == ' ' && line[b + 9..] == text
      && '\n' !in line
  {
    var line := bullet + time + " " + text;
    assert forall k :: 0 <= k < |line| ==> line[k] in bullet || line[k] in time || line[k] == ' ' || line[k] in text;
  }

  /** With a template free of line breaks the memo line is one line. */
  lemma TemplateMemoLine(isTask: bool, composition: string, date: Moment, content: string)
    requires date.Valid() && composition != "" && '\n' !in composition
    ensures '\n' !in FormatMemoLine(isTask, composition, date, content)
  {
    EscapeNewlinesSingleLine(content);
    var removeEnter := EscapeNewlines(content);
    var s1 := ReplaceAll(composition, "{TIME}", date.TimeText());
    if '\n' in s1 {
      ReplaceAllChars(composition, "{TIME}", date.TimeText(), '\n');
    }
    if '\n' in ReplaceAll(s1, "{CONTENT}", removeEnter) {
      ReplaceAllChars(s1, "{CONTENT}", removeEnter, '\n');
    }
  }

  // ---------------------------------------------------------------------------
  // The line number and the id

  /** A piece before a `\r\n` break loses its `\r`. */
  function DropCarriageReturn(x: string): string {
    if x != [] && x[|x| - 1] == '\r' then x[..|x| - 1] else x
  }

  /** `cache.split(/\r?\n/)`: the lines, with the `\r` of a Windows line break removed. */
  function AllLinesFromFile(cache: string): (r: seq<string>)
    ensures |r| == |Lines(cache)|
    ensures forall k :: 0 <= k < |r| - 1 ==> r[k] == DropCarriageReturn(Lines(cache)[k])
    ensures r[|r| - 1] == Lines(cache)[|r| - 1]
  {
    var lines := Lines(cache);
    seq(|lines|, k requires 0 <= k < |lines| => if k < |lines| - 1 then DropCarriageReturn(lines[k]) else lines[k])
  }

  /** The line number `waitForInsert` puts in the id, as written: `posNum + 1`, or the line count plus one when `posNum` is -1. */
  function LineNumber(r: MContent): nat
    requires r.posNum >= -1
  {
    if r.posNum == -1 then |AllLinesFromFile(r.content)| + 1 else r.posNum + 1
  }

  /** The 0-based index of the inserted line: `posNum + 1`, or the last line when the text was appended. */
  function InsertedLine(r: MContent): nat
    requires r.posNum >= -1
  {
    if r.posNum == -1 then |Lines(r.content)| - 1 else r.posNum + 1
  }

  /**
   * The corrected line number names the line that holds the memo, wherever it was put, and
   * agrees with the line number as written unless the memo was appended with position -1.
   */
  lemma InsertedLineHoldsMemo(targetString: string, formatted: string, fileContent: string)
    requires '\n' !in formatted
    ensures var r := InsertAfter(targetString, formatted, fileContent);
      r.posNum >= -1
      && InsertedLine(r) < |Lines(r.content)|
      && Lines(r.content)[InsertedLine(r)] == formatted
      && (r.posNum != -1 ==> InsertedLine(r) == LineNumber(r))
  {
    InsertAfterLines(targetString, formatted, fileContent);
    InsertedLineOf(Lines(fileContent), formatted, InsertAfter(targetString, formatted, fileContent));
  }

  /** The line-level part of `InsertedLineHoldsMemo`. */
  lemma InsertedLineOf(lines: seq<string>, text: string, r: MContent)
    requires PutAfter(lines, text, r)
    ensures r.posNum >= -1
      && InsertedLine(r) < |Lines(r.content)|
      && Lines(r.content)[InsertedLine(r)] == text
      && (r.posNum != -1 ==> InsertedLine(r) == LineNumber(r))
  {
    if r.posNum == -1 {
      assert Lines(r.content)[|lines|] == text;
    } else {
      assert Lines(r.content)[r.posNum + 1] == text;
    }
  }

  /**
   * As written, a memo appended with position -1 gets the line count plus one as its line
   * number: two past the index of the line that holds it.
   */
  lemma LineNumberPastAppendedMemo(targetString: string, formatted: string, fileContent: string)
    requires '\n' !in formatted
    ensures var r := InsertAfter(targetString, formatted, fileContent);
      r.posNum == -1 ==>
        LineNumber(r) == InsertedLine(r) + 2 && LineNumber(r) > |Lines(r.content)|
  {
    InsertAfterLines(targetString, formatted, fileContent);
  }

  /** A concrete note where this happens: no anchor line, and a heading as its first line. */
  lemma LineNumberPastAppendedMemoExample()
    ensures var r := InsertAfter("Memos", "- 10:00:00 hi", "# Day");
      r.posNum == -1 && Lines(r.content) == ["# Day", "- 10:00:00 hi"]
      && InsertedLine(r) == 1 && LineNumber(r) == 3
  {
    var lines := Lines("# Day");
    assert lines == ["# Day"] by {
      SplitWithoutSeparator("# Day", '\n');
    }
    assert InsertSpot(lines, "Memos").pos == -1 by {
      assert !Contains(lines[0], "Memos") by {
        forall i: nat ensures !OccursAt("# Day", "Memos", i) {
          if i == 0 {
            assert "# Day"[0] != "Memos"[0];
          }
        }
        ContainsOccurs("# Day", "Memos");
      }
      TargetLineMissing(lines, "Memos");
      assert IsHeaderLine(lines[0]) by {
        assert LeadingHashes("# Day") == 1;
      }
      InsertSpotAppends(lines, "Memos");
    }
    var r := InsertAfter("Memos", "- 10:00:00 hi", "# Day");
    assert r.posNum == -1 && Lines(r.content) == ["# Day", "- 10:00:00 hi"] by {
      InsertAfterLines("Memos", "- 10:00:00 hi", "# Day");
    }
  }

  /** A memo id: a date stamp followed by the decimal line number. */
  function MemoId(stamp: string, lineNum: nat): string {
    stamp + NatToString(lineNum)
  }

  // ---------------------------------------------------------------------------
  // waitForInsert

  /** The settings `waitForInsert` reads: the anchor and the memo template. */
  datatype Settings = Settings(insertAfter: string, memoComposition: string)

  /** The memo `waitForInsert` returns and the note it wrote back. */
  datatype Inserted = Inserted(memo: Memo, note: NoteFile)

  /**
   * `waitForInsert`: formats the memo line, inserts it into the date's daily note (the note the
   * host creates when there is none) and returns the new memo. The id is the date stamp and the
   * line number; a task written into a freshly created note gets a stamp with milliseconds.
   */
  method WaitForInsert(memoContent: string, isTask: bool, date: Moment, settings: Settings,
                       existingFile: Option<NoteFile>, createdFile: NoteFile) returns (out: Inserted)
    requires date.Valid()
    ensures var file := if existingFile.Some? then existingFile.value else createdFile;
      var r := InsertAfter(settings.insertAfter, FormatMemoLine(isTask, settings.memoComposition, date, memoContent), file.content);
      var stamp := if existingFile.None? && isTask then date.StampWithMillis() else date.Stamp();
      out.note == NoteFile(file.path, r.content)
      && out.memo == Memo(MemoId(stamp, LineNumber(r)), memoContent, None, date.Display(), date.Display(), "",
                          Some(if isTask then TaskTodo else Journal), "", "", file.path)
  {
    var newEvent := FormatMemoLine(isTask, settings.memoComposition, date, memoContent);
    var file: NoteFile;
    if existingFile.None? {
      file := createdFile;
    } else {
      file := existingFile.value;
    }
    assert file == if existingFile.Some? then existingFile.value else createdFile;
    var newFileContent := InsertAfterHandler(settings.insertAfter, newEvent, file.content);
    // the content always holds the inserted line break, so the new-note branch's emptiness test never fails
    assert newFileContent.content != [];
    var lineNum: nat;
    if newFileContent.posNum == -1 {
      var allLines := AllLinesFromFile(newFileContent.content);
      lineNum := |allLines| + 1;
    } else {
      lineNum := newFileContent.posNum + 1;
    }
    assert lineNum == LineNumber(newFileContent);
    var stamp := if existingFile.None? && isTask then date.StampWithMillis() else date.Stamp();
    var memoType := if isTask then TaskTodo else Journal;
    out := Inserted(
      Memo(stamp + NatToString(lineNum), memoContent, None, date.Display(), date.Display(), "", Some(memoType), "", "", file.path),
      NoteFile(file.path, newFileContent.content));
  }

  /**
   * A memo written into an existing note gets the 14-digit stamp of its date followed by the
   * number of the line after the one it follows; its record holds the raw content.
   */
  lemma WrittenMemoId(memoContent: string, isTask: bool, date: Moment, settings: Settings, file: NoteFile)
    requires date.Valid()
    ensures var line := FormatMemoLine(isTask, settings.memoComposition, date, memoContent);
      var r := InsertAfter(settings.insertAfter, line, file.content);
      var id := MemoId(date.Stamp(), LineNumber(r));
      |id| > 14 && id[..14] == date.Stamp() && AllDigits(id)
  {
    var line := FormatMemoLine(isTask, settings.memoComposition, date, memoContent);
    var r := InsertAfter(settings.insertAfter, line, file.content);
    AllDigitsAppend(date.Stamp(), NatToString(LineNumber(r)));
  }
}
