/**
 * Editing a memo in place: the memo's id names the daily note (by its date stamp) and the
 * line (by its number); the new text replaces the old text inside that line, and the changed
 * line replaces the old line in the note.
 */
module UpdateMemo {
  import opened Wrappers
  import opened Strings
  import opened Seqs
  import opened Memos
  import opened CreateMemo

  // ---------------------------------------------------------------------------
  // Reading an id

  /** `memoid.slice(0, 14)`: the date stamp, or the whole id when it is shorter. */
  function TimeString(memoid: string): (r: string)
    ensures r <= memoid && |r| == if |memoid| < 14 then |memoid| else 14
  {
    if |memoid| <= 14 then memoid else memoid[..14]
  }

  /** `memoid.slice(14)`: what follows the date stamp, empty for a short id. */
  function IdTail(memoid: string): (r: string)
    ensures TimeString(memoid) + r == memoid
  {
    if |memoid| <= 14 then [] else memoid[14..]
  }

  /** `parseInt(memoid.slice(14))`: the line index the id names; `None` for `NaN`. */
  function LineIndex(memoid: string): Option<int> {
    ParseInt(IdTail(memoid))
  }

  /** `memoid.slice(-6)`: the last six characters, or the whole id when it is shorter. */
  function LastSix(memoid: string): (r: string)
    ensures |r| == if |memoid| < 6 then |memoid| else 6
    ensures memoid == memoid[..|memoid| - |r|] + r
  {
    if |memoid| <= 6 then memoid else memoid[|memoid| - 6..]
  }

  /** `/^\d{14}/.test(content)`: the text starts with fourteen decimal digits. */
  predicate StartsWithStamp(content: string) {
    |content| >= 14 && AllDigits(content[..14])
  }

  /** The stamp of the date the edit is filed under: one leading the new text wins over the id's. */
  function ChangeDateStamp(memoid: string, content: string): (r: string)
    ensures StartsWithStamp(content) ==> r == content[..14] && AllDigits(r)
    ensures !StartsWithStamp(content) ==> r == TimeString(memoid)
  {
    if StartsWithStamp(content) then content[..14] else TimeString(memoid)
  }

  // ---------------------------------------------------------------------------
  // The host

  /**
   * What `changeMemo` asks of the host application: the daily note of a date stamp
   * (`getDailyNote(moment(stamp, 'YYYYMMDDHHmmss'), dailyNotes)`), the note a link path
   * resolves to (`metadataCache.getFirstLinkpathDest('', path)`), and the display form of a
   * stamp (`moment(stamp, 'YYYYMMDDHHmmss').format('YYYY/MM/DD HH:mm:ss')`). `None` is a
   * missing note.
   */
  datatype Host = Host(
    dailyNote: string -> Option<NoteFile>,
    linkpathDest: string -> Option<NoteFile>,
    displayDate: string -> string)

  /** Why `changeMemo` throws: no note to edit, or no line at the index the id names (`undefined.replace`). */
  datatype Failure = FileNotFound | NoSuchLine

  /** The memo `changeMemo` returns and the note it writes back. */
  datatype Changed = Changed(memo: Memo, note: NoteFile)

  /** The note to edit: the one an explicit path resolves to, otherwise the daily note of the stamp. */
  function NoteToEdit(host: Host, path: Option<string>, stamp: string): Option<NoteFile> {
    if path.Some? then host.linkpathDest(path.value) else host.dailyNote(stamp)
  }

  /** `memoType || 'JOURNAL'`: a missing or empty type is a journal entry. */
  function TypeOrJournal(memoType: Option<string>): (r: string)
    ensures r != ""
    ensures memoType.Some? && memoType.value != "" ==> r == memoType.value
    ensures memoType.None? || memoType.value == "" ==> r == Journal
  {
    if memoType.Some? && memoType.value != "" then memoType.value else Journal
  }

  /**
   * `changeMemo`: finds the note, replaces the first occurrence of the old text inside the
   * line the id names by the escaped new text, then replaces the first occurrence of the old
   * line's text in the whole note by the changed line.
   */
  function ChangeMemo(host: Host, memoid: string, originalContent: string, content: string,
                      memoType: Option<string>, path: Option<string>): (r: Result<Changed, Failure>)
    ensures NoteToEdit(host, path, ChangeDateStamp(memoid, content)).None? ==> r == Err(FileNotFound)
    ensures r.Ok? ==>
      var m := r.value.memo;
      m.id == memoid && m.path == r.value.note.path && m.createdAt == m.updatedAt
      && m.content == EscapeNewlines(content) && '\n' !in m.content
      && m.memoType.Some? && m.memoType.value != ""
  {
    EscapeNewlinesSingleLine(content);
    var stamp := ChangeDateStamp(memoid, content);
    match NoteToEdit(host, path, stamp)
    case None => Err(FileNotFound)
    case Some(file) =>
      var fileLines := AllLinesFromFile(file.content);
      var removeEnter := EscapeNewlines(content);
      match LineIndex(memoid)
      case None => Err(NoSuchLine)
      case Some(idx) =>
        if idx < 0 || idx >= |fileLines| then Err(NoSuchLine)
        else
          var originalLine := fileLines[idx];
          var newLine := ReplaceFirst(originalLine, originalContent, removeEnter);
          var newFileContent := ReplaceFirst(file.content, originalLine, newLine);
          var date := host.displayDate(stamp);
          Ok(Changed(
            Memo(memoid, removeEnter, Some(1), date, date, "", Some(TypeOrJournal(memoType)),
                 LastSix(memoid), "", file.path),
            NoteFile(file.path, newFileContent)))
  }

  /** `getFile`: the daily note named by the first fourteen characters of the id. */
  function GetFile(host: Host, memoid: string): (r: Option<NoteFile>)
    ensures |memoid| >= 14 ==> r == host.dailyNote(memoid[..14])
    ensures |memoid| <= 14 ==> r == host.dailyNote(memoid)
  {
    assert |memoid| >= 14 ==> TimeString(memoid) == memoid[..14];
    assert |memoid| <= 14 ==> TimeString(memoid) == memoid;
    host.dailyNote(TimeString(memoid))
  }

  // ---------------------------------------------------------------------------
  // Ids written at creation are read back

  /** An id made of a 14-character stamp and a line number gives back both. */
  lemma MemoIdRoundTrip(stamp: string, n: nat)
    requires |stamp| == 14
    ensures TimeString(MemoId(stamp, n)) == stamp
    ensures LineIndex(MemoId(stamp, n)) == Some(n)
  {
    var id := MemoId(stamp, n);
    assert id[..14] == stamp && id[14..] == NatToString(n);
    ParseIntNatToString(n);
  }

  /**
   * An id made of a 17-digit stamp (with milliseconds) is read with the milliseconds as the
   * leading digits of the line index: the index is `millis * 10^k + n`, `k` the number of
   * digits of `n`, which is the line number itself only at millisecond 0.
   */
  lemma MillisIdLineIndex(stamp: string, n: nat)
    requires |stamp| == 17 && AllDigits(stamp)
    ensures TimeString(MemoId(stamp, n)) == stamp[..14]
    ensures LineIndex(MemoId(stamp, n))
         == Some(DecimalValue(stamp[14..]) * Pow10(|NatToString(n)|) + n)
    ensures LineIndex(MemoId(stamp, n)).value >= n
  {
    var id := MemoId(stamp, n);
    var millis, digits := stamp[14..], NatToString(n);
    assert AllDigits(millis);
    var tail := millis + digits;
    assert TimeString(id) == stamp[..14] && IdTail(id) == tail by {
      assert id[..14] == stamp[..14] && id[14..] == tail;
    }
    var m: nat, p: nat := DecimalValue(millis), Pow10(|digits|);
    assert m * p >= 0 by {
      NatProduct(m, p);
    }
    assert DecimalValue(tail) == m * p + n by {
      DecimalValueAppend(millis, digits);
      DecimalValueOfNat(n);
    }
    assert LineIndex(id) == Some(DecimalValue(tail)) by {
      AllDigitsAppend(millis, digits);
      ParseIntDigits(tail);
    }
  }

  lemma NatProduct(a: nat, b: nat)
    ensures a * b >= 0
  {
  }

  /**
   * A memo written with a position after the anchor (not appended with position -1) gets an
   * id whose line index names the line that holds it.
   */
  lemma CreatedIdNamesItsLine(date: Moment, targetString: string, formatted: string, fileContent: string)
    requires date.Valid() && '\n' !in formatted
    ensures var r := InsertAfter(targetString, formatted, fileContent);
      var id := MemoId(date.Stamp(), LineNumber(r));
      r.posNum != -1 ==>
        TimeString(id) == date.Stamp()
        && LineIndex(id) == Some(InsertedLine(r))
        && InsertedLine(r) < |Lines(r.content)| && Lines(r.content)[InsertedLine(r)] == formatted
  {
    var r := InsertAfter(targetString, formatted, fileContent);
    assert r.posNum >= -1 && InsertedLine(r) < |Lines(r.content)|
        && Lines(r.content)[InsertedLine(r)] == formatted
        && (r.posNum != -1 ==> InsertedLine(r) == LineNumber(r)) by {
      InsertedLineHoldsMemo(targetString, formatted, fileContent);
    }
    MemoIdRoundTrip(date.Stamp(), LineNumber(r));
  }

  /** `getFile` looks a memo up by the date it was created at, whichever stamp its id carries. */
  lemma GetFileOfCreatedId(host: Host, date: Moment, n: nat)
    requires date.Valid()
    ensures GetFile(host, MemoId(date.Stamp(), n)) == host.dailyNote(date.Stamp())
    ensures GetFile(host, MemoId(date.StampWithMillis(), n)) == host.dailyNote(date.Stamp())
  {
    MemoIdRoundTrip(date.Stamp(), n);
    MillisIdLineIndex(date.StampWithMillis(), n);
    assert date.StampWithMillis()[..14] == date.Stamp();
  }

  // ---------------------------------------------------------------------------
  // What changeMemo returns

  /**
   * The edit fails exactly when no note is found (`File not found`), or when the id's line
   * index is not a number or is outside the note's lines.
   */
  lemma ChangeMemoFailures(host: Host, memoid: string, originalContent: string, content: string,
                           memoType: Option<string>, path: Option<string>)
    ensures var note := NoteToEdit(host, path, ChangeDateStamp(memoid, content));
      var r := ChangeMemo(host, memoid, originalContent, content, memoType, path);
      (r == Err(FileNotFound) <==> note.None?)
      && (r == Err(NoSuchLine) <==>
            note.Some? && !(LineIndex(memoid).Some?
                            && 0 <= LineIndex(memoid).value < |AllLinesFromFile(note.value.content)|))
  {
  }

  /**
   * The note edited is the one an explicit path resolves to, whatever the dates; without a
   * path, the daily note of the stamp leading the new text, or else of the id's stamp.
   */
  lemma ChangeMemoFindsNote(host: Host, memoid: string, originalContent: string, content: string,
                            memoType: Option<string>, path: Option<string>)
    requires ChangeMemo(host, memoid, originalContent, content, memoType, path).Ok?
    ensures var c := ChangeMemo(host, memoid, originalContent, content, memoType, path).value;
      (path.Some? ==> Some(NoteFile(c.note.path, host.linkpathDest(path.value).value.content)) == host.linkpathDest(path.value))
      && (path.None? && StartsWithStamp(content) ==>
            host.dailyNote(content[..14]).Some? && host.dailyNote(content[..14]).value.path == c.note.path)
      && (path.None? && !StartsWithStamp(content) ==>
            GetFile(host, memoid).Some? && GetFile(host, memoid).value.path == c.note.path)
  {
  }

  /**
   * The returned memo keeps the id, holds the escaped text (a single line), is dated at the
   * chosen stamp for both its creation and its update, defaults its type to a journal entry
   * and carries the id's last six characters.
   */
  lemma ChangeMemoRecord(host: Host, memoid: string, originalContent: string, content: string,
                         memoType: Option<string>, path: Option<string>)
    requires ChangeMemo(host, memoid, originalContent, content, memoType, path).Ok?
    ensures var m := ChangeMemo(host, memoid, originalContent, content, memoType, path).value.memo;
      m.id == memoid
      && m.content == EscapeNewlines(content) && '\n' !in m.content
      && m.createdAt == m.updatedAt == host.displayDate(ChangeDateStamp(memoid, content))
      && m.deletedAt == "" && m.linkId == "" && m.userId == Some(1)
      && m.memoType == Some(if memoType.None? || memoType == Some("") then Journal else memoType.value)
      && memoid == memoid[..|memoid| - |m.hasId|] + m.hasId
      && |m.hasId| == (if |memoid| < 6 then |memoid| else 6)
  {
    EscapeNewlinesSingleLine(content);
  }

  // ---------------------------------------------------------------------------
  // The line replacement

  /** The joined lines before line `idx`, with the line break that ends them. */
  function JoinedBefore(lines: seq<string>, idx: nat): string
    requires idx < |lines|
  {
    if idx == 0 then "" else Join(lines[..idx], '\n') + "\n"
  }

  /** The joined lines after line `idx`, with the line break that starts them. */
  function JoinedAfter(lines: seq<string>, idx: nat): string
    requires idx < |lines|
  {
    if idx == |lines| - 1 then "" else "\n" + Join(lines[idx + 1..], '\n')
  }

  /** Where line `idx` starts in the joined lines. */
  function LineStart(lines: seq<string>, idx: nat): nat
    requires idx < |lines|
  {
    |JoinedBefore(lines, idx)|
  }

  /** The joined lines from line `idx` on are the line and what follows it. */
  lemma JoinFrom(lines: seq<string>, idx: nat)
    requires 0 < idx < |lines|
    ensures Join(lines[idx..], '\n') == lines[idx] + JoinedAfter(lines, idx)
  {
    if idx < |lines| - 1 {
      assert lines[idx..][1..] == lines[idx + 1..];
    }
  }

  /** The joined lines are the first line and what follows it. */
  lemma JoinAroundFirst(lines: seq<string>)
    requires 0 < |lines|
    ensures Join(lines, '\n') == lines[0] + JoinedAfter(lines, 0)
  {
    if |lines| > 1 {
      AppendAssoc(lines[0], "\n", Join(lines[1..], '\n'));
    }
  }

  /** The joined lines are what comes before line `idx`, the line, and what follows it. */
  lemma JoinAround(lines: seq<string>, idx: nat)
    requires idx < |lines|
    ensures Join(lines, '\n') == JoinedBefore(lines, idx) + lines[idx] + JoinedAfter(lines, idx)
  {
    if idx == 0 {
      JoinAroundFirst(lines);
      assert JoinedBefore(lines, idx) + lines[idx] == lines[0];
    } else {
      var before, line, after := JoinedBefore(lines, idx), lines[idx], JoinedAfter(lines, idx);
      JoinFrom(lines, idx);
      JoinSplitAt(lines, idx, '\n');
      AppendAssoc(before, line, after);
    }
  }

  /** Without carriage returns, the `/\r?\n/` split and the `'\n'` split agree. */
  lemma AllLinesWithoutCarriageReturn(content: string)
    requires '\r' !in content
    ensures AllLinesFromFile(content) == Lines(content)
  {
    var lines := Lines(content);
    forall k | 0 <= k < |lines| - 1
      ensures DropCarriageReturn(lines[k]) == lines[k]
    {
      if lines[k] != [] && lines[k][|lines[k]| - 1] == '\r' {
        SplitChars(content, '\n', k, '\r');
      }
    }
  }

  /** Replacing one line's text where it starts puts the new line there and keeps every other line. */
  lemma ReplaceLineAt(content: string, idx: nat, newLine: string)
    requires idx < |Lines(content)| && '\n' !in newLine
    requires IndexOf(content, Lines(content)[idx]) == LineStart(Lines(content), idx)
    ensures Lines(ReplaceFirst(content, Lines(content)[idx], newLine)) == Lines(content)[idx := newLine]
  {
    var lines := Lines(content);
    var changed := lines[idx := newLine];
    var before, after := JoinedBefore(lines, idx), JoinedAfter(lines, idx);
    assert content == before + lines[idx] + after by {
      LinesRoundTrip(content);
      JoinAround(lines, idx);
    }
    assert ReplaceFirst(content, lines[idx], newLine) == before + newLine + after by {
      ReplaceFirstAt(content, lines[idx], newLine, before, after);
    }
    assert Join(changed, '\n') == before + newLine + after by {
      assert changed[..idx] == lines[..idx] && changed[idx + 1..] == lines[idx + 1..];
      JoinAround(changed, idx);
    }
    assert Split(Join(changed, '\n'), '\n') == changed by {
      LinesRoundTrip(content);
      SplitJoin(changed, '\n');
    }
  }

  /**
   * In a note without carriage returns, when the indexed line's text does not occur earlier
   * in the note, the edit changes exactly that line: its first occurrence of the old text is
   * replaced by the escaped new text, and every other line is kept.
   */
  lemma ChangeMemoReplacesIndexedLine(host: Host, memoid: string, originalContent: string, content: string,
                                      memoType: Option<string>, path: Option<string>)
    requires ChangeMemo(host, memoid, originalContent, content, memoType, path).Ok?
    requires var file := NoteToEdit(host, path, ChangeDateStamp(memoid, content)).value;
      var idx := LineIndex(memoid).value;
      '\r' !in file.content
      && IndexOf(file.content, Lines(file.content)[idx]) == LineStart(Lines(file.content), idx)
    ensures var file := NoteToEdit(host, path, ChangeDateStamp(memoid, content)).value;
      var idx := LineIndex(memoid).value;
      var c := ChangeMemo(host, memoid, originalContent, content, memoType, path).value;
      var lines := Lines(file.content);
      c.note.path == file.path
      && Lines(c.note.content)
         == lines[idx := ReplaceFirst(lines[idx], originalContent, EscapeNewlines(content))]
  {
    var file := NoteToEdit(host, path, ChangeDateStamp(memoid, content)).value;
    var idx := LineIndex(memoid).value;
    var lines := Lines(file.content);
    AllLinesWithoutCarriageReturn(file.content);
    LinesRoundTrip(file.content);
    var newLine := ReplaceFirst(lines[idx], originalContent, EscapeNewlines(content));
    assert '\n' !in newLine by {
      EscapeNewlinesSingleLine(content);
      if '\n' in newLine {
        ReplaceFirstChars(lines[idx], originalContent, EscapeNewlines(content), '\n');
      }
    }
    ReplaceLineAt(file.content, idx, newLine);
  }

  /** Two lines joined by a line break are split back into the two. */
  lemma LinesOfTwo(x: string, y: string)
    requires '\n' !in x && '\n' !in y
    ensures Lines(x + "\n" + y) == [x, y]
  {
    SplitConcat(x, y, '\n');
    SplitWithoutSeparator(x, '\n');
    SplitWithoutSeparator(y, '\n');
  }

  /** The line index of the id `20240101000000` `1`. */
  lemma EarlierCopyIndex()
    ensures LineIndex("202401010000001") == Some(1)
  {
    assert IdTail("202401010000001") == NatToString(1) by {
      assert NatToString(1) == "1";
    }
    ParseIntNatToString(1);
  }

  /** The escaped form of `b` is `b`. */
  lemma EarlierCopyEscape()
    ensures EscapeNewlines("b") == "b"
  {
    assert !Contains("b", "<br><br>");
    EscapeNewlinesKeepsPlainText("b");
  }

  /** The note `a` / `a` has two lines `a`. */
  lemma EarlierCopyLines()
    ensures AllLinesFromFile("a\na") == ["a", "a"]
  {
    assert "a\na" == "a" + "\n" + "a";
    LinesOfTwo("a", "a");
    assert '\r' !in "a\na";
    AllLinesWithoutCarriageReturn("a\na");
  }

  /** Line 1 becomes `b`, and so does the first `a` of the note. */
  lemma EarlierCopyReplace()
    ensures ReplaceFirst("a", "a", EscapeNewlines("b")) == "b"
    ensures ReplaceFirst("a\na", "a", "b") == "b\na"
  {
    EarlierCopyEscape();
    ReplaceFirstAtStart("a", "a", "b");
    ReplaceFirstAtStart("a\na", "a", "b");
  }

  /** The edited note `b` / `a` has the lines `b` and `a`. */
  lemma EarlierCopyResult()
    ensures Lines("b\na") == ["b", "a"]
  {
    assert "b\na" == "b" + "\n" + "a";
    LinesOfTwo("b", "a");
  }

  /**
   * When the indexed line's text also occurs earlier, the earlier place is the one changed:
   * editing line 1 of the note `a` / `a` changes line 0 and leaves line 1 as it was.
   */
  lemma ChangeMemoEditsEarlierCopy(host: Host)
    requires host.linkpathDest("n.md") == Some(NoteFile("n.md", "a\na"))
    ensures var r := ChangeMemo(host, "202401010000001", "a", "b", None, Some("n.md"));
      r.Ok? && Lines(r.value.note.content) == ["b", "a"]
  {
    EarlierCopyLines();
    EarlierCopyIndex();
    EarlierCopyReplace();
    var r := ChangeMemo(host, "202401010000001", "a", "b", None, Some("n.md"));
    assert r.Ok? && r.value.note.content == "b\na";
    EarlierCopyResult();
  }
}
