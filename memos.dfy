/**
 * The shared data model: the memo record, the date a memo is written at, and the regular
 * expressions of the application, whose patterns are not part of this model and are
 * therefore described only by what the code asks of them.
 */
module Memos {
  import opened Wrappers
  import opened Strings

  /** A memo (`BaseMemo`): one line of a daily note, addressed by a synthetic id. */
  datatype Memo = Memo(
    id: string,
    content: string,
    userId: Option<int>,
    createdAt: string,
    updatedAt: string,
    deletedAt: string,
    memoType: Option<string>,   // declared as a string, but the feed filter allows for it to be missing
    hasId: string,
    linkId: string,
    path: string)

  /** A note file as the host hands it over: its path and its text. */
  datatype NoteFile = NoteFile(path: string, content: string)

  const Journal := "JOURNAL"
  const TaskTodo := "TASK-TODO"
  const TaskDone := "TASK-DONE"

  /** Text of the form `HH:mm:ss`: three two-digit fields separated by colons. */
  predicate IsClockText(s: string) {
    |s| == 8 && s[2] == ':' && s[5] == ':'
    && IsDigit(s[0]) && IsDigit(s[1]) && IsDigit(s[3]) && IsDigit(s[4]) && IsDigit(s[6]) && IsDigit(s[7])
  }

  /** A moment in local time, as the date library holds it. */
  datatype Moment = Moment(year: nat, month: nat, day: nat, hour: nat, minute: nat, second: nat, millisecond: nat) {

    /** The field ranges, with a four-digit year. */
    predicate Valid() {
      year < 10000 && 1 <= month <= 12 && 1 <= day <= 31
      && hour < 24 && minute < 60 && second < 60 && millisecond < 1000
    }

    /** `format('YYYYMMDDHHmmss')`. */
    function Stamp(): (s: string)
      requires Valid()
      ensures |s| == 14 && AllDigits(s)
    {
      Pow10Small();
      var s := Pad(year, 4) + Pad(month, 2) + Pad(day, 2) + Pad(hour, 2) + Pad(minute, 2) + Pad(second, 2);
      AllDigitsAppend(Pad(year, 4), Pad(month, 2));
      AllDigitsAppend(Pad(year, 4) + Pad(month, 2), Pad(day, 2));
      AllDigitsAppend(Pad(year, 4) + Pad(month, 2) + Pad(day, 2), Pad(hour, 2));
      AllDigitsAppend(Pad(year, 4) + Pad(month, 2) + Pad(day, 2) + Pad(hour, 2), Pad(minute, 2));
      AllDigitsAppend(Pad(year, 4) + Pad(month, 2) + Pad(day, 2) + Pad(hour, 2) + Pad(minute, 2), Pad(second, 2));
      s
    }

    /** `format('YYYYMMDDHHmmssSSS')`. */
    function StampWithMillis(): (s: string)
      requires Valid()
      ensures |s| == 17 && AllDigits(s)
    {
      Pow10Small();
      AllDigitsAppend(Stamp(), Pad(millisecond, 3));
      Stamp() + Pad(millisecond, 3)
    }

    /** `format('HH') + ':' + format('mm') + ':' + format('ss')`. */
    function TimeText(): (s: string)
      requires Valid()
      ensures IsClockText(s) && '\n' !in s
    {
      Pow10Small();
      Pad(hour, 2) + ":" + Pad(minute, 2) + ":" + Pad(second, 2)
    }

    /** `format('YYYY/MM/DD HH:mm:ss')`. */
    function Display(): (s: string)
      requires Valid()
      ensures |s| == 19
    {
      Pow10Small();
      Pad(year, 4) + "/" + Pad(month, 2) + "/" + Pad(day, 2) + " " + TimeText()
    }
  }

  /**
   * A regular expression of the application whose pattern this model does not see,
   * described by the four ways the code uses one.
   */
  datatype Regex = Regex(
    /** `s.match(re)` for a global expression: every match, `[]` where JavaScript gives `null`. */
    matches: string -> seq<string>,
    /** `re.test(s)`. */
    test: string -> bool,
    /** `s.replace(re, '$k')`: the match replaced by its `k`-th group. */
    replaceWithGroup: (string, nat) -> string,
    /** `re.exec(s)?.[k]`: group `k` of the first match, `None` when there is no match or the group is unset. */
    group: (string, nat) -> Option<string>)

  /** The expressions the core uses. */
  datatype Patterns = Patterns(
    tag: Regex,
    nopFirstTag: Regex,
    firstTag: Regex,
    link: Regex,
    imageUrl: Regex,
    memoLink: Regex,
    markdownUrl: Regex,
    wikiImageUrl: Regex,
    markdownWebUrl: Regex)
}
