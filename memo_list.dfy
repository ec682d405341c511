/**
 * The memo feed (`MemoList`): which memos it shows under the current location query, and
 * which of those are on the current page.
 */
module MemoList {
  import opened Wrappers
  import opened Strings
  import opened Seqs
  import opened Memos

  /** `ITEMS_PER_PAGE`. */
  const ItemsPerPage := 10

  /** A time window of the query, as two timestamps. */
  datatype Duration = Duration(from: int, to: int)

  /**
   * The location query: tag, time window, content type, text, and the id of a stored query.
   * An empty string is an unset field (JavaScript treats it as false).
   */
  datatype Query = Query(tag: string, duration: Option<Duration>, contentType: string, text: string, filter: string)

  /**
   * A stored query as `queryService.getQueryById` finds it: whether its query string parses
   * to an array, and what `checkShouldShowMemoWithFilters` says of a memo under those filters.
   */
  datatype StoredQuery = StoredQuery(isArray: bool, check: Memo -> bool)

  /** What the filter needs besides the query: the expressions, `utils.getTimeStampByDate`, and the `HideDoneTasks` setting. */
  datatype Feed = Feed(patterns: Patterns, timestamp: string -> int, hideDoneTasks: bool)

  // ---------------------------------------------------------------------------
  // Tags and their `/`-prefixes

  /**
   * The strings the inner tag loop adds for one tag: it splits the tag at `/` and adds the
   * first piece, the first two joined by `/`, and so on up to the whole tag.
   */
  function TagPrefixes(tag: string): (r: seq<string>)
    ensures |r| == |Split(tag, '/')|
  {
    var items := Split(tag, '/');
    seq(|items|, k requires 0 <= k < |items| => Join(items[..k + 1], '/'))
  }

  /** `q` is the tag itself or the part of it before one of its `/`. */
  predicate IsTagPrefix(tag: string, q: string) {
    q <= tag && (|q| == |tag| || tag[|q|] == '/')
  }

  /** The string added at position `k` is a `/`-prefix of the tag. */
  lemma TagPrefixIsPrefix(tag: string, k: nat)
    requires k < |TagPrefixes(tag)|
    ensures IsTagPrefix(tag, TagPrefixes(tag)[k])
  {
    var items := Split(tag, '/');
    JoinSplit(tag, '/');
    if k + 1 < |items| {
      JoinSplitAt(items, k + 1, '/');
    } else {
      assert items[..k + 1] == items;
    }
  }

  /** The pieces of a `/`-prefix with `n` slashes in it are the first `n + 1` pieces of the tag. */
  lemma SplitOfPrefix(tag: string, q: string)
    requires IsTagPrefix(tag, q)
    ensures var n := multiset(q)['/'];
      n < |Split(tag, '/')| && Split(tag, '/')[..n + 1] == Split(q, '/')
  {
    var items := Split(tag, '/');
    var n := multiset(q)['/'];
    SplitCount(q, '/');
    if |q| < |tag| {
      var rest := tag[|q| + 1..];
      assert tag == q + ['/'] + rest;
      SplitConcat(q, rest, '/');
    } else {
      assert q == tag;
    }
  }

  /** A `/`-prefix with `n` slashes in it is the string added at position `n`. */
  lemma PrefixIsTagPrefix(tag: string, q: string)
    requires IsTagPrefix(tag, q)
    ensures var n := multiset(q)['/'];
      n < |TagPrefixes(tag)| && TagPrefixes(tag)[n] == q
  {
    var n := multiset(q)['/'];
    SplitOfPrefix(tag, q);
    assert TagPrefixes(tag)[n] == Join(Split(q, '/'), '/');
    JoinSplit(q, '/');
  }

  /**
   * The strings added for a tag are exactly its `/`-prefixes: `a/b/c` gives `a`, `a/b` and
   * `a/b/c`, and nothing else.
   */
  lemma TagPrefixesAre(tag: string, q: string)
    ensures q in TagPrefixes(tag) <==> IsTagPrefix(tag, q)
  {
    var r := TagPrefixes(tag);
    if q in r {
      var k :| 0 <= k < |r| && r[k] == q;
      TagPrefixIsPrefix(tag, k);
    }
    if IsTagPrefix(tag, q) {
      PrefixIsTagPrefix(tag, q);
    }
  }

  /** `a/b/c` adds `a/b`, but not `a/` nor `b`. */
  lemma TagPrefixesExample()
    ensures "a/b" in TagPrefixes("a/b/c")
    ensures "a/" !in TagPrefixes("a/b/c") && "b" !in TagPrefixes("a/b/c")
  {
    TagPrefixesAre("a/b/c", "a/b");
    TagPrefixesAre("a/b/c", "a/");
    TagPrefixesAre("a/b/c", "b");
  }

  /** The elements of a sequence, as a set. */
  function Elements(s: seq<string>): (r: set<string>)
    ensures forall x :: x in r <==> x in s
  {
    set x | x in s
  }

  /** Every `/`-prefix of every tag in the list. */
  function ExpandedTags(tags: seq<string>): set<string>
    decreases |tags|
  {
    if tags == [] then {}
    else ExpandedTags(tags[..|tags| - 1]) + Elements(TagPrefixes(tags[|tags| - 1]))
  }

  /** A string is an expanded tag exactly when it is a `/`-prefix of one of the tags. */
  lemma {:induction false} ExpandedTagsAre(tags: seq<string>, q: string)
    ensures q in ExpandedTags(tags) <==> exists t :: t in tags && IsTagPrefix(t, q)
    decreases |tags|
  {
    if tags != [] {
      var init, last := tags[..|tags| - 1], tags[|tags| - 1];
      assert tags == init + [last];
      ExpandedTagsAre(init, q);
      TagPrefixesAre(last, q);
    }
  }

  /** The tags of one expression's matches: group `group` of each match, trimmed. */
  function MatchedTags(re: Regex, content: string, group: nat): (r: seq<string>)
    ensures |r| == |re.matches(content)|
  {
    var ms := re.matches(content);
    seq(|ms|, i requires 0 <= i < |ms| => Trim(re.replaceWithGroup(ms[i], group)))
  }

  /** `tagsSet`: the expanded tags of the `TAG_REG`, `NOP_FIRST_TAG_REG` and `FIRST_TAG_REG` matches. */
  function TagSet(p: Patterns, content: string): set<string> {
    ExpandedTags(MatchedTags(p.tag, content, 1))
    + ExpandedTags(MatchedTags(p.nopFirstTag, content, 1))
    + ExpandedTags(MatchedTags(p.firstTag, content, 2))
  }

  /** The tags of all three expressions' matches, in the order the loops visit them. */
  function AllMatchedTags(p: Patterns, content: string): seq<string> {
    MatchedTags(p.tag, content, 1) + MatchedTags(p.nopFirstTag, content, 1) + MatchedTags(p.firstTag, content, 2)
  }

  /** The tag set holds exactly the `/`-prefixes of the matched tags. */
  lemma TagSetAre(p: Patterns, content: string, q: string)
    ensures q in TagSet(p, content) <==> exists t :: t in AllMatchedTags(p, content) && IsTagPrefix(t, q)
  {
    ExpandedTagsAre(MatchedTags(p.tag, content, 1), q);
    ExpandedTagsAre(MatchedTags(p.nopFirstTag, content, 1), q);
    ExpandedTagsAre(MatchedTags(p.firstTag, content, 2), q);
  }

  /** `temp` before the step, extended by the next piece, is the next prefix. */
  lemma PrefixStep(items: seq<string>, k: nat)
    requires k < |items|
    ensures (if k == 0 then "" else Join(items[..k], '/') + "/") + items[k] == Join(items[..k + 1], '/')
  {
    if k > 0 {
      TakeSnoc(items, k);
      JoinAppend(items[..k], [items[k]], '/');
    } else {
      assert items[..1] == [items[0]];
    }
  }

  /** One more prefix adds the join of one more piece. */
  lemma PrefixesStep(tag: string, k: nat)
    requires k < |Split(tag, '/')|
    ensures Elements(TagPrefixes(tag)[..k + 1]) == Elements(TagPrefixes(tag)[..k]) + {Join(Split(tag, '/')[..k + 1], '/')}
  {
    TakeSnoc(TagPrefixes(tag), k);
  }

  /** The inner loop: `temp` grows by one piece and one `/` per step, and each piece's `temp` is added. */
  method AddTagPrefixes(tagsSet: set<string>, tag: string) returns (r: set<string>)
    ensures r == tagsSet + Elements(TagPrefixes(tag))
  {
    var items := Split(tag, '/');
    ghost var prefixes := TagPrefixes(tag);
    r := tagsSet;
    var temp := "";
    var k := 0;
    while k < |items|
      invariant 0 <= k <= |items|
      invariant temp == if k == 0 then "" else Join(items[..k], '/') + "/"
      invariant r == tagsSet + Elements(prefixes[..k])
    {
      PrefixStep(items, k);
      PrefixesStep(tag, k);
      temp := temp + items[k];
      r := r + {temp};
      temp := temp + "/";
      k := k + 1;
    }
    assert prefixes[..k] == prefixes;
  }

  /** One outer loop: the prefixes of group `group` of each match of `re`, trimmed. */
  method AddMatchedTags(tagsSet: set<string>, re: Regex, content: string, group: nat) returns (r: set<string>)
    ensures r == tagsSet + ExpandedTags(MatchedTags(re, content, group))
  {
    var ms := re.matches(content);
    var tags := MatchedTags(re, content, group);
    r := tagsSet;
    var i := 0;
    while i < |ms|
      invariant 0 <= i <= |ms|
      invariant r == tagsSet + ExpandedTags(tags[..i])
    {
      var tag := Trim(re.replaceWithGroup(ms[i], group));
      r := AddTagPrefixes(r, tag);
      assert tags[..i + 1][..i] == tags[..i];
      i := i + 1;
    }
    assert tags[..i] == tags;
  }

  // ---------------------------------------------------------------------------
  // Whether one memo is shown

  /** `memo.content.contains('comment:')`: the memo is a comment. */
  predicate IsComment(m: Memo) {
    Contains(m.content, "comment:")
  }

  /** `duration && duration.from < duration.to`. */
  predicate DurationActive(q: Query) {
    q.duration.Some? && q.duration.value.from < q.duration.value.to
  }

  /** `showMemoFilter`: a tag, a non-empty time window, a content type, a text or a stored query is set. */
  predicate FilterActive(q: Query, stored: Option<StoredQuery>) {
    q.tag != "" || DurationActive(q) || q.contentType != "" || q.text != "" || stored.Some?
  }

  /** The content-type clause: each named type asks for its kind of match, any other type asks nothing. */
  predicate TypeMatches(p: Patterns, contentType: string, content: string) {
    (contentType == "NOT_TAGGED" ==> p.tag.matches(content) == [] && p.nopFirstTag.matches(content) == [])
    && (contentType == "LINKED" ==> p.link.matches(content) != [])
    && (contentType == "IMAGED" ==> p.imageUrl.matches(content) != [])
    && (contentType == "CONNECTED" ==> p.memoLink.matches(content) != [])
  }

  /** A stored query whose filters parse to an array decides the first part outright. */
  predicate StoredQueryDecides(stored: Option<StoredQuery>) {
    stored.Some? && stored.value.isArray
  }

  /** The first part of the filter: the stored query's verdict, or "not a hidden done task and not a comment". */
  predicate BaseVerdict(feed: Feed, stored: Option<StoredQuery>, m: Memo) {
    if StoredQueryDecides(stored) then stored.value.check(m)
    else !(feed.hideDoneTasks && m.memoType == Some(TaskDone)) && !IsComment(m)
  }

  /** The window clause: with a non-empty window the memo's time lies in it, both bounds included. */
  predicate InWindow(feed: Feed, q: Query, m: Memo) {
    DurationActive(q) ==> q.duration.value.from <= feed.timestamp(m.createdAt) <= q.duration.value.to
  }

  /**
   * Whether the filter shows a memo, as one conjunction: the stored query's verdict when it
   * applies, otherwise "not a hidden done task and not a comment"; and then the tag, window,
   * content-type and text clauses, each of which can only hide.
   */
  predicate Shows(feed: Feed, q: Query, stored: Option<StoredQuery>, m: Memo)
    ensures Shows(feed, q, stored, m) && !StoredQueryDecides(stored) ==>
      !IsComment(m) && !(feed.hideDoneTasks && m.memoType == Some(TaskDone))
  {
    BaseVerdict(feed, stored, m)
    && (q.tag == "" || q.tag in TagSet(feed.patterns, m.content))
    && InWindow(feed, q, m)
    && TypeMatches(feed.patterns, q.contentType, m.content)
    && (q.text == "" || Contains(m.content, q.text))
  }

  /** The filter callback: a flag that starts true and that each clause in turn may change. */
  method ShouldShow(feed: Feed, q: Query, stored: Option<StoredQuery>, m: Memo) returns (shouldShow: bool)
    ensures shouldShow == Shows(feed, q, stored, m)
  {
    var p := feed.patterns;
    shouldShow := true;
    if m.memoType.Some? {
      if feed.hideDoneTasks && m.memoType.value == TaskDone {
        shouldShow := false;
      }
    }
    if IsComment(m) {
      shouldShow := false;
    }
    if stored.Some? {
      if stored.value.isArray {
        shouldShow := stored.value.check(m);
      }
    }
    assert shouldShow == BaseVerdict(feed, stored, m);
    if q.tag != "" {
      var tagsSet: set<string> := {};
      tagsSet := AddMatchedTags(tagsSet, p.tag, m.content, 1);
      tagsSet := AddMatchedTags(tagsSet, p.nopFirstTag, m.content, 1);
      tagsSet := AddMatchedTags(tagsSet, p.firstTag, m.content, 2);
      if q.tag !in tagsSet {
        shouldShow := false;
      }
    }
    assert shouldShow == (BaseVerdict(feed, stored, m) && (q.tag == "" || q.tag in TagSet(p, m.content)));
    if q.duration.Some? && q.duration.value.from < q.duration.value.to
       && (feed.timestamp(m.createdAt) < q.duration.value.from || feed.timestamp(m.createdAt) > q.duration.value.to) {
      shouldShow := false;
    }
    assert shouldShow == (BaseVerdict(feed, stored, m) && (q.tag == "" || q.tag in TagSet(p, m.content))
                          && InWindow(feed, q, m));
    if q.contentType != "" {
      if q.contentType == "NOT_TAGGED" && (p.tag.matches(m.content) != [] || p.nopFirstTag.matches(m.content) != []) {
        shouldShow := false;
      } else if q.contentType == "LINKED" && p.link.matches(m.content) == [] {
        shouldShow := false;
      } else if q.contentType == "IMAGED" && p.imageUrl.matches(m.content) == [] {
        shouldShow := false;
      } else if q.contentType == "CONNECTED" && p.memoLink.matches(m.content) == [] {
        shouldShow := false;
      }
    }
    if q.text != "" && !Contains(m.content, q.text) {
      shouldShow := false;
    }
  }

  /** `shownMemos`: the filter when anything calls for it, otherwise only comments are dropped. */
  function ShownMemos(feed: Feed, q: Query, stored: Option<StoredQuery>, memos: seq<Memo>): (r: seq<Memo>)
    ensures |r| <= |memos|
    ensures forall m :: m in r ==> m in memos && (StoredQueryDecides(stored) || !IsComment(m))
  {
    if FilterActive(q, stored) || stored.Some? || feed.hideDoneTasks then
      Filter(memos, m => Shows(feed, q, stored, m))
    else
      Filter(memos, m => !IsComment(m))
  }

  /** With nothing set, the full filter shows exactly the memos that are not comments. */
  lemma ShowsWithoutFilter(feed: Feed, q: Query, stored: Option<StoredQuery>, m: Memo)
    requires !FilterActive(q, stored) && !feed.hideDoneTasks
    ensures Shows(feed, q, stored, m) <==> !IsComment(m)
  {
  }

  /**
   * The shortcut for "no filter" changes nothing: the feed is always the memos the full
   * filter shows, in their order.
   */
  lemma ShownMemosAreShown(feed: Feed, q: Query, stored: Option<StoredQuery>, memos: seq<Memo>)
    ensures ShownMemos(feed, q, stored, memos) == Filter(memos, m => Shows(feed, q, stored, m))
    ensures forall m :: m in ShownMemos(feed, q, stored, memos) <==> m in memos && Shows(feed, q, stored, m)
  {
    if !(FilterActive(q, stored) || stored.Some? || feed.hideDoneTasks) {
      forall k | 0 <= k < |memos|
        ensures !IsComment(memos[k]) == Shows(feed, q, stored, memos[k])
      {
        ShowsWithoutFilter(feed, q, stored, memos[k]);
      }
      FilterCongruent(memos, m => !IsComment(m), m => Shows(feed, q, stored, m));
    }
  }

  /**
   * A stored query that applies overrides the done-task and comment rules: a done task that is
   * also a comment is shown when the stored query accepts it and nothing else is set.
   */
  lemma StoredQueryReshows(feed: Feed, q: Query, stored: Option<StoredQuery>, m: Memo)
    requires feed.hideDoneTasks && m.memoType == Some(TaskDone) && IsComment(m)
    requires StoredQueryDecides(stored) && stored.value.check(m)
    requires q.tag == "" && !DurationActive(q) && q.contentType == "" && q.text == ""
    ensures m in ShownMemos(feed, q, stored, [m])
  {
    ShownMemosAreShown(feed, q, stored, [m]);
  }

  /**
   * Every clause after the stored query can only hide: a shown memo has the queried tag among
   * the `/`-prefixes of its tags, lies inside the window (both ends included), has the
   * content type, and contains the text.
   */
  lemma ShownPassesClauses(feed: Feed, q: Query, stored: Option<StoredQuery>, memos: seq<Memo>, m: Memo)
    requires m in ShownMemos(feed, q, stored, memos)
    ensures m in memos
    ensures q.tag != "" ==> q.tag in TagSet(feed.patterns, m.content)
    ensures DurationActive(q) ==> q.duration.value.from <= feed.timestamp(m.createdAt) <= q.duration.value.to
    ensures TypeMatches(feed.patterns, q.contentType, m.content)
    ensures q.text != "" ==> Contains(m.content, q.text)
  {
    ShownMemosAreShown(feed, q, stored, memos);
  }

  // ---------------------------------------------------------------------------
  // Pages

  /** `Math.ceil(n / ITEMS_PER_PAGE)`: the fewest pages that hold `n` memos. */
  function TotalPages(n: nat): (t: nat)
    ensures t * ItemsPerPage >= n
    ensures t > 0 ==> (t - 1) * ItemsPerPage < n
  {
    (n + ItemsPerPage - 1) / ItemsPerPage
  }

  /** `paginatedMemos`: the slice of the shown memos on page `currentPage`, counted from 1. */
  function PageOf(shown: seq<Memo>, currentPage: int): (r: seq<Memo>)
    ensures |r| <= ItemsPerPage
    ensures currentPage >= 1 ==>
      var start := (currentPage - 1) * ItemsPerPage;
      |r| == (if start >= |shown| then 0 else if |shown| - start < ItemsPerPage then |shown| - start else ItemsPerPage)
      && forall j :: 0 <= j < |r| ==> r[j] == shown[start + j]
  {
    var start := (currentPage - 1) * ItemsPerPage;
    Slice(shown, start, start + ItemsPerPage)
  }

  /** Memo `i` of the feed is item `i % 10` of page `i / 10 + 1`. */
  lemma PageHolds(shown: seq<Memo>, i: nat)
    requires i < |shown|
    ensures var page := PageOf(shown, i / ItemsPerPage + 1);
      i % ItemsPerPage < |page| && page[i % ItemsPerPage] == shown[i]
  {
  }

  /** From page 1 on, a page has memos exactly up to the last page. */
  lemma PageNonEmpty(shown: seq<Memo>, currentPage: int)
    requires currentPage >= 1
    ensures PageOf(shown, currentPage) != [] <==> currentPage <= TotalPages(|shown|)
  {
  }
}
