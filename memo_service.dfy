/**
 * The helpers of the memo service (`MemoService`) over the memo state of the store: lookup by
 * id, the tags of a memo, the tag list with per-tag counts, and the memos that link to or
 * comment on a memo.
 */
module MemoService {
  import opened Wrappers
  import opened Strings
  import opened Seqs
  import opened Memos

  /** The memo state of the store: the memos, the comment memos, the tag list and the count per tag. */
  datatype MemoState = MemoState(memos: seq<Memo>, commentMemos: seq<Memo>, tags: seq<string>, tagsNum: map<string, int>)

  // ---------------------------------------------------------------------------
  // Lookup by id

  /** `memos.find((m) => m.id === id) || null`. */
  function FindById(memos: seq<Memo>, id: string): (r: Option<Memo>)
    ensures r.Some? ==> r.value in memos && r.value.id == id
  {
    FirstIndexSpec(memos, (m: Memo) => m.id == id);
    var i := FirstIndex(memos, (m: Memo) => m.id == id);
    if i == -1 then None else Some(memos[i])
  }

  /** The memo found is the first with the id; nothing is found exactly when no memo has it. */
  lemma FindByIdSpec(memos: seq<Memo>, id: string)
    ensures var r := FindById(memos, id);
      (r.None? <==> forall k :: 0 <= k < |memos| ==> memos[k].id != id)
      && (r.Some? ==> exists k :: 0 <= k < |memos| && memos[k] == r.value && r.value.id == id
                        && forall j :: 0 <= j < k ==> memos[j].id != id)
  {
    FirstIndexSpec(memos, (m: Memo) => m.id == id);
  }

  /** `getMemoById`. */
  function GetMemoById(state: MemoState, id: string): Option<Memo> {
    FindById(state.memos, id)
  }

  /** `getCommentMemoById`: the same search over the comment memos. */
  function GetCommentMemoById(state: MemoState, id: string): Option<Memo> {
    FindById(state.commentMemos, id)
  }

  /** A memo is found by its own id when no memo before it shares that id. */
  lemma GetMemoByIdFindsFirst(state: MemoState, k: nat)
    requires k < |state.memos|
    requires forall j :: 0 <= j < k ==> state.memos[j].id != state.memos[k].id
    ensures GetMemoById(state, state.memos[k].id) == Some(state.memos[k])
  {
    var id := state.memos[k].id;
    FirstIndexIs(state.memos, (m: Memo) => m.id == id, k);
  }

  // ---------------------------------------------------------------------------
  // The tags of one memo

  /**
   * The tag a match stands for: group 1 of `TAG_REG`, else group 1 of `NOP_FIRST_TAG_REG`,
   * else group 2 of `FIRST_TAG_REG`, whichever first matches it, trimmed; none if none does.
   */
  function TagOfMatch(p: Patterns, found: string): (r: Option<string>)
    ensures r.None? <==> !p.tag.test(found) && !p.nopFirstTag.test(found) && !p.firstTag.test(found)
    ensures r.Some? ==> IsTrimmed(r.value)
  {
    if p.tag.test(found) then Some(TrimmedTag(p.tag.replaceWithGroup(found, 1)))
    else if p.nopFirstTag.test(found) then Some(TrimmedTag(p.nopFirstTag.replaceWithGroup(found, 1)))
    else if p.firstTag.test(found) then Some(TrimmedTag(p.firstTag.replaceWithGroup(found, 2)))
    else None
  }

  /** `.trim()` of a matched group. */
  function TrimmedTag(group: string): (r: string)
    ensures IsTrimmed(r)
  {
    TrimmedEnds(group);
    Trim(group)
  }

  /** The matches of the three tag expressions, in that order. */
  function TagMatches(p: Patterns, content: string): seq<string> {
    p.tag.matches(content) + p.nopFirstTag.matches(content) + p.firstTag.matches(content)
  }

  /** The tag of each match that stands for one, in match order. */
  function TagsOfMatches(p: Patterns, ms: seq<string>): (r: seq<string>)
    ensures |r| <= |ms|
    ensures forall k :: 0 <= k < |r| ==> IsTrimmed(r[k])
    decreases |ms|
  {
    if ms == [] then []
    else
      var last := TagOfMatch(p, ms[|ms| - 1]);
      TagsOfMatches(p, ms[..|ms| - 1]) + (if last.Some? then [last.value] else [])
  }

  /** A tag comes from some match exactly when it is in the list. */
  lemma {:induction false} TagsOfMatchesAre(p: Patterns, ms: seq<string>, t: string)
    ensures t in TagsOfMatches(p, ms) <==> exists m :: m in ms && TagOfMatch(p, m) == Some(t)
    decreases |ms|
  {
    if ms != [] {
      var init := ms[..|ms| - 1];
      assert ms == init + [ms[|ms| - 1]];
      TagsOfMatchesAre(p, init, t);
    }
  }

  /** What `extractTagsFromContent` returns: each tag once, in the order it is first met. */
  function ContentTags(p: Patterns, content: string): (r: seq<string>)
    ensures Distinct(r)
    ensures forall t :: t in r ==> IsTrimmed(t)
  {
    Dedup(TagsOfMatches(p, TagMatches(p, content)))
  }

  /**
   * The tags of a memo are distinct, and they are exactly the tags its matches stand for,
   * with no `/`-prefix added.
   */
  lemma ContentTagsAre(p: Patterns, content: string, t: string)
    ensures Distinct(ContentTags(p, content))
    ensures t in ContentTags(p, content) <==> exists m :: m in TagMatches(p, content) && TagOfMatch(p, m) == Some(t)
  {
    TagsOfMatchesAre(p, TagMatches(p, content), t);
  }

  /** One more match adds its tag, unless it has none or the tag was already there. */
  lemma TagsStep(p: Patterns, matches: seq<string>, i: nat)
    requires i < |matches|
    ensures var tag, before := TagOfMatch(p, matches[i]), Dedup(TagsOfMatches(p, matches[..i]));
      Dedup(TagsOfMatches(p, matches[..i + 1]))
        == if tag.Some? && tag.value !in before then before + [tag.value] else before
  {
    var tag := TagOfMatch(p, matches[i]);
    TakeSnoc(matches, i);
    assert TagsOfMatches(p, matches[..i + 1])
        == TagsOfMatches(p, matches[..i]) + (if tag.Some? then [tag.value] else []);
    if tag.Some? {
      DedupSnoc(TagsOfMatches(p, matches[..i]), tag.value);
    } else {
      assert TagsOfMatches(p, matches[..i + 1]) == TagsOfMatches(p, matches[..i]);
    }
  }

  /** The loop of `extractTagsFromContent`: the matches visited in turn, each one's tag added to a `Set`. */
  method AddMatchTags(p: Patterns, matches: seq<string>) returns (tags: seq<string>)
    ensures tags == Dedup(TagsOfMatches(p, matches))
  {
    tags := [];
    var i := 0;
    while i < |matches|
      invariant 0 <= i <= |matches|
      invariant tags == Dedup(TagsOfMatches(p, matches[..i]))
    {
      var tag := TagOfMatch(p, matches[i]);
      TagsStep(p, matches, i);
      if tag.Some? && tag.value !in tags {
        tags := tags + [tag.value];
      }
      i := i + 1;
    }
    assert matches[..i] == matches;
  }

  /** `extractTagsFromContent`: the tags of the matches of the three tag patterns, each once. */
  method ExtractTagsFromContent(p: Patterns, content: string) returns (tags: seq<string>)
    ensures tags == ContentTags(p, content)
  {
    tags := AddMatchTags(p, p.tag.matches(content) + p.nopFirstTag.matches(content) + p.firstTag.matches(content));
  }

  // ---------------------------------------------------------------------------
  // The tag list and the count per tag

  /** The tags of each memo. */
  function TagLists(p: Patterns, memos: seq<Memo>): (r: seq<seq<string>>)
    ensures |r| == |memos|
  {
    seq(|memos|, i requires 0 <= i < |memos| => ContentTags(p, memos[i].content))
  }

  /** The lists one after another. */
  function Flatten(lists: seq<seq<string>>): seq<string>
    decreases |lists|
  {
    if lists == [] then [] else Flatten(lists[..|lists| - 1]) + lists[|lists| - 1]
  }

  /** How many of the lists hold `t`. */
  function ListsWith(lists: seq<seq<string>>, t: string): (n: nat)
    ensures n <= |lists|
    decreases |lists|
  {
    if lists == [] then 0
    else ListsWith(lists[..|lists| - 1], t) + (if t in lists[|lists| - 1] then 1 else 0)
  }

  /** A string is in some list exactly when it is in their concatenation. */
  lemma {:induction false} ListsWithPositive(lists: seq<seq<string>>, t: string)
    ensures ListsWith(lists, t) > 0 <==> t in Flatten(lists)
    decreases |lists|
  {
    if lists != [] {
      ListsWithPositive(lists[..|lists| - 1], t);
    }
  }

  /** The memos whose tag set holds `t`. */
  function MemosTagged(p: Patterns, memos: seq<Memo>, t: string): (n: nat)
    decreases |memos|
  {
    if memos == [] then 0
    else MemosTagged(p, memos[..|memos| - 1], t) + (if t in ContentTags(p, memos[|memos| - 1].content) then 1 else 0)
  }

  /** Counting over the tag lists is counting memos. */
  lemma {:induction false} ListsWithTagLists(p: Patterns, memos: seq<Memo>, t: string)
    ensures ListsWith(TagLists(p, memos), t) == MemosTagged(p, memos, t)
    decreases |memos|
  {
    if memos != [] {
      var init := memos[..|memos| - 1];
      assert TagLists(p, memos)[..|memos| - 1] == TagLists(p, init);
      ListsWithTagLists(p, init, t);
    }
  }

  /**
   * `updateTagsState`: every memo's tags are added to a `Set` and counted in a dictionary;
   * the store then gets the set as the tag list and the dictionary as the counts.
   */
  method UpdateTagsState(p: Patterns, state: MemoState) returns (next: MemoState)
    ensures var lists := TagLists(p, state.memos);
      next == state.(tags := next.tags, tagsNum := next.tagsNum)
      && next.tags == Dedup(Flatten(lists))
      && (forall t :: t in next.tagsNum <==> t in next.tags)
      && (forall t :: t in next.tagsNum ==> next.tagsNum[t] == ListsWith(lists, t))
  {
    var memos := state.memos;
    ghost var lists := TagLists(p, memos);
    var uniqueTags: seq<string> := [];
    var tagCounts: map<string, int> := map[];
    var i := 0;
    while i < |memos|
      invariant 0 <= i <= |memos|
      invariant uniqueTags == Dedup(Flatten(lists[..i]))
      invariant forall t :: t in tagCounts <==> t in uniqueTags
      invariant forall t :: t in tagCounts ==> tagCounts[t] == ListsWith(lists[..i], t)
    {
      var tags := ExtractTagsFromContent(p, memos[i].content);
      assert tags == lists[i];
      ContentTagsAre(p, memos[i].content, "");
      uniqueTags, tagCounts := CountTags(lists[..i], tags, uniqueTags, tagCounts);
      TakeSnoc(lists, i);
      i := i + 1;
    }
    assert lists[..i] == lists;
    next := state.(tags := uniqueTags, tagsNum := tagCounts);
  }

  /** `m` gives each of its tags the number of lists in `done` holding it, plus one if `extra` holds it. */
  predicate Counted(m: map<string, int>, done: seq<seq<string>>, extra: seq<string>) {
    forall t :: t in m ==> m[t] == ListsWith(done, t) + (if t in extra then 1 else 0)
  }

  /** Counting one more tag of the current list: its old count, or 0, plus one. */
  lemma CountStep(m: map<string, int>, done: seq<seq<string>>, extra: seq<string>, tag: string)
    requires Counted(m, done, extra) && tag !in extra
    requires tag in m <==> tag in Flatten(done)
    ensures var previous := if tag in m then m[tag] else 0;
      Counted(m[tag := previous + 1], done, extra + [tag])
  {
    ListsWithPositive(done, tag);
    var previous := if tag in m then m[tag] else 0;
    var next := m[tag := previous + 1];
    forall t | t in next
      ensures next[t] == ListsWith(done, t) + (if t in extra + [tag] then 1 else 0)
    {
      if t != tag {
        assert next[t] == m[t];
        assert t in extra + [tag] <==> t in extra;
      }
    }
  }

  /** Once the whole current list is counted, the counts are over one more list. */
  lemma CountedDone(m: map<string, int>, done: seq<seq<string>>, tags: seq<string>)
    requires Counted(m, done, tags)
    ensures Flatten(done + [tags]) == Flatten(done) + tags
    ensures forall t :: t in m ==> m[t] == ListsWith(done + [tags], t)
  {
    assert (done + [tags])[..|done|] == done;
  }

  /** The inner `forEach`: one memo's distinct tags added to the set and counted once each. */
  method CountTags(ghost done: seq<seq<string>>, tags: seq<string>, uniqueTags0: seq<string>, tagCounts0: map<string, int>)
    returns (uniqueTags: seq<string>, tagCounts: map<string, int>)
    requires Distinct(tags)
    requires uniqueTags0 == Dedup(Flatten(done))
    requires forall t :: t in tagCounts0 <==> t in uniqueTags0
    requires forall t :: t in tagCounts0 ==> tagCounts0[t] == ListsWith(done, t)
    ensures uniqueTags == Dedup(Flatten(done + [tags]))
    ensures forall t :: t in tagCounts <==> t in uniqueTags
    ensures forall t :: t in tagCounts ==> tagCounts[t] == ListsWith(done + [tags], t)
  {
    uniqueTags, tagCounts := uniqueTags0, tagCounts0;
    var j := 0;
    ghost var seen := Flatten(done);
    assert Counted(tagCounts, done, tags[..0]);
    while j < |tags|
      invariant 0 <= j <= |tags|
      invariant seen == Flatten(done) + tags[..j]
      invariant uniqueTags == Dedup(seen)
      invariant forall t :: t in tagCounts <==> t in uniqueTags
      invariant Counted(tagCounts, done, tags[..j])
    {
      var tag := tags[j];
      TakeSnoc(tags, j);
      AppendAssoc(Flatten(done), tags[..j], [tag]);
      assert tag !in tags[..j];
      DedupSnoc(seen, tag);
      CountStep(tagCounts, done, tags[..j], tag);
      if tag !in uniqueTags {
        uniqueTags := uniqueTags + [tag];
      }
      var previous := if tag in tagCounts then tagCounts[tag] else 0;
      tagCounts := tagCounts[tag := previous + 1];
      seen := seen + [tag];
      j := j + 1;
    }
    assert tags[..j] == tags;
    CountedDone(tagCounts, done, tags);
  }

  /**
   * The tag list holds each tag once, the counts are keyed by exactly those tags, and each
   * count is the number of memos carrying the tag: between one and the number of memos.
   */
  lemma TagCountsBounded(p: Patterns, memos: seq<Memo>, tags: seq<string>, tagsNum: map<string, int>, t: string)
    requires tags == Dedup(Flatten(TagLists(p, memos)))
    requires forall u :: u in tagsNum ==> tagsNum[u] == ListsWith(TagLists(p, memos), u)
    requires t in tagsNum
    ensures Distinct(tags)
    ensures tagsNum[t] == MemosTagged(p, memos, t)
    ensures t in Flatten(TagLists(p, memos)) ==> 1 <= tagsNum[t] <= |memos|
  {
    ListsWithPositive(TagLists(p, memos), t);
    ListsWithTagLists(p, memos, t);
  }

  // ---------------------------------------------------------------------------
  // Linked and comment memos

  /** `getLinkedMemos`: the memos whose content contains the id, in order. */
  function GetLinkedMemos(state: MemoState, memoId: string): (r: seq<Memo>)
    ensures forall m :: m in r <==> m in state.memos && Contains(m.content, memoId)
    ensures SubsequenceOf(r, state.memos)
  {
    var links := (m: Memo) => Contains(m.content, memoId);
    FilterSubsequence(state.memos, links);
    Filter(state.memos, links)
  }

  /** `getCommentMemos`: the memos whose content contains `comment: ` and the id, in order. */
  function GetCommentMemos(state: MemoState, memoId: string): (r: seq<Memo>)
    ensures forall m :: m in r <==> m in state.memos && Contains(m.content, "comment: " + memoId)
    ensures SubsequenceOf(r, state.memos)
  {
    var comments := (m: Memo) => Contains(m.content, "comment: " + memoId);
    FilterSubsequence(state.memos, comments);
    Filter(state.memos, comments)
  }

  /** Every comment on a memo also links to it. */
  lemma CommentsAreLinked(state: MemoState, memoId: string, m: Memo)
    requires m in GetCommentMemos(state, memoId)
    ensures m in GetLinkedMemos(state, memoId)
  {
    var prefix := "comment: ";
    var marker := prefix + memoId;
    ContainsOccurs(m.content, marker);
    var i: nat :| OccursAt(m.content, marker, i);
    var j := i + |prefix|;
    assert m.content[j..j + |memoId|] == m.content[i..i + |marker|][|prefix|..] == memoId;
    ContainsAt(m.content, memoId, j);
  }
}
