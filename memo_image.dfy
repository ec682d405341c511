/**
 * The images of a memo (`MemoImage`): the embedded images its text links to, split into
 * external image URLs and links to files of the vault.
 */
module MemoImage {
  import opened Wrappers
  import opened Strings
  import opened Seqs
  import opened Memos

  /** `LinkMatch`: an image linked by name, with where the vault serves it from. */
  datatype LinkMatch = LinkMatch(linkText: Option<string>, altText: Option<string>, path: string, filepath: string)

  /** A file of the vault, as the metadata cache resolves a link to it. */
  datatype VaultFile = VaultFile(path: string)

  /**
   * The host: `decodeURIComponent`, `metadataCache.getFirstLinkpathDest(name, '')` and
   * `vault.getResourcePath(file)`.
   */
  datatype Vault = Vault(decode: string -> string, resolve: string -> Option<VaultFile>, resourcePath: VaultFile -> string)

  /** The name looked up: the link text URL-decoded, where a missing text is the string `undefined`. */
  function LookupName(v: Vault, linkText: Option<string>): string {
    v.decode(if linkText.Some? then linkText.value else "undefined")
  }

  /**
   * The link record for a link text and an alt text: an unresolved name keeps both texts and
   * has no paths; a resolved one gets the file's resource path and path, and an empty alt
   * text where there is none.
   */
  function LinkOf(v: Vault, linkText: Option<string>, altText: Option<string>): (r: LinkMatch)
    ensures r.linkText == linkText
    ensures v.resolve(LookupName(v, linkText)).None? ==> r == LinkMatch(linkText, altText, "", "")
    ensures v.resolve(LookupName(v, linkText)).Some? ==>
      var file := v.resolve(LookupName(v, linkText)).value;
      r.path == v.resourcePath(file) && r.filepath == file.path
      && r.altText == if altText.Some? && altText.value != "" then altText else Some("")
  {
    match v.resolve(LookupName(v, linkText))
    case None => LinkMatch(linkText, altText, "", "")
    case Some(file) =>
      var path := v.resourcePath(file);
      if altText.Some? && altText.value != "" then LinkMatch(linkText, altText, path, file.path)
      else LinkMatch(linkText, Some(""), path, file.path)
  }

  /**
   * A link has a file path exactly when its name resolves, as long as no file of the vault
   * has an empty path.
   */
  lemma LinkOfResolvedIff(v: Vault, linkText: Option<string>, altText: Option<string>)
    requires forall f: VaultFile :: v.resolve(LookupName(v, linkText)) == Some(f) ==> f.path != ""
    ensures LinkOf(v, linkText, altText).filepath != "" <==> v.resolve(LookupName(v, linkText)).Some?
  {
  }

  /** `detectWikiInternalLink`: group 1 of the wiki embed is the name, group 5 the alt text. */
  function DetectWikiInternalLink(p: Patterns, v: Vault, lineText: string): (r: LinkMatch)
    ensures r.linkText == p.wikiImageUrl.group(lineText, 1)
    ensures var alt := p.wikiImageUrl.group(lineText, 5);
      alt.Some? && alt.value != "" ==> r.altText == alt
  {
    LinkOf(v, p.wikiImageUrl.group(lineText, 1), p.wikiImageUrl.group(lineText, 5))
  }

  /** `detectMDInternalLink`: group 5 of the markdown link is the name, group 2 the alt text. */
  function DetectMDInternalLink(p: Patterns, v: Vault, lineText: string): (r: LinkMatch)
    ensures r.linkText == p.markdownUrl.group(lineText, 5)
    ensures var alt := p.markdownUrl.group(lineText, 2);
      alt.Some? && alt.value != "" ==> r.altText == alt
  {
    LinkOf(v, p.markdownUrl.group(lineText, 5), p.markdownUrl.group(lineText, 2))
  }

  /** `/(.*)http[s]?(.*)/.test(link)`: the link contains `http` (the `.*` parts may be empty). */
  predicate IsWebLink(link: string)
    ensures IsWebLink(link) <==> exists i: nat :: OccursAt(link, "http", i)
  {
    ContainsOccurs(link, "http");
    Contains(link, "http")
  }

  /** The matches of `re` when `re.test(memo)` holds, none otherwise. */
  function MatchesIfAny(re: Regex, memo: string): seq<string> {
    if re.test(memo) then re.matches(memo) else []
  }

  /** The wiki embeds, each resolved. */
  function ResolvedWikiLinks(p: Patterns, v: Vault, links: seq<string>): (r: seq<LinkMatch>)
    ensures |r| == |links|
    decreases |links|
  {
    if links == [] then []
    else ResolvedWikiLinks(p, v, links[..|links| - 1]) + [DetectWikiInternalLink(p, v, links[|links| - 1])]
  }

  /** Group 5 of each markdown link that contains `http`. */
  function WebLinkUrls(p: Patterns, links: seq<string>): seq<Option<string>>
    decreases |links|
  {
    if links == [] then []
    else
      var last := links[|links| - 1];
      WebLinkUrls(p, links[..|links| - 1]) + (if IsWebLink(last) then [p.markdownUrl.group(last, 5)] else [])
  }

  /** Each markdown link without `http`, resolved. */
  function ResolvedLocalLinks(p: Patterns, v: Vault, links: seq<string>): seq<LinkMatch>
    decreases |links|
  {
    if links == [] then []
    else
      var last := links[|links| - 1];
      ResolvedLocalLinks(p, v, links[..|links| - 1]) + (if IsWebLink(last) then [] else [DetectMDInternalLink(p, v, last)])
  }

  /** The matched URLs as defined entries of the external list. */
  function Defined(urls: seq<string>): (r: seq<Option<string>>)
    ensures |r| == |urls| && forall k :: 0 <= k < |r| ==> r[k] == Some(urls[k])
  {
    seq(|urls|, k requires 0 <= k < |urls| => Some(urls[k]))
  }

  /** The web-image matches, then group 5 of each markdown link that contains `http`, in order. */
  function ExternalImages(p: Patterns, memo: string): seq<Option<string>> {
    if !p.imageUrl.test(memo) then []
    else Defined(MatchesIfAny(p.markdownWebUrl, memo)) + WebLinkUrls(p, MatchesIfAny(p.markdownUrl, memo))
  }

  /** The wiki embeds resolved, then each markdown link without `http` resolved, in order. */
  function InternalImages(p: Patterns, v: Vault, memo: string): seq<LinkMatch> {
    if !p.imageUrl.test(memo) then []
    else ResolvedWikiLinks(p, v, MatchesIfAny(p.wikiImageUrl, memo)) + ResolvedLocalLinks(p, v, MatchesIfAny(p.markdownUrl, memo))
  }

  /** The first loop: each wiki embed resolved and pushed. */
  method PushWikiLinks(p: Patterns, v: Vault, allInternalLink: seq<string>, internal0: seq<LinkMatch>)
    returns (internalImageUrls: seq<LinkMatch>)
    ensures internalImageUrls == internal0 + ResolvedWikiLinks(p, v, allInternalLink)
  {
    internalImageUrls := internal0;
    var i := 0;
    while i < |allInternalLink|
      invariant 0 <= i <= |allInternalLink|
      invariant internalImageUrls == internal0 + ResolvedWikiLinks(p, v, allInternalLink[..i])
    {
      TakeSnoc(allInternalLink, i);
      internalImageUrls := internalImageUrls + [DetectWikiInternalLink(p, v, allInternalLink[i])];
      i := i + 1;
    }
    assert allInternalLink[..i] == allInternalLink;
  }

  /** The second loop: a markdown link with `http` gives an external URL, any other is resolved. */
  method PushMarkdownLinks(p: Patterns, v: Vault, allMarkdownLink: seq<string>, internal0: seq<LinkMatch>)
    returns (anotherExternalImageUrls: seq<Option<string>>, internalImageUrls: seq<LinkMatch>)
    ensures anotherExternalImageUrls == WebLinkUrls(p, allMarkdownLink)
    ensures internalImageUrls == internal0 + ResolvedLocalLinks(p, v, allMarkdownLink)
  {
    anotherExternalImageUrls := [];
    internalImageUrls := internal0;
    var i := 0;
    while i < |allMarkdownLink|
      invariant 0 <= i <= |allMarkdownLink|
      invariant anotherExternalImageUrls == WebLinkUrls(p, allMarkdownLink[..i])
      invariant internalImageUrls == internal0 + ResolvedLocalLinks(p, v, allMarkdownLink[..i])
    {
      var link := allMarkdownLink[i];
      TakeSnoc(allMarkdownLink, i);
      if Contains(link, "http") {
        anotherExternalImageUrls := anotherExternalImageUrls + [p.markdownUrl.group(link, 5)];
        assert ResolvedLocalLinks(p, v, allMarkdownLink[..i + 1]) == ResolvedLocalLinks(p, v, allMarkdownLink[..i]);
      } else {
        internalImageUrls := internalImageUrls + [DetectMDInternalLink(p, v, link)];
        assert WebLinkUrls(p, allMarkdownLink[..i + 1]) == WebLinkUrls(p, allMarkdownLink[..i]);
      }
      i := i + 1;
    }
    assert allMarkdownLink[..i] == allMarkdownLink;
  }

  /** The extraction block: both loops run under the image-URL guard, and the external list is joined at the end. */
  method ExtractImages(p: Patterns, v: Vault, memo: string) returns (externalImageUrls: seq<Option<string>>, internalImageUrls: seq<LinkMatch>)
    ensures externalImageUrls == ExternalImages(p, memo)
    ensures internalImageUrls == InternalImages(p, v, memo)
  {
    externalImageUrls := [];
    internalImageUrls := [];
    var allMarkdownLink: seq<string> := [];
    var allInternalLink: seq<string> := [];
    if p.imageUrl.test(memo) {
      var allExternalImageUrls: seq<string> := [];
      var anotherExternalImageUrls: seq<Option<string>> := [];
      if p.markdownUrl.test(memo) {
        allMarkdownLink := p.markdownUrl.matches(memo);
      }
      if p.wikiImageUrl.test(memo) {
        allInternalLink := p.wikiImageUrl.matches(memo);
      }
      if p.markdownWebUrl.test(memo) {
        allExternalImageUrls := p.markdownWebUrl.matches(memo);
      }
      assert allMarkdownLink == MatchesIfAny(p.markdownUrl, memo);
      assert allInternalLink == MatchesIfAny(p.wikiImageUrl, memo);
      assert allExternalImageUrls == MatchesIfAny(p.markdownWebUrl, memo);
      if |allInternalLink| > 0 {
        internalImageUrls := PushWikiLinks(p, v, allInternalLink, internalImageUrls);
      }
      assert internalImageUrls == ResolvedWikiLinks(p, v, allInternalLink);
      if |allMarkdownLink| > 0 {
        anotherExternalImageUrls, internalImageUrls := PushMarkdownLinks(p, v, allMarkdownLink, internalImageUrls);
      }
      assert anotherExternalImageUrls == WebLinkUrls(p, allMarkdownLink);
      assert internalImageUrls == ResolvedWikiLinks(p, v, allInternalLink) + ResolvedLocalLinks(p, v, allMarkdownLink);
      externalImageUrls := Defined(allExternalImageUrls) + anotherExternalImageUrls;
    }
  }

  /** Without an image URL in the text both lists stay empty. */
  lemma NoImagesWithoutGuard(p: Patterns, v: Vault, memo: string)
    requires !p.imageUrl.test(memo)
    ensures ExternalImages(p, memo) == [] && InternalImages(p, v, memo) == []
  {
  }

  /** Each markdown link gives exactly one entry, external or internal. */
  lemma {:induction false} MarkdownLinksPartition(p: Patterns, v: Vault, links: seq<string>)
    ensures |WebLinkUrls(p, links)| + |ResolvedLocalLinks(p, v, links)| == |links|
    decreases |links|
  {
    if links != [] {
      MarkdownLinksPartition(p, v, links[..|links| - 1]);
    }
  }

  /**
   * Every markdown link lands in exactly one list: together the lists hold one entry per
   * web image, per wiki embed and per markdown link.
   */
  lemma ImagesPartitionLinks(p: Patterns, v: Vault, memo: string)
    requires p.imageUrl.test(memo)
    ensures |ExternalImages(p, memo)| + |InternalImages(p, v, memo)|
      == |MatchesIfAny(p.markdownWebUrl, memo)| + |MatchesIfAny(p.wikiImageUrl, memo)| + |MatchesIfAny(p.markdownUrl, memo)|
  {
    MarkdownLinksPartition(p, v, MatchesIfAny(p.markdownUrl, memo));
  }

  /** Each external URL from a markdown link is group 5 of a link that contains `http`. */
  lemma {:induction false} WebLinkUrlsFrom(p: Patterns, links: seq<string>, k: nat)
    requires k < |WebLinkUrls(p, links)|
    ensures exists l :: l in links && IsWebLink(l) && WebLinkUrls(p, links)[k] == p.markdownUrl.group(l, 5)
    decreases |links|
  {
    var init, last := links[..|links| - 1], links[|links| - 1];
    assert links == init + [last];
    if k < |WebLinkUrls(p, init)| {
      WebLinkUrlsFrom(p, init, k);
    }
  }

  /** Each resolved markdown link comes from a link without `http`. */
  lemma {:induction false} ResolvedLocalLinksFrom(p: Patterns, v: Vault, links: seq<string>, k: nat)
    requires k < |ResolvedLocalLinks(p, v, links)|
    ensures exists l :: l in links && !IsWebLink(l) && ResolvedLocalLinks(p, v, links)[k] == DetectMDInternalLink(p, v, l)
    decreases |links|
  {
    var init, last := links[..|links| - 1], links[|links| - 1];
    assert links == init + [last];
    if k < |ResolvedLocalLinks(p, v, init)| {
      ResolvedLocalLinksFrom(p, v, init, k);
    }
  }

  /**
   * The external list starts with the web-image matches; each later entry is group 5 of a
   * markdown link that contains `http`.
   */
  lemma ExternalImagesFrom(p: Patterns, memo: string, k: nat)
    requires p.imageUrl.test(memo) && k < |ExternalImages(p, memo)|
    ensures var web := MatchesIfAny(p.markdownWebUrl, memo);
      if k < |web| then ExternalImages(p, memo)[k] == Some(web[k])
      else exists l :: l in MatchesIfAny(p.markdownUrl, memo) && IsWebLink(l) && ExternalImages(p, memo)[k] == p.markdownUrl.group(l, 5)
  {
    var web := MatchesIfAny(p.markdownWebUrl, memo);
    if k >= |web| {
      WebLinkUrlsFrom(p, MatchesIfAny(p.markdownUrl, memo), k - |web|);
    }
  }

  /**
   * The internal list starts with the wiki embeds resolved; each later entry is a markdown
   * link without `http`, resolved.
   */
  lemma InternalImagesFrom(p: Patterns, v: Vault, memo: string, k: nat)
    requires p.imageUrl.test(memo) && k < |InternalImages(p, v, memo)|
    ensures var wiki := MatchesIfAny(p.wikiImageUrl, memo);
      if k < |wiki| then InternalImages(p, v, memo)[k] == DetectWikiInternalLink(p, v, wiki[k])
      else exists l :: l in MatchesIfAny(p.markdownUrl, memo) && !IsWebLink(l) && InternalImages(p, v, memo)[k] == DetectMDInternalLink(p, v, l)
  {
    var wiki := MatchesIfAny(p.wikiImageUrl, memo);
    if k >= |wiki| {
      ResolvedLocalLinksFrom(p, v, MatchesIfAny(p.markdownUrl, memo), k - |wiki|);
    } else {
      ResolvedWikiLinksAt(p, v, wiki, k);
    }
  }

  /** Entry `k` of the resolved wiki embeds is embed `k` resolved. */
  lemma {:induction false} ResolvedWikiLinksAt(p: Patterns, v: Vault, links: seq<string>, k: nat)
    requires k < |links|
    ensures ResolvedWikiLinks(p, v, links)[k] == DetectWikiInternalLink(p, v, links[k])
    decreases |links|
  {
    if k < |links| - 1 {
      ResolvedWikiLinksAt(p, v, links[..|links| - 1], k);
    }
  }
}
