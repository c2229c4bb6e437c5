/** The policy filters of index.js: the optional video-extension filter and
    the exclusion-keyword filter, each an `Array.prototype.filter` over the
    collected links. */
module Policy {
  import opened Wrappers
  import opened Seqs
  import opened Strings

  /** The policy settings the filters read from the configuration. */
  datatype Policy = Policy(videosOnly: Option<bool>, videoFormats: seq<string>, excludeKeywords: seq<string>)

  /** `link.split(".").pop().toLowerCase()`: the lower-cased text after the
      last `.`, or the whole link lower-cased when it has no `.`. */
  function Extension(link: string): (e: string)
    ensures |e| <= |link| && '.' !in e
  {
    var pieces := Split(link, '.');
    SplitLast(link, '.');
    ToLower(pieces[|pieces| - 1])
  }

  /** The extension is the lower-cased longest suffix without a `.`. */
  lemma ExtensionIsLastSegment(link: string)
    ensures exists t ::
      && '.' !in t && |t| <= |link| && link[|link| - |t|..] == t
      && (|t| == |link| || link[|link| - |t| - 1] == '.')
      && Extension(link) == ToLower(t)
  {
    SplitLast(link, '.');
    var pieces := Split(link, '.');
    var t := pieces[|pieces| - 1];
    assert '.' !in t;
    assert Extension(link) == ToLower(t);
  }

  /** A link without any `.` is its own extension, lower-cased. */
  lemma ExtensionWithoutDot(link: string)
    requires '.' !in link
    ensures Extension(link) == ToLower(link)
  {
    SplitFree(link, '.');
  }

  /** `config.videoFormats.includes(fileExtension)`. */
  predicate IsVideoLink(formats: seq<string>, link: string) {
    Extension(link) in formats
  }

  /** The video filter: when `videosOnly ?? false` holds, keep the links
      whose extension is one of the video formats; otherwise keep all. */
  function VideoFilter(links: seq<string>, videosOnly: Option<bool>, formats: seq<string>): (r: seq<string>)
    ensures !videosOnly.GetOr(false) ==> r == links
    ensures IsSubsequence(r, links)
    ensures videosOnly.GetOr(false) ==>
      forall l :: l in r <==> l in links && Extension(l) in formats
    ensures forall l :: l in r ==> multiset(r)[l] == multiset(links)[l]
  {
    if videosOnly.GetOr(false) then Filter(l => IsVideoLink(formats, l), links)
    else
      SubsequenceRefl(links);
      links
  }

  /** The keyword loop of one link: it is excluded as soon as it includes
      one of the keywords, tried in order. */
  function Excluded(link: string, keywords: seq<string>): (r: bool)
    ensures r <==> exists k :: 0 <= k < |keywords| && Includes(link, keywords[k])
  {
    if keywords == [] then false
    else if Includes(link, keywords[0]) then true
    else
      var r := Excluded(link, keywords[1..]);
      assert forall k :: 1 <= k < |keywords| ==> keywords[k] == keywords[1..][k - 1];
      r
  }

  /** The keyword filter: keep the links that include none of the keywords. */
  function KeywordFilter(links: seq<string>, keywords: seq<string>): (r: seq<string>)
    ensures IsSubsequence(r, links)
    ensures forall l :: l in r <==> l in links && forall k :: 0 <= k < |keywords| ==> !Includes(l, keywords[k])
    ensures forall l :: l in r ==> multiset(r)[l] == multiset(links)[l]
  {
    Filter(l => !Excluded(l, keywords), links)
  }

  /** With no keywords the keyword filter changes nothing. */
  lemma NoKeywordsKeepAll(links: seq<string>)
    ensures KeywordFilter(links, []) == links
  {
    FilterKeepsAll(l => !Excluded(l, []), links);
  }

  /** The empty keyword is included in every link, so it drops them all. */
  lemma EmptyKeywordDropsAll(links: seq<string>, keywords: seq<string>)
    requires "" in keywords
    ensures KeywordFilter(links, keywords) == []
  {
    forall l | l in links ensures Excluded(l, keywords) {
      assert OccursAt(l, 0, "");
    }
    FilterDropsAll(l => !Excluded(l, keywords), links);
  }

  /** Both policy filters in the order index.js applies them. */
  function Screen(links: seq<string>, p: Policy): (r: seq<string>)
    ensures forall l :: l in r <==>
      && l in links
      && (p.videosOnly.GetOr(false) ==> Extension(l) in p.videoFormats)
      && !Excluded(l, p.excludeKeywords)
  {
    KeywordFilter(VideoFilter(links, p.videosOnly, p.videoFormats), p.excludeKeywords)
  }

  /** The two filters commute: screening keywords first gives the same links. */
  lemma FiltersCommute(links: seq<string>, p: Policy)
    ensures Screen(links, p)
      == VideoFilter(KeywordFilter(links, p.excludeKeywords), p.videosOnly, p.videoFormats)
  {
    var video := (l: string) => IsVideoLink(p.videoFormats, l);
    var clean := (l: string) => !Excluded(l, p.excludeKeywords);
    var kept := KeywordFilter(links, p.excludeKeywords);
    assert kept == Filter(clean, links);
    if p.videosOnly.GetOr(false) {
      assert Screen(links, p) == Filter(clean, Filter(video, links));
      assert VideoFilter(kept, p.videosOnly, p.videoFormats) == Filter(video, Filter(clean, links));
      var both := (l: string) => video(l) && clean(l);
      FilterFilter(clean, video, both, links);
      FilterFilter(video, clean, both, links);
    } else {
      assert VideoFilter(kept, p.videosOnly, p.videoFormats) == kept;
      assert Screen(links, p) == kept;
    }
  }
}
