/** What the results view shows of a response (`SearchResults`): the direct
    hits kept by the active spaces and the post category, the verse groups
    when the Quran space is active, the count it displays, and the split of
    the kept hits into the course sidebar and the other related content.
    Rendering is not modelled. */
module DisplayFilter {
  import opened Wrappers
  import opened Seqs
  import opened Spaces
  import opened Models

  /** The only post category the interface offers. */
  datatype PostCategory = Reflection

  /** The category filter in force: the chosen one while posts are shown,
      none otherwise. */
  function ActiveCategory(active: seq<SpaceType>, chosen: Option<PostCategory>): (r: Option<PostCategory>)
    ensures Post !in active ==> r.None?
    ensures Post in active ==> r == chosen
  {
    if Post in active then chosen else None
  }

  /** Whether a direct hit is shown under the given spaces and category. */
  function Keeps(active: seq<SpaceType>, category: Option<PostCategory>): DirectHit -> bool {
    (h: DirectHit) =>
      match h
      case CourseHit(_) => Course in active
      case PostHit(p) =>
        Post in active && (category != Some(Reflection) || p.category == Some("reflection"))
      case ArticleHit(_) => Article in active
  }

  /** `filteredDirectHits`. */
  function FilterHits(hits: seq<DirectHit>, active: seq<SpaceType>, chosen: Option<PostCategory>): (r: seq<DirectHit>)
    ensures IsSubsequence(r, hits)
    ensures forall i :: 0 <= i < |r| ==> r[i] in hits
  {
    Filter(hits, Keeps(active, ActiveCategory(active, chosen)))
  }

  /** `ayahResults`: the groups unchanged when Quran is active, else none. */
  function ShownGroups(groups: seq<ConsolidatedAyah>, active: seq<SpaceType>): (r: seq<ConsolidatedAyah>)
    ensures Quran in active ==> r == groups
    ensures Quran !in active ==> r == []
  {
    if Quran in active then groups else []
  }

  /** `displayTotal`. */
  function DisplayTotal(response: SearchResponse, active: seq<SpaceType>, chosen: Option<PostCategory>): (n: nat)
    ensures n <= |response.directHits| + |response.ayahResults|
  {
    |FilterHits(response.directHits, active, chosen)| + |ShownGroups(response.ayahResults, active)|
  }

  /** Whether a direct hit is a course. */
  function IsCourse(): DirectHit -> bool {
    (h: DirectHit) => h.CourseHit?
  }

  /** `courses`: the kept course hits, for the sidebar. */
  function Courses(kept: seq<DirectHit>): (r: seq<DirectHit>)
    ensures forall i :: 0 <= i < |r| ==> r[i].CourseHit?
  {
    Filter(kept, IsCourse())
  }

  /** `otherHits`: the kept posts and articles. */
  function OtherHits(kept: seq<DirectHit>): (r: seq<DirectHit>)
    ensures forall i :: 0 <= i < |r| ==> !r[i].CourseHit?
  {
    Reject(kept, IsCourse())
  }

  // ---------------------------------------------------------------------------
  // What survives the filter

  /** A course or an article of the response is shown exactly when its space
      is active, whatever the category. */
  lemma CourseAndArticleSurvival(hits: seq<DirectHit>, active: seq<SpaceType>, chosen: Option<PostCategory>, h: DirectHit)
    requires h in hits && !h.PostHit?
    ensures h.CourseHit? ==> (h in FilterHits(hits, active, chosen) <==> Course in active)
    ensures h.ArticleHit? ==> (h in FilterHits(hits, active, chosen) <==> Article in active)
  {
    var k :| 0 <= k < |hits| && hits[k] == h;
  }

  /** A post of the response is shown exactly when posts are active and
      either no category is chosen or the post is a reflection. */
  lemma PostSurvival(hits: seq<DirectHit>, active: seq<SpaceType>, chosen: Option<PostCategory>, p: PostResult)
    requires PostHit(p) in hits
    ensures PostHit(p) in FilterHits(hits, active, chosen) <==>
      Post in active && (chosen.None? || p.category == Some("reflection"))
  {
    var k :| 0 <= k < |hits| && hits[k] == PostHit(p);
    match chosen
    case None =>
    case Some(c) => assert c == Reflection;
  }

  /** With every space active and no category chosen, the view shows the
      whole response and its count is the response's. */
  lemma {:induction false} EverythingShown(response: SearchResponse)
    ensures FilterHits(response.directHits, AllTypes, None) == response.directHits
    ensures ShownGroups(response.ayahResults, AllTypes) == response.ayahResults
    ensures DisplayTotal(response, AllTypes, None) == |response.directHits| + |response.ayahResults|
  {
    var p := Keeps(AllTypes, ActiveCategory(AllTypes, None));
    forall i | 0 <= i < |response.directHits| ensures p(response.directHits[i]) {
      match response.directHits[i]
      case CourseHit(_) =>
      case PostHit(_) =>
      case ArticleHit(_) =>
    }
    FilterKeepsAll(response.directHits, p);
  }

  /** Filtering again with the same spaces and category changes nothing. */
  lemma {:induction false} FilterHitsIdempotent(hits: seq<DirectHit>, active: seq<SpaceType>, chosen: Option<PostCategory>)
    ensures FilterHits(FilterHits(hits, active, chosen), active, chosen) == FilterHits(hits, active, chosen)
  {
    var kept := FilterHits(hits, active, chosen);
    FilterKeepsAll(kept, Keeps(active, ActiveCategory(active, chosen)));
  }

  /** A filter every element passes keeps the sequence as it is. */
  lemma {:induction false} FilterKeepsAll<T>(s: seq<T>, p: T -> bool)
    requires forall i :: 0 <= i < |s| ==> p(s[i])
    ensures Filter(s, p) == s
    decreases |s|
  {
    if |s| > 0 {
      assert forall i :: 0 <= i < |s[1..]| ==> s[1..][i] == s[i + 1];
      FilterKeepsAll(s[1..], p);
      assert s == [s[0]] + s[1..];
    }
  }

  /** The sidebar and the related content split the kept hits: together they
      hold each kept hit exactly as often as the kept list does, so the
      view's count is also the groups plus the two columns. */
  lemma ColumnsPartition(response: SearchResponse, active: seq<SpaceType>, chosen: Option<PostCategory>)
    ensures multiset(Courses(FilterHits(response.directHits, active, chosen)))
      + multiset(OtherHits(FilterHits(response.directHits, active, chosen)))
      == multiset(FilterHits(response.directHits, active, chosen))
    ensures DisplayTotal(response, active, chosen) ==
      |Courses(FilterHits(response.directHits, active, chosen))|
      + |OtherHits(FilterHits(response.directHits, active, chosen))|
      + |ShownGroups(response.ayahResults, active)|
  {
    FilterPartition(FilterHits(response.directHits, active, chosen), IsCourse());
  }

  /** Every sidebar entry is a kept course and every other entry a kept post
      or article, both in response order; with Course inactive the sidebar is
      empty. */
  lemma ColumnsContents(response: SearchResponse, active: seq<SpaceType>, chosen: Option<PostCategory>)
    ensures IsSubsequence(Courses(FilterHits(response.directHits, active, chosen)), FilterHits(response.directHits, active, chosen))
    ensures IsSubsequence(OtherHits(FilterHits(response.directHits, active, chosen)), FilterHits(response.directHits, active, chosen))
    ensures Course !in active ==> Courses(FilterHits(response.directHits, active, chosen)) == []
  {
  }
}
