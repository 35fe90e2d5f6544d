/**
  Edge selection of the documentation sidebar (`SidebarLayout`).

  The component receives every article edge, an optional navigation location
  whose state may carry a `bucketName`, the current page slug and a
  mobile/desktop flag, and decides which edges the navigation tree is given.
  An edge is reduced to its slug, the only field the selection reads. The
  configured top-level bucket names are passed in as a plain sequence.
*/
module Sidebar {
  import opened JsStrings

  datatype Option<T> = None | Some(value: T)

  /** `location.state`: the navigation state, which may carry a bucket name. */
  datatype NavState = NavState(bucketName: Option<string>)

  /** The router's `location`, whose `state` may be missing. */
  datatype Location = Location(state: Option<NavState>)

  /** What the component renders: a desktop aside or a mobile-only block,
      each holding the tree built from `treeEdges`. */
  datatype SidebarView = Desktop(treeEdges: seq<string>) | Mobile(treeEdges: seq<string>)

  /** JavaScript truthiness of a value that is a string or `undefined`. */
  predicate Truthy(v: Option<string>) {
    v.Some? && v.value != ""
  }

  /** `location && location.state && location.state.bucketName ? … : '/'`:
      the bucket named by navigation state, defaulting to the site root `/`. */
  function NavBucketName(location: Option<Location>): (bucket: string)
    ensures bucket != ""
    ensures bucket == "/" ||
      (location.Some? && location.value.state.Some? && location.value.state.value.bucketName == Some(bucket))
  {
    if location.Some? && location.value.state.Some? && Truthy(location.value.state.value.bucketName)
    then location.value.state.value.bucketName.value
    else "/"
  }

  /** `edges.filter(edge => edge.slug.includes(bucket))`. */
  function FilterByBucket(edges: seq<string>, bucket: string): (kept: seq<string>)
    ensures forall e :: e in kept ==> Includes(e, bucket)
    ensures forall e :: multiset(kept)[e] == if Includes(e, bucket) then multiset(edges)[e] else 0
    ensures IsSubsequence(kept, edges)
  {
    if edges == [] then []
    else
      var rest := FilterByBucket(edges[1..], bucket);
      assert edges == [edges[0]] + edges[1..];
      if Includes(edges[0], bucket) then
        assert ([edges[0]] + rest)[1..] == rest;
        [edges[0]] + rest
      else rest
  }

  /** `a` is `b` with some elements dropped and the rest in their original order. */
  predicate IsSubsequence(a: seq<string>, b: seq<string>)
    decreases |b|
  {
    a == [] || (|b| > 0 && ((a[0] == b[0] && IsSubsequence(a[1..], b[1..])) || IsSubsequence(a, b[1..])))
  }

  /** Filtering a second time by the same bucket changes nothing. */
  lemma {:induction false} FilterByBucketIdempotent(edges: seq<string>, bucket: string)
    ensures FilterByBucket(FilterByBucket(edges, bucket), bucket) == FilterByBucket(edges, bucket)
    decreases |edges|
  {
    if edges != [] {
      FilterByBucketIdempotent(edges[1..], bucket);
      var rest := FilterByBucket(edges[1..], bucket);
      if Includes(edges[0], bucket) {
        assert ([edges[0]] + rest)[1..] == rest;
      }
    }
  }

  /** Bucket names are matched by substring: an edge whose slug carries the
      bucket anywhere, not only at its start, is kept. */
  lemma SubstringKept(edges: seq<string>, pre: string, bucket: string, post: string)
    requires pre + bucket + post in edges
    ensures pre + bucket + post in FilterByBucket(edges, bucket)
  {
    IncludesAnywhere(pre, bucket, post);
    assert multiset(edges)[pre + bucket + post] > 0;
  }

  /** For example, `/orm` also selects slugs under `/orm-extended` and slugs
      that carry `/orm` deeper in their path. */
  lemma SubstringNotPrefix(edges: seq<string>)
    ensures "/orm-extended/x" in edges ==> "/orm-extended/x" in FilterByBucket(edges, "/orm")
    ensures "/a/orm/b" in edges ==> "/a/orm/b" in FilterByBucket(edges, "/orm")
  {
    assert "" + "/orm" + "-extended/x" == "/orm-extended/x";
    assert "/a" + "/orm" + "/b" == "/a/orm/b";
    if "/orm-extended/x" in edges {
      SubstringKept(edges, "", "/orm", "-extended/x");
    }
    if "/a/orm/b" in edges {
      SubstringKept(edges, "/a", "/orm", "/b");
    }
  }

  /** `/${slug.split('/')[1]}`: the slash and the second `/`-separated field;
      a slug without `/` has no second field and gives `/undefined`. */
  function SlugBucketPart(slug: string): (part: string)
    ensures |part| > 0 && part[0] == '/'
    ensures '/' !in slug ==> part == "/undefined"
  {
    var fields := Split(slug, '/');
    JoinSplit(slug, '/');
    if |fields| > 1 then
      assert Join(fields, '/') == fields[0] + ['/'] + Join(fields[1..], '/');
      assert '/' in slug;
      "/" + fields[1]
    else
      assert slug == fields[0];
      "/undefined"
  }

  /** For a slug made of `/`-free segments, the bucket part is `/` followed by
      the second segment: the first path segment when the slug starts with `/`. */
  lemma SlugBucketPartOfSegments(segments: seq<string>)
    requires |segments| >= 2
    requires forall k :: 0 <= k < |segments| ==> '/' !in segments[k]
    ensures SlugBucketPart(Join(segments, '/')) == "/" + segments[1]
  {
    SplitJoin(segments, '/');
  }

  /** The site root's bucket part is `/` itself, because `"/".split('/')` is `["", ""]`. */
  lemma RootBucketPart()
    ensures SlugBucketPart("/") == "/"
  {
  }

  /** Names equal to `part`, in order: `bucketNames.filter(bn => bn === part)`. */
  function MatchingNames(bucketNames: seq<string>, part: string): (matches: seq<string>)
    ensures forall x :: x in matches ==> x == part
    ensures |matches| > 0 <==> part in bucketNames
  {
    if bucketNames == [] then []
    else
      var rest := MatchingNames(bucketNames[1..], part);
      assert bucketNames == [bucketNames[0]] + bucketNames[1..];
      if bucketNames[0] == part then [bucketNames[0]] + rest else rest
  }

  /** `bucketNames.filter(bn => bn === part)[0]`: the configured bucket the
      slug names, or `undefined`. */
  function SelectedBucket(bucketNames: seq<string>, part: string): (selected: Option<string>)
    ensures selected == if part in bucketNames then Some(part) else None
  {
    var matches := MatchingNames(bucketNames, part);
    if |matches| > 0 then
      assert matches[0] in matches;
      Some(matches[0])
    else None
  }

  /** The landing-page rule: on desktop the root page shows no tree. */
  predicate DesktopLanding(isMobile: bool, slug: Option<string>) {
    !isMobile && slug == Some("/")
  }

  /** The edges `SidebarLayout` hands to `Tree`, following its three steps:
      filter by the navigation bucket, re-filter by the slug's configured
      bucket when there is one, and empty the list on the desktop landing page. */
  function SidebarEdges(isMobile: bool, location: Option<Location>, slug: Option<string>,
                        edges: seq<string>, bucketNames: seq<string>): (bucketEdges: seq<string>)
    ensures IsSubsequence(bucketEdges, edges)
    ensures DesktopLanding(isMobile, slug) ==> bucketEdges == []
  {
    var bucketName := NavBucketName(location);
    var navEdges := FilterByBucket(edges, bucketName);
    var slugEdges :=
      if Truthy(slug) then
        var selected := SelectedBucket(bucketNames, SlugBucketPart(slug.value));
        if Truthy(selected) then FilterByBucket(edges, selected.value) else navEdges
      else navEdges;
    if DesktopLanding(isMobile, slug) then [] else slugEdges
  }

  /** The `if (selectedBucket)` test is exactly a membership test: the slug's
      bucket part is never empty, so a found name is always truthy. */
  lemma SelectedBucketTruthy(bucketNames: seq<string>, s: string)
    ensures Truthy(SelectedBucket(bucketNames, SlugBucketPart(s))) <==> SlugBucketPart(s) in bucketNames
  {
  }

  /** Reference definition: the one bucket that decides the sidebar, namely the
      slug's bucket part when it is a configured name, otherwise the navigation
      bucket. */
  function ActiveBucket(location: Option<Location>, slug: Option<string>, bucketNames: seq<string>): (bucket: string)
    ensures bucket != ""
    ensures bucket == NavBucketName(location) || bucket in bucketNames
  {
    if slug.Some? && slug.value != "" && SlugBucketPart(slug.value) in bucketNames
    then SlugBucketPart(slug.value)
    else NavBucketName(location)
  }

  /** Outside the desktop landing page the sidebar shows exactly the edges whose
      slug contains the active bucket, in their original order. */
  lemma SidebarEdgesFilterActive(isMobile: bool, location: Option<Location>, slug: Option<string>,
                                 edges: seq<string>, bucketNames: seq<string>)
    ensures SidebarEdges(isMobile, location, slug, edges, bucketNames) ==
      if DesktopLanding(isMobile, slug) then []
      else FilterByBucket(edges, ActiveBucket(location, slug, bucketNames))
  {
  }

  /** Every edge shown contains the active bucket, and off the desktop landing
      page every edge that contains it is shown, as often as it occurs. */
  lemma SidebarEdgesExact(isMobile: bool, location: Option<Location>, slug: Option<string>,
                          edges: seq<string>, bucketNames: seq<string>)
    ensures forall e :: e in SidebarEdges(isMobile, location, slug, edges, bucketNames) ==>
      Includes(e, ActiveBucket(location, slug, bucketNames))
    ensures !DesktopLanding(isMobile, slug) ==> forall e ::
      multiset(SidebarEdges(isMobile, location, slug, edges, bucketNames))[e] ==
        if Includes(e, ActiveBucket(location, slug, bucketNames)) then multiset(edges)[e] else 0
  {
  }

  /** The desktop landing page is the only place where the result is forced
      empty; elsewhere it is empty only when no edge contains the active bucket. */
  lemma SidebarEdgesEmpty(isMobile: bool, location: Option<Location>, slug: Option<string>,
                          edges: seq<string>, bucketNames: seq<string>)
    ensures SidebarEdges(isMobile, location, slug, edges, bucketNames) == [] <==>
      DesktopLanding(isMobile, slug) ||
      forall e :: e in edges ==> !Includes(e, ActiveBucket(location, slug, bucketNames))
  {
    var bucket := ActiveBucket(location, slug, bucketNames);
    var kept := FilterByBucket(edges, bucket);
    SidebarEdgesFilterActive(isMobile, location, slug, edges, bucketNames);
    if !DesktopLanding(isMobile, slug) {
      if kept == [] {
        forall e | e in edges ensures !Includes(e, bucket) {
          assert multiset(edges)[e] > 0;
          assert multiset(kept)[e] == 0;
        }
      }
      if kept != [] {
        assert kept[0] in kept;
        assert multiset(kept)[kept[0]] > 0;
        assert kept[0] in edges;
      }
    }
  }

  /** A slug whose bucket part is a configured name overrides the navigation
      state completely. */
  lemma SlugBucketOverrides(isMobile: bool, location: Option<Location>, s: string,
                            edges: seq<string>, bucketNames: seq<string>)
    requires s != "" && SlugBucketPart(s) in bucketNames
    requires !DesktopLanding(isMobile, Some(s))
    ensures SidebarEdges(isMobile, location, Some(s), edges, bucketNames) ==
      FilterByBucket(edges, SlugBucketPart(s))
  {
  }

  /** With no slug, an empty slug, or a slug whose bucket part is not configured,
      the navigation (or default) bucket decides. */
  lemma NavBucketDecides(isMobile: bool, location: Option<Location>, slug: Option<string>,
                         edges: seq<string>, bucketNames: seq<string>)
    requires !Truthy(slug) || SlugBucketPart(slug.value) !in bucketNames
    requires !DesktopLanding(isMobile, slug)
    ensures SidebarEdges(isMobile, location, slug, edges, bucketNames) ==
      FilterByBucket(edges, NavBucketName(location))
  {
  }

  /** Without a truthy `location.state.bucketName` and without a configured slug
      bucket, the sidebar keeps every edge whose slug contains `/`. */
  lemma DefaultBucketIsRoot(isMobile: bool, location: Option<Location>, slug: Option<string>,
                            edges: seq<string>, bucketNames: seq<string>)
    requires location.None? || location.value.state.None? || !Truthy(location.value.state.value.bucketName)
    requires !Truthy(slug) || SlugBucketPart(slug.value) !in bucketNames
    requires !DesktopLanding(isMobile, slug)
    ensures SidebarEdges(isMobile, location, slug, edges, bucketNames) == FilterByBucket(edges, "/")
  {
  }

  /** A truthy `location.state.bucketName` is the bucket, when no configured
      slug bucket overrides it. */
  lemma StateBucketDecides(isMobile: bool, name: string, slug: Option<string>,
                           edges: seq<string>, bucketNames: seq<string>)
    requires name != ""
    requires !Truthy(slug) || SlugBucketPart(slug.value) !in bucketNames
    requires !DesktopLanding(isMobile, slug)
    ensures SidebarEdges(isMobile, Some(Location(Some(NavState(Some(name))))), slug, edges, bucketNames) ==
      FilterByBucket(edges, name)
  {
  }

  /** The mobile flag matters only on the root page: elsewhere both layouts
      select the same edges. */
  lemma MobileFlagOnlyAtRoot(location: Option<Location>, slug: Option<string>,
                             edges: seq<string>, bucketNames: seq<string>)
    ensures slug != Some("/") ==>
      SidebarEdges(true, location, slug, edges, bucketNames) ==
      SidebarEdges(false, location, slug, edges, bucketNames)
    ensures SidebarEdges(true, location, Some("/"), edges, bucketNames) ==
      FilterByBucket(edges, if "/" in bucketNames then "/" else NavBucketName(location))
  {
    SidebarEdgesFilterActive(true, location, slug, edges, bucketNames);
    SidebarEdgesFilterActive(false, location, slug, edges, bucketNames);
    SidebarEdgesFilterActive(true, location, Some("/"), edges, bucketNames);
    RootBucketPart();
  }

  /** `SidebarLayout`'s render: the desktop aside or the mobile-only block. */
  function SidebarLayout(isMobile: bool, location: Option<Location>, slug: Option<string>,
                         edges: seq<string>, bucketNames: seq<string>): (view: SidebarView)
    ensures view.Mobile? <==> isMobile
    ensures IsSubsequence(view.treeEdges, edges)
    ensures view.treeEdges ==
      if DesktopLanding(isMobile, slug) then []
      else FilterByBucket(edges, ActiveBucket(location, slug, bucketNames))
  {
    var bucketEdges := SidebarEdges(isMobile, location, slug, edges, bucketNames);
    if !isMobile then Desktop(bucketEdges) else Mobile(bucketEdges)
  }

  /** Both layouts give `Tree` the same edges, except that the desktop landing
      page gives it none. */
  lemma LayoutsShareEdges(location: Option<Location>, slug: Option<string>,
                          edges: seq<string>, bucketNames: seq<string>)
    ensures slug != Some("/") ==>
      SidebarLayout(true, location, slug, edges, bucketNames).treeEdges ==
      SidebarLayout(false, location, slug, edges, bucketNames).treeEdges
    ensures SidebarLayout(false, location, Some("/"), edges, bucketNames).treeEdges == []
  {
  }
}
