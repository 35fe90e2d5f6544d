# Sidebar edge selection

A model of how the documentation site's sidebar (`SidebarLayout` in
`src/components/sidebar/index.tsx`) decides which article edges its navigation
tree receives. The inputs are:

- every article edge, reduced to its slug;
- an optional router `location`, whose `state` may carry a `bucketName`;
- the current page slug, which may be absent;
- the configured top-level bucket names;
- a mobile/desktop flag.

The component works in four steps:

1. The navigation bucket is `location.state.bucketName` when that value is truthy. Otherwise it is the root bucket `/`.
2. The edges are filtered by substring containment of that bucket.
3. When the slug is truthy, the component computes `"/" + slug.split('/')[1]`. If that string is one of the configured bucket names, the edges are filtered by it instead. The navigation bucket is then ignored.
4. On desktop, the landing page (slug `/`) gets no edges at all.

Both layouts give the same edge list to `Tree`.

Two modules:

- `JsStrings` (`js_strings.dfy`) models the two JavaScript string built-ins the component relies on.
  - `Includes` is `String.prototype.includes`. It is proved equal to the usual "occurs at some index" definition.
  - `Split` is `String.prototype.split` with a one-character separator. `Split` and `Join` are proved to be inverses.
- `Sidebar` (`sidebar.dfy`) models the selection itself.
  - `SidebarEdges` follows the component's reassignments of `bucketEdges` step by step.
  - `ActiveBucket` is an independent reference definition of the one bucket that decides the result.
  - The lemmas connect `SidebarEdges` to `ActiveBucket` and to `FilterByBucket`.

JavaScript truthiness is written out explicitly. An `Option` value `None` stands for `undefined` or a missing property. `Some("")` is falsy. The predicate `Sidebar.Truthy` is this test, which the component applies at lines 63, 68 and 71. The predicate `Sidebar.DesktopLanding` is the landing-page rule `!isMobile && slug === '/'` at line 76.

## Model

| member | source | states |
|---|---|---|
| `JsStrings.Includes` | src/components/sidebar/index.tsx:64 | `slug.includes(bucket)`: the empty string is found in every slug, and a match needs a bucket no longer than the slug. |
| `JsStrings.IncludesIffOccurs` | src/components/sidebar/index.tsx:64 | `slug.includes(bucket)` holds exactly when `bucket` occurs as a contiguous block at some index of `slug`. Both directions are proved. |
| `JsStrings.IncludesAnywhere` | src/components/sidebar/index.tsx:64 | A text that contains the bucket anywhere, not only at the start, is a match. |
| `JsStrings.Split` | src/components/sidebar/index.tsx:69 | `slug.split('/')` has one more field than the slug has `/` characters. No field contains `/`. |
| `JsStrings.JoinSplit` | src/components/sidebar/index.tsx:69 | Joining the fields of a split with the separator gives back the original slug. |
| `JsStrings.SplitJoin` | src/components/sidebar/index.tsx:69 | Splitting a join of separator-free fields gives back exactly those fields. |
| `Sidebar.NavBucketName` | src/components/sidebar/index.tsx:62-63 | The navigation bucket is never empty. It is either the default `/` or the `bucketName` actually carried by `location.state`. |
| `Sidebar.FilterByBucket` | src/components/sidebar/index.tsx:64 | Every kept edge contains the bucket. Each edge that contains the bucket is kept exactly as often as it occurs in the input, and every other edge is dropped. The result is an order-preserving subsequence of the input. |
| `Sidebar.FilterByBucketIdempotent` | src/components/sidebar/index.tsx:64 | Filtering a second time by the same bucket changes nothing. |
| `Sidebar.SubstringKept` | src/components/sidebar/index.tsx:64 | For any bucket, an edge whose slug carries the bucket anywhere (`pre + bucket + post`) survives the filter. |
| `Sidebar.SubstringNotPrefix` | src/components/sidebar/index.tsx:64 | The bucket `/orm` keeps `/orm-extended/x` and `/a/orm/b` whenever they are among the edges. |
| `Sidebar.SlugBucketPart` | src/components/sidebar/index.tsx:69 | The derived part always starts with `/`. A slug without `/` gives `/undefined`. |
| `Sidebar.SlugBucketPartOfSegments` | src/components/sidebar/index.tsx:69 | For a slug built from at least two `/`-free segments, the part is `/` followed by the second segment. For `/orm/x` that is `/orm`. |
| `Sidebar.RootBucketPart` | src/components/sidebar/index.tsx:69 | The slug `/` gives the part `/`, because `"/".split('/')` is `["", ""]`. |
| `Sidebar.MatchingNames` | src/components/sidebar/index.tsx:70 | Every name kept by `bn === part` equals the part. Some name is kept exactly when the part is a configured name. |
| `Sidebar.SelectedBucket` | src/components/sidebar/index.tsx:70 | `filter(...)[0]` is the part itself when it is configured, and `undefined` otherwise. |
| `Sidebar.SelectedBucketTruthy` | src/components/sidebar/index.tsx:69-71 | The `if (selectedBucket)` test succeeds exactly when the slug's bucket part is a configured name, because that part is never empty. |
| `Sidebar.SidebarEdges` | src/components/sidebar/index.tsx:60-78 | The edges given to `Tree` are an order-preserving subsequence of all edges. They are empty on the desktop landing page. |
| `Sidebar.ActiveBucket` | src/components/sidebar/index.tsx:62-73 | The deciding bucket is never empty. It is either the navigation bucket or a configured name. |
| `Sidebar.SidebarEdgesFilterActive` | src/components/sidebar/index.tsx:60-78 | Off the desktop landing page, the result is exactly the filter of all edges by `ActiveBucket`. On that page it is empty. |
| `Sidebar.SidebarEdgesExact` | src/components/sidebar/index.tsx:64-78 | Every shown edge contains the active bucket. Off the desktop landing page, every edge containing it is shown, with its multiplicity. |
| `Sidebar.SidebarEdgesEmpty` | src/components/sidebar/index.tsx:64-78 | The result is empty exactly in two cases: the desktop landing page (`!isMobile && slug === '/'`), or no edge contains the active bucket. |
| `Sidebar.SlugBucketOverrides` | src/components/sidebar/index.tsx:68-73 | Off the desktop landing page, a non-empty slug whose part is a configured name makes the result the filter by that part, whatever the navigation state says. |
| `Sidebar.NavBucketDecides` | src/components/sidebar/index.tsx:62-74 | Off the desktop landing page, the result is the filter by the navigation bucket in three cases: the slug is absent, the slug is empty, or its part is not configured. |
| `Sidebar.DefaultBucketIsRoot` | src/components/sidebar/index.tsx:62-64 | Off the desktop landing page, the result is the filter by `/` when there is no truthy state bucket and no configured slug bucket. |
| `Sidebar.StateBucketDecides` | src/components/sidebar/index.tsx:62-64 | Off the desktop landing page, a non-empty `location.state.bucketName` is the bucket the edges are filtered by, when no configured slug bucket overrides it. |
| `Sidebar.MobileFlagOnlyAtRoot` | src/components/sidebar/index.tsx:76-77 | Mobile and desktop select the same edges for every slug other than `/`. On mobile, the slug `/` is not forced empty: it is filtered by `/` if `/` is configured, and by the navigation bucket otherwise. |
| `Sidebar.SidebarLayout` | src/components/sidebar/index.tsx:79-95 | The desktop aside is rendered exactly when the flag says desktop. `Tree` receives the selected edges: none on the desktop landing page, and otherwise exactly the edges whose slug contains `ActiveBucket`. |
| `Sidebar.LayoutsShareEdges` | src/components/sidebar/index.tsx:79-95 | Both layouts pass `Tree` the same edges, except on the desktop landing page, which passes none. |

## Left out

- The `Tree` component that consumes the selected edges (src/components/sidebar/index.tsx:8) is not part of this model. Its grouping, sorting, pruning and active-path expansion are not modelled.
- `useAllArticlesQuery` (line 61) is a data hook, and `config.header.secondLevelHeaderMenuItems` (line 66) is external configuration. Their results are parameters: the edges, and the list of bucket names.
- Configured menu items without a `bucketName`: `undefined === part` is never true, so these items are dropped from the name list rather than modelled.
- Edges are reduced to their slug strings, because the selection reads no other field. The node objects that `Tree` receives are not modelled.
- The case where `allMdx.edges` is `undefined` (optional chaining at lines 64 and 72) is not modelled. Edges are always a sequence, whereas the source would pass `undefined` on to `Tree`.
- Non-string values for `location.state.bucketName` or `slug` are not modelled. Only strings and `undefined` are modelled.
- `isMobile` is a `bool`. The source reads it by truthiness (`!isMobile`, lines 76 and 79), so other truthy or falsy values behave as `true` or `false`. They are not modelled separately.
- Strings are sequences of characters. The UTF-16 code-unit details of JavaScript strings are not modelled.
- The styled-components CSS (lines 10-58) and React rendering are not modelled. The rendered output is reduced to which layout is chosen and which edges it holds.
