# Portfolio navigation engine — a Dafny model

This project models the client-side navigation of a single-page portfolio site.
The site has four navigable pages (`home`, `projects`, `posts`, `videos`) and an
article page (`post`). Nav links, post links and the article's back button switch
pages without reloading and record entries in the session history. The browser's back and
forward buttons move to another entry and replay the state stored with it. On load, the address (a clean path such as
`/posts/<slug>`, or the legacy query form `?route=…&slug=…`) decides the first
view. The posts page renders a year-grouped list from a local post store.

Modules:

- `Posts` (posts.dfy): the post store `LOCAL_POSTS` and its two lookups.
  - `getAllPosts` is `ListPosts`.
  - `getPost` is modelled twice: as written (`GetPostAsWritten`) and corrected
    (`GetPost`); see "## Findings". The navigation engine uses the corrected one.
- `Pages` (pages.dfy): `VALID_PAGES`, the fallback to `home`, the clean-URL rule
  and `pageFromPath`.
- `DateFormat` (date_format.dfy): `formatDate`.
- `Text` (text.dfy): the two JavaScript string operations those need.
  - `split` on one character.
  - The digit prefix that `parseInt(s, 10)` reads.
- `PostsList` (posts_list.dfy): `renderPostsList`. It covers grouping by year key,
  the sort of the years, and one entry per post. The rendered list is a value
  (`ListView`), not markup.
- `Navigation` (navigation.dfy): the state the handlers work on and one function
  per handler. That state is the active pages and links, the session history
  (entries plus a cursor that the browser's back and forward moves set), the
  list container and the article container. The
  handlers are `navigateTo`, `openPost`, the `popstate` listener and the start-up
  code. The lemmas state the engine's properties on these functions.
- `Router` (router.dfy): the same handlers as a class whose fields the methods
  update in place. Each method is proved to end in exactly the state the matching
  `Navigation` function gives.

The post store is a constant, and `ListPosts` and `GetPost` are functions of it.
Repeated calls therefore return identical results and never change the store.

## Model

| member | source | states |
|---|---|---|
| Posts.ListPosts | posts.js:124-126 | one record per key of the store, the i-th being the record under the i-th key in declaration order |
| Posts.GetPost | posts.js:128-130 | null (`None`) exactly when the slug is not a key of the store; otherwise the record stored under it |
| Posts.ListedPostsAreLookedUp | posts.js:11-130 | every listed record is what `getPost` returns for its slug, and no record is listed twice |
| Posts.GetPostAsWritten | posts.js:128-130 | the lookup as written: an own key gives its own record; null exactly when the slug is neither an own key nor a name inherited from Object.prototype |
| Posts.InheritedSlugIsNotNull | posts.js:129 | `"constructor"` is not a post slug, yet the lookup as written returns a non-null value for it while the corrected one returns null |
| Posts.GetPostCorrectsInherited | posts.js:129 | for any slug that is not a key, the corrected lookup is null and the one as written is null exactly when the slug is not an inherited name |
| Posts.Unresolved | posts.js:124-130 | the imported names posts.js does not export, exactly |
| Posts.ScriptImportUnresolved | script.js:15 | the import list of script.js leaves `getPosts` unresolved |
| Posts.CorrectedImportResolves | script.js:15 | importing `getAllPosts` and `getPost` leaves nothing unresolved |
| Posts.Table | posts.js:11-104 | the object literal has exactly the listed property names as keys |
| Posts.TableAt | posts.js:11-104 | with distinct property names, each name holds its own record |
| Posts.LocalIsValid | posts.js:11-104 | LOCAL_POSTS lists each key once, keys every record by its own slug, and holds seven records |
| Posts.LocalListIsRecords | posts.js:124-126 | listing LOCAL_POSTS yields its records in declaration order |
| Posts.LocalPostsHaveNoSummary | posts.js:11-104 | every record of LOCAL_POSTS has an `excerpt` and none has a `summary` |
| Posts.DateAt | posts.js:15 | every date of LOCAL_POSTS starts with a capital letter and is longer than four characters |
| Pages.ParsePage | script.js:18 | a name in `VALID_PAGES` gives the page it names; any other string gives none |
| Pages.Resolve | script.js:58 | a valid page name resolves to that page; a missing or unknown target resolves to `home` |
| Pages.ResolveName | script.js:58 | every navigable page's own name resolves back to it |
| Pages.UrlOf | script.js:81 | the clean URL is `/` exactly for `home`, and `/<page>` for every other page |
| Pages.StripSlash | script.js:226 | one leading `/` is removed and nothing else changes |
| Pages.PathParts | script.js:226 | the path without its leading slash, split on `/`, always has a first segment |
| Pages.PageFromPath | script.js:225-228 | the page named by the first path segment, or `home` exactly when that segment names no navigable page |
| Pages.PageFromPathFirstSegment | script.js:225-228 | only the first segment counts: `/<s>` and `/<s>/<more>` give the same page, the one `<s>` names, or `home` |
| Pages.PageFromUrl | script.js:225-228 | round trip: the page read back from a page's clean URL is that page |
| Pages.PageFromRootPath | script.js:224 | `/` is `home` |
| Pages.PageFromPostPath | script.js:224 | `/posts/x` is the posts page |
| Pages.PageFromUnknownPath | script.js:227 | `/foo`, and `/post` (the article page's id), fall back to `home` |
| Text.Split | script.js:164 | `split` on one character returns at least one piece, and no piece contains the separator |
| Text.SplitNoSeparator | script.js:164 | a string without the separator splits into itself alone |
| Text.SplitAtFirst | script.js:164 | the first piece is everything before the first separator; the remaining pieces are the split of what follows it |
| Text.DigitPrefix | script.js:166 | the longest digit prefix: all digits, a prefix of the input, followed by a non-digit or the end |
| Text.ParseIntPrefix | script.js:166 | `parseInt(s, 10)` is NaN exactly when `s` is empty or does not start with a digit |
| Text.ParseIntOfDigits | script.js:166 | a digit string parses to its own decimal value |
| Text.DigitsValueInjective | script.js:125 | two digit strings of one length with the same value are equal |
| DateFormat.MonthLabel | script.js:165-166 | month numbers 1..12 give their abbreviation; NaN and any other number give `undefined` |
| DateFormat.FormatDate | script.js:162-167 | the label is empty exactly when the date is missing |
| DateFormat.FormatYearMonth | script.js:162-167 | `Y-M` and `Y-M-D` with month digits 1..12 give that month's abbreviation, a space and `Y` |
| DateFormat.FormatPair | script.js:164-166 | `Y-M` with no further `-` shows the label of month `M` followed by the year `Y` |
| DateFormat.FormatTriple | script.js:164-166 | `Y-M-D` shows the label of month `M` followed by the year `Y`, whatever `D` is |
| DateFormat.FormatBadMonth | script.js:166 | a month that is not a number, or is outside 1..12, shows as `undefined Y` |
| DateFormat.FormatWithoutHyphen | script.js:164-166 | a non-empty date with no `-` shows as `undefined` followed by the whole date |
| DateFormat.FormatDateExample | script.js:161 | `2026-02-28` shows as `Feb 2026` |
| DateFormat.FormatLocalDateExample | script.js:162-167 | the store's own date format, `January 2025`, shows as `undefined January 2025` |
| PostsList.YearKeyOfDate | script.js:118 | a dated post's key is the first four characters of its date (all of a shorter date); an undated post's key is `Unknown` |
| PostsList.Filter | script.js:117-122 | the posts of one year key, each taken from the input |
| PostsList.YearKeys | script.js:117-125 | the distinct year keys, covering every post's key |
| PostsList.YearKeysOfPosts | script.js:117-122 | every year key comes from some post |
| PostsList.FilterPartition | script.js:117-122 | a post lands in a year's group exactly when that year is its key |
| PostsList.FilterAppend | script.js:117-122 | grouping distributes over concatenation: the group of `a + b` is the group of `a` followed by the group of `b` |
| PostsList.FilterAbsent | script.js:117-122 | a year that is no post's key has an empty group |
| PostsList.GroupsArePermutation | script.js:117-122 | the groups together hold every post exactly once (a permutation of the input) |
| PostsList.GroupedAppendPost | script.js:119-120 | adding a post grows the groups by exactly that post when its key is listed |
| PostsList.GroupedAppendKey | script.js:117-122 | adding a year appends exactly its group |
| PostsList.GroupByYear | script.js:117-122 | the reduce loop yields exactly one group per year key, in first-seen order, each holding that year's posts in input order |
| PostsList.Before | script.js:125 | `b - a < 0`: one key goes before another only when both are numbers and they differ; a comparison with a non-number (NaN) puts neither first |
| PostsList.BeforeIsStrict | script.js:125 | the comparator never puts two keys before each other, and equal-length numeric keys compare equal exactly when they are the same key |
| PostsList.Insert | script.js:125 | inserting adds exactly one copy of the key |
| PostsList.SortYearsDesc | script.js:125 | the sorted years are a permutation of the keys |
| PostsList.InsertDescending | script.js:125 | inserting a numeric key into a descending list keeps it descending |
| PostsList.SortedYearsDescend | script.js:125 | with only numeric keys, the years come out newest first |
| PostsList.YearsStrictlyDescend | script.js:125 | distinct four-digit years come out strictly newest first |
| PostsList.DistinctAfterPermutation | script.js:125 | sorting distinct keys keeps them distinct |
| PostsList.InsertNonNumeric | script.js:125 | a key the comparator reads as NaN is placed after all the others |
| PostsList.NonNumericKeepOrder | script.js:125 | when no key is numeric, every comparison is NaN and the sort leaves the keys in place |
| PostsList.ItemOf | script.js:129-143 | an entry links to the post's slug and title, shows `formatDate` of the post's date as its date label, and has an excerpt exactly when the post has a summary (that summary) |
| PostsList.Items | script.js:129-144 | one entry per post, in order |
| PostsList.Render | script.js:104-157 | the container never stays at the loading placeholder, and shows the empty-state message exactly when there are no posts |
| PostsList.Sections | script.js:128-154 | one section per year in the given order, each headed by its year and holding that year's entries |
| PostsList.BuildSections | script.js:128-154 | one section per sorted year, holding the entries of that year's group |
| PostsList.SectionsFromGroups | script.js:117-154 | sections built from the grouped posts equal sections built straight from the posts |
| PostsList.RenderedSections | script.js:117-157 | the rendered list has one section per distinct year key, no year twice, each holding exactly that year's posts |
| PostsList.RenderedYears | script.js:125-154 | the sections appear in the order of the sorted year keys |
| PostsList.RenderedNewestFirst | script.js:125 | with four-digit years, sections run strictly newest first |
| PostsList.RenderedInFirstSeenOrder | script.js:125 | when no year key is numeric, sections keep the order in which their years first appear |
| PostsList.RenderedPostPlacement | script.js:117-154 | every post is listed in the section headed by its own year key |
| PostsList.NoSummaryNoExcerpt | script.js:141 | posts without a summary render without any excerpt |
| PostsList.LocalListShowsNoExcerpt | script.js:141 | with LOCAL_POSTS, which carries `excerpt` but not `summary`, no entry shows an excerpt |
| PostsList.LocalListInDeclarationOrder | script.js:118-125 | with LOCAL_POSTS, whose year keys are month-name prefixes, the sections stay in declaration order, unchanged by the sort, since every key compares as NaN |
| PostsList.SectionYears | script.js:148 | the year headings of the sections, in order |
| Navigation.History.Push | script.js:82 | `pushState` keeps the entries up to the current one, appends the new entry and makes it current |
| Navigation.History.Go | script.js:211 | a back or forward move keeps every entry and makes the chosen one current |
| Navigation.History.Replace | script.js:243 | `replaceState` overwrites the current entry and leaves every other entry and the cursor alone |
| Navigation.Marked | script.js:64-75 | the target is marked active exactly when its element exists, and nothing else is |
| Navigation.PostUrl | script.js:205 | the article URL is `/posts/` followed by exactly the slug |
| Navigation.ListAfterRender | script.js:98-102 | with a list container the list is rendered (never left loading, empty-state exactly when the store is empty); without one it is unchanged |
| Navigation.Navigate | script.js:56-89 | `navigateTo` keeps the history well formed |
| Navigation.OpenPost | script.js:172-206 | `openPost` keeps the history well formed |
| Navigation.PopState | script.js:211-220 | the browser moves to entry `i`, then the listener runs on that entry's state and URL; the history stays well formed |
| Navigation.PostSlugOfPath | script.js:257-258 | a slug comes back only from a path whose first segment is `posts`, and is non-empty with no `/` |
| Navigation.PostSlugOfPostsPath | script.js:257-258 | the second segment of `/posts/<seg>` is the slug, whether URL-safe or not; `/posts` and `/posts/` give none |
| Navigation.PostSlugIgnoresRest | script.js:257-258 | `/posts/<seg>/<rest>` gives the same slug as `/posts/<seg>`, whatever `<rest>` is |
| Navigation.InitialLoad | script.js:235-268 | the start-up code keeps the history well formed |
| Navigation.NavigateInvalidIsHome | script.js:58 | navigating to a missing or unknown target is exactly navigating to `home` |
| Navigation.NavigateMarksOnlyTarget | script.js:60-75 | afterwards exactly the target page and its link are active, never the article page |
| Navigation.NavigateHistory | script.js:79-83 | a pushing navigation adds one entry `{page}` with the clean URL after the current one and drops the entries after it; a non-pushing one leaves the history unchanged |
| Navigation.NavigateRendersList | script.js:85-88 | entering the posts page re-renders the list (empty-state exactly when the store is empty, never left loading); any other page leaves the list alone |
| Navigation.OpenUnknownPost | script.js:176 | opening an unknown slug is exactly `navigateTo('posts', true)` |
| Navigation.OpenKnownPost | script.js:179-205 | opening a known slug activates only the article page and the `posts` link, shows that post's date label, title and content, and pushes one entry `{post, slug}` at `/posts/<slug>` |
| Navigation.OpenInheritedNameGoesToPosts | script.js:173-176 | with the corrected lookup, `openPost('constructor')` on LOCAL_POSTS is exactly `navigateTo('posts', true)`, although the lookup as written finds an inherited value |
| Navigation.PopToPage | script.js:216-218 | moving to a page entry makes it current, keeps every entry, and shows what `navigateTo(page, false)` shows |
| Navigation.PopWithoutState | script.js:217-218 | moving to an entry without state shows the page named by that entry's URL and keeps every entry |
| Navigation.PopToPostPushes | script.js:212-214 | moving to an article entry re-runs `openPost`, which pushes: the entries after the one moved to are dropped and a copy of it becomes the last, current entry |
| Navigation.BackAfterNavigate | script.js:211-220 | the back button after a pushing navigation returns to the page shown before it, with the pushed entry still ahead |
| Navigation.PushAfterBackDropsForward | script.js:82 | a pushing navigation, the back button, then another pushing navigation leave the entries up to the start followed by the last page alone: the entry that was ahead is gone |
| Navigation.PageEntryRoundTrip | script.js:211-220 | moving back to the entry a pushing navigation recorded, from any later state, shows the same page and link and only moves the cursor |
| Navigation.PostEntryRoundTrip | script.js:212-214 | moving back to the entry `openPost` recorded, from any later state, shows the same page, link and article |
| Navigation.LegacyPostLinkMatchesPath | script.js:242-262 | for a non-empty URL-safe slug (lower-case letters, digits and `-` only), `?route=posts&slug=<s>` ends in exactly the state that loading `/posts/<s>` does |
| Navigation.PostSlugOfPostUrl | script.js:257-258 | round trip for a non-empty URL-safe slug (lower-case letters, digits and `-` only): the slug read back from its article URL is that slug |
| Navigation.LocalSlugsUrlSafe | posts.js:11-104 | every slug of LOCAL_POSTS is non-empty and URL-safe, so both equivalences above cover every post of the store |
| Navigation.LegacyPageLinkMatchesPath | script.js:249-267 | `?route=<page>` ends in exactly the state that loading the page's clean URL does; an unknown route ends as `/` does |
| Navigation.DeepLinkLeavesDuplicateEntry | script.js:242-246 | a legacy deep link to a known post leaves two identical article entries: the replaced one and the one `openPost` pushes |
| Navigation.DeepLinkToUnknownPost | script.js:242-246 | a legacy deep link to an unknown post leaves its article entry behind a pushed posts-page entry and shows the posts page |
| Navigation.PlainPathLoad | script.js:264-267 | a plain path replaces the load's entry with the page it names, creates no other entry and marks that page |
| Router.Router.constructor | script.js:235-236 | the document as loaded: one history entry without state, nothing marked, the static list and a blank article |
| Router.Router.NavigateTo | script.js:56-89 | ends in exactly the state `Navigation.Navigate` gives, keeping the router's invariant |
| Router.Router.RenderPostsList | script.js:95-158 | the container ends in the rendered list of the store, never at the loading placeholder; without a container nothing changes |
| Router.Router.OpenPost | script.js:172-206 | ends in exactly the state `Navigation.OpenPost` gives |
| Router.Router.HandlePopState | script.js:211-220 | moves the cursor to the entry chosen and ends in exactly the state `Navigation.PopState` gives |
| Router.Router.Back | script.js:211-220 | the browser's back button: `popstate` on the previous entry |
| Router.Router.Forward | script.js:211-220 | the browser's forward button: `popstate` on the next entry |
| Router.Router.InitialLoad | script.js:235-268 | ends in exactly the state `Navigation.InitialLoad` gives |
| Router.Router.ClickNavLink | script.js:23-28 | a nav-link click is `navigateTo(page, true)` |
| Router.Router.ClickPostLink | script.js:35-41 | a click on a post link is `openPost(slug)` |
| Router.Router.ClickBackButton | script.js:45-47 | the back button is `navigateTo('posts', true)` |

## Left out

- DOM plumbing is not modelled.
  - Elements are looked up by id or `data-page` only through the `Document` value (which pages, nav links and list container exist).
  - Event wiring, `preventDefault` and `closest` are reduced to the click methods of `Router`.
- The forced reflow that restarts the CSS animation, and `window.scrollTo`, have no observable effect on the modelled state and are left out.
- Markup is not produced. The list and the article are structured values (`ListView`, `ArticleView`), so HTML escaping and string joining are not modelled.
- Asynchrony is not modelled. `getPosts`, `getPost` and `renderPostsList` are awaited or run to completion at once, so the loading placeholder is never observed in a final state, and interleavings of overlapping handlers are not covered.
- The network version of the service layer (the fetch-based replacement that posts.js describes in a comment) is not modelled, nor is a listing that returns a non-array.
- Copying the e-mail address (the code after script.js:270) is not part of this model.
- `location.pathname` and the `route` and `slug` query parameters are parameters. An absent parameter is `""`, which the source treats the same way, since both are falsy.
- URL percent-encoding and decoding are not modelled. Paths and query values are taken as the same text. In the browser, `URLSearchParams` decodes `%xx` and turns `+` into a space, `location.pathname` stays encoded, and `pushState`/`replaceState` encode the URL given. So a slug such as `a b` ends differently through `?route=posts&slug=a+b` and through `/posts/a%20b`. `Navigation.LegacyPostLinkMatchesPath` and `Navigation.PostSlugOfPostUrl` are therefore stated only for URL-safe slugs, which every slug of LOCAL_POSTS is.
- PostsList.YearKey: counts characters, while `slice(0, 4)` counts UTF-16 code units. They differ only for dates with characters outside the Basic Multilingual Plane.
- Post records are modelled with every field present. A missing `date` or `summary` is `""`, which matches the source's truthiness tests. A missing `title` or `content`, which the source interpolates as the text `undefined`, is not modelled.
- States pushed by code other than these handlers are not modelled. `HistState` holds only the three shapes this code creates.
- Router.Router.constructor requires a `WellFormed` document. Excluded are documents without the article page (where `openPost` throws), with a nav link to it, or with a list container outside a posts page (which `renderPostsList` looks up inside `#posts`). The `article-content` element and the back button are assumed to exist; without them the source throws.
- Navigation.OpenPost: uses the corrected `getPost`. As written, `openPost('constructor')` gets the inherited `Object` function, which is truthy. It then shows an article with date label `""`, title `undefined` and body `undefined`, and pushes `{post, constructor}`; the model goes to the posts page instead (`Navigation.OpenInheritedNameGoesToPosts`).
- The back button on the first entry leaves the site, and a move to an entry of another document reloads it; `Router.Router.Back` and `Router.Router.HandlePopState` cover only moves between this page's own entries.
- Text.ParseIntPrefix: does not model leading whitespace or a sign, which `parseInt` accepts, because the dates it is given never carry them. The value is the leading decimal digits, with NaN as `None`.
- PostsList.Before: `b - a` converts keys with JavaScript's ToNumber. Only digit strings are read as numbers here. Signed keys (`"+202"`, `"-202"`) and blank keys (`" "`, `"    "`, read as 0) are numbers to ToNumber but NaN here. Four-character keys that ToNumber also accepts are treated as NaN: whitespace-padded (`" 202"`), hexadecimal (`"0x1F"`), binary (`"0b11"`), octal (`"0o17"`), exponent (`"1e3"`) or decimal (`"12.5"`).
- PostsList.SortYearsDesc: stands for the engine's `Array.prototype.sort` as a stable insertion sort. Where the comparator is consistent (all keys numeric, or none), the result is the one the language requires. With numeric and non-numeric keys mixed, the comparator is inconsistent and the engine's order is implementation-defined; the model gives one such order.
- PostsList.YearKeys: takes `Object.keys` in insertion order. Real engines list integer-like keys (such as `"2026"`) first, in ascending order. This changes nothing when every key is numeric and no two keys have the same value (always so for distinct four-digit keys), because the sort then has one outcome. Numeric keys of equal value but different text, such as `"0"` and `"00"`, compare equal, so the stable sort keeps the engine's key order: the integer-like `"0"` first, where the model keeps first-seen order. Apart from such ties it matters only in the mixed case above.
- Posts.Records: the article bodies are `""` and each excerpt is cut to its opening words. No proved property depends on their text, only on an excerpt being present.

## Findings

| source | as written | input that shows it | evidently intended | confidence | as-written member | corrected member |
|---|---|---|---|---|---|---|
| posts.js:129 | `getPost` returns `LOCAL_POSTS[slug] ?? null`, a plain property lookup that also finds names inherited from Object.prototype | slug `constructor` (for example from `/posts/constructor`) returns the `Object` function, not null, so `openPost` shows an article titled `undefined` instead of going to the posts page | `null` for every slug that is not one of the store's own keys | high (not executed) | Posts.GetPostAsWritten, Posts.InheritedSlugIsNotNull | Posts.GetPost, Posts.GetPostCorrectsInherited |
| script.js:15 | `import { getPosts, getPost } from './posts.js'`, but posts.js exports `getAllPosts` and `getPost` | loading the page: module linking fails on the missing export `getPosts`, so no handler of script.js is ever installed | import the exported listing `getAllPosts` (the model's `ListPosts`) | high (not executed) | Posts.ScriptImportUnresolved | Posts.CorrectedImportResolves |

Three more behaviours are modelled as written and stated as lemmas. They may be unintended, but they are not bugs in the code itself.

- The store's dates are month names (`January 2025`), so `formatDate` shows `undefined January 2025` (`DateFormat.FormatLocalDateExample`).
- The year keys are then `Janu`, `Dece`, and so on. The years sort as NaN, and the sections keep declaration order (`PostsList.LocalListInDeclarationOrder`).
- The renderer reads `summary` while the records carry `excerpt`, so no excerpt is ever shown (`PostsList.LocalListShowsNoExcerpt`).
