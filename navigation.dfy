/** The state the navigation engine of script.js works on, and what each of
    its handlers does to that state, as functions. The `Router` class runs the
    handlers step by step and is proved to end in the state given here; the
    lemmas below state the properties of the engine on these functions. */
module Navigation {

  import opened Wrappers
  import opened Text
  import opened Posts
  import opened Pages
  import opened DateFormat
  import opened PostsList

  /** The state object stored with a history entry: none (the page load's own
      entry), `{page}` or `{page: 'post', slug}`. */
  datatype HistState = NoState | PageState(page: NavPage) | PostState(slug: string)

  datatype Entry = Entry(state: HistState, url: string)

  /** The session history: its entries and the index of the current one. */
  datatype History = History(entries: seq<Entry>, cursor: nat) {

    ghost predicate Valid() {
      cursor < |entries|
    }

    function Current(): Entry
      requires Valid()
    {
      entries[cursor]
    }

    /** `history.pushState`: drop the entries after the current one, add `e` and make it current. */
    function Push(e: Entry): (h: History)
      requires Valid()
      ensures h.Valid() && h.cursor == cursor + 1 && |h.entries| == cursor + 2
      ensures h.Current() == e && h.entries[..cursor + 1] == entries[..cursor + 1]
    {
      History(entries[..cursor + 1] + [e], cursor + 1)
    }

    /** A move back or forward by the browser (its back and forward buttons,
        `history.go`): the entries stay, entry `i` becomes the current one. */
    function Go(i: nat): (h: History)
      requires Valid() && i < |entries|
      ensures h.Valid() && h.entries == entries && h.cursor == i
    {
      History(entries, i)
    }

    /** `history.replaceState`: overwrite the current entry. */
    function Replace(e: Entry): (h: History)
      requires Valid()
      ensures h.Valid() && h.cursor == cursor && |h.entries| == |entries|
      ensures h.Current() == e
      ensures forall i :: 0 <= i < |entries| && i != cursor ==> h.entries[i] == entries[i]
    {
      History(entries[cursor := e], cursor)
    }
  }

  /** The article container: what the page markup holds, or a rendered post (its date label, title and body). */
  datatype ArticleView = Blank | Shown(dateLabel: string, title: string, body: string)

  /** The elements of the page markup the engine looks up: the page containers
      (by id), the nav links (by `data-page`) and whether the posts page holds
      the list container. */
  datatype Document = Document(pages: set<PageId>, links: set<PageId>, hasListContainer: bool)

  /** The article page exists (the source uses it without a check), no nav
      link points at it, and the list container, looked up inside the posts
      page, exists only when that page does. */
  ghost predicate WellFormed(doc: Document) {
    && Article in doc.pages && Article !in doc.links
    && (doc.hasListContainer ==> Posts in doc.pages)
  }

  /** Everything the handlers change: the pages and nav links marked active,
      the session history, the posts-list container and the article container. */
  datatype View = View(activePages: set<PageId>, activeLinks: set<PageId>, history: History, list: ListView, article: ArticleView)

  /** `p` marked active, if its element exists. */
  function Marked(p: PageId, present: set<PageId>): (s: set<PageId>)
    ensures s <= {p} && (p in present <==> s == {p})
  {
    if p in present then {p} else {}
  }

  /** The URL pushed for an article. */
  function PostUrl(slug: string): (url: string)
    ensures |url| == |slug| + 7 && url[..7] == "/posts/" && url[7..] == slug
  {
    "/posts/" + slug
  }

  /** The list container after `renderPostsList` has run to completion. */
  function ListAfterRender(store: Store, doc: Document, list: ListView): (after: ListView)
    requires Posts.Valid(store)
    ensures doc.hasListContainer ==> after != Loading && (after == Empty <==> |store.order| == 0)
    ensures !doc.hasListContainer ==> after == list
  {
    if doc.hasListContainer then Render(ListPosts(store)) else list
  }

  /** `navigateTo(target, push)`. */
  function Navigate(store: Store, doc: Document, v: View, target: string, push: bool): (w: View)
    requires Posts.Valid(store) && v.history.Valid()
    ensures w.history.Valid()
  {
    var p := Resolve(target);
    View(Marked(p, doc.pages), Marked(p, doc.links),
      if push then v.history.Push(Entry(PageState(p), UrlOf(p))) else v.history,
      if p == Posts then ListAfterRender(store, doc, v.list) else v.list,
      v.article)
  }

  /** `openPost(slug)`: an unknown slug goes to the posts page; a known one
      shows the article under the `posts` link and pushes its URL. */
  function OpenPost(store: Store, doc: Document, v: View, slug: string): (w: View)
    requires Posts.Valid(store) && v.history.Valid()
    ensures w.history.Valid()
  {
    match GetPost(store, slug)
    case None => Navigate(store, doc, v, "posts", true)
    case Some(post) =>
      View(Marked(Article, doc.pages), Marked(Posts, doc.links),
        v.history.Push(Entry(PostState(slug), PostUrl(slug))),
        v.list,
        Shown(FormatDate(post.date), post.title, post.content))
  }

  /** The browser moves to entry `i` of the session history and fires `popstate`
      (it fires only on a move to another entry). The handler reads the state
      object of that entry, and `location.pathname` is then that entry's URL. */
  function PopState(store: Store, doc: Document, v: View, i: nat): (w: View)
    requires Posts.Valid(store) && v.history.Valid()
    requires i < |v.history.entries| && i != v.history.cursor
    ensures w.history.Valid()
  {
    var moved := v.(history := v.history.Go(i));
    var entry := moved.history.Current();
    match entry.state
    case PostState(slug) => OpenPost(store, doc, moved, slug)
    case PageState(p) => Navigate(store, doc, moved, Name(p), false)
    case NoState => Navigate(store, doc, moved, Name(PageFromPath(entry.url)), false)
  }

  /** The slug of a `/posts/<slug>` path, if the path has that form. */
  function PostSlugOfPath(pathname: string): (r: Option<string>)
    ensures r.Some? ==> r.value != "" && '/' !in r.value
    ensures PathParts(pathname)[0] != "posts" ==> r == None
  {
    var parts := PathParts(pathname);
    if parts[0] == "posts" && |parts| > 1 && parts[1] != "" then Some(parts[1]) else None
  }

  /** The start-up resolution of the address: `route` and `slug` are the query
      parameters, `""` when absent. */
  function InitialLoad(store: Store, doc: Document, v: View, pathname: string, route: string, slug: string): (w: View)
    requires Posts.Valid(store) && v.history.Valid()
    ensures w.history.Valid()
  {
    if route == "posts" && slug != "" then
      OpenPost(store, doc, v.(history := v.history.Replace(Entry(PostState(slug), PostUrl(slug)))), slug)
    else if route != "" then
      var p := ParsePage(route).GetOr(Home);
      Navigate(store, doc, v.(history := v.history.Replace(Entry(PageState(p), UrlOf(p)))), Name(p), false)
    else if PostSlugOfPath(pathname).Some? then
      var s := PostSlugOfPath(pathname).value;
      OpenPost(store, doc, v.(history := v.history.Replace(Entry(PostState(s), pathname))), s)
    else
      var p := PageFromPath(pathname);
      Navigate(store, doc, v.(history := v.history.Replace(Entry(PageState(p), pathname))), Name(p), false)
  }

  // ---------------------------------------------------------------------
  // navigateTo

  /** A missing or unknown target is exactly a navigation to `home`. */
  lemma {:induction false} NavigateInvalidIsHome(store: Store, doc: Document, v: View, target: string, push: bool)
    requires Posts.Valid(store) && v.history.Valid()
    requires forall q: NavPage :: Name(q) != target
    ensures Navigate(store, doc, v, target, push) == Navigate(store, doc, v, "home", push)
  {
    ResolveName(Home);
  }

  /** After a navigation exactly the target page and its link are active; the
      article page never is. */
  lemma {:induction false} NavigateMarksOnlyTarget(store: Store, doc: Document, v: View, p: NavPage, push: bool)
    requires Posts.Valid(store) && v.history.Valid()
    requires p in doc.pages && p in doc.links
    ensures Navigate(store, doc, v, Name(p), push).activePages == {p}
    ensures Navigate(store, doc, v, Name(p), push).activeLinks == {p}
    ensures Article !in Navigate(store, doc, v, Name(p), push).activePages
  {
    ResolveName(p);
  }

  /** A pushing navigation adds exactly one entry `{page}` with the clean URL
      of the page after the current one; a non-pushing one leaves the history alone. */
  lemma {:induction false} NavigateHistory(store: Store, doc: Document, v: View, p: NavPage, push: bool)
    requires Posts.Valid(store) && v.history.Valid()
    ensures var h := Navigate(store, doc, v, Name(p), push).history;
      if push then
        && h.cursor == v.history.cursor + 1 && |h.entries| == h.cursor + 1
        && h.entries[..h.cursor] == v.history.entries[..h.cursor]
        && h.Current().state == PageState(p)
        && (h.Current().url == "/" <==> p == Home)
        && (p != Home ==> h.Current().url == "/" + Name(p))
      else h == v.history
  {
    ResolveName(p);
  }

  /** Entering the posts page renders the list anew (never left loading); other pages keep it. */
  lemma {:induction false} NavigateRendersList(store: Store, doc: Document, v: View, target: string, push: bool)
    requires Posts.Valid(store) && v.history.Valid() && doc.hasListContainer
    ensures var w := Navigate(store, doc, v, target, push);
      && (Resolve(target) == Posts ==> w.list == Render(ListPosts(store)) && w.list != Loading)
      && (Resolve(target) != Posts ==> w.list == v.list)
      && (Resolve(target) == Posts ==> (w.list == Empty <==> |store.order| == 0))
  {
  }

  // ---------------------------------------------------------------------
  // openPost

  /** Opening an unknown slug is indistinguishable from `navigateTo('posts', true)`. */
  lemma {:induction false} OpenUnknownPost(store: Store, doc: Document, v: View, slug: string)
    requires Posts.Valid(store) && v.history.Valid()
    requires slug !in store.table
    ensures OpenPost(store, doc, v, slug) == Navigate(store, doc, v, "posts", true)
    ensures OpenPost(store, doc, v, slug).activePages == Marked(Posts, doc.pages)
    ensures OpenPost(store, doc, v, slug).history.Current() == Entry(PageState(Posts), "/posts")
  {
    ResolveName(Posts);
  }

  /** Opening a known slug shows only the article page, keeps only the `posts`
      link active, shows that post and pushes exactly one entry for it. */
  lemma {:induction false} OpenKnownPost(store: Store, doc: Document, v: View, slug: string)
    requires Posts.Valid(store) && v.history.Valid() && WellFormed(doc) && Posts in doc.links
    requires slug in store.table
    ensures var w := OpenPost(store, doc, v, slug);
      && w.activePages == {Article}
      && w.activeLinks == {Posts}
      && w.article == Shown(FormatDate(store.table[slug].date), store.table[slug].title, store.table[slug].content)
      && w.list == v.list
      && w.history.cursor == v.history.cursor + 1 && |w.history.entries| == w.history.cursor + 1
      && w.history.entries[..w.history.cursor] == v.history.entries[..w.history.cursor]
      && w.history.Current() == Entry(PostState(slug), "/posts/" + slug)
  {
  }

  /** The engine looks posts up with the corrected `getPost`: a slug that only
      names an inherited property, such as `constructor`, counts as unknown and
      leads to the posts page. */
  lemma OpenInheritedNameGoesToPosts(doc: Document, v: View, slug: string)
    requires v.history.Valid() && slug == "constructor"
    ensures Posts.Valid(Local)
    ensures GetPostAsWritten(Local, slug).Inherited?
    ensures OpenPost(Local, doc, v, slug) == Navigate(Local, doc, v, "posts", true)
  {
    LocalIsValid();
    InheritedSlugIsNotNull();
  }

  // ---------------------------------------------------------------------
  // popstate

  /** Going back or forward to a page entry moves the cursor there, keeps every
      entry and shows what `navigateTo(page, false)` shows. */
  lemma {:induction false} PopToPage(store: Store, doc: Document, v: View, i: nat, p: NavPage)
    requires Posts.Valid(store) && v.history.Valid()
    requires i < |v.history.entries| && i != v.history.cursor
    requires v.history.entries[i].state == PageState(p)
    ensures var w := PopState(store, doc, v, i);
      && w == Navigate(store, doc, v.(history := v.history.Go(i)), Name(p), false)
      && w.history.entries == v.history.entries && w.history.cursor == i
      && w.activePages == Marked(p, doc.pages) && w.activeLinks == Marked(p, doc.links)
  {
    ResolveName(p);
  }

  /** An entry without state falls back to the page its own URL names. */
  lemma {:induction false} PopWithoutState(store: Store, doc: Document, v: View, i: nat)
    requires Posts.Valid(store) && v.history.Valid()
    requires i < |v.history.entries| && i != v.history.cursor
    requires v.history.entries[i].state == NoState
    ensures var w := PopState(store, doc, v, i);
      var p := PageFromPath(v.history.entries[i].url);
      && w.history.entries == v.history.entries && w.history.cursor == i
      && w.activePages == Marked(p, doc.pages) && w.activeLinks == Marked(p, doc.links)
  {
    ResolveName(PageFromPath(v.history.entries[i].url));
  }

  /** Going back or forward to an article entry re-runs `openPost`, which
      pushes: the entries after the one moved to are dropped and a copy of it
      becomes the new last entry. */
  lemma {:induction false} PopToPostPushes(store: Store, doc: Document, v: View, i: nat, slug: string)
    requires Posts.Valid(store) && v.history.Valid()
    requires i < |v.history.entries| && i != v.history.cursor
    requires v.history.entries[i].state == PostState(slug) && slug in store.table
    ensures var h := PopState(store, doc, v, i).history;
      && h.cursor == i + 1 && |h.entries| == i + 2
      && h.entries[..i + 1] == v.history.entries[..i + 1]
      && h.Current() == Entry(PostState(slug), PostUrl(slug))
  {
  }

  /** The back button after a pushing navigation returns to the page shown
      before it and keeps the pushed entry ahead, for the forward button. */
  lemma {:induction false} BackAfterNavigate(store: Store, doc: Document, v: View, target: string, p: NavPage)
    requires Posts.Valid(store) && v.history.Valid()
    requires v.history.Current().state == PageState(p)
    ensures var w := Navigate(store, doc, v, target, true);
      var back := PopState(store, doc, w, v.history.cursor);
      && back.history.entries == w.history.entries
      && back.history.cursor == v.history.cursor
      && back.activePages == Marked(p, doc.pages) && back.activeLinks == Marked(p, doc.links)
  {
    ResolveName(p);
  }

  /** Navigating after going back discards the entry that was ahead: a
      pushing navigation to `a`, the back button, then a pushing navigation to
      `b` leave the entries up to the starting one followed by `b`'s alone. */
  lemma {:induction false} PushAfterBackDropsForward(store: Store, doc: Document, v: View, a: NavPage, b: NavPage)
    requires Posts.Valid(store) && v.history.Valid()
    requires !v.history.Current().state.PostState?
    ensures var w1 := Navigate(store, doc, v, Name(a), true);
      var w2 := PopState(store, doc, w1, v.history.cursor);
      var w3 := Navigate(store, doc, w2, Name(b), true);
      && w3.history.entries == v.history.entries[..v.history.cursor + 1] + [Entry(PageState(b), UrlOf(b))]
      && w3.history.cursor == v.history.cursor + 1
  {
    ResolveName(a);
    ResolveName(b);
    var c := v.history.cursor;
    var w1 := Navigate(store, doc, v, Name(a), true);
    assert w1.history.entries[..c + 1] == v.history.entries[..c + 1];
    assert w1.history.entries[c] == v.history.entries[c];
    var w2 := PopState(store, doc, w1, c);
    assert w2.history == w1.history.Go(c);
    assert w2.history.entries[..c + 1] == v.history.entries[..c + 1];
  }

  /** Round trip: the entry a pushing navigation records, moved back to later
      from any state, shows the same pages and links and adds no entry. */
  lemma {:induction false} PageEntryRoundTrip(store: Store, doc: Document, v: View, later: View, target: string, i: nat)
    requires Posts.Valid(store) && v.history.Valid() && later.history.Valid()
    requires i < |later.history.entries| && i != later.history.cursor
    requires later.history.entries[i] == Navigate(store, doc, v, target, true).history.Current()
    ensures var w := Navigate(store, doc, v, target, true);
      var back := PopState(store, doc, later, i);
      && back.activePages == w.activePages
      && back.activeLinks == w.activeLinks
      && back.history == later.history.Go(i)
  {
    ResolveName(Resolve(target));
  }

  /** Round trip: moving later to the entry `openPost` recorded shows the same
      article page, link and content as the original opening. */
  lemma {:induction false} PostEntryRoundTrip(store: Store, doc: Document, v: View, later: View, slug: string, i: nat)
    requires Posts.Valid(store) && v.history.Valid() && later.history.Valid()
    requires slug in store.table
    requires i < |later.history.entries| && i != later.history.cursor
    requires later.history.entries[i] == OpenPost(store, doc, v, slug).history.Current()
    ensures var w := OpenPost(store, doc, v, slug);
      var back := PopState(store, doc, later, i);
      && back.activePages == w.activePages
      && back.activeLinks == w.activeLinks
      && back.article == w.article
  {
  }

  // ---------------------------------------------------------------------
  // Initial load

  /** A slug the browser and `URLSearchParams` pass through unchanged: lower-case
      letters, digits and `-`, like every slug of LOCAL_POSTS. Any other character
      is percent-encoded in a pushed URL, or decoded from a query value, which
      this model does not do. */
  predicate UrlSafe(slug: string) {
    forall k :: 0 <= k < |slug| ==> 'a' <= slug[k] <= 'z' || '0' <= slug[k] <= '9' || slug[k] == '-'
  }

  /** Every slug of LOCAL_POSTS is URL-safe, so the equivalences below cover all of the store's posts. */
  lemma LocalSlugsUrlSafe(i: nat)
    requires i < |Slugs|
    ensures Slugs[i] != "" && UrlSafe(Slugs[i])
  {
    if i == 0 {} else if i == 1 {} else if i == 2 {} else if i == 3 {} else if i == 4 {} else if i == 5 {} else {}
  }

  /** A URL-safe slug has no `/`, so it is one path segment. */
  lemma UrlSafeHasNoSlash(slug: string)
    requires UrlSafe(slug)
    ensures '/' !in slug
  {
    forall k | 0 <= k < |slug| ensures slug[k] != '/' {
      assert 'a' <= slug[k] <= 'z' || '0' <= slug[k] <= '9' || slug[k] == '-';
    }
  }

  /** `?route=posts&slug=<s>` ends in exactly the state that loading `/posts/<s>` does. */
  lemma {:induction false} LegacyPostLinkMatchesPath(store: Store, doc: Document, v: View, pathname: string, slug: string)
    requires Posts.Valid(store) && v.history.Valid()
    requires slug != "" && UrlSafe(slug)
    ensures InitialLoad(store, doc, v, pathname, "posts", slug) == InitialLoad(store, doc, v, PostUrl(slug), "", "")
  {
    PostSlugOfPostUrl(slug);
  }

  /** The segments of `/posts/<x>` are `posts` followed by the segments of `x`. */
  lemma {:induction false} PostsPathParts(x: string)
    ensures PathParts("/posts/" + x) == ["posts"] + Split(x, '/')
  {
    assert StripSlash("/posts/" + x) == "posts" + ['/'] + x;
    assert '/' !in "posts";
    SplitAtFirst("posts", '/', x);
  }

  /** The second segment of `/posts/<seg>` is the slug; an empty second segment,
      or none at all, gives no slug. */
  lemma {:induction false} PostSlugOfPostsPath(seg: string)
    requires '/' !in seg
    ensures PostSlugOfPath("/posts") == None
    ensures PostSlugOfPath("/posts/" + seg) == (if seg == "" then None else Some(seg))
  {
    assert StripSlash("/posts") == "posts";
    assert '/' !in "posts";
    SplitNoSeparator("posts", '/');
    PostsPathParts(seg);
    SplitNoSeparator(seg, '/');
  }

  /** Whatever follows the second segment does not change the slug. */
  lemma {:induction false} PostSlugIgnoresRest(seg: string, rest: string)
    requires '/' !in seg
    ensures PostSlugOfPath("/posts/" + seg + "/" + rest) == PostSlugOfPath("/posts/" + seg)
  {
    PostsPathParts(seg);
    SplitNoSeparator(seg, '/');
    assert "/posts/" + seg + "/" + rest == "/posts/" + (seg + ['/'] + rest);
    PostsPathParts(seg + ['/'] + rest);
    SplitAtFirst(seg, '/', rest);
  }

  lemma {:induction false} PostSlugOfPostUrl(slug: string)
    requires slug != "" && UrlSafe(slug)
    ensures PostSlugOfPath(PostUrl(slug)) == Some(slug)
  {
    UrlSafeHasNoSlash(slug);
    assert StripSlash(PostUrl(slug)) == "posts" + ['/'] + slug;
    assert '/' !in "posts";
    SplitAtFirst("posts", '/', slug);
    SplitNoSeparator(slug, '/');
  }

  /** `?route=<page>` ends in exactly the state that loading the page's clean URL does,
      and an unknown route in the state that loading `/` does. */
  lemma {:induction false} LegacyPageLinkMatchesPath(store: Store, doc: Document, v: View, pathname: string, route: string, slug: string)
    requires Posts.Valid(store) && v.history.Valid()
    requires route != "" && !(route == "posts" && slug != "")
    ensures var p := ParsePage(route).GetOr(Home);
      InitialLoad(store, doc, v, pathname, route, slug) == InitialLoad(store, doc, v, UrlOf(p), "", "")
  {
    var p := ParsePage(route).GetOr(Home);
    PageFromUrl(p);
    if p == Home {
      assert PathParts("/") == [""] by { assert StripSlash("/") == ""; }
    } else {
      PageFromPathFirstSegment(Name(p), "");
    }
  }

  /** A known post opened by a deep link or a legacy link leaves two identical
      entries for it: the replaced one and the one `openPost` pushes on top. */
  lemma {:induction false} DeepLinkLeavesDuplicateEntry(store: Store, doc: Document, v: View, slug: string)
    requires Posts.Valid(store) && v.history.Valid()
    requires slug in store.table && slug != ""
    ensures var h := InitialLoad(store, doc, v, "/", "posts", slug).history;
      && h.cursor == v.history.cursor + 1
      && h.entries[h.cursor - 1] == h.entries[h.cursor] == Entry(PostState(slug), PostUrl(slug))
  {
  }

  /** A deep link to an unknown post is left as an article entry, with a posts-page entry pushed on top. */
  lemma {:induction false} DeepLinkToUnknownPost(store: Store, doc: Document, v: View, slug: string)
    requires Posts.Valid(store) && v.history.Valid()
    requires slug !in store.table && slug != ""
    ensures var w := InitialLoad(store, doc, v, "/", "posts", slug);
      && w.history.entries[w.history.cursor - 1] == Entry(PostState(slug), PostUrl(slug))
      && w.history.Current() == Entry(PageState(Posts), "/posts")
      && w.activePages == Marked(Posts, doc.pages)
  {
    ResolveName(Posts);
  }

  /** A plain path replaces the load's entry with the page it names and creates no other entry. */
  lemma {:induction false} PlainPathLoad(store: Store, doc: Document, v: View, pathname: string)
    requires Posts.Valid(store) && v.history.Valid()
    requires PostSlugOfPath(pathname).None?
    ensures var w := InitialLoad(store, doc, v, pathname, "", "");
      && w.history == v.history.Replace(Entry(PageState(PageFromPath(pathname)), pathname))
      && w.activePages == Marked(PageFromPath(pathname), doc.pages)
      && w.activeLinks == Marked(PageFromPath(pathname), doc.links)
  {
    ResolveName(PageFromPath(pathname));
  }
}
