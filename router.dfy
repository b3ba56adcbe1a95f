/** The navigation engine of script.js as an object whose fields are the
    page state the handlers change in place: the `active` class on pages and
    nav links, the session history, and the contents of the posts-list and
    article containers. Each handler is proved to end in the state the
    matching function of `Navigation` gives. */
module Router {

  import opened Posts
  import opened Pages
  import opened DateFormat
  import opened PostsList
  import opened Navigation

  class Router {
    /** The post store the handlers read (`getPosts` / `getPost`). */
    const store: Store
    /** The page markup's elements. */
    const doc: Document

    var activePages: set<PageId>
    var activeLinks: set<PageId>
    var history: History
    var listView: ListView
    var article: ArticleView

    ghost predicate Valid()
      reads this
    {
      && Posts.Valid(store)
      && WellFormed(doc)
      && history.Valid()
      && activePages <= doc.pages
      && activeLinks <= doc.links
    }

    /** The whole observable state. */
    ghost function State(): View
      reads this
    {
      View(activePages, activeLinks, history, listView, article)
    }

    /** The document as loaded from `pathname`: one history entry without state, nothing marked yet. */
    constructor (store: Store, doc: Document, pathname: string)
      requires Posts.Valid(store) && WellFormed(doc)
      ensures Valid()
      ensures this.store == store && this.doc == doc
      ensures State() == View({}, {}, History([Entry(NoState, pathname)], 0), Static, Blank)
    {
      this.store := store;
      this.doc := doc;
      activePages, activeLinks := {}, {};
      history := History([Entry(NoState, pathname)], 0);
      listView, article := Static, Blank;
    }

    /** `navigateTo(target, pushState)`. */
    method NavigateTo(target: string, push: bool)
      requires Valid()
      modifies this
      ensures Valid()
      ensures State() == Navigate(store, doc, old(State()), target, push)
    {
      ghost var before := State();
      var page := Resolve(target);
      activePages := {};
      activeLinks := {};
      if page in doc.pages {
        activePages := activePages + {page};
      }
      if page in doc.links {
        activeLinks := activeLinks + {page};
      }
      if push {
        history := history.Push(Entry(PageState(page), UrlOf(page)));
      }
      assert activePages == Marked(page, doc.pages) && activeLinks == Marked(page, doc.links);
      if page == Posts {
        RenderPostsList();
      }
      assert listView == Navigate(store, doc, before, target, push).list;
    }

    /** `renderPostsList()`: loading placeholder, then the empty-state message
        or the year sections, replacing the container's contents. */
    method RenderPostsList()
      requires Valid()
      modifies this`listView
      ensures Valid()
      ensures listView == ListAfterRender(store, doc, old(listView))
      ensures doc.hasListContainer ==> listView != Loading
    {
      if !doc.hasListContainer {
        return;
      }
      listView := Loading;
      var posts := ListPosts(store);
      if |posts| == 0 {
        listView := Empty;
        return;
      }
      var byYear, keys := GroupByYear(posts);
      var years := SortYearsDesc(keys);
      SortedYearsAreGrouped(posts, byYear, years);
      SectionsFromGroups(posts, byYear, years);
      listView := Listed(BuildSections(years, byYear));
    }

    /** `openPost(slug)`. */
    method OpenPost(slug: string)
      requires Valid()
      modifies this
      ensures Valid()
      ensures State() == Navigation.OpenPost(store, doc, old(State()), slug)
    {
      var post := GetPost(store, slug);
      if post.None? {
        NavigateTo("posts", true);
        return;
      }
      activePages := {};
      activeLinks := {};
      article := Shown(FormatDate(post.value.date), post.value.title, post.value.content);
      activePages := activePages + {Article};
      if Posts in doc.links {
        activeLinks := activeLinks + {Posts};
      }
      history := history.Push(Entry(PostState(slug), PostUrl(slug)));
    }

    /** The browser moves to entry `i` of the session history, then runs the
        `popstate` listener, which reads that entry's state object and URL. */
    method HandlePopState(i: nat)
      requires Valid() && i < |history.entries| && i != history.cursor
      modifies this
      ensures Valid()
      ensures State() == PopState(store, doc, old(State()), i)
    {
      history := history.Go(i);
      var entry := history.Current();
      if entry.state.PostState? {
        OpenPost(entry.state.slug);
      } else {
        var target := if entry.state.PageState? then Name(entry.state.page) else Name(PageFromPath(entry.url));
        NavigateTo(target, false);
      }
    }

    /** The browser's back button, on any entry but the first. */
    method Back()
      requires Valid() && history.cursor > 0
      modifies this
      ensures Valid()
      ensures State() == PopState(store, doc, old(State()), old(history.cursor) - 1)
    {
      HandlePopState(history.cursor - 1);
    }

    /** The browser's forward button, on any entry but the last. */
    method Forward()
      requires Valid() && history.cursor + 1 < |history.entries|
      modifies this
      ensures Valid()
      ensures State() == PopState(store, doc, old(State()), old(history.cursor) + 1)
    {
      HandlePopState(history.cursor + 1);
    }

    /** The start-up code: resolve the address the page was loaded with.
        `route` and `slug` are the query parameters, `""` when absent. */
    method InitialLoad(pathname: string, route: string, slug: string)
      requires Valid()
      modifies this
      ensures Valid()
      ensures State() == Navigation.InitialLoad(store, doc, old(State()), pathname, route, slug)
    {
      if route == "posts" && slug != "" {
        history := history.Replace(Entry(PostState(slug), PostUrl(slug)));
        OpenPost(slug);
        return;
      }
      if route != "" {
        var target := ParsePage(route).GetOr(Home);
        history := history.Replace(Entry(PageState(target), UrlOf(target)));
        NavigateTo(Name(target), false);
        return;
      }
      var postSlug := PostSlugOfPath(pathname);
      if postSlug.Some? {
        history := history.Replace(Entry(PostState(postSlug.value), pathname));
        OpenPost(postSlug.value);
        return;
      }
      var target := PageFromPath(pathname);
      history := history.Replace(Entry(PageState(target), pathname));
      NavigateTo(Name(target), false);
    }

    /** A click on a nav link: `navigateTo(link.dataset.page, true)`. */
    method ClickNavLink(page: string)
      requires Valid()
      modifies this
      ensures Valid()
      ensures State() == Navigate(store, doc, old(State()), page, true)
    {
      NavigateTo(page, true);
    }

    /** A click on a post link (any element with `data-slug`): `openPost(slug)`. */
    method ClickPostLink(slug: string)
      requires Valid()
      modifies this
      ensures Valid()
      ensures State() == Navigation.OpenPost(store, doc, old(State()), slug)
    {
      OpenPost(slug);
    }

    /** A click on the article's back button: `navigateTo('posts', true)`. */
    method ClickBackButton()
      requires Valid()
      modifies this
      ensures Valid()
      ensures State() == Navigate(store, doc, old(State()), "posts", true)
    {
      NavigateTo("posts", true);
    }
  }
}
