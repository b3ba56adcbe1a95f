/** Page identifiers and the address rules of script.js: `VALID_PAGES`, the
    fallback to `home`, the page-to-URL rule and `pageFromPath`. */
module Pages {

  import opened Wrappers
  import opened Text

  /** The ids of the page elements: the four navigable pages and the article page `post`. */
  datatype PageId = Home | Projects | Posts | Videos | Article

  /** A page listed in `VALID_PAGES` (every page but the article page). */
  type NavPage = p: PageId | p != Article witness Home

  /** The element id of a page. */
  function Name(p: PageId): (name: string) {
    match p
    case Home => "home"
    case Projects => "projects"
    case Posts => "posts"
    case Videos => "videos"
    case Article => "post"
  }

  /** `VALID_PAGES.includes(s)`, giving the page it names. */
  function ParsePage(s: string): (r: Option<NavPage>)
    ensures r.Some? ==> Name(r.value) == s
    ensures r.None? ==> forall p: NavPage :: Name(p) != s
  {
    if s == "home" then Some(Home)
    else if s == "projects" then Some(Projects)
    else if s == "posts" then Some(Posts)
    else if s == "videos" then Some(Videos)
    else None
  }

  /** The target normalisation at the top of `navigateTo`: a missing (`""`) or
      unknown target becomes `home`. */
  function Resolve(target: string): (p: NavPage)
    ensures (exists q: NavPage :: Name(q) == target) ==> Name(p) == target
    ensures (forall q: NavPage :: Name(q) != target) ==> p == Home
  {
    if target == "" then Home else ParsePage(target).GetOr(Home)
  }

  /** Resolving a page's own name gives that page back. */
  lemma {:induction false} ResolveName(p: NavPage)
    ensures ParsePage(Name(p)) == Some(p) && Resolve(Name(p)) == p
  {
  }

  /** The clean URL of a page: `/` for home, `/<page>` otherwise. */
  function UrlOf(p: NavPage): (url: string)
    ensures url == "/" <==> p == Home
    ensures p != Home ==> url == "/" + Name(p)
  {
    if p == Home then "/" else "/" + Name(p)
  }

  /** `pathname.replace(/^\//, '')`: drop one leading slash. */
  function StripSlash(path: string): (r: string)
    ensures path == (if |path| > 0 && path[0] == '/' then "/" + r else r)
  {
    if |path| > 0 && path[0] == '/' then path[1..] else path
  }

  /** The pieces of a path after its leading slash (`parts` in the source). */
  function PathParts(path: string): (parts: seq<string>)
    ensures |parts| >= 1
  {
    Split(StripSlash(path), '/')
  }

  /** `pageFromPath`: the first path segment if it names a valid page, else `home`. */
  function PageFromPath(path: string): (p: NavPage)
    ensures Name(p) == PathParts(path)[0] || (p == Home && forall q: NavPage :: Name(q) != PathParts(path)[0])
  {
    ParsePage(PathParts(path)[0]).GetOr(Home)
  }

  /** The first path segment decides: `/<name>` and `/<name>/<more>` both give the page
      named, and any other first segment gives `home`. */
  lemma {:induction false} PageFromPathFirstSegment(seg: string, rest: string)
    requires '/' !in seg
    ensures PathParts("/" + seg) == [seg]
    ensures PathParts("/" + seg + "/" + rest)[0] == seg
    ensures PageFromPath("/" + seg) == PageFromPath("/" + seg + "/" + rest)
    ensures PageFromPath("/" + seg) == ParsePage(seg).GetOr(Home)
  {
    assert StripSlash("/" + seg) == seg;
    SplitNoSeparator(seg, '/');
    assert StripSlash("/" + seg + "/" + rest) == seg + ['/'] + rest;
    SplitAtFirst(seg, '/', rest);
  }

  /** Round trip: the page read back from a page's own URL is that page. */
  lemma {:induction false} PageFromUrl(p: NavPage)
    ensures PageFromPath(UrlOf(p)) == p
  {
    if p == Home {
      assert StripSlash("/") == "";
      assert Split("", '/') == [""];
    } else {
      PageFromPathFirstSegment(Name(p), "");
    }
  }

  /** The addresses of the source's comments: `/` is home. */
  lemma PageFromRootPath(path: string)
    requires path == "/"
    ensures PageFromPath(path) == Home
  {
    PageFromUrl(Home);
  }

  /** `/posts/x` is the posts page. */
  lemma PageFromPostPath(path: string)
    requires path == "/posts/x"
    ensures PageFromPath(path) == Posts
  {
    assert path == "/" + "posts" + "/" + "x";
    PageFromPathFirstSegment("posts", "x");
    assert PageFromPath(path) == PageFromPath("/" + "posts") == Posts by {
      PageFromUrl(Posts);
    }
  }

  /** `/foo` names no page and falls back to home; so does `/post`, the article page's id. */
  lemma PageFromUnknownPath(path: string, seg: string)
    requires (seg == "foo" || seg == "post") && path == "/" + seg
    ensures PageFromPath(path) == Home
  {
    assert '/' !in seg;
    PageFromPathFirstSegment(seg, "");
  }
}
