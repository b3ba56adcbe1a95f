/** The post store of posts.js: a constant slug-keyed table of post records
    and its two lookups, `getAllPosts` (here `ListPosts`) and `getPost`. */
module Posts {

  import opened Wrappers

  /** A post record, with every field present. A missing `date` or `summary`
      is written `""`: the source only tests those two for truthiness, and
      `undefined` is falsy like `""`. The records of this store carry `excerpt`;
      the list renderer reads `summary`, which none of them has. */
  datatype Post = Post(slug: string, title: string, date: string, excerpt: string, summary: string, content: string)

  /** A store: the table and its keys in declaration order (the order `Object.values` yields). */
  datatype Store = Store(table: map<string, Post>, order: seq<string>)

  /** Keys listed once each, exactly the table's keys. */
  ghost predicate Valid(store: Store) {
    && (forall i, j :: 0 <= i < j < |store.order| ==> store.order[i] != store.order[j])
    && (forall k :: k in store.table <==> k in store.order)
  }

  /** Every record is stored under its own slug. */
  ghost predicate KeyedBySlug(store: Store) {
    forall k :: k in store.table ==> store.table[k].slug == k
  }

  /** `getAllPosts`: one record per key, in declaration order. */
  function ListPosts(store: Store): (posts: seq<Post>)
    requires Valid(store)
    ensures |posts| == |store.order|
    ensures forall i :: 0 <= i < |posts| ==> posts[i] == store.table[store.order[i]]
  {
    seq(|store.order|, i requires 0 <= i < |store.order| => store.table[store.order[i]])
  }

  /** `getPost`, looking only at the table's own keys. */
  function GetPost(store: Store, slug: string): (r: Option<Post>)
    ensures r.None? <==> slug !in store.table
    ensures r.Some? ==> r.value == store.table[slug]
  {
    if slug in store.table then Some(store.table[slug]) else None
  }

  /** Every listed record is the record `getPost` returns for its slug, and the listing has no duplicates. */
  lemma {:induction false} ListedPostsAreLookedUp(store: Store)
    requires Valid(store) && KeyedBySlug(store)
    ensures forall p :: p in ListPosts(store) ==> GetPost(store, p.slug) == Some(p)
    ensures forall i, j :: 0 <= i < j < |ListPosts(store)| ==> ListPosts(store)[i] != ListPosts(store)[j]
  {
    var posts := ListPosts(store);
    forall p | p in posts ensures GetPost(store, p.slug) == Some(p) {
      var i :| 0 <= i < |posts| && posts[i] == p;
      assert store.order[i] in store.table;
    }
    forall i, j | 0 <= i < j < |posts| ensures posts[i] != posts[j] {
      assert posts[i].slug == store.order[i] && posts[j].slug == store.order[j];
    }
  }

  // ---------------------------------------------------------------------
  // `getPost` as written: `LOCAL_POSTS[slug] ?? null` is a property lookup on
  // an ordinary object, so names inherited from Object.prototype are found.

  /** Names every plain object inherits from Object.prototype. */
  const InheritedNames: set<string> := {
    "constructor", "hasOwnProperty", "isPrototypeOf", "propertyIsEnumerable",
    "toLocaleString", "toString", "valueOf", "__proto__",
    "__defineGetter__", "__defineSetter__", "__lookupGetter__", "__lookupSetter__"
  }

  /** What the property lookup yields: an own record, an inherited (non-null) member, or nothing. */
  datatype Lookup = Own(post: Post) | Inherited(name: string) | Null

  /** `LOCAL_POSTS[slug] ?? null`, as written. */
  function GetPostAsWritten(store: Store, slug: string): (r: Lookup)
    ensures r.Null? <==> slug !in store.table && slug !in InheritedNames
    ensures r.Own? ==> slug in store.table && r.post == store.table[slug]
    ensures slug in store.table ==> r == Own(store.table[slug])
  {
    if slug in store.table then Own(store.table[slug])
    else if slug in InheritedNames then Inherited(slug)
    else Null
  }

  /** As written, a slug that is not a key of the store can still come back non-null. */
  lemma InheritedSlugIsNotNull()
    ensures "constructor" !in Local.table
    ensures GetPostAsWritten(Local, "constructor") == Inherited("constructor")
    ensures GetPost(Local, "constructor") == None
  {
    LocalKeys();
  }

  /** Off the own keys the corrected lookup is null, and the one as written is
      null exactly off the inherited names. (On an own key both give the stored
      record, by the contracts of `GetPost` and `GetPostAsWritten`.) */
  lemma {:induction false} GetPostCorrectsInherited(store: Store, slug: string)
    requires slug !in store.table
    ensures GetPost(store, slug) == None
    ensures GetPostAsWritten(store, slug).Null? <==> slug !in InheritedNames
  {
  }

  // ---------------------------------------------------------------------
  // The module boundary. An ES module's named imports link only when the
  // imported module exports every one of the names; otherwise loading the
  // importing module fails with a SyntaxError before any of its code runs.

  /** The names posts.js exports. */
  const Exports: set<string> := {"getAllPosts", "getPost"}

  /** Whether an import list links against posts.js: what it asks for and is not exported. */
  function Unresolved(imports: seq<string>): (missing: set<string>)
    ensures forall name :: name in missing <==> name in imports && name !in Exports
  {
    set name | name in imports && name !in Exports
  }

  /** As written, script.js asks for `getPosts`, which posts.js does not export. */
  lemma ScriptImportUnresolved(imports: seq<string>)
    requires imports == ["getPosts", "getPost"]
    ensures Unresolved(imports) == {"getPosts"}
  {
    assert "getPosts" !in Exports by { assert |"getPosts"| != |"getPost"| && "getPosts"[0] != "getAllPosts"[3]; }
    assert "getPost" in Exports;
  }

  /** Importing the exported name `getAllPosts` instead links, and that is the listing the model uses. */
  lemma CorrectedImportResolves(imports: seq<string>)
    requires imports == ["getAllPosts", "getPost"]
    ensures Unresolved(imports) == {}
  {
    assert "getAllPosts" in Exports && "getPost" in Exports;
  }

  // ---------------------------------------------------------------------
  // LOCAL_POSTS. The article prose is not reproduced: only keys, slugs,
  // titles, dates and excerpts matter to the navigation engine.

  /** The records of LOCAL_POSTS in declaration order. Each excerpt is cut
      to its opening words: no output of the engine shows it. */
  const Records: seq<Post> := [
    Post("why-i-build-in-public",
      "Why I build in public — and why you should too", "January 2025",
      "Building in public is not...", "", ""),
    Post("fullstack-developer-mindset",
      "The Fullstack Developer Mindset", "January 2025",
      "Being fullstack is not about...", "", ""),
    Post("from-idea-to-deploy",
      "From Idea to Deploy: My Fullstack Workflow in 2025", "December 2024",
      "A walkthrough of how I...", "", ""),
    Post("startups-clean-code",
      "What startups taught me about writing clean code", "November 2024",
      "Speed matters, but messy code...", "", ""),
    Post("open-source-portfolio",
      "Open Source is the best portfolio you can have", "September 2024",
      "A GitHub profile full of...", "", ""),
    Post("say-no-to-features",
      "Learning to say no to features", "July 2024",
      "The best feature you can...", "", ""),
    Post("stop-chasing-perfect",
      "Why I stopped chasing perfect and started shipping", "May 2024",
      "Perfectionism is the enemy of...", "", "")
  ]

  /** The property names of LOCAL_POSTS in declaration order, written apart from the records as in the object literal. */
  const Slugs: seq<string> := [
    "why-i-build-in-public", "fullstack-developer-mindset", "from-idea-to-deploy",
    "startups-clean-code", "open-source-portfolio", "say-no-to-features", "stop-chasing-perfect"
  ]

  /** LOCAL_POSTS: `Slugs[i]` holds `Records[i]`. */
  const Local: Store := Store(Table(Slugs, Records), Slugs)

  /** The object literal `{ keys[0]: records[0], ... }`: later properties overwrite earlier ones of the same name. */
  function Table(keys: seq<string>, records: seq<Post>): (t: map<string, Post>)
    requires |keys| == |records|
    ensures t.Keys == set k | k in keys
  {
    if |keys| == 0 then map[]
    else Table(keys[..|keys| - 1], records[..|records| - 1])[keys[|keys| - 1] := records[|records| - 1]]
  }

  /** With distinct keys, each key holds its own record. */
  lemma {:induction false} TableAt(keys: seq<string>, records: seq<Post>, i: nat)
    requires |keys| == |records| && i < |keys|
    requires forall a, b :: 0 <= a < b < |keys| ==> keys[a] != keys[b]
    ensures Table(keys, records)[keys[i]] == records[i]
  {
    var n := |keys| - 1;
    if i < n {
      DistinctPrefix(keys, n);
      TableAt(keys[..n], records[..n], i);
      assert keys[i] != keys[n];
    }
  }

  /** A prefix of distinct keys is distinct. */
  lemma DistinctPrefix(keys: seq<string>, n: nat)
    requires n <= |keys|
    requires forall a, b :: 0 <= a < b < |keys| ==> keys[a] != keys[b]
    ensures forall a, b :: 0 <= a < b < |keys[..n]| ==> keys[..n][a] != keys[..n][b]
  {
    forall a, b | 0 <= a < b < n ensures keys[..n][a] != keys[..n][b] {
      assert keys[..n][a] == keys[a] && keys[..n][b] == keys[b];
    }
  }

  lemma LocalKeys()
    ensures Local.table.Keys == set k | k in Slugs
  {
  }

  /** The seven slugs are pairwise different (they differ in length or first letter). */
  lemma SlugsDistinct()
    ensures forall i, j :: 0 <= i < j < |Slugs| ==> Slugs[i] != Slugs[j]
  {
    forall i, j | 0 <= i < j < |Slugs| ensures Slugs[i] != Slugs[j] {
      assert |Slugs[i]| != |Slugs[j]| || Slugs[i][0] != Slugs[j][0];
    }
  }

  /** LOCAL_POSTS is a well-formed store of seven records, each under its own slug. */
  lemma LocalIsValid()
    ensures Valid(Local) && KeyedBySlug(Local)
    ensures |ListPosts(Local)| == 7
  {
    LocalKeys();
    SlugsDistinct();
    forall i | 0 <= i < |Slugs| ensures Local.table[Slugs[i]] == Records[i] && Records[i].slug == Slugs[i] {
      LocalAt(i);
    }
  }

  lemma LocalAt(i: nat)
    requires i < |Slugs|
    ensures Slugs[i] in Local.table && Local.table[Slugs[i]] == Records[i]
    ensures Records[i].slug == Slugs[i]
  {
    SlugsDistinct();
    TableAt(Slugs, Records, i);
    assert i == 0 || i == 1 || i == 2 || i == 3 || i == 4 || i == 5 || i == 6;
  }

  /** Listing LOCAL_POSTS yields its records in declaration order. */
  lemma LocalListIsRecords()
    ensures Valid(Local)
    ensures ListPosts(Local) == Records
  {
    LocalIsValid();
    forall i | 0 <= i < |Records| ensures ListPosts(Local)[i] == Records[i] {
      LocalAt(i);
    }
  }

  /** No record of LOCAL_POSTS has a `summary`, and every one has an `excerpt`. */
  lemma LocalPostsHaveNoSummary()
    ensures Valid(Local)
    ensures forall p :: p in ListPosts(Local) ==> p.summary == "" && p.excerpt != ""
  {
    LocalListIsRecords();
    forall i | 0 <= i < |Records| ensures Records[i].summary == "" && Records[i].excerpt != "" {
      RecordAt(i);
    }
    ExcerptOnly(ListPosts(Local));
  }

  /** Index-wise facts about summaries and excerpts, for every member. */
  lemma ExcerptOnly(posts: seq<Post>)
    requires forall i :: 0 <= i < |posts| ==> posts[i].summary == "" && posts[i].excerpt != ""
    ensures forall p :: p in posts ==> p.summary == "" && p.excerpt != ""
  {
  }

  lemma RecordAt(i: nat)
    requires i < |Records|
    ensures Records[i].summary == "" && |Records[i].excerpt| > 0
  {
    if i == 0 {} else if i == 1 {} else if i == 2 {} else if i == 3 {} else if i == 4 {} else if i == 5 {} else {}
  }

  /** Every date of LOCAL_POSTS is longer than four characters and starts with a letter (a month name). */
  lemma DateAt(i: nat)
    requires i < |Records|
    ensures |Records[i].date| > 4 && 'A' <= Records[i].date[0] <= 'Z'
  {
    if i == 0 {} else if i == 1 {} else if i == 2 {} else if i == 3 {} else if i == 4 {} else if i == 5 {} else {}
  }
}
