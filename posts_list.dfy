/** The posts list of script.js (`renderPostsList`): posts grouped by the
    first four characters of their date, year sections in descending order,
    one item per post with its date label and, when the post has a summary,
    an excerpt. The list is a structured value here, not markup. */
module PostsList {

  import opened Wrappers
  import opened Text
  import opened Posts
  import opened DateFormat

  /** One list entry: the post's link (slug and title), its date label and the optional excerpt paragraph. */
  datatype Item = Item(slug: string, title: string, dateLabel: string, excerpt: Option<string>)

  /** One year section: the year heading and its entries. */
  datatype Section = Section(year: string, items: seq<Item>)

  /** What the list container shows: the page's static markup, the loading
      placeholder, the empty-state message, or the rendered year sections. */
  datatype ListView = Static | Loading | Empty | Listed(sections: seq<Section>)

  /** `post.date ? post.date.slice(0, 4) : 'Unknown'`: the first four
      characters of the date (all of a shorter one), `Unknown` without a date. */
  function YearKey(p: Post): (key: string) {
    if p.date == "" then "Unknown"
    else if |p.date| <= 4 then p.date
    else p.date[..4]
  }

  /** A dated post's key is a prefix of its date, four characters long unless
      the date is shorter; an undated post's key is `Unknown`. */
  lemma YearKeyOfDate(p: Post)
    ensures p.date == "" ==> YearKey(p) == "Unknown"
    ensures p.date != "" ==> |YearKey(p)| == (if |p.date| < 4 then |p.date| else 4)
    ensures p.date != "" ==> YearKey(p) == p.date[..|YearKey(p)|]
  {
  }

  // ---------------------------------------------------------------------
  // Grouping

  /** The posts of year `y`, in input order. */
  function Filter(posts: seq<Post>, y: string): (r: seq<Post>)
    ensures |r| <= |posts|
    ensures forall q :: q in r ==> q in posts && YearKey(q) == y
  {
    if |posts| == 0 then []
    else
      var last := posts[|posts| - 1];
      Filter(posts[..|posts| - 1], y) + (if YearKey(last) == y then [last] else [])
  }

  /** The year keys in order of first appearance (the property order of the accumulator). */
  function YearKeys(posts: seq<Post>): (ks: seq<string>)
    ensures forall i, j :: 0 <= i < j < |ks| ==> ks[i] != ks[j]
    ensures forall p :: p in posts ==> YearKey(p) in ks
  {
    if |posts| == 0 then []
    else
      var ks := YearKeys(posts[..|posts| - 1]);
      var k := YearKey(posts[|posts| - 1]);
      assert forall p :: p in posts ==> p in posts[..|posts| - 1] || p == posts[|posts| - 1];
      if k in ks then ks else ks + [k]
  }

  /** Every listed year is the year of some post. */
  lemma {:induction false} YearKeysOfPosts(posts: seq<Post>, k: string)
    requires k in YearKeys(posts)
    ensures exists p :: p in posts && YearKey(p) == k
  {
    var n := |posts| - 1;
    if k in YearKeys(posts[..n]) {
      YearKeysOfPosts(posts[..n], k);
      var p :| p in posts[..n] && YearKey(p) == k;
      assert p in posts;
    } else {
      assert YearKey(posts[n]) == k;
    }
  }

  /** Every post lands in the group of its own year, and in no other. */
  lemma {:induction false} FilterPartition(posts: seq<Post>, p: Post, y: string)
    requires p in posts
    ensures p in Filter(posts, y) <==> y == YearKey(p)
  {
    var n := |posts| - 1;
    if posts[n] != p {
      assert p in posts[..n];
      FilterPartition(posts[..n], p, y);
    }
  }

  /** Grouping keeps input order: the group of a concatenation is the
      concatenation of the groups. */
  lemma {:induction false} FilterAppend(a: seq<Post>, b: seq<Post>, y: string)
    ensures Filter(a + b, y) == Filter(a, y) + Filter(b, y)
  {
    if |b| > 0 {
      var n := |b| - 1;
      FilterAppend(a, b[..n], y);
      FilterAppendStep(a, b[..n], b[n], y);
      LastSplit(b);
    } else {
      assert a + b == a;
    }
  }

  /** `FilterAppend` carried over one more post at the end of `b`. */
  lemma FilterAppendStep(a: seq<Post>, init: seq<Post>, last: Post, y: string)
    requires Filter(a + init, y) == Filter(a, y) + Filter(init, y)
    ensures Filter(a + (init + [last]), y) == Filter(a, y) + Filter(init + [last], y)
  {
    var e := if YearKey(last) == y then [last] else [];
    ConcatAssoc(a, init, [last]);
    FilterSnoc(a + init, last, y);
    FilterSnoc(init, last, y);
    ConcatAssoc(Filter(a, y), Filter(init, y), e);
  }

  lemma LastSplit<T>(s: seq<T>)
    requires |s| > 0
    ensures s == s[..|s| - 1] + [s[|s| - 1]]
  { }

  lemma ConcatAssoc<T>(x: seq<T>, y: seq<T>, z: seq<T>)
    ensures (x + y) + z == x + (y + z)
  {
  }

  /** A year that no post has gets an empty group. */
  lemma {:induction false} FilterAbsent(posts: seq<Post>, y: string)
    requires y !in YearKeys(posts)
    ensures Filter(posts, y) == []
  {
    if |posts| > 0 {
      FilterAbsent(posts[..|posts| - 1], y);
    }
  }

  /** The groups of distinct years, one after another. */
  function Grouped(ks: seq<string>, posts: seq<Post>): (groups: seq<Post>) {
    if |ks| == 0 then [] else Filter(posts, ks[0]) + Grouped(ks[1..], posts)
  }

  /** Taken together the groups hold every post exactly as often as the input does. */
  lemma {:induction false} GroupsArePermutation(posts: seq<Post>)
    ensures multiset(Grouped(YearKeys(posts), posts)) == multiset(posts)
  {
    if |posts| > 0 {
      var n := |posts| - 1;
      GroupsArePermutation(posts[..n]);
      LastSplit(posts);
      PermutationStep(posts[..n], posts[n]);
    }
  }

  /** `GroupsArePermutation` carried over one more post. */
  lemma PermutationStep(init: seq<Post>, last: Post)
    requires multiset(Grouped(YearKeys(init), init)) == multiset(init)
    ensures multiset(Grouped(YearKeys(init + [last]), init + [last])) == multiset(init + [last])
  {
    var ks, k, posts := YearKeys(init), YearKey(last), init + [last];
    YearKeysSnoc(init, last);
    GroupedAppendPost(ks, init, last);
    if k !in ks {
      GroupedAppendKey(ks, k, posts);
      FilterAbsent(init, k);
      FilterSnoc(init, last, k);
    }
  }

  /** The year keys after one more post: its year is added at the end if it is new. */
  lemma YearKeysSnoc(init: seq<Post>, p: Post)
    ensures YearKeys(init + [p]) == if YearKey(p) in YearKeys(init) then YearKeys(init) else YearKeys(init) + [YearKey(p)]
  {
    assert (init + [p])[..|init|] == init;
  }

  /** The group of `y` after one more post: that post appended if it has year `y`. */
  lemma FilterSnoc(init: seq<Post>, p: Post, y: string)
    ensures Filter(init + [p], y) == Filter(init, y) + (if YearKey(p) == y then [p] else [])
  {
    assert (init + [p])[..|init|] == init;
  }

  /** `p` once when `b` holds, nothing otherwise. */
  function Once(p: Post, b: bool): (m: multiset<Post>) {
    if b then multiset{p} else multiset{}
  }

  /** Adding one post adds it once to the groups when its year is listed (once), and not at all otherwise. */
  lemma {:induction false} GroupedAppendPost(ks: seq<string>, init: seq<Post>, p: Post)
    requires forall i, j :: 0 <= i < j < |ks| ==> ks[i] != ks[j]
    ensures multiset(Grouped(ks, init + [p])) == multiset(Grouped(ks, init)) + Once(p, YearKey(p) in ks)
  {
    if |ks| > 0 {
      DistinctTail(ks);
      GroupedAppendPost(ks[1..], init, p);
      GroupedStep(ks[0], ks[1..], init, p);
      assert ks == [ks[0]] + ks[1..];
    }
  }

  /** One step of `GroupedAppendPost`: a key in front of the rest. */
  lemma GroupedStep(k: string, rest: seq<string>, init: seq<Post>, p: Post)
    requires k !in rest
    requires multiset(Grouped(rest, init + [p])) == multiset(Grouped(rest, init)) + Once(p, YearKey(p) in rest)
    ensures multiset(Grouped([k] + rest, init + [p])) == multiset(Grouped([k] + rest, init)) + Once(p, YearKey(p) in [k] + rest)
  {
    GroupedCons(k, rest, init);
    GroupedCons(k, rest, init + [p]);
    FilterSnocCount(init, p, k);
    OnceCons(p, k, rest);
  }

  /** `p` counted for `[k] + rest` is `p` counted for `k` and then for `rest`, when `k` is not repeated. */
  lemma OnceCons(p: Post, k: string, rest: seq<string>)
    requires k !in rest
    ensures Once(p, YearKey(p) in [k] + rest) == Once(p, YearKey(p) == k) + Once(p, YearKey(p) in rest)
  {
    assert (YearKey(p) in [k] + rest) == (YearKey(p) == k || YearKey(p) in rest);
  }

  /** The groups of `[k] + rest`: the group of `k`, then those of `rest`. */
  lemma GroupedCons(k: string, rest: seq<string>, posts: seq<Post>)
    ensures multiset(Grouped([k] + rest, posts)) == multiset(Filter(posts, k)) + multiset(Grouped(rest, posts))
  {
    assert ([k] + rest)[0] == k && ([k] + rest)[1..] == rest;
  }

  /** One more post adds itself once to the group of its own year and nothing to any other group. */
  lemma FilterSnocCount(init: seq<Post>, p: Post, k: string)
    ensures multiset(Filter(init + [p], k)) == multiset(Filter(init, k)) + Once(p, YearKey(p) == k)
  {
    FilterSnoc(init, p, k);
  }

  /** The tail of a list of distinct keys is distinct and lacks the head. */
  lemma DistinctTail(ks: seq<string>)
    requires |ks| > 0
    requires forall i, j :: 0 <= i < j < |ks| ==> ks[i] != ks[j]
    ensures forall i, j :: 0 <= i < j < |ks[1..]| ==> ks[1..][i] != ks[1..][j]
    ensures ks[0] !in ks[1..]
  {
    var rest := ks[1..];
    forall i, j | 0 <= i < j < |rest| ensures rest[i] != rest[j] {
      assert rest[i] == ks[i + 1] && rest[j] == ks[j + 1];
    }
    forall j | 0 <= j < |rest| ensures rest[j] != ks[0] {
      assert rest[j] == ks[j + 1];
    }
  }

  lemma {:induction false} GroupedAppendKey(ks: seq<string>, k: string, posts: seq<Post>)
    ensures Grouped(ks + [k], posts) == Grouped(ks, posts) + Filter(posts, k)
  {
    if |ks| > 0 {
      assert (ks + [k])[1..] == ks[1..] + [k];
      GroupedAppendKey(ks[1..], k, posts);
    } else {
      assert ks + [k] == [k];
    }
  }

  /** The `reduce` of `renderPostsList`: one pass over the posts, creating a
      year's group on its first post and appending each post to its group. */
  method GroupByYear(posts: seq<Post>) returns (byYear: map<string, seq<Post>>, years: seq<string>)
    ensures years == YearKeys(posts)
    ensures forall k :: k in byYear <==> k in years
    ensures forall k :: k in byYear ==> byYear[k] == Filter(posts, k)
  {
    byYear, years := map[], [];
    var i := 0;
    while i < |posts|
      invariant 0 <= i <= |posts|
      invariant Accumulated(byYear, years, posts[..i])
    {
      var post := posts[i];
      var year := YearKey(post);
      ghost var (byYear0, years0) := (byYear, years);
      if year !in byYear {
        byYear := byYear[year := []];
        years := years + [year];
      }
      ghost var byYear1 := byYear;
      byYear := byYear[year := byYear[year] + [post]];
      AccumulateStep(posts[..i], post, byYear0, years0, byYear1, byYear, years);
      PrefixSnoc(posts, i);
      i := i + 1;
    }
    assert posts[..i] == posts;
  }

  /** A prefix one longer is the prefix and the next post. */
  lemma PrefixSnoc(posts: seq<Post>, i: nat)
    requires i < |posts|
    ensures posts[..i + 1] == posts[..i] + [posts[i]]
  { }

  /** The accumulator after the posts `done`: their year keys in order of first
      appearance, and under each key exactly that year's posts. */
  ghost predicate Accumulated(byYear: map<string, seq<Post>>, years: seq<string>, done: seq<Post>) {
    && years == YearKeys(done)
    && (forall k :: k in byYear <==> k in years)
    && (forall k :: k in byYear ==> byYear[k] == Filter(done, k))
  }

  /** One turn of the `reduce` keeps the accumulator exact. */
  lemma AccumulateStep(done: seq<Post>, post: Post, byYear: map<string, seq<Post>>, years: seq<string>,
                       created: map<string, seq<Post>>, byYear': map<string, seq<Post>>, years': seq<string>)
    requires Accumulated(byYear, years, done)
    requires created == if YearKey(post) in byYear then byYear else byYear[YearKey(post) := []]
    requires years' == if YearKey(post) in byYear then years else years + [YearKey(post)]
    requires YearKey(post) in created && byYear' == created[YearKey(post) := created[YearKey(post)] + [post]]
    ensures Accumulated(byYear', years', done + [post])
  {
    var y := YearKey(post);
    YearKeysSnoc(done, post);
    if y !in byYear {
      FilterAbsent(done, y);
    }
    forall k | k in byYear' ensures byYear'[k] == Filter(done + [post], k) {
      FilterSnoc(done, post, k);
    }
  }

  // ---------------------------------------------------------------------
  // Ordering the years: `Object.keys(byYear).sort((a, b) => b - a)`

  /** A key that `b - a` reads as a number. */
  predicate IsNumeric(k: string) {
    |k| > 0 && AllDigits(k)
  }

  /** `(a, b) => b - a` is negative: `a` goes first. A comparison involving a
      non-numeric key is NaN, which the sort treats as equal. */
  predicate Before(a: string, b: string)
    ensures Before(a, b) ==> IsNumeric(a) && IsNumeric(b) && a != b
    ensures !IsNumeric(a) || !IsNumeric(b) ==> !Before(a, b)
  {
    IsNumeric(a) && IsNumeric(b) && DigitsValue(b) < DigitsValue(a)
  }

  /** The comparator orders numeric keys strictly: never both ways, and two
      keys compare equal exactly when neither goes first. */
  lemma BeforeIsStrict(a: string, b: string)
    ensures !(Before(a, b) && Before(b, a))
    ensures IsNumeric(a) && IsNumeric(b) && |a| == |b| ==> (a == b <==> !Before(a, b) && !Before(b, a))
  {
    if IsNumeric(a) && IsNumeric(b) && |a| == |b| && !Before(a, b) && !Before(b, a) {
      DigitsValueInjective(a, b);
    }
  }

  /** Stable insertion of `x` after every key it does not go before. */
  function Insert(x: string, sorted: seq<string>): (r: seq<string>)
    ensures multiset(r) == multiset(sorted) + multiset{x}
  {
    if |sorted| == 0 then [x]
    else if Before(x, sorted[0]) then [x] + sorted
    else
      assert sorted == [sorted[0]] + sorted[1..];
      [sorted[0]] + Insert(x, sorted[1..])
  }

  /** The sort of the year keys: a stable sort by the comparator above. */
  function SortYearsDesc(keys: seq<string>): (r: seq<string>)
    ensures multiset(r) == multiset(keys)
  {
    if |keys| == 0 then []
    else
      assert keys == keys[..|keys| - 1] + [keys[|keys| - 1]];
      Insert(keys[|keys| - 1], SortYearsDesc(keys[..|keys| - 1]))
  }

  ghost predicate AllNumeric(s: seq<string>) {
    forall k :: 0 <= k < |s| ==> IsNumeric(s[k])
  }

  /** Numeric keys in non-increasing order of value. */
  ghost predicate Descending(s: seq<string>) {
    && AllNumeric(s)
    && forall i, j :: 0 <= i < j < |s| ==> DigitsValue(s[j]) <= DigitsValue(s[i])
  }

  /** Numeric keys in strictly decreasing order of value. */
  ghost predicate StrictlyDescending(s: seq<string>) {
    && AllNumeric(s)
    && forall i, j :: 0 <= i < j < |s| ==> DigitsValue(s[j]) < DigitsValue(s[i])
  }

  lemma {:induction false} InsertDescending(x: string, s: seq<string>)
    requires IsNumeric(x) && Descending(s)
    ensures Descending(Insert(x, s))
  {
    if |s| > 0 {
      if Before(x, s[0]) {
        forall k | 0 <= k < |s| ensures DigitsValue(s[k]) <= DigitsValue(x) {
          if k > 0 { assert DigitsValue(s[k]) <= DigitsValue(s[0]); }
        }
        DescendingCons(x, s);
      } else {
        DescendingTail(s);
        InsertDescending(x, s[1..]);
        var r := Insert(x, s[1..]);
        forall k | 0 <= k < |r| ensures DigitsValue(r[k]) <= DigitsValue(s[0]) {
          assert r[k] in multiset(r);
          if r[k] != x {
            var m :| 0 <= m < |s[1..]| && s[1..][m] == r[k];
            assert s[m + 1] == r[k];
          }
        }
        DescendingCons(s[0], r);
      }
    }
  }

  lemma DescendingTail(s: seq<string>)
    requires Descending(s) && |s| > 0
    ensures Descending(s[1..])
  {
    var t := s[1..];
    forall i, j | 0 <= i < j < |t| ensures DigitsValue(t[j]) <= DigitsValue(t[i]) {
      assert t[i] == s[i + 1] && t[j] == s[j + 1];
    }
  }

  lemma DescendingCons(h: string, t: seq<string>)
    requires IsNumeric(h) && Descending(t)
    requires forall k :: 0 <= k < |t| ==> DigitsValue(t[k]) <= DigitsValue(h)
    ensures Descending([h] + t)
  {
    var out := [h] + t;
    forall i, j | 0 <= i < j < |out| ensures DigitsValue(out[j]) <= DigitsValue(out[i]) {
      assert out[j] == t[j - 1];
      if i > 0 { assert out[i] == t[i - 1]; }
    }
  }

  /** When every key is numeric, the years come out in descending numeric order. */
  lemma {:induction false} SortedYearsDescend(keys: seq<string>)
    requires forall k :: k in keys ==> IsNumeric(k)
    ensures Descending(SortYearsDesc(keys))
  {
    if |keys| > 0 {
      var n := |keys| - 1;
      assert keys[n] in keys;
      SortedYearsDescend(keys[..n]);
      InsertDescending(keys[n], SortYearsDesc(keys[..n]));
    }
  }

  /** Four-digit year keys, all different, come out strictly newest first. */
  lemma {:induction false} YearsStrictlyDescend(keys: seq<string>)
    requires forall k :: k in keys ==> |k| == 4 && AllDigits(k)
    requires forall i, j :: 0 <= i < j < |keys| ==> keys[i] != keys[j]
    ensures StrictlyDescending(SortYearsDesc(keys))
  {
    forall k | k in keys ensures IsNumeric(k) {}
    SortedYearsDescend(keys);
    var r := SortYearsDesc(keys);
    forall i, j | 0 <= i < j < |r| ensures DigitsValue(r[j]) < DigitsValue(r[i]) {
      assert r[i] in multiset(keys) && r[j] in multiset(keys);
      if DigitsValue(r[j]) == DigitsValue(r[i]) {
        DigitsValueInjective(r[i], r[j]);
        DistinctAfterPermutation(keys, r, i, j);
      }
    }
  }

  lemma DistinctAfterPermutation(keys: seq<string>, r: seq<string>, i: nat, j: nat)
    requires forall a, b :: 0 <= a < b < |keys| ==> keys[a] != keys[b]
    requires multiset(r) == multiset(keys) && i < j < |r|
    ensures r[i] != r[j]
  {
    if r[i] == r[j] {
      assert multiset(r)[r[i]] >= 2 by {
        assert r == r[..i] + [r[i]] + r[i + 1..j] + [r[j]] + r[j + 1..];
      }
      DistinctCountOne(keys, r[i]);
    }
  }

  lemma {:induction false} DistinctCountOne(keys: seq<string>, k: string)
    requires forall a, b :: 0 <= a < b < |keys| ==> keys[a] != keys[b]
    ensures multiset(keys)[k] <= 1
  {
    if |keys| > 0 {
      var n := |keys| - 1;
      assert keys == keys[..n] + [keys[n]];
      DistinctCountOne(keys[..n], k);
      assert keys[n] !in keys[..n];
    }
  }

  // ---------------------------------------------------------------------
  // Rendering

  /** One entry; the excerpt paragraph appears only for a post with a summary. */
  function ItemOf(p: Post): (item: Item)
    ensures item.excerpt.Some? <==> p.summary != ""
    ensures item.excerpt.Some? ==> item.excerpt.value == p.summary
    ensures item.slug == p.slug && item.title == p.title
    ensures item.dateLabel == FormatDate(p.date)
  {
    Item(p.slug, p.title, FormatDate(p.date), if p.summary != "" then Some(p.summary) else None)
  }

  function Items(posts: seq<Post>): (items: seq<Item>)
    ensures |items| == |posts|
    ensures forall i :: 0 <= i < |posts| ==> items[i] == ItemOf(posts[i])
  {
    seq(|posts|, i requires 0 <= i < |posts| => ItemOf(posts[i]))
  }

  /** What the container shows once `renderPostsList` finishes with `posts`. */
  function Render(posts: seq<Post>): (view: ListView)
    ensures view != Loading && view != Static
    ensures view == Empty <==> |posts| == 0
  {
    if |posts| == 0 then Empty
    else Listed(Sections(SortYearsDesc(YearKeys(posts)), posts))
  }

  /** One section per listed year, holding that year's posts in input order. */
  function Sections(years: seq<string>, posts: seq<Post>): (secs: seq<Section>)
    ensures |secs| == |years|
    ensures forall i :: 0 <= i < |years| ==> secs[i].year == years[i]
    ensures forall i :: 0 <= i < |years| ==> secs[i].items == Items(Filter(posts, years[i]))
  {
    seq(|years|, i requires 0 <= i < |years| => Section(years[i], Items(Filter(posts, years[i]))))
  }

  /** `years.map(year => ... byYear[year].map(post => ...))`: one section per year, from the accumulated groups. */
  function BuildSections(years: seq<string>, byYear: map<string, seq<Post>>): (secs: seq<Section>)
    requires forall k :: k in years ==> k in byYear
    ensures |secs| == |years|
    ensures forall i :: 0 <= i < |years| ==> secs[i] == Section(years[i], Items(byYear[years[i]]))
  {
    seq(|years|, i requires 0 <= i < |years| => Section(years[i], Items(byYear[years[i]])))
  }

  /** Every sorted year has its group in the accumulator. */
  lemma SortedYearsAreGrouped(posts: seq<Post>, byYear: map<string, seq<Post>>, years: seq<string>)
    requires years == SortYearsDesc(YearKeys(posts))
    requires forall k :: k in byYear <==> k in YearKeys(posts)
    ensures forall k :: k in years ==> k in byYear
  {
    forall k | k in years ensures k in byYear {
      assert k in multiset(years);
    }
  }

  /** The sections built from the accumulated groups are the sections of the posts themselves. */
  lemma SectionsFromGroups(posts: seq<Post>, byYear: map<string, seq<Post>>, years: seq<string>)
    requires forall k :: k in years ==> k in byYear && byYear[k] == Filter(posts, k)
    ensures BuildSections(years, byYear) == Sections(years, posts)
  {
    var a, b := BuildSections(years, byYear), Sections(years, posts);
    forall i | 0 <= i < |years| ensures a[i] == b[i] {
      assert years[i] in years;
    }
  }

  /** The rendered sections: each year of the posts at most once, each
      holding exactly that year's posts in input order. */
  lemma {:induction false} RenderedSections(posts: seq<Post>)
    requires |posts| > 0
    ensures Render(posts).Listed?
    ensures var secs := Render(posts).sections;
      && |secs| == |YearKeys(posts)|
      && (forall i :: 0 <= i < |secs| ==> secs[i].year in YearKeys(posts))
      && (forall i :: 0 <= i < |secs| ==> secs[i].items == Items(Filter(posts, secs[i].year)))
      && (forall i, j :: 0 <= i < j < |secs| ==> secs[i].year != secs[j].year)
  {
    var keys := YearKeys(posts);
    var years := SortYearsDesc(keys);
    var secs := Render(posts).sections;
    assert |years| == |keys| by { assert |multiset(years)| == |multiset(keys)|; }
    forall i | 0 <= i < |secs| ensures secs[i].year in keys {
      assert secs[i].year == years[i] && years[i] in multiset(years);
    }
    forall i, j | 0 <= i < j < |secs| ensures secs[i].year != secs[j].year {
      DistinctAfterPermutation(keys, years, i, j);
    }
  }

  /** The year headings of a rendered list, top to bottom. */
  function SectionYears(view: ListView): (years: seq<string>)
    ensures view.Listed? ==> |years| == |view.sections|
    ensures view.Listed? ==> forall i :: 0 <= i < |years| ==> years[i] == view.sections[i].year
  {
    if view.Listed? then seq(|view.sections|, i requires 0 <= i < |view.sections| => view.sections[i].year) else []
  }

  /** A key that is not a number goes before nothing: it is inserted at the end. */
  lemma {:induction false} InsertNonNumeric(x: string, s: seq<string>)
    requires !IsNumeric(x)
    ensures Insert(x, s) == s + [x]
  {
    if |s| > 0 {
      InsertNonNumeric(x, s[1..]);
      ConcatAssoc([s[0]], s[1..], [x]);
      assert [s[0]] + s[1..] == s;
    }
  }

  /** With no numeric key every comparison is NaN, so the sort keeps the keys in their order. */
  lemma {:induction false} NonNumericKeepOrder(keys: seq<string>)
    requires forall i :: 0 <= i < |keys| ==> !IsNumeric(keys[i])
    ensures SortYearsDesc(keys) == keys
  {
    if |keys| > 0 {
      var n := |keys| - 1;
      assert forall i :: 0 <= i < n ==> keys[..n][i] == keys[i];
      NonNumericKeepOrder(keys[..n]);
      InsertNonNumeric(keys[n], keys[..n]);
      LastSplit(keys);
    }
  }

  /** The sections run in order of first appearance when no year key is a number. */
  lemma RenderedInFirstSeenOrder(posts: seq<Post>)
    requires |posts| > 0
    requires forall p :: p in posts ==> !IsNumeric(YearKey(p))
    ensures SectionYears(Render(posts)) == YearKeys(posts)
  {
    NoNumericKey(posts);
    NonNumericKeepOrder(YearKeys(posts));
    RenderedYears(posts);
  }

  /** Year keys are keys of posts: none is numeric when no post's is. */
  lemma NoNumericKey(posts: seq<Post>)
    requires forall p :: p in posts ==> !IsNumeric(YearKey(p))
    ensures forall i :: 0 <= i < |YearKeys(posts)| ==> !IsNumeric(YearKeys(posts)[i])
  {
    var keys := YearKeys(posts);
    forall i | 0 <= i < |keys| ensures !IsNumeric(keys[i]) {
      YearKeysOfPosts(posts, keys[i]);
      var p :| p in posts && YearKey(p) == keys[i];
    }
  }

  /** The headings of a rendered list are the sorted year keys. */
  lemma RenderedYears(posts: seq<Post>)
    requires |posts| > 0
    ensures SectionYears(Render(posts)) == SortYearsDesc(YearKeys(posts))
  {
    var years := SortYearsDesc(YearKeys(posts));
    assert Render(posts) == Listed(Sections(years, posts));
  }

  /** When every date starts with a four-digit year, the sections run newest first. */
  lemma {:induction false} RenderedNewestFirst(posts: seq<Post>)
    requires |posts| > 0
    requires forall p :: p in posts ==> |YearKey(p)| == 4 && AllDigits(YearKey(p))
    ensures Render(posts).Listed?
    ensures StrictlyDescending(SectionYears(Render(posts)))
  {
    var keys := YearKeys(posts);
    forall k | k in keys ensures |k| == 4 && AllDigits(k) {
      YearKeysOfPosts(posts, k);
      var p :| p in posts && YearKey(p) == k;
    }
    YearsStrictlyDescend(keys);
    RenderedYears(posts);
  }

  /** Each post is listed under its own year, as its own entry. */
  lemma {:induction false} RenderedPostPlacement(posts: seq<Post>, p: Post)
    requires p in posts
    ensures Render(posts).Listed?
    ensures exists i :: (0 <= i < |Render(posts).sections| && Render(posts).sections[i].year == YearKey(p)
      && ItemOf(p) in Render(posts).sections[i].items)
  {
    var keys := YearKeys(posts);
    var years := SortYearsDesc(keys);
    assert YearKey(p) in multiset(years);
    var i :| 0 <= i < |years| && years[i] == YearKey(p);
    FilterPartition(posts, p, YearKey(p));
    var group := Filter(posts, YearKey(p));
    var k :| 0 <= k < |group| && group[k] == p;
    assert Render(posts).sections[i].items[k] == ItemOf(p);
  }

  /** Posts without a summary render without any excerpt. */
  lemma {:induction false} NoSummaryNoExcerpt(posts: seq<Post>)
    requires forall p :: p in posts ==> p.summary == ""
    ensures forall s :: s in ListedSections(Render(posts)) ==>
      forall item :: item in s.items ==> item.excerpt == None
  {
    if |posts| > 0 {
      var years := SortYearsDesc(YearKeys(posts));
      var secs := Sections(years, posts);
      assert ListedSections(Render(posts)) == secs;
      forall s | s in secs ensures forall item :: item in s.items ==> item.excerpt == None {
        var i :| 0 <= i < |secs| && secs[i] == s;
        ItemsWithoutExcerpt(Filter(posts, years[i]));
      }
    }
  }

  /** Entries built from posts without a summary have no excerpt. */
  lemma ItemsWithoutExcerpt(group: seq<Post>)
    requires forall p :: p in group ==> p.summary == ""
    ensures forall item :: item in Items(group) ==> item.excerpt == None
  {
    forall item | item in Items(group) ensures item.excerpt == None {
      var k :| 0 <= k < |group| && Items(group)[k] == item;
      assert group[k] in group;
    }
  }

  /** The year keys of LOCAL_POSTS are the first four letters of month names
      (`Janu`, `Dece`, ...): none is a number, so every comparison is NaN and the
      sections keep declaration order, unchanged by the sort. */
  lemma LocalListInDeclarationOrder()
    ensures Valid(Local)
    ensures SectionYears(Render(ListPosts(Local))) == YearKeys(ListPosts(Local))
  {
    LocalListIsRecords();
    forall i | 0 <= i < |Records| ensures !IsNumeric(YearKey(Records[i])) {
      DateAt(i);
      LetterYear(Records[i]);
    }
    NoNumericYears(ListPosts(Local));
    RenderedInFirstSeenOrder(ListPosts(Local));
  }

  /** A date that starts with a letter has a year key that is not a number. */
  lemma LetterYear(p: Post)
    requires |p.date| > 4 && 'A' <= p.date[0] <= 'Z'
    ensures !IsNumeric(YearKey(p))
  {
    assert YearKey(p)[0] == p.date[0];
  }

  lemma NoNumericYears(posts: seq<Post>)
    requires forall i :: 0 <= i < |posts| ==> !IsNumeric(YearKey(posts[i]))
    ensures forall p :: p in posts ==> !IsNumeric(YearKey(p))
  {
  }

  /** The sections of a rendered list (none for the other views). */
  function ListedSections(view: ListView): (sections: seq<Section>) {
    if view.Listed? then view.sections else []
  }

  /** With the records of LOCAL_POSTS, which carry `excerpt` but no `summary`, no entry shows an excerpt. */
  lemma LocalListShowsNoExcerpt()
    ensures Valid(Local)
    ensures Render(ListPosts(Local)).Listed?
    ensures forall s :: s in ListedSections(Render(ListPosts(Local))) ==>
      forall item :: item in s.items ==> item.excerpt == None
  {
    LocalPostsHaveNoSummary();
    LocalIsValid();
    NoSummaryNoExcerpt(ListPosts(Local));
  }
}
