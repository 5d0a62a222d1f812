/**
 * src/rss.js: the RSS channel. Articles are ordered by `path`, newest
 * first, cut to `rss.length`, and each becomes an item whose link is the
 * blog's URL joined with the article's URL, with every `//` not following
 * a `:` collapsed to `/`.
 */
module Rss {
  import opened Wrappers
  
  // ---- Ordering paths ----

  /** `a` sorts strictly before `b`, character code by character code. */
  predicate Below(a: string, b: string)
    decreases |a|
  {
    if a == [] then b != []
    else if b == [] then false
    else if a[0] == b[0] then Below(a[1..], b[1..])
    else a[0] < b[0]
  }

  lemma {:induction false} BelowIrreflexive(a: string)
    ensures !Below(a, a)
    decreases |a|
  {
    if a != [] {
      BelowIrreflexive(a[1..]);
    }
  }

  /** Two different strings are ordered one way. */
  lemma {:induction false} BelowTotal(a: string, b: string)
    ensures a == b || Below(a, b) || Below(b, a)
    decreases |a|
  {
    if a != [] && b != [] && a[0] == b[0] {
      BelowTotal(a[1..], b[1..]);
      if a[1..] == b[1..] {
        assert a == [a[0]] + a[1..] && b == [b[0]] + b[1..];
      }
    }
  }

  /** ... and only one way. */
  lemma {:induction false} BelowAsymmetric(a: string, b: string)
    requires Below(a, b)
    ensures !Below(b, a)
    decreases |a|
  {
    if a != [] && b != [] && a[0] == b[0] {
      BelowAsymmetric(a[1..], b[1..]);
    }
  }

  lemma {:induction false} BelowTransitive(a: string, b: string, c: string)
    requires Below(a, b) && Below(b, c)
    ensures Below(a, c)
    decreases |a|
  {
    if a != [] && a[0] == b[0] && b[0] == c[0] {
      BelowTransitive(a[1..], b[1..], c[1..]);
    }
  }

  /** "At least": `!Below(b, a)` composes. */
  lemma {:induction false} AtLeastTransitive(a: string, b: string, c: string)
    requires !Below(a, b) && !Below(b, c)
    ensures !Below(a, c)
  {
    BelowTotal(a, b);
    BelowTotal(b, c);
    if Below(a, c) {
      if a == b {
      } else if b == c {
      } else {
        BelowTransitive(c, b, a);
        BelowAsymmetric(c, a);
      }
    }
  }

  // ---- Sorting newest first ----

  /** An article of the catalog as the feed reads it; `date` is what `date.toString()` gives. */
  datatype Post = Post(path: string, title: string, url: string, date: string)

  /** Newest first: no path sorts below a later one. */
  ghost predicate Descending(s: seq<Post>) {
    forall i, j :: 0 <= i < j < |s| ==> !Below(s[i].path, s[j].path)
  }

  /** Puts `x` before the first post whose path is at most its own, so equal paths keep their order. */
  function Insert(x: Post, s: seq<Post>): seq<Post>
    decreases |s|
  {
    if s == [] || !Below(x.path, s[0].path) then [x] + s
    else [s[0]] + Insert(x, s[1..])
  }

  /** `.sort((a, b) => b.path.localeCompare(a.path))`, a stable sort, as an insertion sort. */
  function SortDesc(s: seq<Post>): seq<Post>
    decreases |s|
  {
    if s == [] then [] else Insert(s[0], SortDesc(s[1..]))
  }

  lemma {:induction false} InsertPermutes(x: Post, s: seq<Post>)
    ensures multiset(Insert(x, s)) == multiset{x} + multiset(s)
    decreases |s|
  {
    if s != [] && Below(x.path, s[0].path) {
      InsertPermutes(x, s[1..]);
      assert s == [s[0]] + s[1..];
    }
  }

  lemma {:induction false} InsertDescending(x: Post, s: seq<Post>)
    requires Descending(s)
    ensures Descending(Insert(x, s))
    ensures |Insert(x, s)| == |s| + 1
    decreases |s|
  {
    if s == [] {
    } else if !Below(x.path, s[0].path) {
      var r := Insert(x, s);
      forall i, j | 0 <= i < j < |r| ensures !Below(r[i].path, r[j].path) {
        if i == 0 && j > 1 {
          AtLeastTransitive(x.path, s[0].path, s[j - 1].path);
        }
      }
    } else {
      var t := Insert(x, s[1..]);
      InsertDescending(x, s[1..]);
      InsertPermutes(x, s[1..]);
      var r := [s[0]] + t;
      forall j | 0 < j < |r| ensures !Below(s[0].path, r[j].path) {
        assert r[j] in multiset(t);
        assert r[j] == x || r[j] in multiset(s[1..]);
        if r[j] == x {
          BelowAsymmetric(x.path, s[0].path);
        } else {
          var k :| 0 <= k < |s[1..]| && s[1..][k] == r[j];
          assert s[k + 1] == r[j];
        }
      }
    }
  }

  /** The sort gives the posts back, newest first. */
  lemma {:induction false} SortDescCorrect(s: seq<Post>)
    ensures Descending(SortDesc(s))
    ensures multiset(SortDesc(s)) == multiset(s)
    ensures |SortDesc(s)| == |s|
    decreases |s|
  {
    if s != [] {
      SortDescCorrect(s[1..]);
      InsertDescending(s[0], SortDesc(s[1..]));
      InsertPermutes(s[0], SortDesc(s[1..]));
      assert s == [s[0]] + s[1..];
    }
  }

  /** The dictionary is keyed by path: no two articles share one. */
  ghost predicate DistinctPaths(s: seq<Post>) {
    forall i, j :: 0 <= i < j < |s| ==> s[i].path != s[j].path
  }

  lemma {:induction false} DistinctPathsTail(s: seq<Post>)
    requires DistinctPaths(s) && s != []
    ensures DistinctPaths(s[1..]) && s[0] !in s[1..]
  {
  }

  lemma {:induction false} DescendingTail(s: seq<Post>)
    requires Descending(s) && s != []
    ensures Descending(s[1..])
  {
    forall i, j | 0 <= i < j < |s| - 1 ensures !Below(s[1..][i].path, s[1..][j].path) {
      assert s[1..][i] == s[i + 1] && s[1..][j] == s[j + 1];
    }
  }

  /** The newest post comes first. */
  lemma {:induction false} DescendingHead(s: seq<Post>, k: nat)
    requires Descending(s) && k < |s|
    ensures !Below(s[0].path, s[k].path)
  {
    if k == 0 {
      BelowIrreflexive(s[0].path);
    }
  }

  lemma {:induction false} MultisetCancel<T>(p: multiset<T>, q: multiset<T>, x: T)
    requires p + multiset{x} == q + multiset{x}
    ensures p == q
  {
    forall y ensures p[y] == q[y] {
      assert (p + multiset{x})[y] == (q + multiset{x})[y];
    }
  }

  /**
   * With distinct paths there is one newest-first arrangement of the posts,
   * so any sort the JavaScript engine uses gives what `SortDesc` gives.
   */
  lemma {:induction false} DescendingUnique(a: seq<Post>, b: seq<Post>)
    requires Descending(a) && Descending(b) && multiset(a) == multiset(b) && DistinctPaths(a)
    ensures a == b
    decreases |a|
  {
    assert |a| == |multiset(a)| == |b|;
    if a != [] {
      assert a[0] in multiset(b) && b[0] in multiset(a);
      var i :| 0 <= i < |b| && b[i] == a[0];
      var j :| 0 <= j < |a| && a[j] == b[0];
      DescendingHead(b, i);
      DescendingHead(a, j);
      BelowTotal(a[0].path, b[0].path);
      assert a[0].path == a[j].path;
      assert j == 0;
      DistinctPathsTail(a);
      DescendingTail(a);
      DescendingTail(b);
      assert a[0] == b[0];
      assert a == [a[0]] + a[1..] && b == [b[0]] + b[1..];
      assert multiset(a) == multiset(a[1..]) + multiset{a[0]};
      assert multiset(b) == multiset(b[1..]) + multiset{a[0]};
      MultisetCancel(multiset(a[1..]), multiset(b[1..]), a[0]);
      DescendingUnique(a[1..], b[1..]);
    }
  }

  // ---- Cutting to rss.length ----

  /** Where `.slice(0, end)` stops on `len` elements; `end` is `None` when the setting is `undefined`. */
  function SliceEnd(len: nat, end: Option<int>): (r: nat)
    ensures r <= len
  {
    match end
    case None => len
    case Some(e) => if e < 0 then (if len + e < 0 then 0 else len + e) else if e < len then e else len
  }

  // ---- Links ----

  /** Whether `s` starts with a match: a character other than `:`, then `//`. */
  predicate MatchAtStart(s: string) {
    |s| >= 3 && s[0] != ':' && s[1] == '/' && s[2] == '/'
  }

  /**
   * `s.replace(/([^:])\/\//g, '$1/')`: scanning left to right, a character
   * other than `:` followed by `//` loses one slash, and the scan resumes
   * after the match.
   */
  function Collapse(s: string): string
    decreases |s|
  {
    if s == [] then []
    else if MatchAtStart(s) then [s[0], '/'] + Collapse(s[3..])
    else [s[0]] + Collapse(s[1..])
  }

  /** `s` with every `/` taken out. */
  function Unslashed(s: string): string
    decreases |s|
  {
    if s == [] then [] else (if s[0] == '/' then [] else [s[0]]) + Unslashed(s[1..])
  }

  lemma {:induction false} UnslashedConcat(x: string, y: string)
    ensures Unslashed(x + y) == Unslashed(x) + Unslashed(y)
    decreases |x|
  {
    if x == [] {
      assert x + y == y;
    } else {
      assert (x + y)[1..] == x[1..] + y;
      UnslashedConcat(x[1..], y);
    }
  }

  /** Collapsing only takes out slashes: every other character stays, in order. */
  lemma {:induction false} CollapseDropsSlashes(s: string)
    ensures |Collapse(s)| <= |s|
    ensures Unslashed(Collapse(s)) == Unslashed(s)
    decreases |s|
  {
    if s != [] {
      CollapseStep(s);
      var head := [s[0]];
      if MatchAtStart(s) {
        CollapseDropsSlashes(s[3..]);
        assert s == head + "//" + s[3..];
        UnslashedConcat(head + "//", s[3..]);
        UnslashedConcat(head, "//");
        UnslashedConcat(head + "/", Collapse(s[3..]));
        UnslashedConcat(head, "/");
      } else {
        CollapseDropsSlashes(s[1..]);
      }
    }
  }

  /** A string with no `//` is left alone. */
  lemma {:induction false} CollapseNoDoubleSlash(s: string)
    requires forall i :: 0 <= i < |s| - 1 ==> !(s[i] == '/' && s[i + 1] == '/')
    ensures Collapse(s) == s
    decreases |s|
  {
    if s != [] {
      CollapseNoDoubleSlash(s[1..]);
      assert s == [s[0]] + s[1..];
    }
  }

  lemma {:induction false} CollapseStep(s: string)
    requires s != []
    ensures MatchAtStart(s) ==> Collapse(s) == [s[0], '/'] + Collapse(s[3..])
    ensures !MatchAtStart(s) ==> Collapse(s) == [s[0]] + Collapse(s[1..])
  {
  }

  lemma {:induction false} MatchAtStartConcat(x: string, y: string)
    requires x != [] && (y == [] || y[0] != '/')
    ensures MatchAtStart(x + y) == MatchAtStart(x)
  {
    var s := x + y;
    assert s[0] == x[0];
    if |x| >= 3 {
      assert s[1] == x[1] && s[2] == x[2];
    } else if |x| == 2 {
      assert s[1] == x[1];
      assert |s| >= 3 ==> s[2] == y[0];
    } else {
      assert |s| >= 3 ==> s[1] == y[0];
    }
  }

  /** No match spans a boundary before a character other than `/`. */
  lemma {:induction false} CollapseSplit(x: string, y: string)
    requires y == [] || y[0] != '/'
    ensures Collapse(x + y) == Collapse(x) + Collapse(y)
    decreases |x|
  {
    var s := x + y;
    if x == [] {
      assert s == y;
    } else {
      MatchAtStartConcat(x, y);
      if MatchAtStart(x) {
        calc {
          Collapse(s);
        == { CollapseStep(s); assert s[3..] == x[3..] + y; }
          [x[0], '/'] + Collapse(x[3..] + y);
        == { CollapseSplit(x[3..], y); }
          [x[0], '/'] + (Collapse(x[3..]) + Collapse(y));
        == { CollapseStep(x); }
          Collapse(x) + Collapse(y);
        }
      } else {
        calc {
          Collapse(s);
        == { CollapseStep(s); assert s[1..] == x[1..] + y; }
          [x[0]] + Collapse(x[1..] + y);
        == { CollapseSplit(x[1..], y); }
          [x[0]] + (Collapse(x[1..]) + Collapse(y));
        == { CollapseStep(x); }
          Collapse(x) + Collapse(y);
        }
      }
    }
  }

  /** `://` before a character other than `/` is not a match. */
  lemma {:induction false} CollapseSeparator(rest: string)
    requires rest == [] || rest[0] != '/'
    ensures Collapse("://" + rest) == "://" + Collapse(rest)
  {
    var t := "://" + rest;
    var u := "//" + rest;
    var v := "/" + rest;
    assert Collapse(v) == "/" + Collapse(rest) by {
      CollapseStep(v);
      assert v[0] == '/' && v[1..] == rest;
      assert !MatchAtStart(v) by {
        if |v| >= 3 {
          assert v[1] == rest[0];
        }
      }
    }
    assert Collapse(u) == "/" + Collapse(v) by {
      CollapseStep(u);
      assert u[0] == '/' && u[1..] == v;
      assert !MatchAtStart(u) by {
        if |u| >= 3 {
          assert u[2] == rest[0];
        }
      }
    }
    assert Collapse(t) == ":" + Collapse(u) by {
      CollapseStep(t);
      assert t[0] == ':' && t[1..] == u;
    }
  }

  /** `scheme://host…` keeps its `://` when the host does not start with a slash. */
  lemma {:induction false} CollapseKeepsScheme(scheme: string, rest: string)
    requires rest == [] || rest[0] != '/'
    ensures Collapse(scheme + "://" + rest) == Collapse(scheme) + "://" + Collapse(rest)
  {
    assert scheme + "://" + rest == scheme + ("://" + rest);
    CollapseSplit(scheme, "://" + rest);
    CollapseSeparator(rest);
  }

  // ---- The channel ----

  /** The settings the feed reads: `rss.title`, `rss.description`, `rss.length` and `loopback_url`. */
  datatype FeedConfig = FeedConfig(title: string, description: string, length: Option<int>, loopbackUrl: string)

  datatype Item = Item(title: string, link: string, pubDate: string)

  datatype Channel = Channel(
    title: string, description: string, link: string,
    lastBuildDate: string, lastPubDate: string, ttl: string,
    items: seq<Item>)

  /** `mapArticle(url, article)`. */
  function ItemOf(url: string, p: Post): Item {
    Item(p.title, Collapse(url + p.url), p.date)
  }

  /** The posts that become items, newest first. */
  function Selected(limit: Option<int>, posts: seq<Post>): (r: seq<Post>)
    ensures |r| == SliceEnd(|posts|, limit)
  {
    SortDescCorrect(posts);
    SortDesc(posts)[..SliceEnd(|posts|, limit)]
  }

  /**
   * `get(dict)` before serialisation: `posts` is `Object.values(dict)` and
   * `now` is `new Date().toString()`.
   */
  function Feed(config: FeedConfig, posts: seq<Post>, now: string): (r: Channel)
    ensures r.title == config.title && r.description == config.description && r.link == config.loopbackUrl
    ensures r.ttl == "60" && r.lastBuildDate == now && r.lastPubDate == now
    ensures |r.items| == SliceEnd(|posts|, config.length)
  {
    var chosen := Selected(config.length, posts);
    Channel(config.title, config.description, config.loopbackUrl, now, now, "60",
            seq(|chosen|, i requires 0 <= i < |chosen| => ItemOf(config.loopbackUrl, chosen[i])))
  }

  /** How many items: all posts without a limit, at most `n` for `n >= 0`, all but `-n` for negative `n`. */
  lemma {:induction false} FeedLength(config: FeedConfig, posts: seq<Post>, now: string)
    ensures config.length.None? ==> |Feed(config, posts, now).items| == |posts|
    ensures config.length.Some? && config.length.value >= 0 ==>
      |Feed(config, posts, now).items| == (if config.length.value < |posts| then config.length.value else |posts|)
    ensures config.length.Some? && config.length.value < 0 ==>
      |Feed(config, posts, now).items| == (if |posts| + config.length.value < 0 then 0 else |posts| + config.length.value)
    ensures posts == [] ==> Feed(config, posts, now).items == []
  {
  }

  /** The posts that do not become items. */
  function Dropped(limit: Option<int>, posts: seq<Post>): seq<Post> {
    SortDescCorrect(posts);
    SortDesc(posts)[SliceEnd(|posts|, limit)..]
  }

  /** Kept and dropped posts together are the posts, and no dropped post is newer than a kept one. */
  lemma {:induction false} SelectedNewest(limit: Option<int>, posts: seq<Post>)
    ensures multiset(Selected(limit, posts)) + multiset(Dropped(limit, posts)) == multiset(posts)
    ensures forall q, p :: q in Selected(limit, posts) && p in Dropped(limit, posts) ==> !Below(q.path, p.path)
  {
    var sorted := SortDesc(posts);
    SortDescCorrect(posts);
    var k := SliceEnd(|posts|, limit);
    assert sorted == Selected(limit, posts) + Dropped(limit, posts);
    forall q, p | q in Selected(limit, posts) && p in Dropped(limit, posts) ensures !Below(q.path, p.path) {
      var i :| 0 <= i < k && sorted[..k][i] == q;
      var j :| 0 <= j < |sorted| - k && sorted[k..][j] == p;
      assert sorted[i] == q && sorted[k + j] == p;
    }
  }

  /** Item `i` is made from the `i`-th newest post, with the blog's URL, and takes its title and date. */
  lemma {:induction false} FeedItems(config: FeedConfig, posts: seq<Post>, now: string, i: nat)
    requires i < |Feed(config, posts, now).items|
    ensures var item := Feed(config, posts, now).items[i];
      var p := Selected(config.length, posts)[i];
      && p in posts
      && item.title == p.title && item.pubDate == p.date
      && item.link == Collapse(config.loopbackUrl + p.url)
  {
    SelectedNewest(config.length, posts);
    var p := Selected(config.length, posts)[i];
    assert p in multiset(posts);
  }

  /** Item links keep the `://` of the blog's URL when its host does not start with a slash. */
  lemma {:induction false} ItemLinkScheme(scheme: string, host: string, p: Post)
    requires host != [] && host[0] != '/'
    ensures ItemOf(scheme + "://" + host, p).link == Collapse(scheme) + "://" + Collapse(host + p.url)
  {
    assert scheme + "://" + host + p.url == scheme + "://" + (host + p.url);
    CollapseKeepsScheme(scheme, host + p.url);
  }
}
