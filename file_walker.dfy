/**
 * src/file_walker.js: `fileTree` lists every file below a directory, at any
 * depth, as `${path}/${name}`; `fetchArticles` keeps the files whose path
 * below `data_dir` is `/YYYY/MM/DD/<index>` and turns each into an article
 * record.
 *
 * The file system is a value: a directory listing is either unreadable
 * (`fs.readdir` reports an error) or a sequence of entries, each a file or
 * a sub-directory with its own listing.
 */
module FileWalker {
  import opened Wrappers
  import opened Text

  datatype Entry = File(name: string) | Dir(name: string, listing: Listing)

  /** What `fs.readdir` gives for one directory: an error, or its entries. */
  datatype Listing = Unreadable(error: string) | Items(entries: seq<Entry>)

  /** `${path}/${name}`. */
  function Join(path: string, name: string): string {
    path + "/" + name
  }

  // ---- fileTree ----

  /**
   * `fileTree(path, cb)`: an unreadable directory at any depth ends in its
   * error; otherwise every file, directories entered. The order here is
   * that of the entries; the source's order depends on when each
   * sub-directory's listing arrives, so the lemmas below speak of contents.
   */
  function FileTree(path: string, l: Listing): Result<seq<string>, string>
    decreases l, 1
  {
    match l
    case Unreadable(err) => Failure(err)
    case Items(_) => EntriesTree(path, l, 0)
  }

  /** The `forEach` over the entries from the `i`-th on. */
  function EntriesTree(path: string, l: Listing, i: nat): Result<seq<string>, string>
    requires l.Items?
    decreases l, 0, |l.entries| - i
  {
    if i >= |l.entries| then Success([])
    else
      var e := l.entries[i];
      assert e in l.entries;
      var here := match e
        case File(n) => Success([Join(path, n)])
        case Dir(n, sub) => FileTree(Join(path, n), sub);
      match here
      case Failure(err) => Failure(err)
      case Success(xs) =>
        match EntriesTree(path, l, i + 1)
        case Failure(err) => Failure(err)
        case Success(ys) => Success(xs + ys)
  }

  /** Every directory at any depth can be read. */
  ghost predicate Readable(l: Listing)
    decreases l, 1
  {
    l.Items? && EntriesReadable(l, 0)
  }

  ghost predicate EntriesReadable(l: Listing, i: nat)
    requires l.Items?
    decreases l, 0, |l.entries| - i
  {
    i < |l.entries| ==>
      (var e := l.entries[i];
       assert e in l.entries;
       (e.Dir? ==> Readable(e.listing)) && EntriesReadable(l, i + 1))
  }

  /** `p` names a file (never a directory) somewhere below `path`. */
  ghost predicate Lists(path: string, l: Listing, p: string)
    decreases l, 1
  {
    l.Items? && EntriesList(path, l, 0, p)
  }

  ghost predicate EntriesList(path: string, l: Listing, i: nat, p: string)
    requires l.Items?
    decreases l, 0, |l.entries| - i
  {
    i < |l.entries| &&
      (var e := l.entries[i];
       assert e in l.entries;
       (match e
        case File(n) => p == Join(path, n)
        case Dir(n, sub) => Lists(Join(path, n), sub, p))
       || EntriesList(path, l, i + 1, p))
  }

  /** The number of files at any depth. */
  function FileCount(l: Listing): nat
    decreases l, 1
  {
    match l
    case Unreadable(_) => 0
    case Items(_) => EntriesCount(l, 0)
  }

  function EntriesCount(l: Listing, i: nat): nat
    requires l.Items?
    decreases l, 0, |l.entries| - i
  {
    if i >= |l.entries| then 0
    else
      var e := l.entries[i];
      assert e in l.entries;
      (match e
       case File(_) => 1
       case Dir(_, sub) => FileCount(sub))
      + EntriesCount(l, i + 1)
  }

  /** `fileTree` succeeds exactly when no directory at any depth is unreadable. */
  lemma {:induction false} FileTreeSucceeds(path: string, l: Listing)
    decreases l, 1
    ensures FileTree(path, l).Success? <==> Readable(l)
  {
    if l.Items? {
      EntriesTreeSucceeds(path, l, 0);
    }
  }

  lemma {:induction false} EntriesTreeSucceeds(path: string, l: Listing, i: nat)
    requires l.Items?
    decreases l, 0, |l.entries| - i
    ensures EntriesTree(path, l, i).Success? <==> EntriesReadable(l, i)
  {
    if i < |l.entries| {
      var e := l.entries[i];
      assert e in l.entries;
      if e.Dir? {
        FileTreeSucceeds(Join(path, e.name), e.listing);
      }
      EntriesTreeSucceeds(path, l, i + 1);
    }
  }

  /**
   * The list holds exactly the files at any depth, each as its full path,
   * and as many entries as there are files.
   */
  lemma {:induction false} FileTreeContents(path: string, l: Listing, p: string)
    requires FileTree(path, l).Success?
    decreases l, 1
    ensures p in FileTree(path, l).value <==> Lists(path, l, p)
    ensures |FileTree(path, l).value| == FileCount(l)
  {
    EntriesTreeContents(path, l, 0, p);
  }

  lemma {:induction false} EntriesTreeContents(path: string, l: Listing, i: nat, p: string)
    requires l.Items? && EntriesTree(path, l, i).Success?
    decreases l, 0, |l.entries| - i
    ensures p in EntriesTree(path, l, i).value <==> EntriesList(path, l, i, p)
    ensures |EntriesTree(path, l, i).value| == EntriesCount(l, i)
  {
    if i < |l.entries| {
      var e := l.entries[i];
      assert e in l.entries;
      EntriesTreeContents(path, l, i + 1, p);
      match e {
        case File(n) =>
        case Dir(n, sub) =>
          FileTreeContents(Join(path, n), sub, p);
      }
    }
  }

  // ---- fetchArticles ----

  /** The record pushed for each kept file. */
  datatype Article = Article(path: string, year: nat, month: nat, day: nat)

  /** `s.substr(0, n)`: a negative length gives the empty string, a long one the whole string. */
  function Prefix(s: string, n: int): (r: string)
    ensures 0 <= n <= |s| ==> r == s[..n]
    ensures n < 0 ==> r == []
  {
    if n < 0 then [] else if n <= |s| then s[..n] else s
  }

  /** /^\/(\d{4})\/(\d{2})\/(\d{2})\/$/: a slash, four digits, a slash, two digits, a slash, two digits, a slash. */
  predicate DateDir(q: string) {
    |q| == 12 && q[0] == '/' && q[5] == '/' && q[8] == '/' && q[11] == '/'
    && IsDigit(q[1]) && IsDigit(q[2]) && IsDigit(q[3]) && IsDigit(q[4])
    && IsDigit(q[6]) && IsDigit(q[7]) && IsDigit(q[9]) && IsDigit(q[10])
  }

  /** The three groups of a `DateDir` are digits, so `parseInt` reads each in full. */
  lemma {:induction false} DateDigits(q: string)
    requires DateDir(q)
    ensures forall i :: 0 <= i < 4 ==> IsDigit(q[1..5][i])
    ensures forall i :: 0 <= i < 2 ==> IsDigit(q[6..8][i]) && IsDigit(q[9..11][i])
  {
  }

  /**
   * The `map`/`filter` chain on one path: the part after `data_dir`, kept
   * if the index name first occurs at its very end, that name cut off, the
   * rest matched by the date pattern, and the record built from the match.
   */
  function ArticleOf(dataDir: string, index: string, file: string): Option<Article>
  {
    var rel := SliceFrom(file, |dataDir|);
    if IndexOf(rel, index) != |rel| - |index| then None
    else
      var q := Prefix(rel, |rel| - |index|);
      if DateDir(q) then
        DateDigits(q);
        Some(Article(dataDir + q + index, DecimalValue(q[1..5]), DecimalValue(q[6..8]), DecimalValue(q[9..11])))
      else None
  }

  /** The records of the kept files, in scan order. */
  function Articles(dataDir: string, index: string, files: seq<string>): seq<Article>
  {
    if files == [] then []
    else
      var x := Articles(dataDir, index, files[..|files| - 1]);
      match ArticleOf(dataDir, index, files[|files| - 1])
      case Some(a) => x + [a]
      case None => x
  }

  /** `fetchArticles(cb)`, given what `fileTree(data_dir)` reported: its error, or the records. */
  method FetchArticles(dataDir: string, index: string, scan: Result<seq<string>, string>) returns (r: Result<seq<Article>, string>)
    ensures scan.Failure? ==> r == Failure(scan.error)
    ensures scan.Success? ==> r == Success(Articles(dataDir, index, scan.value))
  {
    if scan.Failure? {
      return Failure(scan.error);
    }
    var files := scan.value;
    var list := [];
    for i := 0 to |files|
      invariant list == Articles(dataDir, index, files[..i])
    {
      assert files[..i + 1][..i] == files[..i];
      var a := ArticleOf(dataDir, index, files[i]);
      if a.Some? {
        list := list + [a.value];
      }
    }
    assert files[..|files|] == files;
    r := Success(list);
  }

  /**
   * A kept file's record: below `data_dir` the path is a date directory
   * `q` followed by the index name, which occurs there first; the record's
   * path is the file's own path whenever the file lies below `data_dir`;
   * the three numbers are the digit groups of `q`.
   */
  lemma {:induction false} ArticleOfKept(dataDir: string, index: string, file: string) returns (q: string)
    requires ArticleOf(dataDir, index, file).Some?
    ensures DateDir(q) && |dataDir| <= |file| && file[|dataDir|..] == q + index
    ensures IndexOf(q + index, index) == 12
    ensures ArticleOf(dataDir, index, file).value
      == Article(dataDir + q + index, DecimalValue(q[1..5]), DecimalValue(q[6..8]), DecimalValue(q[9..11]))
    ensures file[..|dataDir|] == dataDir ==> ArticleOf(dataDir, index, file).value.path == file
  {
    var rel := SliceFrom(file, |dataDir|);
    q := Prefix(rel, |rel| - |index|);
    KeptSplit(rel, index);
    if file[..|dataDir|] == dataDir {
      assert file == dataDir + rel;
    }
  }

  /** The index name found at the very end, after a date directory: the path is that directory and the name. */
  lemma {:induction false} KeptSplit(rel: string, index: string)
    requires IndexOf(rel, index) == |rel| - |index| && DateDir(Prefix(rel, |rel| - |index|))
    ensures |rel| == 12 + |index| && rel == Prefix(rel, 12) + index
  {
    assert |Prefix(rel, |rel| - |index|)| == 12;
    assert StartsAt(rel, 12, index);
    assert rel == rel[..12] + rel[12..];
  }

  /** Conversely, a file at `data_dir/YYYY/MM/DD/<index>` whose index name first occurs there is kept, with its own path. */
  lemma {:induction false} ArticleOfDated(dataDir: string, q: string, index: string)
    requires DateDir(q) && IndexOf(q + index, index) == 12
    ensures ArticleOf(dataDir, index, dataDir + q + index)
      == Some(Article(dataDir + q + index, DecimalValue(q[1..5]), DecimalValue(q[6..8]), DecimalValue(q[9..11])))
  {
    var rel := q + index;
    var file := dataDir + q + index;
    assert file == dataDir + rel;
    assert SliceFrom(file, |dataDir|) == rel;
    assert Prefix(rel, |rel| - |index|) == q;
  }

  /** A file whose index name occurs earlier than the end of its path, or not at all, is dropped. */
  lemma {:induction false} ArticleOfMisplaced(dataDir: string, index: string, file: string)
    requires |dataDir| <= |file| && IndexOf(file[|dataDir|..], index) != |file| - |dataDir| - |index|
    ensures ArticleOf(dataDir, index, file).None?
  {
  }

  /** Every record comes from a kept file of the scan. */
  lemma {:induction false} ArticleFrom(dataDir: string, index: string, files: seq<string>, a: Article) returns (i: nat)
    requires a in Articles(dataDir, index, files)
    ensures i < |files| && ArticleOf(dataDir, index, files[i]) == Some(a)
  {
    var init := files[..|files| - 1];
    if a in Articles(dataDir, index, init) {
      i := ArticleFrom(dataDir, index, init, a);
      assert files[i] == init[i];
    } else {
      i := |files| - 1;
    }
  }

  /** Every kept file of the scan gives its record. */
  lemma {:induction false} ArticleKept(dataDir: string, index: string, files: seq<string>, i: nat)
    requires i < |files| && ArticleOf(dataDir, index, files[i]).Some?
    ensures ArticleOf(dataDir, index, files[i]).value in Articles(dataDir, index, files)
  {
    var init := files[..|files| - 1];
    if i < |init| {
      assert init[i] == files[i];
      ArticleKept(dataDir, index, init, i);
    }
  }

  /** At most one record per file. */
  lemma {:induction false} ArticlesLength(dataDir: string, index: string, files: seq<string>)
    ensures |Articles(dataDir, index, files)| <= |files|
  {
    if files != [] {
      ArticlesLength(dataDir, index, files[..|files| - 1]);
    }
  }

  /** Records appear in the order of the files they come from. */
  lemma {:induction false} ArticlesAppend(dataDir: string, index: string, xs: seq<string>, ys: seq<string>)
    decreases |ys|
    ensures Articles(dataDir, index, xs + ys) == Articles(dataDir, index, xs) + Articles(dataDir, index, ys)
  {
    if ys == [] {
      assert xs + ys == xs;
    } else {
      var init := ys[..|ys| - 1];
      assert (xs + ys)[..|xs + ys| - 1] == xs + init;
      assert (xs + ys)[|xs + ys| - 1] == ys[|ys| - 1];
      ArticlesAppend(dataDir, index, xs, init);
    }
  }
}
