/**
 * src/app.js: the server keeps the catalog of articles in one array,
 * replaced whole by `reload` when the scan of the data directory
 * succeeds, and `start` listens only once a reload has succeeded.
 *
 * The data directory is given as the `Listing` the file system would
 * report; the HTTP server is the `listening` flag.
 */
module App {
  import opened Wrappers
  import opened FileWalker

  /** Every article of a successful scan comes from a file somewhere under the data directory. */
  lemma {:induction false} CatalogFromTree(dataDir: string, index: string, tree: Listing, a: Article) returns (file: string)
    requires FileTree(dataDir, tree).Success?
    requires a in Articles(dataDir, index, FileTree(dataDir, tree).value)
    ensures Lists(dataDir, tree, file) && ArticleOf(dataDir, index, file) == Some(a)
  {
    var files := FileTree(dataDir, tree).value;
    var i := ArticleFrom(dataDir, index, files, a);
    file := files[i];
    FileTreeContents(dataDir, tree, file);
  }

  /** Every file under the data directory that names a dated article is in the catalog. */
  lemma {:induction false} CatalogComplete(dataDir: string, index: string, tree: Listing, file: string)
    requires FileTree(dataDir, tree).Success?
    requires Lists(dataDir, tree, file) && ArticleOf(dataDir, index, file).Some?
    ensures ArticleOf(dataDir, index, file).value in Articles(dataDir, index, FileTree(dataDir, tree).value)
  {
    var files := FileTree(dataDir, tree).value;
    FileTreeContents(dataDir, tree, file);
    var i :| 0 <= i < |files| && files[i] == file;
    ArticleKept(dataDir, index, files, i);
  }

  class Server {
    /** `data_dir`. */
    const dataDir: string
    /** `article_index`. */
    const index: string
    /** `articles`. */
    var articles: seq<Article>
    /** Whether `app.listen` has been called. */
    var listening: bool

    constructor(dataDir: string, index: string)
      ensures this.dataDir == dataDir && this.index == index
      ensures articles == [] && !listening
    {
      this.dataDir := dataDir;
      this.index := index;
      articles := [];
      listening := false;
    }

    /**
     * `reload(callback)`: `ok` is the value passed to the callback. On an
     * error the catalog is left as it was; otherwise it becomes the
     * fetched list.
     */
    method Reload(tree: Listing) returns (ok: bool)
      modifies this
      ensures ok <==> FileTree(dataDir, tree).Success?
      ensures ok <==> Readable(tree)
      ensures ok ==> articles == Articles(dataDir, index, FileTree(dataDir, tree).value)
      ensures !ok ==> articles == old(articles)
      ensures listening == old(listening)
    {
      var scan := FileTree(dataDir, tree);
      FileTreeSucceeds(dataDir, tree);
      var list := FetchArticles(dataDir, index, scan);
      if list.Failure? {
        return false;
      }
      articles := list.value;
      return true;
    }

    /** `app.start()`: reload, and listen when the reload succeeded. */
    method Start(tree: Listing)
      modifies this
      ensures listening <==> old(listening) || Readable(tree)
      ensures FileTree(dataDir, tree).Success? ==> articles == Articles(dataDir, index, FileTree(dataDir, tree).value)
      ensures FileTree(dataDir, tree).Failure? ==> articles == old(articles)
    {
      var ok := Reload(tree);
      if ok {
        listening := true;
      }
    }
  }
}
