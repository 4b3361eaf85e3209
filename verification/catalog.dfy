/**
 * The scan of the downloads folder (`LoadDaisyBooksAsync`): each `*.zip` path, in listing
 * order, is examined with `GetDaisyBookInfo`, and the non-null results are collected. The
 * file system is a map from path to archive; a path it does not hold reads as an archive that
 * cannot be opened.
 */
module Catalog {
  import opened Wrappers
  import opened Paths
  import opened Metadata

  /** The archive found at `path`. */
  function Lookup(fs: map<string, Archive>, path: string): (a: Archive)
    ensures path !in fs ==> a.Unreadable?
    ensures path in fs ==> a == fs[path]
  {
    if path in fs then fs[path] else Unreadable
  }

  /** What the scan learns about one path. */
  function Info(fs: map<string, Archive>, invalid: set<char>, path: string): Option<BookInfo>
  {
    GetDaisyBookInfo(path, Lookup(fs, path), invalid)
  }

  /** What the scan learns about each path, position by position. */
  function Infos(fs: map<string, Archive>, invalid: set<char>, paths: seq<string>): (r: seq<Option<BookInfo>>)
    ensures |r| == |paths| && forall i :: 0 <= i < |paths| ==> r[i] == Info(fs, invalid, paths[i])
  {
    seq(|paths|, i requires 0 <= i < |paths| => Info(fs, invalid, paths[i]))
  }

  /** The present values of `xs`, in order. */
  function Somes<T>(xs: seq<Option<T>>): (r: seq<T>)
    ensures |r| <= |xs|
  {
    if xs == [] then []
    else
      var earlier := Somes(xs[..|xs| - 1]);
      match xs[|xs| - 1]
      case None => earlier
      case Some(b) => earlier + [b]
  }

  /** The positions of the present values of `xs`, in increasing order. */
  function SomeIndices<T>(xs: seq<Option<T>>): (idx: seq<nat>)
    ensures forall k :: 0 <= k < |idx| ==> idx[k] < |xs|
    ensures forall k, l :: 0 <= k < l < |idx| ==> idx[k] < idx[l]
    ensures forall i :: 0 <= i < |xs| ==> (xs[i].Some? <==> i in idx)
  {
    if xs == [] then []
    else
      var n := |xs| - 1;
      var earlier := SomeIndices(xs[..n]);
      assert forall i :: 0 <= i < n ==> xs[..n][i] == xs[i];
      if xs[n].Some? then earlier + [n] else earlier
  }

  /** The k-th present value stands at the k-th present position. */
  lemma {:induction false} SomesAtIndices<T>(xs: seq<Option<T>>)
    ensures |Somes(xs)| == |SomeIndices(xs)|
    ensures forall k :: 0 <= k < |SomeIndices(xs)| ==> xs[SomeIndices(xs)[k]] == Some(Somes(xs)[k])
  {
    if xs != [] {
      var n := |xs| - 1;
      SomesAtIndices(xs[..n]);
      var idx := SomeIndices(xs[..n]);
      assert forall k :: 0 <= k < |idx| ==> xs[..n][idx[k]] == xs[idx[k]];
    }
  }

  /** An absent value leaves the present ones as they were. */
  lemma {:induction false} SomesSkipNone<T>(before: seq<Option<T>>, after: seq<Option<T>>)
    ensures Somes(before + [None] + after) == Somes(before + after)
    decreases |after|
  {
    if after == [] {
      assert (before + [None])[..|before|] == before;
      assert before + [] == before;
      assert before + [None] + [] == before + [None];
    } else {
      var n := |after| - 1;
      SomesSkipNone(before, after[..n]);
      assert (before + [None] + after)[..|before| + 1 + n] == before + [None] + after[..n];
      assert (before + after)[..|before| + n] == before + after[..n];
    }
  }

  /** The books the scan collects from `paths`, in order. */
  function BooksOf(fs: map<string, Archive>, invalid: set<char>, paths: seq<string>): seq<BookInfo>
  {
    Somes(Infos(fs, invalid, paths))
  }

  /** The positions of the book archives in `paths`. */
  function BookIndices(fs: map<string, Archive>, invalid: set<char>, paths: seq<string>): seq<nat>
  {
    SomeIndices(Infos(fs, invalid, paths))
  }

  /** The scan keeps exactly the book archives, in listing order: the positions it keeps increase,
      a position is kept exactly when its archive is a book, and the k-th book collected is the
      descriptor of the k-th kept archive. */
  lemma ScanCharacterised(fs: map<string, Archive>, invalid: set<char>, paths: seq<string>)
    ensures var books, idx := BooksOf(fs, invalid, paths), BookIndices(fs, invalid, paths);
      && |books| == |idx|
      && (forall k, l :: 0 <= k < l < |idx| ==> idx[k] < idx[l])
      && (forall i :: 0 <= i < |paths| ==> (Info(fs, invalid, paths[i]).Some? <==> i in idx))
      && (forall k :: 0 <= k < |idx| ==> idx[k] < |paths| && Info(fs, invalid, paths[idx[k]]) == Some(books[k]))
  {
    SomesAtIndices(Infos(fs, invalid, paths));
  }

  /** Every present value is kept. */
  lemma SomeKept<T>(xs: seq<Option<T>>, i: nat)
    requires i < |xs| && xs[i].Some?
    ensures xs[i].value in Somes(xs)
  {
    SomesAtIndices(xs);
    var idx := SomeIndices(xs);
    var k :| 0 <= k < |idx| && idx[k] == i;
    assert Somes(xs)[k] == xs[i].value;
  }

  /** Every value kept is present somewhere. */
  lemma KeptSome<T>(xs: seq<Option<T>>, k: nat)
    requires k < |Somes(xs)|
    ensures exists i :: 0 <= i < |xs| && xs[i] == Some(Somes(xs)[k])
  {
    SomesAtIndices(xs);
    assert xs[SomeIndices(xs)[k]] == Some(Somes(xs)[k]);
  }

  /** Every archive that is a book contributes its descriptor. */
  lemma ScanComplete(fs: map<string, Archive>, invalid: set<char>, paths: seq<string>, i: nat)
    requires i < |paths| && Info(fs, invalid, paths[i]).Some?
    ensures Info(fs, invalid, paths[i]).value in BooksOf(fs, invalid, paths)
  {
    SomeKept(Infos(fs, invalid, paths), i);
  }

  /** Every descriptor collected comes from some archive in the listing. */
  lemma ScanSound(fs: map<string, Archive>, invalid: set<char>, paths: seq<string>, k: nat)
    requires k < |BooksOf(fs, invalid, paths)|
    ensures exists i :: 0 <= i < |paths| && Info(fs, invalid, paths[i]) == Some(BooksOf(fs, invalid, paths)[k])
  {
    var xs := Infos(fs, invalid, paths);
    KeptSome(xs, k);
    var i :| 0 <= i < |xs| && xs[i] == Some(Somes(xs)[k]);
    assert Info(fs, invalid, paths[i]) == Some(BooksOf(fs, invalid, paths)[k]);
  }

  /** A failing archive is skipped without disturbing what the rest contribute. */
  lemma ScanSkipsFailures(fs: map<string, Archive>, invalid: set<char>, before: seq<string>, bad: string, after: seq<string>)
    requires Info(fs, invalid, bad).None?
    ensures BooksOf(fs, invalid, before + [bad] + after) == BooksOf(fs, invalid, before + after)
  {
    var b, a := Infos(fs, invalid, before), Infos(fs, invalid, after);
    InfosAppend(fs, invalid, before + [bad], after);
    InfosAppend(fs, invalid, before, [bad]);
    InfosAppend(fs, invalid, before, after);
    assert Infos(fs, invalid, [bad]) == [None];
    SomesSkipNone(b, a);
  }

  /** Examining a concatenation is examining its parts. */
  lemma InfosAppend(fs: map<string, Archive>, invalid: set<char>, p: seq<string>, q: seq<string>)
    ensures Infos(fs, invalid, p + q) == Infos(fs, invalid, p) + Infos(fs, invalid, q)
  {
    var l, r := Infos(fs, invalid, p + q), Infos(fs, invalid, p) + Infos(fs, invalid, q);
    forall i | 0 <= i < |l| ensures l[i] == r[i] {
      if i < |p| { assert (p + q)[i] == p[i]; } else { assert (p + q)[i] == q[i - |p|]; }
    }
  }

  /** The scan loop of `LoadDaisyBooksAsync`: one path at a time, appending each descriptor
      `GetDaisyBookInfo` returns and skipping the rest. */
  method Scan(fs: map<string, Archive>, invalid: set<char>, zipFiles: seq<string>) returns (books: seq<BookInfo>)
    ensures books == BooksOf(fs, invalid, zipFiles)
  {
    books := [];
    var i := 0;
    while i < |zipFiles|
      invariant 0 <= i <= |zipFiles|
      invariant books == Somes(Infos(fs, invalid, zipFiles)[..i])
    {
      assert Infos(fs, invalid, zipFiles)[..i + 1][..i] == Infos(fs, invalid, zipFiles)[..i];
      var bookInfo := GetDaisyBookInfo(zipFiles[i], Lookup(fs, zipFiles[i]), invalid);
      if bookInfo.Some? {
        books := books + [bookInfo.value];
      }
      i := i + 1;
    }
    assert Infos(fs, invalid, zipFiles)[..i] == Infos(fs, invalid, zipFiles);
  }

  /** A line of the book list: a placeholder message or a book. */
  datatype Item = Placeholder(text: string) | BookItem(book: BookInfo)

  const NoZipFiles: string := "Ei löydetty ZIP-tiedostoja."
  const NoBooks: string := "Ei löydetty DAISY-kirjoja."

  /** The list shown once the scan is over: a placeholder when there is no archive or no book,
      otherwise one line per book in scan order. */
  function ListItems(zipFiles: seq<string>, books: seq<BookInfo>): (items: seq<Item>)
    ensures zipFiles == [] ==> items == [Placeholder(NoZipFiles)]
    ensures zipFiles != [] && books == [] ==> items == [Placeholder(NoBooks)]
    ensures zipFiles != [] && books != [] ==>
      |items| == |books| && forall k :: 0 <= k < |books| ==> items[k] == BookItem(books[k])
  {
    if zipFiles == [] then [Placeholder(NoZipFiles)]
    else if books == [] then [Placeholder(NoBooks)]
    else seq(|books|, k requires 0 <= k < |books| => BookItem(books[k]))
  }

  /** A path the file system does not hold is not a book: it reads as an archive that cannot
      be opened, and `GetDaisyBookInfo` returns null for that. */
  lemma UnlistedNotABook(fs: map<string, Archive>, invalid: set<char>, path: string)
    requires path !in fs
    ensures Info(fs, invalid, path).None?
  {
  }

  /** The list shown after a scan of `zipFiles`: the no-archive placeholder for an empty
      listing, the no-book placeholder when no archive is a book, and otherwise a line for
      every book archive and only for book archives. */
  lemma ShownList(fs: map<string, Archive>, invalid: set<char>, zipFiles: seq<string>)
    ensures var items := ListItems(zipFiles, BooksOf(fs, invalid, zipFiles));
      && (zipFiles == [] ==> items == [Placeholder(NoZipFiles)])
      && (zipFiles != [] && (forall i :: 0 <= i < |zipFiles| ==> Info(fs, invalid, zipFiles[i]).None?)
          ==> items == [Placeholder(NoBooks)])
      && (forall i :: 0 <= i < |zipFiles| && Info(fs, invalid, zipFiles[i]).Some? ==>
            BookItem(Info(fs, invalid, zipFiles[i]).value) in items)
      && (forall k :: 0 <= k < |items| && items[k].BookItem? ==>
            (exists i :: 0 <= i < |zipFiles| && Info(fs, invalid, zipFiles[i]) == Some(items[k].book)))
  {
    var books, idx := BooksOf(fs, invalid, zipFiles), BookIndices(fs, invalid, zipFiles);
    var items := ListItems(zipFiles, books);
    ScanCharacterised(fs, invalid, zipFiles);
    if books != [] {
      assert Info(fs, invalid, zipFiles[idx[0]]).Some?;
    }
    forall i | 0 <= i < |zipFiles| && Info(fs, invalid, zipFiles[i]).Some?
      ensures BookItem(Info(fs, invalid, zipFiles[i]).value) in items
    {
      var k :| 0 <= k < |idx| && idx[k] == i;
      assert items[k] == BookItem(books[k]);
    }
    forall k | 0 <= k < |items| && items[k].BookItem?
      ensures exists i :: 0 <= i < |zipFiles| && Info(fs, invalid, zipFiles[i]) == Some(items[k].book)
    {
      assert Info(fs, invalid, zipFiles[idx[k]]) == Some(items[k].book);
    }
  }

  /** An archive whose only entry is not named "ncc.html" is not a book. */
  lemma NotesNotABook()
    ensures GetDaisyBookInfo("notes.zip", Zip([Entry("readme.txt", Some("notes"))]), InvalidFileNameChars).None?
  {
    FileNameOfAppend([], "readme.txt");
    assert [] + "readme.txt" == "readme.txt";
    assert !IsMarker(Entry("readme.txt", Some("notes")));
  }

  /** A book followed by a non-book gives exactly the book's descriptor. */
  lemma BookThenNonBook(fs: map<string, Archive>, invalid: set<char>, p: string, q: string)
    requires Info(fs, invalid, p).Some? && Info(fs, invalid, q).None?
    ensures BooksOf(fs, invalid, [p, q]) == [Info(fs, invalid, p).value]
  {
    var xs := Infos(fs, invalid, [p, q]);
    var v := Info(fs, invalid, p).value;
    assert xs == [Some(v), None];
    SomesOfPair(v);
  }

  lemma SomesOfPair<T>(v: T)
    ensures Somes([Some(v), None]) == [v]
  {
    assert [Some(v), None][..1] == [Some(v)];
    assert [Some(v)][..0] == [];
  }

  /** The two-archive example: a DAISY book and an archive without a marker entry give exactly
      one descriptor. */
  lemma OneBookAmongTwo()
    ensures var fs := map["book1.zip" := Zip([Entry("book1/NCC.HTML", Some(VoicesHtml()))]),
                          "notes.zip" := Zip([Entry("readme.txt", Some("notes"))])];
      BooksOf(fs, InvalidFileNameChars, ["book1.zip", "notes.zip"])
        == [BookInfo("book1.zip", "Voices", "A. Author", "Voices")]
  {
    var fs := map["book1.zip" := Zip([Entry("book1/NCC.HTML", Some(VoicesHtml()))]),
                  "notes.zip" := Zip([Entry("readme.txt", Some("notes"))])];
    VoicesBook();
    NotesNotABook();
    assert Lookup(fs, "book1.zip") == Zip([Entry("book1/NCC.HTML", Some(VoicesHtml()))]);
    assert Lookup(fs, "notes.zip") == Zip([Entry("readme.txt", Some("notes"))]);
    BookThenNonBook(fs, InvalidFileNameChars, "book1.zip", "notes.zip");
  }
}
