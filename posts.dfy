/**
 The post store's two read operations. `getAllPosts` maps every file name
 of the posts directory to a listing entry and sorts the entries newest
 first; `getPost` reads one file and renders its body.

 Reading the directory and the files and parsing the frontmatter are
 given as one function `load` from a file name to its parsed frontmatter
 and body; the markdown renderer is given as a function `render`. The
 frontmatter date is an integer timestamp (what `getTime()` returns).
 */
module Posts {
  import opened Snippets
  import opened Slugs

  /** The frontmatter of a post: its date and its other fields. */
  datatype FrontMatter = FrontMatter(date: int, fields: map<string, string>)

  /** A parsed post file: the frontmatter and the markdown body after it. */
  datatype Parsed = Parsed(data: FrontMatter, content: string)

  /** One element of the listing. */
  datatype Entry = Entry(slug: string, fileName: string, data: FrontMatter, snippet: string)

  /** The result of reading one post. */
  datatype Post = Post(slug: string, data: FrontMatter, contentHtml: string)

  /** The callback given to `.map`: the listing entry of one file. */
  function MakeEntry(fileName: string, parsed: Parsed): (e: Entry)
    ensures e.fileName == fileName && e.data == parsed.data
    ensures e.slug == Slug(fileName)
    ensures e.snippet == BodySnippet(parsed.content)
    ensures |e.snippet| <= SnippetLimit + |Ellipsis| && NoMarkup(e.snippet)
  {
    Entry(Slug(fileName), fileName, parsed.data, BodySnippet(parsed.content))
  }

  /** `fileNames.map(...)`: one entry per file name, in directory order. */
  function MapEntries(fileNames: seq<string>, load: string -> Parsed): (r: seq<Entry>)
    ensures |r| == |fileNames|
    ensures forall i :: 0 <= i < |r| ==> r[i] == MakeEntry(fileNames[i], load(fileNames[i]))
  {
    if fileNames == [] then []
    else [MakeEntry(fileNames[0], load(fileNames[0]))] + MapEntries(fileNames[1..], load)
  }

  /** The timestamp of an entry's date. */
  function Key(e: Entry): int {
    e.data.date
  }

  /** The comparator given to `.sort`: `dateB.getTime() - dateA.getTime()`. */
  function Compare(a: Entry, b: Entry): (d: int)
    ensures d <= 0 <==> Key(a) >= Key(b)
  {
    Key(b) - Key(a)
  }

  /** The comparator accepts every neighbouring pair: no date is followed by a newer one. */
  predicate NewestFirst(s: seq<Entry>) {
    forall i :: 0 < i < |s| ==> Compare(s[i - 1], s[i]) <= 0
  }

  /** In a newest-first sequence every entry is at least as new as every later one. */
  lemma {:induction false} NewestFirstOrdered(s: seq<Entry>)
    requires NewestFirst(s)
    ensures forall i, j :: 0 <= i < j < |s| ==> Key(s[i]) >= Key(s[j])
  {
    if s != [] {
      NewestFirstOrdered(s[1..]);
      forall j | 0 < j < |s|
        ensures Key(s[0]) >= Key(s[j])
      {
        if j > 1 {
          assert Key(s[1]) >= Key(s[j]) by {
            assert s[1] == s[1..][0] && s[j] == s[1..][j - 1];
          }
        }
      }
      forall i, j | 0 < i < j < |s|
        ensures Key(s[i]) >= Key(s[j])
      {
        assert s[i] == s[1..][i - 1] && s[j] == s[1..][j - 1];
      }
    }
  }

  /** The entries of `s` dated `date`, in their order in `s`. */
  function WithDate(s: seq<Entry>, date: int): (r: seq<Entry>)
    ensures |r| <= |s|
  {
    if s == [] then []
    else (if Key(s[0]) == date then [s[0]] else []) + WithDate(s[1..], date)
  }

  /** The file names of a sequence of entries, in order. */
  function FileNames(s: seq<Entry>): (r: seq<string>)
    ensures |r| == |s|
    ensures forall i :: 0 <= i < |s| ==> r[i] == s[i].fileName
  {
    if s == [] then [] else [s[0].fileName] + FileNames(s[1..])
  }

  /**
   One insertion step of a stable sort: `e` goes before the first entry
   that is not newer than it, so it stays ahead of every entry with the
   same date. The entries keep their multiset, one `e` more.
   */
  function Insert(e: Entry, s: seq<Entry>): (r: seq<Entry>)
    ensures multiset(r) == multiset(s) + multiset{e}
    ensures |r| == |s| + 1
    ensures s != [] ==> r[0] == e || r[0] == s[0]
  {
    if s == [] then [e]
    else if Compare(e, s[0]) <= 0 then [e] + s
    else
      assert s == [s[0]] + s[1..];
      [s[0]] + Insert(e, s[1..])
  }

  /** Inserting into a newest-first sequence keeps it newest first. */
  lemma {:induction false} InsertNewestFirst(e: Entry, s: seq<Entry>)
    requires NewestFirst(s)
    ensures NewestFirst(Insert(e, s))
  {
    if s != [] && Compare(e, s[0]) > 0 {
      var t := Insert(e, s[1..]);
      assert NewestFirst(s[1..]) by {
        forall i | 0 < i < |s[1..]|
          ensures Compare(s[1..][i - 1], s[1..][i]) <= 0
        {
          assert s[1..][i - 1] == s[i] && s[1..][i] == s[i + 1];
        }
      }
      InsertNewestFirst(e, s[1..]);
      var r := [s[0]] + t;
      assert Insert(e, s) == r;
      forall i | 0 < i < |r|
        ensures Compare(r[i - 1], r[i]) <= 0
      {
        if i == 1 {
          assert r[1] == t[0];
        } else {
          assert r[i - 1] == t[i - 2] && r[i] == t[i - 1];
        }
      }
    }
  }

  /**
   `Array.prototype.sort` with the date comparator. Since ES2019 that sort
   is stable, so it is modelled by an insertion sort, which is.
   */
  function SortNewestFirst(s: seq<Entry>): (r: seq<Entry>)
    ensures NewestFirst(r)
    ensures multiset(r) == multiset(s)
    ensures |r| == |s|
  {
    if s == [] then []
    else
      assert s == [s[0]] + s[1..];
      InsertNewestFirst(s[0], SortNewestFirst(s[1..]));
      Insert(s[0], SortNewestFirst(s[1..]))
  }

  lemma {:induction false} WithDateAppend(a: seq<Entry>, b: seq<Entry>, date: int)
    ensures WithDate(a + b, date) == WithDate(a, date) + WithDate(b, date)
  {
    if a == [] {
      assert a + b == b;
    } else {
      var ab := a + b;
      assert ab[0] == a[0];
      assert ab[1..] == a[1..] + b;
      WithDateAppend(a[1..], b, date);
      var head := if Key(a[0]) == date then [a[0]] else [];
      assert WithDate(ab, date) == head + WithDate(a[1..] + b, date);
      assert WithDate(a, date) == head + WithDate(a[1..], date);
      assert head + (WithDate(a[1..], date) + WithDate(b, date))
          == (head + WithDate(a[1..], date)) + WithDate(b, date);
    }
  }

  /** Inserting `e` adds it at the front of the entries of its own date. */
  lemma {:induction false} WithDateInsert(e: Entry, s: seq<Entry>, date: int)
    ensures WithDate(Insert(e, s), date) ==
      (if Key(e) == date then [e] else []) + WithDate(s, date)
  {
    if s == [] {
      assert WithDate([e], date) == (if Key(e) == date then [e] else []) + WithDate([], date);
    } else if Compare(e, s[0]) <= 0 {
      WithDateAppend([e], s, date);
      assert WithDate([e], date) == (if Key(e) == date then [e] else []) + WithDate([], date);
    } else {
      var t := Insert(e, s[1..]);
      WithDateInsert(e, s[1..], date);
      assert s == [s[0]] + s[1..];
      WithDateAppend([s[0]], s[1..], date);
      WithDateAppend([s[0]], t, date);
      assert WithDate([s[0]], date) == (if Key(s[0]) == date then [s[0]] else []) + WithDate([], date);
      // e is strictly older than s[0], so at most one of them is dated `date`.
      assert Key(e) < Key(s[0]);
    }
  }

  /** The sort is stable: the entries of any one date keep their relative order. */
  lemma {:induction false} SortIsStable(s: seq<Entry>, date: int)
    ensures WithDate(SortNewestFirst(s), date) == WithDate(s, date)
  {
    if s != [] {
      SortIsStable(s[1..], date);
      WithDateInsert(s[0], SortNewestFirst(s[1..]), date);
      assert s == [s[0]] + s[1..];
      WithDateAppend([s[0]], s[1..], date);
      assert WithDate([s[0]], date) == (if Key(s[0]) == date then [s[0]] else []) + WithDate([], date);
    }
  }

  lemma {:induction false} FileNamesAppend(a: seq<Entry>, b: seq<Entry>)
    ensures FileNames(a + b) == FileNames(a) + FileNames(b)
  {
    if a == [] {
      assert a + b == b;
    } else {
      var ab := a + b;
      assert ab[0] == a[0] && ab[1..] == a[1..] + b;
      FileNamesAppend(a[1..], b);
      calc {
        FileNames(ab);
        [a[0].fileName] + FileNames(a[1..] + b);
        [a[0].fileName] + (FileNames(a[1..]) + FileNames(b));
      }
    }
  }

  lemma {:induction false} FileNamesInsert(e: Entry, s: seq<Entry>)
    ensures multiset(FileNames(Insert(e, s))) == multiset(FileNames(s)) + multiset{e.fileName}
  {
    var r := Insert(e, s);
    if s == [] {
      assert FileNames(r) == [e.fileName];
    } else if Compare(e, s[0]) <= 0 {
      FileNamesAppend([e], s);
      assert FileNames([e]) == [e.fileName];
      assert FileNames(r) == [e.fileName] + FileNames(s);
    } else {
      var t := Insert(e, s[1..]);
      FileNamesInsert(e, s[1..]);
      assert r == [s[0]] + t;
      assert FileNames(r) == [s[0].fileName] + FileNames(t);
      assert FileNames(s) == [s[0].fileName] + FileNames(s[1..]);
      assert multiset(FileNames(r)) == multiset{s[0].fileName} + multiset(FileNames(t));
      assert multiset(FileNames(s)) == multiset{s[0].fileName} + multiset(FileNames(s[1..]));
    }
  }

  /** Sorting moves entries and so their file names, but neither drops nor repeats any. */
  lemma {:induction false} FileNamesSorted(s: seq<Entry>)
    ensures multiset(FileNames(SortNewestFirst(s))) == multiset(FileNames(s))
  {
    if s != [] {
      FileNamesSorted(s[1..]);
      FileNamesInsert(s[0], SortNewestFirst(s[1..]));
      assert FileNames(s) == [s[0].fileName] + FileNames(s[1..]);
    }
  }

  /** `getAllPosts()`: map every file name to its entry, then sort newest first. */
  function GetAllPosts(fileNames: seq<string>, load: string -> Parsed): (r: seq<Entry>)
    ensures NewestFirst(r)
    ensures forall i, j :: 0 <= i < j < |r| ==> Key(r[i]) >= Key(r[j])
    ensures multiset(r) == multiset(MapEntries(fileNames, load))
    ensures forall date :: WithDate(r, date) == WithDate(MapEntries(fileNames, load), date)
  {
    var entries := MapEntries(fileNames, load);
    NewestFirstOrdered(SortNewestFirst(entries));
    forall date
      ensures WithDate(SortNewestFirst(entries), date) == WithDate(entries, date)
    {
      SortIsStable(entries, date);
    }
    SortNewestFirst(entries)
  }

  /**
   The listing has exactly one entry per file name of the directory, and
   every entry is the one built from its own file.
   */
  lemma ListingCoversDirectory(fileNames: seq<string>, load: string -> Parsed)
    ensures multiset(FileNames(GetAllPosts(fileNames, load))) == multiset(fileNames)
    ensures forall e :: e in GetAllPosts(fileNames, load) ==> e == MakeEntry(e.fileName, load(e.fileName))
  {
    var entries := MapEntries(fileNames, load);
    FileNamesSorted(entries);
    assert FileNames(entries) == fileNames;
    forall e | e in GetAllPosts(fileNames, load)
      ensures e == MakeEntry(e.fileName, load(e.fileName))
    {
      assert e in multiset(entries);
    }
  }

  /** `WithDate(s, date)` holds exactly the entries of `s` dated `date`. */
  lemma {:induction false} WithDateMembers(s: seq<Entry>, date: int, x: Entry)
    ensures x in WithDate(s, date) <==> x in s && Key(x) == date
  {
    if s != [] {
      WithDateMembers(s[1..], date, x);
      assert s == [s[0]] + s[1..];
    }
  }

  /** Removing the first entry of a sequence leaves the entries of other dates alone. */
  lemma WithDateTail(s: seq<Entry>, date: int)
    requires s != []
    ensures WithDate(s, date) == (if Key(s[0]) == date then [s[0]] else []) + WithDate(s[1..], date)
  {
  }

  /** A non-empty sequence has an entry of the date of its first entry. */
  lemma HasOwnDate(s: seq<Entry>)
    ensures s != [] ==> WithDate(s, Key(s[0])) != []
  {
  }

  /**
   Two newest-first sequences that agree on the entries of every date, in
   order, are the same sequence.
   */
  lemma {:induction false} NewestFirstUnique(r: seq<Entry>, q: seq<Entry>)
    requires NewestFirst(r) && NewestFirst(q)
    requires forall date :: WithDate(r, date) == WithDate(q, date)
    ensures r == q
    decreases |r| + |q|
  {
    if r == [] || q == [] {
      HasOwnDate(r);
      HasOwnDate(q);
    } else {
      // The newest date of each sequence occurs in the other, so both start with it.
      NewestFirstOrdered(r);
      NewestFirstOrdered(q);
      WithDateMembers(r, Key(r[0]), r[0]);
      WithDateMembers(q, Key(r[0]), r[0]);
      WithDateMembers(q, Key(q[0]), q[0]);
      WithDateMembers(r, Key(q[0]), q[0]);
      assert Key(r[0]) == Key(q[0]);
      var k := Key(r[0]);
      WithDateTail(r, k);
      WithDateTail(q, k);
      assert r[0] == WithDate(r, k)[0] == WithDate(q, k)[0] == q[0];
      forall date
        ensures WithDate(r[1..], date) == WithDate(q[1..], date)
      {
        WithDateTail(r, date);
        WithDateTail(q, date);
        var head := if Key(r[0]) == date then [r[0]] else [];
        assert (head + WithDate(r[1..], date))[|head|..] == WithDate(r[1..], date);
        assert (head + WithDate(q[1..], date))[|head|..] == WithDate(q[1..], date);
        assert WithDate(r, date) == WithDate(q, date);
      }
      NewestFirstUnique(r[1..], q[1..]);
      assert r == [r[0]] + r[1..] && q == [q[0]] + q[1..];
    }
  }

  /**
   The listing is the only arrangement of the entries that is newest first
   and keeps entries of the same date in directory order.
   */
  lemma ListingIsDetermined(fileNames: seq<string>, load: string -> Parsed, r: seq<Entry>)
    requires NewestFirst(r)
    requires forall date :: WithDate(r, date) == WithDate(MapEntries(fileNames, load), date)
    ensures r == GetAllPosts(fileNames, load)
  {
    NewestFirstUnique(r, GetAllPosts(fileNames, load));
  }

  /**
   Entries dated 1 January, 1 March and 1 February 2024 (as millisecond
   timestamps) are listed March, February, January.
   */
  lemma ListingExample(jan: Entry, mar: Entry, feb: Entry)
    requires Key(jan) == 1704067200000 && Key(mar) == 1709251200000 && Key(feb) == 1706745600000
    ensures SortNewestFirst([jan, mar, feb]) == [mar, feb, jan]
  {
    assert [jan, mar, feb][1..] == [mar, feb];
    assert [mar, feb][1..] == [feb];
    assert [feb][1..] == [];
    assert SortNewestFirst([feb]) == [feb];
    assert SortNewestFirst([mar, feb]) == [mar, feb];
    assert Insert(jan, [feb]) == [feb, jan];
    assert Insert(jan, [mar, feb]) == [mar, feb, jan];
  }

  /**
   Every listed snippet is its file's body with the markup stripped: the
   whole plaintext when it has at most 150 characters, otherwise its first
   150 characters and "...", 153 characters in all.
   */
  lemma ListedSnippets(fileNames: seq<string>, load: string -> Parsed)
    ensures forall e :: e in GetAllPosts(fileNames, load) ==>
      var plain := StripMarkup(load(e.fileName).content);
      && (|plain| <= SnippetLimit ==> e.snippet == plain)
      && (|plain| > SnippetLimit ==>
            e.snippet == plain[..SnippetLimit] + Ellipsis && |e.snippet| == SnippetLimit + |Ellipsis|)
  {
    ListingCoversDirectory(fileNames, load);
  }

  /** `getPost(fileName)`: the slug, the frontmatter and the rendered body of one file. */
  function GetPost(fileName: string, load: string -> Parsed, render: string -> string): (p: Post)
    ensures p.slug == Slug(fileName)
    ensures p.data == load(fileName).data
    ensures p.contentHtml == render(load(fileName).content)
  {
    var parsed := load(fileName);
    Post(Slug(fileName), parsed.data, render(parsed.content))
  }

  /** Reading one listed file gives the slug and frontmatter the listing shows for it. */
  lemma GetPostAgreesWithListing(fileNames: seq<string>, load: string -> Parsed,
                                 render: string -> string, fileName: string)
    requires fileName in fileNames
    ensures exists e :: && e in GetAllPosts(fileNames, load)
                        && e.fileName == fileName
                        && e.slug == GetPost(fileName, load, render).slug
                        && e.data == GetPost(fileName, load, render).data
  {
    var entries := MapEntries(fileNames, load);
    var i :| 0 <= i < |fileNames| && fileNames[i] == fileName;
    var e := entries[i];
    assert e in multiset(entries);
    assert e in multiset(GetAllPosts(fileNames, load));
  }
}
