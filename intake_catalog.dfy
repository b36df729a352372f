/**
 * The catalog of canned support messages: every `.txt` file of the intake
 * directory, keyed by file name, with a display name derived from the name
 * and the file's trimmed text. The directory listing and the file reads are
 * inputs: a sequence of (name, raw contents) pairs in listing order.
 */
module IntakeCatalog {

  import opened JsStrings

  /** One file of the intake directory and its contents read as UTF-8. */
  datatype DirEntry = DirEntry(name: string, raw: string)

  /** The record stored for each catalog file. */
  datatype IntakeFile = IntakeFile(filename: string, displayName: string, content: string)

  const TxtExtension: string := ".txt"

  /**
   * `file.replace('.txt', '').replace(/-/g, ' ').replace(/\b\w/g, l => l.toUpperCase())`:
   * the first `.txt` is dropped, hyphens become spaces, and each word
   * character that starts a word is upper-cased.
   */
  function DisplayName(file: string): string
  {
    UpperWordStarts(ReplaceAllChar(ReplaceFirst(file, TxtExtension, ""), '-', ' '))
  }

  /**
   * Dropping `.txt` shortens the name by four characters; the hyphen swap
   * and the ASCII upper-casing keep the length.
   */
  lemma DisplayNameLength(file: string)
    ensures (exists j: nat :: OccursAt(file, TxtExtension, j)) ==> |DisplayName(file)| == |file| - 4
    ensures (forall j: nat :: !OccursAt(file, TxtExtension, j)) ==> DisplayName(file) == UpperWordStarts(ReplaceAllChar(file, '-', ' '))
    ensures EndsWith(file, TxtExtension) ==> |DisplayName(file)| == |file| - 4
  {
    match IndexOf(file, TxtExtension)
    case Some(i) =>
      assert FirstOccurrence(file, TxtExtension, i);
    case None =>
      if EndsWith(file, TxtExtension) {
        assert OccursAt(file, TxtExtension, |file| - 4);
      }
  }

  /**
   * A display name holds no hyphen, and every word character standing at a
   * word boundary is upper-case (no ASCII lower-case letter starts a word).
   */
  lemma DisplayNameWords(file: string)
    ensures '-' !in DisplayName(file)
    ensures forall i :: 0 <= i < |DisplayName(file)| && AtWordStart(DisplayName(file), i) ==>
              !IsLowerAscii(DisplayName(file)[i])
  {
    var h := ReplaceAllChar(ReplaceFirst(file, TxtExtension, ""), '-', ' ');
    var r := DisplayName(file);
    assert r == UpperWordStarts(h);
    forall i | 0 <= i < |r| ensures r[i] != '-' && IsWordChar(r[i]) == IsWordChar(h[i]) {
    }
    forall i | 0 <= i < |r| && AtWordStart(r, i) ensures !IsLowerAscii(r[i]) {
      assert AtWordStart(h, i);
    }
  }

  /**
   * For a name ending in `.txt` in which no earlier `.txt` starts (as in
   * `v1.2-notes.txt`), the first `.txt` is the extension, so the stem is the
   * name without it.
   */
  lemma StemOfPlainTxtName(file: string)
    requires EndsWith(file, TxtExtension)
    requires forall j: nat :: j < |file| - 4 ==> !OccursAt(file, TxtExtension, j)
    ensures ReplaceFirst(file, TxtExtension, "") == file[..|file| - 4]
  {
    var n := |file| - 4;
    assert OccursAt(file, TxtExtension, n);
    assert FirstOccurrence(file, TxtExtension, n);
  }

  /** A stem in which no `.txt` starts, given the `.txt` extension, shows as its own words. */
  lemma StemDisplayName(stem: string)
    requires forall j: nat :: j < |stem| ==> !OccursAt(stem + TxtExtension, TxtExtension, j)
    ensures DisplayName(stem + TxtExtension) == UpperWordStarts(ReplaceAllChar(stem, '-', ' '))
  {
    var file := stem + TxtExtension;
    assert file[..|stem|] == stem;
    assert file[|stem|..] == TxtExtension;
    StemOfPlainTxtName(file);
  }

  /**
   * A catalog name made of lower-case words joined by hyphens, such as
   * `billing-inquiry.txt`, shows as those words separated by spaces, each
   * with its first letter upper-cased (`Billing Inquiry`).
   */
  lemma HyphenatedWordsDisplayName(stem: string)
    requires forall i :: 0 <= i < |stem| ==> IsLowerAscii(stem[i]) || stem[i] == '-'
    ensures var r := DisplayName(stem + TxtExtension);
            && |r| == |stem|
            && forall i :: 0 <= i < |stem| ==>
                 r[i] == if stem[i] == '-' then ' '
                         else if i == 0 || stem[i - 1] == '-' then ToUpperAscii(stem[i])
                         else stem[i]
  {
    var file := stem + TxtExtension;
    forall j: nat | j < |stem| ensures !OccursAt(file, TxtExtension, j) {
      assert IsLowerAscii(stem[j]) || stem[j] == '-';
      if j + 4 <= |file| {
        assert file[j..j + 4][0] == stem[j];
      }
    }
    StemDisplayName(stem);
    var h := ReplaceAllChar(stem, '-', ' ');
    forall i | 0 <= i < |stem| ensures IsWordChar(h[i]) <==> stem[i] != '-' {
      assert IsLowerAscii(stem[i]) || stem[i] == '-';
    }
  }

  /** `readdirSync(dir).filter(file => file.endsWith('.txt'))`. */
  function TxtFiles(dir: seq<DirEntry>): (r: seq<DirEntry>)
    ensures |r| <= |dir|
    ensures forall e :: e in r <==> e in dir && EndsWith(e.name, TxtExtension)
  {
    if dir == [] then []
    else (if EndsWith(dir[0].name, TxtExtension) then [dir[0]] else []) + TxtFiles(dir[1..])
  }

  /** No two entries share a name, as in a directory listing. */
  predicate DistinctNames(dir: seq<DirEntry>) {
    forall i, j :: 0 <= i < j < |dir| ==> dir[i].name != dir[j].name
  }

  /** Filtering a listing keeps its names distinct. */
  lemma {:induction false} TxtFilesDistinct(dir: seq<DirEntry>)
    requires DistinctNames(dir)
    ensures DistinctNames(TxtFiles(dir))
  {
    if dir != [] {
      TxtFilesDistinct(dir[1..]);
      var rest := TxtFiles(dir[1..]);
      if EndsWith(dir[0].name, TxtExtension) {
        forall e | e in rest ensures e.name != dir[0].name {
          var k :| 0 <= k < |dir[1..]| && dir[1..][k] == e;
          assert dir[k + 1] == e;
        }
        assert TxtFiles(dir) == [dir[0]] + rest;
      } else {
        assert TxtFiles(dir) == rest;
      }
    }
  }

  /** The record the loop stores for one file: name, display name, trimmed text. */
  function IntakeFileOf(e: DirEntry): (f: IntakeFile)
  {
    IntakeFile(e.name, DisplayName(e.name), Trim(e.raw))
  }

  /** The records of the `.txt` files, in listing order. */
  function Records(files: seq<DirEntry>): (r: seq<IntakeFile>)
    ensures |r| == |files|
    ensures forall i :: 0 <= i < |files| ==> r[i] == IntakeFileOf(files[i])
  {
    seq(|files|, i requires 0 <= i < |files| => IntakeFileOf(files[i]))
  }

  /**
   * The object the `forEach` loop fills: each record in turn is stored
   * under its file name, a later record replacing an earlier one of the
   * same name.
   */
  function Index(records: seq<IntakeFile>): map<string, IntakeFile>
  {
    if records == [] then map[]
    else Index(records[..|records| - 1])[records[|records| - 1].filename := records[|records| - 1]]
  }

  /** A prefix one element longer. */
  lemma TakeOneMore<T>(s: seq<T>, n: nat)
    requires n < |s|
    ensures s[..n + 1] == s[..n] + [s[n]]
  {
  }

  /** Storing one more record updates the index at that record's name only. */
  lemma IndexAppend(records: seq<IntakeFile>, record: IntakeFile)
    ensures Index(records + [record]) == Index(records)[record.filename := record]
  {
    assert (records + [record])[..|records|] == records;
  }

  /** No two records share a file name. */
  predicate DistinctFilenames(records: seq<IntakeFile>) {
    forall i, j :: 0 <= i < j < |records| ==> records[i].filename != records[j].filename
  }

  /** A key is in the index exactly when some record has that file name. */
  lemma {:induction false} IndexHasKey(records: seq<IntakeFile>, k: string)
    ensures k in Index(records) <==> exists i :: 0 <= i < |records| && records[i].filename == k
  {
    if records != [] {
      var init := records[..|records| - 1];
      var last := records[|records| - 1];
      IndexHasKey(init, k);
      if k != last.filename && k in Index(records) {
        var i :| 0 <= i < |init| && init[i].filename == k;
        assert records[i] == init[i];
      }
      if k != last.filename && exists i :: 0 <= i < |records| && records[i].filename == k {
        var i :| 0 <= i < |records| && records[i].filename == k;
        assert i < |init| && init[i] == records[i];
      }
    }
  }

  /** Each indexed value is a record whose file name is its key. */
  lemma {:induction false} IndexEntry(records: seq<IntakeFile>, k: string) returns (i: nat)
    requires k in Index(records)
    ensures i < |records| && records[i].filename == k && Index(records)[k] == records[i]
  {
    var init := records[..|records| - 1];
    var last := records[|records| - 1];
    if k == last.filename {
      i := |records| - 1;
    } else {
      i := IndexEntry(init, k);
      assert records[i] == init[i];
    }
  }

  /** With distinct file names, each record is stored under its own name. */
  lemma {:induction false} IndexDistinct(records: seq<IntakeFile>, i: nat)
    requires DistinctFilenames(records) && i < |records|
    ensures records[i].filename in Index(records) && Index(records)[records[i].filename] == records[i]
  {
    var init := records[..|records| - 1];
    var last := records[|records| - 1];
    if i < |init| {
      assert DistinctFilenames(init);
      IndexDistinct(init, i);
      assert records[i] == init[i];
      assert records[i].filename != last.filename;
    }
  }

  /** `loadIntakeFiles()`'s result for a directory listing. */
  function Catalog(dir: seq<DirEntry>): map<string, IntakeFile>
  {
    Index(Records(TxtFiles(dir)))
  }

  /** Every catalog key is the name of a `.txt` file of the listing. */
  lemma CatalogKeyListed(dir: seq<DirEntry>, k: string)
    requires k in Catalog(dir)
    ensures EndsWith(k, TxtExtension) && exists i :: 0 <= i < |dir| && dir[i].name == k
  {
    var files := TxtFiles(dir);
    var records := Records(files);
    assert Catalog(dir) == Index(records);
    IndexHasKey(records, k);
    var j :| 0 <= j < |records| && records[j].filename == k;
    var e := files[j];
    assert records[j] == IntakeFileOf(e);
    assert e.name == k;
    assert e in files;
    assert e in dir && EndsWith(e.name, TxtExtension);
    var i :| 0 <= i < |dir| && dir[i] == e;
  }

  /** Every `.txt` file of the listing has a catalog entry. */
  lemma ListedInCatalog(dir: seq<DirEntry>, i: nat)
    requires i < |dir| && EndsWith(dir[i].name, TxtExtension)
    ensures dir[i].name in Catalog(dir)
  {
    var files := TxtFiles(dir);
    var records := Records(files);
    assert dir[i] in files;
    var j :| 0 <= j < |files| && files[j] == dir[i];
    assert records[j].filename == dir[i].name;
    IndexHasKey(records, dir[i].name);
  }

  /** The catalog holds exactly the `.txt` names of the listing. */
  lemma CatalogKeys(dir: seq<DirEntry>, k: string)
    ensures k in Catalog(dir) <==> EndsWith(k, TxtExtension) && exists i :: 0 <= i < |dir| && dir[i].name == k
  {
    if k in Catalog(dir) {
      CatalogKeyListed(dir, k);
    }
    if EndsWith(k, TxtExtension) && exists i :: 0 <= i < |dir| && dir[i].name == k {
      var i :| 0 <= i < |dir| && dir[i].name == k;
      ListedInCatalog(dir, i);
    }
  }

  /**
   * Each catalog entry's `filename` is its key, its display name is derived
   * from the key, and its content is the trimmed text of a file of that name.
   */
  lemma CatalogEntry(dir: seq<DirEntry>, k: string)
    requires k in Catalog(dir)
    ensures Catalog(dir)[k].filename == k
    ensures Catalog(dir)[k].displayName == DisplayName(k)
    ensures exists i :: 0 <= i < |dir| && dir[i].name == k && Catalog(dir)[k].content == Trim(dir[i].raw)
  {
    var files := TxtFiles(dir);
    var j := IndexEntry(Records(files), k);
    assert files[j] in dir;
    var i :| 0 <= i < |dir| && dir[i] == files[j];
  }

  /** In a listing with distinct names, each `.txt` file's own record is in the catalog. */
  lemma CatalogOfDistinctListing(dir: seq<DirEntry>, i: nat)
    requires DistinctNames(dir) && i < |dir| && EndsWith(dir[i].name, TxtExtension)
    ensures dir[i].name in Catalog(dir) && Catalog(dir)[dir[i].name] == IntakeFileOf(dir[i])
  {
    var files := TxtFiles(dir);
    var records := Records(files);
    TxtFilesDistinct(dir);
    assert DistinctFilenames(records) by {
      forall a, b | 0 <= a < b < |records| ensures records[a].filename != records[b].filename {
        assert records[a].filename == files[a].name && records[b].filename == files[b].name;
      }
    }
    assert dir[i] in files;
    var j :| 0 <= j < |files| && files[j] == dir[i];
    IndexDistinct(records, j);
  }

  /**
   * `loadIntakeFiles`: filter the listing to `.txt` names, then store each
   * file's record (name, display name, trimmed text) under its name.
   */
  method LoadIntakeFiles(dir: seq<DirEntry>) returns (intakeFiles: map<string, IntakeFile>)
    ensures intakeFiles == Catalog(dir)
    ensures forall k :: k in intakeFiles <==> EndsWith(k, TxtExtension) && exists i :: 0 <= i < |dir| && dir[i].name == k
    ensures forall k :: k in intakeFiles ==> intakeFiles[k].filename == k
  {
    var files := TxtFiles(dir);
    ghost var records := Records(files);
    intakeFiles := map[];
    var n := 0;
    while n < |files|
      invariant n <= |files|
      invariant intakeFiles == Index(records[..n])
    {
      TakeOneMore(records, n);
      IndexAppend(records[..n], records[n]);
      var file := files[n];
      var content := Trim(file.raw);
      var displayName := DisplayName(file.name);
      var record := IntakeFile(file.name, displayName, content);
      assert record == records[n];
      intakeFiles := intakeFiles[file.name := record];
      n := n + 1;
    }
    assert records[..n] == records;
    forall k ensures k in intakeFiles <==> EndsWith(k, TxtExtension) && exists i :: 0 <= i < |dir| && dir[i].name == k {
      CatalogKeys(dir, k);
    }
    forall k | k in intakeFiles ensures intakeFiles[k].filename == k {
      CatalogEntry(dir, k);
    }
  }
}
