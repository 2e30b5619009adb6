/**
 * Duplicate grouping of the cleanup dashboard: walk entries are filtered,
 * stat'ed, bucketed by (file name, byte size) in first-seen key order, every
 * bucket with more than one member is emitted, and the result is sorted
 * descending on one display column.
 */
module Duplicates {
  import opened Common
  import StableSort

  /**
   * What `os.stat` gave for one walked file: its size and formatted time, or
   * `Fail` for the two errors the scan catches (permission denied, file gone).
   */
  datatype StatOutcome = Ok(sizeBytes: nat, lastModified: string) | Fail

  /** One file listed by the directory walk: the directory it was found in, its name, its stat outcome. */
  datatype Entry = Entry(root: string, filename: string, stat: StatOutcome)

  /**
   * The row kept for a file. `size` is the megabyte display string; `sizeBytes`
   * is the byte count the grouping key was built from.
   */
  datatype FileRecord = FileRecord(filename: string, path: string, sizeBytes: nat, size: string, lastModified: string)

  datatype Key = Key(filename: string, sizeBytes: nat)

  /** The four columns a caller may sort on. */
  datatype Column = Filename | PathColumn | Size | LastModified

  /** Hidden names and the two operating-system artifacts are never scanned. */
  predicate IsSkippedName(name: string)
  {
    (|name| > 0 && name[0] == '.') || name == "desktop.ini" || name == "Thumbs.db"
  }

  predicate IsAbsolute(name: string)
  {
    |name| > 0 && name[0] == '/'
  }

  /** A directory string after which a name can follow without a separator. */
  predicate EndsInSeparator(root: string)
  {
    root == [] || root[|root| - 1] == '/'
  }

  predicate NoSlash(s: string)
  {
    forall j :: 0 <= j < |s| ==> s[j] != '/'
  }

  /**
   * `os.path.join(root, name)` for two POSIX path strings: an absolute name
   * replaces the directory; otherwise the name follows the directory, with one
   * '/' between them unless the directory is empty or already ends in '/'.
   */
  function Join(root: string, name: string): (p: string)
    ensures |name| <= |p| && p[|p| - |name|..] == name
    ensures IsAbsolute(name) ==> p == name
  {
    if IsAbsolute(name) then name
    else if EndsInSeparator(root) then root + name
    else root + "/" + name
  }

  /** The shape of a joined path: the directory, at most one separator, then the name. */
  lemma JoinParts(root: string, name: string)
    ensures !IsAbsolute(name) ==> |root| <= |Join(root, name)| && Join(root, name)[..|root|] == root
    ensures !IsAbsolute(name) && EndsInSeparator(root) ==> Join(root, name) == root + name
    ensures !IsAbsolute(name) && !EndsInSeparator(root) ==> Join(root, name) == root + "/" + name
  {
  }

  /** `os.path.basename` on a POSIX path string: what follows the last '/'. */
  function LastComponent(p: string): (b: string)
    ensures NoSlash(b)
  {
    if p == [] || p[|p| - 1] == '/' then [] else LastComponent(p[..|p| - 1]) + [p[|p| - 1]]
  }

  lemma {:induction false} LastComponentAfterSeparator(dir: string, name: string)
    requires EndsInSeparator(dir) && NoSlash(name)
    ensures LastComponent(dir + name) == name
    decreases |name|
  {
    if name == [] {
      assert dir + name == dir;
    } else {
      var init := name[..|name| - 1];
      LastComponentAfterSeparator(dir, init);
      assert (dir + name)[..|dir + name| - 1] == dir + init;
      assert name == init + [name[|name| - 1]];
    }
  }

  /** The name a file was listed under is the base name of its joined path, whatever the directory. */
  lemma JoinLastComponent(root: string, name: string)
    requires NoSlash(name)
    ensures LastComponent(Join(root, name)) == name
  {
    if EndsInSeparator(root) {
      LastComponentAfterSeparator(root, name);
    } else {
      assert (root + "/")[|root|] == '/';
      LastComponentAfterSeparator(root + "/", name);
    }
  }

  function ColumnName(c: Column): string
  {
    match c
    case Filename => "filename"
    case PathColumn => "path"
    case Size => "size"
    case LastModified => "last_modified"
  }

  /** The sort key the caller chose; a name that is no column falls back to the file name. */
  function ParseSortKey(name: string): (c: Column)
    ensures ColumnName(c) == name || (c == Filename && forall d :: ColumnName(d) != name)
  {
    if name == "path" then PathColumn
    else if name == "size" then Size
    else if name == "last_modified" then LastModified
    else Filename
  }

  lemma ParseColumnName(c: Column)
    ensures ParseSortKey(ColumnName(c)) == c
  {
  }

  /** The value a record shows in a column; sorting compares these strings. */
  function ColumnValue(c: Column, r: FileRecord): string
  {
    match c
    case Filename => r.filename
    case PathColumn => r.path
    case Size => r.size
    case LastModified => r.lastModified
  }

  function SortKeyOf(c: Column): FileRecord -> string
  {
    (r: FileRecord) => ColumnValue(c, r)
  }

  function KeyOf(r: FileRecord): Key
  {
    Key(r.filename, r.sizeBytes)
  }

  function ToRecord(e: Entry, fmt: nat -> string): FileRecord
    requires e.stat.Ok?
  {
    FileRecord(e.filename, Join(e.root, e.filename), e.stat.sizeBytes, fmt(e.stat.sizeBytes), e.stat.lastModified)
  }

  /** What one entry contributes: nothing when its name is skipped or its stat failed. */
  function Kept(e: Entry, fmt: nat -> string): seq<FileRecord>
  {
    if IsSkippedName(e.filename) || e.stat.Fail? then [] else [ToRecord(e, fmt)]
  }

  /** The records of all entries that pass the name filter and the stat, in walk order. */
  function Survivors(es: seq<Entry>, fmt: nat -> string): seq<FileRecord>
  {
    if es == [] then [] else Survivors(es[..|es| - 1], fmt) + Kept(es[|es| - 1], fmt)
  }

  /** The records of `s` with key `k`, in order: what the dictionary holds under `k`. */
  function Bucket(s: seq<FileRecord>, k: Key): seq<FileRecord>
  {
    if s == [] then []
    else Bucket(s[..|s| - 1], k) + (if KeyOf(s[|s| - 1]) == k then [s[|s| - 1]] else [])
  }

  /** The keys of `s` in the order they first occur: the dictionary's insertion order. */
  function KeysInOrder(s: seq<FileRecord>): seq<Key>
  {
    if s == [] then []
    else
      var ks := KeysInOrder(s[..|s| - 1]);
      if KeyOf(s[|s| - 1]) in ks then ks else ks + [KeyOf(s[|s| - 1])]
  }

  /** The buckets of `ks`, in that order, that have more than one member. */
  function Grouped(s: seq<FileRecord>, ks: seq<Key>): seq<FileRecord>
  {
    if ks == [] then []
    else
      var b := Bucket(s, ks[|ks| - 1]);
      Grouped(s, ks[..|ks| - 1]) + (if |b| > 1 then b else [])
  }

  /** Reference: the records of `t` whose key occurs at least twice in `s`. */
  function SharedAmong(t: seq<FileRecord>, s: seq<FileRecord>): seq<FileRecord>
  {
    if t == [] then []
    else SharedAmong(t[..|t| - 1], s) + (if |Bucket(s, KeyOf(t[|t| - 1]))| >= 2 then [t[|t| - 1]] else [])
  }

  function Shared(s: seq<FileRecord>): seq<FileRecord>
  {
    SharedAmong(s, s)
  }

  /** The list `find_duplicates` returns. */
  function Duplicates(es: seq<Entry>, fmt: nat -> string, sortKey: string): seq<FileRecord>
  {
    var s := Survivors(es, fmt);
    StableSort.SortDesc(SortKeyOf(ParseSortKey(sortKey)), Grouped(s, KeysInOrder(s)))
  }

  /** `details` and `order` are the insertion-ordered dictionary of the buckets of `s`. */
  ghost predicate Indexes(details: map<Key, seq<FileRecord>>, order: seq<Key>, s: seq<FileRecord>)
  {
    && order == KeysInOrder(s)
    && (forall k :: k in details <==> k in order)
    && (forall k :: k in details ==> details[k] == Bucket(s, k))
  }

  /**
   * `find_duplicates`: scan the walk into the dictionary, collect the shared
   * buckets, sort on the chosen column.
   */
  method FindDuplicates(entries: seq<Entry>, fmt: nat -> string, sortKey: string) returns (dups: seq<FileRecord>)
    ensures dups == Duplicates(entries, fmt, sortKey)
    ensures multiset(dups) == multiset(Shared(Survivors(entries, fmt)))
    ensures StableSort.SortedDesc(SortKeyOf(ParseSortKey(sortKey)), dups)
  {
    var details, order := ScanEntries(entries, fmt);
    var grouped := CollectDuplicates(details, order, Survivors(entries, fmt));
    GroupedIsShared(Survivors(entries, fmt));
    StableSort.SortPermutation(SortKeyOf(ParseSortKey(sortKey)), grouped);
    StableSort.SortSorted(SortKeyOf(ParseSortKey(sortKey)), grouped);
    dups := StableSort.SortDesc(SortKeyOf(ParseSortKey(sortKey)), grouped);
  }

  /**
   * The walk loop: skip hidden and denylisted names, skip failed stats, and
   * append each record to the list held under its (name, size) key, creating
   * the list the first time the key is seen.
   */
  method ScanEntries(entries: seq<Entry>, fmt: nat -> string) returns (details: map<Key, seq<FileRecord>>, order: seq<Key>)
    ensures Indexes(details, order, Survivors(entries, fmt))
  {
    details, order := map[], [];
    var i := 0;
    assert entries[..0] == [];
    assert Survivors(entries[..0], fmt) == [];
    while i < |entries|
      invariant 0 <= i <= |entries|
      invariant Indexes(details, order, Survivors(entries[..i], fmt))
    {
      var e := entries[i];
      ghost var details0, order0 := details, order;
      if !IsSkippedName(e.filename) {
        match e.stat
        case Ok(size, mtime) =>
          var key := Key(e.filename, size);
          var record := FileRecord(e.filename, Join(e.root, e.filename), size, fmt(size), mtime);
          assert Kept(e, fmt) == [record];
          if key !in details {
            details := details[key := []];
            order := order + [key];
          }
          details := details[key := details[key] + [record]];
        case Fail =>
      }
      ScanStep(entries, i, fmt, details0, order0, details, order);
      i := i + 1;
    }
    assert entries[..i] == entries;
  }

  /** The loop over the dictionary in insertion order that extends the result by every list longer than one. */
  method CollectDuplicates(details: map<Key, seq<FileRecord>>, order: seq<Key>, ghost s: seq<FileRecord>) returns (dups: seq<FileRecord>)
    requires Indexes(details, order, s)
    ensures dups == Grouped(s, KeysInOrder(s))
  {
    dups := [];
    var j := 0;
    while j < |order|
      invariant 0 <= j <= |order|
      invariant dups == Grouped(s, order[..j])
    {
      var key := order[j];
      assert order[..j + 1][..j] == order[..j];
      if |details[key]| > 1 {
        dups := dups + details[key];
      }
      j := j + 1;
    }
    assert order[..j] == order;
  }

  /** One turn of the walk loop keeps the dictionary equal to the buckets of the records kept so far. */
  lemma ScanStep(es: seq<Entry>, i: nat, fmt: nat -> string,
                 details: map<Key, seq<FileRecord>>, order: seq<Key>,
                 details': map<Key, seq<FileRecord>>, order': seq<Key>)
    requires i < |es|
    requires Indexes(details, order, Survivors(es[..i], fmt))
    requires Kept(es[i], fmt) == [] ==> details' == details && order' == order
    requires Kept(es[i], fmt) != [] ==>
               var k := KeyOf(Kept(es[i], fmt)[0]);
               && order' == (if k in details then order else order + [k])
               && details' == details[k := (if k in details then details[k] else []) + [Kept(es[i], fmt)[0]]]
    ensures Indexes(details', order', Survivors(es[..i + 1], fmt))
  {
    SurvivorsStep(es, i, fmt);
    if Kept(es[i], fmt) == [] {
      assert Survivors(es[..i + 1], fmt) == Survivors(es[..i], fmt);
    } else {
      AddRecord(details, order, Survivors(es[..i], fmt), Kept(es[i], fmt)[0], details', order');
      assert Survivors(es[..i + 1], fmt) == Survivors(es[..i], fmt) + [Kept(es[i], fmt)[0]];
    }
  }

  /** One dictionary update of the scan: a new key gets an empty list first, then the record is appended. */
  lemma AddRecord(details: map<Key, seq<FileRecord>>, order: seq<Key>, s: seq<FileRecord>, r: FileRecord,
                  details': map<Key, seq<FileRecord>>, order': seq<Key>)
    requires Indexes(details, order, s)
    requires order' == if KeyOf(r) in details then order else order + [KeyOf(r)]
    requires details' == details[KeyOf(r) := (if KeyOf(r) in details then details[KeyOf(r)] else []) + [r]]
    ensures Indexes(details', order', s + [r])
  {
    var k := KeyOf(r);
    KeysStep(s, r);
    KeysInOrderCover(s, k);
    forall k' | k' in details'
      ensures details'[k'] == Bucket(s + [r], k')
    {
      BucketStep(s, r, k');
    }
  }

  lemma SurvivorsStep(es: seq<Entry>, i: nat, fmt: nat -> string)
    requires i < |es|
    ensures Survivors(es[..i + 1], fmt) == Survivors(es[..i], fmt) + Kept(es[i], fmt)
  {
    assert es[..i + 1][..i] == es[..i];
  }

  /** Appending one record extends its own bucket and leaves the other buckets alone. */
  lemma BucketStep(s: seq<FileRecord>, r: FileRecord, k: Key)
    ensures Bucket(s + [r], k) == Bucket(s, k) + (if KeyOf(r) == k then [r] else [])
  {
    assert (s + [r])[..|s|] == s;
  }

  /** Appending one record adds its key to the key order if the key is new. */
  lemma KeysStep(s: seq<FileRecord>, r: FileRecord)
    ensures KeysInOrder(s + [r]) == if KeyOf(r) in KeysInOrder(s) then KeysInOrder(s) else KeysInOrder(s) + [KeyOf(r)]
  {
    assert (s + [r])[..|s|] == s;
  }

  // ---------------------------------------------------------------------
  // Where the output comes from

  lemma {:induction false} SurvivorsAppend(a: seq<Entry>, b: seq<Entry>, fmt: nat -> string)
    ensures Survivors(a + b, fmt) == Survivors(a, fmt) + Survivors(b, fmt)
    decreases |b|
  {
    if b == [] {
      assert a + b == a;
    } else {
      SurvivorsAppend(a, b[..|b| - 1], fmt);
      assert (a + b)[..|a + b| - 1] == a + b[..|b| - 1];
    }
  }

  /** Each surviving record is the record of a walked entry whose name passed the filter and whose stat succeeded. */
  lemma {:induction false} SurvivorFrom(es: seq<Entry>, fmt: nat -> string, r: FileRecord)
    requires r in Survivors(es, fmt)
    ensures exists i :: 0 <= i < |es| && !IsSkippedName(es[i].filename) && es[i].stat.Ok? && r == ToRecord(es[i], fmt)
  {
    var init := es[..|es| - 1];
    if r in Survivors(init, fmt) {
      SurvivorFrom(init, fmt, r);
      var i :| 0 <= i < |init| && !IsSkippedName(init[i].filename) && init[i].stat.Ok? && r == ToRecord(init[i], fmt);
      assert es[i] == init[i];
    } else {
      assert r in Kept(es[|es| - 1], fmt);
    }
  }

  /** The record of every walked entry whose name passes the filter and whose stat succeeds survives. */
  lemma {:induction false} KeptSurvives(es: seq<Entry>, fmt: nat -> string, i: nat)
    requires i < |es| && !IsSkippedName(es[i].filename) && es[i].stat.Ok?
    ensures ToRecord(es[i], fmt) in Survivors(es, fmt)
  {
    var init := es[..|es| - 1];
    if i < |init| {
      assert init[i] == es[i];
      KeptSurvives(init, fmt, i);
    }
  }

  /** A record survives exactly when it is the record of a walked entry whose name passed the filter and whose stat succeeded. */
  lemma SurvivorOrigin(es: seq<Entry>, fmt: nat -> string, r: FileRecord)
    ensures r in Survivors(es, fmt) <==>
            exists i :: 0 <= i < |es| && !IsSkippedName(es[i].filename) && es[i].stat.Ok? && r == ToRecord(es[i], fmt)
  {
    if r in Survivors(es, fmt) {
      SurvivorFrom(es, fmt, r);
    }
    if exists i :: 0 <= i < |es| && !IsSkippedName(es[i].filename) && es[i].stat.Ok? && r == ToRecord(es[i], fmt) {
      var i :| 0 <= i < |es| && !IsSkippedName(es[i].filename) && es[i].stat.Ok? && r == ToRecord(es[i], fmt);
      KeptSurvives(es, fmt, i);
    }
  }

  /** Two kept walked entries with the same name and size put at least two records into the bucket of that key. */
  lemma {:induction false} KeptPairShareBucket(es: seq<Entry>, fmt: nat -> string, i: nat, j: nat)
    requires i < j < |es|
    requires !IsSkippedName(es[i].filename) && es[i].stat.Ok?
    requires !IsSkippedName(es[j].filename) && es[j].stat.Ok?
    requires es[i].filename == es[j].filename && es[i].stat.sizeBytes == es[j].stat.sizeBytes
    ensures |Bucket(Survivors(es, fmt), Key(es[i].filename, es[i].stat.sizeBytes))| >= 2
  {
    var init, last := es[..|es| - 1], es[|es| - 1];
    var k := Key(es[i].filename, es[i].stat.sizeBytes);
    assert Survivors(es, fmt) == Survivors(init, fmt) + Kept(last, fmt);
    assert init[i] == es[i];
    if j == |es| - 1 {
      var ri := ToRecord(es[i], fmt);
      KeptSurvives(init, fmt, i);
      BucketCount(Survivors(init, fmt), k, ri);
      assert ri in Bucket(Survivors(init, fmt), k);
      BucketStep(Survivors(init, fmt), ToRecord(last, fmt), k);
    } else {
      assert init[j] == es[j];
      KeptPairShareBucket(init, fmt, i, j);
      if Kept(last, fmt) == [] {
        assert Survivors(es, fmt) == Survivors(init, fmt);
      } else {
        BucketStep(Survivors(init, fmt), ToRecord(last, fmt), k);
      }
    }
  }

  /**
   * An entry that is skipped for its name or whose stat failed changes nothing,
   * wherever it stands in the walk: it is in no bucket and counts toward none.
   */
  lemma UnkeptEntryIgnored(a: seq<Entry>, e: Entry, b: seq<Entry>, fmt: nat -> string, sortKey: string)
    requires IsSkippedName(e.filename) || e.stat.Fail?
    ensures Duplicates(a + [e] + b, fmt, sortKey) == Duplicates(a + b, fmt, sortKey)
  {
    SurvivorsSkip(a, e, b, fmt);
  }

  lemma SurvivorsSkip(a: seq<Entry>, e: Entry, b: seq<Entry>, fmt: nat -> string)
    requires IsSkippedName(e.filename) || e.stat.Fail?
    ensures Survivors(a + [e] + b, fmt) == Survivors(a + b, fmt)
  {
    SurvivorsAppend(a + [e], b, fmt);
    SurvivorsAppend(a, [e], fmt);
    SurvivorsAppend(a, b, fmt);
    assert [e][..0] == [];
    var none := Survivors([e], fmt);
    assert none == [];
    assert Survivors(a + [e], fmt) == Survivors(a, fmt) + none;
    assert Survivors(a + [e], fmt) == Survivors(a, fmt);
  }

  // ---------------------------------------------------------------------
  // Counting: buckets, keys and the grouped concatenation

  lemma {:induction false} BucketCount(s: seq<FileRecord>, k: Key, r: FileRecord)
    ensures multiset(Bucket(s, k))[r] == if KeyOf(r) == k then multiset(s)[r] else 0
  {
    if s != [] {
      BucketCount(s[..|s| - 1], k, r);
      assert s == s[..|s| - 1] + [s[|s| - 1]];
    }
  }

  lemma {:induction false} KeysInOrderCover(s: seq<FileRecord>, k: Key)
    ensures k in KeysInOrder(s) <==> Bucket(s, k) != []
  {
    if s != [] {
      KeysInOrderCover(s[..|s| - 1], k);
    }
  }

  lemma {:induction false} KeysInOrderDistinct(s: seq<FileRecord>)
    ensures NoDups(KeysInOrder(s))
  {
    if s != [] {
      KeysInOrderDistinct(s[..|s| - 1]);
    }
  }

  lemma {:induction false} GroupedCount(s: seq<FileRecord>, ks: seq<Key>, r: FileRecord)
    requires NoDups(ks)
    ensures multiset(Grouped(s, ks))[r] == if KeyOf(r) in ks && |Bucket(s, KeyOf(r))| > 1 then multiset(s)[r] else 0
  {
    if ks != [] {
      var init, k := ks[..|ks| - 1], ks[|ks| - 1];
      assert ks == init + [k];
      assert NoDups(init);
      GroupedCount(s, init, r);
      BucketCount(s, k, r);
      if KeyOf(r) == k {
        assert KeyOf(r) !in init;
      }
    }
  }

  lemma {:induction false} SharedAmongCount(t: seq<FileRecord>, s: seq<FileRecord>, r: FileRecord)
    ensures multiset(SharedAmong(t, s))[r] == if |Bucket(s, KeyOf(r))| >= 2 then multiset(t)[r] else 0
  {
    if t != [] {
      SharedAmongCount(t[..|t| - 1], s, r);
      assert t == t[..|t| - 1] + [t[|t| - 1]];
    }
  }

  /** Concatenating the shared buckets in key order loses and adds nothing. */
  lemma GroupedIsShared(s: seq<FileRecord>)
    ensures multiset(Grouped(s, KeysInOrder(s))) == multiset(Shared(s))
  {
    KeysInOrderDistinct(s);
    forall r
      ensures multiset(Grouped(s, KeysInOrder(s)))[r] == multiset(Shared(s))[r]
    {
      GroupedCount(s, KeysInOrder(s), r);
      SharedAmongCount(s, s, r);
      BucketCount(s, KeyOf(r), r);
      KeysInOrderCover(s, KeyOf(r));
    }
  }

  lemma BucketOfPermutation(a: seq<FileRecord>, b: seq<FileRecord>, k: Key)
    requires multiset(a) == multiset(b)
    ensures |Bucket(a, k)| == |Bucket(b, k)|
  {
    forall r
      ensures multiset(Bucket(a, k))[r] == multiset(Bucket(b, k))[r]
    {
      BucketCount(a, k, r);
      BucketCount(b, k, r);
    }
    assert multiset(Bucket(a, k)) == multiset(Bucket(b, k));
    assert |multiset(Bucket(a, k))| == |Bucket(a, k)|;
    assert |multiset(Bucket(b, k))| == |Bucket(b, k)|;
  }

  // ---------------------------------------------------------------------
  // What find_duplicates promises

  /** The output is a permutation of the surviving records whose key some other survivor shares. */
  lemma DuplicatesArePermutation(es: seq<Entry>, fmt: nat -> string, sortKey: string)
    ensures multiset(Duplicates(es, fmt, sortKey)) == multiset(Shared(Survivors(es, fmt)))
  {
    var s := Survivors(es, fmt);
    GroupedIsShared(s);
    StableSort.SortPermutation(SortKeyOf(ParseSortKey(sortKey)), Grouped(s, KeysInOrder(s)));
  }

  /** A record is reported exactly when it survived and at least two survivors have its key. */
  lemma DuplicatesMembership(es: seq<Entry>, fmt: nat -> string, sortKey: string, r: FileRecord)
    ensures r in Duplicates(es, fmt, sortKey) <==> r in Survivors(es, fmt) && |Bucket(Survivors(es, fmt), KeyOf(r))| >= 2
  {
    DuplicatesArePermutation(es, fmt, sortKey);
    SharedAmongCount(Survivors(es, fmt), Survivors(es, fmt), r);
    assert r in Duplicates(es, fmt, sortKey) <==> multiset(Duplicates(es, fmt, sortKey))[r] > 0;
  }

  /** No reported record has a hidden or denylisted name or comes from a failed stat. */
  lemma DuplicatesComeFromKeptEntries(es: seq<Entry>, fmt: nat -> string, sortKey: string, r: FileRecord)
    requires r in Duplicates(es, fmt, sortKey)
    ensures !IsSkippedName(r.filename)
    ensures exists i :: 0 <= i < |es| && !IsSkippedName(es[i].filename) && es[i].stat.Ok? && r == ToRecord(es[i], fmt)
  {
    DuplicatesMembership(es, fmt, sortKey, r);
    SurvivorFrom(es, fmt, r);
  }

  /** Every key in the output occurs there at least twice. */
  lemma DuplicateKeysRepeat(es: seq<Entry>, fmt: nat -> string, sortKey: string, r: FileRecord)
    requires r in Duplicates(es, fmt, sortKey)
    ensures |Bucket(Duplicates(es, fmt, sortKey), KeyOf(r))| >= 2
  {
    var s := Survivors(es, fmt);
    var out := Duplicates(es, fmt, sortKey);
    var k := KeyOf(r);
    DuplicatesMembership(es, fmt, sortKey, r);
    DuplicatesArePermutation(es, fmt, sortKey);
    BucketOfPermutation(out, Shared(s), k);
    forall x
      ensures multiset(Bucket(Shared(s), k))[x] == multiset(Bucket(s, k))[x]
    {
      BucketCount(Shared(s), k, x);
      BucketCount(s, k, x);
      SharedAmongCount(s, s, x);
    }
    assert multiset(Bucket(Shared(s), k)) == multiset(Bucket(s, k));
    assert |multiset(Bucket(Shared(s), k))| == |Bucket(Shared(s), k)|;
    assert |multiset(Bucket(s, k))| == |Bucket(s, k)|;
  }

  /**
   * Grouping looks at name and size only: two walked files with the same name
   * and byte size, both kept, are both reported, whatever their paths and times.
   */
  lemma SameNameAndSizeBothReported(es: seq<Entry>, fmt: nat -> string, sortKey: string, i: nat, j: nat)
    requires i < |es| && j < |es| && i != j
    requires !IsSkippedName(es[i].filename) && es[i].stat.Ok?
    requires !IsSkippedName(es[j].filename) && es[j].stat.Ok?
    requires es[i].filename == es[j].filename && es[i].stat.sizeBytes == es[j].stat.sizeBytes
    ensures ToRecord(es[i], fmt) in Duplicates(es, fmt, sortKey)
    ensures ToRecord(es[j], fmt) in Duplicates(es, fmt, sortKey)
  {
    var ri, rj := ToRecord(es[i], fmt), ToRecord(es[j], fmt);
    KeptSurvives(es, fmt, i);
    KeptSurvives(es, fmt, j);
    if i < j {
      KeptPairShareBucket(es, fmt, i, j);
    } else {
      KeptPairShareBucket(es, fmt, j, i);
    }
    DuplicatesMembership(es, fmt, sortKey, ri);
    DuplicatesMembership(es, fmt, sortKey, rj);
  }

  /**
   * The output is in non-increasing order of the chosen column, and records
   * that tie on it keep the bucket order they had before the sort.
   */
  lemma DuplicatesSorted(es: seq<Entry>, fmt: nat -> string, sortKey: string, v: string)
    ensures StableSort.SortedDesc(SortKeyOf(ParseSortKey(sortKey)), Duplicates(es, fmt, sortKey))
    ensures var s := Survivors(es, fmt);
            StableSort.WithKey(SortKeyOf(ParseSortKey(sortKey)), Duplicates(es, fmt, sortKey), v)
            == StableSort.WithKey(SortKeyOf(ParseSortKey(sortKey)), Grouped(s, KeysInOrder(s)), v)
  {
    var s := Survivors(es, fmt);
    StableSort.SortSorted(SortKeyOf(ParseSortKey(sortKey)), Grouped(s, KeysInOrder(s)));
    StableSort.SortStable(SortKeyOf(ParseSortKey(sortKey)), Grouped(s, KeysInOrder(s)), v);
  }

  /** A sort key outside the four column names gives exactly the file-name ordering. */
  lemma UnknownSortKeyIsFilename(es: seq<Entry>, fmt: nat -> string, sortKey: string)
    requires forall c :: ColumnName(c) != sortKey
    ensures Duplicates(es, fmt, sortKey) == Duplicates(es, fmt, "filename")
  {
  }

  /**
   * Sorting on the size column compares display strings: in the output, a
   * "9.00 MB" file comes before a "10.00 MB" file.
   */
  lemma NineMegabytesBeforeTen(es: seq<Entry>, fmt: nat -> string, a: nat, b: nat)
    requires a < |Duplicates(es, fmt, "size")| && b < |Duplicates(es, fmt, "size")|
    requires Duplicates(es, fmt, "size")[a].size == "9.00 MB"
    requires Duplicates(es, fmt, "size")[b].size == "10.00 MB"
    ensures a < b
  {
    DuplicatesSorted(es, fmt, "size", "");
    if b < a {
      assert false;
    }
  }
}
