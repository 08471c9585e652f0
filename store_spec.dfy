/** What each public operation of the Archivist store does to its file and its entry
    counter, as functions of the state before the call, and what that means for the
    list of entries the file holds. The class in module Archive is proved against these. */
module StoreSpec {
  import opened Wrappers
  import opened Bytes
  import opened StorageFormat

  /** The store's state: the bytes of its file and its `n_entries` counter. */
  datatype Store = Store(file: Bytes, count: int)

  /** A store whose file parses, whose counter is the number of entries and whose
      header holds the counter. */
  predicate Valid(s: Store)
  {
    |s.file| >= HEADER_SIZE && s.file[..HEADER_SIZE] == Int32Bytes(s.count)
    && Parse(s.file).Some? && |Parse(s.file).value| == s.count
  }

  /** No two entries share a locator. */
  predicate DistinctLocators(es: seq<StorageEntry>)
  {
    forall i, j :: 0 <= i < j < |es| ==> es[i].locator != es[j].locator
  }

  // ---------------------------------------------------------------------------
  // The operations

  /** The constructor on a file holding `contents`: a file too short for the counter
      gets a zero counter written over its start, otherwise the counter is read. */
  function Open(contents: Bytes): Store
  {
    if |contents| < HEADER_SIZE then Store(Overwrite(contents, 0, Int32Bytes(0)), 0)
    else Store(contents, Int32Of(contents[..HEADER_SIZE]))
  }

  /** get_raw: nothing when no entry has locator `k`, the data of the first one that
      has it, and bad_optional_access when its data cannot be read. */
  function GetRawOf(f: Bytes, k: Bytes): Result<Option<Bytes>>
  {
    match LocateFrom(f, HEADER_SIZE, k)
    case None => Success(None)
    case Some(p) =>
      match DataAt(f, p)
      case None => Failure(BadOptionalAccess)
      case Some(d) => Success(Some(d))
  }

  /** del: the entry found for `k` is compacted away, the file truncated and the
      decremented counter written. Nothing changes when `k` is absent; an aborted
      compaction leaves the counter and the moved bytes as they are. */
  function DelOf(s: Store, k: Bytes): (bool, Store)
  {
    match LocateFrom(s.file, HEADER_SIZE, k)
    case None => (false, s)
    case Some(loc) =>
      match Compact(s.file, loc)
      case Aborted(g) => (false, Store(g, s.count))
      case Compacted(g) => (true, Store(WithHeader(g, s.count - 1), s.count - 1))
  }

  /** The tail of put_raw: the entry is written at the end of the file and the
      incremented counter written. */
  function AppendOf(s: Store, e: StorageEntry): Store
  {
    var f := Overwrite(s.file, |s.file|, EncodeEntry(e));
    Store(WithHeader(f, s.count + 1), s.count + 1)
  }

  /** put_raw as written. An entry whose data has the new size is overwritten in
      place; one with another size is deleted, the counter incremented and written,
      and the entry appended, which increments the counter again. */
  function PutRawOf(s: Store, k: Bytes, v: Bytes): (bool, Store)
  {
    var e := StorageEntry(k, v);
    match LocateFrom(s.file, HEADER_SIZE, k)
    case None => (true, AppendOf(s, e))
    case Some(p) =>
      if DataSizeAt(s.file, p) == |v| then (true, Store(Overwrite(s.file, p, EncodeEntry(e)), s.count))
      else
        var (ok, t) := DelOf(s, k);
        if !ok then (false, t)
        else (true, AppendOf(Store(WithHeader(t.file, t.count + 1), t.count + 1), e))
  }

  /** put_raw as evidently intended: an entry whose lengths do not fit the length
      fields is refused, and a resized entry is deleted and appended without the
      extra increment of the counter. */
  function PutRawFixedOf(s: Store, k: Bytes, v: Bytes): (bool, Store)
  {
    var e := StorageEntry(k, v);
    if !Fits(e) then (false, s)
    else match LocateFrom(s.file, HEADER_SIZE, k)
      case None => (true, AppendOf(s, e))
      case Some(p) =>
        if DataSizeAt(s.file, p) == |v| then (true, Store(Overwrite(s.file, p, EncodeEntry(e)), s.count))
        else
          var (ok, t) := DelOf(s, k);
          if !ok then (false, t) else (true, AppendOf(t, e))
  }

  // ---------------------------------------------------------------------------
  // Helpers on files and lists

  /** Writing the counter at offset 0 of a file that has a header replaces the header. */
  lemma HeaderWrite(f: Bytes, n: int)
    requires |f| >= HEADER_SIZE
    ensures WithHeader(f, n) == Int32Bytes(n) + f[HEADER_SIZE..]
  {
    OverwriteInside(f, 0, Int32Bytes(n));
  }

  /** A header followed by the encoding of a list that fits parses to that list. */
  lemma ParseBytes(h: Bytes, es: seq<StorageEntry>)
    requires |h| == HEADER_SIZE && AllFit(es)
    ensures Parse(h + EncodeAll(es)) == Some(es)
  {
    var f := h + EncodeAll(es);
    assert f[..HEADER_SIZE] == h;
    ParseIff(f, es);
  }

  /** A file that parses is its header followed by the encoding of its entries. */
  lemma ParsedBytes(f: Bytes, es: seq<StorageEntry>)
    requires Parse(f) == Some(es)
    ensures |f| >= HEADER_SIZE && AllFit(es) && f == f[..HEADER_SIZE] + EncodeAll(es)
  {
    ParseIff(f, es);
  }

  /** The counter written over a parsed file leaves its entries as they are. */
  lemma HeaderKeepsEntries(f: Bytes, es: seq<StorageEntry>, n: int)
    requires Parse(f) == Some(es)
    ensures Parse(WithHeader(f, n)) == Some(es)
    ensures WithHeader(f, n)[..HEADER_SIZE] == Int32Bytes(n) && |WithHeader(f, n)| == |f|
  {
    ParsedBytes(f, es);
    HeaderWrite(f, n);
    assert f[HEADER_SIZE..] == EncodeAll(es);
    ParseBytes(Int32Bytes(n), es);
  }

  lemma AllFitRemove(es: seq<StorageEntry>, i: nat)
    requires AllFit(es) && i < |es|
    ensures AllFit(RemoveAt(es, i))
  {
    var r := RemoveAt(es, i);
    assert forall j :: 0 <= j < |r| ==> r[j] == es[if j < i then j else j + 1];
  }

  lemma AllFitAppend(es: seq<StorageEntry>, e: StorageEntry)
    requires AllFit(es) && Fits(e)
    ensures AllFit(es + [e])
  {
    assert forall j :: 0 <= j < |es| ==> (es + [e])[j] == es[j];
  }

  /** Appending an encoded entry to a parsed file appends the stored entry to its list. */
  lemma AppendKeepsEntries(f: Bytes, es: seq<StorageEntry>, e: StorageEntry)
    requires Parse(f) == Some(es)
    ensures Parse(f + EncodeEntry(e)) == Some(es + [Stored(e)])
  {
    var h, u := f[..HEADER_SIZE], es + [Stored(e)];
    ParsedBytes(f, es);
    EncodeAppendOne(es, e);
    Reassoc(h, EncodeAll(es), EncodeEntry(e), f);
    ParseBytes(h, u);
  }

  /** The list with one more entry that fits is encoded by one more block. */
  lemma EncodeAppendOne(es: seq<StorageEntry>, e: StorageEntry)
    requires AllFit(es)
    ensures AllFit(es + [Stored(e)])
    ensures EncodeAll(es + [Stored(e)]) == EncodeAll(es) + EncodeEntry(e)
  {
    StoredEncoding(e);
    AllFitAppend(es, Stored(e));
    EncodeAllAppend(es, [Stored(e)]);
    assert EncodeAll([Stored(e)]) == EncodeEntry(Stored(e)) + EncodeAll([]);
  }

  lemma Reassoc(h: Bytes, x: Bytes, y: Bytes, f: Bytes)
    requires f == h + x
    ensures h + (x + y) == f + y
  {
  }

  /** write_entry_at writes the same bytes for an entry as for what is read back of it. */
  lemma StoredEncoding(e: StorageEntry)
    ensures EncodeEntry(Stored(e)) == EncodeEntry(e)
  {
    var s := Stored(e);
    var ls, ds := |e.locator| % TWO_16, |e.data| % TWO_32;
    assert |s.locator| == ls && |s.data| == ds;
    assert ls % TWO_16 == ls && ds % TWO_32 == ds;
    assert s.locator[..ls] == s.locator && s.data[..ds] == s.data;
  }

  /** The file after the tail of put_raw: the new counter, the old entries, the new one. */
  lemma AppendBytes(s: Store, e: StorageEntry)
    requires |s.file| >= HEADER_SIZE
    ensures AppendOf(s, e).file == Int32Bytes(s.count + 1) + s.file[HEADER_SIZE..] + EncodeEntry(e)
  {
    OverwriteAtEnd(s.file, EncodeEntry(e));
    HeaderAppend(s.file, EncodeEntry(e), s.count + 1);
  }

  lemma HeaderAppend(f: Bytes, b: Bytes, n: int)
    requires |f| >= HEADER_SIZE
    ensures WithHeader(f + b, n) == Int32Bytes(n) + f[HEADER_SIZE..] + b
  {
    HeaderWrite(f + b, n);
    assert (f + b)[HEADER_SIZE..] == f[HEADER_SIZE..] + b;
  }

  /** The entries after the tail of put_raw: the old ones and the stored new one. */
  lemma AppendState(s: Store, es: seq<StorageEntry>, e: StorageEntry)
    requires Parse(s.file) == Some(es)
    ensures Parse(AppendOf(s, e).file) == Some(es + [Stored(e)])
  {
    OverwriteAtEnd(s.file, EncodeEntry(e));
    AppendKeepsEntries(s.file, es, e);
    HeaderKeepsEntries(s.file + EncodeEntry(e), es + [Stored(e)], s.count + 1);
  }

  /** Rewriting entry `i` with an entry of the same size replaces it in the list. */
  lemma ReplaceKeepsEntries(f: Bytes, es: seq<StorageEntry>, i: nat, e: StorageEntry)
    requires Parse(f) == Some(es) && i < |es| && Fits(e) && EntrySize(e) == EntrySize(es[i])
    ensures Offset(es, i + 1) == Offset(es, i) + EntrySize(e) <= |f|
    ensures Parse(Overwrite(f, Offset(es, i), EncodeEntry(e))) == Some(es[i := e])
  {
    ParsedBytes(f, es);
    var h, a, c := f[..HEADER_SIZE], EncodeAll(es[..i]), EncodeAll(es[i + 1..]);
    EncodeAround(es, i);
    EncodeEntrySize(es[i]);
    EncodeEntrySize(e);
    var u := es[i := e];
    assert u[..i] == es[..i] && u[i + 1..] == es[i + 1..] && u[i] == e;
    assert AllFit(u);
    EncodeAround(u, i);
    ReplaceBlock(f, h, a, EncodeEntry(es[i]), c, EncodeEntry(e), Offset(es, i));
    ParseBytes(h, u);
  }

  /** Overwriting block `e` of `h + (a + (e + c))` by a block of the same size. */
  lemma ReplaceBlock(f: Bytes, h: Bytes, a: Bytes, e: Bytes, c: Bytes, e2: Bytes, p: nat)
    requires f == h + (a + (e + c)) && |e2| == |e| && p == |h| + |a|
    ensures Overwrite(f, p, e2) == h + (a + (e2 + c))
  {
    OverwriteInside(f, p, e2);
    assert f[..p] == h + a;
    assert f[p + |e2|..] == c;
  }

  // ---------------------------------------------------------------------------
  // Properties of the operations

  /** A file too short for a counter becomes an empty store with a zero counter. */
  lemma OpenShort(contents: Bytes)
    requires |contents| < HEADER_SIZE
    ensures Open(contents) == Store([0, 0, 0, 0], 0)
    ensures Valid(Open(contents))
  {
    OverwriteInside(Overwrite(contents, 0, Int32Bytes(0)), 0, Int32Bytes(0));
    assert Int32Bytes(0) == [0, 0, 0, 0];
    assert Parse([0, 0, 0, 0]) == Some([]);
  }

  /** Reopening the file of a valid store restores the store. */
  lemma OpenValid(s: Store)
    requires Valid(s) && s.count < TWO_31
    ensures Open(s.file) == s
  {
    Int32RoundTrip(s.count);
  }

  /** get_raw on a file that parses returns the data of the first entry with the
      locator, and nothing when there is none; it never throws there. */
  lemma GetRawLookup(f: Bytes, es: seq<StorageEntry>, k: Bytes)
    requires Parse(f) == Some(es)
    ensures GetRawOf(f, k) == Success(Lookup(es, k))
  {
    LocateInFile(f, es, k);
    match FirstMatch(es, k)
    case None =>
    case Some(j) => DataInFile(f, es, j);
  }

  /** del of an absent locator reports failure and changes nothing. */
  lemma DelAbsent(s: Store, es: seq<StorageEntry>, k: Bytes)
    requires Parse(s.file) == Some(es) && FirstMatch(es, k) == None
    ensures DelOf(s, k) == (false, s)
  {
    LocateInFile(s.file, es, k);
  }

  /** del of the locator of entry `i` (its first occurrence) cuts exactly that entry's
      bytes out, keeps the other entries in order and decrements the counter. */
  lemma DelPresent(s: Store, es: seq<StorageEntry>, k: Bytes, i: nat)
    requires Parse(s.file) == Some(es) && FirstMatch(es, k) == Some(i)
    ensures Offset(es, i) + EntrySize(es[i]) == Offset(es, i + 1) <= |s.file|
    ensures DelOf(s, k).0
    ensures DelOf(s, k).1.count == s.count - 1
    ensures DelOf(s, k).1.file
      == Int32Bytes(s.count - 1) + s.file[HEADER_SIZE..Offset(es, i)] + s.file[Offset(es, i + 1)..]
    ensures Parse(DelOf(s, k).1.file) == Some(RemoveAt(es, i))
  {
    var f := s.file;
    var loc, next := Offset(es, i), Offset(es, i + 1);
    DelState(s, es, k, i);
    CutParses(f, es, i);
    HeaderKeepsEntries(f[..loc] + f[next..], RemoveAt(es, i), s.count - 1);
    HeaderOverCut(f, loc, next, s.count - 1);
  }

  /** del of a present locator compacts the located entry away. */
  lemma DelState(s: Store, es: seq<StorageEntry>, k: Bytes, i: nat)
    requires Parse(s.file) == Some(es) && FirstMatch(es, k) == Some(i)
    ensures Offset(es, i) + EntrySize(es[i]) == Offset(es, i + 1) <= |s.file|
    ensures DelOf(s, k)
      == (true, Store(WithHeader(s.file[..Offset(es, i)] + s.file[Offset(es, i + 1)..], s.count - 1), s.count - 1))
  {
    LocateInFile(s.file, es, k);
    CompactInFile(s.file, es, i);
    PosOfNext(es, i);
  }

  /** Cutting entry `i` out of a parsed file leaves a file holding the other entries. */
  lemma CutParses(f: Bytes, es: seq<StorageEntry>, i: nat)
    requires Parse(f) == Some(es) && i < |es|
    ensures Offset(es, i) <= Offset(es, i + 1) <= |f|
    ensures Parse(f[..Offset(es, i)] + f[Offset(es, i + 1)..]) == Some(RemoveAt(es, i))
  {
    CompactInFile(f, es, i);
    ParsedBytes(f, es);
    AllFitRemove(es, i);
    ParseBytes(f[..HEADER_SIZE], RemoveAt(es, i));
  }

  /** The counter written over a file with a range cut out of it. */
  lemma HeaderOverCut(f: Bytes, loc: nat, next: nat, n: int)
    requires HEADER_SIZE <= loc <= next <= |f|
    ensures WithHeader(f[..loc] + f[next..], n) == Int32Bytes(n) + f[HEADER_SIZE..loc] + f[next..]
  {
    var g := f[..loc] + f[next..];
    HeaderWrite(g, n);
    assert g[HEADER_SIZE..] == f[HEADER_SIZE..loc] + f[next..];
  }

  /** del keeps a valid store valid, and its file shrinks by the entry's size. */
  lemma DelValid(s: Store, es: seq<StorageEntry>, k: Bytes, i: nat)
    requires Valid(s) && Parse(s.file) == Some(es) && FirstMatch(es, k) == Some(i)
    ensures Valid(DelOf(s, k).1)
    ensures |DelOf(s, k).1.file| == |s.file| - EntrySize(es[i])
  {
    DelPresent(s, es, k, i);
  }

  /** put_raw of a new locator appends the entry at the old end of the file and
      increments the counter. */
  lemma PutNew(s: Store, es: seq<StorageEntry>, k: Bytes, v: Bytes)
    requires Parse(s.file) == Some(es) && FirstMatch(es, k) == None
    ensures PutRawOf(s, k, v) == (true, AppendOf(s, StorageEntry(k, v)))
    ensures AppendOf(s, StorageEntry(k, v)).file
      == Int32Bytes(s.count + 1) + s.file[HEADER_SIZE..] + EncodeEntry(StorageEntry(k, v))
    ensures Parse(AppendOf(s, StorageEntry(k, v)).file) == Some(es + [Stored(StorageEntry(k, v))])
  {
    LocateInFile(s.file, es, k);
    PutAbsentState(s, k, v);
    ParsedBytes(s.file, es);
    AppendBytes(s, StorageEntry(k, v));
    AppendState(s, es, StorageEntry(k, v));
  }

  /** put_raw of a locator the scan does not find appends. */
  lemma PutAbsentState(s: Store, k: Bytes, v: Bytes)
    requires LocateFrom(s.file, HEADER_SIZE, k) == None
    ensures PutRawOf(s, k, v) == (true, AppendOf(s, StorageEntry(k, v)))
  {
  }

  /** put_raw of a present locator with data of the same size rewrites that entry in
      place: the offset, the counter and every byte outside the entry stay. */
  lemma PutSameSize(s: Store, es: seq<StorageEntry>, k: Bytes, v: Bytes, i: nat)
    requires Parse(s.file) == Some(es) && FirstMatch(es, k) == Some(i) && |v| == |es[i].data|
    ensures Offset(es, i + 1) <= |s.file|
    ensures PutRawOf(s, k, v) == (true, Store(Overwrite(s.file, Offset(es, i), EncodeEntry(StorageEntry(k, v))), s.count))
    ensures var g := PutRawOf(s, k, v).1.file;
      |g| == |s.file| && g[..Offset(es, i)] == s.file[..Offset(es, i)]
      && g[Offset(es, i + 1)..] == s.file[Offset(es, i + 1)..]
    ensures Parse(PutRawOf(s, k, v).1.file) == Some(es[i := StorageEntry(k, v)])
  {
    var e := StorageEntry(k, v);
    PutSameSizeState(s, es, k, v, i);
    FirstMatchSpec(es, k);
    ParsedBytes(s.file, es);
    EncodeEntrySize(e);
    ReplaceKeepsEntries(s.file, es, i, e);
    OverwriteOutside(s.file, Offset(es, i), EncodeEntry(e), Offset(es, i + 1));
  }

  lemma PutSameSizeState(s: Store, es: seq<StorageEntry>, k: Bytes, v: Bytes, i: nat)
    requires Parse(s.file) == Some(es) && FirstMatch(es, k) == Some(i) && |v| == |es[i].data|
    ensures Offset(es, i + 1) <= |s.file|
    ensures PutRawOf(s, k, v) == (true, Store(Overwrite(s.file, Offset(es, i), EncodeEntry(StorageEntry(k, v))), s.count))
  {
    LocateInFile(s.file, es, k);
    EntryInFile(s.file, es, i);
  }

  /** A write inside the file leaves the bytes before and after it. */
  lemma OverwriteOutside(f: Bytes, p: nat, b: Bytes, q: nat)
    requires q == p + |b| <= |f|
    ensures |Overwrite(f, p, b)| == |f|
    ensures Overwrite(f, p, b)[..p] == f[..p] && Overwrite(f, p, b)[q..] == f[q..]
  {
    OverwriteInside(f, p, b);
  }

  /** put_raw of a present locator with data of another size: the entry moves to the
      end of the file and the counter ends one above the number of entries. */
  lemma PutResize(s: Store, es: seq<StorageEntry>, k: Bytes, v: Bytes, i: nat)
    requires Parse(s.file) == Some(es) && FirstMatch(es, k) == Some(i) && |v| != |es[i].data|
    ensures PutRawOf(s, k, v).0
    ensures PutRawOf(s, k, v).1.count == s.count + 1
    ensures Parse(PutRawOf(s, k, v).1.file) == Some(RemoveAt(es, i) + [Stored(StorageEntry(k, v))])
  {
    var e := StorageEntry(k, v);
    LocateInFile(s.file, es, k);
    EntryInFile(s.file, es, i);
    DelPresent(s, es, k, i);
    var t := DelOf(s, k).1;
    HeaderKeepsEntries(t.file, RemoveAt(es, i), s.count);
    AppendState(Store(WithHeader(t.file, s.count), s.count), RemoveAt(es, i), e);
  }

  /** Finding: after a resizing put_raw a valid store is no longer valid, because its
      counter exceeds its number of entries by one. */
  lemma PutResizeDrift(s: Store, es: seq<StorageEntry>, k: Bytes, v: Bytes, i: nat)
    requires Valid(s) && Parse(s.file) == Some(es) && FirstMatch(es, k) == Some(i) && |v| != |es[i].data|
    ensures PutRawOf(s, k, v).1.count == |es| + 1
    ensures !Valid(PutRawOf(s, k, v).1)
  {
    PutResize(s, es, k, v, i);
  }

  /** Finding: put_raw of a locator of 65536 bytes or more reports success, yet get_raw
      never finds it. */
  lemma PutLongLocator(s: Store, es: seq<StorageEntry>, k: Bytes, v: Bytes)
    requires Parse(s.file) == Some(es) && |k| >= TWO_16
    ensures PutRawOf(s, k, v).0
    ensures GetRawOf(PutRawOf(s, k, v).1.file, k) == Success(None)
  {
    LongLocatorNeverFound(s.file, HEADER_SIZE, k);
    LongLocatorNeverFound(AppendOf(s, StorageEntry(k, v)).file, HEADER_SIZE, k);
  }

  // ---------------------------------------------------------------------------
  // Round trips

  /** The first match in a list with one more entry, when only that entry matches. */
  lemma {:induction false} FirstMatchAppendNew(es: seq<StorageEntry>, e: StorageEntry, k: Bytes)
    requires FirstMatch(es, k) == None && e.locator == k
    ensures FirstMatch(es + [e], k) == Some(|es|)
  {
    if es != [] {
      assert (es + [e])[1..] == es[1..] + [e];
      FirstMatchAppendNew(es[1..], e, k);
    }
  }

  /** Replacing the first match by an entry with the same locator keeps it the first. */
  lemma {:induction false} FirstMatchUpdate(es: seq<StorageEntry>, i: nat, e: StorageEntry, k: Bytes)
    requires FirstMatch(es, k) == Some(i) && e.locator == k
    ensures FirstMatch(es[i := e], k) == Some(i)
  {
    if i > 0 {
      assert es[i := e][1..] == es[1..][i - 1 := e];
      FirstMatchUpdate(es[1..], i - 1, e, k);
    }
  }

  /** With distinct locators, removing the match for `k` leaves no entry with `k`. */
  lemma RemoveOnlyMatch(es: seq<StorageEntry>, k: Bytes, i: nat)
    requires DistinctLocators(es) && FirstMatch(es, k) == Some(i)
    ensures FirstMatch(RemoveAt(es, i), k) == None
  {
    FirstMatchSpec(es, k);
    var r := RemoveAt(es, i);
    assert forall j :: 0 <= j < |r| ==> r[j] == es[if j < i then j else j + 1];
    FirstMatchSpec(r, k);
  }

  /** After put_raw of an entry that fits, get_raw returns the data just put, provided
      no two entries shared a locator before. */
  lemma PutRoundTrip(s: Store, es: seq<StorageEntry>, k: Bytes, v: Bytes)
    requires Parse(s.file) == Some(es) && DistinctLocators(es) && Fits(StorageEntry(k, v))
    ensures PutRawOf(s, k, v).0
    ensures GetRawOf(PutRawOf(s, k, v).1.file, k) == Success(Some(v))
  {
    var e := StorageEntry(k, v);
    var f := PutRawOf(s, k, v).1.file;
    match FirstMatch(es, k)
    case None =>
      PutNew(s, es, k, v);
      FirstMatchAppendNew(es, e, k);
      GetRawLookup(f, es + [e], k);
    case Some(i) =>
      if |v| == |es[i].data| {
        PutSameSize(s, es, k, v, i);
        FirstMatchUpdate(es, i, e, k);
        GetRawLookup(f, es[i := e], k);
      } else {
        PutResize(s, es, k, v, i);
        RemoveOnlyMatch(es, k, i);
        FirstMatchAppendNew(RemoveAt(es, i), e, k);
        GetRawLookup(f, RemoveAt(es, i) + [e], k);
      }
  }

  // ---------------------------------------------------------------------------
  // Distinct locators

  lemma DistinctRemove(es: seq<StorageEntry>, i: nat)
    requires DistinctLocators(es) && i < |es|
    ensures DistinctLocators(RemoveAt(es, i))
  {
    var r := RemoveAt(es, i);
    assert forall j :: 0 <= j < |r| ==> r[j] == es[if j < i then j else j + 1];
  }

  lemma DistinctAppend(es: seq<StorageEntry>, e: StorageEntry)
    requires DistinctLocators(es) && FirstMatch(es, e.locator) == None
    ensures DistinctLocators(es + [e])
  {
    FirstMatchSpec(es, e.locator);
    var u := es + [e];
    forall i, j | 0 <= i < j < |u|
      ensures u[i].locator != u[j].locator
    {
      assert u[i] == es[i];
    }
  }

  /** del keeps the locators of a parsed file distinct, and the file still parses. */
  lemma DelKeepsDistinct(s: Store, es: seq<StorageEntry>, k: Bytes)
    requires Parse(s.file) == Some(es) && DistinctLocators(es)
    ensures Parse(DelOf(s, k).1.file).Some?
    ensures DistinctLocators(Parse(DelOf(s, k).1.file).value)
  {
    match FirstMatch(es, k)
    case None =>
      DelAbsent(s, es, k);
    case Some(i) =>
      DelPresent(s, es, k, i);
      DistinctRemove(es, i);
  }

  /** put_raw of an entry that fits keeps the locators of a parsed file distinct, so
      round trips chain from one put to the next. */
  lemma PutRawKeepsDistinct(s: Store, es: seq<StorageEntry>, k: Bytes, v: Bytes)
    requires Parse(s.file) == Some(es) && DistinctLocators(es) && Fits(StorageEntry(k, v))
    ensures Parse(PutRawOf(s, k, v).1.file).Some?
    ensures DistinctLocators(Parse(PutRawOf(s, k, v).1.file).value)
  {
    var e := StorageEntry(k, v);
    match FirstMatch(es, k)
    case None =>
      PutNew(s, es, k, v);
      DistinctAppend(es, e);
    case Some(i) =>
      FirstMatchSpec(es, k);
      if |v| == |es[i].data| {
        PutSameSize(s, es, k, v, i);
      } else {
        PutResize(s, es, k, v, i);
        RemoveOnlyMatch(es, k, i);
        DistinctRemove(es, i);
        DistinctAppend(RemoveAt(es, i), e);
      }
  }

  /** The corrected put_raw keeps the locators of a parsed file distinct for every
      entry, since it refuses the ones that do not fit. */
  lemma PutFixedKeepsDistinct(s: Store, es: seq<StorageEntry>, k: Bytes, v: Bytes)
    requires Parse(s.file) == Some(es) && DistinctLocators(es)
    ensures Parse(PutRawFixedOf(s, k, v).1.file).Some?
    ensures DistinctLocators(Parse(PutRawFixedOf(s, k, v).1.file).value)
  {
    var e := StorageEntry(k, v);
    if Fits(e) {
      PutFixedCases(s, k, v);
      LocateInFile(s.file, es, k);
      match FirstMatch(es, k)
      case None =>
        PutRawKeepsDistinct(s, es, k, v);
      case Some(i) =>
        EntryInFile(s.file, es, i);
        if |v| == |es[i].data| {
          PutRawKeepsDistinct(s, es, k, v);
        } else {
          DelPresent(s, es, k, i);
          AppendState(DelOf(s, k).1, RemoveAt(es, i), e);
          RemoveOnlyMatch(es, k, i);
          DistinctRemove(es, i);
          DistinctAppend(RemoveAt(es, i), e);
        }
    }
  }

  /** Finding: put_raw of a locator of 65536 bytes or more whose truncation is the
      locator of an entry already stored appends a second entry with that locator. */
  lemma PutLongLocatorDuplicates(s: Store, es: seq<StorageEntry>, k: Bytes, v: Bytes, i: nat)
    requires Parse(s.file) == Some(es) && |k| >= TWO_16 && i < |es| && es[i].locator == k[..|k| % TWO_16]
    ensures PutRawOf(s, k, v).0
    ensures Parse(PutRawOf(s, k, v).1.file) == Some(es + [Stored(StorageEntry(k, v))])
    ensures !DistinctLocators(es + [Stored(StorageEntry(k, v))])
  {
    LongLocatorNeverFound(s.file, HEADER_SIZE, k);
    LocateInFile(s.file, es, k);
    PutNew(s, es, k, v);
    var u := es + [Stored(StorageEntry(k, v))];
    assert u[i] == es[i] && u[|es|].locator == k[..|k| % TWO_16];
  }

  /** get_raw throws bad_optional_access when the located entry's data runs past the end of the
      file, here a locator "k" announcing five bytes of data that are missing. */
  lemma GetRawThrows()
    ensures GetRawOf([0, 0, 0, 0, 1, 0, 5, 0, 0, 0, 107], [107]) == Failure(BadOptionalAccess)
  {
    var f: Bytes := [0, 0, 0, 0, 1, 0, 5, 0, 0, 0, 107];
    assert LocatorSizeAt(f, HEADER_SIZE) == 1;
    assert f[HEADER_SIZE + PREFIX_SIZE..HEADER_SIZE + PREFIX_SIZE + 1] == [107];
    assert LocateFrom(f, HEADER_SIZE, [107]) == Some(HEADER_SIZE);
  }

  // ---------------------------------------------------------------------------
  // locate_idx

  /** locate_idx on a file that parses, with the counter equal to the number of
      entries: the offset of entry `i`, the first entry for a negative `i`, and
      nothing from the counter on. */
  lemma IndexInFile(f: Bytes, es: seq<StorageEntry>, i: int)
    requires Parse(f) == Some(es)
    ensures IndexPos(f, |es|, i) == if i >= |es| then None else Some(Offset(es, if i < 0 then 0 else i))
  {
    if i < |es| {
      StepsInFile(f, es, if i < 0 then 0 else i);
    }
  }

  // ---------------------------------------------------------------------------
  // The corrected put_raw

  /** For an entry that fits, the corrected put_raw differs from put_raw only after a
      resizing delete, where it appends without the extra increment. */
  lemma PutFixedCases(s: Store, k: Bytes, v: Bytes)
    requires Fits(StorageEntry(k, v))
    ensures match LocateFrom(s.file, HEADER_SIZE, k)
      case None => PutRawFixedOf(s, k, v) == PutRawOf(s, k, v)
      case Some(p) =>
        if DataSizeAt(s.file, p) == |v| || !DelOf(s, k).0 then PutRawFixedOf(s, k, v) == PutRawOf(s, k, v)
        else PutRawFixedOf(s, k, v) == (true, AppendOf(DelOf(s, k).1, StorageEntry(k, v)))
  {
  }

  /** Appending keeps a valid store valid. */
  lemma AppendValid(s: Store, es: seq<StorageEntry>, e: StorageEntry)
    requires Valid(s) && Parse(s.file) == Some(es)
    ensures Valid(AppendOf(s, e))
    ensures Parse(AppendOf(s, e).file) == Some(es + [Stored(e)])
  {
    var t := AppendOf(s, e);
    AppendKeepsEntries(s.file, es, e);
    OverwriteAtEnd(s.file, EncodeEntry(e));
    HeaderKeepsEntries(s.file + EncodeEntry(e), es + [Stored(e)], s.count + 1);
    ValidOf(t, es + [Stored(e)]);
  }

  lemma ValidOf(t: Store, es: seq<StorageEntry>)
    requires Parse(t.file) == Some(es) && |t.file| >= HEADER_SIZE
    requires t.file[..HEADER_SIZE] == Int32Bytes(t.count) && |es| == t.count
    ensures Valid(t)
  {
  }

  /** The corrected put_raw keeps a valid store valid, succeeds exactly when the entry
      fits its length fields, and changes nothing when it does not. */
  lemma PutFixedValid(s: Store, es: seq<StorageEntry>, k: Bytes, v: Bytes)
    requires Valid(s) && Parse(s.file) == Some(es)
    ensures PutRawFixedOf(s, k, v).0 == Fits(StorageEntry(k, v))
    ensures !Fits(StorageEntry(k, v)) ==> PutRawFixedOf(s, k, v).1 == s
    ensures Valid(PutRawFixedOf(s, k, v).1)
  {
    var e := StorageEntry(k, v);
    if Fits(e) {
      PutFixedCases(s, k, v);
      match FirstMatch(es, k)
      case None =>
        PutNew(s, es, k, v);
        AppendValid(s, es, e);
      case Some(i) =>
        if |v| == |es[i].data| {
          PutSameSize(s, es, k, v, i);
          SameSizeValid(s, es, k, v, i);
        } else {
          FixedResizeValid(s, es, k, v, i);
        }
    }
  }

  /** The corrected put_raw after a resizing delete: the store stays valid. */
  lemma FixedResizeValid(s: Store, es: seq<StorageEntry>, k: Bytes, v: Bytes, i: nat)
    requires Valid(s) && Parse(s.file) == Some(es) && FirstMatch(es, k) == Some(i) && |v| != |es[i].data|
    requires Fits(StorageEntry(k, v))
    ensures PutRawFixedOf(s, k, v) == (true, AppendOf(DelOf(s, k).1, StorageEntry(k, v)))
    ensures Valid(PutRawFixedOf(s, k, v).1)
  {
    PutFixedCases(s, k, v);
    EntryInFile(s.file, es, i);
    LocateInFile(s.file, es, k);
    DelValid(s, es, k, i);
    DelPresent(s, es, k, i);
    AppendValid(DelOf(s, k).1, RemoveAt(es, i), StorageEntry(k, v));
  }

  /** A same-size overwrite keeps a valid store valid. */
  lemma SameSizeValid(s: Store, es: seq<StorageEntry>, k: Bytes, v: Bytes, i: nat)
    requires Valid(s) && Parse(s.file) == Some(es) && FirstMatch(es, k) == Some(i) && |v| == |es[i].data|
    ensures Valid(PutRawOf(s, k, v).1)
  {
    PutSameSize(s, es, k, v, i);
    var g := PutRawOf(s, k, v).1.file;
    PrefixOfPrefix(g, s.file, Offset(es, i), HEADER_SIZE);
  }

  lemma PrefixOfPrefix(g: Bytes, f: Bytes, n: nat, m: nat)
    requires m <= n <= |g| && n <= |f| && g[..n] == f[..n]
    ensures g[..m] == f[..m]
  {
    assert g[..m] == g[..n][..m];
    assert f[..m] == f[..n][..m];
  }

  /** After the corrected put_raw of an entry that fits, get_raw returns the data put,
      provided no two entries shared a locator before. */
  lemma PutFixedRoundTrip(s: Store, es: seq<StorageEntry>, k: Bytes, v: Bytes)
    requires Parse(s.file) == Some(es) && DistinctLocators(es) && Fits(StorageEntry(k, v))
    ensures PutRawFixedOf(s, k, v).0
    ensures GetRawOf(PutRawFixedOf(s, k, v).1.file, k) == Success(Some(v))
  {
    var e := StorageEntry(k, v);
    PutFixedCases(s, k, v);
    match FirstMatch(es, k)
    case None =>
      PutRoundTrip(s, es, k, v);
      LocateInFile(s.file, es, k);
    case Some(i) =>
      LocateInFile(s.file, es, k);
      EntryInFile(s.file, es, i);
      if |v| == |es[i].data| {
        PutRoundTrip(s, es, k, v);
      } else {
        DelPresent(s, es, k, i);
        var t := DelOf(s, k).1;
        AppendState(t, RemoveAt(es, i), e);
        RemoveOnlyMatch(es, k, i);
        FirstMatchAppendNew(RemoveAt(es, i), e, k);
        GetRawLookup(AppendOf(t, e).file, RemoveAt(es, i) + [e], k);
      }
  }
}
