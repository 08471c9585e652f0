/** The Archivist: a key-value store kept in one binary file, each locator mapped to
    the serialized bytes of a value. The object holds the file's bytes and its
    `n_entries` counter; each method does what the stream operations of the original
    do to them, and is proved equal to the function in module StoreSpec that
    specifies it. */
module Archive {
  import opened Wrappers
  import opened Bytes
  import opened StorageFormat
  import opened StoreSpec
  import opened Serialization

  /** std::filesystem::resize_file: cut the file to `n` bytes, or extend it with zeros. */
  function Resize(f: Bytes, n: nat): (r: Bytes)
    ensures |r| == n
    ensures n <= |f| ==> r == f[..n]
  {
    if n <= |f| then f[..n] else f + seq(n - |f|, _ => 0)
  }

  /** typed get: get_raw, then the value's deserializer on the bytes found. */
  function GetOf<T>(f: Bytes, k: Bytes, deserialize: Bytes -> Result<T>): (r: Result<Option<T>>)
    ensures GetRawOf(f, k).Success? && GetRawOf(f, k).value.None? ==> r == Success(None)
    ensures GetRawOf(f, k).Failure? ==> r == Failure(GetRawOf(f, k).error)
  {
    match GetRawOf(f, k)
    case Failure(e) => Failure(e)
    case Success(None) => Success(None)
    case Success(Some(d)) =>
      match deserialize(d)
      case Failure(e) => Failure(e)
      case Success(x) => Success(Some(x))
  }

  class Archivist {
    /** The bytes of the storage file. */
    var file: Bytes
    /** The entry counter kept in memory and written to the file's first four bytes. */
    var nEntries: int

    function State(): Store
      reads this
    {
      Store(file, nEntries)
    }

    /** Opening the storage file (a missing file is created empty): a file too short to
        hold the counter gets a zero counter; otherwise the counter is read from it. */
    constructor (contents: Bytes)
      ensures State() == Open(contents)
    {
      var header := ReadAt(contents, 0, HEADER_SIZE);
      if header.None? {
        file := Overwrite(contents, 0, Int32Bytes(0));
        nEntries := 0;
      } else {
        file := contents;
        nEntries := Int32Of(header.value);
      }
    }

    /** The reads of the u16 locator_size and u32 data_size fields at `p`. */
    method ReadLengths(p: nat) returns (r: Option<(nat, nat)>)
      ensures r.Some? <==> PrefixAt(file, p)
      ensures r.Some? ==> r.value == (LocatorSizeAt(file, p), DataSizeAt(file, p))
    {
      var locatorSize := ReadAt(file, p, 2);
      var dataSize := ReadAt(file, p + 2, 4);
      if locatorSize.None? || dataSize.None? {
        return None;
      }
      Decode2(locatorSize.value);
      Decode4(dataSize.value);
      return Some((Decode(locatorSize.value), Decode(dataSize.value)));
    }

    /** next_entry: the position after the entry at `prevPos`. */
    method NextEntry(prevPos: nat) returns (r: Option<nat>)
      ensures r == NextEntryPos(file, prevPos)
    {
      var lengths := ReadLengths(prevPos);
      if lengths.None? {
        return None;
      }
      var (locatorSize, dataSize) := lengths.value;
      return Some(prevPos + PREFIX_SIZE + locatorSize + dataSize);
    }

    /** locate_idx: the position of entry `index`, walking from the first entry. */
    method LocateIdx(index: int) returns (r: Option<nat>)
      ensures r == IndexPos(file, nEntries, index)
    {
      if index >= nEntries {
        return None;
      }
      var curPos: nat := HEADER_SIZE;
      ghost var n := if index < 0 then 0 else index;
      var i := 0;
      while i < index
        invariant 0 <= i <= n
        invariant StepsFrom(file, HEADER_SIZE, n) == StepsFrom(file, curPos, n - i)
      {
        var nextPos := NextEntry(curPos);
        if nextPos.None? {
          return None;
        }
        curPos := nextPos.value;
        i := i + 1;
      }
      return Some(curPos);
    }

    /** locate_entry: the start of the first entry whose locator is `k`, scanning from
        the first entry until the length fields or the locator cannot be read. */
    method LocateEntry(k: Bytes) returns (r: Option<nat>)
      ensures r == LocateFrom(file, HEADER_SIZE, k)
    {
      var pos: nat := HEADER_SIZE;
      while true
        invariant LocateFrom(file, HEADER_SIZE, k) == LocateFrom(file, pos, k)
        decreases |file| - pos
      {
        var lengths := ReadLengths(pos);
        if lengths.None? {
          return None;
        }
        var (locatorSize, dataSize) := lengths.value;
        var entryLocator := ReadAt(file, pos + PREFIX_SIZE, locatorSize);
        var nextPos := pos + PREFIX_SIZE + locatorSize + dataSize;
        LocateUnfold(file, pos, k, entryLocator, nextPos);
        if entryLocator.None? {
          return None;
        }
        if entryLocator.value == k {
          return Some(pos);
        }
        pos := nextPos;
      }
    }

    /** read_entry_at: the data of the entry starting at `atPos`. */
    method ReadEntryAt(atPos: nat) returns (r: Option<Bytes>)
      ensures r == DataAt(file, atPos)
    {
      var lengths := ReadLengths(atPos);
      if lengths.None? {
        return None;
      }
      var (locatorSize, dataSize) := lengths.value;
      r := ReadAt(file, atPos + PREFIX_SIZE + locatorSize, dataSize);
    }

    /** write_entry_at: the two length fields, cast to their widths, then that many
        locator and data bytes, written over the file from `atPos`. Writes to a file
        stream do not fail here, so it reports success. */
    method WriteEntryAt(atPos: nat, entry: StorageEntry) returns (ok: bool)
      modifies this
      ensures ok
      ensures file == Overwrite(old(file), atPos, EncodeEntry(entry)) && nEntries == old(nEntries)
    {
      var locatorSize := |entry.locator| % TWO_16;
      var dataSize := |entry.data| % TWO_32;
      var a, b := Encode(locatorSize, 2), Encode(dataSize, 4);
      var c, d := entry.locator[..locatorSize], entry.data[..dataSize];
      var p1, p2 := atPos + 2, atPos + PREFIX_SIZE;
      var p3 := p2 + locatorSize;
      ghost var f := file;
      file := Overwrite(file, atPos, a);
      file := Overwrite(file, p1, b);
      file := Overwrite(file, p2, c);
      file := Overwrite(file, p3, d);
      OverwriteFour(f, atPos, p1, p2, p3, a, b, c, d);
      return true;
    }

    /** get_raw: the data stored under `k`; `optional::value()` on a failed read of the
        located entry throws. */
    method GetRaw(k: Bytes) returns (r: Result<Option<Bytes>>)
      ensures r == GetRawOf(file, k)
    {
      var location := LocateEntry(k);
      if location.None? {
        return Success(None);
      }
      var data := ReadEntryAt(location.value);
      if data.None? {
        return Failure(BadOptionalAccess);
      }
      return Success(Some(data.value));
    }

    /** del: the entries after the one found for `k` are moved back over it, the file
        is cut after the last moved entry and the decremented counter written. */
    method Del(k: Bytes) returns (ok: bool)
      modifies this
      ensures (ok, State()) == DelOf(old(State()), k)
    {
      var entryLoc := LocateEntry(k);
      if entryLoc.None? {
        return false;
      }
      ghost var f, n := file, nEntries;
      var loc := entryLoc.value;
      var newFileSize: nat;
      var nextEntryStart := NextEntry(loc);
      if nextEntryStart.None? {
        // "deleting last entry": never taken, as LocatedEntryHasNext shows
        assert false;
        newFileSize := loc;
      } else {
        var moved, w := MoveBack(loc, nextEntryStart.value);
        if !moved {
          DelAborted(f, n, k, loc, file);
          return false;
        }
        newFileSize := w;
        DelCompacted(f, n, k, loc, w, file);
      }
      file := Resize(file, newFileSize);
      nEntries := nEntries - 1;
      file := WithHeader(file, nEntries);
      return true;
    }

    /** del's move loop, for the entry at `loc` followed by one at `next`: each further
        entry is read and written back at the write cursor, until next_entry finds no
        more entries. A move whose bytes cannot be read stops the loop with `moved`
        false, keeping what was moved so far; otherwise `w` is where the entries end. */
    method MoveBack(loc: nat, next: nat) returns (moved: bool, w: nat)
      requires PrefixAt(file, loc) && next == loc + SpanAt(file, loc)
      modifies this
      ensures nEntries == old(nEntries)
      ensures moved ==> w <= |file| && Compact(old(file), loc) == Compacted(file[..w])
      ensures !moved ==> Compact(old(file), loc) == Aborted(file)
    {
      ghost var f := file;
      var r := next;
      w := loc;
      var nextEntryEnd := NextEntry(r);
      while nextEntryEnd.Some?
        invariant Moved(f, file, loc, next, w, r) && nEntries == old(nEntries)
        invariant nextEntryEnd == NextEntryPos(f, r)
        invariant ChainEnd(f, next) == ChainEnd(f, r)
        decreases |f| - r
      {
        var e := nextEntryEnd.value;
        var buffer := ReadAt(file, r, e - r);
        ReadsUnmoved(f, file, loc, next, w, r, e - r);
        if buffer.None? {
          AbortedState(f, loc, next, w, r, file);
          return false, w;
        }
        MoveStep(f, file, loc, next, w, r, e, buffer.value);
        file := Overwrite(file, w, buffer.value);
        w, r := w + (e - r), e;
        nextEntryEnd := NextEntry(r);
        ReadsUnmoved(f, file, loc, next, w, r, 0);
      }
      CompactedState(f, loc, next, w, r, file);
      moved := true;
    }

    /** put_raw as written (see StoreSpec.PutRawOf): overwrite an entry of the same
        data size in place; otherwise delete it, increment and write the counter, then
        append the entry and increment and write the counter again. */
    method PutRaw(k: Bytes, v: Bytes) returns (ok: bool)
      modifies this
      ensures (ok, State()) == PutRawOf(old(State()), k, v)
    {
      var entry := StorageEntry(k, v);
      var writePosition := LocateEntry(k);
      if writePosition.Some? {
        var lengths := ReadLengths(writePosition.value);
        var dataSize := lengths.value.1;
        if dataSize == |v| {
          ok := WriteEntryAt(writePosition.value, entry);
          return;
        }
        var deleted := Del(k);
        if !deleted {
          return false;
        }
        nEntries := nEntries + 1;
        file := WithHeader(file, nEntries);
      }
      ok := Append(entry);
    }

    /** put_raw as evidently intended (see StoreSpec.PutRawFixedOf): an entry whose
        lengths overflow its length fields is refused, and a resized entry is deleted
        and appended with the counter incremented once. */
    method PutRawFixed(k: Bytes, v: Bytes) returns (ok: bool)
      modifies this
      ensures (ok, State()) == PutRawFixedOf(old(State()), k, v)
    {
      var entry := StorageEntry(k, v);
      if |k| >= TWO_16 || |v| >= TWO_32 {
        return false;
      }
      var writePosition := LocateEntry(k);
      if writePosition.Some? {
        var lengths := ReadLengths(writePosition.value);
        var dataSize := lengths.value.1;
        if dataSize == |v| {
          ok := WriteEntryAt(writePosition.value, entry);
          return;
        }
        var deleted := Del(k);
        if !deleted {
          return false;
        }
      }
      ok := Append(entry);
    }

    /** The tail of put_raw: the entry written at the end of the file, the counter
        incremented and written. */
    method Append(entry: StorageEntry) returns (ok: bool)
      modifies this
      ensures ok && State() == AppendOf(old(State()), entry)
    {
      var written := WriteEntryAt(|file|, entry);
      nEntries := nEntries + 1;
      file := WithHeader(file, nEntries);
      return true;
    }

    /** get<Type>: the value stored under `k`, deserialized. */
    method Get<T>(k: Bytes, deserialize: Bytes -> Result<T>) returns (r: Result<Option<T>>)
      ensures r == GetOf(file, k, deserialize)
    {
      var serialized := GetRaw(k);
      if serialized.Failure? {
        return Failure(serialized.error);
      }
      if serialized.value.None? {
        return Success(None);
      }
      var value := deserialize(serialized.value.value);
      if value.Failure? {
        return Failure(value.error);
      }
      return Success(Some(value.value));
    }

    /** put<Type>: the value serialized, then put_raw. */
    method Put<T>(k: Bytes, value: T, serialize: T -> Bytes) returns (ok: bool)
      modifies this
      ensures (ok, State()) == PutRawOf(old(State()), k, serialize(value))
    {
      var serialized := serialize(value);
      ok := PutRaw(k, serialized);
    }
  }

  // ---------------------------------------------------------------------------
  // Lemmas for the methods

  /** One step of locate_entry's scan, by what reading the locator at `p` gives. */
  lemma LocateUnfold(f: Bytes, p: nat, k: Bytes, l: Option<Bytes>, q: nat)
    requires PrefixAt(f, p) && l == ReadAt(f, p + PREFIX_SIZE, LocatorSizeAt(f, p))
    requires q == p + SpanAt(f, p)
    ensures l.None? ==> LocateFrom(f, p, k) == None
    ensures l.Some? && l.value == k ==> LocateFrom(f, p, k) == Some(p)
    ensures l.Some? && l.value != k ==> LocateFrom(f, p, k) == LocateFrom(f, q, k)
  {
    var ls := LocatorSizeAt(f, p);
    if ls == 0 && p + PREFIX_SIZE <= |f| {
      assert f[p + PREFIX_SIZE..p + PREFIX_SIZE] == [];
    }
  }

  /** Four writes back to back are one write of all four. */
  lemma OverwriteFour(f: Bytes, p: nat, p1: nat, p2: nat, p3: nat, a: Bytes, b: Bytes, c: Bytes, d: Bytes)
    requires p1 == p + |a| && p2 == p1 + |b| && p3 == p2 + |c|
    ensures Overwrite(Overwrite(Overwrite(Overwrite(f, p, a), p1, b), p2, c), p3, d) == Overwrite(f, p, a + b + c + d)
  {
    OverwriteJoin(f, p, a, b);
    OverwriteJoin(f, p, a + b, c);
    OverwriteJoin(f, p, a + b + c, d);
  }

  /** Two writes back to back are one write of both. */
  lemma OverwriteJoin(f: Bytes, p: nat, a: Bytes, b: Bytes)
    ensures Overwrite(Overwrite(f, p, a), p + |a|, b) == Overwrite(f, p, a + b)
  {
    var g := Overwrite(f, p, a);
    var x, y := Overwrite(g, p + |a|, b), Overwrite(f, p, a + b);
    OverwriteBytes(f, p, a);
    OverwriteBytes(g, p + |a|, b);
    OverwriteBytes(f, p, a + b);
    assert |x| == |y|;
    forall i | 0 <= i < |x|
      ensures x[i] == y[i]
    {
      if p + |a| <= i < p + |a| + |b| {
      } else if p <= i < p + |a| {
        assert x[i] == g[i];
      }
    }
  }

  /** The state of the file during del's move loop, started for the entry at `loc`
      followed by the entry at `next`, with write cursor `w` and read cursor `r`: the
      entries from `next` to `r` have been moved to `loc`, and the bytes from `w` on
      are untouched. */
  ghost predicate Moved(f: Bytes, g: Bytes, loc: nat, next: nat, w: nat, r: nat)
  {
    && |g| == |f| && loc <= next <= r && w == loc + (r - next)
    && (r > |f| ==> g == f && r == next)
    && (r <= |f| ==> g[..w] == f[..loc] + f[next..r] && g[w..] == f[w..])
  }

  /** del reads at or past its write cursor, where the file still holds its old bytes. */
  lemma ReadsUnmoved(f: Bytes, g: Bytes, loc: nat, next: nat, w: nat, r: nat, n: nat)
    requires Moved(f, g, loc, next, w, r)
    ensures ReadAt(g, r, n) == ReadAt(f, r, n)
    ensures NextEntryPos(g, r) == NextEntryPos(f, r)
  {
    if r <= |f| {
      SuffixOfSuffix(g, f, w, r);
      if r + PREFIX_SIZE <= |f| {
        SameBytesAt(g, f, r, PREFIX_SIZE);
      }
      if r + n <= |f| {
        SameBytesAt(g, f, r, n);
      }
    }
  }

  lemma SameBytesAt(g: Bytes, f: Bytes, r: nat, n: nat)
    requires r + n <= |g| == |f| && g[r..] == f[r..]
    ensures g[r..r + n] == f[r..r + n]
    ensures forall i :: r <= i < r + n ==> g[i] == f[i]
  {
    assert g[r..r + n] == g[r..][..n];
    assert f[r..r + n] == f[r..][..n];
    assert forall i :: r <= i < r + n ==> g[i] == g[r..][i - r] && f[i] == f[r..][i - r];
  }

  /** One move of del's loop: the entry at `r` lands at the write cursor. */
  lemma MoveStep(f: Bytes, g: Bytes, loc: nat, next: nat, w: nat, r: nat, e: nat, b: Bytes)
    requires Moved(f, g, loc, next, w, r) && r < e <= |f| && b == f[r..e]
    ensures Moved(f, Overwrite(g, w, b), loc, next, w + (e - r), e)
  {
    var w' := w + (e - r);
    OverwriteInside(g, w, b);
    var x := g[..w];
    SliceOfJoin(x, b, g[w'..]);
    JoinAt(f, next, r, e);
    SuffixOfSuffix(g, f, w, w');
  }

  lemma SliceOfJoin(x: Bytes, y: Bytes, z: Bytes)
    ensures (x + y + z)[..|x| + |y|] == x + y && (x + y + z)[|x| + |y|..] == z
  {
  }

  lemma SuffixOfSuffix(g: Bytes, f: Bytes, w: nat, w': nat)
    requires w <= w' <= |g| == |f| && g[w..] == f[w..]
    ensures g[w'..] == f[w'..]
  {
    assert g[w'..] == g[w..][w' - w..];
    assert f[w'..] == f[w..][w' - w..];
  }

  /** An aborted move leaves the store DelOf's Aborted case describes. */
  lemma DelAborted(f: Bytes, n: int, k: Bytes, loc: nat, g: Bytes)
    requires LocateFrom(f, HEADER_SIZE, k) == Some(loc) && Compact(f, loc) == Aborted(g)
    ensures DelOf(Store(f, n), k) == (false, Store(g, n))
  {
  }

  lemma AbortedState(f: Bytes, loc: nat, next: nat, w: nat, r: nat, g: Bytes)
    requires PrefixAt(f, loc) && next == loc + SpanAt(f, loc)
    requires Moved(f, g, loc, next, w, r) && ChainEnd(f, next) == ChainEnd(f, r)
    requires NextEntryPos(f, r).Some? && ReadAt(f, r, NextEntryPos(f, r).value - r).None?
    ensures Compact(f, loc) == Aborted(g)
  {
    ChainAborts(f, r);
    CompactAborts(f, loc, next, r);
    AbortedBytes(f, g, loc, next, w, r);
  }

  lemma CompactAborts(f: Bytes, loc: nat, next: nat, r: nat)
    requires PrefixAt(f, loc) && next == loc + SpanAt(f, loc) && next <= r <= |f|
    requires ChainEnd(f, next) == (false, r)
    ensures Compact(f, loc) == Aborted(f[..loc] + f[next..r] + f[loc + (r - next)..])
  {
  }

  lemma AbortedBytes(f: Bytes, g: Bytes, loc: nat, next: nat, w: nat, r: nat)
    requires loc <= next <= r <= |f| == |g| && w == loc + (r - next)
    requires g[..w] == f[..loc] + f[next..r] && g[w..] == f[w..]
    ensures g == f[..loc] + f[next..r] + f[w..]
  {
    assert g == g[..w] + g[w..];
  }

  /** del's loop stops at an entry whose bytes cannot be read. */
  lemma ChainAborts(f: Bytes, r: nat)
    requires NextEntryPos(f, r).Some? && ReadAt(f, r, NextEntryPos(f, r).value - r).None?
    ensures r + PREFIX_SIZE <= |f| && ChainEnd(f, r) == (false, r)
  {
  }

  /** A move loop that ran to its end leaves, once the file is cut at the write cursor
      and the counter written, the store DelOf's Compacted case describes. */
  lemma DelCompacted(f: Bytes, n: int, k: Bytes, loc: nat, w: nat, g: Bytes)
    requires LocateFrom(f, HEADER_SIZE, k) == Some(loc)
    requires w <= |g| && Compact(f, loc) == Compacted(g[..w])
    ensures DelOf(Store(f, n), k) == (true, Store(WithHeader(Resize(g, w), n - 1), n - 1))
  {
  }

  lemma CompactedState(f: Bytes, loc: nat, next: nat, w: nat, r: nat, g: Bytes)
    requires PrefixAt(f, loc) && next == loc + SpanAt(f, loc)
    requires Moved(f, g, loc, next, w, r) && ChainEnd(f, next) == ChainEnd(f, r)
    requires NextEntryPos(f, r).None?
    ensures w <= |g| && Compact(f, loc) == Compacted(g[..w])
  {
    assert ChainEnd(f, r) == (true, r);
  }

  /** put<T> then get<T> under the same locator gives the value back, for any pair of
      serializer and deserializer that round-trip. */
  lemma TypedRoundTrip<T>(s: Store, es: seq<StorageEntry>, k: Bytes, x: T,
                          serialize: T -> Bytes, deserialize: Bytes -> Result<T>)
    requires Parse(s.file) == Some(es) && DistinctLocators(es)
    requires Fits(StorageEntry(k, serialize(x))) && deserialize(serialize(x)) == Success(x)
    ensures PutRawOf(s, k, serialize(x)).0
    ensures GetOf(PutRawOf(s, k, serialize(x)).1.file, k, deserialize) == Success(Some(x))
  {
    PutRoundTrip(s, es, k, serialize(x));
  }

  /** The same for a fixed-size value of `size` bytes. */
  lemma FixedValueRoundTrip(s: Store, es: seq<StorageEntry>, k: Bytes, x: Bytes, size: nat)
    requires Parse(s.file) == Some(es) && DistinctLocators(es)
    requires |x| == size && Fits(StorageEntry(k, x))
    ensures GetOf(PutRawOf(s, k, SerializeValue(x, size)).1.file, k, b => DeserializeValue(b, size)) == Success(Some(x))
  {
    ValueRoundTrip(x, size);
    PutRoundTrip(s, es, k, SerializeValue(x, size));
  }
}
