/** The on-disk format of an Archivist file and the byte-level behaviour of the
    stream operations the store performs on it.

    A file is a 4-byte entry counter followed by packed entries, each laid out as
    `u16 locator_size | u32 data_size | locator bytes | data bytes` with no padding;
    integers are little-endian. */
module StorageFormat {
  import opened Wrappers
  import opened Bytes

  const HEADER_SIZE: nat := 4
  /** The two length fields in front of every entry. */
  const PREFIX_SIZE: nat := 6

  /** Archivist::Storage_entry: a locator and the data stored under it. */
  datatype StorageEntry = StorageEntry(locator: Bytes, data: Bytes)

  /** The lengths fit in the 16-bit and 32-bit length fields. */
  predicate Fits(e: StorageEntry)
  {
    |e.locator| < TWO_16 && |e.data| < TWO_32
  }

  predicate AllFit(es: seq<StorageEntry>)
  {
    forall i :: 0 <= i < |es| ==> Fits(es[i])
  }

  /** What reading an entry back yields after write_entry_at wrote it: the lengths are
      cast to the field widths and only that many locator and data bytes are written. */
  function Stored(e: StorageEntry): (r: StorageEntry)
    ensures Fits(r)
    ensures Fits(e) ==> r == e
    ensures r.locator <= e.locator && r.data <= e.data
  {
    StorageEntry(e.locator[..|e.locator| % TWO_16], e.data[..|e.data| % TWO_32])
  }

  /** The bytes write_entry_at writes for an entry. */
  function EncodeEntry(e: StorageEntry): Bytes
  {
    var locatorSize := |e.locator| % TWO_16;
    var dataSize := |e.data| % TWO_32;
    Encode(locatorSize, 2) + Encode(dataSize, 4) + e.locator[..locatorSize] + e.data[..dataSize]
  }

  /** The packed encoding of a list of entries. */
  function EncodeAll(es: seq<StorageEntry>): Bytes
  {
    if es == [] then [] else EncodeEntry(es[0]) + EncodeAll(es[1..])
  }

  /** The size of an entry that fits its length fields, once encoded. */
  function EntrySize(e: StorageEntry): nat
  {
    PREFIX_SIZE + |e.locator| + |e.data|
  }

  /** The offset of entry `i` relative to the first entry (`i == |es|` is the end). */
  function PosOf(es: seq<StorageEntry>, i: nat): nat
    requires i <= |es|
  {
    if i == 0 then 0 else EntrySize(es[0]) + PosOf(es[1..], i - 1)
  }

  /** The offset of entry `i` in a file holding `es` after its header. */
  function Offset(es: seq<StorageEntry>, i: nat): nat
    requires i <= |es|
  {
    HEADER_SIZE + PosOf(es, i)
  }

  // ---------------------------------------------------------------------------
  // Stream primitives, as a std::fstream behaves on a file holding `f`

  /** istream::read of `n` bytes at `p`: fails when fewer than `n` bytes remain, while a
      read of zero bytes succeeds wherever the cursor is (seeking past the end of a file
      stream does not fail). */
  function ReadAt(f: Bytes, p: nat, n: nat): (r: Option<Bytes>)
    ensures r.Some? <==> (n == 0 || p + n <= |f|)
    ensures r.Some? ==> |r.value| == n
  {
    if n == 0 then Some([]) else if p + n <= |f| then Some(f[p..p + n]) else None
  }

  /** ostream::write of `b` at `p`: overwrites what is there, extends the file when the
      write reaches past its end, and fills a gap between the old end and `p` with zeros. */
  function Overwrite(f: Bytes, p: nat, b: Bytes): (r: Bytes)
    ensures |r| == if p + |b| > |f| then p + |b| else |f|
  {
    var padded := if p <= |f| then f else f + seq(p - |f|, _ => 0);
    padded[..p] + b + (if p + |b| <= |padded| then padded[p + |b|..] else [])
  }

  /** Each byte after a write: the written byte inside the written range, the old byte
      elsewhere in the old file, and zero in a gap the write opened past the old end. */
  lemma OverwriteBytes(f: Bytes, p: nat, b: Bytes)
    ensures forall i :: 0 <= i < |Overwrite(f, p, b)| ==>
      Overwrite(f, p, b)[i] == (if p <= i < p + |b| then b[i - p] else if i < |f| then f[i] else 0)
  {
  }

  /** A write that ends inside the file replaces just the bytes it covers. */
  lemma OverwriteInside(f: Bytes, p: nat, b: Bytes)
    requires p + |b| <= |f|
    ensures Overwrite(f, p, b) == f[..p] + b + f[p + |b|..]
  {
  }

  /** A write at the end of the file appends. */
  lemma OverwriteAtEnd(f: Bytes, b: Bytes)
    ensures Overwrite(f, |f|, b) == f + b
  {
  }

  /** The file with its entry counter set to `n`. */
  function WithHeader(f: Bytes, n: int): Bytes
  {
    Overwrite(f, 0, Int32Bytes(n))
  }

  /** Both length fields of an entry starting at `p` can be read. */
  predicate PrefixAt(f: Bytes, p: nat)
  {
    p + PREFIX_SIZE <= |f|
  }

  /** The u16 locator_size field at `p`. */
  function LocatorSizeAt(f: Bytes, p: nat): (r: nat)
    requires PrefixAt(f, p)
    ensures r < TWO_16
  {
    f[p] as nat + 0x100 * f[p + 1] as nat
  }

  /** The u32 data_size field at `p + 2`. */
  function DataSizeAt(f: Bytes, p: nat): (r: nat)
    requires PrefixAt(f, p)
    ensures r < TWO_32
  {
    f[p + 2] as nat + 0x100 * f[p + 3] as nat + 0x1_0000 * f[p + 4] as nat + 0x100_0000 * f[p + 5] as nat
  }

  /** The size the length fields at `p` give the entry. */
  function SpanAt(f: Bytes, p: nat): nat
    requires PrefixAt(f, p)
  {
    PREFIX_SIZE + LocatorSizeAt(f, p) + DataSizeAt(f, p)
  }

  // ---------------------------------------------------------------------------
  // The scans, on arbitrary file contents

  /** next_entry(p): the position after the entry whose length fields are at `p`. Only
      reading the length fields can fail; the position may lie past the end of the file. */
  function NextEntryPos(f: Bytes, p: nat): Option<nat>
  {
    if PrefixAt(f, p) then Some(p + SpanAt(f, p)) else None
  }

  /** locate_entry's scan from `p`: the start of the first entry whose locator is `k`. */
  function LocateFrom(f: Bytes, p: nat, k: Bytes): (r: Option<nat>)
    ensures r.Some? ==> p <= r.value && PrefixAt(f, r.value)
    decreases |f| - p
  {
    if !PrefixAt(f, p) then None
    else
      var locatorSize := LocatorSizeAt(f, p);
      if p + PREFIX_SIZE + locatorSize > |f| then None
      else if f[p + PREFIX_SIZE..p + PREFIX_SIZE + locatorSize] == k then Some(p)
      else LocateFrom(f, p + SpanAt(f, p), k)
  }

  /** read_entry_at(p): the data of the entry starting at `p` (not at its data). */
  function DataAt(f: Bytes, p: nat): Option<Bytes>
  {
    if !PrefixAt(f, p) then None
    else ReadAt(f, p + PREFIX_SIZE + LocatorSizeAt(f, p), DataSizeAt(f, p))
  }

  /** `n` successive next_entry steps from `p`. */
  function StepsFrom(f: Bytes, p: nat, n: nat): Option<nat>
    decreases n
  {
    if n == 0 then Some(p)
    else match NextEntryPos(f, p)
      case None => None
      case Some(q) => StepsFrom(f, q, n - 1)
  }

  /** locate_idx(index) with the counter holding `count`. */
  function IndexPos(f: Bytes, count: int, index: int): Option<nat>
  {
    if index >= count then None else StepsFrom(f, HEADER_SIZE, if index < 0 then 0 else index)
  }

  /** del's compaction loop (source lines 267-286) started with read cursor `r`: whether
      it ran until next_entry found no further entry, and the read cursor where it stopped.
      It stops early when a moved entry reaches past the end of the file. */
  function ChainEnd(f: Bytes, r: nat): (res: (bool, nat))
    ensures res.1 >= r
    ensures r <= |f| ==> res.1 <= |f|
    decreases |f| - r
  {
    match NextEntryPos(f, r)
    case None => (true, r)
    case Some(e) => if e <= |f| then ChainEnd(f, e) else (false, r)
  }

  /** del's loop stops where no further length fields can be read, or at an entry that
      reaches past the end of the file. */
  lemma {:induction false} ChainEndSpec(f: Bytes, r: nat)
    ensures ChainEnd(f, r).0 ==> !PrefixAt(f, ChainEnd(f, r).1)
    ensures !ChainEnd(f, r).0 ==> PrefixAt(f, ChainEnd(f, r).1) && ChainEnd(f, r).1 + SpanAt(f, ChainEnd(f, r).1) > |f|
    decreases |f| - r
  {
    if PrefixAt(f, r) && r + SpanAt(f, r) <= |f| {
      ChainEndSpec(f, r + SpanAt(f, r));
    }
  }

  datatype Compaction = Compacted(file: Bytes) | Aborted(file: Bytes)

  /** The file after del's move loop and truncation, for the entry at `loc`
      (before the counter is rewritten). An abort leaves the entries moved so far
      in place and the rest of the file as it was. */
  function Compact(f: Bytes, loc: nat): Compaction
    requires PrefixAt(f, loc)
  {
    var next := loc + SpanAt(f, loc);
    if next > |f| then Compacted(f[..loc])
    else
      var chain := ChainEnd(f, next);
      if chain.0 then Compacted(f[..loc] + f[next..chain.1])
      else Aborted(f[..loc] + f[next..chain.1] + f[loc + (chain.1 - next)..])
  }

  // ---------------------------------------------------------------------------
  // The file as a list of entries

  function EntryAt(f: Bytes, p: nat): StorageEntry
    requires PrefixAt(f, p) && p + SpanAt(f, p) <= |f|
  {
    var l := p + PREFIX_SIZE + LocatorSizeAt(f, p);
    StorageEntry(f[p + PREFIX_SIZE..l], f[l..p + SpanAt(f, p)])
  }

  /** The entries from offset `p` to the end of the file, or None when the bytes there
      are not a sequence of complete entries. */
  function ParseFrom(f: Bytes, p: nat): Option<seq<StorageEntry>>
    decreases |f| - p
  {
    if p == |f| then Some([])
    else if PrefixAt(f, p) && p + SpanAt(f, p) <= |f| then
      match ParseFrom(f, p + SpanAt(f, p))
      case None => None
      case Some(rest) => Some([EntryAt(f, p)] + rest)
    else None
  }

  /** The entries of a file, read after its 4-byte header. */
  function Parse(f: Bytes): Option<seq<StorageEntry>>
  {
    if |f| < HEADER_SIZE then None else ParseFrom(f, HEADER_SIZE)
  }

  /** The index of the first entry whose locator is `k`. */
  function FirstMatch(es: seq<StorageEntry>, k: Bytes): (r: Option<nat>)
    ensures r.Some? ==> r.value < |es|
  {
    if es == [] then None
    else if es[0].locator == k then Some(0)
    else match FirstMatch(es[1..], k)
      case None => None
      case Some(i) => Some(i + 1)
  }

  /** FirstMatch finds the first entry with locator `k`, and finds nothing only when no
      entry has it. */
  lemma {:induction false} FirstMatchSpec(es: seq<StorageEntry>, k: Bytes)
    ensures FirstMatch(es, k).Some? ==> var i := FirstMatch(es, k).value;
      es[i].locator == k && forall j :: 0 <= j < i ==> es[j].locator != k
    ensures FirstMatch(es, k).None? <==> forall j :: 0 <= j < |es| ==> es[j].locator != k
  {
    if es != [] && es[0].locator != k {
      FirstMatchSpec(es[1..], k);
      assert forall j :: 1 <= j < |es| ==> es[j] == es[1..][j - 1];
    }
  }

  /** The data of the first entry with locator `k`: what a lookup in the store returns. */
  function Lookup(es: seq<StorageEntry>, k: Bytes): Option<Bytes>
  {
    match FirstMatch(es, k)
    case None => None
    case Some(i) => Some(es[i].data)
  }

  /** The list without its entry `i`. */
  function RemoveAt(es: seq<StorageEntry>, i: nat): seq<StorageEntry>
    requires i < |es|
  {
    es[..i] + es[i + 1..]
  }

  // ---------------------------------------------------------------------------
  // Lemmas: the encoding and the scans agree

  lemma {:induction false} EncodeAllAppend(a: seq<StorageEntry>, b: seq<StorageEntry>)
    ensures EncodeAll(a + b) == EncodeAll(a) + EncodeAll(b)
  {
    if a == [] {
      assert a + b == b;
    } else {
      assert (a + b)[0] == a[0];
      assert (a + b)[1..] == a[1..] + b;
      EncodeAllAppend(a[1..], b);
    }
  }

  lemma EncodeAllSplit(es: seq<StorageEntry>, i: nat)
    requires i <= |es|
    ensures EncodeAll(es) == EncodeAll(es[..i]) + EncodeAll(es[i..])
  {
    assert es == es[..i] + es[i..];
    EncodeAllAppend(es[..i], es[i..]);
  }

  lemma EncodeEntrySize(e: StorageEntry)
    requires Fits(e)
    ensures |EncodeEntry(e)| == EntrySize(e)
  {
  }

  /** The relative offset of entry `i` is the size of the encoding of the entries before it. */
  lemma {:induction false} PosOfPrefix(es: seq<StorageEntry>, i: nat)
    requires AllFit(es) && i <= |es|
    ensures PosOf(es, i) == |EncodeAll(es[..i])|
  {
    if i == 0 {
      assert es[..0] == [];
    } else {
      PosOfPrefix(es[1..], i - 1);
      assert es[..i][0] == es[0];
      assert es[..i][1..] == es[1..][..i - 1];
      EncodeEntrySize(es[0]);
    }
  }

  /** The next entry starts where entry `i` ends. */
  lemma {:induction false} PosOfNext(es: seq<StorageEntry>, i: nat)
    requires i < |es|
    ensures PosOf(es, i + 1) == PosOf(es, i) + EntrySize(es[i])
  {
    if i > 0 {
      PosOfNext(es[1..], i - 1);
    }
  }

  /** Offsets seen from the second entry on are shifted by the first entry's size. */
  lemma PosOfStep(es: seq<StorageEntry>, i: nat, p: nat, q: nat)
    requires 0 < i <= |es| && q == p + EntrySize(es[0])
    ensures p + PosOf(es, i) == q + PosOf(es[1..], i - 1)
  {
  }

  /** Past the last entry is the end of the encoding. */
  lemma PosOfEnd(es: seq<StorageEntry>)
    requires AllFit(es)
    ensures PosOf(es, |es|) == |EncodeAll(es)|
  {
    PosOfPrefix(es, |es|);
    assert es[..|es|] == es;
  }

  /** A slice holding `a + b` holds `a` and then `b`. */
  lemma SplitSlice(f: Bytes, i: nat, j: nat, a: Bytes, b: Bytes)
    requires i <= j <= |f| && f[i..j] == a + b
    ensures i + |a| <= j && f[i..i + |a|] == a && f[i + |a|..j] == b
  {
    assert f[i..i + |a|] == f[i..j][..|a|];
    assert f[i + |a|..j] == f[i..j][|a|..];
  }

  /** Length fields written for sizes `ls` and `ds` read back as those sizes. */
  lemma LengthFields(f: Bytes, p: nat, ls: nat, ds: nat)
    requires ls < TWO_16 && ds < TWO_32 && p + PREFIX_SIZE <= |f|
    requires f[p..p + 2] == Encode(ls, 2) && f[p + 2..p + PREFIX_SIZE] == Encode(ds, 4)
    ensures LocatorSizeAt(f, p) == ls && DataSizeAt(f, p) == ds
  {
    var e2, e4 := Encode(ls, 2), Encode(ds, 4);
    assert f[p] == e2[0] && f[p + 1] == e2[1];
    assert f[p + 2] == e4[0] && f[p + 3] == e4[1] && f[p + 4] == e4[2] && f[p + 5] == e4[3];
    Field16(ls);
    Field32(ds);
  }

  lemma Field16(v: nat)
    requires v < TWO_16
    ensures Encode(v, 2)[0] as nat + 0x100 * Encode(v, 2)[1] as nat == v
  {
    assert Pow256(2) == TWO_16;
    DecodeEncode(v, 2);
    Decode2(Encode(v, 2));
  }

  lemma Field32(v: nat)
    requires v < TWO_32
    ensures Encode(v, 4)[0] as nat + 0x100 * Encode(v, 4)[1] as nat
      + 0x1_0000 * Encode(v, 4)[2] as nat + 0x100_0000 * Encode(v, 4)[3] as nat == v
  {
    assert Pow256(4) == TWO_32;
    DecodeEncode(v, 4);
    Decode4(Encode(v, 4));
  }

  /** Where an entry's encoding sits in the file, it is read back at that position. */
  lemma EntryBytes(f: Bytes, p: nat, e: StorageEntry)
    requires Fits(e) && p + EntrySize(e) <= |f| && f[p..p + EntrySize(e)] == EncodeEntry(e)
    ensures PrefixAt(f, p) && SpanAt(f, p) == EntrySize(e) && EntryAt(f, p) == e
  {
    var ls, ds := |e.locator|, |e.data|;
    EncodeSized(e, ls, ds);
    Split4(f, p, Encode(ls, 2), Encode(ds, 4), e.locator, e.data);
    LengthFields(f, p, ls, ds);
  }

  /** A slice holding `a + b + c + d` holds each of them in turn. */
  lemma Split4(f: Bytes, p: nat, a: Bytes, b: Bytes, c: Bytes, d: Bytes)
    requires p + |a| + |b| + |c| + |d| <= |f| && f[p..p + |a| + |b| + |c| + |d|] == a + b + c + d
    ensures f[p..p + |a|] == a && f[p + |a|..p + |a| + |b|] == b
    ensures f[p + |a| + |b|..p + |a| + |b| + |c|] == c
    ensures f[p + |a| + |b| + |c|..p + |a| + |b| + |c| + |d|] == d
  {
    var n := p + |a| + |b| + |c| + |d|;
    SplitSlice(f, p, n, a + b + c, d);
    SplitSlice(f, p, n - |d|, a + b, c);
    SplitSlice(f, p, p + |a| + |b|, a, b);
  }

  /** Where an encoded list sits in the file from `p` on, its first entry is read at `p`
      and the rest of the list follows it. */
  lemma SuffixEntry(f: Bytes, p: nat, es: seq<StorageEntry>)
    requires es != [] && Fits(es[0]) && p <= |f| && f[p..] == EncodeAll(es)
    ensures PrefixAt(f, p) && SpanAt(f, p) == EntrySize(es[0]) && p + SpanAt(f, p) <= |f|
    ensures EntryAt(f, p) == es[0]
    ensures f[p + SpanAt(f, p)..] == EncodeAll(es[1..])
  {
    var e, rest := EncodeEntry(es[0]), EncodeAll(es[1..]);
    EncodeEntrySize(es[0]);
    assert f[p..|f|] == e + rest;
    SplitSlice(f, p, |f|, e, rest);
    EntryBytes(f, p, es[0]);
    assert f[p + |e|..|f|] == f[p + |e|..];
  }

  // One step of each scan, at an entry whose length fields can be read

  lemma ParseStep(f: Bytes, p: nat, q: nat, rest: seq<StorageEntry>)
    requires PrefixAt(f, p) && q == p + SpanAt(f, p) <= |f|
    requires ParseFrom(f, q) == Some(rest)
    ensures ParseFrom(f, p) == Some([EntryAt(f, p)] + rest)
  {
  }

  lemma LocateStep(f: Bytes, p: nat, q: nat, k: Bytes, l: Bytes)
    requires PrefixAt(f, p) && q == p + SpanAt(f, p) <= |f| && l == EntryAt(f, p).locator
    ensures LocateFrom(f, p, k) == if l == k then Some(p) else LocateFrom(f, q, k)
  {
  }

  lemma StepsStep(f: Bytes, p: nat, q: nat, i: nat)
    requires PrefixAt(f, p) && q == p + SpanAt(f, p) && i > 0
    ensures StepsFrom(f, p, i) == StepsFrom(f, q, i - 1)
  {
  }

  lemma ChainStep(f: Bytes, p: nat, q: nat)
    requires PrefixAt(f, p) && q == p + SpanAt(f, p) <= |f|
    ensures ChainEnd(f, p) == ChainEnd(f, q)
  {
  }

  // ---------------------------------------------------------------------------
  // Parsing and encoding are inverse

  /** Parsing an encoded list of entries gives that list back. */
  lemma {:induction false} ParseEncoded(f: Bytes, p: nat, es: seq<StorageEntry>)
    requires AllFit(es) && p <= |f| && f[p..] == EncodeAll(es)
    ensures ParseFrom(f, p) == Some(es)
    decreases |es|
  {
    if es == [] {
      assert |f[p..]| == 0;
    } else {
      SuffixEntry(f, p, es);
      var q := p + SpanAt(f, p);
      ParseEncoded(f, q, es[1..]);
      ParseStep(f, p, q, es[1..]);
      assert es == [es[0]] + es[1..];
    }
  }

  /** The length fields of any entry the parser accepts re-encode to the bytes read. */
  lemma ReencodeEntryAt(f: Bytes, p: nat)
    requires PrefixAt(f, p) && p + SpanAt(f, p) <= |f|
    ensures Fits(EntryAt(f, p))
    ensures f[p..p + SpanAt(f, p)] == EncodeEntry(EntryAt(f, p))
  {
    var ls, ds := LocatorSizeAt(f, p), DataSizeAt(f, p);
    var n := PREFIX_SIZE + ls + ds;
    var e := EntryAt(f, p);
    ReencodeFields(f, p);
    Join4(f, p, 2, PREFIX_SIZE, PREFIX_SIZE + ls, n);
    EncodeSized(e, ls, ds);
  }

  /** The encoding of an entry that fits: its two lengths, its locator, its data. */
  lemma EncodeSized(e: StorageEntry, ls: nat, ds: nat)
    requires |e.locator| == ls < TWO_16 && |e.data| == ds < TWO_32
    ensures Fits(e)
    ensures EncodeEntry(e) == Encode(ls, 2) + Encode(ds, 4) + e.locator + e.data
  {
    assert ls % TWO_16 == ls && ds % TWO_32 == ds;
    assert e.locator[..ls] == e.locator && e.data[..ds] == e.data;
  }

  /** The length fields at `p` are the encodings of the sizes they hold. */
  lemma ReencodeFields(f: Bytes, p: nat)
    requires PrefixAt(f, p)
    ensures f[p..p + 2] == Encode(LocatorSizeAt(f, p), 2)
    ensures f[p + 2..p + PREFIX_SIZE] == Encode(DataSizeAt(f, p), 4)
  {
    EncodeDecode(f[p..p + 2]);
    EncodeDecode(f[p + 2..p + 6]);
    Decode2(f[p..p + 2]);
    Decode4(f[p + 2..p + 6]);
  }

  /** A slice is the concatenation of four consecutive slices. */
  lemma Join4(f: Bytes, p: nat, i: nat, j: nat, k: nat, n: nat)
    requires i <= j <= k <= n && p + n <= |f|
    ensures f[p..p + n] == f[p..p + i] + f[p + i..p + j] + f[p + j..p + k] + f[p + k..p + n]
  {
    JoinAt(f, p, p + k, p + n);
    JoinAt(f, p, p + j, p + k);
    JoinAt(f, p, p + i, p + j);
  }

  lemma JoinAt(f: Bytes, a: nat, b: nat, c: nat)
    requires a <= b <= c <= |f|
    ensures f[a..c] == f[a..b] + f[b..c]
  {
  }

  lemma ConsFacts(e: StorageEntry, rest: seq<StorageEntry>)
    ensures AllFit([e] + rest) <==> Fits(e) && AllFit(rest)
    ensures EncodeAll([e] + rest) == EncodeEntry(e) + EncodeAll(rest)
  {
    var es := [e] + rest;
    assert es[0] == e && es[1..] == rest;
    assert forall i :: 0 <= i < |rest| ==> rest[i] == es[i + 1];
    assert forall i :: 1 <= i < |es| ==> es[i] == rest[i - 1];
  }

  lemma JoinSlices(f: Bytes, p: nat, q: nat)
    requires p <= q <= |f|
    ensures f[p..] == f[p..q] + f[q..]
  {
  }

  /** Every list the parser returns is what the file after the offset encodes. */
  lemma {:induction false} ParseSound(f: Bytes, p: nat)
    requires ParseFrom(f, p).Some?
    ensures p <= |f| && AllFit(ParseFrom(f, p).value)
    ensures f[p..] == EncodeAll(ParseFrom(f, p).value)
    decreases |f| - p
  {
    if p != |f| {
      var q := p + SpanAt(f, p);
      ParseSound(f, q);
      ReencodeEntryAt(f, p);
      var e, rest := EntryAt(f, p), ParseFrom(f, q).value;
      assert ParseFrom(f, p).value == [e] + rest;
      ConsFacts(e, rest);
      JoinSlices(f, p, q);
    }
  }

  /** A file parses to `es` exactly when it is a header followed by the encoding of `es`. */
  lemma ParseIff(f: Bytes, es: seq<StorageEntry>)
    ensures Parse(f) == Some(es) <==> (|f| >= HEADER_SIZE && AllFit(es) && f == f[..HEADER_SIZE] + EncodeAll(es))
  {
    if Parse(f) == Some(es) {
      ParseSound(f, HEADER_SIZE);
      assert f == f[..HEADER_SIZE] + f[HEADER_SIZE..];
    }
    if |f| >= HEADER_SIZE && AllFit(es) && f == f[..HEADER_SIZE] + EncodeAll(es) {
      assert f[HEADER_SIZE..] == EncodeAll(es);
      ParseEncoded(f, HEADER_SIZE, es);
    }
  }

  // ---------------------------------------------------------------------------
  // The scans over entries the parser accepts

  /** The first entry the parser accepts at `p`, and the rest after it. */
  lemma ParseHead(f: Bytes, p: nat, es: seq<StorageEntry>)
    requires ParseFrom(f, p) == Some(es) && es != []
    ensures PrefixAt(f, p) && p + SpanAt(f, p) <= |f|
    ensures EntryAt(f, p) == es[0] && SpanAt(f, p) == EntrySize(es[0])
    ensures ParseFrom(f, p + SpanAt(f, p)) == Some(es[1..])
  {
    var l := p + PREFIX_SIZE + LocatorSizeAt(f, p);
    assert |f[p + PREFIX_SIZE..l]| == LocatorSizeAt(f, p);
  }

  /** The rest of the list is parsed after the first entry, whose size the length
      fields give. */
  lemma ParseTail(f: Bytes, p: nat, q: nat, es: seq<StorageEntry>)
    requires ParseFrom(f, p) == Some(es) && es != [] && q == p + EntrySize(es[0])
    ensures PrefixAt(f, p) && q == p + SpanAt(f, p) <= |f|
    ensures ParseFrom(f, q) == Some(es[1..])
  {
    ParseHead(f, p, es);
  }

  /** The first entry the parser accepts at `p` has the locator read there. */
  lemma ParseFirst(f: Bytes, p: nat, es: seq<StorageEntry>)
    requires ParseFrom(f, p) == Some(es) && es != []
    ensures PrefixAt(f, p) && p + SpanAt(f, p) <= |f|
    ensures EntryAt(f, p).locator == es[0].locator
  {
    ParseHead(f, p, es);
  }

  /** The entries from `i` on are parsed from the offset `r` of entry `i`. */
  lemma {:induction false} SuffixParsed(f: Bytes, p: nat, es: seq<StorageEntry>, i: nat, r: nat)
    requires ParseFrom(f, p) == Some(es) && i <= |es| && r == p + PosOf(es, i)
    ensures ParseFrom(f, r) == Some(es[i..])
    decreases i
  {
    if i == 0 {
      assert es[0..] == es;
    } else {
      var q := p + EntrySize(es[0]);
      ParseTail(f, p, q, es);
      PosOfStep(es, i, p, q);
      SuffixParsed(f, q, es[1..], i - 1, r);
      assert es[1..][i - 1..] == es[i..];
    }
  }

  /** locate_entry's scan over parsed entries finds the first entry with locator `k`... */
  lemma {:induction false} LocateFound(f: Bytes, p: nat, es: seq<StorageEntry>, k: Bytes, j: nat, r: nat)
    requires ParseFrom(f, p) == Some(es) && FirstMatch(es, k) == Some(j) && r == p + PosOf(es, j)
    ensures LocateFrom(f, p, k) == Some(r)
    decreases |es|
  {
    var q := p + EntrySize(es[0]);
    ParseTail(f, p, q, es);
    ParseFirst(f, p, es);
    LocateStep(f, p, q, k, es[0].locator);
    if es[0].locator != k {
      PosOfStep(es, j, p, q);
      LocateFound(f, q, es[1..], k, j - 1, r);
    }
  }

  /** ... and nothing when no entry has it. */
  lemma {:induction false} LocateMissing(f: Bytes, p: nat, es: seq<StorageEntry>, k: Bytes)
    requires ParseFrom(f, p) == Some(es) && FirstMatch(es, k) == None
    ensures LocateFrom(f, p, k) == None
    decreases |es|
  {
    if es == [] {
      assert p == |f|;
    } else {
      var q := p + EntrySize(es[0]);
      ParseTail(f, p, q, es);
      ParseFirst(f, p, es);
      LocateStep(f, p, q, k, es[0].locator);
      LocateMissing(f, q, es[1..], k);
    }
  }

  /** `i` next_entry steps from the first parsed entry reach entry `i`. */
  lemma {:induction false} StepsParsed(f: Bytes, p: nat, es: seq<StorageEntry>, i: nat)
    requires ParseFrom(f, p) == Some(es) && i <= |es|
    ensures StepsFrom(f, p, i) == Some(p + PosOf(es, i))
    decreases i
  {
    if i > 0 {
      var q := p + EntrySize(es[0]);
      ParseTail(f, p, q, es);
      StepsStep(f, p, q, i);
      PosOfStep(es, i, p, q);
      StepsParsed(f, q, es[1..], i - 1);
    }
  }

  /** del's loop over parsed entries runs to the end of the file. */
  lemma {:induction false} ChainParsed(f: Bytes, p: nat, es: seq<StorageEntry>)
    requires ParseFrom(f, p) == Some(es)
    ensures ChainEnd(f, p) == (true, |f|)
    decreases |es|
  {
    if es == [] {
      assert p == |f|;
    } else {
      var q := p + EntrySize(es[0]);
      ParseTail(f, p, q, es);
      ChainStep(f, p, q);
      ChainParsed(f, q, es[1..]);
    }
  }

  // ---------------------------------------------------------------------------
  // The same facts for a whole file that parses to `es`

  /** The entries from `i` on are parsed from the offset of entry `i`. */
  lemma SuffixInFile(f: Bytes, es: seq<StorageEntry>, i: nat)
    requires Parse(f) == Some(es) && i <= |es|
    ensures ParseFrom(f, Offset(es, i)) == Some(es[i..])
  {
    SuffixParsed(f, HEADER_SIZE, es, i, Offset(es, i));
  }

  /** Entry `i` of the file, read where it sits. */
  lemma EntryInFile(f: Bytes, es: seq<StorageEntry>, i: nat)
    requires Parse(f) == Some(es) && i < |es|
    ensures var p := Offset(es, i);
      PrefixAt(f, p) && LocatorSizeAt(f, p) == |es[i].locator| && DataSizeAt(f, p) == |es[i].data|
      && p + SpanAt(f, p) == Offset(es, i + 1) <= |f|
      && EntryAt(f, p) == es[i]
  {
    var p := Offset(es, i);
    SuffixInFile(f, es, i);
    ParseHead(f, p, es[i..]);
    PosOfNext(es, i);
    var l := p + PREFIX_SIZE + LocatorSizeAt(f, p);
    assert |f[p + PREFIX_SIZE..l]| == LocatorSizeAt(f, p);
  }

  /** locate_entry's scan over the file finds the offset of the first entry with locator `k`. */
  lemma LocateInFile(f: Bytes, es: seq<StorageEntry>, k: Bytes)
    requires Parse(f) == Some(es)
    ensures LocateFrom(f, HEADER_SIZE, k) == match FirstMatch(es, k)
      case None => None
      case Some(j) => Some(Offset(es, j))
  {
    match FirstMatch(es, k)
    case None => LocateMissing(f, HEADER_SIZE, es, k);
    case Some(j) => LocateFound(f, HEADER_SIZE, es, k, j, Offset(es, j));
  }

  /** `i` next_entry steps from the first entry reach entry `i`. */
  lemma StepsInFile(f: Bytes, es: seq<StorageEntry>, i: nat)
    requires Parse(f) == Some(es) && i <= |es|
    ensures StepsFrom(f, HEADER_SIZE, i) == Some(Offset(es, i))
  {
    StepsParsed(f, HEADER_SIZE, es, i);
  }

  /** next_entry from entry `i` gives the next entry's offset (the end of the file after
      the last one), and nothing at the end of the file. */
  lemma NextEntryInFile(f: Bytes, es: seq<StorageEntry>, i: nat)
    requires Parse(f) == Some(es) && i <= |es|
    ensures NextEntryPos(f, Offset(es, i)) == if i < |es| then Some(Offset(es, i + 1)) else None
  {
    if i < |es| {
      EntryInFile(f, es, i);
    } else {
      SuffixInFile(f, es, i);
      assert es[i..] == [];
    }
  }

  /** read_entry_at on entry `i` returns that entry's data. */
  lemma DataInFile(f: Bytes, es: seq<StorageEntry>, i: nat)
    requires Parse(f) == Some(es) && i < |es|
    ensures DataAt(f, Offset(es, i)) == Some(es[i].data)
  {
    EntryInFile(f, es, i);
  }

  /** Compacting entry `i` cuts exactly that entry's bytes out, and the file then holds
      the other entries in their order. */
  lemma CompactInFile(f: Bytes, es: seq<StorageEntry>, i: nat)
    requires Parse(f) == Some(es) && i < |es|
    ensures PrefixAt(f, Offset(es, i)) && Offset(es, i + 1) <= |f|
    ensures Compact(f, Offset(es, i)) == Compacted(f[..Offset(es, i)] + f[Offset(es, i + 1)..])
    ensures f[..Offset(es, i)] + f[Offset(es, i + 1)..] == f[..HEADER_SIZE] + EncodeAll(RemoveAt(es, i))
  {
    var loc, next := Offset(es, i), Offset(es, i + 1);
    EntryInFile(f, es, i);
    SuffixInFile(f, es, i + 1);
    ChainParsed(f, next, es[i + 1..]);
    CompactWhole(f, loc, next);
    JoinSlices(f, next, |f|);
    CutBytes(f, es, i);
  }

  /** When del's loop reaches the end of the file, compaction removes just the entry. */
  lemma CompactWhole(f: Bytes, loc: nat, next: nat)
    requires PrefixAt(f, loc) && next == loc + SpanAt(f, loc) <= |f| && ChainEnd(f, next) == (true, |f|)
    ensures Compact(f, loc) == Compacted(f[..loc] + f[next..|f|])
  {
  }

  /** The encoding of a list around its entry `i`. */
  lemma EncodeAround(es: seq<StorageEntry>, i: nat)
    requires AllFit(es) && i < |es|
    ensures EncodeAll(es) == EncodeAll(es[..i]) + (EncodeEntry(es[i]) + EncodeAll(es[i + 1..]))
    ensures Offset(es, i) == HEADER_SIZE + |EncodeAll(es[..i])|
    ensures Offset(es, i + 1) == Offset(es, i) + |EncodeEntry(es[i])|
    ensures EncodeAll(RemoveAt(es, i)) == EncodeAll(es[..i]) + EncodeAll(es[i + 1..])
  {
    EncodeAllSplit(es, i);
    assert es[i..][0] == es[i] && es[i..][1..] == es[i + 1..];
    PosOfPrefix(es, i);
    EncodeEntrySize(es[i]);
    PosOfNext(es, i);
    EncodeAllAppend(es[..i], es[i + 1..]);
  }

  /** The bytes around entry `i` encode the other entries. */
  lemma CutBytes(f: Bytes, es: seq<StorageEntry>, i: nat)
    requires Parse(f) == Some(es) && i < |es|
    ensures Offset(es, i) <= Offset(es, i + 1) <= |f|
    ensures f[..Offset(es, i)] + f[Offset(es, i + 1)..] == f[..HEADER_SIZE] + EncodeAll(RemoveAt(es, i))
  {
    ParseSound(f, HEADER_SIZE);
    EncodeAround(es, i);
    CutSlices(f, HEADER_SIZE, EncodeAll(es[..i]), EncodeEntry(es[i]), EncodeAll(es[i + 1..]),
      Offset(es, i), Offset(es, i + 1));
  }

  /** Cutting `e` out of bytes that hold `a + e + c` from `h` on leaves `a + c` there. */
  lemma CutSlices(f: Bytes, h: nat, a: Bytes, e: Bytes, c: Bytes, x: nat, y: nat)
    requires h <= |f| && f[h..] == a + (e + c)
    requires x == h + |a| && y == x + |e|
    ensures y <= |f|
    ensures f[..x] + f[y..] == f[..h] + (a + c)
  {
    assert f[h..|f|] == a + (e + c);
    SplitSlice(f, h, |f|, a, e + c);
    SplitSlice(f, h + |a|, |f|, e, c);
    assert f[..h + |a|] == f[..h] + a;
    assert f[h + |a| + |e|..] == c;
  }

  /** No locator of 65536 bytes or more is ever found: the 16-bit length field cannot
      describe it. */
  lemma {:induction false} LongLocatorNeverFound(f: Bytes, p: nat, k: Bytes)
    requires |k| >= TWO_16
    ensures LocateFrom(f, p, k) == None
    decreases |f| - p
  {
    if PrefixAt(f, p) {
      var locatorSize := LocatorSizeAt(f, p);
      if p + PREFIX_SIZE + locatorSize <= |f| {
        assert |f[p + PREFIX_SIZE..p + PREFIX_SIZE + locatorSize]| < TWO_16;
        LongLocatorNeverFound(f, p + SpanAt(f, p), k);
      }
    }
  }

  /** Every entry the scan finds has a readable length prefix, and seeking past the end
      of the file never fails, so next_entry always finds where it ends. */
  lemma LocatedEntryHasNext(f: Bytes, p: nat, k: Bytes, loc: nat)
    requires LocateFrom(f, p, k) == Some(loc)
    ensures NextEntryPos(f, loc) == Some(loc + SpanAt(f, loc))
  {
  }
}

module OffsetWrap {
  import opened Wrappers
  import opened Bytes
  import opened StorageFormat

  /** What one pass of locate_entry's loop does: the entry at the cursor matches, a read
      fails, or the scan goes on at the next cursor. */
  datatype ScanStep = Matched | Stopped | Continue(next: nat)

  /** One pass of locate_entry's loop as written, where the seek to the next entry adds the
      data size to the `unsigned` cursor and so wraps modulo 2^32. Up to that wrap it is
      the step the unbounded scan `LocateFrom` takes. */
  function LocateStepWrapped(f: Bytes, p: nat, k: Bytes): (r: ScanStep)
    ensures r == Matched <==> LocateFrom(f, p, k) == Some(p)
    ensures r == Stopped ==> LocateFrom(f, p, k) == None
    ensures r.Continue? ==> PrefixAt(f, p) && LocateFrom(f, p, k) == LocateFrom(f, p + SpanAt(f, p), k)
    ensures r.Continue? ==> (p + SpanAt(f, p) < TWO_32 ==> r.next == p + SpanAt(f, p))
  {
    if !PrefixAt(f, p) then Stopped
    else
      var locatorSize := LocatorSizeAt(f, p);
      if p + PREFIX_SIZE + locatorSize > |f| then Stopped
      else if f[p + PREFIX_SIZE..p + PREFIX_SIZE + locatorSize] == k then Matched
      else Continue((p + SpanAt(f, p)) % TWO_32)
  }

  /** A ten-byte store holding one entry at offset 4 with an empty locator and a declared
      data size of 2^32 - 6 bytes, of which none are present. */
  const WRAPPING_FILE: Bytes := [0, 0, 0, 0, 0, 0, 0xFA, 0xFF, 0xFF, 0xFF]

  /** On that file, locate_entry of any non-empty locator comes back to offset 4 after one
      pass, so its loop never ends; and next_entry(4), which returns its cursor cast to
      `unsigned`, returns 4 itself. */
  lemma LocateWrapsForever(k: Bytes)
    requires |k| > 0
    ensures LocateStepWrapped(WRAPPING_FILE, HEADER_SIZE, k) == Continue(HEADER_SIZE)
    ensures NextEntryPos(WRAPPING_FILE, HEADER_SIZE).Some?
    ensures NextEntryPos(WRAPPING_FILE, HEADER_SIZE).value % TWO_32 == HEADER_SIZE
  {
    var f := WRAPPING_FILE;
    assert f[4..6] == [0, 0];
    assert f[6..10] == [0xFA, 0xFF, 0xFF, 0xFF];
    assert LocatorSizeAt(f, HEADER_SIZE) == 0;
    assert DataSizeAt(f, HEADER_SIZE) == TWO_32 - 6;
    assert f[10..10] != k;
  }

  /** With unbounded offsets the scan ends: an entry whose declared span runs past the end
      of the file is either the match or the last entry looked at. */
  lemma LocateStopsPastEnd(f: Bytes, p: nat, k: Bytes)
    requires PrefixAt(f, p) && p + SpanAt(f, p) > |f|
    ensures LocateFrom(f, p, k) == None || LocateFrom(f, p, k) == Some(p)
  {
    if p + PREFIX_SIZE + LocatorSizeAt(f, p) <= |f|
      && f[p + PREFIX_SIZE..p + PREFIX_SIZE + LocatorSizeAt(f, p)] != k {
      assert !PrefixAt(f, p + SpanAt(f, p));
    }
  }

  /** So on the wrapping file the unbounded scan reports the locator absent. */
  lemma LocateEndsOnWrappingFile(k: Bytes)
    requires |k| > 0
    ensures LocateFrom(WRAPPING_FILE, HEADER_SIZE, k) == None
  {
    LocateWrapsForever(k);
    LocateStopsPastEnd(WRAPPING_FILE, HEADER_SIZE, k);
  }
}
