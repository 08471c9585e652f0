# schizotronic-misc core, modelled in Dafny

This project models the core of the `sztronics` miscellaneous library, a set of C++ utilities:

- **Archivist**: a key-value store kept in a single binary file. The file starts with a
  4-byte `n_entries` counter. Packed entries follow, each laid out as `u16 locator_size`,
  `u32 data_size`, the locator bytes, then the data bytes. The store can open a file, scan
  it (`next_entry`, `locate_idx`, `locate_entry`), read and write single entries, look up
  (`get_raw`), insert or overwrite (`put_raw`) and delete with backward compaction (`del`).
  It also has typed `get<T>` and `put<T>`.
- **Serialization**: byte marshalling of fixed-size values, strings, vectors of fixed-size
  values, and maps with fixed-size keys and values.
- **wrap_text**: word wrapping of a string to a line width.
- **The miscellaneous helpers**:
  - `find_idx`, `pop_val` and `pop_idx` on vectors;
  - the character classes `is_printable` and `is_wordch`;
  - the 2-D/1-D index mappings `to_1d` and `to_2d`.
- **Vector2i and Vector2<int>**: integer 2-D vectors with their operators, partial-order
  comparisons, `clamp`, and taxicab and chessboard lengths.
- **Unique**: ids allocated from a shared table of claimed ids. Allocation picks the smallest
  free id below 4096. Destroying a valid Unique releases its id, and a move invalidates the
  source.
- **Unique_map**: a map from uid to values that carry a Unique.
- **Focus**: at most one Focus object of a scope holds control.

## How it is modelled

**The Archivist file.**
- The file is `seq<byte>`.
- Two stream facts are modelled explicitly:
  - a read of `n` bytes at `p` succeeds iff `n == 0` or `p + n <= |file|`;
  - a write past the end zero-fills the gap, and writes never fail.
- Seeking past end-of-file does not fail. Therefore `next_entry` returns the end-of-file
  position after the last entry. The comment at Archivist.hpp:39 promises nothing at
  end-of-file; the model follows the code.
- The branch of `del` for deleting the last entry (source/Archivist.cpp:258-262) is never
  taken: the entry `locate_entry` finds always has a readable length prefix, so `next_entry`
  of it always succeeds (`StorageFormat.LocatedEntryHasNext`). A damaged last entry, whose
  lengths run past the end of the file, goes through the move loop instead. The loop then
  runs zero times and the file is cut at the entry's start.
- `n_entries` is meant to count the live entries, but the code lets it drift; see Findings.

**Specification, then class.**
- `StorageFormat` defines:
  - the entry codec;
  - `Parse`, the list of `(locator, data)` entries a file holds;
  - the scans as functions (`LocateFrom`, `NextEntryPos`, `StepsFrom`, `ChainEnd`, `Compact`).
- `StoreSpec` defines each public operation as a function of the store state (`file`,
  `n_entries`). It then proves what each operation does to the parsed list of entries.
- `Archive.Archivist` is the class: the fields `file` and `nEntries`, and one method per
  operation. The methods use the same loops as the C++ and are proved equal to the spec
  functions.

**Widths.**
- File offsets are unbounded `nat`. The code keeps them in 32-bit `unsigned` and wraps them
  whenever an entry's declared lengths carry it to 2^32. `OffsetWrap` models one pass of
  `locate_entry` with that wrap and shows a small damaged file on which the loop never ends.
- `n_entries` is an unbounded `int`. It is written as its 32-bit two's-complement bytes and
  read back as a C++ `int`.
- The length fields store the locator length modulo 2^16 and the data length modulo 2^32.

**Stand-ins.**
- A fixed-size `Type` is an opaque `w`-byte string; the memcpy'd struct layout is not
  modelled.
- `get<T>` and `put<T>` take the (de)serializer as a function parameter.
- The map serializer enumerates keys in an arbitrary order, the way `std::unordered_map`
  iterates.
- `Vector2<int>`'s value operators are the same functions as `Vector2i`'s.
- Signed overflow is undefined behaviour in C++. It appears as range preconditions rather
  than wrap-around.

## Model

| member | source | states |
|---|---|---|
| StorageFormat.ReadAt | source/Archivist.cpp:52-60 | a read of n bytes at p succeeds exactly when n is 0 or it ends inside the file, and yields n bytes |
| StorageFormat.Overwrite | source/Archivist.cpp:170-176 | a write extends the file exactly when it runs past the end |
| StorageFormat.OverwriteBytes | source/Archivist.cpp:170-176 | every byte after a write is the written byte inside the written range, the old byte elsewhere, and zero in a gap past the old end |
| StorageFormat.OverwriteInside | headers/sztronics/miscellaneous/Archivist.hpp:33-36 | a write ending inside the file replaces exactly the bytes it covers and relocates nothing |
| StorageFormat.LocatorSizeAt | headers/sztronics/miscellaneous/Archivist.hpp:26-32 | the locator length field is a 16-bit value |
| StorageFormat.DataSizeAt | headers/sztronics/miscellaneous/Archivist.hpp:26-32 | the data length field is a 32-bit value |
| StorageFormat.Stored | source/Archivist.cpp:163-180 | the entry that write_entry_at actually records always fits its length fields, equals the given entry when that fits, and otherwise holds truncated prefixes of the locator and data |
| StorageFormat.EncodeSized | headers/sztronics/miscellaneous/Archivist.hpp:26-32 | the encoding of an entry that fits is the u16 locator length, the u32 data length, the locator, then the data |
| StorageFormat.ParseEncoded | headers/sztronics/miscellaneous/Archivist.hpp:26-32 | parsing the packed encoding of any list of fitting entries gives that list back |
| StorageFormat.ParseSound | headers/sztronics/miscellaneous/Archivist.hpp:26-32 | every list the parser accepts is exactly what the bytes encode (the partner of ParseEncoded) |
| StorageFormat.ParseIff | headers/sztronics/miscellaneous/Archivist.hpp:26-32 | a file parses to a list exactly when it is a 4-byte header followed by the encoding of that list |
| StorageFormat.LocateFrom | source/Archivist.cpp:97-130 | the scan's result is an entry start, at or after where the scan began, whose length fields are readable |
| StorageFormat.FirstMatchSpec | source/Archivist.cpp:97-130 | the first-match index holds the locator and no earlier entry does; no index exactly when no entry holds it |
| StorageFormat.LocateFound | source/Archivist.cpp:97-130 | over a parsed file, locate_entry's scan returns the offset of the first entry with the locator |
| StorageFormat.LocateMissing | source/Archivist.cpp:97-130 | over a parsed file, the scan returns nothing when no entry has the locator |
| StorageFormat.LocateInFile | headers/sztronics/miscellaneous/Archivist.hpp:47-49 | locate_entry returns the start offset of the first matching entry of the parsed list, or nothing when none matches |
| StorageFormat.NextEntryInFile | headers/sztronics/miscellaneous/Archivist.hpp:38-40 | next_entry from entry i gives the start of entry i+1, which for the last entry is the end-of-file offset; from the end-of-file offset it gives nothing |
| StorageFormat.StepsInFile | source/Archivist.cpp:73-95 | i next_entry steps from offset 4 reach the offset of entry i |
| StorageFormat.DataInFile | headers/sztronics/miscellaneous/Archivist.hpp:42-45 | read_entry_at takes an entry start, not a data start, and returns exactly that entry's data |
| StorageFormat.EntryInFile | headers/sztronics/miscellaneous/Archivist.hpp:26-32 | entry i of a parsed file has its lengths in its length fields and spans up to entry i+1 |
| StorageFormat.ChainEndSpec | source/Archivist.cpp:266-286 | del's move loop ends either at a position whose length fields are unreadable, or at an entry whose span runs past the end of the file |
| StorageFormat.ChainParsed | source/Archivist.cpp:266-286 | over a parsed file, the move loop runs to the end of the file |
| StorageFormat.CompactInFile | source/Archivist.cpp:258-288 | compacting entry i of a parsed file gives the bytes before it followed by the bytes after it, which encode the list without entry i |
| StorageFormat.LongLocatorNeverFound | source/Archivist.cpp:97-130 | locate_entry never finds a locator of 65536 bytes or more |
| StorageFormat.PosOfNext | headers/sztronics/miscellaneous/Archivist.hpp:26-32 | the entries are packed: each starts where the previous one ends |
| StorageFormat.LocatedEntryHasNext | source/Archivist.cpp:258-262 | next_entry of the entry locate_entry finds always succeeds, so the branch for deleting the last entry is never taken |
| OffsetWrap.LocateStepWrapped | source/Archivist.cpp:108-129 | one pass of locate_entry's loop with the 32-bit wrap of its seek: matched exactly when the scan finds this entry, stopped only when the scan finds nothing, otherwise the next cursor, equal to the unbounded one while it stays below 2^32 |
| OffsetWrap.LocateWrapsForever | source/Archivist.cpp:63-70 | on a ten-byte file whose entry declares 2^32 - 6 data bytes, locate_entry of a non-empty locator returns to offset 4 after each pass, and next_entry(4) returns 4 |
| OffsetWrap.LocateStopsPastEnd | source/Archivist.cpp:108-129 | with unbounded offsets an entry whose span runs past the end of the file is the match or ends the scan with nothing |
| OffsetWrap.LocateEndsOnWrappingFile | source/Archivist.cpp:97-130 | with unbounded offsets the scan of the ten-byte wrapping file reports any non-empty locator absent |
| Bytes.DecodeEncode | source/Archivist.cpp:170-176 | reading back an n-byte little-endian field gives the written value modulo 256^n |
| Bytes.EncodeDecode | source/Archivist.cpp:55-56 | re-encoding the value read from a field writes the same bytes |
| Bytes.ToInt32 | source/Archivist.cpp:22 | the C++ int read from a 32-bit pattern is in int range and congruent to the pattern modulo 2^32 |
| Bytes.Int32Of | source/Archivist.cpp:22 | the counter read from four header bytes is an int whose bytes are those four |
| Bytes.Int32RoundTrip | source/Archivist.cpp:28 | writing an in-range int counter and reading it back gives the same int |
| Bytes.Int32BytesOfRead | source/Archivist.cpp:22-28 | reading the header as an int and writing it back restores the same bytes |
| StoreSpec.OpenShort | source/Archivist.cpp:21-30 | opening a file of fewer than 4 bytes gives a zero counter and a 4-byte zero header, and the store is valid |
| StoreSpec.OpenValid | source/Archivist.cpp:21-22 | opening a file written by a valid store with an in-range count reads back the same counter |
| StoreSpec.Open | source/Archivist.cpp:21-30 | the constructor as a function of the file; OpenShort and OpenValid show that a short file becomes an empty valid store and that a valid store's file reopens to the same store |
| Archive.Archivist.constructor | source/Archivist.cpp:21-30 | the opened state is the spec's Open of the file contents (zero header when under 4 bytes, else the counter read) |
| Archive.Archivist.ReadLengths | source/Archivist.cpp:52-60 | the two length reads succeed exactly when both fields are inside the file, and give their values |
| Archive.Archivist.NextEntry | source/Archivist.cpp:44-71 | returns p + 6 + locator_size + data_size exactly when the six length bytes at p are readable, and nothing otherwise |
| Archive.Archivist.LocateIdx | source/Archivist.cpp:73-95 | returns nothing when the index is at least n_entries; otherwise the offset after that many next_entry steps from 4, so a negative index gives 4 |
| StoreSpec.IndexInFile | source/Archivist.cpp:73-95 | over a parsed file with a matching counter, locate_idx(i) is the offset of entry max(i, 0), or nothing for i at or past the count |
| Archive.Archivist.LocateEntry | source/Archivist.cpp:97-130 | the scan loop returns what LocateFrom gives from offset 4 |
| Archive.Archivist.ReadEntryAt | source/Archivist.cpp:132-161 | returns the data of the entry starting at the given offset, or nothing when its bytes cannot be read |
| Archive.Archivist.WriteEntryAt | source/Archivist.cpp:163-180 | overwrites the bytes from the position with the encoded entry (lengths taken modulo 2^16 and 2^32), leaves the counter, and reports success |
| Archive.Archivist.GetRaw | source/Archivist.cpp:182-191 | equals GetRawOf: nothing when absent, the data when found, and bad_optional_access when the located data cannot be read |
| StoreSpec.GetRawLookup | source/Archivist.cpp:182-191 | on a parsed file, get_raw returns the data of the first entry with the locator, or nothing |
| StoreSpec.GetRawThrows | source/Archivist.cpp:188 | a file whose located entry declares more data than it holds makes get_raw fail rather than return nothing |
| StoreSpec.GetRawOf | source/Archivist.cpp:182-191 | get_raw as a function of the file; GetRawLookup shows it is the first matching entry's data on a parsed file, and GetRawThrows that it fails on a truncated entry |
| Archive.Archivist.Del | source/Archivist.cpp:249-303 | the result and new state are DelOf of the old state |
| Archive.Archivist.MoveBack | source/Archivist.cpp:264-288 | the backward copy loop ends with the file's prefix up to the write cursor equal to the compaction, or with the aborted state (moved prefix, then the untouched rest) on a failed read |
| StoreSpec.DelAbsent | source/Archivist.cpp:251-254 | deleting an absent locator returns false and changes nothing |
| StoreSpec.DelPresent | source/Archivist.cpp:249-303 | deleting a present locator succeeds, decrements the counter, and leaves the header, then the bytes before the entry, then the bytes after it; the parsed list loses exactly that entry |
| StoreSpec.DelValid | source/Archivist.cpp:249-303 | delete keeps a valid store valid, and the file shrinks by the deleted entry's size |
| StoreSpec.DelOf | source/Archivist.cpp:249-303 | del as a function of the state; DelAbsent, DelPresent, DelValid and DelKeepsDistinct give its effect on the parsed list |
| StoreSpec.DelKeepsDistinct | source/Archivist.cpp:249-303 | del on a parsed file with distinct locators leaves a file that parses and whose locators are still distinct |
| Archive.Archivist.PutRaw | source/Archivist.cpp:193-247 | the result and new state are PutRawOf of the old state (the code as written) |
| Archive.Archivist.Append | source/Archivist.cpp:226-247 | the entry is written at the old end of file and the incremented counter is written |
| StoreSpec.PutNew | source/Archivist.cpp:226-247 | a new locator is appended at the old end of file, the counter rises by one, and the parsed list gains the entry at its end |
| StoreSpec.PutSameSize | source/Archivist.cpp:203-211 | a same-size overwrite keeps the entry's offset, changes no byte outside it, keeps the counter, and replaces just that entry in the list |
| StoreSpec.SameSizeValid | source/Archivist.cpp:203-211 | a same-size overwrite keeps a valid store valid |
| StoreSpec.PutResize | source/Archivist.cpp:212-224 | a size-changing put deletes the entry and re-appends it at the end of the list, and the counter ends one higher than before |
| StoreSpec.PutResizeDrift | source/Archivist.cpp:212-239 | after a size-changing put on a valid store the counter is one more than the number of entries, so the store is no longer valid |
| StoreSpec.PutLongLocator | source/Archivist.cpp:170 | put_raw with a locator of 65536 bytes or more reports success, yet get_raw of that locator finds nothing |
| StoreSpec.AppendValid | source/Archivist.cpp:226-247 | appending keeps a valid store valid and adds the entry at the end of the list |
| StoreSpec.AppendOf | source/Archivist.cpp:226-247 | the append tail of put_raw; AppendValid shows it keeps a valid store valid and adds the entry at the end of the list |
| StoreSpec.PutRoundTrip | source/Archivist.cpp:182-247 | after put_raw(k, v) of an entry that fits, into a store with distinct locators, is reported true, get_raw(k) returns v; PutRawKeepsDistinct keeps the distinct-locator condition for the next put |
| StoreSpec.PutRawOf | source/Archivist.cpp:193-247 | put_raw as written; PutNew, PutSameSize, PutResize, PutRoundTrip and PutRawKeepsDistinct give its effect, and PutResizeDrift, PutLongLocator and PutLongLocatorDuplicates its faults |
| StoreSpec.PutRawKeepsDistinct | source/Archivist.cpp:193-247 | put_raw of an entry that fits leaves a parsed file with distinct locators parsing with distinct locators, so PutRoundTrip applies again to the next put |
| StoreSpec.PutLongLocatorDuplicates | source/Archivist.cpp:170 | put_raw of a locator of 65536 bytes or more whose truncation is the locator of a stored entry succeeds and appends a second entry with that locator |
| Archive.Archivist.PutRawFixed | source/Archivist.cpp:193-247 | the result and new state are PutRawFixedOf: entries that overflow their length fields are refused, and a resize does not increment the counter twice |
| StoreSpec.PutFixedValid | source/Archivist.cpp:193-247 | the corrected put keeps a valid store valid, succeeds exactly when the entry fits, and changes nothing when it does not |
| StoreSpec.PutFixedRoundTrip | source/Archivist.cpp:182-247 | after the corrected put of an entry that fits, get_raw returns the data put |
| StoreSpec.PutRawFixedOf | source/Archivist.cpp:193-247 | the corrected put_raw; PutFixedValid, PutFixedRoundTrip and PutFixedKeepsDistinct give its effect |
| StoreSpec.PutFixedKeepsDistinct | source/Archivist.cpp:193-247 | the corrected put leaves a parsed file with distinct locators parsing with distinct locators, for every entry |
| Archive.GetOf | headers/sztronics/miscellaneous/Archivist.hpp:74-81 | typed get is nothing exactly when get_raw is nothing, and fails when get_raw fails |
| Archive.Archivist.Get | headers/sztronics/miscellaneous/Archivist.hpp:74-81 | the typed get is GetOf: get_raw, then the deserializer, whose failure propagates |
| Archive.Archivist.Put | headers/sztronics/miscellaneous/Archivist.hpp:83-88 | put<T>(k, x) is exactly put_raw(k, serialize(x)) |
| Archive.TypedRoundTrip | headers/sztronics/miscellaneous/Archivist.hpp:74-88 | with a serializer that round-trips, get<T> after put<T> returns the value put |
| Archive.FixedValueRoundTrip | headers/sztronics/miscellaneous/Archivist.hpp:74-88 | for fixed-size values, get<T> after put<T> returns the value put |
| Archive.Resize | source/Archivist.cpp:291 | resize_file leaves exactly n bytes, the first n of the old file when it shrinks |
| Serialization.SerializeValue | headers/sztronics/miscellaneous/Serialization.hpp:13-22 | serializing a fixed-size value yields exactly sizeof(Type) bytes |
| Serialization.DeserializeValue | headers/sztronics/miscellaneous/Serialization.hpp:65-78 | scalar deserialize succeeds exactly when there are sizeof(Type) bytes |
| Serialization.ValueRoundTrip | headers/sztronics/miscellaneous/Serialization.hpp:13-78 | deserializing a serialized value gives it back |
| Serialization.ValueRoundTripBack | headers/sztronics/miscellaneous/Serialization.hpp:13-78 | bytes that deserialize serialize back to themselves |
| Serialization.DeserializeString | headers/sztronics/miscellaneous/Serialization.hpp:81-88 | no bytes give the empty string |
| Serialization.StringRoundTrip | headers/sztronics/miscellaneous/Serialization.hpp:25-88 | string serialization and deserialization are inverse in both directions |
| Serialization.SerializeVector | headers/sztronics/miscellaneous/Serialization.hpp:31-43 | a vector of n elements serializes to n*sizeof(T) bytes |
| Serialization.DeserializeVector | headers/sztronics/miscellaneous/Serialization.hpp:91-107 | vector deserialize succeeds exactly when the size divides by sizeof(T), giving that many elements of that size |
| Serialization.VectorRoundTrip | headers/sztronics/miscellaneous/Serialization.hpp:31-107 | deserializing a serialized vector gives it back |
| Serialization.VectorRoundTripBack | headers/sztronics/miscellaneous/Serialization.hpp:31-107 | bytes that deserialize to a vector are its serialization |
| Serialization.SerializeMap | headers/sztronics/miscellaneous/Serialization.hpp:46-63 | the loop yields the key then value bytes of every pair, each key once in some enumeration order, |map|*(ks+vs) bytes in all |
| Serialization.DeserializeMap | headers/sztronics/miscellaneous/Serialization.hpp:110-134 | the loop computes DeserializeMapOf |
| Serialization.DeserializeMapOf | headers/sztronics/miscellaneous/Serialization.hpp:118-120 | map deserialize succeeds exactly when the size divides by ks+vs |
| Serialization.MapPairsAt | headers/sztronics/miscellaneous/Serialization.hpp:124-131 | the i-th chunk is cut at i*(ks+vs) into its first ks bytes and its next vs bytes |
| Serialization.FirstWinsFirst | headers/sztronics/miscellaneous/Serialization.hpp:132 | for a repeated key the first occurrence's value is kept, because insert does not overwrite |
| Serialization.FirstWinsKeys | headers/sztronics/miscellaneous/Serialization.hpp:124-133 | the deserialized map's keys are exactly the keys of the chunks |
| Serialization.MapRoundTrip | headers/sztronics/miscellaneous/Serialization.hpp:46-134 | deserializing a serialized map gives it back, whatever order it was enumerated in |
| MiscFunctions.FindIdx | headers/sztronics/miscellaneous/Misc_functions.hpp:26-36 | nothing exactly when the key is absent; otherwise an index holding the key with no earlier occurrence |
| MiscFunctions.FirstIndexOf | headers/sztronics/miscellaneous/Misc_functions.hpp:16 | std::find's position holds the key and no earlier element equals it |
| MiscFunctions.Container.PopVal | headers/sztronics/miscellaneous/Misc_functions.hpp:13-22 | returns true exactly when the key occurs; then exactly its first occurrence is erased, otherwise nothing changes |
| MiscFunctions.Container.PopIdx | headers/sztronics/miscellaneous/Misc_functions.hpp:40-46 | on a non-empty vector, erases the element at index modulo the size |
| MiscFunctions.EraseKeepsOthers | headers/sztronics/miscellaneous/Misc_functions.hpp:20 | erasing keeps the other elements in order and removes exactly one copy of the erased one |
| MiscFunctions.PrintableRange | headers/sztronics/miscellaneous/Misc_functions.hpp:54-57 | is_printable holds exactly for 32 through 126, space through tilde |
| MiscFunctions.IsPrintable | headers/sztronics/miscellaneous/Misc_functions.hpp:53-57 | is_printable; PrintableRange shows it holds exactly from space to tilde |
| MiscFunctions.IsWordch | headers/sztronics/miscellaneous/Misc_functions.hpp:60-66 | is_wordch as written; WordchMissesEndpoints and WordchRejectsA show it misses the six range endpoints |
| MiscFunctions.IsWordChar | headers/sztronics/miscellaneous/Misc_functions.hpp:59 | the documented class [a-zA-Z0-9_]; WordchMissesEndpoints shows every such character is printable |
| MiscFunctions.WordchMissesEndpoints | headers/sztronics/miscellaneous/Misc_functions.hpp:59-66 | is_wordch accepts exactly the [a-zA-Z0-9_] characters other than the six range endpoints; every word character is printable |
| MiscFunctions.WordchRejectsA | headers/sztronics/miscellaneous/Misc_functions.hpp:62-63 | 'a' and '0' are word characters that is_wordch rejects |
| MiscFunctions.ToOneD | headers/sztronics/miscellaneous/Misc_functions.hpp:79-82 | the int returned is x*width+y modulo 2^32 |
| MiscFunctions.ToOneDPair | headers/sztronics/miscellaneous/Misc_functions.hpp:68-72 | the int returned is first*width+second modulo 2^32 |
| MiscFunctions.ToOneDVector | headers/sztronics/miscellaneous/Misc_functions.hpp:73-77 | the int returned is x*width+y modulo 2^32 for signed coordinates, their conversion to uint32_t included |
| MiscFunctions.ToTwoD | headers/sztronics/miscellaneous/Misc_functions.hpp:84-88 | the quotient and remainder by the width; OneDOfTwoD and TwoDOfOneD show it inverts to_1d |
| MiscFunctions.Unsigned | headers/sztronics/miscellaneous/Misc_functions.hpp:74-77 | an int coordinate passed as uint32_t keeps its value modulo 2^32 |
| MiscFunctions.OneDOfTwoD | headers/sztronics/miscellaneous/Misc_functions.hpp:74-88 | to_1d(to_2d(i, w), w) is i read as an int, and equals i when i is below 2^31 |
| MiscFunctions.TwoDOfOneD | headers/sztronics/miscellaneous/Misc_functions.hpp:79-88 | when y < w and x*w+y fits an int, to_1d gives x*w+y and to_2d of it gives (x, y) back |
| WrapText.WrapText | source/Misc_functions.cpp:7-81 | at least one line and at least 1 + the number of newlines; lines within the width when it is positive; no newline in any line; the non-blank characters kept in order; no line longer than one ends with a space; with no width, the newline-separated segments, each trimmed |
| WrapText.PlaceWord | source/Misc_functions.cpp:15-30 | placing a word appends exactly its characters, keeps lines within a positive width and free of newlines, and with no width appends the word to the last line |
| WrapText.TrimLine | source/Misc_functions.cpp:64-71 | the trimming loop computes TrimEnd |
| WrapText.TrimEnd | source/Misc_functions.cpp:64-71 | trimming removes only trailing spaces, leaves a line longer than one character not ending in a space, and never empties a non-empty line |
| WrapText.TrimLines | source/Misc_functions.cpp:64-71 | every line is trimmed |
| WrapText.TrimmedNonBlank | source/Misc_functions.cpp:64-71 | trimming keeps the non-blank characters |
| WrapText.Split | source/Misc_functions.cpp:35-37 | the text has one more segment than newlines |
| WrapText.JoinOfSplit | source/Misc_functions.cpp:35-37 | the segments contain no newline and joining them with newlines gives the text back |
| WrapText.SplitOfJoin | source/Misc_functions.cpp:35-37 | splitting lines without newlines that were joined with newlines gives the lines back |
| WrapText.AppendLast | source/Misc_functions.cpp:29 | appending to the last line keeps the number of lines |
| Vectors.QuotTruncates | headers/sztronics/miscellaneous/Vector2i.hpp:18 | C++ int division: dividend = divisor*quotient + remainder, the remainder smaller than the divisor and of the dividend's sign, the quotient no larger than the dividend |
| Vectors.Add | headers/sztronics/miscellaneous/Vector2i.hpp:14 | + is componentwise |
| Vectors.Sub | headers/sztronics/miscellaneous/Vector2i.hpp:15 | - is componentwise |
| Vectors.Neg | headers/sztronics/miscellaneous/Vector2.hpp:21 | unary minus negates both coordinates |
| Vectors.AddScalar | headers/sztronics/miscellaneous/Vector2.hpp:60 | adding a scalar is adding the vector (k, k) |
| Vectors.SubScalar | headers/sztronics/miscellaneous/Vector2.hpp:62 | subtracting a scalar is subtracting the vector (k, k) |
| Vectors.Scale | headers/sztronics/miscellaneous/Vector2i.hpp:17 | * by an int multiplies both coordinates exactly, under the no-overflow requires; ScaleDistributes relates it to Add and ScalarIsComponentwise to MulComponents |
| Vectors.DivScalar | headers/sztronics/miscellaneous/Vector2i.hpp:18 | / by an int divides both coordinates; DivScalarTruncates shows each quotient truncates toward zero, and ScalarIsComponentwise relates it to DivComponents |
| Vectors.MulComponents | headers/sztronics/miscellaneous/Vector2.hpp:42 | the componentwise product, exact under the no-overflow requires |
| Vectors.DivComponents | headers/sztronics/miscellaneous/Vector2.hpp:44 | the componentwise quotient; DivComponentsTruncates shows each quotient truncates toward zero |
| Vectors.Eq | headers/sztronics/miscellaneous/Vector2i.hpp:23 | both coordinates equal; EqualityIsIdentity shows this is equality of vectors |
| Vectors.Neq | headers/sztronics/miscellaneous/Vector2i.hpp:24 | some coordinate differs; EqualityIsIdentity shows this is the negation of == |
| Vectors.Less | headers/sztronics/miscellaneous/Vector2i.hpp:28 | both coordinates smaller; OrderingsRelate and LessIsNotNotGreaterEq relate it to the other orders |
| Vectors.LessEq | headers/sztronics/miscellaneous/Vector2i.hpp:29 | both coordinates at most; OrderingsRelate shows it is antisymmetric and mirrors >= |
| Vectors.Greater | headers/sztronics/miscellaneous/Vector2i.hpp:30 | both coordinates larger; OrderingsRelate shows it mirrors < |
| Vectors.GreaterEq | headers/sztronics/miscellaneous/Vector2i.hpp:31 | both coordinates at least; LessIsNotNotGreaterEq shows < is not its negation |
| Vectors.LenManh | headers/sztronics/miscellaneous/Vector2i.hpp:33-34 | the taxicab length; LengthsOrdered bounds it by the chessboard length |
| Vectors.LenChess | headers/sztronics/miscellaneous/Vector2i.hpp:35-36 | the chessboard length; LengthsOrdered shows it is zero only at the origin |
| Vectors.Clamp | headers/sztronics/miscellaneous/Vector2i.hpp:38-41 | each coordinate held between its bounds, the upper one excluded; ClampBounds and ClampIndexes state the bounds |
| Vectors.ScalarIsComponentwise | headers/sztronics/miscellaneous/Vector2.hpp:77-79 | scalar * and / are the componentwise vector operators by (k, k) |
| Vectors.DivScalarTruncates | headers/sztronics/miscellaneous/Vector2i.hpp:18 | scalar division truncates toward zero on each coordinate: the remainder is smaller than the divisor and has the sign of the dividend, so a floor or ceiling quotient is excluded |
| Vectors.DivComponentsTruncates | headers/sztronics/miscellaneous/Vector2.hpp:44 | componentwise division truncates toward zero by each coordinate's divisor: each remainder is smaller than its divisor and has the sign of its dividend |
| Vectors.ScaleDistributes | headers/sztronics/miscellaneous/Vector2i.hpp:14-17 | scaling distributes over addition |
| Vectors.AddSubInverse | headers/sztronics/miscellaneous/Vector2i.hpp:14-15 | adding then subtracting a vector gives the vector back |
| Vectors.NegInvolution | headers/sztronics/miscellaneous/Vector2.hpp:21 | negating twice gives the vector back |
| Vectors.EqualityIsIdentity | headers/sztronics/miscellaneous/Vector2i.hpp:23-24 | == holds exactly for equal vectors, and != is its negation |
| Vectors.OrderingsRelate | headers/sztronics/miscellaneous/Vector2i.hpp:28-31 | < implies <= and !=, < and > mirror each other, <= and >= mirror each other, and <= is antisymmetric |
| Vectors.LessIsNotNotGreaterEq | headers/sztronics/miscellaneous/Vector2i.hpp:26-31 | < is not !(>=): (0, 1) and (1, 0) are related by neither |
| Vectors.LengthsOrdered | headers/sztronics/miscellaneous/Vector2i.hpp:33-36 | 0 <= len_chess <= len_manh <= 2*len_chess, and len_chess is zero only at the origin |
| Vectors.ClampBounds | headers/sztronics/miscellaneous/Vector2i.hpp:38-41 | each clamped coordinate is at least the lower bound, below the upper bound when the bounds do not cross, and unchanged when already inside |
| Vectors.ClampIndexes | headers/sztronics/miscellaneous/Vector2.hpp:117-122 | clamping with the default lower bound to a positive upper bound gives an index inside the rectangle |
| Vectors.Vector2.AddAssign | headers/sztronics/miscellaneous/Vector2.hpp:28-33 | += sets the coordinates to the sum and returns the same object |
| Vectors.Vector2.SubAssign | headers/sztronics/miscellaneous/Vector2.hpp:34-39 | -= sets the coordinates to the difference and returns the same object |
| Vectors.Vector2.MulAssign | headers/sztronics/miscellaneous/Vector2.hpp:46-51 | *= by a vector sets the coordinates to the componentwise product |
| Vectors.Vector2.DivAssign | headers/sztronics/miscellaneous/Vector2.hpp:52-57 | /= by a vector sets the coordinates to the componentwise truncated quotient |
| Vectors.Vector2.AddScalarAssign | headers/sztronics/miscellaneous/Vector2.hpp:64-69 | += by a scalar adds it to both coordinates |
| Vectors.Vector2.SubScalarAssign | headers/sztronics/miscellaneous/Vector2.hpp:70-75 | -= by a scalar subtracts it from both coordinates |
| Vectors.Vector2.MulScalarAssign | headers/sztronics/miscellaneous/Vector2.hpp:81-86 | *= by a scalar scales both coordinates |
| Vectors.Vector2.DivScalarAssign | headers/sztronics/miscellaneous/Vector2.hpp:87-92 | /= by a scalar divides both coordinates, truncating |
| Vectors.AddThenSubRestores | headers/sztronics/miscellaneous/Vector2.hpp:28-39 | += then -= of the same vector restores the object's value |
| UniqueIds.NewUnique | source/Unique.cpp:7-29 | claims the least id below 4096 that is unclaimed or one past the table, marks it claimed and returns a valid Unique with it; throws runtime_error, with the table unchanged, when none is free |
| UniqueIds.FreeFrom | source/Unique.cpp:11-24 | the scan's id is untaken and below the limit, and every id before it is taken; no id means every id from the start to the limit is taken |
| UniqueIds.ClaimTakesLeastFree | source/Unique.cpp:11-24 | the claimed id is the least free one and now taken; no other id changes; the table grows by at most one slot, and only when every slot was claimed |
| UniqueIds.ClaimFailsWhenFull | source/Unique.cpp:25-27 | allocation fails exactly when all 4096 ids are taken |
| UniqueIds.Unique.Destroy | source/Unique.cpp:44-50 | a valid Unique unclaims exactly its id; an invalid one changes nothing |
| UniqueIds.ReleaseFreesOnlyIt | source/Unique.cpp:44-50 | releasing frees exactly that id, and claiming it again restores the table |
| UniqueIds.ReleasedIdReused | source/Unique.cpp:11-50 | after a release, the next allocation reuses the released id when every smaller id is still taken |
| UniqueIds.Unique.Moved | source/Unique.cpp:31-35 | the move constructor copies id and validity and invalidates the source |
| UniqueIds.Unique.MoveAssign | source/Unique.cpp:37-42 | move assignment copies id and validity, invalidates the source, returns this, and does not release the old id |
| UniqueIds.EqualityIsById | source/Unique.cpp:58-66 | equality between Uniques compares ids, is symmetric, and agrees with comparing against the other's uid |
| UniqueIds.TakenIn | source/Unique.cpp:55 | an id is taken exactly when it is inside the table and marked; ClaimTakesLeastFree and ReleaseFreesOnlyIt state claims and releases through it |
| UniqueIds.Registry.IsTaken | source/Unique.cpp:52-56 | is_taken on the shared table, the same test |
| UniqueIds.Unique.GetUid | headers/sztronics/miscellaneous/Unique.hpp:26 | the id; EqualityIsById relates comparing two Uniques with comparing one against the other's uid |
| UniqueIds.Unique.IsValid | headers/sztronics/miscellaneous/Unique.hpp:27 | validity; Moved and MoveAssign clear it on the source, and Destroy releases only when it is set |
| UniqueIds.Unique.Equals | source/Unique.cpp:58-59 | compares ids only; EqualityIsById shows it is symmetric |
| UniqueIds.Unique.EqualsId | source/Unique.cpp:63-64 | compares the id with a number; EqualityIsById relates it to Equals |
| UniqueIds.MovedIdReleasedOnce | source/Unique.cpp:31-50 | claiming a Unique, moving it and destroying both objects releases the id once, and every id ends taken exactly when it was before the claim |
| UniqueIds.Unique.Claimed | headers/sztronics/miscellaneous/Unique.hpp:15 | a newly built Unique is valid and holds its id |
| UniqueIds.Registry.constructor | source/Unique.cpp:4 | the table of claimed ids starts empty |
| UniqueMaps.UniqueMap.Emplace | headers/sztronics/miscellaneous/Unique_map.hpp:27-29 | stores the value under its uid unless that uid already has an entry |
| UniqueMaps.EmplaceNeverReplaces | headers/sztronics/miscellaneous/Unique_map.hpp:27-29 | emplace adds an entry exactly when the key was absent, never replaces one, and touches no other key |
| UniqueMaps.UniqueMap.Insert | headers/sztronics/miscellaneous/Unique_map.hpp:142-144 | insert stores the value under its uid, overwriting any entry |
| UniqueMaps.UniqueMap.Clear | headers/sztronics/miscellaneous/Unique_map.hpp:31 | clear empties the map |
| UniqueMaps.UniqueMap.Swap | headers/sztronics/miscellaneous/Unique_map.hpp:32 | swap exchanges the two maps' contents |
| UniqueMaps.UniqueMap.Get | headers/sztronics/miscellaneous/Unique_map.hpp:35-41 | operator[] returns the entry for a present key and throws out_of_range for an absent one |
| UniqueMaps.UniqueMap.HasKey | headers/sztronics/miscellaneous/Unique_map.hpp:43-50 | the scan over the entries finds the key exactly when it is among the keys |
| UniqueMaps.UniqueMap.Erase | headers/sztronics/miscellaneous/Unique_map.hpp:53 | erase removes that key only |
| UniqueMaps.EraseRemovesOnlyIt | headers/sztronics/miscellaneous/Unique_map.hpp:51-53 | erase removes only the key, keeps the other entries, and lowers size by one exactly when the key was present |
| UniqueMaps.UniqueMap.Size | headers/sztronics/miscellaneous/Unique_map.hpp:51 | the number of entries; EmplaceNeverReplaces and EraseRemovesOnlyIt give how emplace and erase change it |
| UniqueMaps.UniqueMap.constructor | headers/sztronics/miscellaneous/Unique_map.hpp:14-25 | a new map is empty |
| Focusing.FocusScope.constructor | headers/sztronics/miscellaneous/Focus.hpp:10-16 | a new scope has no controller |
| Focusing.Focus.constructor | source/Focus.cpp:3-14 | a new Focus takes control exactly when its scope has no controller, becoming that controller; the scope stays valid |
| Focusing.Focus.ClaimControl | source/Focus.cpp:28-39 | afterwards this Focus has control and is the controller; the previous controller loses control; a no-op when it already had control; the scope stays valid |
| Focusing.AtMostOneController | source/Focus.cpp:7-37 | in a valid scope at most one Focus has control, and a Focus has it exactly when it is the scope's controller |
| Focusing.Focus.HasControl | source/Focus.cpp:16-20 | the control flag; AtMostOneController shows at most one member of a valid scope has it |
| Focusing.FocusScope.GetController | source/Focus.cpp:22-26 | the current controller; AtMostOneController shows a member has control exactly when it is the controller |
| Focusing.Focus.MoveAssign | source/Focus.cpp:41-50 | when the source has control, the destination claims it in its own scope (taking it from the source in a shared scope); otherwise nothing changes |
| Focusing.Focus.Moved | source/Focus.cpp:52-59 | the move constructor as written: the scope stays valid exactly when the uninitialised flag reads false; when it reads true and the source has control, both hold control |
| Focusing.Focus.MovedFixed | source/Focus.cpp:52-59 | the move constructor with the flag initialised to false: control passes from the source to the new object and the scope stays valid |
| Focusing.TwoControllersAfterMove | source/Focus.cpp:52-59 | moving the controller while the uninitialised flag reads true leaves two objects of one scope holding control |
| Focusing.OneControllerAfterFixedMove | source/Focus.cpp:52-59 | the same move with the initialised flag leaves only the new object holding control, in a valid scope |

## Left out

- File opening, creation and the exceptions they throw (source/Archivist.cpp:5-19), the destructor's flush and close, and the close and re-open around `resize_file` in `del`. The file is an in-memory byte sequence, and truncation is `Archive.Resize`.
- Stream error flags: they become the model's failed reads. Disk write failures are not modelled, so every write succeeds.
- The stream cursor: each method computes its positions explicitly.
- Archive.Archivist.PutRaw: the 32-bit `unsigned` wrap of file offsets is not modelled, here or in `get_raw`, `del` and the scans (`Archive.Archivist.LocateEntry`, `Archive.Archivist.NextEntry`, `Archive.Archivist.LocateIdx`). The code wraps whenever an entry's position plus 6 plus its declared lengths reaches 2^32 (source/Archivist.cpp:63-70, 128), and a damaged small file can do that. Offsets here are unbounded, so on such a file the model's scan stops with nothing where the code's `locate_entry` can loop forever, and with it `get_raw`, `put_raw` and `del`. `OffsetWrap.LocateStepWrapped` models one pass of that loop with the wrap, and the Findings table records the non-termination.
- Archive.Archivist.Append: the model increments `n_entries` without bound; the C++ `int` would overflow. The header stores the counter modulo 2^32.
- Host endianness: little-endian is fixed for the header and the length fields.
- `get_default`, the static default store (hidden global state).
- The memcpy of struct memory in Serialization.hpp: a fixed-size type is an opaque `w`-byte string, so layout and padding are not modelled.
- Serialization.DeserializeVector: the `unsigned` element count is not truncated to 32 bits, here or in `Serialization.DeserializeMap`.
- The order in which `std::unordered_map` iterates: `Serialization.SerializeMap` returns it as a ghost `order`.
- Timer and Logger: clocks, callbacks and file output.
- The floating-point parts of the vectors: multiplication and division by `double`, `len()` with `sqrt`, the float and double typedefs, and the string and ostream conversions.
- Vector2 is modelled only for `T = T2 = int`, without the mixed-type casts. Signed overflow is undefined behaviour in C++, so the arithmetic members require their results to be in `int` range instead of wrapping.
- Mutexes in Unique and Focus: the model is sequential.
- Unique_map's iterator classes. Two defects there are not modelled: the `const_iterator` `!=` returns `==` (Unique_map.hpp:155), and the shared_ptr specialisation's `BaseType` names the reference_wrapper base (Unique_map.hpp:126).
- UniqueMaps.UniqueMap.Insert: models the evident intent, an insert that overwrites. As written, both `insert` members (Unique_map.hpp:130, 142) come before any access specifier in a `class`, so they are private. The reference_wrapper one is also ill-formed once used, because `std::map::operator[]` needs a default-constructible mapped type and `std::reference_wrapper` is not one.
- `get_uid` of a stored value: Unique_map takes it as a function fixed at construction.
- Unique's `id` is an unbounded `nat` rather than `uint32_t`. Ids stay below 4096, so the width never matters.
- `operator unsigned int` on Unique is the same as `GetUid`. The deleted copy operations of Unique, Focus and Archivist need no model: Dafny objects are references, and the model only moves them.
- MiscFunctions.FindIdx: the `int` counter's overflow past 2^31 elements is not modelled.
- Misc_functions.hpp:16 is missing its semicolon, so the code as written does not compile. `MiscFunctions.Container.PopVal` models the evident intent.
- `MiscFunctions.Container.PopIdx` returns nothing, as the code does, despite its comment promising a result.
- A division by a zero width in `to_2d` is undefined behaviour and is excluded by a precondition.
- Focus objects are never destroyed, and Focus declares no destructor, so the dangling `current_controller` left by a destroyed controller is not modelled.
- The default `global_scope` argument: the scope is always passed explicitly.

## Findings

| source | as written | input that shows it | evidently intended | confidence | as-written member | corrected member |
|---|---|---|---|---|---|---|
| source/Archivist.cpp:212-239 | a put_raw that changes an entry's data size calls del (counter -1), then increments and writes the counter (+1), then appends (+1) | any valid store holding key k, then put_raw(k, v) with a data size different from the stored one | the counter stays equal to the number of entries (no increment at line 216) | not executed | StoreSpec.PutResizeDrift | StoreSpec.PutFixedValid |
| source/Archivist.cpp:170 | the locator length is written modulo 2^16 and put_raw still reports success | put_raw(k, v) with a 65536-byte locator k, then get_raw(k) | an entry whose lengths do not fit their fields is refused | not executed | StoreSpec.PutLongLocator | StoreSpec.PutFixedRoundTrip |
| source/Archivist.cpp:170 | a truncated locator can equal one already stored, so put_raw appends a second entry with that locator | put_raw(k, v) where k has 65536 bytes or more and its first (length of k mod 65536) bytes are a stored locator | the locators of a store stay distinct | not executed | StoreSpec.PutLongLocatorDuplicates | StoreSpec.PutFixedKeepsDistinct |
| headers/sztronics/miscellaneous/Misc_functions.hpp:62-64 | strict comparisons exclude '0', '9', 'a', 'z', 'A' and 'Z' | is_wordch('a') and is_wordch('0') are false | the documented class [a-zA-Z0-9_] | not executed | MiscFunctions.WordchRejectsA | MiscFunctions.WordchMissesEndpoints |
| source/Archivist.cpp:97-130 | the scan's seek adds the data size to the cursor as `unsigned`, so a declared span reaching 2^32 wraps the cursor back into the file | the ten-byte file 00 00 00 00 00 00 FA FF FF FF (one entry at 4, empty locator, data size 2^32 - 6) and locate_entry of a non-empty locator: every pass returns to offset 4 | a scan that stops, reporting the locator absent, once an entry runs past the end of the file | not executed | OffsetWrap.LocateWrapsForever | OffsetWrap.LocateEndsOnWrappingFile |
| source/Focus.cpp:52-59 | the move constructor never initialises `control`, so claim_control may see it as already true and skip the claim | moving the scope's controller when the uninitialised flag reads true | control initialised to false before the claim | not executed | Focusing.TwoControllersAfterMove | Focusing.OneControllerAfterFixedMove |
