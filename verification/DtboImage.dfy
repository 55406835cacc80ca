/** Writing device tree overlay images and reading them back. */
module DtboImage {
  import opened Collections
  import opened Words
  import opened Dtbo

  // ---- Image files ----

  ghost predicate ImageFits(h: Header, rows: seq<Row>) {
    Words.Fits(HeaderWords(h)) && Words.Fits(RowsWords(rows))
  }

  ghost function Image(h: Header, rows: seq<Row>, blobs: Bytes): Bytes
    requires ImageFits(h, rows)
  {
    Pack(HeaderWords(h)) + Pack(RowsWords(rows)) + blobs
  }

  function HeaderIn(file: Bytes): Header
    requires |file| >= HEADER_SIZE
  {
    HeaderOf(Unpack(file[..HEADER_SIZE]))
  }

  /** Exactly the files that can be read. */
  predicate Readable(file: Bytes) {
    && |file| >= HEADER_SIZE
    && var h := HeaderIn(file);
       && (h.magic == DTBO_MAGIC || h.magic == ACPIO_MAGIC)
       && h.headerSize == HEADER_SIZE && h.entrySize == ENTRY_SIZE
       && |file| >= HEADER_SIZE + h.entryCount * ENTRY_SIZE
       && h.entriesOffset <= HEADER_SIZE
       && (h.entryCount == 0 || h.version < 2)
  }

  /** Row `i` of a readable file. */
  function RowIn(file: Bytes, i: nat): Row
    requires Readable(file) && i < HeaderIn(file).entryCount
  {
    RowAt(HeaderIn(file), MetadataIn(file), i)
  }

  function MetadataIn(file: Bytes): (words: seq<nat>)
    requires Readable(file)
    ensures |words| == 8 + 8 * HeaderIn(file).entryCount
  {
    Unpack(file[..HEADER_SIZE + HeaderIn(file).entryCount * ENTRY_SIZE])
  }

  function RowAt(h: Header, metadata: seq<nat>, i: nat): Row
    requires i < h.entryCount && |metadata| == 8 + 8 * h.entryCount && h.entriesOffset <= HEADER_SIZE && h.version < 2
  {
    var o := h.entriesOffset / 4 + 8 * i;
    RowOf(h.version, metadata[o..o + 8])
  }

  /** A header as the writer makes it. */
  ghost predicate Standard(h: Header, rows: seq<Row>) {
    && (h.magic == DTBO_MAGIC || h.magic == ACPIO_MAGIC)
    && h.headerSize == HEADER_SIZE && h.entrySize == ENTRY_SIZE && h.entriesOffset == HEADER_SIZE
    && h.entryCount == |rows| && h.version < 2
    && forall i :: 0 <= i < |rows| ==> Version(rows[i].fields) == h.version
  }

  lemma MetadataOf(h: Header, rows: seq<Row>, blobs: Bytes)
    requires ImageFits(h, rows)
    ensures var file := Image(h, rows, blobs);
            && |file| == 32 + 32 * |rows| + |blobs|
            && Unpack(file[..32]) == HeaderWords(h)
            && Unpack(file[..32 + 32 * |rows|]) == HeaderWords(h) + RowsWords(rows)
            && file[32 + 32 * |rows|..] == blobs
  {
    hide Pack, Unpack, HeaderWords, RowsWords;
    var file := Image(h, rows, blobs);
    PackConcat(HeaderWords(h), RowsWords(rows));
    UnpackPack(HeaderWords(h));
    UnpackPack(HeaderWords(h) + RowsWords(rows));
    assert file[..32] == Pack(HeaderWords(h));
    assert file[..32 + 32 * |rows|] == Pack(HeaderWords(h) + RowsWords(rows));
  }

  // ---- Where each number is ----

  /** The header at the start of a file, number by number. */
  ghost predicate HeaderStored(file: Bytes, h: Header) {
    && |file| >= 32
    && WordAt(file, 0) == h.magic && WordAt(file, 4) == h.totalSize
    && WordAt(file, 8) == h.headerSize && WordAt(file, 12) == h.entrySize
    && WordAt(file, 16) == h.entryCount && WordAt(file, 20) == h.entriesOffset
    && WordAt(file, 24) == h.pageSize && WordAt(file, 28) == h.version
  }

  /** The row at place `o` of a file, number by number. */
  ghost predicate RowStored(file: Bytes, o: nat, r: Row) {
    && o + 32 <= |file|
    && WordAt(file, o) == r.size && WordAt(file, o + 4) == r.offset
    && match r.fields
       case V0(id, rev, custom0, custom1, custom2, custom3) =>
         && WordAt(file, o + 8) == id && WordAt(file, o + 12) == rev
         && WordAt(file, o + 16) == custom0 && WordAt(file, o + 20) == custom1
         && WordAt(file, o + 24) == custom2 && WordAt(file, o + 28) == custom3
       case V1(id, rev, flags, custom0, custom1, custom2) =>
         && WordAt(file, o + 8) == id && WordAt(file, o + 12) == rev
         && WordAt(file, o + 16) == flags && WordAt(file, o + 20) == custom0
         && WordAt(file, o + 24) == custom1 && WordAt(file, o + 28) == custom2
  }

  /** The header comes first, then the rows, each of 32 bytes, and then the blobs. */
  ghost predicate ImageIs(file: Bytes, h: Header, rows: seq<Row>, blobs: Bytes) {
    && HeaderStored(file, h)
    && |file| == 32 + 32 * |rows| + |blobs| && file[32 + 32 * |rows|..] == blobs
    && forall i: nat :: i < |rows| ==> RowStored(file, 32 + 32 * i, rows[i])
  }

  lemma ImageWritten(h: Header, rows: seq<Row>, blobs: Bytes)
    requires ImageFits(h, rows)
    ensures ImageIs(Image(h, rows, blobs), h, rows, blobs)
  {
    hide ImageFits, Image, HeaderWords, RowsWords, RowWords, Unpack, WordAt, HeaderStored, RowStored;
    var file := Image(h, rows, blobs);
    MetadataOf(h, rows, blobs);
    HeaderPlaces(file, HeaderWords(h));
    HeaderIsStored(file, h);
    forall i: nat | i < |rows|
      ensures RowStored(file, 32 + 32 * i, rows[i])
    {
      var words := HeaderWords(h) + RowsWords(rows);
      RowPlaces(file, words, 8 + 8 * i);
      RowsWordsAt(rows, i);
      assert words[8 + 8 * i..8 + 8 * i + 8] == RowsWords(rows)[8 * i..8 * i + 8];
      RowIsStored(file, 32 + 32 * i, rows[i]);
    }
  }

  /** Word `k` of a part of a file is at place `4 * k`. */
  lemma WordPlace(file: Bytes, n: nat, k: nat)
    requires n <= |file| && n % 4 == 0 && 4 * k + 4 <= n
    ensures Unpack(file[..n])[k] == WordAt(file, 4 * k)
  {
    assert file[..n] + file[n..] == file;
    SameWord(file[..n], file[n..], 4 * k);
    hide WordAt;
  }

  /** Eight words from place `o` of a file on. */
  ghost predicate WordsFrom(file: Bytes, o: nat, w: seq<nat>) {
    && o + 32 <= |file| && |w| == 8
    && WordAt(file, o) == w[0] && WordAt(file, o + 4) == w[1] && WordAt(file, o + 8) == w[2]
    && WordAt(file, o + 12) == w[3] && WordAt(file, o + 16) == w[4] && WordAt(file, o + 20) == w[5]
    && WordAt(file, o + 24) == w[6] && WordAt(file, o + 28) == w[7]
  }

  lemma RowPlaces(file: Bytes, words: seq<nat>, k: nat)
    requires 4 * |words| <= |file| && Unpack(file[..4 * |words|]) == words && k + 8 <= |words|
    ensures WordsFrom(file, 4 * k, words[k..k + 8])
  {
    hide Unpack, WordAt;
    forall j | k <= j < k + 8
      ensures WordAt(file, 4 * j) == words[j]
    {
      WordPlace(file, 4 * |words|, j);
    }
    assert WordAt(file, 4 * (k + 1)) == words[k + 1] && WordAt(file, 4 * (k + 2)) == words[k + 2];
    assert WordAt(file, 4 * (k + 3)) == words[k + 3] && WordAt(file, 4 * (k + 4)) == words[k + 4];
    assert WordAt(file, 4 * (k + 5)) == words[k + 5] && WordAt(file, 4 * (k + 6)) == words[k + 6];
    assert WordAt(file, 4 * (k + 7)) == words[k + 7];
  }

  lemma HeaderPlaces(file: Bytes, words: seq<nat>)
    requires |file| >= 32 && |words| == 8 && Unpack(file[..32]) == words
    ensures WordsFrom(file, 0, words)
  {
    hide Unpack, WordAt;
    RowPlaces(file, words, 0);
    assert words[0..0 + 8] == words;
  }

  lemma HeaderIsStored(file: Bytes, h: Header)
    requires WordsFrom(file, 0, HeaderWords(h))
    ensures HeaderStored(file, h)
  {
    hide WordAt;
  }

  lemma RowIsStored(file: Bytes, o: nat, r: Row)
    requires WordsFrom(file, o, RowWords(r))
    ensures RowStored(file, o, r)
  {
    hide WordAt;
  }

  /** The header that is read is what the file has at its start. */
  lemma HeaderRead(file: Bytes)
    requires |file| >= 32
    ensures HeaderStored(file, HeaderIn(file))
  {
    hide Unpack, WordAt;
    HeaderPlaces(file, Unpack(file[..32]));
  }

  /** Readability, number by number. */
  ghost predicate CanBeRead(file: Bytes) {
    && |file| >= 32
    && (WordAt(file, 0) == 0xd7b7ab1e || WordAt(file, 0) == 0x41435049)
    && WordAt(file, 8) == 32 && WordAt(file, 12) == 32
    && |file| >= 32 + 32 * WordAt(file, 16) && WordAt(file, 20) <= 32
    && (WordAt(file, 16) == 0 || WordAt(file, 28) < 2)
  }

  lemma ReadableIs(file: Bytes)
    ensures Readable(file) <==> CanBeRead(file)
  {
    hide HeaderIn, WordAt;
    if |file| >= 32 {
      HeaderRead(file);
    }
  }

  /** The rows that are read are what the file has from the recorded place on, rounded down to whole words. */
  lemma RowRead(file: Bytes, i: nat)
    requires Readable(file) && i < HeaderIn(file).entryCount
    ensures RowStored(file, WordAt(file, 20) / 4 * 4 + 32 * i, RowIn(file, i))
    ensures Version(RowIn(file, i).fields) == WordAt(file, 28)
  {
    hide HeaderIn, WordAt, Unpack;
    HeaderRead(file);
    var h, words := HeaderIn(file), MetadataIn(file);
    var k := h.entriesOffset / 4 + 8 * i;
    RowPlaces(file, words, k);
    assert 4 * k == WordAt(file, 20) / 4 * 4 + 32 * i;
    hide MetadataIn, RowStored, WordsFrom;
    RowOfWords(h.version, words[k..k + 8]);
    RowIsStored(file, 4 * k, RowIn(file, i));
  }

  lemma RowReadAt(file: Bytes, h: Header, i: nat)
    requires Readable(file) && h == HeaderIn(file) && i < h.entryCount
    ensures RowStored(file, h.entriesOffset / 4 * 4 + 32 * i, RowIn(file, i))
    ensures RowIn(file, i).fields.V0? <==> h.version == 0
  {
    hide HeaderIn, WordAt, RowIn, Readable, RowStored;
    RowRead(file, i);
    Enough(file);
    HeaderRead(file);
  }

  lemma Enough(file: Bytes)
    requires Readable(file)
    ensures |file| >= 32
  {
  }

  lemma RowOfWords(version: nat, w: seq<nat>)
    requires |w| == 8 && version < 2
    ensures RowWords(RowOf(version, w)) == w && Version(RowOf(version, w).fields) == version
  {
    assert w == [w[0], w[1]] + w[2..];
  }

  lemma HeaderRoundTrip(h: Header)
    ensures HeaderOf(HeaderWords(h)) == h
  {
  }

  /** What is written can be read, and says the same. */
  lemma ImageReads(h: Header, rows: seq<Row>, blobs: Bytes)
    requires ImageFits(h, rows) && Standard(h, rows)
    ensures var file := Image(h, rows, blobs);
            && Readable(file) && HeaderIn(file) == h
            && forall i :: 0 <= i < |rows| ==> RowIn(file, i) == rows[i]
  {
    hide ImageFits, Image, Unpack, HeaderWords, RowsWords, RowOf, HeaderOf;
    var file := Image(h, rows, blobs);
    MetadataOf(h, rows, blobs);
    HeaderRoundTrip(h);
    forall i | 0 <= i < |rows|
      ensures RowIn(file, i) == rows[i]
    {
      RowsWordsAt(rows, i);
      RowRoundTrip(rows[i]);
      var words := HeaderWords(h) + RowsWords(rows);
      assert words[8 + 8 * i..8 + 8 * i + 8] == RowsWords(rows)[8 * i..8 * i + 8];
    }
  }

  // ---- The objects ----

  class DtEntry {
    const source: Source
    var size: nat
    var offset: nat

    constructor (source: Source)
      ensures this.source == source && size == 0 && offset == 0
    {
      this.source := source;
      size, offset := 0, 0;
    }

    function Row(): Row
      reads this
    {
      Dtbo.Row(size, offset, source.fields)
    }
  }

  ghost function SourcesOf(list: seq<DtEntry>): seq<Source> {
    seq(|list|, i requires 0 <= i < |list| => list[i].source)
  }

  ghost function RowsOf(list: seq<DtEntry>): seq<Row>
    reads list
  {
    seq(|list|, i requires 0 <= i < |list| reads list => list[i].Row())
  }

  /** The first `k` entries know where their blobs are. */
  ghost predicate Placed(compress: Compressor, list: seq<DtEntry>, base: nat, k: nat)
    reads list
  {
    k <= |list| && forall i :: 0 <= i < k ==>
      list[i].offset == base + BlobOffset(compress, SourcesOf(list), i)
        && list[i].size == |Blob(compress, SourcesOf(list)[Keeper(SourcesOf(list), i)])|
  }

  /** The first entry of the list that is made from the same file. */
  method FindEntryWithSameFile(list: seq<DtEntry>, k: nat, path: string) returns (r: Option<nat>)
    requires k <= |list|
    ensures r == FirstWith(SourcesOf(list)[..k], path)
  {
    ghost var sources := SourcesOf(list)[..k];
    for i := 0 to k
      invariant forall j :: 0 <= j < i ==> sources[j].path != path
    {
      if list[i].source.path == path {
        FirstUnique(sources, path, i);
        return Some(i);
      }
    }
    return None;
  }

  lemma FirstUnique(list: seq<Source>, path: string, i: nat)
    requires i < |list| && list[i].path == path && forall j :: 0 <= j < i ==> list[j].path != path
    ensures FirstWith(list, path) == Some(i)
  {
  }

  lemma NothingPlaced(compress: Compressor, list: seq<DtEntry>, base: nat)
    ensures Placed(compress, list, base, 0) && Stored(compress, SourcesOf(list)[..0]) == []
  {
  }

  /** Records the place of entry `k`; the others keep theirs. */
  method SetPlace(ghost compress: Compressor, list: seq<DtEntry>, ghost base: nat, k: nat, offset: nat, size: nat)
    requires k < |list| && forall i, j :: 0 <= i < j < |list| ==> list[i] != list[j]
    requires Placed(compress, list, base, k)
    modifies list[k]
    ensures list[k].offset == offset && list[k].size == size
    ensures forall j :: 0 <= j < |list| && j != k ==>
            list[j].offset == old(list[j].offset) && list[j].size == old(list[j].size)
    ensures Placed(compress, list, base, k)
  {
    hide BlobOffset, Keeper, Blob;
    list[k].offset, list[k].size := offset, size;
  }

  lemma SharedIs(list: seq<Source>, k: nat, first: Option<nat>)
    requires k < |list| && first == FirstWith(list[..k], list[k].path)
    ensures first.Some? ==> first.value < k
    ensures SharedWith(list, k) == if first.Some? && Format(list[first.value].fields) == Format(list[k].fields)
            then first else None
  {
  }

  /** An entry with a copied place is placed. */
  lemma SharedPlaced(compress: Compressor, list: seq<DtEntry>, base: nat, k: nat, j: nat)
    requires Placed(compress, list, base, k) && j < k < |list|
    requires SharedWith(SourcesOf(list), k) == Some(j)
    requires list[k].offset == list[j].offset && list[k].size == list[j].size
    ensures Placed(compress, list, base, k + 1)
  {
    hide SharedWith, Stored;
    KeeperKeeps(SourcesOf(list), k);
    assert Keeper(SourcesOf(list), j) == j;
  }

  lemma OwnPlaced(compress: Compressor, list: seq<DtEntry>, base: nat, k: nat)
    requires Placed(compress, list, base, k) && k < |list|
    requires SharedWith(SourcesOf(list), k) == None
    requires list[k].offset == base + |Stored(compress, SourcesOf(list)[..k])|
             && list[k].size == |Blob(compress, SourcesOf(list)[k])|
    ensures Placed(compress, list, base, k + 1)
  {
    hide SharedWith, Stored;
  }

  predicate KnownFormat(s: Source) {
    Format(s.fields) <= 2
  }

  method PutWord(a: array<Byte>, o: nat, w: nat)
    requires w < WORD_LIMIT && o + 4 <= a.Length
    modifies a
    ensures a[..] == old(a[..o]) + WordBytes(w) + old(a[o + 4..])
  {
    hide WordBytes;
    var b := WordBytes(w);
    a[o], a[o + 1], a[o + 2], a[o + 3] := b[0], b[1], b[2], b[3];
  }

  /** Writes words into a buffer, in place. */
  method PackInto(a: array<Byte>, o: nat, words: seq<nat>)
    requires Words.Fits(words) && o + 4 * |words| <= a.Length
    modifies a
    ensures a[..] == old(a[..o]) + Pack(words) + old(a[o + 4 * |words|..])
  {
    hide Pack, WordBytes;
    NothingPacked();
    ghost var before := a[..];
    assert before == before[..o] + [] + before[o..];
    for i := 0 to |words|
      invariant a[..] == before[..o] + Pack(words[..i]) + before[o + 4 * i..]
    {
      PackNext(words, i);
      ghost var half := a[..];
      PutWord(a, o + 4 * i, words[i]);
      FourMore(before, half, o, 4 * i, Pack(words[..i]), WordBytes(words[i]));
    }
    assert words[..|words|] == words;
  }

  lemma NothingPacked()
    ensures Pack([]) == []
  {
  }

  lemma PackNext(words: seq<nat>, i: nat)
    requires Words.Fits(words) && i < |words|
    ensures words[i] < WORD_LIMIT && Pack(words[..i + 1]) == Pack(words[..i]) + WordBytes(words[i])
  {
    hide WordBytes;
    assert words[..i + 1][..i] == words[..i];
  }

  lemma FourMore(before: Bytes, half: Bytes, o: nat, n: nat, p: Bytes, b: Bytes)
    requires |p| == n && |b| == 4 && o + n + 4 <= |before|
    requires half == before[..o] + p + before[o + n..]
    ensures |half| == |before| && half[..o + n] + b + half[o + n + 4..] == before[..o] + (p + b) + before[o + (n + 4)..]
  {
    assert half[..o + n] == before[..o] + p;
    assert half[o + n + 4..] == before[o + n + 4..];
  }

  /** The rows from place `o` of a file on say what the entries do. */
  ghost predicate EntriesStored(file: Bytes, o: nat, list: seq<DtEntry>)
    reads list
  {
    forall i: nat :: i < |list| ==> EntryStored(file, o, list, i)
  }

  ghost predicate EntryStored(file: Bytes, o: nat, list: seq<DtEntry>, i: nat)
    requires i < |list|
    reads list
  {
    RowStored(file, o + 32 * i, Dtbo.Row(list[i].size, list[i].offset, list[i].source.fields))
  }

  /** Header and entries are those of a readable file. */
  ghost predicate ReadFrom(file: Bytes, h: Header, list: seq<DtEntry>)
    requires Readable(file)
    reads list
  {
    h == HeaderIn(file) && |list| == h.entryCount && forall i: nat :: i < |list| ==> list[i].Row() == RowIn(file, i)
  }

  class DtboFile {
    const compress: Compressor
    const decompress: Bytes -> Bytes
    var header: Header
    var entries: seq<DtEntry>
    var metadataSize: nat
    var file: Bytes

    constructor Create(magic: nat, pageSize: nat, version: nat, compress: Compressor, decompress: Bytes -> Bytes)
      ensures header == Header(magic, HEADER_SIZE, HEADER_SIZE, ENTRY_SIZE, 0, HEADER_SIZE, pageSize, version)
      ensures entries == [] && metadataSize == HEADER_SIZE && file == []
      ensures this.compress == compress && this.decompress == decompress
    {
      this.compress, this.decompress := compress, decompress;
      header := Header(magic, HEADER_SIZE, HEADER_SIZE, ENTRY_SIZE, 0, HEADER_SIZE, pageSize, version);
      entries, metadataSize, file := [], HEADER_SIZE, [];
    }

    constructor Open(file: Bytes, compress: Compressor, decompress: Bytes -> Bytes)
      ensures this.file == file && entries == [] && metadataSize == 0 && header == Header(0, 0, 0, 0, 0, 0, 0, 0)
      ensures this.compress == compress && this.decompress == decompress
    {
      this.compress, this.decompress := compress, decompress;
      header := Header(0, 0, 0, 0, 0, 0, 0, 0);
      entries, metadataSize, this.file := [], 0, file;
    }

    /** The header of a file under construction counts the entries and the bytes so far. */
    ghost predicate Counts(h0: Header, count: nat, stored: nat)
      reads this
    {
      && header == h0.(entryCount := count, totalSize := HEADER_SIZE + ENTRY_SIZE * count + stored)
      && metadataSize == HEADER_SIZE + ENTRY_SIZE * count
    }

    method BlobOf(s: Source) returns (blob: Bytes)
      ensures blob == Blob(compress, s)
    {
      if Format(s.fields) == 0 {
        blob := s.content;
      } else {
        blob := compress(Format(s.fields), s.content);
      }
    }

    /** Assigns entry `k` its place, and returns what has to be stored for it: nothing if it shares a blob. */
    method PlaceEntry(list: seq<DtEntry>, k: nat, dtOffset: nat, ghost base: nat) returns (r: Result<Bytes>)
      requires k < |list| && forall i, j :: 0 <= i < j < |list| ==> list[i] != list[j]
      requires Placed(compress, list, base, k) && dtOffset == base + |Stored(compress, SourcesOf(list)[..k])|
      requires forall i :: 0 <= i < k ==> KnownFormat(list[i].source)
      modifies list[k]
      ensures if KnownFormat(list[k].source) then r.Ok? else r == Raise("KeyError")
      ensures r.Ok? ==> Placed(compress, list, base, k + 1)
      ensures r.Ok? ==> Stored(compress, SourcesOf(list)[..k + 1]) == Stored(compress, SourcesOf(list)[..k]) + r.value
    {
      hide Stored, SharedWith, Blob, FirstWith, Placed, Keeper, BlobOffset;
      ghost var sources := SourcesOf(list);
      var e := list[k];
      var first := FindEntryWithSameFile(list, k, e.source.path);
      StoredNext(compress, sources, k);
      SharedIs(sources, k, first);
      if first.Some? && Format(list[first.value].source.fields) == Format(e.source.fields) {
        SetPlace(compress, list, base, k, list[first.value].offset, list[first.value].size);
        SharedPlaced(compress, list, base, k, first.value);
        return Ok([]);
      }
      if Format(e.source.fields) > 2 {
        return Raise("KeyError");
      }
      var blob := BlobOf(e.source);
      SetPlace(compress, list, base, k, dtOffset, |blob|);
      OwnPlaced(compress, list, base, k);
      return Ok(blob);
    }

    /** Assigns each entry its place; entries with the same file and format share one blob. */
    method AddDtEntries(list: seq<DtEntry>) returns (r: Result<Bytes>)
      requires entries == [] ==>
               header.headerSize == HEADER_SIZE && header.entrySize == ENTRY_SIZE && Counts(header, 0, 0)
      requires forall i, j :: 0 <= i < j < |list| ==> list[i] != list[j]
      modifies this, list
      ensures r.Ok? <==> list != [] && old(entries) == [] && forall i :: 0 <= i < |list| ==> KnownFormat(list[i].source)
      ensures r.Raise? ==> r.error == if list == [] then "Attempted to add empty list of DT entries"
                                      else if old(entries) != [] then "DTBO DT entries can be added only once"
                                              else "KeyError"
      ensures r.Ok? ==>
                && entries == list
                && r.value == Stored(compress, SourcesOf(list))
                && Placed(compress, list, HEADER_SIZE + ENTRY_SIZE * |list|, |list|)
                && Counts(old(header), |list|, |r.value|)
      ensures file == old(file)
    {
      hide Stored, SharedWith, Blob, FirstWith, Placed, Keeper, BlobOffset;
      if list == [] {
        return Raise("Attempted to add empty list of DT entries");
      }
      if entries != [] {
        return Raise("DTBO DT entries can be added only once");
      }
      ghost var sources, h0 := SourcesOf(list), header;
      var dtOffset := header.headerSize + |list| * header.entrySize;
      ghost var base := dtOffset;
      var buf: Bytes := [];
      NothingPlaced(compress, list, base);
      for k := 0 to |list|
        invariant entries == list[..k] && file == old(file)
        invariant forall i :: 0 <= i < k ==> KnownFormat(list[i].source)
        invariant buf == Stored(compress, sources[..k]) && dtOffset == base + |buf|
        invariant Placed(compress, list, base, k)
        invariant Counts(h0, k, |buf|)
      {
        var blob := PlaceEntry(list, k, dtOffset, base);
        if blob.Raise? {
          return blob;
        }
        buf := buf + blob.value;
        dtOffset := dtOffset + |blob.value|;
        header := header.(totalSize := header.totalSize + |blob.value|);
        entries := entries + [list[k]];
        header := header.(entryCount := header.entryCount + 1, totalSize := header.totalSize + header.entrySize);
        metadataSize := metadataSize + header.entrySize;
      }
      assert sources[..|list|] == sources;
      assert list[..|list|] == list;
      return Ok(buf);
    }

    /** Fills the metadata buffer: the rows first, then the header. Fails if some number does not fit into its word. */
    method UpdateMetadata() returns (ok: bool, metadata: array<Byte>)
      requires header.headerSize == HEADER_SIZE && header.entrySize == ENTRY_SIZE
               && metadataSize == HEADER_SIZE + ENTRY_SIZE * |entries|
      ensures fresh(metadata)
      ensures ok <==> ImageFits(header, RowsOf(entries))
      ensures ok ==> metadata[..] == Pack(HeaderWords(header)) + Pack(RowsWords(RowsOf(entries)))
    {
      hide Pack, HeaderWords, RowWords, RowsWords;
      metadata := new Byte[metadataSize](_ => 32);
      ghost var rows := RowsOf(entries);
      var metadataOffset := header.headerSize;
      NoRows();
      for i := 0 to |entries|
        invariant metadataOffset == HEADER_SIZE + ENTRY_SIZE * i && metadata.Length == metadataSize
        invariant Words.Fits(RowsWords(rows[..i]))
        invariant metadata[HEADER_SIZE..metadataOffset] == Pack(RowsWords(rows[..i]))
        invariant RowsOf(entries) == rows
      {
        var words := RowWords(entries[i].Row());
        RowsWordsNext(rows, i);
        if !Words.Fits(words) {
          RowUnfit(rows, i);
          return false, metadata;
        }
        PackConcat(RowsWords(rows[..i]), words);
        ghost var before := metadata[..];
        PackInto(metadata, metadataOffset, words);
        Append(before, metadata[..], HEADER_SIZE, metadataOffset, Pack(words), before[metadataOffset + 4 * |words|..]);
        metadataOffset := metadataOffset + header.entrySize;
      }
      assert rows[..|entries|] == rows;
      if !Words.Fits(HeaderWords(header)) {
        return false, metadata;
      }
      ghost var before := metadata[..];
      PackInto(metadata, 0, HeaderWords(header));
      assert before[32..] == before[HEADER_SIZE..metadataOffset] && before[..0] == [];
      assert [] + Pack(HeaderWords(header)) == Pack(HeaderWords(header));
      return true, metadata;
    }

    /** Writes the image file. */
    method Commit(buf: Bytes) returns (ok: bool)
      requires header.headerSize == HEADER_SIZE && header.entrySize == ENTRY_SIZE
               && metadataSize == HEADER_SIZE + ENTRY_SIZE * |entries|
      modifies this`file
      ensures ok <==> entries != [] && ImageFits(header, RowsOf(entries))
      ensures ok ==> file == Image(header, RowsOf(entries), buf)
      ensures ok ==> HeaderStored(file, header) && EntriesStored(file, 32, entries)
      ensures ok ==> |file| == 32 + 32 * |entries| + |buf| && file[32 + 32 * |entries|..] == buf
    {
      hide ImageFits, Pack, HeaderWords, RowsWords, HeaderStored, RowStored;
      if entries == [] {
        return false;
      }
      var done, metadata := UpdateMetadata();
      if !done {
        return false;
      }
      file := metadata[..];
      file := file + buf;
      ImageWritten(header, RowsOf(entries), buf);
      forall i: nat | i < |entries|
        ensures EntryStored(file, 32, entries, i)
      {
        assert RowStored(file, 32 + 32 * i, RowsOf(entries)[i]);
      }
      return true;
    }

    /** The properties of an entry are read as numbers, written as text, and parsed again. */
    method ReadProps(words: seq<nat>) returns (props: seq<nat>)
      requires |words| == 8
      ensures props == words[2..]
    {
      hide ParseNumber, Decimal;
      props := [];
      for j := 2 to 8
        invariant props == words[2..j]
      {
        ParseDecimal(words[j]);
        props := props + [ParseNumber(Decimal(words[j])).value];
      }
    }

    /** Reads the file; succeeds exactly if it is readable. */
    method Load() returns (ok: bool)
      requires entries == []
      modifies this`header, this`entries, this`metadataSize
      ensures ok <==> Readable(file)
      ensures ok <==> CanBeRead(file)
      ensures ok ==> fresh(entries) && ReadFrom(file, header, entries)
      ensures ok ==> HeaderStored(file, header)
      ensures ok ==> EntriesStored(file, header.entriesOffset / 4 * 4, entries)
      ensures ok ==> forall i :: 0 <= i < |entries| ==> (entries[i].source.fields.V0? <==> header.version == 0)
    {
      hide Unpack, RowOf, HeaderOf, CanBeRead, HeaderStored, RowStored, WordAt, Version;
      ReadableIs(file);
      if |file| < HEADER_SIZE {
        return false;
      }
      header := HeaderOf(Unpack(file[..HEADER_SIZE]));
      if (header.magic != DTBO_MAGIC && header.magic != ACPIO_MAGIC) || header.headerSize != HEADER_SIZE
         || header.entrySize != ENTRY_SIZE {
        return false;
      }
      metadataSize := header.headerSize + header.entryCount * header.entrySize;
      if |file| < metadataSize || header.entriesOffset > HEADER_SIZE {
        return false;
      }
      ok := LoadEntries(Unpack(file[..metadataSize]));
      HeaderRead(file);
      if ok {
        forall i: nat | i < |entries|
          ensures EntryStored(file, header.entriesOffset / 4 * 4, entries, i)
          ensures entries[i].source.fields.V0? <==> header.version == 0
        {
          RowReadAt(file, header, i);
        }
      }
    }

    method LoadEntries(metadata: seq<nat>) returns (ok: bool)
      requires entries == [] && |metadata| == 8 + 8 * header.entryCount && header.entriesOffset <= HEADER_SIZE
      modifies this`entries
      ensures ok <==> header.entryCount == 0 || header.version < 2
      ensures ok ==> |entries| == header.entryCount && fresh(entries)
      ensures ok ==> forall i :: 0 <= i < |entries| ==> entries[i].Row() == RowAt(header, metadata, i)
    {
      var offset := header.entriesOffset / 4;
      ghost var first := offset;
      for i := 0 to header.entryCount
        invariant offset == first + 8 * i && |entries| == i && fresh(entries)
        invariant i > 0 ==> header.version < 2
        invariant forall k :: 0 <= k < i ==>
                  entries[k].Row() == RowOf(header.version, metadata[first + 8 * k..first + 8 * k + 8])
      {
        hide RowOf, FieldsOf;
        if header.version >= 2 {
          return false;
        }
        var words := metadata[offset..offset + 8];
        var props := ReadProps(words);
        var e := new DtEntry(Source("", [], FieldsOf(header.version, props)));
        e.size, e.offset := words[0], words[1];
        RowIs(header.version, words);
        entries := entries + [e];
        offset := offset + 8;
      }
      return true;
    }

    /**
     * The bytes of one entry, decompressed if asked for; the guard lets the index just behind the last one
     * through to fail later.
     */
    method ExtractDtFile(idx: nat, decompressIt: bool) returns (r: Result<Bytes>)
      ensures idx > header.entryCount ==> r == Raise("Invalid index of DtEntry")
      ensures |entries| <= idx <= header.entryCount ==> r == Raise("IndexError")
      ensures idx < |entries| && idx <= header.entryCount ==>
              r == Extracted(file, entries[idx].Row(), decompressIt, decompress)
    {
      if idx > header.entryCount {
        return Raise("Invalid index of DtEntry");
      }
      if idx >= |entries| {
        return Raise("IndexError");
      }
      var row := entries[idx].Row();
      var format := Format(row.fields);
      if decompressIt && format != 0 {
        if format == 1 || format == 2 {
          return Ok(decompress(Slice(file, row.offset, row.size)));
        }
        return Raise("Unknown compression format detected");
      }
      return Ok(Slice(file, row.offset, row.size));
    }
  }

  lemma RowIs(version: nat, words: seq<nat>)
    requires |words| == 8 && version < 2
    ensures Dtbo.Row(words[0], words[1], FieldsOf(version, words[2..])) == RowOf(version, words)
  {
  }

  /** What reading `size` bytes from `offset` on yields. */
  function Slice(file: Bytes, offset: nat, size: nat): Bytes {
    if offset > |file| then [] else if offset + size > |file| then file[offset..] else file[offset..offset + size]
  }

  /** The bytes from there on, as many as asked for or as there are. */
  lemma SliceIs(file: Bytes, offset: nat, size: nat)
    ensures |Slice(file, offset, size)| == Max(0, Min(size, |file| - offset))
    ensures forall i :: 0 <= i < |Slice(file, offset, size)| ==> Slice(file, offset, size)[i] == file[offset + i]
  {
  }

  function Extracted(file: Bytes, row: Row, decompressIt: bool, decompress: Bytes -> Bytes): Result<Bytes> {
    var bytes := Slice(file, row.offset, row.size);
    if !decompressIt || Format(row.fields) == 0 then Ok(bytes)
    else if Format(row.fields) <= 2 then Ok(decompress(bytes))
    else Raise("Unknown compression format detected")
  }

  lemma NoRows()
    ensures RowsWords([]) == [] && Pack([]) == []
  {
  }

  lemma RowsWordsNext(rows: seq<Row>, i: nat)
    requires i < |rows|
    ensures RowsWords(rows[..i + 1]) == RowsWords(rows[..i]) + RowWords(rows[i])
  {
    hide RowWords;
    assert rows[..i + 1][..i] == rows[..i];
  }

  lemma RowUnfit(rows: seq<Row>, i: nat)
    requires i < |rows| && !Words.Fits(RowWords(rows[i]))
    ensures !Words.Fits(RowsWords(rows))
  {
    hide RowWords;
    RowsWordsAt(rows, i);
    var w := RowWords(rows[i]);
    var k :| 0 <= k < |w| && w[k] >= WORD_LIMIT;
    assert RowsWords(rows)[8 * i..8 * i + 8][k] == RowsWords(rows)[8 * i + k];
  }

  lemma Append(before: Bytes, after: Bytes, start: nat, o: nat, b: Bytes, rest: Bytes)
    requires start <= o <= |before| && after == before[..o] + b + rest
    ensures after[start..o + |b|] == before[start..o] + b
  {
    assert after[..o + |b|] == before[..o] + b;
    assert after[start..o + |b|] == after[..o + |b|][start..];
  }

  // ---- From files to an image and back ----

  ghost predicate Inverse(compress: Compressor, decompress: Bytes -> Bytes) {
    forall f, b :: decompress(compress(f, b)) == b
  }

  /** The rows that the writer records for these files. */
  ghost function RowsFor(compress: Compressor, list: seq<Source>): seq<Row> {
    seq(|list|, i requires 0 <= i < |list| =>
      Dtbo.Row(|Blob(compress, list[Keeper(list, i)])|,
               HEADER_SIZE + ENTRY_SIZE * |list| + BlobOffset(compress, list, i), list[i].fields))
  }

  ghost function HeaderFor(magic: nat, pageSize: nat, version: nat, count: nat, stored: nat): Header {
    Header(magic, HEADER_SIZE + ENTRY_SIZE * count + stored, HEADER_SIZE, ENTRY_SIZE, count, HEADER_SIZE, pageSize,
           version)
  }

  lemma StandardRows(compress: Compressor, list: seq<Source>, magic: nat, pageSize: nat, version: nat, stored: nat)
    requires magic == DTBO_MAGIC || magic == ACPIO_MAGIC
    requires version < 2 && forall i :: 0 <= i < |list| ==> Version(list[i].fields) == version
    ensures Standard(HeaderFor(magic, pageSize, version, |list|, stored), RowsFor(compress, list))
  {
    hide Blob, Keeper, BlobOffset;
  }

  lemma SliceOfBlobs(file: Bytes, stored: Bytes, base: nat, o: nat, size: nat)
    requires base <= |file| && file[base..] == stored && o + size <= |stored|
    ensures Slice(file, base + o, size) == stored[o..o + size]
  {
    assert file[base..][o..o + size] == file[base + o..base + o + size];
  }

  lemma Unpacked(compress: Compressor, decompress: Bytes -> Bytes, s: Source)
    requires Inverse(compress, decompress) && KnownFormat(s)
    ensures Format(s.fields) != 0 ==> decompress(Blob(compress, s)) == s.content
    ensures Format(s.fields) == 0 ==> Blob(compress, s) == s.content
  {
  }

  /** The bytes of a file as they are stored: compressed in the format that its flags ask for, if they do. */
  ghost function Compressed(compress: Compressor, s: Source): Bytes {
    match s.fields
    case V0(_, _, _, _, _, _) => s.content
    case V1(_, _, flags, _, _, _) => if flags % 16 == 0 then s.content else compress(flags % 16, s.content)
  }

  /** Row `i` of an image has the properties given for the file, and the place and size of its bytes in the image. */
  ghost predicate FileStored(image: Bytes, compress: Compressor, s: Source, i: nat) {
    && 64 + 32 * i <= |image|
    && var size, offset := WordAt(image, 32 + 32 * i), WordAt(image, 36 + 32 * i);
       && RowStored(image, 32 + 32 * i, Dtbo.Row(size, offset, s.fields))
       && offset + size <= |image| && image[offset..offset + size] == Compressed(compress, s)
  }

  lemma FileIsStored(compress: Compressor, h: Header, list: seq<Source>, i: nat)
    requires StableFiles(list) && i < |list| && ImageFits(h, RowsFor(compress, list))
    ensures FileStored(Image(h, RowsFor(compress, list), Stored(compress, list)), compress, list[i], i)
  {
    hide ImageFits, Image, Stored, BlobOffset, Keeper, RowsWords, HeaderWords, StableFiles, Blob, WordAt, HeaderStored;
    var rows, stored := RowsFor(compress, list), Stored(compress, list);
    var image := Image(h, rows, stored);
    ImageWritten(h, rows, stored);
    assert RowStored(image, 32 + 32 * i, rows[i]);
    BlobFound(compress, list, i);
    CompressedIs(compress, list[i]);
    var o, n := BlobOffset(compress, list, i), |Blob(compress, list[i])|;
    assert image[32 + 32 * |list|..][o..o + n] == image[32 + 32 * |list| + o..32 + 32 * |list| + o + n];
  }

  lemma CompressedIs(compress: Compressor, s: Source)
    ensures Blob(compress, s) == Compressed(compress, s)
  {
  }

  /** Extracting an entry without decompressing it yields its bytes as they are stored. */
  lemma ExtractsStored(compress: Compressor, decompress: Bytes -> Bytes, h: Header, list: seq<Source>, i: nat)
    requires StableFiles(list) && i < |list| && ImageFits(h, RowsFor(compress, list))
    ensures var rows := RowsFor(compress, list);
            Extracted(Image(h, rows, Stored(compress, list)), rows[i], false, decompress)
            == Ok(Compressed(compress, list[i]))
  {
    hide ImageFits, Image, Stored, BlobOffset, Keeper, RowsWords, HeaderWords, StableFiles, Slice, Blob;
    var rows := RowsFor(compress, list);
    var stored := Stored(compress, list);
    MetadataOf(h, rows, stored);
    BlobFound(compress, list, i);
    SliceOfBlobs(Image(h, rows, stored), stored, 32 + 32 * |list|, BlobOffset(compress, list, i),
                 |Blob(compress, list[i])|);
    CompressedIs(compress, list[i]);
  }

  /** Extracting an entry from the image yields the file it was made from. */
  lemma ExtractsOriginal(compress: Compressor, decompress: Bytes -> Bytes, h: Header, list: seq<Source>, i: nat)
    requires Inverse(compress, decompress) && StableFiles(list)
    requires i < |list| && KnownFormat(list[i])
    requires ImageFits(h, RowsFor(compress, list))
    ensures var rows := RowsFor(compress, list);
            Extracted(Image(h, rows, Stored(compress, list)), rows[i], true, decompress) == Ok(list[i].content)
  {
    hide Inverse, ImageFits, Image, Stored, BlobOffset, Keeper, RowsWords, HeaderWords, StableFiles, Slice, Blob;
    var rows := RowsFor(compress, list);
    var stored := Stored(compress, list);
    MetadataOf(h, rows, stored);
    BlobFound(compress, list, i);
    SliceOfBlobs(Image(h, rows, stored), stored, 32 + 32 * |list|, BlobOffset(compress, list, i),
                 |Blob(compress, list[i])|);
    Unpacked(compress, decompress, list[i]);
  }

  method NewEntries(list: seq<Source>) returns (entries: seq<DtEntry>)
    ensures |entries| == |list| && fresh(entries)
    ensures forall i :: 0 <= i < |list| ==> entries[i].source == list[i]
    ensures forall i, j :: 0 <= i < j < |entries| ==> entries[i] != entries[j]
  {
    entries := [];
    for k := 0 to |list|
      invariant |entries| == k && fresh(entries)
      invariant forall i :: 0 <= i < k ==> entries[i].source == list[i]
      invariant forall i, j :: 0 <= i < j < k ==> entries[i] != entries[j]
    {
      var e := new DtEntry(list[k]);
      entries := entries + [e];
    }
  }

  lemma SourcesAgree(entries: seq<DtEntry>, list: seq<Source>)
    requires |entries| == |list| && forall i :: 0 <= i < |list| ==> entries[i].source == list[i]
    ensures SourcesOf(entries) == list
  {
  }

  lemma RowsAgree(compress: Compressor, entries: seq<DtEntry>, list: seq<Source>)
    requires SourcesOf(entries) == list && Placed(compress, entries, HEADER_SIZE + ENTRY_SIZE * |entries|, |entries|)
    ensures RowsOf(entries) == RowsFor(compress, list)
  {
    hide BlobOffset, Keeper, Blob;
    assert |entries| == |list|;
    forall i | 0 <= i < |list|
      ensures RowsOf(entries)[i] == RowsFor(compress, list)[i]
    {
      assert entries[i].source == SourcesOf(entries)[i];
    }
  }

  lemma HeaderIs(magic: nat, pageSize: nat, version: nat, count: nat, stored: nat)
    ensures HeaderFor(magic, pageSize, version, count, stored) ==
            Header(magic, HEADER_SIZE, HEADER_SIZE, ENTRY_SIZE, 0, HEADER_SIZE, pageSize, version).(
              entryCount := count, totalSize := HEADER_SIZE + ENTRY_SIZE * count + stored)
  {
  }

  /** Reads an image back and extracts all its entries. */
  method DumpAll(file: Bytes, ghost list: seq<Source>, ghost h: Header, compress: Compressor,
                 decompress: Bytes -> Bytes) returns (extracted: seq<Bytes>)
    requires Inverse(compress, decompress) && StableFiles(list) && forall i :: 0 <= i < |list| ==> KnownFormat(list[i])
    requires ImageFits(h, RowsFor(compress, list)) && Standard(h, RowsFor(compress, list))
    requires file == Image(h, RowsFor(compress, list), Stored(compress, list))
    ensures |extracted| == |list| && forall i :: 0 <= i < |list| ==> extracted[i] == list[i].content
  {
    hide ImageFits, Image, Stored, Readable, HeaderIn, RowIn, RowsFor, StableFiles, Inverse, Extracted, KnownFormat;
    ImageReads(h, RowsFor(compress, list), Stored(compress, list));
    RowCount(compress, list);
    var reader := new DtboFile.Open(file, compress, decompress);
    var loaded := reader.Load();
    extracted := [];
    for i := 0 to |reader.entries|
      invariant |extracted| == i && forall k :: 0 <= k < i ==> extracted[k] == list[k].content
      modifies {}
    {
      ExtractsOriginal(compress, decompress, h, list, i);
      assert reader.entries[i].Row() == RowIn(file, i) == RowsFor(compress, list)[i];
      var r := reader.ExtractDtFile(i, true);
      extracted := extracted + [r.value];
    }
  }

  lemma RowCount(compress: Compressor, list: seq<Source>)
    ensures |RowsFor(compress, list)| == |list|
  {
  }

  lemma ImageLength(h: Header, rows: seq<Row>, blobs: Bytes)
    requires ImageFits(h, rows)
    ensures |Image(h, rows, blobs)| == HEADER_SIZE + ENTRY_SIZE * |rows| + |blobs|
  {
    MetadataOf(h, rows, blobs);
  }

  /**
   * Creates an image from files, reads it back and extracts everything. It succeeds exactly if there
   * are entries, their formats are known and all numbers fit; then the image says what was given, its
   * recorded size is its length, and every file comes out as it went in.
   */
  method CreateAndDump(list: seq<Source>, magic: nat, pageSize: nat, version: nat, compress: Compressor,
                       decompress: Bytes -> Bytes)
    returns (ok: bool, file: Bytes, extracted: seq<Bytes>)
    requires magic == DTBO_MAGIC || magic == ACPIO_MAGIC
    requires version < 2 && forall i :: 0 <= i < |list| ==> Version(list[i].fields) == version
    requires Inverse(compress, decompress) && StableFiles(list)
    ensures ok <==>
              && list != [] && (forall i :: 0 <= i < |list| ==> KnownFormat(list[i]))
              && ImageFits(HeaderFor(magic, pageSize, version, |list|, |Stored(compress, list)|),
                           RowsFor(compress, list))
    ensures ok ==>
              && Readable(file)
              && HeaderIn(file) == HeaderFor(magic, pageSize, version, |list|, |Stored(compress, list)|)
              && HeaderIn(file).totalSize == |file|
              && forall i :: 0 <= i < |list| ==> RowIn(file, i) == RowsFor(compress, list)[i]
    ensures ok ==>
              && HeaderStored(file, Header(magic, |file|, 32, 32, |list|, 32, pageSize, version))
              && forall i: nat :: i < |list| ==> FileStored(file, compress, list[i], i)
    ensures ok ==> |extracted| == |list| && forall i :: 0 <= i < |list| ==> extracted[i] == list[i].content
  {
    hide ImageFits, Image, Stored, Readable, HeaderIn, RowIn, Placed, RowsFor, StableFiles, Inverse, Extracted,
         HeaderFor, Standard, HeaderStored, FileStored, EntriesStored;
    file, extracted := [], [];
    var entries := NewEntries(list);
    var writer := new DtboFile.Create(magic, pageSize, version, compress, decompress);
    var buf := writer.AddDtEntries(entries);
    SourcesAgree(entries, list);
    if buf.Raise? {
      return false, file, extracted;
    }
    HeaderIs(magic, pageSize, version, |list|, |buf.value|);
    RowsAgree(compress, entries, list);
    var committed := writer.Commit(buf.value);
    if !committed {
      return false, file, extracted;
    }
    file := writer.file;
    ghost var h, rows := HeaderFor(magic, pageSize, version, |list|, |buf.value|), RowsFor(compress, list);
    StandardRows(compress, list, magic, pageSize, version, |buf.value|);
    ImageReads(h, rows, buf.value);
    ImageLength(h, rows, buf.value);
    RowCount(compress, list);
    forall i: nat | i < |list|
      ensures FileStored(file, compress, list[i], i)
    {
      FileIsStored(compress, h, list, i);
    }
    extracted := DumpAll(file, list, h, compress, decompress);
    ok := true;
  }
}
