/** Image files and entries on which the tool does not do what its description says. */
module DtboExamples {
  import opened Collections
  import opened Words
  import opened Dtbo
  import opened DtboImage

  /** The header is valid and the rows lie behind it, where it says, all within the file. */
  predicate WellFormed(file: Bytes) {
    && |file| >= HEADER_SIZE
    && var h := HeaderIn(file);
       && (h.magic == DTBO_MAGIC || h.magic == ACPIO_MAGIC)
       && h.headerSize == HEADER_SIZE && h.entrySize == ENTRY_SIZE && h.version < 2
       && HEADER_SIZE <= h.entriesOffset && h.entriesOffset % 4 == 0
       && h.entriesOffset + h.entryCount * ENTRY_SIZE <= |file|
  }

  /** Of the well-formed files, exactly those whose rows follow the header at once can be read. */
  lemma ReadableExactly(file: Bytes)
    requires WellFormed(file)
    ensures Readable(file) <==> HeaderIn(file).entriesOffset == HEADER_SIZE
  {
    hide HeaderIn;
  }

  const BARE := Row(0, 68, V0(1, 2, 0, 0, 0, 0))

  /** A header, four bytes, and one row. */
  function Gapped(): Bytes {
    Pack([DTBO_MAGIC, 68, 32, 32, 1, 36, 2048, 0]) + ([0, 0, 0, 0] + Pack(RowWords(BARE)))
  }

  /** A header followed by one row. */
  function Tight(): Bytes {
    Pack([DTBO_MAGIC, 64, 32, 32, 1, 32, 2048, 0]) + Pack(RowWords(BARE))
  }

  /** The header of that file, byte by byte. */
  lemma TightBytes()
    ensures var file := Tight();
            && file[0..4] == [0xd7, 0xb7, 0xab, 0x1e]
            && file[4..8] == [0, 0, 0, 64] && file[8..12] == [0, 0, 0, 32] && file[12..16] == [0, 0, 0, 32]
            && file[16..20] == [0, 0, 0, 1] && file[20..24] == [0, 0, 0, 32] && file[24..28] == [0, 0, 8, 0]
            && file[28..32] == [0, 0, 0, 0]
  {
    hide Tight;
    forall w: nat | w in {DTBO_MAGIC, 64, 32, 1, 2048, 0}
      ensures WordBytes(w) == if w == DTBO_MAGIC then [0xd7, 0xb7, 0xab, 0x1e]
              else if w == 2048 then [0, 0, 8, 0] else [0, 0, 0, w]
    {
    }
    TightWord(0);
    TightWord(1);
    TightWord(2);
    TightWord(3);
    TightWord(4);
    TightWord(5);
    TightWord(6);
    TightWord(7);
  }

  lemma TightWord(k: nat)
    requires k < 8
    ensures Tight()[4 * k..4 * k + 4] == WordBytes([DTBO_MAGIC, 64, 32, 32, 1, 32, 2048, 0][k])
  {
    hide Pack, WordBytes;
    var words := [DTBO_MAGIC, 64, 32, 32, 1, 32, 2048, 0];
    PackedBytes(words, k);
    assert Tight()[4 * k..4 * k + 4] == Pack(words)[4 * k..4 * k + 4];
  }

  lemma HeaderOfPacked(words: seq<nat>, rest: Bytes)
    requires |words| == 8 && Words.Fits(words)
    ensures HeaderIn(Pack(words) + rest) == HeaderOf(words)
  {
    hide Pack, Unpack;
    UnpackPack(words);
    assert (Pack(words) + rest)[..32] == Pack(words);
  }

  /** A well-formed file that can never be read. */
  lemma GapIsUnreadable()
    ensures WellFormed(Gapped()) && !Readable(Gapped())
    ensures WellFormed(Tight()) && Readable(Tight()) && HeaderIn(Tight()).entryCount == 1
  {
    hide Pack, HeaderIn;
    HeaderOfPacked([DTBO_MAGIC, 68, 32, 32, 1, 36, 2048, 0], [0, 0, 0, 0] + Pack(RowWords(BARE)));
    HeaderOfPacked([DTBO_MAGIC, 64, 32, 32, 1, 32, 2048, 0], Pack(RowWords(BARE)));
    ReadableExactly(Gapped());
    ReadableExactly(Tight());
  }

  /** In any readable file, the index just behind the last entry passes the check for valid indices and fails later. */
  method IndexBehindLast(file: Bytes, decompressIt: bool, compress: Compressor, decompress: Bytes -> Bytes)
    returns (last: Result<Bytes>, further: Result<Bytes>)
    requires Readable(file)
    ensures last == Raise("IndexError") && further == Raise("Invalid index of DtEntry")
  {
    hide Readable;
    var reader := new DtboFile.Open(file, compress, decompress);
    var _ := reader.Load();
    last := reader.ExtractDtFile(reader.header.entryCount, decompressIt);
    further := reader.ExtractDtFile(reader.header.entryCount + 1, decompressIt);
  }

  /** An entry asking for compression format 3 is not told so. */
  method UnknownFormat(compress: Compressor, decompress: Bytes -> Bytes) returns (r: Result<Bytes>)
    ensures r == Raise("KeyError")
  {
    var e := new DtEntry(Source("overlay.dtb", [1], V1(0, 0, 3, 0, 0, 0)));
    var writer := new DtboFile.Create(DTBO_MAGIC, 2048, 1, compress, decompress);
    assert !KnownFormat([e][0].source);
    r := writer.AddDtEntries([e]);
  }
}
