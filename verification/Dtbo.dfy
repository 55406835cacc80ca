/**
 * The layout of a device tree overlay image: a header, one row for each entry, and the blobs that the rows
 * point to.
 */
module Dtbo {
  import opened Collections
  import opened Words

  const DTBO_MAGIC := 0xd7b7ab1e
  const ACPIO_MAGIC := 0x41435049
  const HEADER_SIZE := 32
  const ENTRY_SIZE := 32

  // ---- Entries ----

  /** The properties of an entry; version 1 has flags in place of the last custom word. */
  datatype Fields =
    | V0(id: nat, rev: nat, custom0: nat, custom1: nat, custom2: nat, custom3: nat)
    | V1(id: nat, rev: nat, flags: nat, custom0: nat, custom1: nat, custom2: nat)

  function Version(f: Fields): nat {
    if f.V0? then 0 else 1
  }

  /** No compression, zlib or gzip; only version 1 has the choice. */
  function Format(f: Fields): nat {
    if f.V0? then 0 else f.flags % 16
  }

  function Props(f: Fields): (p: seq<nat>)
    ensures |p| == 6
  {
    match f
    case V0(id, rev, custom0, custom1, custom2, custom3) => [id, rev, custom0, custom1, custom2, custom3]
    case V1(id, rev, flags, custom0, custom1, custom2) => [id, rev, flags, custom0, custom1, custom2]
  }

  function FieldsOf(version: nat, p: seq<nat>): Fields
    requires |p| == 6 && version < 2
  {
    if version == 0 then V0(p[0], p[1], p[2], p[3], p[4], p[5]) else V1(p[0], p[1], p[2], p[3], p[4], p[5])
  }

  datatype Row = Row(size: nat, offset: nat, fields: Fields)

  function RowWords(r: Row): (w: seq<nat>)
    ensures |w| == 8
  {
    [r.size, r.offset] + Props(r.fields)
  }

  function RowOf(version: nat, w: seq<nat>): Row
    requires |w| == 8 && version < 2
  {
    Row(w[0], w[1], FieldsOf(version, w[2..]))
  }

  lemma RowRoundTrip(r: Row)
    ensures RowOf(Version(r.fields), RowWords(r)) == r
  {
    assert RowWords(r)[2..] == Props(r.fields);
  }

  function RowsWords(rows: seq<Row>): (w: seq<nat>)
    ensures |w| == 8 * |rows|
  {
    if rows == [] then [] else RowsWords(rows[..|rows| - 1]) + RowWords(rows[|rows| - 1])
  }

  lemma {:induction false} RowsWordsAt(rows: seq<Row>, i: nat)
    requires i < |rows|
    ensures RowsWords(rows)[8 * i..8 * i + 8] == RowWords(rows[i])
  {
    hide RowWords;
    var n := |rows| - 1;
    if i < n {
      RowsWordsAt(rows[..n], i);
      assert RowsWords(rows)[8 * i..8 * i + 8] == RowsWords(rows[..n])[8 * i..8 * i + 8];
    }
  }

  // ---- The header ----

  datatype Header = Header(magic: nat, totalSize: nat, headerSize: nat, entrySize: nat, entryCount: nat,
                           entriesOffset: nat, pageSize: nat, version: nat)

  function HeaderWords(h: Header): (w: seq<nat>)
    ensures |w| == 8
  {
    [h.magic, h.totalSize, h.headerSize, h.entrySize, h.entryCount, h.entriesOffset, h.pageSize, h.version]
  }

  function HeaderOf(w: seq<nat>): Header
    requires |w| >= 8
  {
    Header(w[0], w[1], w[2], w[3], w[4], w[5], w[6], w[7])
  }

  // ---- Blobs ----

  /** What an entry is made from: a file and the properties to record for it. */
  datatype Source = Source(path: string, content: Bytes, fields: Fields)

  type Compressor = (nat, Bytes) -> Bytes

  function Blob(compress: Compressor, s: Source): Bytes {
    if Format(s.fields) == 0 then s.content else compress(Format(s.fields), s.content)
  }

  /** The first entry with the same file. */
  function FirstWith(list: seq<Source>, path: string): (r: Option<nat>)
    ensures r.Some? ==> r.value < |list| && list[r.value].path == path
    ensures r.Some? ==> forall j :: 0 <= j < r.value ==> list[j].path != path
    ensures r.None? ==> forall j :: 0 <= j < |list| ==> list[j].path != path
  {
    if list == [] then None
    else
      var r := FirstWith(list[..|list| - 1], path);
      if r.Some? then r
      else if list[|list| - 1].path == path then Some(|list| - 1)
      else None
  }

  /** The first entry with the same file that comes before this one, if it is stored in the same format. */
  function SharedWith(list: seq<Source>, i: nat): (r: Option<nat>)
    requires i < |list|
    ensures r.Some? ==> r.value < i
  {
    var first := FirstWith(list[..i], list[i].path);
    if first.Some? && Format(list[first.value].fields) == Format(list[i].fields) then first else None
  }

  /**
   * An entry shares the blob of an earlier one exactly if that is the first one with the same file, and both ask for
   * the same compression, which is in the lowest four bits of the flags.
   */
  lemma SharedExactly(list: seq<Source>, i: nat, j: nat)
    requires j < i < |list|
    ensures SharedWith(list, i) == Some(j) <==>
            && list[j].path == list[i].path && (forall k :: 0 <= k < j ==> list[k].path != list[i].path)
            && (if list[j].fields.V0? then 0 else list[j].fields.flags % 16)
               == (if list[i].fields.V0? then 0 else list[i].fields.flags % 16)
  {
    var first := FirstWith(list[..i], list[i].path);
    if first.Some? {
      assert list[..i][j] == list[j] && list[..i][first.value] == list[first.value];
      assert forall k :: 0 <= k < i ==> list[..i][k] == list[k];
    }
  }

  /** The blobs of all entries that do not share one, one after the other. */
  function Stored(compress: Compressor, list: seq<Source>): Bytes {
    if list == [] then []
    else
      var n := |list| - 1;
      Stored(compress, list[..n]) + if SharedWith(list, n).Some? then [] else Blob(compress, list[n])
  }

  /** The entry whose blob this one uses. */
  function Keeper(list: seq<Source>, i: nat): (k: nat)
    requires i < |list|
    ensures k <= i
  {
    var shared := SharedWith(list, i);
    if shared.Some? then shared.value else i
  }

  function BlobOffset(compress: Compressor, list: seq<Source>, i: nat): nat
    requires i < |list|
  {
    |Stored(compress, list[..Keeper(list, i)])|
  }

  /** Reading the same path twice gives the same bytes. */
  ghost predicate StableFiles(list: seq<Source>) {
    forall i, j :: 0 <= i < |list| && 0 <= j < |list| && list[i].path == list[j].path ==>
      list[i].content == list[j].content
  }

  lemma {:induction false} StoredGrows(compress: Compressor, list: seq<Source>, i: nat)
    requires i <= |list|
    ensures Stored(compress, list[..i]) <= Stored(compress, list)
    decreases |list|
  {
    if i < |list| {
      var n := |list| - 1;
      StoredGrows(compress, list[..n], i);
      assert list[..n][..i] == list[..i];
    } else {
      assert list[..i] == list;
    }
  }

  lemma SharedInPrefix(list: seq<Source>, i: nat, n: nat)
    requires i < n <= |list|
    ensures SharedWith(list[..n], i) == SharedWith(list, i)
  {
    assert list[..n][..i] == list[..i];
  }

  /** The entry that another one shares its blob with shares it with nobody before itself. */
  lemma KeeperKeeps(list: seq<Source>, i: nat)
    requires i < |list|
    ensures SharedWith(list, Keeper(list, i)).None?
    ensures list[Keeper(list, i)].path == list[i].path
    ensures Format(list[Keeper(list, i)].fields) == Format(list[i].fields)
  {
    var j := Keeper(list, i);
    if j < i {
      assert list[..i][j] == list[j];
      assert forall k :: 0 <= k < j ==> list[..j][k] == list[..i][k];
    }
  }

  /** Every entry finds the blob of its file, in its format, where its row says it is, shared or not. */
  lemma BlobFound(compress: Compressor, list: seq<Source>, i: nat)
    requires i < |list|
    ensures var o, b := BlobOffset(compress, list, i), Blob(compress, list[Keeper(list, i)]);
            o + |b| <= |Stored(compress, list)| && Stored(compress, list)[o..o + |b|] == b
    ensures StableFiles(list) ==> Blob(compress, list[Keeper(list, i)]) == Blob(compress, list[i])
  {
    hide Stored, FirstWith, SharedWith, Keeper;
    var j := Keeper(list, i);
    KeeperKeeps(list, i);
    StoredNext(compress, list, j);
    StoredGrows(compress, list, j + 1);
  }

  lemma StoredNext(compress: Compressor, list: seq<Source>, i: nat)
    requires i < |list|
    ensures Stored(compress, list[..i + 1]) ==
            Stored(compress, list[..i]) + if SharedWith(list, i).Some? then [] else Blob(compress, list[i])
  {
    SharedInPrefix(list, i, i + 1);
    assert list[..i + 1][..i] == list[..i];
  }

  /** Entries that share a blob add nothing to what is stored. */
  lemma {:induction false} SharedAddNothing(compress: Compressor, list: seq<Source>, i: nat, j: nat)
    requires i <= j <= |list| && forall k :: i <= k < j ==> SharedWith(list, k).Some?
    ensures Stored(compress, list[..j]) == Stored(compress, list[..i])
    decreases j - i
  {
    hide Stored, SharedWith;
    if i < j {
      SharedAddNothing(compress, list, i, j - 1);
      StoredNext(compress, list, j - 1);
    }
  }

  /** Blobs that are not shared lie one behind the other without overlapping, and without gaps. */
  lemma BlobsDisjoint(compress: Compressor, list: seq<Source>, i: nat, j: nat)
    requires i < j < |list| && SharedWith(list, i).None? && SharedWith(list, j).None?
    ensures BlobOffset(compress, list, i) + |Blob(compress, list[i])| <= BlobOffset(compress, list, j)
    ensures (forall k :: i < k < j ==> SharedWith(list, k).Some?) ==>
              BlobOffset(compress, list, i) + |Blob(compress, list[i])| == BlobOffset(compress, list, j)
  {
    hide Stored, SharedWith;
    StoredNext(compress, list, i);
    StoredGrows(compress, list[..j], i + 1);
    assert list[..j][..i + 1] == list[..i + 1];
    if forall k :: i < k < j ==> SharedWith(list, k).Some? {
      SharedAddNothing(compress, list, i + 1, j);
    }
  }
}
