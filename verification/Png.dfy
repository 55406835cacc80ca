/** The logo: row filters of PNG files (RFC 2083, section 6), 16-bit colours, and the overlay on the screen. */
module Png {
  import opened Collections
  import opened Words
  import opened Line

  const SIZE := 64

  // ---- Filters ----

  function Paeth(a: int, b: int, c: int): int {
    var p := a + b - c;
    var pa, pb, pc := Abs(p - a), Abs(p - b), Abs(p - c);
    if pa <= pb && pa <= pc then a else if pb <= pc then b else c
  }

  /** `r` is the neighbour nearest to the estimate, with ties broken in the order left, above, upper left. */
  ghost predicate Nearest(left: int, up: int, upperLeft: int, r: int) {
    var p := left + up - upperLeft;
    && (r == left || r == up || r == upperLeft)
    && Abs(p - r) <= Abs(p - left) && Abs(p - r) <= Abs(p - up) && Abs(p - r) <= Abs(p - upperLeft)
    && (Abs(p - left) == Abs(p - r) ==> r == left)
    && (Abs(p - up) == Abs(p - r) < Abs(p - left) ==> r == up)
  }

  lemma PaethNearest(left: int, up: int, upperLeft: int, r: int)
    ensures Nearest(left, up, upperLeft, r) <==> r == Paeth(left, up, upperLeft)
  {
  }

  /** What a filter type predicts from the bytes to the left, above, and above to the left; unknown types: nothing. */
  function Predict(t: int, left: int, up: int, upperLeft: int): int {
    if t == 1 then left
    else if t == 2 then up
    else if t == 3 then (left + up) / 2
    else if t == 4 then Paeth(left, up, upperLeft)
    else 0
  }

  /** The byte one pixel to the left; zero at the edge. */
  function Before(row: Bytes, i: nat, channels: nat): int
    requires i < |row| + channels
  {
    if i >= channels then row[i - channels] else 0
  }

  /** Filtering, as the writer of the file has done it. */
  function Filtered(t: int, row: Bytes, prev: Bytes, channels: nat): (f: Bytes)
    requires |row| == |prev| && channels > 0
    ensures |f| == |row|
  {
    seq(|row|, i requires 0 <= i < |row| =>
      (row[i] - Predict(t, Before(row, i, channels), prev[i], Before(prev, i, channels))) % 256)
  }

  /** Undoing it, byte by byte. */
  function Reconstructed(t: int, raw: Bytes, prev: Bytes, channels: nat): (row: Bytes)
    requires |raw| <= |prev| && channels > 0
    ensures |row| == |raw|
  {
    if raw == [] then []
    else
      var n := |raw| - 1;
      var done := Reconstructed(t, raw[..n], prev, channels);
      done + [(raw[n] + Predict(t, Before(done, n, channels), prev[n], Before(prev, n, channels))) % 256]
  }

  // ---- What the filter types mean, one by one ----

  /**
   * Byte `b` of a row, stored as `raw`: type 1 adds the byte to the left, 2 the byte above, 3 half their sum, rounded
   * down, 4 the one of the three neighbours that is nearest to the estimate; any other type adds nothing.
   */
  ghost predicate ByteIs(t: int, raw: Byte, left: int, up: int, upperLeft: int, b: Byte) {
    match t
    case 1 => b == (raw + left) % 256
    case 2 => b == (raw + up) % 256
    case 3 => exists half :: 2 * half <= left + up < 2 * half + 2 && b == (raw + half) % 256
    case 4 => exists n :: Nearest(left, up, upperLeft, n) && b == (raw + n) % 256
    case _ => b == raw
  }

  /** `raw` stands for the row below `prev`; left of the edge there are zeros. */
  ghost predicate RowIs(t: int, raw: Bytes, prev: Bytes, row: Bytes, channels: nat) {
    |row| == |raw| <= |prev| && forall i: nat :: i < |row| ==> ByteAt(t, raw, prev, row, i, channels)
  }

  ghost predicate ByteAt(t: int, raw: Bytes, prev: Bytes, row: Bytes, i: nat, channels: nat)
    requires i < |row| <= |raw| && |row| <= |prev|
  {
    if i < channels then ByteIs(t, raw[i], 0, prev[i], 0, row[i])
    else ByteIs(t, raw[i], row[i - channels], prev[i], prev[i - channels], row[i])
  }

  lemma PredictedIs(t: int, raw: Byte, left: int, up: int, upperLeft: int)
    ensures ByteIs(t, raw, left, up, upperLeft, (raw + Predict(t, left, up, upperLeft)) % 256)
  {
    PaethNearest(left, up, upperLeft, Paeth(left, up, upperLeft));
    hide Paeth, Nearest;
    if t == 3 {
      var half := (left + up) / 2;
      assert 2 * half <= left + up < 2 * half + 2;
    }
  }

  /** Reconstruction gives each byte the value that its filter type says. */
  lemma {:induction false} ReconstructedIs(t: int, raw: Bytes, prev: Bytes, channels: nat)
    requires |raw| <= |prev| && channels > 0
    ensures RowIs(t, raw, prev, Reconstructed(t, raw, prev, channels), channels)
  {
    hide Predict, ByteIs, RowIs;
    if raw == [] {
      NoBytes(t, prev, channels);
    } else {
      var n := |raw| - 1;
      ReconstructedIs(t, raw[..n], prev, channels);
      var done := Reconstructed(t, raw[..n], prev, channels);
      PredictedIs(t, raw[n], Before(done, n, channels), prev[n], Before(prev, n, channels));
      RowGrows(t, raw, prev, done, (raw[n] + Predict(t, Before(done, n, channels), prev[n], Before(prev, n, channels)))
               % 256, channels);
    }
  }

  lemma NoBytes(t: int, prev: Bytes, channels: nat)
    ensures RowIs(t, [], prev, [], channels)
  {
  }

  lemma RowGrows(t: int, raw: Bytes, prev: Bytes, done: Bytes, b: Byte, channels: nat)
    requires 0 < |raw| <= |prev| && channels > 0 && RowIs(t, raw[..|raw| - 1], prev, done, channels)
    requires var n := |raw| - 1;
             |done| == n && ByteIs(t, raw[n], Before(done, n, channels), prev[n], Before(prev, n, channels), b)
    ensures RowIs(t, raw, prev, done + [b], channels)
  {
    hide ByteIs;
    var n, row: Bytes := |raw| - 1, done + [b];
    forall i: nat | i < n
      ensures ByteAt(t, raw, prev, row, i, channels)
    {
      assert ByteAt(t, raw[..n], prev, done, i, channels);
    }
  }

  lemma Cancels(x: Byte, p: int)
    ensures ((x - p) % 256 + p) % 256 == x
  {
  }

  lemma {:induction false} FilteredPrefix(t: int, row: Bytes, prev: Bytes, channels: nat, k: nat)
    requires |row| == |prev| && channels > 0 && k <= |row|
    ensures Reconstructed(t, Filtered(t, row, prev, channels)[..k], prev, channels) == row[..k]
  {
    hide Predict;
    if k > 0 {
      var raw := Filtered(t, row, prev, channels)[..k];
      FilteredPrefix(t, row, prev, channels, k - 1);
      assert raw[..k - 1] == Filtered(t, row, prev, channels)[..k - 1];
      var p := Predict(t, Before(row, k - 1, channels), prev[k - 1], Before(prev, k - 1, channels));
      assert Before(row[..k - 1], k - 1, channels) == Before(row, k - 1, channels);
      Cancels(row[k - 1], p);
      assert row[..k] == row[..k - 1] + [row[k - 1]];
    }
  }

  /** What filtering stores stands for the row, and reconstruction inverts it, whatever the filter type. */
  lemma ReconstructFiltered(t: int, row: Bytes, prev: Bytes, channels: nat)
    requires |row| == |prev| && channels > 0
    ensures RowIs(t, Filtered(t, row, prev, channels), prev, row, channels)
    ensures Reconstructed(t, Filtered(t, row, prev, channels), prev, channels) == row
  {
    hide RowIs, Reconstructed;
    FilteredPrefix(t, row, prev, channels, |row|);
    assert row[..|row|] == row;
    assert Filtered(t, row, prev, channels)[..|row|] == Filtered(t, row, prev, channels);
    ReconstructedIs(t, Filtered(t, row, prev, channels), prev, channels);
  }

  method ReconstructByte(t: int, raw: Byte, left: int, up: int, upperLeft: int) returns (b: Byte)
    ensures b == (raw + Predict(t, left, up, upperLeft)) % 256
  {
    hide Paeth;
    var v := raw as int;
    if t == 0 {
      b := v;
    } else if t == 1 {
      b := (v + left) % 256;
    } else if t == 2 {
      b := (v + up) % 256;
    } else if t == 3 {
      b := (v + (left + up) / 2) % 256;
    } else if t == 4 {
      b := (v + Paeth(left, up, upperLeft)) % 256;
    } else {
      b := v;
    }
  }

  /** Reconstructs one row, byte after byte. */
  method ReconstructRow(t: int, raw: Bytes, prev: array<Byte>, channels: nat) returns (row: array<Byte>)
    requires |raw| == prev.Length && channels > 0
    ensures fresh(row) && row[..] == Reconstructed(t, raw, prev[..], channels)
    ensures RowIs(t, raw, prev[..], row[..], channels)
  {
    hide Predict, RowIs;
    row := new Byte[|raw|](_ => 0);
    for i := 0 to |raw|
      invariant row[..i] == Reconstructed(t, raw[..i], prev[..], channels)
    {
      ghost var done := row[..i];
      var left := if i >= channels then row[i - channels] as int else 0;
      var upperLeft := if i >= channels then prev[i - channels] as int else 0;
      row[i] := ReconstructByte(t, raw[i], left, prev[i], upperLeft);
      assert raw[..i + 1][..i] == raw[..i];
      assert row[..i + 1] == done + [row[i]];
    }
    assert raw[..|raw|] == raw && row[..|raw|] == row[..];
    ReconstructedIs(t, raw, prev[..], channels);
  }

  // ---- All rows ----

  /** The rows that the first `k` pieces of the data stand for. */
  function Decoded(data: Bytes, channels: nat, k: nat): (rows: seq<Bytes>)
    requires channels > 0 && k * (1 + SIZE * channels) <= |data|
    ensures |rows| == k && forall y :: 0 <= y < k ==> |rows[y]| == SIZE * channels
  {
    if k == 0 then []
    else
      var stride := 1 + SIZE * channels;
      Steps(k, stride);
      var before := Decoded(data, channels, k - 1);
      var piece := data[(k - 1) * stride..k * stride];
      before + [Reconstructed(piece[0], piece[1..], Above(before, k - 1, channels), channels)]
  }

  function Zeros(n: nat): (row: Bytes)
    ensures |row| == n && forall i :: 0 <= i < n ==> row[i] == 0
  {
    seq(n, _ => 0)
  }

  /** The row above row `y`; zeros above the first one. */
  function Above(rows: seq<Bytes>, y: nat, channels: nat): (row: Bytes)
    requires y <= |rows| && forall i :: 0 <= i < |rows| ==> |rows[i]| == SIZE * channels
    ensures |row| == SIZE * channels
  {
    if y == 0 then Zeros(SIZE * channels) else rows[y - 1]
  }

  lemma Steps(k: nat, stride: nat)
    requires k > 0
    ensures k * stride == (k - 1) * stride + stride && (k - 1) * stride >= 0
  {
  }

  /** What the writer of the file stores: each row filtered, behind its filter type. */
  function Encoded(types: Bytes, rows: seq<Bytes>, channels: nat): (data: Bytes)
    requires |types| == |rows| && channels > 0 && forall y :: 0 <= y < |rows| ==> |rows[y]| == SIZE * channels
    ensures |data| == |rows| * (1 + SIZE * channels)
  {
    if rows == [] then []
    else
      var n := |rows| - 1;
      Steps(|rows|, 1 + SIZE * channels);
      Encoded(types[..n], rows[..n], channels) + [types[n]]
        + Filtered(types[n], rows[n], Above(rows, n, channels), channels)
  }

  /** Row after row, each behind its filter type, `data` stands for `rows`; above the first row there are zeros. */
  ghost predicate RowsAre(data: Bytes, rows: seq<Bytes>, channels: nat) {
    |data| >= |rows| * (1 + SIZE * channels) && forall y: nat :: y < |rows| ==> PieceAt(data, rows, y, channels)
  }

  ghost predicate PieceAt(data: Bytes, rows: seq<Bytes>, y: nat, channels: nat)
    requires y < |rows|
  {
    PieceIs(data, y, if y == 0 then Zeros(SIZE * channels) else rows[y - 1], rows[y], channels)
  }

  ghost predicate PieceIs(data: Bytes, y: nat, prev: Bytes, row: Bytes, channels: nat) {
    var start, end := y * (1 + SIZE * channels), (y + 1) * (1 + SIZE * channels);
    && start < end <= |data| && |prev| == |row| == SIZE * channels
    && RowIs(data[start], data[start + 1..end], prev, row, channels)
  }

  lemma {:induction false} DecodedIs(data: Bytes, channels: nat, k: nat)
    requires channels > 0 && k * (1 + SIZE * channels) <= |data|
    ensures RowsAre(data, Decoded(data, channels, k), channels)
  {
    hide Reconstructed, RowIs, RowsAre, PieceIs, Above;
    if k == 0 {
      NoRows(data, channels);
    } else {
      Steps(k, 1 + SIZE * channels);
      DecodedIs(data, channels, k - 1);
      NextRow(data, channels, k - 1);
      var before := Decoded(data, channels, k - 1);
      var row := DecodedPiece(data, channels, k - 1, Above(before, k - 1, channels));
      RowsGrow(data, before, row, channels);
    }
  }

  lemma NoRows(data: Bytes, channels: nat)
    ensures RowsAre(data, [], channels)
  {
  }

  lemma DecodedPiece(data: Bytes, channels: nat, y: nat, prev: Bytes) returns (row: Bytes)
    requires channels > 0 && (y + 1) * (1 + SIZE * channels) <= |data| && |prev| == SIZE * channels
    ensures y * (1 + SIZE * channels) <= (y + 1) * (1 + SIZE * channels)
    ensures var piece := data[y * (1 + SIZE * channels)..(y + 1) * (1 + SIZE * channels)];
            piece != [] && |piece[1..]| <= |prev| && row == Reconstructed(piece[0], piece[1..], prev, channels)
    ensures PieceIs(data, y, prev, row, channels)
  {
    hide Reconstructed, RowIs;
    var stride := 1 + SIZE * channels;
    Steps(y + 1, stride);
    var piece := data[y * stride..(y + 1) * stride];
    row := Reconstructed(piece[0], piece[1..], prev, channels);
    ReconstructedIs(piece[0], piece[1..], prev, channels);
    assert piece[1..] == data[y * stride + 1..(y + 1) * stride];
  }

  lemma RowsGrow(data: Bytes, rows: seq<Bytes>, row: Bytes, channels: nat)
    requires RowsAre(data, rows, channels) && forall y :: 0 <= y < |rows| ==> |rows[y]| == SIZE * channels
    requires PieceIs(data, |rows|, Above(rows, |rows|, channels), row, channels)
    ensures RowsAre(data, rows + [row], channels)
  {
    hide PieceIs;
    PieceFits(data, |rows|, Above(rows, |rows|, channels), row, channels);
    var all := rows + [row];
    forall y: nat | y < |all|
      ensures PieceAt(data, all, y, channels)
    {
      assert y < |rows| ==> PieceAt(data, rows, y, channels);
    }
  }

  lemma PieceFits(data: Bytes, y: nat, prev: Bytes, row: Bytes, channels: nat)
    requires PieceIs(data, y, prev, row, channels)
    ensures (y + 1) * (1 + SIZE * channels) <= |data|
  {
  }

  lemma {:induction false} DecodedPrefix(data: Bytes, more: Bytes, channels: nat, k: nat)
    requires channels > 0 && k * (1 + SIZE * channels) <= |data|
    ensures Decoded(data + more, channels, k) == Decoded(data, channels, k)
  {
    if k > 0 {
      var stride := 1 + SIZE * channels;
      Steps(k, stride);
      DecodedPrefix(data, more, channels, k - 1);
      assert (data + more)[(k - 1) * stride..k * stride] == data[(k - 1) * stride..k * stride];
    }
  }

  lemma DecodeOneMore(before: Bytes, last: Bytes, channels: nat, n: nat)
    requires channels > 0 && |before| == n * (1 + SIZE * channels) && |last| == 1 + SIZE * channels
    ensures (n + 1) * (1 + SIZE * channels) == |before + last|
    ensures Decoded(before + last, channels, n + 1) ==
            Decoded(before, channels, n)
              + [Reconstructed(last[0], last[1..], Above(Decoded(before, channels, n), n, channels), channels)]
  {
    hide Reconstructed;
    var stride := 1 + SIZE * channels;
    Steps(n + 1, stride);
    DecodedPrefix(before, last, channels, n);
    assert (before + last)[n * stride..(n + 1) * stride] == last;
  }

  lemma EncodeOneMore(types: Bytes, rows: seq<Bytes>, channels: nat)
    requires rows != [] && |types| == |rows| && channels > 0
    requires forall y :: 0 <= y < |rows| ==> |rows[y]| == SIZE * channels
    ensures var n := |rows| - 1;
            Encoded(types, rows, channels) ==
            Encoded(types[..n], rows[..n], channels)
              + ([types[n]] + Filtered(types[n], rows[n], Above(rows[..n], n, channels), channels))
  {
    hide Filtered;
    var n := |rows| - 1;
    assert Above(rows[..n], n, channels) == Above(rows, n, channels);
  }

  /** Reading gives back the rows, for any rows and any choice of filters. */
  lemma {:induction false} DecodeEncoded(types: Bytes, rows: seq<Bytes>, channels: nat)
    requires |types| == |rows| && channels > 0 && forall y :: 0 <= y < |rows| ==> |rows[y]| == SIZE * channels
    ensures Decoded(Encoded(types, rows, channels), channels, |rows|) == rows
  {
    hide Filtered, Reconstructed, Encoded, Above;
    if rows == [] {
      assert Decoded(Encoded(types, rows, channels), channels, 0) == [];
    } else {
      var n := |rows| - 1;
      DecodeEncoded(types[..n], rows[..n], channels);
      EncodeOneMore(types, rows, channels);
      hide Decoded;
      var before := Encoded(types[..n], rows[..n], channels);
      var above := Above(rows[..n], n, channels);
      var last := [types[n]] + Filtered(types[n], rows[n], above, channels);
      DecodeOneMore(before, last, channels, n);
      assert last[1..] == Filtered(types[n], rows[n], above, channels);
      ReconstructFiltered(types[n], rows[n], above, channels);
      assert rows == rows[..n] + [rows[n]];
    }
  }

  /** What the writer of the file stores stands for the rows, by the filters that were chosen. */
  lemma EncodedIs(types: Bytes, rows: seq<Bytes>, channels: nat)
    requires |types| == |rows| && channels > 0 && forall y :: 0 <= y < |rows| ==> |rows[y]| == SIZE * channels
    ensures RowsAre(Encoded(types, rows, channels), rows, channels)
    ensures forall y: nat :: y < |rows| ==> TypeAt(Encoded(types, rows, channels), y, channels) == Some(types[y])
  {
    hide RowsAre, Encoded, Decoded, TypeAt;
    DecodeEncoded(types, rows, channels);
    DecodedIs(Encoded(types, rows, channels), channels, |rows|);
    forall y: nat | y < |rows|
      ensures TypeAt(Encoded(types, rows, channels), y, channels) == Some(types[y])
    {
      TypeStored(types, rows, channels, y);
    }
  }

  /** The byte before row `y`. */
  ghost function TypeAt(data: Bytes, y: nat, channels: nat): Option<int> {
    if y * (1 + SIZE * channels) < |data| then Some(data[y * (1 + SIZE * channels)]) else None
  }

  lemma {:induction false} TypeStored(types: Bytes, rows: seq<Bytes>, channels: nat, y: nat)
    requires |types| == |rows| && channels > 0 && forall y :: 0 <= y < |rows| ==> |rows[y]| == SIZE * channels
    requires y < |rows|
    ensures TypeAt(Encoded(types, rows, channels), y, channels) == Some(types[y])
  {
    hide Encoded, Filtered, Above;
    var n := |rows| - 1;
    EncodeOneMore(types, rows, channels);
    Steps(n + 1, 1 + SIZE * channels);
    if y < n {
      TypeStored(types[..n], rows[..n], channels, y);
    }
  }

  // ---- Pixels ----

  datatype Rgba = Rgba(r: Byte, g: Byte, b: Byte, a: Byte)

  /** The pixel in column `x`; without an alpha channel it is opaque. */
  function PixelAt(row: Bytes, x: nat, channels: nat): Rgba
    requires x < SIZE && 3 <= channels <= 4 && |row| == SIZE * channels
  {
    var i := x * channels;
    Rgba(row[i], row[i + 1], row[i + 2], if channels == 4 then row[i + 3] else 255)
  }

  /** The pixels of the rows, row after row. */
  ghost predicate PixelsOf(pixels: seq<Rgba>, rows: seq<Bytes>, channels: nat) {
    && 3 <= channels <= 4 && |pixels| == SIZE * |rows|
    && forall y :: 0 <= y < |rows| ==>
         && |rows[y]| == SIZE * channels
         && forall x :: 0 <= x < SIZE ==> pixels[SIZE * y + x] == PixelAt(rows[y], x, channels)
  }

  /** The bytes of a row are red, green and blue, and alpha if there is one, pixel after pixel. */
  ghost predicate PixelsAre(pixels: seq<Rgba>, rows: seq<Bytes>, hasAlpha: bool) {
    && |rows| == 64 && |pixels| == 64 * 64
    && forall y: nat, x: nat :: y < 64 && x < 64 ==> ColourAt(pixels, rows, y, x, hasAlpha)
  }

  ghost predicate ColourAt(pixels: seq<Rgba>, rows: seq<Bytes>, y: nat, x: nat, hasAlpha: bool)
    requires |rows| == 64 && |pixels| == 64 * 64 && y < 64 && x < 64
  {
    var p, row := pixels[64 * y + x], rows[y];
    if hasAlpha then
      && |row| == 256 && p.r == row[4 * x] && p.g == row[4 * x + 1] && p.b == row[4 * x + 2] && p.a == row[4 * x + 3]
    else
      && |row| == 192 && p.r == row[3 * x] && p.g == row[3 * x + 1] && p.b == row[3 * x + 2] && p.a == 255
  }

  lemma PixelsWritten(pixels: seq<Rgba>, rows: seq<Bytes>, hasAlpha: bool)
    requires |rows| == SIZE && PixelsOf(pixels, rows, Channels(hasAlpha))
    ensures PixelsAre(pixels, rows, hasAlpha)
  {
    forall y: nat, x: nat | y < SIZE && x < SIZE
      ensures ColourAt(pixels, rows, y, x, hasAlpha)
    {
      assert pixels[SIZE * y + x] == PixelAt(rows[y], x, Channels(hasAlpha));
    }
  }

  method RowPixels(row: Bytes, channels: nat) returns (pixels: seq<Rgba>)
    requires 3 <= channels <= 4 && |row| == SIZE * channels
    ensures |pixels| == SIZE && forall x :: 0 <= x < SIZE ==> pixels[x] == PixelAt(row, x, channels)
  {
    hide PixelAt;
    pixels := [];
    for x := 0 to SIZE
      invariant |pixels| == x && forall k :: 0 <= k < x ==> pixels[k] == PixelAt(row, k, channels)
    {
      pixels := pixels + [PixelAt(row, x, channels)];
    }
  }

  lemma MorePixels(pixels: seq<Rgba>, rows: seq<Bytes>, channels: nat, row: Bytes, more: seq<Rgba>)
    requires PixelsOf(pixels, rows, channels) && |row| == SIZE * channels && |more| == SIZE
    requires forall x :: 0 <= x < SIZE ==> more[x] == PixelAt(row, x, channels)
    ensures PixelsOf(pixels + more, rows + [row], channels)
  {
    hide PixelAt;
  }

  function Channels(hasAlpha: bool): nat {
    if hasAlpha then 4 else 3
  }

  /** Reads the pixels out of the decompressed image data. */
  method ReadPixels(data: Bytes, hasAlpha: bool) returns (r: Result<seq<Rgba>>)
    ensures r.Ok? <==> |data| >= 64 * (1 + 64 * if hasAlpha then 4 else 3)
    ensures r.Ok? ==> PixelsOf(r.value, Decoded(data, Channels(hasAlpha), SIZE), Channels(hasAlpha))
    ensures r.Ok? ==>
              && |r.value| == 64 * 64
              && exists rows :: RowsAre(data, rows, if hasAlpha then 4 else 3) && PixelsAre(r.value, rows, hasAlpha)
  {
    hide PixelAt, Reconstructed, PixelsOf, Decoded, RowsAre, PixelsAre, RowIs, PieceIs;
    var channels := Channels(hasAlpha);
    var stride := 1 + SIZE * channels;
    if |data| < SIZE * stride {
      return Raise("IndexError");
    }
    var pixels: seq<Rgba> := [];
    var prev := new Byte[SIZE * channels](_ => 0);
    NoPixels(data, channels);
    for y := 0 to SIZE
      invariant prev.Length == SIZE * channels && fresh(prev)
      invariant prev[..] == Above(Decoded(data, channels, y), y, channels)
      invariant PixelsOf(pixels, Decoded(data, channels, y), channels)
    {
      var piece := data[y * stride..(y + 1) * stride];
      NextRow(data, channels, y);
      var row := ReconstructRow(piece[0], piece[1..], prev, channels);
      var more := RowPixels(row[..], channels);
      MorePixels(pixels, Decoded(data, channels, y), channels, row[..], more);
      pixels := pixels + more;
      prev := row;
    }
    DecodedIs(data, channels, SIZE);
    PixelsWritten(pixels, Decoded(data, channels, SIZE), hasAlpha);
    return Ok(pixels);
  }

  lemma NoPixels(data: Bytes, channels: nat)
    requires 3 <= channels <= 4
    ensures Decoded(data, channels, 0) == [] && PixelsOf([], [], channels)
  {
  }

  lemma NextRow(data: Bytes, channels: nat, y: nat)
    requires channels > 0 && (y + 1) * (1 + SIZE * channels) <= |data|
    ensures y * (1 + SIZE * channels) <= |data|
    ensures var piece := data[y * (1 + SIZE * channels)..(y + 1) * (1 + SIZE * channels)];
            |piece| == 1 + SIZE * channels &&
            Decoded(data, channels, y + 1)
              == Decoded(data, channels, y)
                + [Reconstructed(piece[0], piece[1..], Above(Decoded(data, channels, y), y, channels), channels)]
  {
    hide Reconstructed, Above;
    Steps(y + 1, 1 + SIZE * channels);
  }

  // ---- Colours ----

  /** Five bits of red, six of green, five of blue; nothing for a transparent pixel, and dark grey for a black one. */
  function Rgb565(p: Rgba): Color {
    if p.a < 128 then 0
    else
      var c := (p.r as int / 8) * 2048 + (p.g as int / 4) * 32 + p.b as int / 8;
      if c == 0 then 0x0821 else c
  }

  lemma Components(r: nat, g: nat, b: nat)
    requires r < 32 && g < 64 && b < 32
    ensures var c := r * 2048 + g * 32 + b;
            c / 2048 == r && c / 32 % 64 == g && c % 32 == b && (c == 0 <==> r == 0 && g == 0 && b == 0)
  {
    var c := r * 2048 + g * 32 + b;
    assert c / 32 == r * 64 + g;
  }

  /**
   * A colour is zero exactly if the pixel is transparent; otherwise it has the upper bits of the three
   * components, unless those are all zero.
   */
  lemma Rgb565Transparency(p: Rgba)
    ensures Rgb565(p) == 0 <==> p.a < 128
    ensures p.a >= 128 && (p.r >= 8 || p.g >= 4 || p.b >= 8) ==>
              Rgb565(p) / 2048 == p.r / 8 && Rgb565(p) / 32 % 64 == p.g / 4 && Rgb565(p) % 32 == p.b / 8
    ensures p.a >= 128 && p.r < 8 && p.g < 4 && p.b < 8 ==> Rgb565(p) == 0x0821
  {
    Components(p.r / 8, p.g / 4, p.b / 8);
  }

  /** The table that is compiled into the program. */
  method Translate(pixels: seq<Rgba>) returns (logo: seq<Color>)
    requires |pixels| == SIZE * SIZE
    ensures |logo| == |pixels| && forall i :: 0 <= i < |logo| ==> logo[i] == Rgb565(pixels[i])
  {
    hide Rgb565;
    logo := [];
    for y := 0 to SIZE
      invariant |logo| == SIZE * y && forall i :: 0 <= i < |logo| ==> logo[i] == Rgb565(pixels[i])
    {
      for x := 0 to SIZE
        invariant |logo| == SIZE * y + x && forall i :: 0 <= i < |logo| ==> logo[i] == Rgb565(pixels[i])
      {
        logo := logo + [Rgb565(pixels[y * SIZE + x])];
      }
    }
  }

  // ---- The overlay ----

  const LOGO_X := 251
  const LOGO_Y := 171

  /** Which entry of the table belongs to a place on the screen. */
  predicate InLogo(z: Line.Pixel) {
    LOGO_X <= z.x < LOGO_X + SIZE && LOGO_Y <= z.y < LOGO_Y + SIZE
  }

  function LogoIndex(z: Line.Pixel): (i: nat)
    requires InLogo(z)
    ensures i < SIZE * SIZE
  {
    (z.y - LOGO_Y) * SIZE + (z.x - LOGO_X)
  }

  /** The first `n` entries have been drawn where they are not zero; nothing else has changed. */
  ghost predicate Drawn(before: seq<Color>, after: seq<Color>, logo: seq<Color>, n: nat)
    requires |logo| == SIZE * SIZE
  {
    && |before| == |after| == WIDTH * HEIGHT
    && forall z :: OnScreen(z) ==>
         after[Index(z)] == if InLogo(z) && LogoIndex(z) < n && logo[LogoIndex(z)] != 0 then logo[LogoIndex(z)]
           else before[Index(z)]
  }

  lemma DrawnNext(before: seq<Color>, after: seq<Color>, after': seq<Color>, logo: seq<Color>, row: nat, col: nat)
    requires |logo| == SIZE * SIZE && row < SIZE && col < SIZE
    requires Drawn(before, after, logo, row * SIZE + col)
    requires var p := Line.Pixel(LOGO_X + col, LOGO_Y + row); var c := logo[row * SIZE + col];
             OnScreen(p) && Index(p) < |after| && after' == if c != 0 then after[Index(p) := c] else after
    ensures Drawn(before, after', logo, row * SIZE + col + 1)
  {
    var p := Line.Pixel(LOGO_X + col, LOGO_Y + row);
    hide Index;
    forall z | OnScreen(z)
      ensures Index(z) < |after| && (Index(z) == Index(p) ==> z == p)
      ensures InLogo(z) && LogoIndex(z) == row * SIZE + col ==> z == p
    {
      IndexUnique(z, z);
      IndexUnique(z, p);
    }
  }

  /** Draws the logo: exactly the entries that are not zero. */
  method DrawLogo(buffer: array<Color>, logo: seq<Color>)
    requires buffer.Length == WIDTH * HEIGHT && |logo| == SIZE * SIZE
    modifies buffer
    ensures Drawn(old(buffer[..]), buffer[..], logo, SIZE * SIZE)
  {
    hide Drawn, Index;
    NothingDrawn(buffer[..], logo);
    for row := 0 to SIZE
      invariant Drawn(old(buffer[..]), buffer[..], logo, row * SIZE)
    {
      for col := 0 to SIZE
        invariant Drawn(old(buffer[..]), buffer[..], logo, row * SIZE + col)
      {
        ghost var before := buffer[..];
        var color := logo[row * SIZE + col];
        if color != 0 {
          DrawPixelSafe(buffer, LOGO_X + col, LOGO_Y + row, color);
        }
        IndexUnique(Line.Pixel(LOGO_X + col, LOGO_Y + row), Line.Pixel(LOGO_X + col, LOGO_Y + row));
        DrawnNext(old(buffer[..]), before, buffer[..], logo, row, col);
      }
    }
  }

  lemma NothingDrawn(buffer: seq<Color>, logo: seq<Color>)
    requires |buffer| == WIDTH * HEIGHT && |logo| == SIZE * SIZE
    ensures Drawn(buffer, buffer, logo, 0)
  {
    hide Index;
    forall z | OnScreen(z)
      ensures Index(z) < |buffer|
    {
      IndexUnique(z, z);
    }
  }

  /** The place of a pixel shows its colour if it is opaque, and what it showed before if not. */
  ghost predicate Shows(before: seq<Color>, after: seq<Color>, p: Rgba, x: nat, y: nat) {
    var i := (171 + y) * 320 + 251 + x;
    && i < |after| == |before|
    && after[i] == if p.a < 128 then before[i] else Rgb565(p)
  }

  /** From file to screen, for any image, with or without an alpha channel, and any filters. */
  method ShowImage(buffer: array<Color>, types: Bytes, rows: seq<Bytes>, hasAlpha: bool) returns (data: Bytes)
    requires buffer.Length == WIDTH * HEIGHT && |types| == |rows| == SIZE
    requires forall y :: 0 <= y < |rows| ==> |rows[y]| == SIZE * Channels(hasAlpha)
    modifies buffer
    ensures RowsAre(data, rows, Channels(hasAlpha))
    ensures forall y: nat :: y < SIZE ==> TypeAt(data, y, Channels(hasAlpha)) == Some(types[y])
    ensures forall x, y :: 0 <= x < SIZE && 0 <= y < SIZE ==>
            Shows(old(buffer[..]), buffer[..], PixelAt(rows[y], x, Channels(hasAlpha)), x, y)
    ensures forall i :: 0 <= i < buffer.Length && !(251 <= i % 320 < 315 && 171 <= i / 320 < 235) ==>
            buffer[i] == old(buffer[i])
  {
    hide Drawn, PixelAt, Encoded, Decoded, Rgb565, Index, RowsAre, PixelsAre, TypeAt;
    ghost var before := buffer[..];
    var channels := Channels(hasAlpha);
    data := Encoded(types, rows, channels);
    EncodedIs(types, rows, channels);
    DecodeEncoded(types, rows, channels);
    var pixels := ReadPixels(data, hasAlpha);
    var logo := Translate(pixels.value);
    DrawLogo(buffer, logo);
    forall x, y | 0 <= x < SIZE && 0 <= y < SIZE
      ensures Shows(before, buffer[..], PixelAt(rows[y], x, channels), x, y)
    {
      assert pixels.value[SIZE * y + x] == PixelAt(rows[y], x, channels);
      Rgb565Transparency(PixelAt(rows[y], x, channels));
      DrawnAt(before, buffer[..], logo, x, y);
    }
    forall i | 0 <= i < buffer.Length && !(251 <= i % 320 < 315 && 171 <= i / 320 < 235)
      ensures buffer[i] == before[i]
    {
      DrawnElsewhere(before, buffer[..], logo, i);
    }
  }

  lemma DrawnElsewhere(before: seq<Color>, after: seq<Color>, logo: seq<Color>, i: nat)
    requires |logo| == SIZE * SIZE && Drawn(before, after, logo, SIZE * SIZE) && i < WIDTH * HEIGHT
    requires !(251 <= i % 320 < 315 && 171 <= i / 320 < 235)
    ensures after[i] == before[i]
  {
    var z := Line.Pixel(i % 320, i / 320);
    assert OnScreen(z) && Index(z) == i;
  }

  lemma DrawnAt(before: seq<Color>, after: seq<Color>, logo: seq<Color>, x: nat, y: nat)
    requires |logo| == SIZE * SIZE && Drawn(before, after, logo, SIZE * SIZE) && x < SIZE && y < SIZE
    ensures var z := Line.Pixel(LOGO_X + x, LOGO_Y + y);
            OnScreen(z) && Index(z) < |after| && |before| == |after| && Index(z) == (171 + y) * 320 + 251 + x &&
            after[Index(z)] == if logo[SIZE * y + x] != 0 then logo[SIZE * y + x] else before[Index(z)]
  {
    var z := Line.Pixel(LOGO_X + x, LOGO_Y + y);
    IndexUnique(z, z);
    assert LogoIndex(z) == SIZE * y + x;
  }
}
