/** Scanline reconstruction of 8-bit RGBA images, sections 9.2 to 9.4 of the W3C PNG
    specification: unfiltering a row in place undoes filtering it. */
module PngFilters {
  import opened LuaValues

  type Byte = x: int | 0 <= x < 256

  const BYTES_PER_PIXEL := 4

  function Abs(x: int): nat {
    if x < 0 then -x else x
  }

  /** Byte addition, `& 0xFF`. */
  function Sum(a: int, b: int): Byte {
    (a + b) % 256
  }

  function Average(a: int, b: int): (average: int)
    ensures 0 <= a < 256 && 0 <= b < 256 ==> 0 <= average < 256
  {
    (a + b) / 2
  }

  /** `_paeth_predictor`. */
  function Paeth(left: Byte, above: Byte, upperLeft: Byte): Byte {
    var estimate := left + above - upperLeft;
    var toLeft, toAbove, toUpperLeft := Abs(estimate - left), Abs(estimate - above), Abs(estimate - upperLeft);
    if toLeft <= toAbove && toLeft <= toUpperLeft then left
    else if toAbove <= toUpperLeft then above
    else upperLeft
  }

  /** The predictor picks a neighbour nearest to the estimate, preferring left, then above. */
  lemma PaethIsNearest(left: Byte, above: Byte, upperLeft: Byte)
    ensures var p, estimate := Paeth(left, above, upperLeft), left + above - upperLeft;
            && p in {left, above, upperLeft}
            && Abs(estimate - p) <= Abs(estimate - left)
            && Abs(estimate - p) <= Abs(estimate - above)
            && Abs(estimate - p) <= Abs(estimate - upperLeft)
            && (Abs(estimate - left) == Abs(estimate - p) ==> p == left)
            && (p != left && Abs(estimate - above) == Abs(estimate - p) ==> p == above)
  {
  }

  /** The byte one pixel to the left in a row known up to `index`. */
  function Behind(row: seq<Byte>, index: nat): Byte
    requires index <= |row| + BYTES_PER_PIXEL - 1
  {
    if index >= BYTES_PER_PIXEL then row[index - BYTES_PER_PIXEL] else 0
  }

  /** The prediction for position `index`, from the row so far and the row above. */
  function Prediction(kind: nat, row: seq<Byte>, previous: seq<Byte>, index: nat): Byte
    requires index <= |row| && index < |previous| && kind <= 4
  {
    var left, above, upperLeft := Behind(row, index), previous[index], Behind(previous, index);
    if kind == 1 then left
    else if kind == 2 then above
    else if kind == 3 then Average(left, above)
    else if kind == 4 then Paeth(left, above, upperLeft)
    else 0
  }

  /** What an encoder writes for a row: each byte less its prediction. */
  function Filtered(kind: nat, row: seq<Byte>, previous: seq<Byte>): (filtered: seq<Byte>)
    requires |previous| == |row| && kind <= 4
    ensures |filtered| == |row|
  {
    seq(|row|, i requires 0 <= i < |row| => (row[i] - Prediction(kind, row, previous, i)) % 256)
  }

  /** The first `n` bytes of the row a decoder rebuilds. */
  function Rebuilt(kind: nat, filtered: seq<Byte>, previous: seq<Byte>, n: nat): (row: seq<Byte>)
    requires |previous| == |filtered| && n <= |filtered| && kind <= 4
    ensures |row| == n
  {
    if n == 0 then []
    else
      var before := Rebuilt(kind, filtered, previous, n - 1);
      before + [Sum(filtered[n - 1], Prediction(kind, before, previous, n - 1))]
  }

  function Unfiltered(kind: nat, filtered: seq<Byte>, previous: seq<Byte>): seq<Byte>
    requires |previous| == |filtered| && kind <= 4
  {
    Rebuilt(kind, filtered, previous, |filtered|)
  }

  lemma {:induction false} RebuiltAt(kind: nat, filtered: seq<Byte>, previous: seq<Byte>, n: nat, i: nat)
    requires |previous| == |filtered| && i < n <= |filtered| && kind <= 4
    ensures Rebuilt(kind, filtered, previous, n)[..i] == Rebuilt(kind, filtered, previous, i)
    ensures Rebuilt(kind, filtered, previous, n)[i] == Sum(filtered[i], Prediction(kind, Rebuilt(kind, filtered, previous, i), previous, i))
    decreases n
  {
    if i < n - 1 {
      RebuiltAt(kind, filtered, previous, n - 1, i);
    }
  }

  /** The reconstruction formulas of section 9.2 of the PNG specification, byte by byte: with
      the bytes to the left, above, and above to the left, nothing outside the image. */
  lemma ReconstructionFormulas(kind: nat, filtered: seq<Byte>, previous: seq<Byte>, i: nat)
    requires |previous| == |filtered| && i < |filtered| && kind <= 4
    ensures var row := Unfiltered(kind, filtered, previous);
            var x: int := filtered[i];
            var left: int := if i >= 4 then row[i - 4] else 0;
            var above: int := previous[i];
            var corner: int := if i >= 4 then previous[i - 4] else 0;
            && (kind == 0 ==> row[i] == x)
            && (kind == 1 ==> row[i] == (x + left) % 256)
            && (kind == 2 ==> row[i] == (x + above) % 256)
            && (kind == 3 ==> row[i] == (x + (left + above) / 2) % 256)
            && (kind == 4 ==> row[i] == (x + Paeth(left, above, corner)) % 256)
  {
    var row, before := Unfiltered(kind, filtered, previous), Rebuilt(kind, filtered, previous, i);
    RebuiltAt(kind, filtered, previous, |filtered|, i);
    if i >= 4 {
      assert row[..i][i - 4] == row[i - 4];
    }
    assert Behind(before, i) == if i >= 4 then row[i - 4] else 0;
    assert Behind(previous, i) == if i >= 4 then previous[i - 4] else 0;
  }

  /** Only the part of the row already known matters to a prediction. */
  lemma PredictionIsLocal(kind: nat, row: seq<Byte>, other: seq<Byte>, previous: seq<Byte>, index: nat)
    requires index <= |row| && index <= |other| && index < |previous| && kind <= 4
    requires row[..index] == other[..index]
    ensures Prediction(kind, row, previous, index) == Prediction(kind, other, previous, index)
  {
    if index >= BYTES_PER_PIXEL {
      assert row[..index][index - BYTES_PER_PIXEL] == other[..index][index - BYTES_PER_PIXEL];
    }
  }

  lemma SubtractThenAdd(x: Byte, p: Byte)
    ensures Sum((x - p) % 256, p) == x
  {
  }

  lemma AddThenSubtract(x: Byte, p: Byte)
    ensures (Sum(x, p) - p) % 256 == x
  {
  }

  lemma {:induction false} RebuiltPrefix(kind: nat, row: seq<Byte>, previous: seq<Byte>, n: nat)
    requires |previous| == |row| && n <= |row| && kind <= 4
    ensures Rebuilt(kind, Filtered(kind, row, previous), previous, n) == row[..n]
  {
    if n > 0 {
      RebuiltPrefix(kind, row, previous, n - 1);
      PredictionIsLocal(kind, row[..n - 1], row, previous, n - 1);
      SubtractThenAdd(row[n - 1], Prediction(kind, row, previous, n - 1));
      assert row[..n] == row[..n - 1] + [row[n - 1]];
    }
  }

  /** Unfiltering inverts filtering, for every row, every row above and every filter type. */
  lemma UnfilterInvertsFilter(kind: nat, row: seq<Byte>, previous: seq<Byte>)
    requires |previous| == |row| && kind <= 4
    ensures Unfiltered(kind, Filtered(kind, row, previous), previous) == row
  {
    RebuiltPrefix(kind, row, previous, |row|);
    assert row[..|row|] == row;
  }

  lemma {:induction false} RebuiltExtends(kind: nat, filtered: seq<Byte>, previous: seq<Byte>, n: nat, m: nat)
    requires |previous| == |filtered| && n <= m <= |filtered| && kind <= 4
    ensures Rebuilt(kind, filtered, previous, m)[..n] == Rebuilt(kind, filtered, previous, n)
    decreases m
  {
    if n < m {
      RebuiltExtends(kind, filtered, previous, n, m - 1);
    }
  }

  /** And filtering inverts unfiltering: every byte string is the filtering of one row. */
  lemma FilterInvertsUnfilter(kind: nat, filtered: seq<Byte>, previous: seq<Byte>)
    requires |previous| == |filtered| && kind <= 4
    ensures Filtered(kind, Unfiltered(kind, filtered, previous), previous) == filtered
  {
    var row := Unfiltered(kind, filtered, previous);
    forall i | 0 <= i < |filtered| ensures Filtered(kind, row, previous)[i] == filtered[i] {
      var before := Rebuilt(kind, filtered, previous, i);
      RebuiltExtends(kind, filtered, previous, i, |filtered|);
      RebuiltExtends(kind, filtered, previous, i + 1, |filtered|);
      assert row[i] == row[..i + 1][i] == Sum(filtered[i], Prediction(kind, before, previous, i));
      PredictionIsLocal(kind, row, before, previous, i);
      AddThenSubtract(filtered[i], Prediction(kind, row, previous, i));
    }
  }

  /** The unfiltering loop, in place. */
  method UnfilterInPlace(kind: nat, scanline: array<Byte>, previous: array<Byte>)
    requires scanline.Length == previous.Length && scanline != previous && kind <= 4
    modifies scanline
    ensures scanline[..] == Unfiltered(kind, old(scanline[..]), previous[..])
  {
    ghost var filtered := scanline[..];
    var index := 0;
    while index < scanline.Length
      invariant 0 <= index <= scanline.Length
      invariant scanline[..index] == Rebuilt(kind, filtered, previous[..], index)
      invariant forall k | index <= k < scanline.Length :: scanline[k] == filtered[k]
    {
      var left := if index >= BYTES_PER_PIXEL then scanline[index - BYTES_PER_PIXEL] else 0;
      var above := previous[index];
      var upperLeft := if index >= BYTES_PER_PIXEL then previous[index - BYTES_PER_PIXEL] else 0;
      ghost var before := scanline[..index];
      if kind == 1 {
        scanline[index] := Sum(scanline[index], left);
      } else if kind == 2 {
        scanline[index] := Sum(scanline[index], above);
      } else if kind == 3 {
        scanline[index] := Sum(scanline[index], Average(left, above));
      } else if kind == 4 {
        scanline[index] := Sum(scanline[index], Paeth(left, above, upperLeft));
      }
      assert Behind(before, index) == left && Behind(previous[..], index) == upperLeft;
      assert scanline[index] == Sum(filtered[index], Prediction(kind, before, previous[..], index));
      assert scanline[..index + 1] == before + [scanline[index]];
      index := index + 1;
    }
    assert scanline[..] == scanline[..index];
  }

  // ----------------------------------------------------------------------- whole images

  /** The rows of an image whose bytes start after `previous`. */
  function Raw(rows: seq<seq<Byte>>, kinds: seq<nat>, previous: seq<Byte>): seq<Byte>
    requires |kinds| == |rows| && forall i | 0 <= i < |rows| :: |rows[i]| == |previous| && kinds[i] <= 4
  {
    if rows == [] then []
    else [kinds[0] as int] + Filtered(kinds[0], rows[0], previous) + Raw(rows[1..], kinds[1..], rows[0])
  }

  function Zeros(n: nat): seq<Byte> {
    seq(n, _ => 0)
  }

  /** What a decoder reads from `height` filtered rows; none if a filter type is unknown. */
  function Decoded(raw: seq<Byte>, height: nat, previous: seq<Byte>): (rows: Option<seq<seq<Byte>>>)
    requires |raw| == height * (|previous| + 1)
    ensures rows.Some? ==> |rows.value| == height && forall i | 0 <= i < height :: |rows.value[i]| == |previous|
    decreases height
  {
    if height == 0 then Some([])
    else
      var stride := |previous|;
      assert |raw| == (height - 1) * (stride + 1) + (stride + 1);
      assert 0 <= (height - 1) * (stride + 1);
      if raw[0] > 4 then None
      else
        var row := Unfiltered(raw[0], raw[1..stride + 1], previous);
        var rest := Decoded(raw[stride + 1..], height - 1, row);
        if rest.None? then None else Some([row] + rest.value)
  }

  /** Where row `y` starts. */
  function RowStart(y: nat, bytes: nat): nat {
    if y == 0 then 0 else bytes + RowStart(y - 1, bytes)
  }

  lemma {:induction false} RowStartsAt(y: nat, bytes: nat)
    ensures RowStart(y, bytes) == y * bytes
  {
    if y > 0 {
      RowStartsAt(y - 1, bytes);
      OneRowMore(y, bytes);
    }
  }

  ghost predicate RowDecoded(raw: seq<Byte>, previous: seq<Byte>, rows: seq<seq<Byte>>, y: nat, at: nat)
    requires y < |rows| && at + |previous| < |raw| && (y > 0 ==> |rows[y - 1]| == |previous|)
  {
    raw[at] <= 4 && rows[y] == Unfiltered(raw[at], raw[at + 1..at + 1 + |previous|], if y == 0 then previous else rows[y - 1])
  }

  lemma {:induction false} RowFits(y: nat, height: nat, bytes: nat)
    requires y < height
    ensures RowStart(y, bytes) + bytes <= height * bytes
  {
    OneRowMore(height, bytes);
    assert 0 <= (height - 1) * bytes;
    if y > 0 {
      RowFits(y - 1, height - 1, bytes);
    }
  }

  lemma DecodedFirst(raw: seq<Byte>, height: nat, previous: seq<Byte>)
    requires |raw| == height * (|previous| + 1) && height > 0 && Decoded(raw, height, previous).Some?
    ensures |raw| >= |previous| + 1 && raw[0] <= 4 && |raw[|previous| + 1..]| == (height - 1) * (|previous| + 1)
    ensures var row, rest := Unfiltered(raw[0], raw[1..|previous| + 1], previous), raw[|previous| + 1..];
            && Decoded(rest, height - 1, row).Some?
            && Decoded(raw, height, previous).value == [row] + Decoded(rest, height - 1, row).value
  {
    OneRowMore(height, |previous| + 1);
    assert 0 <= (height - 1) * (|previous| + 1);
  }

  /** The rows read off the front of the bytes one after the other. */
  ghost predicate Reads(raw: seq<Byte>, previous: seq<Byte>, rows: seq<seq<Byte>>)
    decreases |rows|
  {
    rows == []
    || (&& |raw| > |previous| && raw[0] <= 4
        && rows[0] == Unfiltered(raw[0], raw[1..|previous| + 1], previous) && |rows[0]| == |previous|
        && Reads(raw[|previous| + 1..], rows[0], rows[1..]))
  }

  lemma {:induction false} DecodedReads(raw: seq<Byte>, height: nat, previous: seq<Byte>)
    requires |raw| == height * (|previous| + 1) && Decoded(raw, height, previous).Some?
    ensures Reads(raw, previous, Decoded(raw, height, previous).value)
    decreases height
  {
    if height > 0 {
      DecodedFirst(raw, height, previous);
      DecodedReads(raw[|previous| + 1..], height - 1, Unfiltered(raw[0], raw[1..|previous| + 1], previous));
    }
  }

  lemma {:induction false} RowRead(raw: seq<Byte>, previous: seq<Byte>, rows: seq<seq<Byte>>, y: nat)
    requires Reads(raw, previous, rows) && y < |rows|
    ensures RowStart(y, |previous| + 1) + |previous| < |raw| && (y > 0 ==> |rows[y - 1]| == |previous|)
    ensures RowDecoded(raw, previous, rows, y, RowStart(y, |previous| + 1))
    decreases |rows|
  {
    var bytes := |previous| + 1;
    if y > 0 {
      var rest, later := raw[bytes..], rows[1..];
      RowRead(rest, rows[0], later, y - 1);
      LaterRow(raw, bytes, RowStart(y, bytes), RowStart(y - 1, bytes), |previous|);
    }
  }

  /** Where each row lies in the inflated bytes: first its filter type, then its filtered
      bytes, which are undone against the row above, the first against `previous`; an image
      is refused exactly if some filter type is above four. */
  lemma DecodedRows(raw: seq<Byte>, height: nat, previous: seq<Byte>, y: nat)
    requires |raw| == height * (|previous| + 1) && y < height
    ensures 0 <= y * (|previous| + 1) && y * (|previous| + 1) + |previous| < |raw|
    ensures var rows, at := Decoded(raw, height, previous), y * (|previous| + 1);
            rows.Some? ==>
              && raw[at] <= 4
              && rows.value[y] == Unfiltered(raw[at], raw[at + 1..at + 1 + |previous|], if y == 0 then previous else rows.value[y - 1])
  {
    RowFits(y, height, |previous| + 1);
    RowStartsAt(y, |previous| + 1);
    if Decoded(raw, height, previous).Some? {
      DecodedReads(raw, height, previous);
      RowRead(raw, previous, Decoded(raw, height, previous).value, y);
    }
  }

  lemma LaterRow(raw: seq<Byte>, bytes: nat, at: nat, before: nat, stride: nat)
    requires at == bytes + before && at + stride < |raw|
    ensures raw[bytes..][before] == raw[at]
    ensures raw[bytes..][before + 1..before + 1 + stride] == raw[at + 1..at + 1 + stride]
  {
  }

  lemma {:induction false} RefusedRow(raw: seq<Byte>, height: nat, previous: seq<Byte>) returns (y: nat)
    requires |raw| == height * (|previous| + 1) && Decoded(raw, height, previous).None?
    ensures y < height && RowStart(y, |previous| + 1) < |raw| && raw[RowStart(y, |previous| + 1)] > 4
    decreases height
  {
    var bytes := |previous| + 1;
    OneRowMore(height, bytes);
    assert 0 <= (height - 1) * bytes;
    if raw[0] > 4 {
      y := 0;
    } else {
      var rest := raw[bytes..];
      var before := RefusedRow(rest, height - 1, Unfiltered(raw[0], raw[1..bytes], previous));
      y := before + 1;
      assert rest[RowStart(before, bytes)] == raw[RowStart(y, bytes)];
    }
  }

  lemma {:induction false} RawLength(rows: seq<seq<Byte>>, kinds: seq<nat>, previous: seq<Byte>)
    requires |kinds| == |rows| && forall i | 0 <= i < |rows| :: |rows[i]| == |previous| && kinds[i] <= 4
    ensures |Raw(rows, kinds, previous)| == |rows| * (|previous| + 1)
  {
    if rows != [] {
      RawLength(rows[1..], kinds[1..], rows[0]);
      OneRowMore(|rows|, |previous| + 1);
    }
  }

  lemma OneRowMore(rows: nat, bytes: nat)
    requires rows > 0
    ensures rows * bytes == bytes + (rows - 1) * bytes
  {
  }

  lemma RowAhead(kind: int, filtered: seq<Byte>, rest: seq<int>)
    ensures var raw := [kind] + filtered + rest;
            raw[0] == kind && raw[1..|filtered| + 1] == filtered && raw[|filtered| + 1..] == rest
  {
  }

  /** Decoding inverts encoding, whatever filter each row was given. */
  lemma {:induction false} DecodeInvertsEncode(rows: seq<seq<Byte>>, kinds: seq<nat>, previous: seq<Byte>)
    requires |kinds| == |rows| && forall i | 0 <= i < |rows| :: |rows[i]| == |previous| && kinds[i] <= 4
    ensures |Raw(rows, kinds, previous)| == |rows| * (|previous| + 1)
    ensures Decoded(Raw(rows, kinds, previous), |rows|, previous) == Some(rows)
  {
    RawLength(rows, kinds, previous);
    if rows != [] {
      var raw := Raw(rows, kinds, previous);
      var filtered, rest := Filtered(kinds[0], rows[0], previous), Raw(rows[1..], kinds[1..], rows[0]);
      DecodeInvertsEncode(rows[1..], kinds[1..], rows[0]);
      RowAhead(kinds[0], filtered, rest);
      UnfilterInvertsFilter(kinds[0], rows[0], previous);
      assert rows == [rows[0]] + rows[1..];
    }
  }
}
