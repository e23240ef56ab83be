/** The alpha statistics of a reconstructed image: counts, corner alphas and the least
    rectangle around everything that is not fully transparent. */
module PngStats {
  import opened Extrema
  import opened LuaValues
  import opened PngFilters

  type Image = seq<seq<Byte>>

  datatype Tally = Tally(
    transparent: nat, solid: nat, visible: nat, minX: int, minY: int, maxX: int, maxY: int, corners: map<(nat, nat), Byte>)

  datatype Rect = Rect(minX: int, minY: int, maxX: int, maxY: int)

  datatype Stats = Stats(transparent: nat, solid: nat, visible: nat, bounds: Option<Rect>, cornerAlphas: seq<Byte>)

  ghost predicate Sized(rows: Image, width: nat) {
    forall y | 0 <= y < |rows| :: |rows[y]| == BYTES_PER_PIXEL * width
  }

  function Alpha(row: seq<Byte>, x: nat): Byte
    requires BYTES_PER_PIXEL * x + 3 < |row|
  {
    row[BYTES_PER_PIXEL * x + 3]
  }

  function Corners(width: nat, height: nat): set<(nat, nat)>
    requires width > 0 && height > 0
  {
    {(0, 0), (width - 1, 0), (0, height - 1), (width - 1, height - 1)}
  }

  // ---------------------------------------------------------------------- one pass, as a fold

  function EmptyTally(width: nat, height: nat): Tally {
    Tally(0, 0, 0, width, height, -1, -1, map[])
  }

  function AddPixel(t: Tally, x: nat, y: nat, alpha: Byte, corners: set<(nat, nat)>): Tally {
    var noted := if (x, y) in corners then t.(corners := t.corners[(x, y) := alpha]) else t;
    if alpha == 0 then noted.(transparent := t.transparent + 1)
    else
      noted.(visible := t.visible + 1,
             solid := if alpha == 255 then t.solid + 1 else t.solid,
             minX := Min(t.minX, x), minY := Min(t.minY, y), maxX := Max(t.maxX, x), maxY := Max(t.maxY, y))
  }

  function AddRow(t: Tally, row: seq<Byte>, y: nat, n: nat, corners: set<(nat, nat)>): Tally
    requires BYTES_PER_PIXEL * n <= |row|
  {
    if n == 0 then t else AddPixel(AddRow(t, row, y, n - 1, corners), n - 1, y, Alpha(row, n - 1), corners)
  }

  function AddRows(rows: Image, width: nat, n: nat, start: Tally, corners: set<(nat, nat)>): Tally
    requires n <= |rows| && Sized(rows, width)
  {
    if n == 0 then start else AddRow(AddRows(rows, width, n - 1, start, corners), rows[n - 1], n - 1, width, corners)
  }

  function TallyOf(rows: Image, width: nat): Tally
    requires width > 0 && rows != [] && Sized(rows, width)
  {
    AddRows(rows, width, |rows|, EmptyTally(width, |rows|), Corners(width, |rows|))
  }

  /** The corners in coordinate order; a one-pixel side has its corners once. */
  function CornerList(width: nat, height: nat): seq<(nat, nat)>
    requires width > 0 && height > 0
  {
    [(0, 0)] + (if height > 1 then [(0, height - 1)] else [])
    + (if width > 1 then [(width - 1, 0)] + (if height > 1 then [(width - 1, height - 1)] else []) else [])
  }

  // ------------------------------------------------------------------------- what it counts

  datatype Kind = Clear | Visible | Opaque

  predicate Is(kind: Kind, alpha: Byte) {
    match kind
    case Clear => alpha == 0
    case Visible => alpha != 0
    case Opaque => alpha == 255
  }

  function RowCount(row: seq<Byte>, n: nat, kind: Kind): nat
    requires BYTES_PER_PIXEL * n <= |row|
  {
    if n == 0 then 0 else RowCount(row, n - 1, kind) + if Is(kind, row[4 * (n - 1) + 3]) then 1 else 0
  }

  function ImageCount(rows: Image, width: nat, n: nat, kind: Kind): nat
    requires n <= |rows| && Sized(rows, width)
  {
    if n == 0 then 0 else ImageCount(rows, width, n - 1, kind) + RowCount(rows[n - 1], width, kind)
  }

  lemma {:induction false} RowCountsAdd(t: Tally, row: seq<Byte>, y: nat, n: nat, corners: set<(nat, nat)>)
    requires BYTES_PER_PIXEL * n <= |row|
    ensures var after := AddRow(t, row, y, n, corners);
            && after.transparent == t.transparent + RowCount(row, n, Clear)
            && after.visible == t.visible + RowCount(row, n, Visible)
            && after.solid == t.solid + RowCount(row, n, Opaque)
    ensures RowCount(row, n, Clear) + RowCount(row, n, Visible) == n
    ensures RowCount(row, n, Opaque) <= RowCount(row, n, Visible)
  {
    if n > 0 {
      RowCountsAdd(t, row, y, n - 1, corners);
    }
  }

  lemma {:induction false} CountsAdd(rows: Image, width: nat, n: nat, start: Tally, corners: set<(nat, nat)>)
    requires n <= |rows| && Sized(rows, width)
    ensures var after := AddRows(rows, width, n, start, corners);
            && after.transparent == start.transparent + ImageCount(rows, width, n, Clear)
            && after.visible == start.visible + ImageCount(rows, width, n, Visible)
            && after.solid == start.solid + ImageCount(rows, width, n, Opaque)
    ensures ImageCount(rows, width, n, Clear) + ImageCount(rows, width, n, Visible) == n * width
    ensures ImageCount(rows, width, n, Opaque) <= ImageCount(rows, width, n, Visible)
  {
    if n > 0 {
      CountsAdd(rows, width, n - 1, start, corners);
      RowCountsAdd(AddRows(rows, width, n - 1, start, corners), rows[n - 1], n - 1, width, corners);
      OneRowMore(n, width);
    }
  }

  // --------------------------------------------------------------------- what it encloses

  /** A visible pixel among those visited when row `y` has been read up to column `x`. */
  ghost predicate Seen(rows: Image, px: nat, py: nat, x: nat, y: nat) {
    && py < |rows| && BYTES_PER_PIXEL * px + 3 < |rows[py]|
    && (py < y || (py == y && px < x))
    && rows[py][4 * px + 3] != 0
  }

  ghost predicate InColumn(rows: Image, v: int, x: nat, y: nat) {
    v >= 0 && exists py: nat :: Seen(rows, v, py, x, y)
  }

  ghost predicate InRow(rows: Image, v: int, x: nat, y: nat) {
    v >= 0 && exists px: nat :: Seen(rows, px, v, x, y)
  }

  ghost predicate Within(t: Tally, rows: Image, x: nat, y: nat) {
    forall px: nat, py: nat | Seen(rows, px, py, x, y) :: t.minX <= px <= t.maxX && t.minY <= py <= t.maxY
  }

  ghost predicate Touched(t: Tally, rows: Image, x: nat, y: nat) {
    InColumn(rows, t.minX, x, y) && InColumn(rows, t.maxX, x, y) && InRow(rows, t.minY, x, y) && InRow(rows, t.maxY, x, y)
  }

  /** The running rectangle is the least one around the visible pixels seen so far;
      before the first, its minima lie beyond the image. */
  ghost predicate Tight(t: Tally, rows: Image, width: nat, x: nat, y: nat) {
    && Within(t, rows, x, y)
    && (t.visible > 0 ==> Touched(t, rows, x, y))
    && (t.visible == 0 ==>
          && (forall px: nat, py: nat :: !Seen(rows, px, py, x, y))
          && t.maxX == -1 && t.maxY == -1 && t.minX == width && t.minY == |rows|)
  }

  lemma TouchesGrow(t: Tally, rows: Image, x: nat, y: nat, laterX: nat, laterY: nat)
    requires Touched(t, rows, x, y)
    requires forall px: nat, py: nat | Seen(rows, px, py, x, y) :: Seen(rows, px, py, laterX, laterY)
    ensures Touched(t, rows, laterX, laterY)
  {
    var a: nat :| Seen(rows, t.minX, a, x, y);
    var b: nat :| Seen(rows, t.maxX, b, x, y);
    var c: nat :| Seen(rows, c, t.minY, x, y);
    var d: nat :| Seen(rows, d, t.maxY, x, y);
    assert Seen(rows, t.minX, a, laterX, laterY) && Seen(rows, t.maxX, b, laterX, laterY);
    assert Seen(rows, c, t.minY, laterX, laterY) && Seen(rows, d, t.maxY, laterX, laterY);
  }

  lemma SeenStep(rows: Image, width: nat, x: nat, y: nat)
    requires Sized(rows, width) && y < |rows| && x < width
    ensures forall px: nat, py: nat ::
              Seen(rows, px, py, x + 1, y) <==> Seen(rows, px, py, x, y) || (px == x && py == y && Alpha(rows[y], x) != 0)
  {
    var next := x + 1;
    forall px: nat, py: nat
      ensures Seen(rows, px, py, next, y) <==> Seen(rows, px, py, x, y) || (px == x && py == y && Alpha(rows[y], x) != 0)
    {
    }
  }

  lemma OneMorePixel(t: Tally, rows: Image, width: nat, x: nat, y: nat, corners: set<(nat, nat)>)
    requires Sized(rows, width) && y < |rows| && x < width && Tight(t, rows, width, x, y)
    ensures Tight(AddPixel(t, x, y, Alpha(rows[y], x), corners), rows, width, x + 1, y)
  {
    var after := AddPixel(t, x, y, Alpha(rows[y], x), corners);
    SeenStep(rows, width, x, y);
    if t.visible > 0 {
      TouchesGrow(t, rows, x, y, x + 1, y);
    }
    if Alpha(rows[y], x) != 0 {
      assert Seen(rows, x, y, x + 1, y);
      assert InColumn(rows, x, x + 1, y) && InRow(rows, y, x + 1, y);
      assert Touched(after, rows, x + 1, y);
    }
    var next := x + 1;
    forall px: nat, py: nat | Seen(rows, px, py, next, y)
      ensures after.minX <= px <= after.maxX && after.minY <= py <= after.maxY
    {
      assert Seen(rows, px, py, x, y) || (px == x && py == y);
    }
  }

  lemma {:induction false} RowStaysTight(t: Tally, rows: Image, width: nat, n: nat, y: nat, corners: set<(nat, nat)>)
    requires Sized(rows, width) && y < |rows| && n <= width && Tight(t, rows, width, 0, y)
    ensures Tight(AddRow(t, rows[y], y, n, corners), rows, width, n, y)
  {
    if n > 0 {
      RowStaysTight(t, rows, width, n - 1, y, corners);
      OneMorePixel(AddRow(t, rows[y], y, n - 1, corners), rows, width, n - 1, y, corners);
    }
  }

  lemma NextRow(t: Tally, rows: Image, width: nat, y: nat)
    requires Sized(rows, width) && y < |rows| && Tight(t, rows, width, width, y)
    ensures Tight(t, rows, width, 0, y + 1)
  {
    var next := y + 1;
    forall px: nat, py: nat ensures Seen(rows, px, py, 0, next) <==> Seen(rows, px, py, width, y) {
    }
    if t.visible > 0 {
      TouchesGrow(t, rows, width, y, 0, next);
    }
  }

  lemma {:induction false} RowsStayTight(rows: Image, width: nat, n: nat, corners: set<(nat, nat)>)
    requires Sized(rows, width) && n <= |rows|
    ensures Tight(AddRows(rows, width, n, EmptyTally(width, |rows|), corners), rows, width, 0, n)
  {
    if n > 0 {
      RowsStayTight(rows, width, n - 1, corners);
      var before := AddRows(rows, width, n - 1, EmptyTally(width, |rows|), corners);
      RowStaysTight(before, rows, width, width, n - 1, corners);
      NextRow(AddRow(before, rows[n - 1], n - 1, width, corners), rows, width, n - 1);
    }
  }

  // ------------------------------------------------------------------------------- corners

  lemma {:induction false} RowCorners(t: Tally, row: seq<Byte>, y: nat, n: nat, corners: set<(nat, nat)>)
    requires BYTES_PER_PIXEL * n <= |row|
    ensures var after := AddRow(t, row, y, n, corners);
            && (forall c | c in t.corners && c.1 != y :: c in after.corners && after.corners[c] == t.corners[c])
            && (forall c | c in corners && c.1 == y && c.0 < n :: c in after.corners && after.corners[c] == Alpha(row, c.0))
  {
    if n > 0 {
      RowCorners(t, row, y, n - 1, corners);
    }
  }

  lemma {:induction false} ImageCorners(rows: Image, width: nat, n: nat, start: Tally, corners: set<(nat, nat)>)
    requires n <= |rows| && Sized(rows, width)
    ensures var after := AddRows(rows, width, n, start, corners);
            forall c | c in corners && c.0 < width && c.1 < n :: c in after.corners && after.corners[c] == Alpha(rows[c.1], c.0)
  {
    if n > 0 {
      ImageCorners(rows, width, n - 1, start, corners);
      RowCorners(AddRows(rows, width, n - 1, start, corners), rows[n - 1], n - 1, width, corners);
    }
  }

  // ---------------------------------------------------------------------------- main result

  /** A visible pixel of the image. */
  ghost predicate VisibleAt(rows: Image, x: nat, y: nat) {
    Seen(rows, x, y, 0, |rows|)
  }

  /** The rectangle holds every visible pixel and each of its sides touches one. */
  ghost predicate LeastAround(rows: Image, r: Rect) {
    && (forall x: nat, y: nat | VisibleAt(rows, x, y) :: r.minX <= x <= r.maxX && r.minY <= y <= r.maxY)
    && InColumn(rows, r.minX, 0, |rows|) && InColumn(rows, r.maxX, 0, |rows|)
    && InRow(rows, r.minY, 0, |rows|) && InRow(rows, r.maxY, 0, |rows|)
  }

  ghost predicate CountsRight(s: Stats, rows: Image, width: nat)
    requires Sized(rows, width)
  {
    && s.transparent == ImageCount(rows, width, |rows|, Clear)
    && s.visible == ImageCount(rows, width, |rows|, Visible)
    && s.solid == ImageCount(rows, width, |rows|, Opaque)
    && s.transparent + s.visible == |rows| * width
    && s.solid <= s.visible
  }

  ghost predicate BoundsRight(s: Stats, rows: Image) {
    && (s.bounds.None? <==> s.visible == 0)
    && (s.bounds.None? ==> forall x: nat, y: nat :: !VisibleAt(rows, x, y))
    && (s.bounds.Some? ==> LeastAround(rows, s.bounds.value))
  }

  ghost predicate CornersRight(s: Stats, rows: Image, width: nat)
    requires width > 0 && rows != [] && Sized(rows, width)
  {
    var list := CornerList(width, |rows|);
    && |s.cornerAlphas| == |list|
    && forall i | 0 <= i < |list| :: list[i].1 < |rows| && list[i].0 < width && s.cornerAlphas[i] == rows[list[i].1][4 * list[i].0 + 3]
  }

  /** What the statistics of an image must say. */
  ghost predicate Describes(s: Stats, rows: Image, width: nat)
    requires width > 0 && rows != [] && Sized(rows, width)
  {
    CountsRight(s, rows, width) && BoundsRight(s, rows) && CornersRight(s, rows, width)
  }

  function StatsFrom(t: Tally, list: seq<(nat, nat)>): Stats
    requires forall i | 0 <= i < |list| :: list[i] in t.corners
  {
    Stats(t.transparent, t.solid, t.visible,
          if t.visible == 0 then None else Some(Rect(t.minX, t.minY, t.maxX, t.maxY)),
          seq(|list|, i requires 0 <= i < |list| => t.corners[list[i]]))
  }

  lemma TallyCorners(rows: Image, width: nat)
    requires width > 0 && rows != [] && Sized(rows, width)
    ensures var list, t := CornerList(width, |rows|), TallyOf(rows, width);
            && (forall i | 0 <= i < |list| :: list[i] in t.corners)
            && CornersRight(StatsFrom(t, list), rows, width)
  {
    var list := CornerList(width, |rows|);
    CornersListed(width, |rows|);
    ImageCorners(rows, width, |rows|, EmptyTally(width, |rows|), Corners(width, |rows|));
    forall i | 0 <= i < |list| ensures list[i] in Corners(width, |rows|) {
      assert list[i] in list;
    }
  }

  lemma TallyCounts(rows: Image, width: nat)
    requires width > 0 && rows != [] && Sized(rows, width)
    ensures var t := TallyOf(rows, width);
            && t.transparent == ImageCount(rows, width, |rows|, Clear)
            && t.visible == ImageCount(rows, width, |rows|, Visible)
            && t.solid == ImageCount(rows, width, |rows|, Opaque)
            && t.transparent + t.visible == |rows| * width && t.solid <= t.visible
  {
    CountsAdd(rows, width, |rows|, EmptyTally(width, |rows|), Corners(width, |rows|));
  }

  /** The one-pass tally of an image describes it. */
  lemma TallyDescribes(rows: Image, width: nat)
    requires width > 0 && rows != [] && Sized(rows, width)
    ensures forall i | 0 <= i < |CornerList(width, |rows|)| :: CornerList(width, |rows|)[i] in TallyOf(rows, width).corners
    ensures Describes(StatsFrom(TallyOf(rows, width), CornerList(width, |rows|)), rows, width)
  {
    TallyCounts(rows, width);
    TallyCorners(rows, width);
    RowsStayTight(rows, width, |rows|, Corners(width, |rows|));
  }

  /** The corner alphas, left column first and top before bottom, each corner once. */
  lemma CornersInOrder(s: Stats, rows: Image, width: nat)
    requires width > 0 && rows != [] && Sized(rows, width) && CornersRight(s, rows, width)
    ensures var top, bottom := rows[0], rows[|rows| - 1];
            s.cornerAlphas == (if |rows| > 1 then [top[3], bottom[3]] else [top[3]])
                              + if width == 1 then []
                                else if |rows| > 1 then [top[4 * width - 1], bottom[4 * width - 1]] else [top[4 * width - 1]]
  {
    var list := CornerList(width, |rows|);
    assert rows[0] == rows[list[0].1];
    forall i | 0 <= i < |list| ensures s.cornerAlphas[i] == rows[list[i].1][4 * list[i].0 + 3] {
    }
  }

  lemma CornersListed(width: nat, height: nat)
    requires width > 0 && height > 0
    ensures forall c :: c in CornerList(width, height) <==> c in Corners(width, height)
    ensures forall i | 0 <= i < |CornerList(width, height)| :: CornerList(width, height)[i].0 < width && CornerList(width, height)[i].1 < height
  {
  }

  // ----------------------------------------------------------------------------- the method

  /** One row of `png_rgba_alpha_stats`: take its bytes and unfilter them in place. */
  method ReadRow(kind: nat, bytes: seq<Byte>, previous: array<Byte>) returns (scanline: array<Byte>)
    requires kind <= 4 && |bytes| == previous.Length
    ensures fresh(scanline) && scanline[..] == Unfiltered(kind, bytes, previous[..])
  {
    scanline := new Byte[|bytes|](i requires 0 <= i < |bytes| => bytes[i]);
    assert scanline[..] == bytes;
    UnfilterInPlace(kind, scanline, previous);
  }

  /** One round of the row loop. */
  method TakeRow(kind: nat, bytes: seq<Byte>, previous: array<Byte>, tally: Tally, y: nat, width: nat, corners: set<(nat, nat)>)
    returns (scanline: array<Byte>, t: Tally)
    requires kind <= 4 && |bytes| == previous.Length == BYTES_PER_PIXEL * width
    ensures fresh(scanline) && scanline[..] == Unfiltered(kind, bytes, previous[..])
    ensures t == AddRow(tally, Unfiltered(kind, bytes, previous[..]), y, width, corners)
  {
    scanline := ReadRow(kind, bytes, previous);
    t := TallyRow(tally, scanline, y, width, corners);
  }

  /** The row loop of `png_rgba_alpha_stats`; `None` when a filter type is unknown. */
  method TallyImage(raw: seq<Byte>, width: nat, height: nat) returns (r: Option<Tally>)
    requires width > 0 && height > 0 && |raw| == height * (BYTES_PER_PIXEL * width + 1)
    ensures var whole := Decoded(raw, height, Zeros(BYTES_PER_PIXEL * width));
            && (r.None? <==> whole.None?)
            && (r.Some? ==> Sized(whole.value, width) && r.value == TallyOf(whole.value, width))
  {
    var stride := BYTES_PER_PIXEL * width;
    var previous := new Byte[stride](_ => 0);
    assert previous[..] == Zeros(stride);
    var start, corners := EmptyTally(width, height), Corners(width, height);
    var tally := start;
    var rest := raw;
    ghost var rows: Image, left := [], height;
    ghost var whole := Decoded(raw, height, Zeros(stride));
    assert whole.Some? ==> [] + whole.value == whole.value;
    for y := 0 to height
      invariant previous.Length == stride
      invariant |rows| == y && Sized(rows, width)
      invariant left == height - y && |rest| == left * (stride + 1)
      invariant Remaining(whole, rows, Decoded(rest, left, previous[..]))
      invariant tally == AddRows(rows, width, y, start, corners)
    {
      RestLength(rest, left, stride + 1);
      var kind := rest[0];
      if kind > 4 {
        return None;
      }
      DecodedStep(whole, rows, rest, left, previous[..]);
      previous, tally := TakeRow(kind, rest[1..stride + 1], previous, tally, y, width, corners);
      AddRowsKeeps(rows, previous[..], width, y, start, corners);
      rows := rows + [previous[..]];
      rest, left := rest[stride + 1..], left - 1;
    }
    assert rows + [] == rows;
    r := Some(tally);
  }

  /** The statistics of the pixel data of a valid header. */
  method AlphaStats(raw: seq<Byte>, width: nat, height: nat) returns (r: Option<Stats>)
    requires width > 0 && height > 0 && |raw| == height * (BYTES_PER_PIXEL * width + 1)
    ensures r.None? <==> Decoded(raw, height, Zeros(BYTES_PER_PIXEL * width)).None?
    ensures r.Some? ==>
              var rows := Decoded(raw, height, Zeros(BYTES_PER_PIXEL * width)).value;
              Sized(rows, width) && Describes(r.value, rows, width)
  {
    var tally := TallyImage(raw, width, height);
    if tally.None? {
      return None;
    }
    TallyDescribes(Decoded(raw, height, Zeros(BYTES_PER_PIXEL * width)).value, width);
    r := Some(StatsFrom(tally.value, CornerList(width, height)));
  }

  lemma RestLength(rest: seq<Byte>, left: nat, bytes: nat)
    requires left > 0 && |rest| == left * bytes
    ensures bytes <= |rest| && |rest[bytes..]| == (left - 1) * bytes
  {
    OneRowMore(left, bytes);
    assert 0 <= (left - 1) * bytes;
  }

  lemma DecodedStep(whole: Option<Image>, rows: Image, raw: seq<Byte>, height: nat, previous: seq<Byte>)
    requires height > 0 && |raw| == height * (|previous| + 1) && |raw[|previous| + 1..]| == (height - 1) * (|previous| + 1)
    requires Remaining(whole, rows, Decoded(raw, height, previous)) && raw[0] <= 4
    ensures var row := Unfiltered(raw[0], raw[1..|previous| + 1], previous);
            Remaining(whole, rows + [row], Decoded(raw[|previous| + 1..], height - 1, row))
  {
    var row := Unfiltered(raw[0], raw[1..|previous| + 1], previous);
    var rest := Decoded(raw[|previous| + 1..], height - 1, row);
    if rest.Some? {
      assert rows + ([row] + rest.value) == rows + [row] + rest.value;
    }
  }

  /** The pixel loop of one row. */
  method TallyRow(start: Tally, scanline: array<Byte>, y: nat, width: nat, corners: set<(nat, nat)>) returns (t: Tally)
    requires scanline.Length == BYTES_PER_PIXEL * width
    ensures t == AddRow(start, scanline[..], y, width, corners)
  {
    t := start;
    for x := 0 to width
      invariant t == AddRow(start, scanline[..], y, x, corners)
    {
      var alpha := scanline[x * BYTES_PER_PIXEL + 3];
      if (x, y) in corners {
        t := t.(corners := t.corners[(x, y) := alpha]);
      }
      if alpha == 0 {
        t := t.(transparent := t.transparent + 1);
        continue;
      }
      t := t.(visible := t.visible + 1);
      if alpha == 255 {
        t := t.(solid := t.solid + 1);
      }
      t := t.(minX := Min(t.minX, x), minY := Min(t.minY, y), maxX := Max(t.maxX, x), maxY := Max(t.maxY, y));
    }
  }

  /** The rows still to be decoded complete the rows already decoded. */
  ghost predicate Remaining(whole: Option<Image>, rows: Image, rest: Option<Image>) {
    whole == if rest.None? then None else Some(rows + rest.value)
  }

  lemma {:induction false} AddRowsPrefix(rows: Image, more: Image, width: nat, n: nat, start: Tally, corners: set<(nat, nat)>)
    requires Sized(rows, width) && Sized(rows + more, width) && n <= |rows|
    ensures AddRows(rows + more, width, n, start, corners) == AddRows(rows, width, n, start, corners)
  {
    if n > 0 {
      AddRowsPrefix(rows, more, width, n - 1, start, corners);
    }
  }

  lemma AddRowsKeeps(rows: Image, row: seq<Byte>, width: nat, y: nat, start: Tally, corners: set<(nat, nat)>)
    requires Sized(rows, width) && |row| == BYTES_PER_PIXEL * width && y == |rows|
    ensures Sized(rows + [row], width)
    ensures AddRows(rows + [row], width, y + 1, start, corners)
            == AddRow(AddRows(rows, width, y, start, corners), row, y, width, corners)
  {
    AddRowsPrefix(rows, [row], width, y, start, corners);
  }
}
