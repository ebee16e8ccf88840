/**
  The feature locator (find_head_point): on an n by n mask stored row by
  row, find the lowest lit pixel of the probe column in the upper half, then
  the lit pixels nearest the middle on each side of the row below it, and
  return the point between them.
 */
module FeatureLocator {
  import opened Wrappers
  import opened ColorSpace

  /** The fixed column of the vertical scan, tuned to a capture about 100 pixels wide. */
  const ProbeColumn: nat := 50

  /** A column and row of the mask. */
  datatype Point = Point(x: nat, y: nat)

  /**
    The side of the square mask, `(len as f64).sqrt() as usize`: the
    integer square root of the length.
   */
  function SideLength(len: nat): (n: nat)
    ensures n * n <= len < (n + 1) * (n + 1)
  {
    RootFrom(len, 0)
  }

  /** The integer square root of len, counting up from a k whose square fits. */
  function RootFrom(len: nat, k: nat): (n: nat)
    requires k * k <= len
    ensures k <= n && n * n <= len < (n + 1) * (n + 1)
    decreases len - k
  {
    if (k + 1) * (k + 1) <= len then
      SquareAtLeast(k + 1);
      RootFrom(len, k + 1)
    else
      k
  }

  lemma SquareAtLeast(m: nat)
    ensures m <= m * m
  {
    if m > 0 {
      assert m * m == m * (m - 1) + m;
    }
  }

  /** Cell (row, col) of an n by n grid lies inside the first n * n bytes. */
  lemma InGrid(n: nat, row: nat, col: nat)
    requires row < n && col < n
    ensures row * n + col < n * n
  {
    assert (row + 1) * n == row * n + n;
    assert (row + 1) * n <= n * n by {
      MultiplyMonotone(row + 1, n, n);
    }
  }

  lemma MultiplyMonotone(a: nat, b: nat, c: nat)
    requires a <= b
    ensures a * c <= b * c
  {
    assert b * c - a * c == (b - a) * c;
  }

  /** The byte at (row, col) of an n by n mask, `image[row * n + col]`. */
  function Pixel(image: seq<uint8>, n: nat, row: nat, col: nat): (p: uint8)
    requires n * n <= |image| && row < n && col < n
  {
    InGrid(n, row, col);
    image[row * n + col]
  }

  /**
    `(0..k).rev().find(|&row| image[row * n + col] > 0)`: the largest row
    below k whose pixel in column col is nonzero.
   */
  function LastLitRow(image: seq<uint8>, n: nat, col: nat, k: nat): (r: Option<nat>)
    requires n * n <= |image| && col < n && k <= n
    ensures r.Some? ==> r.value < k && Pixel(image, n, r.value, col) > 0
    ensures r.Some? ==> forall row :: r.value < row < k ==> Pixel(image, n, row, col) == 0
    ensures r.None? ==> forall row :: 0 <= row < k ==> Pixel(image, n, row, col) == 0
    decreases k
  {
    if k == 0 then None
    else if Pixel(image, n, k - 1, col) > 0 then Some(k - 1)
    else LastLitRow(image, n, col, k - 1)
  }

  /**
    `(0..k).rev().find(|&col| image[row * n + col] > 0)`: the largest column
    below k whose pixel in the given row is nonzero.
   */
  function LastLitColumn(image: seq<uint8>, n: nat, row: nat, k: nat): (r: Option<nat>)
    requires n * n <= |image| && row < n && k <= n
    ensures r.Some? ==> r.value < k && Pixel(image, n, row, r.value) > 0
    ensures r.Some? ==> forall col :: r.value < col < k ==> Pixel(image, n, row, col) == 0
    ensures r.None? ==> forall col :: 0 <= col < k ==> Pixel(image, n, row, col) == 0
    decreases k
  {
    if k == 0 then None
    else if Pixel(image, n, row, k - 1) > 0 then Some(k - 1)
    else LastLitColumn(image, n, row, k - 1)
  }

  /**
    `(lo..n).find(|&col| image[row * n + col] > 0)`: the smallest column
    from lo on whose pixel in the given row is nonzero.
   */
  function FirstLitColumn(image: seq<uint8>, n: nat, row: nat, lo: nat): (r: Option<nat>)
    requires n * n <= |image| && row < n
    ensures r.Some? ==> lo <= r.value < n && Pixel(image, n, row, r.value) > 0
    ensures r.Some? ==> forall col :: lo <= col < r.value ==> Pixel(image, n, row, col) == 0
    ensures r.None? ==> forall col :: lo <= col < n ==> Pixel(image, n, row, col) == 0
    decreases n - lo
  {
    if lo >= n then None
    else if Pixel(image, n, row, lo) > 0 then Some(lo)
    else FirstLitColumn(image, n, row, lo + 1)
  }

  /** top is the row nearest the middle, in the upper half, whose probe-column pixel is nonzero. */
  predicate IsProbeHit(image: seq<uint8>, n: nat, top: nat)
    requires n * n <= |image| && ProbeColumn < n
  {
    && top < n / 2
    && Pixel(image, n, top, ProbeColumn) > 0
    && forall row :: top < row < n / 2 ==> Pixel(image, n, row, ProbeColumn) == 0
  }

  /** left is the nonzero column of row y nearest the middle on its left, before column n / 2. */
  predicate IsLeftEdge(image: seq<uint8>, n: nat, y: nat, left: nat)
    requires n * n <= |image| && y < n
  {
    && left < n / 2
    && Pixel(image, n, y, left) > 0
    && forall col :: left < col < n / 2 ==> Pixel(image, n, y, col) == 0
  }

  /** right is the nonzero column of row y nearest the middle on its right, after column n / 2. */
  predicate IsRightEdge(image: seq<uint8>, n: nat, y: nat, right: nat)
    requires n * n <= |image| && y < n
  {
    && n / 2 < right < n
    && Pixel(image, n, y, right) > 0
    && forall col :: n / 2 < col < right ==> Pixel(image, n, y, col) == 0
  }

  /**
    find_head_point. The mask must be wider than the probe column, which
    keeps every index it reads inside the mask.
   */
  function FindHeadPoint(image: seq<uint8>): (p: Option<Point>)
    requires ProbeColumn < SideLength(|image|)
    ensures var n := SideLength(|image|);
            (forall row :: 0 <= row < n / 2 ==> Pixel(image, n, row, ProbeColumn) == 0) ==> p.None?
    ensures var n := SideLength(|image|);
            p.Some? ==> 1 <= p.value.y <= n / 2 < n && IsProbeHit(image, n, p.value.y - 1)
    ensures var n := SideLength(|image|);
            p.Some? ==> exists left: nat, right: nat ::
              && IsLeftEdge(image, n, p.value.y, left) && IsRightEdge(image, n, p.value.y, right)
              && left <= p.value.x <= right < n && p.value.x == (left + right) / 2
  {
    var n := SideLength(|image|);
    match LastLitRow(image, n, ProbeColumn, n / 2)
    case None => None
    case Some(highestY) =>
      match LastLitColumn(image, n, highestY + 1, n / 2)
      case None => None
      case Some(left) =>
        match FirstLitColumn(image, n, highestY + 1, n / 2 + 1)
        case None => None
        case Some(right) =>
          assert IsLeftEdge(image, n, highestY + 1, left) && IsRightEdge(image, n, highestY + 1, right);
          Some(Point((left + right) / 2, highestY + 1))
  }

  /** Row y has no nonzero pixel left of column n / 2. */
  predicate NoneLeftOfMiddle(image: seq<uint8>, n: nat, y: nat)
    requires n * n <= |image| && y < n
  {
    forall col :: 0 <= col < n / 2 ==> Pixel(image, n, y, col) == 0
  }

  /** Row y has no nonzero pixel right of column n / 2. */
  predicate NoneRightOfMiddle(image: seq<uint8>, n: nat, y: nat)
    requires n * n <= |image| && y < n
  {
    forall col :: n / 2 < col < n ==> Pixel(image, n, y, col) == 0
  }

  /**
    The scans find what the predicates describe: whenever a probe hit and
    both edges on the row below it exist, find_head_point returns the
    floor-midpoint of the edges on that row.
   */
  lemma HeadPointComplete(image: seq<uint8>, top: nat, left: nat, right: nat)
    requires ProbeColumn < SideLength(|image|)
    requires var n := SideLength(|image|);
             && IsProbeHit(image, n, top)
             && IsLeftEdge(image, n, top + 1, left) && IsRightEdge(image, n, top + 1, right)
    ensures FindHeadPoint(image) == Some(Point((left + right) / 2, top + 1))
  {
  }

  /**
    Once the probe hit is found, find_head_point returns None exactly when
    the row below it has no nonzero pixel left of column n / 2 or none right
    of it.
   */
  lemma HeadPointNeedsBothEdges(image: seq<uint8>, top: nat)
    requires ProbeColumn < SideLength(|image|)
    requires IsProbeHit(image, SideLength(|image|), top)
    ensures var n := SideLength(|image|);
            FindHeadPoint(image).None? <==>
              NoneLeftOfMiddle(image, n, top + 1) || NoneRightOfMiddle(image, n, top + 1)
  {
  }

  /** A changed byte outside row y's pixels other than the middle one leaves those pixels alone. */
  lemma SamePixel(image: seq<uint8>, changed: seq<uint8>, n: nat, y: nat, col: nat)
    requires n * n <= |image| == |changed| && y < n && col < n && col != n / 2
    requires forall j :: 0 <= j < |image| && j != y * n + n / 2 ==> changed[j] == image[j]
    ensures Pixel(changed, n, y, col) == Pixel(image, n, y, col)
  {
    InGrid(n, y, col);
    assert y * n + col != y * n + n / 2;
  }

  /**
    The edge scans on row y never read column n / 2: changing that one byte
    leaves both results as they were.
   */
  lemma MiddleColumnNotRead(image: seq<uint8>, changed: seq<uint8>, n: nat, y: nat)
    requires n * n <= |image| == |changed| && y < n
    requires forall j :: 0 <= j < |image| && j != y * n + n / 2 ==> changed[j] == image[j]
    ensures LastLitColumn(changed, n, y, n / 2) == LastLitColumn(image, n, y, n / 2)
    ensures FirstLitColumn(changed, n, y, n / 2 + 1) == FirstLitColumn(image, n, y, n / 2 + 1)
  {
    forall col | 0 <= col < n && col != n / 2
      ensures Pixel(changed, n, y, col) == Pixel(image, n, y, col)
    {
      SamePixel(image, changed, n, y, col);
    }
    LeftScanSkipsMiddle(image, changed, n, y, n / 2);
    RightScanSkipsMiddle(image, changed, n, y, n / 2 + 1);
  }

  lemma {:induction false} LeftScanSkipsMiddle(image: seq<uint8>, changed: seq<uint8>, n: nat, y: nat, k: nat)
    requires n * n <= |image| == |changed| && y < n && k <= n / 2
    requires forall col :: 0 <= col < n && col != n / 2 ==> Pixel(changed, n, y, col) == Pixel(image, n, y, col)
    ensures LastLitColumn(changed, n, y, k) == LastLitColumn(image, n, y, k)
  {
    if k > 0 {
      LeftScanSkipsMiddle(image, changed, n, y, k - 1);
    }
  }

  lemma {:induction false} RightScanSkipsMiddle(image: seq<uint8>, changed: seq<uint8>, n: nat, y: nat, lo: nat)
    requires n * n <= |image| == |changed| && y < n && lo > n / 2
    requires forall col :: 0 <= col < n && col != n / 2 ==> Pixel(changed, n, y, col) == Pixel(image, n, y, col)
    ensures FirstLitColumn(changed, n, y, lo) == FirstLitColumn(image, n, y, lo)
    decreases n - lo
  {
    if lo < n {
      RightScanSkipsMiddle(image, changed, n, y, lo + 1);
    }
  }

  /** An all-zero mask has no head point. */
  lemma BlankMask(image: seq<uint8>)
    requires ProbeColumn < SideLength(|image|)
    requires forall j :: 0 <= j < |image| ==> image[j] == 0
    ensures FindHeadPoint(image) == None
  {
    var n := SideLength(|image|);
    forall row | 0 <= row < n / 2
      ensures Pixel(image, n, row, ProbeColumn) == 0
    {
      InGrid(n, row, ProbeColumn);
    }
  }

  /**
    A vertical bar in the probe column covering rows 0 to neck - 1 of the
    upper half, and a row neck whose only nonzero pixels are in columns 40
    and 60, give the point (50, neck).
   */
  lemma BarAndNeck(image: seq<uint8>, neck: nat)
    requires 82 <= SideLength(|image|) < 120
    requires var n := SideLength(|image|);
             && 1 <= neck < n / 2
             && (forall row :: 0 <= row < n / 2 ==> (Pixel(image, n, row, ProbeColumn) > 0 <==> row < neck))
             && (forall col :: 0 <= col < n ==> (Pixel(image, n, neck, col) > 0 <==> col == 40 || col == 60))
    ensures FindHeadPoint(image) == Some(Point(50, neck))
  {
    var n := SideLength(|image|);
    assert Pixel(image, n, neck, 40) > 0 && Pixel(image, n, neck, 60) > 0;
    assert Pixel(image, n, neck - 1, ProbeColumn) > 0;
    HeadPointComplete(image, neck - 1, 40, 60);
  }
}
