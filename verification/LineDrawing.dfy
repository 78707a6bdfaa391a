/** SetPixel and DrawLine of i2c/ssd1306_i2c/ssd1306_i2c.c: Bresenham's algorithm on a frame buffer
    of 128 x 32 pixels, one bit each, every byte holding eight pixels of one column. */
module LineDrawing {
  import opened Words

  const WIDTH := 128
  const HEIGHT := 32
  const BUF_LEN := 512

  predicate OnScreen(x: int, y: int) {
    0 <= x < WIDTH && 0 <= y < HEIGHT
  }

  function ByteIndex(x: int, y: int): (i: nat)
    requires OnScreen(x, y)
    ensures i < BUF_LEN
  {
    y / 8 * WIDTH + x
  }

  function PixelMask(k: nat): bv8
    requires k < 8
  {
    [1, 2, 4, 8, 16, 32, 64, 128][k]
  }

  /** How the display reads the buffer: a page of eight rows is 128 bytes, one for each column, and the row at
      the top of the page is the bit of value 1. */
  predicate Pixel(buf: seq<bv8>, x: int, y: int)
    requires |buf| == 512 && OnScreen(x, y)
  {
    BinaryDigit(buf[y / 8 * 128 + x] as int, y % 8)
  }

  predicate BinaryDigit(value: nat, k: nat) {
    value / Pow2(k) % 2 == 1
  }

  /** The byte with the mask's bit set or cleared. */
  function Written(byte: bv8, mask: bv8, on: bool): bv8 {
    if on then byte | mask else byte & !mask
  }

  predicate Shows(byte: bv8, mask: bv8) {
    byte & mask != 0
  }

  lemma {:induction false} MaskIsBit(byte: bv8, k: nat)
    requires k < 8
    ensures Shows(byte, PixelMask(k)) <==> BinaryDigit(byte as int, k)
    decreases k
  {
    hide Shows, PixelMask, BinaryDigit, HalfByte;
    if k == 0 {
      LowestBit(byte);
    } else {
      NextMask(byte, k);
      HalfValue(byte);
      MaskIsBit(HalfByte(byte), k - 1);
      HalfBit(byte as int, k);
    }
  }

  function HalfByte(byte: bv8): bv8 {
    byte >> 1
  }

  lemma HalfValue(byte: bv8)
    ensures (HalfByte(byte) as int) == (byte as int) / 2
  {
  }

  lemma LowestBit(byte: bv8)
    ensures Shows(byte, PixelMask(0)) <==> BinaryDigit(byte as int, 0)
  {
  }

  lemma NextMask(byte: bv8, k: nat)
    requires 0 < k < 8
    ensures Shows(byte, PixelMask(k)) <==> Shows(HalfByte(byte), PixelMask(k - 1))
  {
  }

  lemma HalfBit(b: nat, k: nat)
    requires k > 0
    ensures BinaryDigit(b, k) == BinaryDigit(b / 2, k - 1)
  {
    QuotientTwice(b, 2, Pow2(k - 1));
  }

  lemma QuotientTwice(x: nat, m: nat, n: nat)
    requires m > 0 && n > 0
    ensures m * n > 0 && x / (m * n) == x / m / n
  {
    var q := x / m / n;
    assert x == m * (x / m) + x % m && x / m == n * q + x / m % n;
    var rest := m * (x / m % n) + x % m;
    assert x == m * n * q + rest by {
      assert m * (n * q + x / m % n) == m * n * q + m * (x / m % n);
    }
    ProductGrows(m, x / m % n, n);
    assert 0 <= rest < m * n;
    assert x == m * n * (x / (m * n)) + x % (m * n);
    ProductGrows(m * n, q, x / (m * n));
    ProductGrows(m * n, x / (m * n), q);
  }

  lemma WrittenBit(byte: bv8, j: nat, k: nat, on: bool)
    requires j < 8 && k < 8
    ensures Shows(Written(byte, PixelMask(j), on), PixelMask(k)) == if j == k then on else Shows(byte, PixelMask(k))
  {
    hide Shows, Written;
    if j == k {
      WrittenSelf(byte, PixelMask(j), on);
    } else {
      WrittenOther(byte, PixelMask(j), PixelMask(k), on);
    }
  }

  lemma WrittenSelf(byte: bv8, mask: bv8, on: bool)
    requires mask != 0
    ensures Shows(Written(byte, mask, on), mask) == on
  {
  }

  lemma WrittenOther(byte: bv8, mask: bv8, other: bv8, on: bool)
    requires mask & other == 0
    ensures Shows(Written(byte, mask, on), other) == Shows(byte, other)
  {
  }

  method SetPixel(buf: array<bv8>, x: int, y: int, on: bool)
    requires buf.Length == BUF_LEN && OnScreen(x, y)
    modifies buf
    ensures forall px, py :: OnScreen(px, py) ==>
      Pixel(buf[..], px, py) == if px == x && py == y then on else old(Pixel(buf[..], px, py))
  {
    hide PixelMask, Shows, Pixel, Written;
    ghost var before := buf[..];
    var byteIdx := y / 8 * WIDTH + x;
    var byte := buf[byteIdx];
    byte := Written(byte, PixelMask(y % 8), on);
    buf[byteIdx] := byte;
    assert buf[..] == before[byteIdx := Written(before[byteIdx], PixelMask(y % 8), on)];
    PixelWritten(before, x, y, on);
  }

  lemma PixelWritten(buf: seq<bv8>, x: int, y: int, on: bool)
    requires |buf| == BUF_LEN && OnScreen(x, y)
    ensures var after := buf[ByteIndex(x, y) := Written(buf[ByteIndex(x, y)], PixelMask(y % 8), on)];
            forall px, py :: OnScreen(px, py) ==>
              Pixel(after, px, py) == if px == x && py == y then on else Pixel(buf, px, py)
  {
    hide PixelMask, Shows, Written, BinaryDigit;
    forall px, py | OnScreen(px, py)
      ensures Pixel(buf[ByteIndex(x, y) := Written(buf[ByteIndex(x, y)], PixelMask(y % 8), on)], px, py)
           == if px == x && py == y then on else Pixel(buf, px, py)
    {
      WrittenBit(buf[ByteIndex(x, y)], y % 8, py % 8, on);
      MaskIsBit(buf[ByteIndex(x, y)], py % 8);
      MaskIsBit(Written(buf[ByteIndex(x, y)], PixelMask(y % 8), on), py % 8);
    }
  }

  // ---------------------------------------------------------------------------------------
  // The ideal line

  function Max(a: nat, b: nat): nat {
    if a > b then a else b
  }

  function Sign(from: int, to: int): int {
    if from < to then 1 else -1
  }

  /** How far an axis of length len has advanced after k of m steps: len * k / m, rounded half up. */
  function Along(len: nat, k: nat, m: nat): nat {
    if m == 0 then 0 else (2 * len * k + m) / (2 * m)
  }

  /** The number of steps from one end to the other. */
  function Steps(x0: int, y0: int, x1: int, y1: int): nat {
    Max(Abs(x1 - x0), Abs(y1 - y0))
  }

  /** The k-th pixel of the line. */
  function Point(x0: int, y0: int, x1: int, y1: int, k: nat): (int, int) {
    var m := Steps(x0, y0, x1, y1);
    (x0 + Sign(x0, x1) * Along(Abs(x1 - x0), k, m), y0 + Sign(y0, y1) * Along(Abs(y1 - y0), k, m))
  }

  predicate OnLine(x0: int, y0: int, x1: int, y1: int, px: int, py: int) {
    exists k :: 0 <= k <= Steps(x0, y0, x1, y1) && Point(x0, y0, x1, y1, k) == (px, py)
  }

  lemma AlongBounds(len: nat, k: nat, m: nat)
    requires m > 0
    ensures 2 * (m * Along(len, k, m)) <= 2 * (len * k) + m < 2 * (m * Along(len, k, m)) + 2 * m
  {
    var n := 2 * len * k + m;
    assert n == 2 * (len * k) + m;
    assert n == 2 * m * (n / (2 * m)) + n % (2 * m);
    assert 2 * m * (n / (2 * m)) == 2 * (m * (n / (2 * m)));
  }

  lemma AlongUnique(len: nat, k: nat, m: nat, q: nat)
    requires m > 0 && 2 * (m * q) <= 2 * (len * k) + m < 2 * (m * q) + 2 * m
    ensures Along(len, k, m) == q
  {
    AlongBounds(len, k, m);
    var p := Along(len, k, m);
    ProductGrows(m, p, q);
    ProductGrows(m, q, p);
  }

  lemma AlongStart(len: nat, m: nat)
    ensures Along(len, 0, m) == 0
  {
    if m > 0 {
      AlongUnique(len, 0, m, 0);
    }
  }

  /** The longer axis advances by one at each step; every axis arrives after m steps. */
  lemma AlongMajor(k: nat, m: nat)
    requires m > 0
    ensures Along(m, k, m) == k
  {
    AlongUnique(m, k, m, k);
  }

  lemma AlongEnd(len: nat, m: nat)
    requires len <= m
    ensures Along(len, m, m) == len
  {
    if m > 0 {
      assert m * len == len * m;
      AlongUnique(len, m, m, len);
    }
  }

  /** An axis advances by at most one, and does so exactly when the rounded value moves past the next half. */
  lemma AlongStep(len: nat, k: nat, m: nat)
    requires m > 0 && len <= m
    ensures var i := Along(len, k, m);
            Along(len, k + 1, m) == if 2 * (len * k) + 2 * len + m >= 2 * (m * i) + 2 * m then i + 1 else i
  {
    var i := Along(len, k, m);
    AlongBounds(len, k, m);
    assert len * (k + 1) == len * k + len;
    assert m * (i + 1) == m * i + m;
    if 2 * (len * k) + 2 * len + m >= 2 * (m * i) + 2 * m {
      AlongUnique(len, k + 1, m, i + 1);
    } else {
      AlongUnique(len, k + 1, m, i);
    }
  }

  // ---------------------------------------------------------------------------------------
  // The code

  /** The error term after i x-steps and j y-steps. */
  function ErrorTerm(a: nat, b: nat, i: nat, j: nat): int {
    a * j - b * i + a - b
  }

  /** The two tests on e2 are exactly the steps of the ideal line. */
  lemma TestsFollowLine(a: nat, b: nat, k: nat)
    requires k < Max(a, b)
    ensures var m := Max(a, b);
            var i, j := Along(a, k, m), Along(b, k, m);
            var e2 := 2 * ErrorTerm(a, b, i, j);
            && Along(a, k + 1, m) == (if e2 >= 0 - b then i + 1 else i)
            && Along(b, k + 1, m) == (if e2 <= a then j + 1 else j)
  {
    var m := Max(a, b);
    var i, j := Along(a, k, m), Along(b, k, m);
    AlongStep(a, k, m);
    AlongStep(b, k, m);
    AlongBounds(a, k, m);
    AlongBounds(b, k, m);
    if a == m {
      AlongMajor(k, m);
      assert i == k && b * i == b * k;
    }
    if b == m {
      AlongMajor(k, m);
      assert j == k && a * j == a * k;
    }
  }

  function ErrorAt(x0: int, y0: int, x1: int, y1: int, k: nat): int {
    var a, b, m := Abs(x1 - x0), Abs(y1 - y0), Steps(x0, y0, x1, y1);
    ErrorTerm(a, b, Along(a, k, m), Along(b, k, m))
  }

  lemma FirstPoint(x0: int, y0: int, x1: int, y1: int)
    ensures Point(x0, y0, x1, y1, 0) == (x0, y0)
    ensures ErrorAt(x0, y0, x1, y1, 0) == Abs(x1 - x0) - Abs(y1 - y0)
  {
    hide Along;
    AlongStart(Abs(x1 - x0), Steps(x0, y0, x1, y1));
    AlongStart(Abs(y1 - y0), Steps(x0, y0, x1, y1));
  }

  /** One round of the loop takes the k-th pixel and error term to the next ones. */
  lemma NextPoint(x0: int, y0: int, x1: int, y1: int, k: nat)
    requires k < Steps(x0, y0, x1, y1)
    ensures var dx, dy := Abs(x1 - x0), 0 - Abs(y1 - y0);
            var p, err := Point(x0, y0, x1, y1, k), ErrorAt(x0, y0, x1, y1, k);
            && Point(x0, y0, x1, y1, k + 1) == (if 2 * err >= dy then p.0 + Sign(x0, x1) else p.0,
                                                if 2 * err <= dx then p.1 + Sign(y0, y1) else p.1)
            && ErrorAt(x0, y0, x1, y1, k + 1)
                 == err + (if 2 * err >= dy then dy else 0) + (if 2 * err <= dx then dx else 0)
  {
    hide Along, ErrorTerm;
    var a, b, m := Abs(x1 - x0), Abs(y1 - y0), Steps(x0, y0, x1, y1);
    TestsFollowLine(a, b, k);
    ErrorSteps(a, b, Along(a, k, m), Along(b, k, m));
  }

  method DrawLine(buf: array<bv8>, startX: int, startY: int, x1: int, y1: int, on: bool)
    returns (ghost drawn: seq<(int, int)>)
    requires buf.Length == BUF_LEN && OnScreen(startX, startY) && OnScreen(x1, y1)
    modifies buf
    ensures |drawn| == Steps(startX, startY, x1, y1) + 1
    ensures forall k :: 0 <= k < |drawn| ==> drawn[k] == Point(startX, startY, x1, y1, k)
    ensures forall px, py :: OnScreen(px, py) ==>
      Pixel(buf[..], px, py) == if OnLine(startX, startY, x1, y1, px, py) then on else old(Pixel(buf[..], px, py))
  {
    hide Pixel, OnScreen, Point, ErrorAt, Steps, OnLine;
    var x0, y0 := startX, startY;
    var dx := Abs(x1 - x0);
    var sx := if x0 < x1 then 1 else -1;
    var dy := -Abs(y1 - y0);
    var sy := if y0 < y1 then 1 else -1;
    var err := dx + dy;
    ghost var m := Steps(x0, y0, x1, y1);
    ghost var k := 0;
    drawn := [];
    FirstPoint(x0, y0, x1, y1);
    while true
      invariant 0 <= k <= m && |drawn| == k
      invariant (x0, y0) == Point(startX, startY, x1, y1, k)
      invariant err == ErrorAt(startX, startY, x1, y1, k)
      invariant forall h :: 0 <= h < k ==> drawn[h] == Point(startX, startY, x1, y1, h)
      invariant forall px, py :: OnScreen(px, py) ==>
        Pixel(buf[..], px, py) == if (px, py) in drawn then on else old(Pixel(buf[..], px, py))
      decreases m - k
    {
      InsideBox(startX, startY, x1, y1, k);
      OnScreenInside(startX, startY, x1, y1, x0, y0);
      SetPixel(buf, x0, y0, on);
      drawn := drawn + [(x0, y0)];
      ArrivedAtEnd(startX, startY, x1, y1, k);
      if x0 == x1 && y0 == y1 {
        break;
      }
      var e2 := 2 * err;
      NextPoint(startX, startY, x1, y1, k);
      if e2 >= dy {
        err := err + dy;
        x0 := x0 + sx;
      }
      if e2 <= dx {
        err := err + dx;
        y0 := y0 + sy;
      }
      k := k + 1;
    }
    forall px, py | OnScreen(px, py)
      ensures (px, py) in drawn <==> OnLine(startX, startY, x1, y1, px, py)
    {
      DrawnIsLine(drawn, startX, startY, x1, y1, px, py);
    }
  }

  lemma DrawnIsLine(drawn: seq<(int, int)>, x0: int, y0: int, x1: int, y1: int, px: int, py: int)
    requires |drawn| == Steps(x0, y0, x1, y1) + 1
    requires forall k :: 0 <= k < |drawn| ==> drawn[k] == Point(x0, y0, x1, y1, k)
    ensures (px, py) in drawn <==> OnLine(x0, y0, x1, y1, px, py)
  {
    hide Point;
    if OnLine(x0, y0, x1, y1, px, py) {
      var k :| 0 <= k <= Steps(x0, y0, x1, y1) && Point(x0, y0, x1, y1, k) == (px, py);
      assert drawn[k] == (px, py);
    }
  }

  lemma ErrorSteps(a: nat, b: nat, i: nat, j: nat)
    ensures ErrorTerm(a, b, i + 1, j) == ErrorTerm(a, b, i, j) - b
    ensures ErrorTerm(a, b, i, j + 1) == ErrorTerm(a, b, i, j) + a
    ensures ErrorTerm(a, b, i + 1, j + 1) == ErrorTerm(a, b, i, j) - b + a
  {
    assert a * (j + 1) == a * j + a && b * (i + 1) == b * i + b;
  }

  // ---------------------------------------------------------------------------------------
  // What the line is

  lemma {:induction false} AlongMonotone(len: nat, k: nat, n: nat, m: nat)
    requires len <= m && k <= n
    ensures Along(len, k, m) <= Along(len, n, m)
    decreases n - k
  {
    hide Along;
    if m > 0 && k < n {
      AlongStep(len, k, m);
      AlongMonotone(len, k + 1, n, m);
    } else if m == 0 {
      ZeroLength(len, k);
      ZeroLength(len, n);
    }
  }

  lemma ZeroLength(len: nat, k: nat)
    ensures Along(len, k, 0) == 0
  {
  }

  /** The line starts and ends at the given points and never leaves their bounding box. */
  lemma InsideBox(x0: int, y0: int, x1: int, y1: int, k: nat)
    requires k <= Steps(x0, y0, x1, y1)
    ensures Point(x0, y0, x1, y1, 0) == (x0, y0)
    ensures Point(x0, y0, x1, y1, Steps(x0, y0, x1, y1)) == (x1, y1)
    ensures var p := Point(x0, y0, x1, y1, k);
            && (x0 <= p.0 <= x1 || x1 <= p.0 <= x0) && (y0 <= p.1 <= y1 || y1 <= p.1 <= y0)
  {
    hide Along;
    var m, a, b := Steps(x0, y0, x1, y1), Abs(x1 - x0), Abs(y1 - y0);
    AlongStart(a, m);
    AlongStart(b, m);
    AlongEnd(a, m);
    AlongEnd(b, m);
    AlongMonotone(a, 0, k, m);
    AlongMonotone(a, k, m, m);
    AlongMonotone(b, 0, k, m);
    AlongMonotone(b, k, m, m);
  }

  lemma OnScreenInside(x0: int, y0: int, x1: int, y1: int, x: int, y: int)
    requires OnScreen(x0, y0) && OnScreen(x1, y1)
    requires (x0 <= x <= x1 || x1 <= x <= x0) && (y0 <= y <= y1 || y1 <= y <= y0)
    ensures OnScreen(x, y)
  {
  }

  /** The end point is reached at the last step and not before, so the equality test ends the loop. */
  lemma ArrivedAtEnd(x0: int, y0: int, x1: int, y1: int, k: nat)
    requires k <= Steps(x0, y0, x1, y1)
    ensures Point(x0, y0, x1, y1, k) == (x1, y1) <==> k == Steps(x0, y0, x1, y1)
  {
    hide Along;
    var m := Steps(x0, y0, x1, y1);
    InsideBox(x0, y0, x1, y1, k);
    if m > 0 {
      AlongMajor(k, m);
    }
  }

  /** Consecutive pixels are neighbours, and differ. */
  lemma PointsAreNeighbours(x0: int, y0: int, x1: int, y1: int, k: nat)
    requires k < Steps(x0, y0, x1, y1)
    ensures var p, q := Point(x0, y0, x1, y1, k), Point(x0, y0, x1, y1, k + 1);
            Abs(q.0 - p.0) <= 1 && Abs(q.1 - p.1) <= 1 && p != q
  {
    hide Along;
    var m, a, b := Steps(x0, y0, x1, y1), Abs(x1 - x0), Abs(y1 - y0);
    AlongStep(a, k, m);
    AlongStep(b, k, m);
    AlongMajor(k, m);
    AlongMajor(k + 1, m);
  }

  /** With i and j the steps taken along x and y, every pixel lies within half a pixel of the true line. */
  lemma PointsAreClose(x0: int, y0: int, x1: int, y1: int, k: nat)
    requires k <= Steps(x0, y0, x1, y1)
    ensures var p := Point(x0, y0, x1, y1, k);
            var i, j := Abs(p.0 - x0), Abs(p.1 - y0);
            2 * Abs(j * Abs(x1 - x0) - i * Abs(y1 - y0)) <= Steps(x0, y0, x1, y1)
  {
    var m, a, b := Steps(x0, y0, x1, y1), Abs(x1 - x0), Abs(y1 - y0);
    var i, j := Along(a, k, m), Along(b, k, m);
    StepsTaken(x0, y0, x1, y1, k);
    if m > 0 {
      CloseToLine(a, b, k, m);
    }
  }

  lemma StepsTaken(x0: int, y0: int, x1: int, y1: int, k: nat)
    ensures var p, m := Point(x0, y0, x1, y1, k), Steps(x0, y0, x1, y1);
            && Abs(p.0 - x0) == Along(Abs(x1 - x0), k, m) && Abs(p.1 - y0) == Along(Abs(y1 - y0), k, m)
  {
    hide Along;
  }

  lemma CloseToLine(a: nat, b: nat, k: nat, m: nat)
    requires m == Max(a, b) > 0
    ensures var i, j := Along(a, k, m), Along(b, k, m);
            2 * Abs(j * a - i * b) <= m
  {
    hide Along;
    AlongMajor(k, m);
    AlongBounds(a, k, m);
    AlongBounds(b, k, m);
    var i, j := Along(a, k, m), Along(b, k, m);
    if a == m {
      assert j * a == m * j && i * b == b * k;
    } else {
      assert j * a == a * k && i * b == m * i;
    }
  }
}
