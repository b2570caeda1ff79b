/** Block transfers on the frame buffer (SimpleFbDxe.c).  Memory is bytes; a pixel has four. */
module FrameBuffer {
  import opened Words

  const PIXEL: nat := 4

  /** POS_TO_FB, relative to the frame buffer base. */
  function Pos(ppsl: nat, x: nat, y: nat): nat {
    y * ppsl * PIXEL + x * PIXEL
  }

  /** A rectangle of a screen of `ppsl` pixels per line kept in `len` bytes. */
  predicate InBounds(len: nat, ppsl: nat, x: nat, y: nat, w: nat, h: nat) {
    x + w <= ppsl && (y + h) * ppsl * PIXEL <= len
  }

  lemma Rows(ppsl: nat, a: nat, b: nat)
    requires a <= b
    ensures a * ppsl * PIXEL <= b * ppsl * PIXEL
    ensures (a + 1) * ppsl * PIXEL == a * ppsl * PIXEL + ppsl * PIXEL
  {
    assert b * ppsl == a * ppsl + (b - a) * ppsl;
    assert (a + 1) * ppsl == a * ppsl + ppsl;
  }

  /** Runs of pixels in different lines do not meet. */
  lemma LinesApart(ppsl: nat, x: nat, y: nat, w: nat, x': nat, y': nat)
    requires y < y' && x + w <= ppsl
    ensures Pos(ppsl, x, y) + PIXEL * w <= Pos(ppsl, x', y')
  {
    Rows(ppsl, y, y);
    Rows(ppsl, y + 1, y');
  }

  lemma RunFits(len: nat, ppsl: nat, x: nat, y: nat, w: nat, h: nat, i: nat)
    requires InBounds(len, ppsl, x, y, w, h) && i < h
    ensures Pos(ppsl, x, y + i) + PIXEL * w <= len
  {
    Rows(ppsl, y + i, y + i);
    Rows(ppsl, y + i + 1, y + h);
  }

  /** CopyMem inside one memory, overlap included. */
  function Moved(m: seq<byte>, d: nat, s: nat, n: nat): (r: seq<byte>)
    requires d + n <= |m| && s + n <= |m|
    ensures |r| == |m|
  {
    seq(|m|, p requires 0 <= p < |m| => if d <= p < d + n then m[p - d + s] else m[p])
  }

  lemma MovedAt(m: seq<byte>, d: nat, s: nat, n: nat, p: nat)
    requires d + n <= |m| && s + n <= |m| && p < |m|
    ensures Moved(m, d, s, n)[p] == if d <= p < d + n then m[p - d + s] else m[p]
  {
  }

  /** A copy line by line: run `i` of `n` bytes goes from `src[i]` to `dst[i]`. */
  datatype Plan = Plan(dst: seq<nat>, src: seq<nat>, n: nat)
  {
    ghost predicate Fits(len: nat) {
      |src| == |dst| && forall i :: 0 <= i < |dst| ==> dst[i] + n <= len && src[i] + n <= len
    }

    /** No two runs write the same byte. */
    ghost predicate Apart() {
      forall i, k :: 0 <= i < k < |dst| ==> dst[i] + n <= dst[k]
    }

    /** Byte `p` is in one of the first `k` destination runs. */
    ghost predicate Hits(k: nat, p: int)
      requires k <= |dst|
    {
      exists i :: 0 <= i < k && dst[i] <= p < dst[i] + n
    }

    /** No run reads a byte that an earlier run wrote. */
    ghost predicate Intact()
      requires |src| == |dst|
    {
      forall i, k :: 0 <= i < k < |dst| ==> dst[i] + n <= src[k] || src[k] + n <= dst[i]
    }
  }

  /** The memory after the first `k` runs. */
  function Lines(m: seq<byte>, c: Plan, k: nat): (r: seq<byte>)
    requires c.Fits(|m|) && k <= |c.dst|
    ensures |r| == |m|
  {
    if k == 0 then m else Moved(Lines(m, c, k - 1), c.dst[k - 1], c.src[k - 1], c.n)
  }

  /** Byte `j` of destination run `i` holds the original byte of the source run. */
  ghost predicate Shown(m: seq<byte>, r: seq<byte>, c: Plan, i: nat, j: nat)
    requires |r| == |m| && c.Fits(|m|) && i < |c.dst| && j < c.n
  {
    r[c.dst[i] + j] == m[c.src[i] + j]
  }

  /** A simultaneous copy: every destination run holds the original source run, and nothing else changed. */
  ghost predicate AtOnce(m: seq<byte>, r: seq<byte>, c: Plan) {
    && |r| == |m| && c.Fits(|m|)
    && (forall i, j :: 0 <= i < |c.dst| && 0 <= j < c.n ==> Shown(m, r, c, i, j))
    && (forall p :: 0 <= p < |m| && !c.Hits(|c.dst|, p) ==> r[p] == m[p])
  }

  /** Bytes outside the runs written so far are untouched. */
  lemma {:induction false} Untouched(m: seq<byte>, c: Plan, k: nat, p: nat)
    requires c.Fits(|m|) && k <= |c.dst| && p < |m| && !c.Hits(k, p)
    ensures Lines(m, c, k)[p] == m[p]
  {
    if k > 0 {
      assert !(c.dst[k - 1] <= p < c.dst[k - 1] + c.n);
      assert !c.Hits(k - 1, p);
      Untouched(m, c, k - 1, p);
      MovedAt(Lines(m, c, k - 1), c.dst[k - 1], c.src[k - 1], c.n, p);
    }
  }

  /** A run once written stays. */
  lemma {:induction false} RunStays(m: seq<byte>, c: Plan, i: nat, k: nat, j: nat)
    requires c.Fits(|m|) && c.Apart() && i < k <= |c.dst| && j < c.n
    ensures Lines(m, c, k)[c.dst[i] + j] == Lines(m, c, i + 1)[c.dst[i] + j]
    decreases k
  {
    if i + 1 < k {
      assert c.dst[i] + c.n <= c.dst[k - 1];
      RunStays(m, c, i, k - 1, j);
      MovedAt(Lines(m, c, k - 1), c.dst[k - 1], c.src[k - 1], c.n, c.dst[i] + j);
    }
  }

  /** What the loop leaves in a destination run is what it found in the source run at that moment. */
  lemma RunWritten(m: seq<byte>, c: Plan, i: nat, j: nat)
    requires c.Fits(|m|) && c.Apart() && i < |c.dst| && j < c.n
    ensures Lines(m, c, |c.dst|)[c.dst[i] + j] == Lines(m, c, i)[c.src[i] + j]
  {
    RunStays(m, c, i, |c.dst|, j);
    MovedAt(Lines(m, c, i), c.dst[i], c.src[i], c.n, c.dst[i] + j);
  }

  lemma IntactAtOnce(m: seq<byte>, c: Plan)
    requires c.Fits(|m|) && c.Apart() && c.Intact()
    ensures AtOnce(m, Lines(m, c, |c.dst|), c)
  {
    var r := Lines(m, c, |c.dst|);
    forall i, j | 0 <= i < |c.dst| && 0 <= j < c.n
      ensures Shown(m, r, c, i, j)
    {
      IntactRun(m, c, i, j);
    }
    forall p | 0 <= p < |m| && !c.Hits(|c.dst|, p)
      ensures r[p] == m[p]
    {
      Untouched(m, c, |c.dst|, p);
    }
  }

  lemma IntactRun(m: seq<byte>, c: Plan, i: nat, j: nat)
    requires c.Fits(|m|) && c.Apart() && c.Intact() && i < |c.dst| && j < c.n
    ensures Shown(m, Lines(m, c, |c.dst|), c, i, j)
  {
    RunWritten(m, c, i, j);
    UnwrittenSource(c, i, j);
    Untouched(m, c, i, c.src[i] + j);
  }

  lemma UnwrittenSource(c: Plan, i: nat, j: nat)
    requires |c.src| == |c.dst| && c.Intact() && i < |c.dst| && j < c.n
    ensures !c.Hits(i, c.src[i] + j)
  {
    forall k | 0 <= k < i
      ensures !(c.dst[k] <= c.src[i] + j < c.dst[k] + c.n)
    {
      assert c.dst[k] + c.n <= c.src[i] || c.src[i] + c.n <= c.dst[k];
    }
  }

  lemma FirstWritten(m: seq<byte>, c: Plan, i: nat, j0: nat, p: nat)
    requires c.Fits(|m|) && c.Apart() && 0 < i <= |c.dst| && j0 < c.n && p == c.dst[0] + j0
    ensures Lines(m, c, i)[p] == m[c.src[0] + j0]
  {
    RunStays(m, c, 0, i, j0);
    MovedAt(m, c.dst[0], c.src[0], c.n, p);
    assert Lines(m, c, 1) == Moved(m, c.dst[0], c.src[0], c.n);
  }

  /** A run that reads byte `j0` of run 0 after it was written gets what run 0 put there. */
  lemma RereadFirst(m: seq<byte>, c: Plan, i: nat, j: nat, j0: nat)
    requires c.Fits(|m|) && c.Apart() && 0 < i < |c.dst| && j < c.n && j0 < c.n && c.src[i] + j == c.dst[0] + j0
    ensures Lines(m, c, |c.dst|)[c.dst[i] + j] == m[c.src[0] + j0]
  {
    var p := c.src[i] + j;
    assert Lines(m, c, |c.dst|)[c.dst[i] + j] == Lines(m, c, i)[p] by {
      RunWritten(m, c, i, j);
    }
    FirstWritten(m, c, i, j0, p);
  }

  /** Where the lines of a rectangle start. */
  function Starts(ppsl: nat, x: nat, y: nat, h: nat): (r: seq<nat>)
    ensures |r| == h && forall i :: 0 <= i < h ==> r[i] == Pos(ppsl, x, y + i)
  {
    if h == 0 then [] else Starts(ppsl, x, y, h - 1) + [Pos(ppsl, x, y + h - 1)]
  }

  /** Both rectangles of a screen-to-screen copy. */
  datatype Copy = Copy(ppsl: nat, sx: nat, sy: nat, dx: nat, dy: nat, w: nat, h: nat)
  {
    predicate Fits(len: nat) {
      InBounds(len, ppsl, sx, sy, w, h) && InBounds(len, ppsl, dx, dy, w, h)
    }

    function Lines(): Plan {
      Plan(Starts(ppsl, dx, dy, h), Starts(ppsl, sx, sy, h), PIXEL * w)
    }
  }

  lemma CopyFits(c: Copy, len: nat)
    requires c.Fits(len)
    ensures c.Lines().Fits(len) && c.Lines().Apart()
  {
    forall i | 0 <= i < c.h
      ensures c.Lines().dst[i] + c.Lines().n <= len && c.Lines().src[i] + c.Lines().n <= len
    {
      RunFits(len, c.ppsl, c.sx, c.sy, c.w, c.h, i);
      RunFits(len, c.ppsl, c.dx, c.dy, c.w, c.h, i);
    }
    forall i, k | 0 <= i < k < c.h
      ensures c.Lines().dst[i] + c.Lines().n <= c.Lines().dst[k]
    {
      LinesApart(c.ppsl, c.dx, c.dy + i, c.w, c.dx, c.dy + k);
    }
  }

  method CopyMem(m: array<byte>, d: nat, s: nat, n: nat)
    requires d + n <= m.Length && s + n <= m.Length
    modifies m
    ensures m[..] == Moved(old(m[..]), d, s, n)
  {
    forall i | 0 <= i < n {
      m[d + i] := m[s + i];
    }
  }

  lemma NextLine(m: seq<byte>, c: Plan, k: nat)
    requires c.Fits(|m|) && k < |c.dst|
    ensures Lines(m, c, k + 1) == Moved(Lines(m, c, k), c.dst[k], c.src[k], c.n)
  {
  }

  lemma LineHere(c: Copy, len: nat, i: nat)
    requires c.Lines().Fits(len) && i < c.h
    ensures c.Lines().dst[i] == Pos(c.ppsl, c.dx, c.dy + i) && c.Lines().src[i] == Pos(c.ppsl, c.sx, c.sy + i)
    ensures Pos(c.ppsl, c.dx, c.dy + i) + PIXEL * c.w <= len && Pos(c.ppsl, c.sx, c.sy + i) + PIXEL * c.w <= len
  {
  }

  /** DisplayBlt, EfiBltVideoToVideo. */
  method VideoToVideo(fb: array<byte>, c: Copy)
    requires c.Fits(fb.Length)
    modifies fb
    ensures c.Lines().Fits(fb.Length) && fb[..] == Lines(old(fb[..]), c.Lines(), c.h)
  {
    CopyFits(c, fb.Length);
    ghost var was, plan := fb[..], c.Lines();
    for i := 0 to c.h
      invariant fb[..] == Lines(was, plan, i)
    {
      NextLine(was, plan, i);
      LineHere(c, fb.Length, i);
      CopyMem(fb, Pos(c.ppsl, c.dx, c.dy + i), Pos(c.ppsl, c.sx, c.sy + i), PIXEL * c.w);
    }
  }

  /** A screen-to-screen copy that does not move down is a simultaneous copy. */
  method ScrollUp(fb: array<byte>, c: Copy)
    requires c.Fits(fb.Length) && c.dy <= c.sy
    modifies fb
    ensures AtOnce(old(fb[..]), fb[..], c.Lines())
    ensures MovedPixels(old(fb[..]), fb[..], c)
  {
    CopyExact(c, fb.Length);
    ghost var was := fb[..];
    VideoToVideo(fb, c);
    AtOncePixels(was, fb[..], c);
  }

  /** Channel `q` of the pixel in row `i` and column `k` of the destination. */
  function TargetByte(c: Copy, i: nat, k: nat, q: nat): nat {
    ((c.dy + i) * c.ppsl + c.dx + k) * 4 + q
  }

  /** The same of the source. */
  function OriginByte(c: Copy, i: nat, k: nat, q: nat): nat {
    ((c.sy + i) * c.ppsl + c.sx + k) * 4 + q
  }

  predicate MovedPixel(m: seq<byte>, r: seq<byte>, c: Copy, i: nat, k: nat, q: nat) {
    TargetByte(c, i, k, q) < |r| && OriginByte(c, i, k, q) < |m| &&
    r[TargetByte(c, i, k, q)] == m[OriginByte(c, i, k, q)]
  }

  ghost predicate InTarget(c: Copy, p: int) {
    exists i: nat, k: nat, q: nat :: i < c.h && k < c.w && q < 4 && p == TargetByte(c, i, k, q)
  }

  /** Every pixel of the destination rectangle shows what the source rectangle showed, and no other byte changed. */
  ghost predicate MovedPixels(m: seq<byte>, r: seq<byte>, c: Copy) {
    && |r| == |m|
    && (forall i: nat, k: nat, q: nat :: i < c.h && k < c.w && q < 4 ==> MovedPixel(m, r, c, i, k, q))
    && (forall p :: 0 <= p < |m| && r[p] != m[p] ==> InTarget(c, p))
  }

  lemma LinePixel(c: Copy, i: nat, k: nat, q: nat)
    requires i < c.h
    ensures TargetByte(c, i, k, q) == c.Lines().dst[i] + 4 * k + q
    ensures OriginByte(c, i, k, q) == c.Lines().src[i] + 4 * k + q
  {
    assert (c.dy + i) * c.ppsl * 4 == ((c.dy + i) * c.ppsl) * 4;
    assert (c.sy + i) * c.ppsl * 4 == ((c.sy + i) * c.ppsl) * 4;
  }

  /** A simultaneous copy of lines, said in pixels. */
  lemma AtOncePixels(m: seq<byte>, r: seq<byte>, c: Copy)
    requires AtOnce(m, r, c.Lines())
    ensures MovedPixels(m, r, c)
  {
    forall i: nat, k: nat, q: nat | i < c.h && k < c.w && q < 4
      ensures MovedPixel(m, r, c, i, k, q)
    {
      LinePixel(c, i, k, q);
      assert Shown(m, r, c.Lines(), i, 4 * k + q);
    }
    forall p | 0 <= p < |m| && r[p] != m[p]
      ensures InTarget(c, p)
    {
      HitIsPixel(c, p);
    }
  }

  lemma HitIsPixel(c: Copy, p: int)
    requires c.Lines().Hits(c.h, p)
    ensures InTarget(c, p)
  {
    var plan := c.Lines();
    var i :| 0 <= i < c.h && plan.dst[i] <= p < plan.dst[i] + plan.n;
    var j := p - plan.dst[i];
    LinePixel(c, i, j / 4, j % 4);
    assert p == TargetByte(c, i, j / 4, j % 4);
  }

  /** Copies whose loop never reads a line it has already written: they do not move down, or not by so little,
      or the columns do not meet. */
  predicate Safe(c: Copy) {
    c.dy <= c.sy || c.sy + c.h <= c.dy || c.dx + c.w <= c.sx || c.sx + c.w <= c.dx
  }

  lemma SafeIsIntact(c: Copy, len: nat)
    requires c.Fits(len) && Safe(c)
    ensures c.Lines().Intact()
  {
    var plan := c.Lines();
    forall i, k | 0 <= i < k < c.h
      ensures plan.dst[i] + plan.n <= plan.src[k] || plan.src[k] + plan.n <= plan.dst[i]
    {
      if c.dy + i < c.sy + k {
        LinesApart(c.ppsl, c.dx, c.dy + i, c.w, c.sx, c.sy + k);
      } else if c.sy + k < c.dy + i {
        LinesApart(c.ppsl, c.sx, c.sy + k, c.w, c.dx, c.dy + i);
      }
    }
  }

  /** A screen of `len` bytes that is dark but for byte `p`. */
  function Spot(len: nat, p: nat): (r: seq<byte>)
    ensures |r| == len && forall i :: 0 <= i < len ==> r[i] == if i == p then 1 else 0
  {
    seq(len, i => if i == p then 1 else 0)
  }

  /** The unsafe copy in terms of its runs: line `i` reads, from byte `j` on, what line 0 wrote. */
  lemma UnsafeMeets(c: Copy, len: nat) returns (i: nat, j: nat, j0: nat)
    requires c.Fits(len) && !Safe(c)
    ensures 0 < i < c.h && j < PIXEL * c.w && j0 < PIXEL * c.w
    ensures c.Lines().src[i] + j == c.Lines().dst[0] + j0 && c.Lines().src[0] + j0 < c.Lines().dst[0]
  {
    var x := if c.sx < c.dx then c.dx else c.sx;
    i, j, j0 := c.dy - c.sy, PIXEL * (x - c.sx), PIXEL * (x - c.dx);
    LinesApart(c.ppsl, c.sx, c.sy, c.w, c.dx, c.dy);
    assert c.Lines().src[i] == Pos(c.ppsl, c.sx, c.dy) && c.Lines().dst[0] == Pos(c.ppsl, c.dx, c.dy);
  }

  /** An unsafe copy reads its first destination line again; a screen with one lit byte there shows it. */
  lemma UnsafeCopyDiffers(c: Copy, len: nat)
    requires c.Fits(len) && !Safe(c)
    ensures c.Lines().Fits(len)
    ensures exists m: seq<byte> :: |m| == len && !AtOnce(m, Lines(m, c.Lines(), c.h), c.Lines())
  {
    CopyFits(c, len);
    var plan := c.Lines();
    var i, j, j0 := UnsafeMeets(c, len);
    var m := Spot(len, plan.src[i] + j);
    RereadFirst(m, plan, i, j, j0);
    assert !Shown(m, Lines(m, plan, c.h), plan, i, j);
  }

  /** The loop copies at once on every screen of a given size exactly when the copy is safe. */
  lemma CopyExact(c: Copy, len: nat)
    requires c.Fits(len)
    ensures c.Lines().Fits(len)
    ensures (forall m: seq<byte> :: |m| == len ==> AtOnce(m, Lines(m, c.Lines(), c.h), c.Lines())) <==> Safe(c)
  {
    CopyFits(c, len);
    if Safe(c) {
      SafeIsIntact(c, len);
      forall m: seq<byte> | |m| == len
        ensures AtOnce(m, Lines(m, c.Lines(), c.h), c.Lines())
      {
        IntactAtOnce(m, c.Lines());
      }
    } else {
      UnsafeCopyDiffers(c, len);
    }
  }

  /** CopyMem from another memory. */
  function Put(m: seq<byte>, d: nat, from: seq<byte>, s: nat, n: nat): (r: seq<byte>)
    requires d + n <= |m| && s + n <= |from|
    ensures |r| == |m|
  {
    seq(|m|, p requires 0 <= p < |m| => if d <= p < d + n then from[p - d + s] else m[p])
  }

  method CopyFrom(m: array<byte>, d: nat, from: array<byte>, s: nat, n: nat)
    requires m != from && d + n <= m.Length && s + n <= from.Length
    modifies m
    ensures m[..] == Put(old(m[..]), d, from[..], s, n)
  {
    forall i | 0 <= i < n {
      m[d + i] := from[s + i];
    }
  }

  /** The runs of a plan fit into a destination and a source memory. */
  ghost predicate Between(c: Plan, len: nat, len': nat) {
    |c.src| == |c.dst| && forall i :: 0 <= i < |c.dst| ==> c.dst[i] + c.n <= len && c.src[i] + c.n <= len'
  }

  ghost predicate Carried(r: seq<byte>, from: seq<byte>, c: Plan, i: nat, j: nat)
    requires Between(c, |r|, |from|) && i < |c.dst| && j < c.n
  {
    r[c.dst[i] + j] == from[c.src[i] + j]
  }

  /** The first `k` runs were carried from `from` into `m`, giving `r`; nothing else changed. */
  ghost predicate Pasted(m: seq<byte>, from: seq<byte>, r: seq<byte>, c: Plan, k: nat) {
    && |r| == |m| && Between(c, |m|, |from|) && k <= |c.dst|
    && (forall i, j :: 0 <= i < k && 0 <= j < c.n ==> Carried(r, from, c, i, j))
    && (forall p :: 0 <= p < |m| && !c.Hits(k, p) ==> r[p] == m[p])
  }

  lemma PastedNext(m: seq<byte>, from: seq<byte>, r: seq<byte>, c: Plan, k: nat)
    requires Pasted(m, from, r, c, k) && k < |c.dst| && c.Apart()
    ensures Pasted(m, from, Put(r, c.dst[k], from, c.src[k], c.n), c, k + 1)
  {
    var r' := Put(r, c.dst[k], from, c.src[k], c.n);
    forall i, j | 0 <= i < k + 1 && 0 <= j < c.n
      ensures Carried(r', from, c, i, j)
    {
      if i < k {
        assert Carried(r, from, c, i, j) && c.dst[i] + c.n <= c.dst[k];
      }
    }
    forall p | 0 <= p < |m| && !c.Hits(k + 1, p)
      ensures r'[p] == m[p]
    {
      assert !(c.dst[k] <= p < c.dst[k] + c.n);
      assert !c.Hits(k, p);
    }
  }

  /** A rectangle of the screen and one of a pixel buffer with `delta` bytes per row. */
  datatype Blt = Blt(ppsl: nat, x: nat, y: nat, bufX: nat, bufY: nat, w: nat, h: nat, delta: nat)
  {
    /** Delta 0 means rows of exactly the rectangle. */
    function RowBytes(): nat {
      if delta == 0 then w * PIXEL else delta
    }

    predicate Fits(len: nat, len': nat) {
      InBounds(len, ppsl, x, y, w, h) &&
      PIXEL * w <= RowBytes() && (h > 0 ==> BufPos(RowBytes(), bufX, bufY + h - 1) + PIXEL * w <= len')
    }

    function Screen(): seq<nat> {
      Starts(ppsl, x, y, h)
    }

    function Buffer(): seq<nat> {
      BufferStarts(RowBytes(), bufX, bufY, h)
    }
  }

  function BufPos(row: nat, x: nat, y: nat): nat {
    y * row + x * PIXEL
  }

  function BufferStarts(row: nat, x: nat, y: nat, h: nat): (r: seq<nat>)
    ensures |r| == h && forall i :: 0 <= i < h ==> r[i] == BufPos(row, x, y + i)
  {
    if h == 0 then [] else BufferStarts(row, x, y, h - 1) + [BufPos(row, x, y + h - 1)]
  }

  lemma BufferRows(row: nat, a: nat, b: nat)
    requires a < b
    ensures a * row + row <= b * row
  {
    if row > 0 {
      Multiples(row, a, b);
    }
  }

  lemma BltFits(c: Blt, len: nat, len': nat)
    requires c.Fits(len, len')
    ensures Between(Plan(c.Screen(), c.Buffer(), PIXEL * c.w), len, len')
    ensures Plan(c.Screen(), c.Buffer(), PIXEL * c.w).Apart() && Plan(c.Buffer(), c.Screen(), PIXEL * c.w).Apart()
  {
    var row := c.RowBytes();
    forall i | 0 <= i < c.h
      ensures c.Screen()[i] + PIXEL * c.w <= len && c.Buffer()[i] + PIXEL * c.w <= len'
    {
      RunFits(len, c.ppsl, c.x, c.y, c.w, c.h, i);
      if i < c.h - 1 {
        BufferRows(row, c.bufY + i, c.bufY + c.h - 1);
      }
    }
    forall i, k | 0 <= i < k < c.h
      ensures c.Screen()[i] + PIXEL * c.w <= c.Screen()[k] && c.Buffer()[i] + PIXEL * c.w <= c.Buffer()[k]
    {
      LinesApart(c.ppsl, c.x, c.y + i, c.w, c.x, c.y + k);
      BufferRows(row, c.bufY + i, c.bufY + k);
    }
  }

  /** DisplayBlt, EfiBltBufferToVideo: exactly the rectangle changes, and shows the buffer. */
  method BufferToVideo(fb: array<byte>, buf: array<byte>, c: Blt)
    requires fb != buf && c.Fits(fb.Length, buf.Length)
    modifies fb
    ensures Pasted(old(fb[..]), buf[..], fb[..], Plan(c.Screen(), c.Buffer(), PIXEL * c.w), c.h)
    ensures Pixels(fb[..], buf[..], c)
    ensures forall p :: 0 <= p < fb.Length && fb[p] != old(fb[p]) ==> OnScreen(c, p)
  {
    var delta := c.delta;
    if delta == 0 {
      delta := c.w * PIXEL;
    }
    BltFits(c, fb.Length, buf.Length);
    ghost var plan, was, from := Plan(c.Screen(), c.Buffer(), PIXEL * c.w), fb[..], buf[..];
    for i := 0 to c.h
      invariant Pasted(was, from, fb[..], plan, i)
    {
      var d, s := Pos(c.ppsl, c.x, c.y + i), BufPos(delta, c.bufX, c.bufY + i);
      assert plan.dst[i] == d && plan.src[i] == s;
      ghost var now := fb[..];
      PastedNext(was, from, now, plan, i);
      CopyFrom(fb, d, buf, s, c.w * PIXEL);
      assert fb[..] == Put(now, d, from, s, plan.n);
    }
    PastedToScreen(was, from, fb[..], c);
  }

  /** DisplayBlt, EfiBltVideoToBltBuffer. */
  method VideoToBuffer(fb: array<byte>, buf: array<byte>, c: Blt)
    requires fb != buf && c.Fits(fb.Length, buf.Length)
    modifies buf
    ensures Pasted(old(buf[..]), fb[..], buf[..], Plan(c.Buffer(), c.Screen(), PIXEL * c.w), c.h)
    ensures Pixels(fb[..], buf[..], c)
    ensures forall p :: 0 <= p < buf.Length && buf[p] != old(buf[p]) ==> InBuffer(c, p)
  {
    var delta := c.delta;
    if delta == 0 {
      delta := c.w * PIXEL;
    }
    BltFits(c, fb.Length, buf.Length);
    ghost var plan, was, from := Plan(c.Buffer(), c.Screen(), PIXEL * c.w), buf[..], fb[..];
    for i := 0 to c.h
      invariant Pasted(was, from, buf[..], plan, i)
    {
      var s, d := Pos(c.ppsl, c.x, c.y + i), BufPos(delta, c.bufX, c.bufY + i);
      assert plan.dst[i] == d && plan.src[i] == s;
      ghost var now := buf[..];
      PastedNext(was, from, now, plan, i);
      CopyFrom(buf, d, fb, s, c.w * PIXEL);
      assert buf[..] == Put(now, d, from, s, plan.n);
    }
    PastedToBuffer(was, from, buf[..], c);
  }

  /** Channel `q` of the pixel in row `i` and column `k` of the rectangle, on the screen. */
  function ScreenByte(c: Blt, i: nat, k: nat, q: nat): nat {
    ((c.y + i) * c.ppsl + c.x + k) * 4 + q
  }

  /** The same in the buffer, whose rows have `Delta` bytes, or just the rectangle's for a `Delta` of 0. */
  function BufferByte(c: Blt, i: nat, k: nat, q: nat): nat {
    (c.bufY + i) * (if c.delta == 0 then 4 * c.w else c.delta) + (c.bufX + k) * 4 + q
  }

  ghost predicate OnScreen(c: Blt, p: int) {
    exists i: nat, k: nat, q: nat :: i < c.h && k < c.w && q < 4 && p == ScreenByte(c, i, k, q)
  }

  ghost predicate InBuffer(c: Blt, p: int) {
    exists i: nat, k: nat, q: nat :: i < c.h && k < c.w && q < 4 && p == BufferByte(c, i, k, q)
  }

  /** Screen and buffer show the same in this pixel channel. */
  predicate SamePixel(screen: seq<byte>, buf: seq<byte>, c: Blt, i: nat, k: nat, q: nat) {
    && ScreenByte(c, i, k, q) < |screen| && BufferByte(c, i, k, q) < |buf|
    && screen[ScreenByte(c, i, k, q)] == buf[BufferByte(c, i, k, q)]
  }

  /** The rectangle of the screen and that of the buffer show the same picture. */
  ghost predicate Pixels(screen: seq<byte>, buf: seq<byte>, c: Blt) {
    forall i: nat, k: nat, q: nat :: i < c.h && k < c.w && q < 4 ==> SamePixel(screen, buf, c, i, k, q)
  }

  /** Pixels of a row are 4 bytes apart, on the screen and in the buffer. */
  lemma PixelPlaces(c: Blt, i: nat, k: nat, q: nat)
    requires i < c.h
    ensures ScreenByte(c, i, k, q) == c.Screen()[i] + 4 * k + q
    ensures BufferByte(c, i, k, q) == c.Buffer()[i] + 4 * k + q
  {
    assert (c.y + i) * c.ppsl * 4 == ((c.y + i) * c.ppsl) * 4;
  }

  lemma PastedToScreen(was: seq<byte>, buf: seq<byte>, now: seq<byte>, c: Blt)
    requires Pasted(was, buf, now, Plan(c.Screen(), c.Buffer(), PIXEL * c.w), c.h)
    ensures Pixels(now, buf, c)
    ensures forall p :: 0 <= p < |was| && now[p] != was[p] ==> OnScreen(c, p)
  {
    var plan := Plan(c.Screen(), c.Buffer(), PIXEL * c.w);
    forall i: nat, k: nat, q: nat | i < c.h && k < c.w && q < 4
      ensures SamePixel(now, buf, c, i, k, q)
    {
      PixelPlaces(c, i, k, q);
      assert Carried(now, buf, plan, i, 4 * k + q);
    }
    forall p | 0 <= p < |was| && now[p] != was[p]
      ensures OnScreen(c, p)
    {
      var i :| 0 <= i < c.h && plan.dst[i] <= p < plan.dst[i] + plan.n;
      var j := p - plan.dst[i];
      PixelPlaces(c, i, j / 4, j % 4);
      assert p == ScreenByte(c, i, j / 4, j % 4);
    }
  }

  lemma PastedToBuffer(was: seq<byte>, screen: seq<byte>, now: seq<byte>, c: Blt)
    requires Pasted(was, screen, now, Plan(c.Buffer(), c.Screen(), PIXEL * c.w), c.h)
    ensures Pixels(screen, now, c)
    ensures forall p :: 0 <= p < |was| && now[p] != was[p] ==> InBuffer(c, p)
  {
    var plan := Plan(c.Buffer(), c.Screen(), PIXEL * c.w);
    forall i: nat, k: nat, q: nat | i < c.h && k < c.w && q < 4
      ensures SamePixel(screen, now, c, i, k, q)
    {
      PixelPlaces(c, i, k, q);
      assert Carried(now, screen, plan, i, 4 * k + q);
    }
    forall p | 0 <= p < |was| && now[p] != was[p]
      ensures InBuffer(c, p)
    {
      var i :| 0 <= i < c.h && plan.dst[i] <= p < plan.dst[i] + plan.n;
      var j := p - plan.dst[i];
      PixelPlaces(c, i, j / 4, j % 4);
      assert p == BufferByte(c, i, j / 4, j % 4);
    }
  }

  /** Different pixels of rows that hold them have different places, so rectangles with disjoint rows or columns share
      no byte. */
  lemma PlacesDiffer(row: nat, y: nat, x: nat, q: nat, y': nat, x': nat, q': nat)
    requires q < 4 && q' < 4 && x * 4 + q < row && x' * 4 + q' < row
    requires y * row + x * 4 + q == y' * row + x' * 4 + q'
    ensures y == y' && x == x' && q == q'
  {
    DivModUnique(row, y * row + x * 4 + q, y, x * 4 + q);
    DivModUnique(row, y * row + x * 4 + q, y', x' * 4 + q');
  }

  /** Round trip: what a buffer showed on the screen comes back, pixel for pixel, into the same place of any
      buffer of that layout. */
  lemma BltRoundTrip(fb: seq<byte>, buf: seq<byte>, fb': seq<byte>, out: seq<byte>, out': seq<byte>, c: Blt,
                     i: nat, j: nat)
    requires c.Fits(|fb|, |buf|) && c.Fits(|fb|, |out|) && i < c.h && j < PIXEL * c.w
    requires Pasted(fb, buf, fb', Plan(c.Screen(), c.Buffer(), PIXEL * c.w), c.h)
    requires Pasted(out, fb', out', Plan(c.Buffer(), c.Screen(), PIXEL * c.w), c.h)
    ensures var p := (c.bufY + i) * (if c.delta == 0 then 4 * c.w else c.delta) + c.bufX * 4 + j;
            p < |buf| && p < |out'| && out'[p] == buf[p]
  {
    PastedToScreen(fb, buf, fb', c);
    PastedToBuffer(out, fb', out', c);
    assert SamePixel(fb', buf, c, i, j / 4, j % 4);
    assert SamePixel(fb', out', c, i, j / 4, j % 4);
  }
}
