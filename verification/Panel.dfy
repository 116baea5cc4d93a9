/** The display controller as the driver's other end: a frame memory that is written through a
    window, one 16-bit pixel per two bytes, high byte first, row by row; the write position
    returns to the window's start after its last pixel. */
module Panel {
  import opened Arithmetic
  import opened Bytes

  const COL_ADDR_SET: Byte := 0x2A
  const ROW_ADDR_SET: Byte := 0x2B
  const RAMWR: Byte := 0x2C

  /** One SPI transfer; the data/command line tells the two kinds apart. */
  datatype Transfer = Command(code: Byte) | Data(bytes: Text)

  type Image = map<(int, int), int>

  datatype Screen = Screen(command: Byte, args: Text,
                           colStart: int, colEnd: int, rowStart: int, rowEnd: int,
                           col: int, row: int, image: Image)

  function Word(high: int, low: int): int {
    high * 256 + low
  }

  function Write(s: Screen, pixel: int): Screen {
    var t := s.(image := s.image[(s.col, s.row) := pixel], args := []);
    if s.col < s.colEnd then t.(col := s.col + 1)
    else t.(col := s.colStart, row := if s.row < s.rowEnd then s.row + 1 else s.rowStart)
  }

  /** One data byte. */
  function Accept(s: Screen, b: Byte): Screen {
    var args := s.args + [b];
    if s.command == RAMWR && |args| == 2 then Write(s, Word(args[0], args[1]))
    else if s.command == COL_ADDR_SET && |args| == 4 then
      s.(args := [], colStart := Word(args[0], args[1]), colEnd := Word(args[2], args[3]))
    else if s.command == ROW_ADDR_SET && |args| == 4 then
      s.(args := [], rowStart := Word(args[0], args[1]), rowEnd := Word(args[2], args[3]))
    else s.(args := args)
  }

  function AcceptAll(s: Screen, bytes: Text): Screen
    decreases bytes
  {
    if bytes == [] then s else AcceptAll(Accept(s, bytes[0]), bytes[1..])
  }

  function Feed(s: Screen, t: Transfer): Screen {
    match t
    case Command(code) =>
      var s' := s.(command := code, args := []);
      if code == RAMWR then s'.(col := s.colStart, row := s.rowStart) else s'
    case Data(bytes) => AcceptAll(s, bytes)
  }

  function FeedAll(s: Screen, ts: seq<Transfer>): Screen
    decreases ts
  {
    if ts == [] then s else FeedAll(Feed(s, ts[0]), ts[1..])
  }

  lemma {:induction false} AcceptConcat(s: Screen, a: Text, b: Text)
    ensures AcceptAll(s, a + b) == AcceptAll(AcceptAll(s, a), b)
    decreases a
  {
    hide Accept;
    if a == [] {
      assert a + b == b;
    } else {
      assert (a + b)[1..] == a[1..] + b;
      AcceptConcat(Accept(s, a[0]), a[1..], b);
    }
  }

  lemma {:induction false} FeedConcat(s: Screen, a: seq<Transfer>, b: seq<Transfer>)
    ensures FeedAll(s, a + b) == FeedAll(FeedAll(s, a), b)
    decreases a
  {
    hide Feed;
    if a == [] {
      assert a + b == b;
    } else {
      assert (a + b)[1..] == a[1..] + b;
      FeedConcat(Feed(s, a[0]), a[1..], b);
    }
  }

  // Windows

  predicate Uint16(v: int) {
    0 <= v < 0x1_0000
  }

  function BigEndian(a: int, b: int): Text
    requires Uint16(a) && Uint16(b)
  {
    [a / 256, a % 256, b / 256, b % 256]
  }

  /** The transfers that set the window to columns x..endx and rows y..endy. */
  function FrameTransfers(x: int, y: int, endx: int, endy: int): seq<Transfer>
    requires Uint16(x) && Uint16(y) && Uint16(endx) && Uint16(endy)
  {
    [Command(COL_ADDR_SET), Data(BigEndian(x, endx)), Command(ROW_ADDR_SET), Data(BigEndian(y, endy))]
  }

  lemma AcceptWindow(s: Screen, a: int, b: int)
    requires Uint16(a) && Uint16(b) && s.args == []
    ensures s.command == COL_ADDR_SET ==> AcceptAll(s, BigEndian(a, b)) == s.(colStart := a, colEnd := b)
    ensures s.command == ROW_ADDR_SET ==> AcceptAll(s, BigEndian(a, b)) == s.(rowStart := a, rowEnd := b)
  {
    if s.command == COL_ADDR_SET || s.command == ROW_ADDR_SET {
      var e := BigEndian(a, b);
      AcceptFour(s, e);
      assert Word(e[0], e[1]) == a && Word(e[2], e[3]) == b;
    }
  }

  lemma AcceptFour(s: Screen, e: Text)
    requires |e| == 4 && s.args == [] && (s.command == COL_ADDR_SET || s.command == ROW_ADDR_SET)
    ensures AcceptAll(s, e) == Accept(s.(args := e[..3]), e[3])
  {
    var s1, s2, s3 := s.(args := [e[0]]), s.(args := [e[0], e[1]]), s.(args := e[..3]);
    assert Accept(s, e[0]) == s1;
    assert Accept(s1, e[1]) == s2;
    assert [e[0], e[1]] + [e[2]] == e[..3];
    assert Accept(s2, e[2]) == s3;
    AcceptFirst(s, e);
    AcceptFirst(s1, e[1..]);
    AcceptFirst(s2, e[2..]);
    AcceptFirst(s3, e[3..]);
    assert e[1..][1..] == e[2..] && e[2..][1..] == e[3..] && e[3..][1..] == [];
  }

  lemma AcceptFirst(s: Screen, bytes: Text)
    requires bytes != []
    ensures AcceptAll(s, bytes) == AcceptAll(Accept(s, bytes[0]), bytes[1..])
    ensures AcceptAll(s, []) == s
  {
  }

  /** Setting the window leaves the image alone. */
  lemma FrameSets(s: Screen, x: int, y: int, endx: int, endy: int)
    requires Uint16(x) && Uint16(y) && Uint16(endx) && Uint16(endy)
    ensures FeedAll(s, FrameTransfers(x, y, endx, endy) + [Command(RAMWR)]) ==
      s.(command := RAMWR, args := [], colStart := x, colEnd := endx, rowStart := y, rowEnd := endy, col := x, row := y)
  {
    hide AcceptAll, Accept;
    var s1 := s.(command := COL_ADDR_SET, args := []);
    var s2 := s1.(colStart := x, colEnd := endx);
    var s3 := s2.(command := ROW_ADDR_SET);
    var s4 := s3.(rowStart := y, rowEnd := endy);
    AcceptWindow(s1, x, endx);
    AcceptWindow(s3, y, endy);
    var c, d, e, f, g := Command(COL_ADDR_SET), Data(BigEndian(x, endx)), Command(ROW_ADDR_SET),
                         Data(BigEndian(y, endy)), Command(RAMWR);
    assert FrameTransfers(x, y, endx, endy) + [g] == [c, d, e, f, g];
    FeedFirst(s, c, [d, e, f, g]);
    FeedFirst(s1, d, [e, f, g]);
    FeedFirst(s2, e, [f, g]);
    FeedFirst(s3, f, [g]);
    FeedFirst(s4, g, []);
    assert [c] + [d, e, f, g] == [c, d, e, f, g] && [d] + [e, f, g] == [d, e, f, g];
    assert [e] + [f, g] == [e, f, g] && [f] + [g] == [f, g] && [g] + [] == [g];
  }

  lemma FeedFirst(s: Screen, t: Transfer, ts: seq<Transfer>)
    ensures FeedAll(s, [t] + ts) == FeedAll(Feed(s, t), ts)
  {
    assert ([t] + ts)[1..] == ts;
  }

  // Pixels

  /** Pixel i of a buffer. */
  function PixelAt(buf: Text, i: int): int {
    if 0 <= i && 2 * i + 1 < |buf| then Word(buf[2 * i], buf[2 * i + 1]) else 0
  }

  /** The rectangle of w by h pixels at (x, y) replaced by the buffer, whose rows lie `stride` pixels apart. */
  function PasteRows(image: Image, x: int, y: int, w: int, h: int, buf: Text, stride: int): (r: Image)
    ensures r.Keys == image.Keys
  {
    map q | q in image ::
      if x <= q.0 < x + w && y <= q.1 < y + h then PixelAt(buf, (q.1 - y) * stride + (q.0 - x)) else image[q]
  }

  function Paste(image: Image, x: int, y: int, w: int, h: int, buf: Text): Image {
    PasteRows(image, x, y, w, h, buf, w)
  }

  /** q is a cell of the rectangle in row r, column c of it or later. */
  predicate From(q: (int, int), x: int, y: int, w: int, h: int, r: int, c: int) {
    x <= q.0 < x + w && y <= q.1 < y + h && (q.1 - y > r || (q.1 - y == r && q.0 - x >= c))
  }

  /** The part of Paste from row r, column c of the rectangle on. */
  function PasteFrom(image: Image, x: int, y: int, w: int, h: int, buf: Text, r: int, c: int): Image {
    map q | q in image ::
      if From(q, x, y, w, h, r, c) then PixelAt(buf, (q.1 - y) * w + (q.0 - x)) else image[q]
  }

  /** Memory write is under way in the window x, y, w, h and the next pixel goes to its row r, column c. */
  predicate Writing(s: Screen, x: int, y: int, w: int, h: int, r: int, c: int) {
    && s.command == RAMWR && s.args == []
    && s.colStart == x && s.colEnd == x + w - 1 && s.rowStart == y && s.rowEnd == y + h - 1
    && s.col == x + c && s.row == y + r && 0 <= c < w && 0 <= r < h
    && forall i, j :: x <= i < x + w && y <= j < y + h ==> (i, j) in s.image
  }

  lemma AcceptPixel(s: Screen, bytes: Text)
    requires s.command == RAMWR && s.args == [] && |bytes| >= 2
    ensures AcceptAll(s, bytes) == AcceptAll(Write(s, Word(bytes[0], bytes[1])), bytes[2..])
  {
    hide Write, Word;
    var t := s.(args := [bytes[0]]);
    assert Accept(s, bytes[0]) == t;
    assert t.args + [bytes[1]] == [bytes[0], bytes[1]];
    assert bytes[1..][1..] == bytes[2..];
    WriteIgnoresArgs(s, t.args, Word(bytes[0], bytes[1]));
  }

  lemma WriteIgnoresArgs(s: Screen, args: Text, pixel: int)
    ensures Write(s.(args := args), pixel) == Write(s, pixel)
  {
  }

  lemma CellInside(w: nat, h: nat, r: nat, c: nat)
    requires r < h && c < w
    ensures r * w + c < w * h
    ensures (r + 1) * w == r * w + w
    ensures r + 1 == h ==> r * w + w == w * h
  {
    MulMonotone(r + 1, h, w);
    assert h * w == w * h;
  }

  /** The next cell is the one to the right, or the first of the next row, or none is left. */
  lemma FromNext(q: (int, int), x: int, y: int, w: int, h: int, r: int, c: int)
    requires 0 <= c < w && 0 <= r < h
    ensures var here := q == (x + c, y + r);
            && (c + 1 < w ==> (From(q, x, y, w, h, r, c) <==> here || From(q, x, y, w, h, r, c + 1)))
            && (c + 1 == w ==> (From(q, x, y, w, h, r, c) <==> here || From(q, x, y, w, h, r + 1, 0)))
            && (c + 1 == w && r + 1 == h ==> !From(q, x, y, w, h, r + 1, 0))
            && !From((x + c, y + r), x, y, w, h, r, c + 1) && !From((x + c, y + r), x, y, w, h, r + 1, 0)
  {
  }

  lemma PasteStep(image: Image, x: int, y: int, w: int, h: int, buf: Text, r: int, c: int)
    requires 0 <= c < w && 0 <= r < h && (x + c, y + r) in image
    ensures var image' := image[(x + c, y + r) := PixelAt(buf, r * w + c)];
            && (c + 1 < w ==> PasteFrom(image', x, y, w, h, buf, r, c + 1) == PasteFrom(image, x, y, w, h, buf, r, c))
            && (c + 1 == w ==> PasteFrom(image', x, y, w, h, buf, r + 1, 0) == PasteFrom(image, x, y, w, h, buf, r, c))
            && (c + 1 == w && r + 1 == h ==> image' == PasteFrom(image, x, y, w, h, buf, r, c))
  {
    hide PixelAt, From;
    forall q: (int, int)
      ensures var here := q == (x + c, y + r);
              && (c + 1 < w ==> (From(q, x, y, w, h, r, c) <==> here || From(q, x, y, w, h, r, c + 1)))
              && (c + 1 == w ==> (From(q, x, y, w, h, r, c) <==> here || From(q, x, y, w, h, r + 1, 0)))
              && (c + 1 == w && r + 1 == h ==> !From(q, x, y, w, h, r + 1, 0))
    {
      FromNext(q, x, y, w, h, r, c);
    }
    FromNext((x + c, y + r), x, y, w, h, r, c);
    var image' := image[(x + c, y + r) := PixelAt(buf, r * w + c)];
    assert image'.Keys == image.Keys;
  }

  lemma WriteNext(s: Screen, x: int, y: int, w: int, h: int, r: int, c: int, pixel: int)
    requires Writing(s, x, y, w, h, r, c)
    ensures var s' := Write(s, pixel);
            && s' == s.(image := s.image[(x + c, y + r) := pixel], col := s'.col, row := s'.row)
            && (c + 1 < w ==> Writing(s', x, y, w, h, r, c + 1))
            && (c + 1 == w && r + 1 < h ==> Writing(s', x, y, w, h, r + 1, 0))
            && (c + 1 == w && r + 1 == h ==> s'.col == x && s'.row == y)
            && (x + c, y + r) in s.image
  {
  }

  /** The bytes of the pixels from row r, column c on fill the rest of the rectangle, and the write
      position returns to its corner. */
  lemma {:induction false} WriteRest(s: Screen, x: int, y: int, w: nat, h: nat, buf: Text, r: nat, c: nat, k: nat)
    requires Writing(s, x, y, w, h, r, c)
    requires k == r * w + c && |buf| == 2 * (w * h)
    ensures k < w * h
    ensures AcceptAll(s, buf[2 * k..]) == s.(image := PasteFrom(s.image, x, y, w, h, buf, r, c), col := x, row := y)
    decreases h - r, w - c
  {
    hide AcceptAll, Write, PasteFrom, Word;
    CellInside(w, h, r, c);
    var bytes := buf[2 * k..];
    AcceptPixel(s, bytes);
    assert bytes[2..] == buf[2 * (k + 1)..];
    WriteNext(s, x, y, w, h, r, c, PixelAt(buf, k));
    var s' := Write(s, PixelAt(buf, k));
    assert AcceptAll(s, bytes) == AcceptAll(s', buf[2 * (k + 1)..]);
    PasteStep(s.image, x, y, w, h, buf, r, c);
    if c + 1 < w {
      WriteRest(s', x, y, w, h, buf, r, c + 1, k + 1);
    } else if r + 1 < h {
      WriteRest(s', x, y, w, h, buf, r + 1, 0, k + 1);
    } else {
      assert bytes[2..] == [];
      AcceptFirst(s', [0]);
    }
  }

  // Rectangles

  datatype Rectangle = Rectangle(x: nat, y: nat, w: nat, h: nat, buf: Text)

  /** Not empty, within 16-bit coordinates, with a buffer of at least two bytes a pixel. */
  predicate Drawable(d: Rectangle) {
    && 1 <= d.w && d.x + d.w <= 0x1_0000 && 1 <= d.h && d.y + d.h <= 0x1_0000
    && |d.buf| >= 2 * (d.w * d.h)
  }

  predicate InBounds(d: Rectangle, width: nat, height: nat) {
    d.x + d.w <= width && d.y + d.h <= height
  }

  /** Everything the driver sends to draw a rectangle; the data is exactly twice the window's area. */
  function DrawTransfers(d: Rectangle): seq<Transfer>
    requires Drawable(d)
  {
    FrameTransfers(d.x, d.y, d.x + d.w - 1, d.y + d.h - 1) +
    [Command(RAMWR), Data(d.buf[..2 * (d.w * d.h)])]
  }

  predicate Covers(s: Screen, width: nat, height: nat) {
    forall i, j :: 0 <= i < width && 0 <= j < height ==> (i, j) in s.image
  }

  lemma PasteWhole(image: Image, x: int, y: int, w: int, h: int, buf: Text)
    requires w >= 0 && h >= 0 && |buf| >= 2 * (w * h)
    ensures PasteFrom(image, x, y, w, h, buf[..2 * (w * h)], 0, 0) == Paste(image, x, y, w, h, buf)
  {
    var cut := buf[..2 * (w * h)];
    forall q | q in image && x <= q.0 < x + w && y <= q.1 < y + h
      ensures PixelAt(cut, (q.1 - y) * w + (q.0 - x)) == PixelAt(buf, (q.1 - y) * w + (q.0 - x))
    {
      CellInside(w, h, q.1 - y, q.0 - x);
    }
  }

  /** One rectangle: the panel shows the image with the rectangle pasted in. */
  lemma DrawOne(s: Screen, d: Rectangle, width: nat, height: nat)
    requires Covers(s, width, height) && Drawable(d) && InBounds(d, width, height)
    ensures var s' := FeedAll(s, DrawTransfers(d));
            s'.image == Paste(s.image, d.x, d.y, d.w, d.h, d.buf) && Covers(s', width, height)
  {
    hide AcceptAll, Feed, FrameTransfers;
    var frame := FrameTransfers(d.x, d.y, d.x + d.w - 1, d.y + d.h - 1);
    var buf := d.buf[..2 * (d.w * d.h)];
    assert DrawTransfers(d) == (frame + [Command(RAMWR)]) + [Data(buf)];
    FeedConcat(s, frame + [Command(RAMWR)], [Data(buf)]);
    FrameSets(s, d.x, d.y, d.x + d.w - 1, d.y + d.h - 1);
    var s1 := FeedAll(s, frame + [Command(RAMWR)]);
    FeedData(s1, buf);
    assert 0 * d.w == 0 && buf[2 * 0..] == buf;
    WriteRest(s1, d.x, d.y, d.w, d.h, buf, 0, 0, 0);
    PasteWhole(s.image, d.x, d.y, d.w, d.h, d.buf);
  }

  lemma FeedData(s: Screen, bytes: Text)
    ensures FeedAll(s, [Data(bytes)]) == AcceptAll(s, bytes)
  {
    hide AcceptAll;
    FeedFirst(s, Data(bytes), []);
    assert [Data(bytes)] + [] == [Data(bytes)];
  }

  function DrawAll(ds: seq<Rectangle>): seq<Transfer>
    requires forall k :: 0 <= k < |ds| ==> Drawable(ds[k])
  {
    if ds == [] then [] else DrawTransfers(ds[0]) + DrawAll(ds[1..])
  }

  // The transfers in the controller's own terms

  /** Two 16-bit numbers, high byte first. */
  predicate Words(bytes: Text, a: int, b: int) {
    |bytes| == 4 && bytes[0] as int * 256 + bytes[1] == a && bytes[2] as int * 256 + bytes[3] == b
  }

  /** Five transfers: column address set and its range, row address set and its range, memory write. */
  predicate OpensWindow(t: seq<Transfer>, x: int, y: int, w: int, h: int) {
    && |t| == 5 && t[0] == Command(0x2A) && t[2] == Command(0x2B) && t[4] == Command(0x2C)
    && t[1].Data? && Words(t[1].bytes, x, x + w - 1)
    && t[3].Data? && Words(t[3].bytes, y, y + h - 1)
  }

  /** Six: the window, and the first two bytes for each of its pixels. */
  predicate Draws(t: seq<Transfer>, d: Rectangle) {
    && |t| == 6 && OpensWindow(t[..5], d.x, d.y, d.w, d.h)
    && t[5].Data? && |t[5].bytes| == 2 * (d.w * d.h) && t[5].bytes <= d.buf
  }

  lemma WindowOpened(x: int, y: int, w: int, h: int)
    requires Uint16(x) && Uint16(y) && Uint16(x + w - 1) && Uint16(y + h - 1)
    ensures OpensWindow(FrameTransfers(x, y, x + w - 1, y + h - 1) + [Command(RAMWR)], x, y, w, h)
  {
    assert Words(BigEndian(x, x + w - 1), x, x + w - 1);
    assert Words(BigEndian(y, y + h - 1), y, y + h - 1);
  }

  lemma SixTransfers(d: Rectangle)
    requires Drawable(d)
    ensures Draws(DrawTransfers(d), d)
  {
    hide OpensWindow, FrameTransfers;
    WindowOpened(d.x, d.y, d.w, d.h);
    var window := FrameTransfers(d.x, d.y, d.x + d.w - 1, d.y + d.h - 1) + [Command(RAMWR)];
    WindowLength(window, d);
    var pixels := Data(d.buf[..2 * (d.w * d.h)]);
    assert DrawTransfers(d) == window + [pixels];
    assert (window + [pixels])[..5] == window;
  }

  lemma WindowLength(t: seq<Transfer>, d: Rectangle)
    requires OpensWindow(t, d.x, d.y, d.w, d.h)
    ensures |t| == 5
  {
  }

  /** A sequence of drawing calls sends six transfers for each, in order, and no others. */
  lemma {:induction false} DrawAllTransfers(ds: seq<Rectangle>)
    requires forall k :: 0 <= k < |ds| ==> Drawable(ds[k])
    ensures |DrawAll(ds)| == 6 * |ds|
    ensures forall k :: 0 <= k < |ds| ==> Draws(DrawAll(ds)[6 * k..6 * k + 6], ds[k])
  {
    hide Drawable, OpensWindow, DrawTransfers;
    if ds != [] {
      SixTransfers(ds[0]);
      DrawAllTransfers(ds[1..]);
      var t, rest := DrawTransfers(ds[0]), DrawAll(ds[1..]);
      forall k | 0 <= k < |ds|
        ensures Draws(DrawAll(ds)[6 * k..6 * k + 6], ds[k])
      {
        if k == 0 {
          assert (t + rest)[..6] == t;
        } else {
          assert (t + rest)[6 * k..6 * k + 6] == rest[6 * (k - 1)..6 * (k - 1) + 6];
          assert ds[k] == ds[1..][k - 1];
        }
      }
    }
  }

  function PasteAll(image: Image, ds: seq<Rectangle>): Image
    decreases ds
  {
    if ds == [] then image
    else PasteAll(Paste(image, ds[0].x, ds[0].y, ds[0].w, ds[0].h, ds[0].buf), ds[1..])
  }

  /** Refinement: after the transfers of any sequence of drawing calls, the panel shows exactly the
      image obtained by pasting the rectangles one after the other. */
  lemma {:induction false} PanelRefinement(s: Screen, ds: seq<Rectangle>, width: nat, height: nat)
    requires Covers(s, width, height)
    requires forall k :: 0 <= k < |ds| ==> Drawable(ds[k]) && InBounds(ds[k], width, height)
    ensures FeedAll(s, DrawAll(ds)).image == PasteAll(s.image, ds)
    decreases ds
  {
    hide DrawTransfers, Paste;
    if ds != [] {
      var t := DrawTransfers(ds[0]);
      DrawOne(s, ds[0], width, height);
      FeedConcat(s, t, DrawAll(ds[1..]));
      PanelRefinement(FeedAll(s, t), ds[1..], width, height);
    }
  }

  /** The driver ignores a buffer's pitch. The rectangle meant, whose rows lie a pitch apart, is drawn for
      every buffer of that layout exactly when the pitch is the width or there is but one row. */
  lemma PitchIgnored(image: Image, x: int, y: int, w: int, h: int, pitch: int)
    requires 1 <= w <= pitch && 1 <= h
    requires forall i, j :: x <= i < x + w && y <= j < y + h ==> (i, j) in image
    ensures (forall buf: Text | |buf| == 2 * (pitch * h) ::
               Paste(image, x, y, w, h, buf) == PasteRows(image, x, y, w, h, buf, pitch))
       <==> pitch == w || h == 1
  {
    if pitch != w && h > 1 {
      var buf := PitchWitness(image, x, y, w, h, pitch);
    } else {
      forall buf: Text | |buf| == 2 * (pitch * h)
        ensures Paste(image, x, y, w, h, buf) == PasteRows(image, x, y, w, h, buf, pitch)
      {
        OneRow(image, x, y, w, h, buf, pitch);
      }
    }
  }

  lemma PitchWitness(image: Image, x: int, y: int, w: int, h: int, pitch: int) returns (buf: Text)
    requires 1 <= w < pitch && 2 <= h && (x, y + 1) in image
    ensures |buf| == 2 * (pitch * h) >= 2 * (w * h)
    ensures Paste(image, x, y, w, h, buf) != PasteRows(image, x, y, w, h, buf, pitch)
  {
    MulMonotone(2, h, pitch);
    MulMonotone(w, pitch, h);
    buf := seq(2 * (pitch * h), i => if i == 2 * pitch then 1 else 0);
    var q := (x, y + 1);
    assert PixelAt(buf, pitch) == 256 && PixelAt(buf, w) == 0;
    assert 1 * w == w && 1 * pitch == pitch;
    assert Paste(image, x, y, w, h, buf)[q] == PixelAt(buf, w);
    assert PasteRows(image, x, y, w, h, buf, pitch)[q] == PixelAt(buf, pitch);
  }

  lemma OneRow(image: Image, x: int, y: int, w: int, h: int, buf: Text, pitch: int)
    requires pitch == w || h == 1
    ensures Paste(image, x, y, w, h, buf) == PasteRows(image, x, y, w, h, buf, pitch)
  {
    hide PixelAt;
    if pitch != w {
      assert 0 * w == 0 * pitch == 0;
    }
  }
}
