/** gc9a01.cpp: the driver's side of the bus. Transfers are taken to succeed. */
module Gc9a01 {
  import opened Arithmetic
  import opened Bytes
  import opened Panel

  // The clear pattern

  function Bswap16(v: int): int
    requires Uint16(v)
  {
    v % 256 * 256 + v / 256
  }

  /** The bytes of an array of 16-bit words in the memory of the little-endian target. */
  function Memory(words: seq<int>): (t: Text)
    requires forall i :: 0 <= i < |words| ==> Uint16(words[i])
    ensures |t| == 2 * |words|
  {
    seq(2 * |words|, i requires 0 <= i < 2 * |words| => MemoryByte(words[i / 2], i % 2))
  }

  function MemoryByte(word: int, i: int): Byte
    requires Uint16(word)
  {
    if i == 0 then word % 256 else word / 256
  }

  /** n pixels of one colour, high byte first. */
  function Solid(color: int, n: nat): (t: Text)
    requires Uint16(color)
    ensures |t| == 2 * n
  {
    seq(2 * n, i => SolidByte(color, i))
  }

  function SolidByte(color: int, i: int): Byte
    requires Uint16(color)
  {
    if i % 2 == 0 then color / 256 else color % 256
  }

  /** The swapped words lie in memory with the colour's high byte first. */
  lemma SwappedMemory(words: seq<int>, color: int)
    requires Uint16(color) && forall i :: 0 <= i < |words| ==> words[i] == Bswap16(color)
    ensures forall i :: 0 <= i < |words| ==> Uint16(words[i])
    ensures Memory(words) == Solid(color, |words|)
  {
    SwappedWord(color);
    forall i | 0 <= i < 2 * |words|
      ensures Memory(words)[i] == Solid(color, |words|)[i]
    {
      assert words[i / 2] == Bswap16(color);
    }
  }

  lemma SwappedWord(color: int)
    requires Uint16(color)
    ensures Uint16(Bswap16(color))
    ensures MemoryByte(Bswap16(color), 0) == color / 256 && MemoryByte(Bswap16(color), 1) == color % 256
  {
  }

  function Repeat(t: Transfer, n: nat): (ts: seq<Transfer>)
    ensures |ts| == n
  {
    seq(n, _ => t)
  }

  /** The pixels that the two loops of gc9a01_clear send for a panel of n pixels. */
  function ClearPixels(n: nat): nat {
    100 * (n / 100) + n % 100 * (n % 100)
  }

  function ClearData(color: int, n: nat): seq<Transfer>
    requires Uint16(color)
  {
    Repeat(Data(Solid(color, 100)), n / 100) + Repeat(Data(Solid(color, n % 100)), n % 100)
  }

  /** n pixels' worth of bytes, high bytes at even places and low bytes at odd ones. */
  predicate SolidBytes(bytes: Text, color: int, n: nat) {
    |bytes| == 2 * n && forall i :: 0 <= i < 2 * n ==> bytes[i] == if i % 2 == 0 then color / 256 else color % 256
  }

  /** The transfers of a full clear of n pixels: the window, n / 100 blocks of 100 pixels, and n % 100 of as many. */
  predicate Clears(t: seq<Transfer>, w: nat, h: nat, color: int, n: nat) {
    && |t| == 5 + n / 100 + n % 100 && OpensWindow(t[..5], 0, 0, w, h)
    && (forall k :: 5 <= k < |t| ==>
          t[k].Data? && SolidBytes(t[k].bytes, color, if k < 5 + n / 100 then 100 else n % 100))
  }

  lemma ClearTransfers(w: nat, h: nat, color: int, n: nat)
    requires Uint16(color) && 1 <= w <= 0x1_0000 && 1 <= h <= 0x1_0000
    ensures Clears(FrameTransfers(0, 0, w - 1, h - 1) + [Command(RAMWR)] + ClearData(color, n), w, h, color, n)
  {
    hide FrameTransfers, OpensWindow, Solid;
    WindowOpened(0, 0, w, h);
    WindowFive(0, 0, w - 1, h - 1);
    var window := FrameTransfers(0, 0, w - 1, h - 1) + [Command(RAMWR)];
    var t := window + ClearData(color, n);
    assert t[..5] == window;
    SolidIs(color, 100);
    SolidIs(color, n % 100);
    assert forall k :: 5 <= k < |t| ==> t[k] == ClearData(color, n)[k - 5];
  }

  lemma WindowFive(x: int, y: int, endx: int, endy: int)
    requires Uint16(x) && Uint16(y) && Uint16(endx) && Uint16(endy)
    ensures |FrameTransfers(x, y, endx, endy) + [Command(RAMWR)]| == 5
  {
  }

  lemma SolidIs(color: int, n: nat)
    requires Uint16(color)
    ensures SolidBytes(Solid(color, n), color, n)
  {
  }

  /** The second loop repeats its whole remainder once for every pixel of it, so the pixel count is
      right exactly when the remainder is 0 or 1; it is never too small. */
  lemma ClearCount(n: nat)
    ensures ClearPixels(n) >= n
    ensures ClearPixels(n) == n <==> n % 100 <= 1
  {
  }

  lemma SolidConcat(color: int, m: nat, n: nat)
    requires Uint16(color)
    ensures Solid(color, m) + Solid(color, n) == Solid(color, m + n)
  {
    hide SolidByte, Uint16;
    var a, b, t := Solid(color, m), Solid(color, n), Solid(color, m + n);
    forall i | 0 <= i < |t|
      ensures (a + b)[i] == t[i]
    {
      SolidPeriod(color, i, m);
    }
  }

  lemma SolidPeriod(color: int, i: int, m: int)
    requires Uint16(color)
    ensures SolidByte(color, i - 2 * m) == SolidByte(color, i)
  {
  }

  lemma {:induction false} FeedRepeat(s: Screen, color: int, size: nat, n: nat)
    requires Uint16(color)
    ensures FeedAll(s, Repeat(Data(Solid(color, size)), n)) == AcceptAll(s, Solid(color, size * n))
    decreases n
  {
    hide Accept, Solid;
    var t := Data(Solid(color, size));
    if n == 0 {
      assert size * n == 0;
      assert Solid(color, 0) == [];
    } else {
      assert Repeat(t, n) == [t] + Repeat(t, n - 1);
      FeedFirst(s, t, Repeat(t, n - 1));
      FeedRepeat(AcceptAll(s, Solid(color, size)), color, size, n - 1);
      AcceptConcat(s, Solid(color, size), Solid(color, size * (n - 1)));
      SolidConcat(color, size, size * (n - 1));
      assert size + size * (n - 1) == size * n;
    }
  }

  /** The two loops amount to one stream of pixels. */
  lemma ClearStream(s: Screen, color: int, n: nat)
    requires Uint16(color)
    ensures FeedAll(s, ClearData(color, n)) == AcceptAll(s, Solid(color, ClearPixels(n)))
  {
    hide AcceptAll, FeedAll, Solid, Repeat;
    var q, r := n / 100, n % 100;
    var a, b := Repeat(Data(Solid(color, 100)), q), Repeat(Data(Solid(color, r)), r);
    FeedConcat(s, a, b);
    FeedRepeat(s, color, 100, q);
    FeedRepeat(FeedAll(s, a), color, r, r);
    AcceptConcat(s, Solid(color, 100 * q), Solid(color, r * r));
    SolidConcat(color, 100 * q, r * r);
  }

  /** Every pixel of the window has the colour. */
  predicate Painted(image: Image, w: int, h: int, color: int) {
    forall q :: q in image && 0 <= q.0 < w && 0 <= q.1 < h ==> image[q] == color
  }

  /** Once the window is painted, further pixels of the same colour change nothing in it. */
  lemma {:induction false} KeepPainted(s: Screen, w: nat, h: nat, r: nat, c: nat, color: int, n: nat)
    requires Writing(s, 0, 0, w, h, r, c) && Painted(s.image, w, h, color) && Uint16(color)
    ensures Painted(AcceptAll(s, Solid(color, n)).image, w, h, color)
    decreases n
  {
    hide Write, AcceptAll;
    var bytes := Solid(color, n);
    if n == 0 {
      AcceptFirst(s, [0]);
    } else {
      assert Word(bytes[0], bytes[1]) == color;
      assert bytes[2..] == Solid(color, n - 1);
      AcceptPixel(s, bytes);
      WriteNext(s, 0, 0, w, h, r, c, color);
      var s' := Write(s, color);
      if c + 1 < w {
        KeepPainted(s', w, h, r, c + 1, color, n - 1);
      } else if r + 1 < h {
        KeepPainted(s', w, h, r + 1, 0, color, n - 1);
      } else {
        WriteLast(s, 0, 0, w, h, r, c, color);
        KeepPainted(s', w, h, 0, 0, color, n - 1);
      }
    }
  }

  lemma WriteLast(s: Screen, x: int, y: int, w: int, h: int, r: int, c: int, pixel: int)
    requires Writing(s, x, y, w, h, r, c) && c + 1 == w && r + 1 == h
    ensures Writing(Write(s, pixel), x, y, w, h, 0, 0)
  {
  }

  lemma SolidPixel(color: int, n: nat, i: nat)
    requires Uint16(color) && i < n
    ensures PixelAt(Solid(color, n), i) == color
  {
    var buf := Solid(color, n);
    assert buf[2 * i] == color / 256 && buf[2 * i + 1] == color % 256;
  }

  lemma SolidCell(w: nat, h: nat, color: int, i: int, j: int)
    requires Uint16(color) && 0 <= i < w && 0 <= j < h
    ensures PixelAt(Solid(color, w * h), (j - 0) * w + (i - 0)) == color
  {
    hide PixelAt, Solid;
    CellInside(w, h, j, i);
    SolidPixel(color, w * h, j * w + i);
  }

  lemma SolidPaste(image: Image, w: nat, h: nat, color: int)
    requires Uint16(color)
    ensures Painted(PasteFrom(image, 0, 0, w, h, Solid(color, w * h), 0, 0), w, h, color)
  {
    hide PixelAt, Solid;
    var r := PasteFrom(image, 0, 0, w, h, Solid(color, w * h), 0, 0);
    forall q | q in r && 0 <= q.0 < w && 0 <= q.1 < h
      ensures r[q] == color
    {
      SolidCell(w, h, color, q.0, q.1);
    }
  }

  lemma {:induction false} KeysStay(s: Screen, bytes: Text)
    ensures s.image.Keys <= AcceptAll(s, bytes).image.Keys
    decreases bytes
  {
    if bytes != [] {
      KeysStay(Accept(s, bytes[0]), bytes[1..]);
    }
  }

  /** A full clear paints every pixel, on a panel of any size. Where the pixel count is exact, the write
      position has gone round the window once and stands at its corner again. */
  lemma ClearPaints(s: Screen, w: nat, h: nat, color: int)
    requires Uint16(color) && Writing(s, 0, 0, w, h, 0, 0)
    ensures var s' := FeedAll(s, ClearData(color, w * h));
            && s.image.Keys <= s'.image.Keys && Painted(s'.image, w, h, color)
            && ((w * h) % 100 <= 1 ==> s' == s.(image := s'.image))
  {
    hide AcceptAll, ClearData, Solid, Painted;
    var n := w * h;
    ClearStream(s, color, n);
    KeysStay(s, Solid(color, ClearPixels(n)));
    ClearCount(n);
    var extra := ClearPixels(n) - n;
    SolidConcat(color, n, extra);
    AcceptConcat(s, Solid(color, n), Solid(color, extra));
    var buf := Solid(color, n);
    assert buf[2 * 0..] == buf && 0 * w == 0;
    WriteRest(s, 0, 0, w, h, buf, 0, 0, 0);
    SolidPaste(s.image, w, h, color);
    var s1 := AcceptAll(s, buf);
    KeepPainted(s1, w, h, 0, 0, color, extra);
    if extra == 0 {
      assert Solid(color, extra) == [];
      AcceptFirst(s1, [0]);
    }
  }

  // The code

  /** What the display API passes along with a buffer. */
  datatype BufferDescriptor = BufferDescriptor(width: nat, height: nat, pitch: nat)

  /** A panel of 16-bit coordinates whose byte count the driver's int arithmetic can hold. */
  predicate PanelSize(width: nat, height: nat) {
    1 <= width <= 0x1_0000 && 1 <= height <= 0x1_0000 && width * height * 2 < 0x8000_0000
  }

  predicate Filled(words: seq<int>, color: int)
    requires Uint16(color)
  {
    forall k :: 0 <= k < |words| ==> words[k] == Bswap16(color)
  }

  /** std::array::fill with the colour's bytes swapped. */
  method Pattern(color: int) returns (rgb: array<int>)
    requires Uint16(color)
    ensures fresh(rgb) && rgb.Length == 100 && Filled(rgb[..], color)
  {
    rgb := new int[100](_ => Bswap16(color));
  }

  class Driver {
    const width: nat
    const height: nat
    ghost const powerOn: Screen  // the panel before the first transfer
    ghost var bus: seq<Transfer>

    /** What the panel shows and how its registers stand after everything sent so far. */
    ghost function Attached(): Screen
      reads this
    {
      FeedAll(powerOn, bus)
    }

    ghost predicate Valid()
      reads this
    {
      && PanelSize(width, height)
      && Covers(Attached(), width, height)
    }

    constructor (width: nat, height: nat, ghost panel: Screen)
      requires PanelSize(width, height) && Covers(panel, width, height)
      ensures Valid() && this.width == width && this.height == height && Attached() == panel
    {
      this.width, this.height, powerOn := width, height, panel;
      bus := [];
    }

    method WriteCmd(cmd: Byte)
      modifies this
      ensures bus == old(bus) + [Command(cmd)]
    {
      bus := bus + [Command(cmd)];
    }

    method WriteData(data: Text)
      modifies this
      ensures bus == old(bus) + [Data(data)]
    {
      bus := bus + [Data(data)];
    }

    /** A command and, unless it is empty, its data. */
    method WriteCmdData(cmd: Byte, data: Text)
      modifies this
      ensures bus == old(bus) + [Command(cmd)] + (if |data| > 0 then [Data(data)] else [])
    {
      WriteCmd(cmd);
      if |data| > 0 {
        WriteData(data);
      }
    }

    method SetFrame(x: int, y: int, endx: int, endy: int)
      requires Uint16(x) && Uint16(y) && Uint16(endx) && Uint16(endy)
      modifies this
      ensures bus == old(bus) + FrameTransfers(x, y, endx, endy)
    {
      var data := new Byte[4];
      data[0], data[1], data[2], data[3] := x / 256, x % 256, endx / 256, endx % 256;
      assert data[..] == BigEndian(x, endx);
      WriteCmdData(COL_ADDR_SET, data[..]);
      data[0], data[1], data[2], data[3] := y / 256, y % 256, endy / 256, endy % 256;
      assert data[..] == BigEndian(y, endy);
      WriteCmdData(ROW_ADDR_SET, data[..]);
    }

    /** gc9a01_write_buf: one window, one data transfer of twice its area, and afterwards the panel
        shows the image with the buffer pasted in as rows of desc.width pixels. */
    method WriteBuf(x: nat, y: nat, desc: BufferDescriptor, buf: Text)
      requires Valid() && desc.width >= 1 && desc.height >= 1
      requires x + desc.width <= width && y + desc.height <= height
      requires |buf| >= 2 * (desc.width * desc.height)
      modifies this
      ensures Valid()
      ensures bus == old(bus) + DrawTransfers(Rectangle(x, y, desc.width, desc.height, buf))
      ensures Draws(bus[|old(bus)|..], Rectangle(x, y, desc.width, desc.height, buf))
      ensures Attached().image == Paste(old(Attached().image), x, y, desc.width, desc.height, buf)
    {
      hide FeedAll, Paste, Covers, FrameTransfers, DrawTransfers, Draws;
      hide Drawable, InBounds, PanelSize, Uint16;
      ghost var before := bus;
      ghost var d := Rectangle(x, y, desc.width, desc.height, buf);
      OnPanel(d);
      SetFrame(x, y, (x + desc.width - 1) % 0x1_0000, (y + desc.height - 1) % 0x1_0000);
      ghost var framed := bus;
      var len := desc.width * desc.height * 2;
      assert len < 0x8000_0000;
      WriteCmdData(RAMWR, buf[..len]);
      DrawnTransfers(before, framed, buf[..len], d);
      DrawnAfter(before, d);
    }

    lemma DrawnTransfers(before: seq<Transfer>, framed: seq<Transfer>, pixels: Text, d: Rectangle)
      requires Drawable(d) && framed == before + FrameTransfers(d.x, d.y, d.x + d.w - 1, d.y + d.h - 1)
      requires pixels <= d.buf && |pixels| == d.w * d.h * 2
      ensures framed + [Command(RAMWR)] + [Data(pixels)] == before + DrawTransfers(d)
    {
      hide FrameTransfers;
      LengthPositive(d.w, d.h);
      assert pixels == d.buf[..2 * (d.w * d.h)];
    }

    /** The corners of a rectangle on the panel fit 16 bits; its data is not empty and fits an int. */
    lemma OnPanel(d: Rectangle)
      requires PanelSize(width, height) && 1 <= d.w && 1 <= d.h && |d.buf| >= 2 * (d.w * d.h)
      requires d.x + d.w <= width && d.y + d.h <= height
      ensures Drawable(d) && InBounds(d, width, height)
      ensures Uint16(d.x) && Uint16(d.y) && Uint16(d.x + d.w - 1) && Uint16(d.y + d.h - 1)
      ensures (d.x + d.w - 1) % 0x1_0000 == d.x + d.w - 1 && (d.y + d.h - 1) % 0x1_0000 == d.y + d.h - 1
      ensures 0 < d.w * d.h * 2 < 0x8000_0000 && d.w * d.h * 2 <= |d.buf|
    {
      LengthPositive(d.w, d.h);
      AreaWithin(d.w, d.h, width, height);
    }

    lemma DrawnAfter(before: seq<Transfer>, d: Rectangle)
      requires Covers(FeedAll(powerOn, before), width, height) && Drawable(d) && InBounds(d, width, height)
      ensures var s, s' := FeedAll(powerOn, before), FeedAll(powerOn, before + DrawTransfers(d));
              Covers(s', width, height) && s'.image == Paste(s.image, d.x, d.y, d.w, d.h, d.buf)
      ensures Draws((before + DrawTransfers(d))[|before|..], d)
    {
      hide *;
      SixTransfers(d);
      assert (before + DrawTransfers(d))[|before|..] == DrawTransfers(d);
      FeedConcat(powerOn, before, DrawTransfers(d));
      DrawOne(FeedAll(powerOn, before), d, width, height);
    }

    /** gc9a01_write_data on the memory of the first `count` words of the fill pattern. */
    method WritePattern(rgb: array<int>, count: nat, ghost color: int)
      requires Uint16(color) && count <= rgb.Length && Filled(rgb[..], color)
      modifies this
      ensures bus == old(bus) + [Data(Solid(color, count))]
    {
      hide Memory, Solid, Bswap16;
      var words := rgb[..count];
      SwappedMemory(words, color);
      WriteData(Memory(words));
    }

    /** gc9a01_clear with a 16-bit colour. */
    method Clear(color: int)
      requires Valid() && Uint16(color)
      modifies this
      ensures Valid()
      ensures bus == old(bus) + FrameTransfers(0, 0, width - 1, height - 1) + [Command(RAMWR)] +
                     ClearData(color, width * height)
      ensures Clears(bus[|old(bus)|..], width, height, color, width * height)
      ensures Painted(Attached().image, width, height, color)
      ensures (width * height) % 100 <= 1 ==> Attached().col == 0 && Attached().row == 0
    {
      hide FeedAll, ClearData, Solid, FrameTransfers, Covers, Painted, Repeat, Filled, Clears;
      SetFrame(0, 0, width - 1, height - 1);
      var rgb := Pattern(color);
      WriteCmd(RAMWR);
      ghost var framed := bus;
      var n := width * height;
      var blocks, rest := n / rgb.Length, n % rgb.Length;
      assert blocks == n / 100 && rest == n % 100;
      RepeatNone(framed, Data(Solid(color, 100)));
      var i := 0;
      while i < blocks
        invariant 0 <= i <= blocks
        invariant Filled(rgb[..], color)
        invariant bus == framed + Repeat(Data(Solid(color, 100)), i)
      {
        RepeatMore(framed, Data(Solid(color, 100)), i);
        WritePattern(rgb, rgb.Length, color);
        i := i + 1;
      }
      ghost var half := bus;
      RepeatNone(half, Data(Solid(color, rest)));
      i := 0;
      while i < rest
        invariant 0 <= i <= rest
        invariant Filled(rgb[..], color)
        invariant bus == half + Repeat(Data(Solid(color, rest)), i)
      {
        RepeatMore(half, Data(Solid(color, rest)), i);
        WritePattern(rgb, rest, color);
        i := i + 1;
      }
      ClearDataIs(framed, color, n);
      ClearedAfter(old(bus), color);
    }

    lemma ClearedAfter(before: seq<Transfer>, color: int)
      requires PanelSize(width, height) && Uint16(color) && Covers(FeedAll(powerOn, before), width, height)
      ensures var s := FeedAll(powerOn, before + FrameTransfers(0, 0, width - 1, height - 1) + [Command(RAMWR)] +
                                        ClearData(color, width * height));
              && Covers(s, width, height) && Painted(s.image, width, height, color)
              && ((width * height) % 100 <= 1 ==> s.col == 0 && s.row == 0)
      ensures Clears((before + FrameTransfers(0, 0, width - 1, height - 1) + [Command(RAMWR)] +
                      ClearData(color, width * height))[|before|..], width, height, color, width * height)
    {
      hide FeedAll, Covers, ClearData, Painted, FrameTransfers, Clears;
      var sent := FrameTransfers(0, 0, width - 1, height - 1) + [Command(RAMWR)] + ClearData(color, width * height);
      assert before + FrameTransfers(0, 0, width - 1, height - 1) + [Command(RAMWR)] +
             ClearData(color, width * height) == before + sent;
      assert (before + sent)[|before|..] == sent;
      ClearTransfers(width, height, color, width * height);
      FeedConcat(powerOn, before, sent);
      ClearWhole(FeedAll(powerOn, before), width, height, color);
    }
  }

  lemma ClearWhole(s: Screen, w: nat, h: nat, color: int)
    requires Uint16(color) && 1 <= w <= 0x1_0000 && 1 <= h <= 0x1_0000 && Covers(s, w, h)
    ensures var s' := FeedAll(s, FrameTransfers(0, 0, w - 1, h - 1) + [Command(RAMWR)] + ClearData(color, w * h));
            && Covers(s', w, h) && Painted(s'.image, w, h, color)
            && ((w * h) % 100 <= 1 ==> s'.col == 0 && s'.row == 0)
  {
    hide FeedAll, ClearData, Painted, FrameTransfers;
    FrameSets(s, 0, 0, w - 1, h - 1);
    var frame := FrameTransfers(0, 0, w - 1, h - 1) + [Command(RAMWR)];
    FeedConcat(s, frame, ClearData(color, w * h));
    var s1 := FeedAll(s, frame);
    assert Writing(s1, 0, 0, w, h, 0, 0);
    ClearPaints(s1, w, h, color);
  }

  lemma RepeatMore(before: seq<Transfer>, t: Transfer, n: nat)
    ensures before + Repeat(t, n) + [t] == before + Repeat(t, n + 1)
  {
    assert Repeat(t, n) + [t] == Repeat(t, n + 1);
  }

  lemma RepeatNone(before: seq<Transfer>, t: Transfer)
    ensures before + Repeat(t, 0) == before
  {
  }

  lemma LengthPositive(w: nat, h: nat)
    requires w >= 1 && h >= 1
    ensures w * h * 2 == 2 * (w * h) > 0
  {
    MulMonotone(1, w, h);
  }

  lemma AreaWithin(w: nat, h: nat, width: nat, height: nat)
    requires w <= width && h <= height
    ensures w * h <= width * height
  {
    MulMonotone(w, width, h);
    MulMonotone(h, height, width);
  }

  lemma ClearDataIs(before: seq<Transfer>, color: int, n: nat)
    requires Uint16(color)
    ensures before + ClearData(color, n) ==
      before + Repeat(Data(Solid(color, 100)), n / 100) + Repeat(Data(Solid(color, n % 100)), n % 100)
  {
  }
}
