/**
 * The icon the notifier draws for each notification type: a 64x64 RGBA
 * canvas holding a filled disc of radius 28 in the type's colour, on a
 * fully transparent background, with no anti-aliasing.
 */
module Icon {
  import Parser

  type Channel = x: int | 0 <= x < 256

  datatype Rgba = Rgba(r: Channel, g: Channel, b: Channel, a: Channel)

  const Transparent: Rgba := Rgba(0, 0, 0, 0)

  /** A palette entry: the disc colour and the type's symbol (kept, never drawn). */
  datatype Style = Style(color: Rgba, symbol: string)

  /** `iconData`. */
  const Palette: map<string, Style> := map[
    "success" := Style(Rgba(46, 204, 113, 255), "\U{2713}"),
    "error" := Style(Rgba(231, 76, 60, 255), "\U{2717}"),
    "info" := Style(Rgba(52, 152, 219, 255), "\U{2139}"),
    "warning" := Style(Rgba(241, 196, 15, 255), "\U{26A0}")]

  /** The palette lookup of `createIcon`: an unknown type borrows the `info` entry. */
  function StyleFor(key: string): (s: Style)
    ensures s.color.a == 255
    ensures s in Palette.Values
    ensures key in Palette ==> s == Palette[key]
    ensures key !in Palette ==> s == Palette["info"]
  {
    if key in Palette then Palette[key] else Palette["info"]
  }

  /** The four colours, and the fallback to blue for anything else. */
  lemma PaletteColours(key: string)
    ensures key == "success" ==> StyleFor(key).color == Rgba(46, 204, 113, 255)
    ensures key == "error" ==> StyleFor(key).color == Rgba(231, 76, 60, 255)
    ensures key == "warning" ==> StyleFor(key).color == Rgba(241, 196, 15, 255)
    ensures key !in {"success", "error", "warning"} ==> StyleFor(key) == StyleFor("info")
    ensures key !in {"success", "error", "warning"} ==> StyleFor(key).color == Rgba(52, 152, 219, 255)
  {
  }

  /** Every type that passes validation has its own palette entry, and the four colours differ. */
  lemma EveryValidTypeHasAStyle(t: string)
    requires t in Parser.ValidTypes
    ensures t in Palette
    ensures forall u :: u in Palette && u != t ==> Palette[u].color != Palette[t].color
  {
  }

  // ---------------------------------------------------------------- geometry

  const Size: int := 64
  const Center: int := Size / 2
  const Radius: int := Size / 2 - 4

  /** The in/out test of the pixel loop: squared distance to the centre at most the squared radius. */
  predicate InDisc(x: int, y: int) {
    var dx := x - Center;
    var dy := y - Center;
    dx * dx + dy * dy <= Radius * Radius
  }

  /** The pixel loop of `createIcon`, row by row, producing `img[y][x]`. */
  method Rasterize(key: string) returns (img: seq<seq<Rgba>>)
    ensures |img| == 64
    ensures forall y :: 0 <= y < 64 ==> |img[y]| == 64
    ensures forall y, x :: 0 <= y < 64 && 0 <= x < 64 ==>
      img[y][x] == if (x - 32) * (x - 32) + (y - 32) * (y - 32) <= 784
                   then StyleFor(key).color else Rgba(0, 0, 0, 0)
  {
    var data := StyleFor(key);
    var rows: seq<seq<Rgba>> := [];
    var y := 0;
    while y < Size
      invariant 0 <= y <= Size
      invariant |rows| == y
      invariant forall yy :: 0 <= yy < y ==> |rows[yy]| == Size
      invariant forall yy, x :: 0 <= yy < y && 0 <= x < Size ==>
        rows[yy][x] == if InDisc(x, yy) then data.color else Transparent
    {
      var row: seq<Rgba> := [];
      var x := 0;
      while x < Size
        invariant 0 <= x <= Size
        invariant |row| == x
        invariant forall xx :: 0 <= xx < x ==> row[xx] == if InDisc(xx, y) then data.color else Transparent
      {
        var dx := x - Center;
        var dy := y - Center;
        var distance := dx * dx + dy * dy;
        if distance <= Radius * Radius {
          row := row + [data.color];
        } else {
          row := row + [Transparent];
        }
        x := x + 1;
      }
      rows := rows + [row];
      y := y + 1;
    }
    img := rows;
  }

  /** Every opaque pixel keeps the 4-pixel margin: it lies in the square [4, 60] x [4, 60]. */
  lemma DiscWithinMargin(x: int, y: int)
    requires InDisc(x, y)
    ensures 4 <= x <= 60 && 4 <= y <= 60
  {
    var dx, dy := x - 32, y - 32;
    assert dx * dx + dy * dy <= 784;
    assert dy * dy >= 0 && dx * dx >= 0;
    if dx > 28 || dx < -28 { SquareAtLeast(dx, 29); }
    if dy > 28 || dy < -28 { SquareAtLeast(dy, 29); }
  }

  /** A number at least `m` away from zero has a square at least `m * m`. */
  lemma SquareAtLeast(d: int, m: int)
    requires m >= 0
    requires d >= m || d <= -m
    ensures d * d >= m * m
  {
    if d >= m {
      assert d * d >= m * d >= m * m;
    } else {
      assert d * d == (-d) * (-d);
      assert (-d) * (-d) >= m * (-d) >= m * m;
    }
  }

  /** The margin is exact: the disc reaches pixel 4 and 60 on both axes, and no further. */
  lemma DiscTouchesMargin()
    ensures InDisc(4, 32) && InDisc(60, 32) && InDisc(32, 4) && InDisc(32, 60)
    ensures !InDisc(3, 32) && !InDisc(61, 32) && !InDisc(32, 3) && !InDisc(32, 61)
    ensures InDisc(32, 32) && !InDisc(0, 0) && !InDisc(63, 63)
  {
  }

  /** Each row's opaque pixels form one unbroken run: the fill has no holes. */
  lemma DiscRowsAreConvex(x1: int, x2: int, x: int, y: int)
    requires InDisc(x1, y) && InDisc(x2, y)
    requires x1 <= x <= x2
    ensures InDisc(x, y)
  {
  }

  /** The disc is symmetric under swapping the axes and under mirroring about the centre. */
  lemma DiscSymmetries(x: int, y: int)
    ensures InDisc(x, y) <==> InDisc(y, x)
    ensures InDisc(x, y) <==> InDisc(64 - x, y)
    ensures InDisc(x, y) <==> InDisc(x, 64 - y)
  {
    assert (64 - x - 32) * (64 - x - 32) == (x - 32) * (x - 32);
    assert (64 - y - 32) * (64 - y - 32) == (y - 32) * (y - 32);
  }

  // ---------------------------------------------------------------- file name

  /** The icon's file name in the temporary directory: one fixed name per type. */
  function IconFileName(typ: string): string {
    "notify_icon_" + typ + ".png"
  }

  /**
   * Different types never share a file, and the same type always does (which
   * is why two concurrent runs of one type race on one file).
   */
  lemma IconFileNameInjective(a: string, b: string)
    ensures IconFileName(a) == IconFileName(b) <==> a == b
  {
    if IconFileName(a) == IconFileName(b) {
      var p := "notify_icon_";
      var na, nb := IconFileName(a), IconFileName(b);
      assert |a| == |b|;
      forall i | 0 <= i < |a|
        ensures a[i] == b[i]
      {
        assert na[|p| + i] == a[i];
        assert nb[|p| + i] == b[i];
      }
    }
  }
}
