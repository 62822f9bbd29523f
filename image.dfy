/** src/image.rs: an image stored as the bytes of a string, split into
    layers of width x height pixels, each layer in row-major order. */
module LayeredImage {
  import opened Wrappers
  import opened Arith
  import opened Decimal

  type Byte = b: int | 0 <= b < 256

  /** The pixels, the value subtracted from each (the character '0' for a
      parsed image, 0 for a flattened one) and the dimensions. */
  datatype Image = Image(pixels: seq<int>, offset: int, width: nat, height: nat, layers: nat)

  predicate Valid(img: Image) {
    |img.pixels| == img.layers * (img.width * img.height)
  }

  datatype ImageError =
    | BadDimensions   // the length is not a whole number of layers
    | ZeroArea        // `%` by a zero width * height panics

  /** `new_with_string`: the bytes, as whole layers of width * height. */
  function NewWithString(bytes: seq<Byte>, width: nat, height: nat): (r: Result<Image, ImageError>)
    ensures r.Success? <==> width * height > 0 && |bytes| % (width * height) == 0
    ensures r == Failure(ZeroArea) <==> width * height == 0
    ensures r.Success? ==>
              && Valid(r.value) && r.value.pixels == bytes && r.value.offset == '0' as int
              && r.value.width == width && r.value.height == height
              && r.value.layers * (width * height) == |bytes|
  {
    var dimensions := width * height;
    if dimensions == 0 then Failure(ZeroArea)
    else if |bytes| % dimensions == 0 then
      Success(Image(bytes, '0' as int, width, height, |bytes| / dimensions))
    else Failure(BadDimensions)
  }

  /** Layer `index` of an image. */
  datatype Layer = Layer(image: Image, index: nat)

  /** `layers`: every layer, in order. */
  function Layers(img: Image): (ls: seq<Layer>)
    ensures |ls| == img.layers
    ensures forall i :: 0 <= i < |ls| ==> ls[i] == Layer(img, i)
  {
    seq(img.layers, i requires 0 <= i < img.layers => Layer(img, i))
  }

  /** The first index of layer l in the pixels. */
  function Base(img: Image, l: nat): nat {
    l * (img.width * img.height)
  }

  lemma LayerInBounds(img: Image, l: nat)
    requires Valid(img) && l < img.layers
    ensures Base(img, l) + img.width * img.height <= |img.pixels|
  {
    MulLeft(l + 1, img.layers, img.width * img.height);
  }

  /** `pixel`: the byte at x, y of layer l, less the offset. */
  function Pixel(img: Image, l: nat, x: nat, y: nat): int
    requires Valid(img) && l < img.layers && x < img.width && y < img.height
  {
    LayerInBounds(img, l);
    MulLeft(y + 1, img.height, img.width);
    img.pixels[Base(img, l) + y * img.width + x] - img.offset
  }

  /** Row y of layer l, x from 0 to width - 1. */
  function Row(img: Image, l: nat, y: nat): (r: seq<int>)
    requires Valid(img) && l < img.layers && y < img.height
    ensures |r| == img.width && forall x :: 0 <= x < img.width ==> r[x] == Pixel(img, l, x, y)
  {
    seq(img.width, x requires 0 <= x < img.width => Pixel(img, l, x, y))
  }

  function RowsFrom(img: Image, l: nat, y: nat): (r: seq<int>)
    requires Valid(img) && l < img.layers && y <= img.height
    decreases img.height - y
    ensures |r| == img.width * (img.height - y)
  {
    if y == img.height then []
    else
      MulDistributes(img.width, img.height - y - 1, 1);
      Row(img, l, y) + RowsFrom(img, l, y + 1)
  }

  /** `Layer::pixels`: the rows of the layer in turn (`y` outer, `x`
      inner). */
  function Pixels(img: Image, l: nat): (r: seq<int>)
    requires Valid(img) && l < img.layers
    ensures |r| == img.width * img.height
  {
    RowsFrom(img, l, 0)
  }

  /** s with o subtracted from every element. */
  function Less(s: seq<int>, o: int): (r: seq<int>)
    ensures |r| == |s| && forall i :: 0 <= i < |s| ==> r[i] == s[i] - o
  {
    seq(|s|, i requires 0 <= i < |s| => s[i] - o)
  }

  lemma LessSplit(s: seq<int>, o: int, a: nat, m: nat, c: nat)
    requires a <= m <= c <= |s|
    ensures Less(s[a..c], o) == Less(s[a..m], o) + Less(s[m..c], o)
  {
    assert s[a..c] == s[a..m] + s[m..c];
  }

  /** Where row y of layer l starts in the pixels. */
  function RowStart(img: Image, l: nat, y: nat): nat {
    Base(img, l) + y * img.width
  }

  lemma RowBounds(img: Image, l: nat, y: nat)
    requires Valid(img) && l < img.layers && y <= img.height
    ensures RowStart(img, l, y) <= RowStart(img, l, img.height) <= |img.pixels|
    ensures y < img.height ==> RowStart(img, l, y + 1) == RowStart(img, l, y) + img.width
    ensures RowStart(img, l, img.height) == Base(img, l) + img.width * img.height
  {
    LayerInBounds(img, l);
    MulLeft(y, img.height, img.width);
    MulDistributes(img.width, y, 1);
  }

  lemma RowIsSlice(img: Image, l: nat, y: nat)
    requires Valid(img) && l < img.layers && y < img.height
    ensures RowStart(img, l, y) + img.width <= |img.pixels|
    ensures Row(img, l, y) == Less(img.pixels[RowStart(img, l, y) .. RowStart(img, l, y) + img.width], img.offset)
  {
    RowBounds(img, l, y);
    RowBounds(img, l, y + 1);
  }

  lemma {:induction false} RowsFromSlice(img: Image, l: nat, y: nat)
    requires Valid(img) && l < img.layers && y <= img.height
    ensures RowStart(img, l, y) <= RowStart(img, l, img.height) <= |img.pixels|
    ensures RowsFrom(img, l, y) == Less(img.pixels[RowStart(img, l, y) .. RowStart(img, l, img.height)], img.offset)
    decreases img.height - y
  {
    RowBounds(img, l, y);
    if y < img.height {
      RowsFromSlice(img, l, y + 1);
      RowIsSlice(img, l, y);
      LessSplit(img.pixels, img.offset, RowStart(img, l, y), RowStart(img, l, y + 1), RowStart(img, l, img.height));
    }
  }

  /** A layer's pixels are its stretch of the image's bytes, less the
      offset: layers are contiguous and stored row by row. */
  lemma PixelsAreSlice(img: Image, l: nat)
    requires Valid(img) && l < img.layers
    ensures Base(img, l) + img.width * img.height <= |img.pixels|
    ensures Pixels(img, l) == Less(img.pixels[Base(img, l) .. Base(img, l) + img.width * img.height], img.offset)
  {
    RowsFromSlice(img, l, 0);
    RowBounds(img, l, 0);
  }

  /** `Layer::pixels` yields width * height values, x, y at y * width + x. */
  lemma PixelsIndex(img: Image, l: nat, x: nat, y: nat)
    requires Valid(img) && l < img.layers && x < img.width && y < img.height
    ensures |Pixels(img, l)| == img.width * img.height
    ensures y * img.width + x < img.width * img.height
    ensures Pixels(img, l)[y * img.width + x] == Pixel(img, l, x, y)
  {
    PixelsAreSlice(img, l);
    MulLeft(y + 1, img.height, img.width);
    MulDistributes(img.width, y, 1);
  }

  /** `overlay`: every pixel of layer l that is not 2 (transparent) replaces
      the entry at its position; the zip stops at the shorter of the two. */
  method Overlay(img: Image, l: nat, dest: array<int>)
    requires Valid(img) && l < img.layers
    modifies dest
    ensures forall j :: 0 <= j < dest.Length ==>
      dest[j] == if j < |Pixels(img, l)| && Pixels(img, l)[j] != 2 then Pixels(img, l)[j] else old(dest[j])
  {
    var pixels := Pixels(img, l);
    var j := 0;
    while j < dest.Length && j < |pixels|
      invariant 0 <= j <= dest.Length
      invariant forall i :: 0 <= i < dest.Length ==>
        dest[i] == if i < j && i < |pixels| && pixels[i] != 2 then pixels[i] else old(dest[i])
    {
      if pixels[j] != 2 {
        dest[j] := pixels[j];
      }
      j := j + 1;
    }
  }

  /** The pixel seen at position j looking through the layers from l on:
      the first that is not transparent, or the last layer's. */
  function Visible(img: Image, j: nat, l: nat): int
    requires Valid(img) && l < img.layers && j < img.width * img.height
    decreases img.layers - l
  {
    var p := Pixels(img, l)[j];
    if l == img.layers - 1 || p != 2 then p else Visible(img, j, l + 1)
  }

  /** The visible pixel is the first layer's that is not 2, or the last
      layer's when all are 2. */
  lemma {:induction false} VisibleIs(img: Image, j: nat, l: nat)
    requires Valid(img) && l < img.layers && j < img.width * img.height
    ensures exists k :: (l <= k < img.layers && Visible(img, j, l) == Pixels(img, k)[j]
      && (Pixels(img, k)[j] != 2 || k == img.layers - 1)
      && forall i :: l <= i < k ==> Pixels(img, i)[j] == 2)
    decreases img.layers - l
  {
    if l == img.layers - 1 || Pixels(img, l)[j] != 2 {
      assert Visible(img, j, l) == Pixels(img, l)[j];
    } else {
      VisibleIs(img, j, l + 1);
      var k :| l + 1 <= k < img.layers && Visible(img, j, l + 1) == Pixels(img, k)[j]
        && (Pixels(img, k)[j] != 2 || k == img.layers - 1)
        && forall i :: l + 1 <= i < k ==> Pixels(img, i)[j] == 2;
      assert forall i :: l <= i < k ==> Pixels(img, i)[j] == 2;
    }
  }

  /** `flatten` as a value: one layer, offset 0, the visible pixels. */
  function Flattened(img: Image): (r: Image)
    requires Valid(img) && img.layers >= 1
    ensures Valid(r) && r.layers == 1 && r.offset == 0
    ensures r.width == img.width && r.height == img.height
  {
    Image(seq(img.width * img.height, j requires 0 <= j < img.width * img.height => Visible(img, j, 0)),
          0, img.width, img.height, 1)
  }

  /** `flatten`: the last layer's pixels, overlaid by every other layer from
      the last but one down to the first. An image with no layers
      underflows `layers - 1`. */
  method Flatten(img: Image) returns (r: Image)
    requires Valid(img) && img.layers >= 1
    ensures r == Flattened(img)
  {
    var n := img.width * img.height;
    var last := Pixels(img, img.layers - 1);
    var pixels := new int[n](j requires 0 <= j < n => last[j]);
    var k := img.layers - 1;
    while k > 0
      invariant 0 <= k < img.layers
      invariant forall j :: 0 <= j < n ==> pixels[j] == Visible(img, j, k)
    {
      k := k - 1;
      Overlay(img, k, pixels);
    }
    r := Image(pixels[..], 0, img.width, img.height, 1);
  }

  /** The pixels of the flattened image, read back as its only layer, are
      the visible ones. */
  lemma FlattenedPixels(img: Image, j: nat)
    requires Valid(img) && img.layers >= 1 && j < img.width * img.height
    ensures |Pixels(Flattened(img), 0)| == img.width * img.height
    ensures Pixels(Flattened(img), 0)[j] == Visible(img, j, 0)
  {
    PixelsAreSlice(Flattened(img), 0);
  }

  /** Pixel x, y of the flattened image is the one visible there. */
  lemma FlattenedPixel(img: Image, x: nat, y: nat)
    requires Valid(img) && img.layers >= 1 && x < img.width && y < img.height
    ensures y * img.width + x < img.width * img.height
    ensures Pixel(Flattened(img), 0, x, y) == Visible(img, y * img.width + x, 0)
  {
    PixelsIndex(Flattened(img), 0, x, y);
    FlattenedPixels(img, y * img.width + x);
  }

  /** Flattening a single layer leaves its pixels unchanged. */
  lemma FlattenSingle(img: Image)
    requires Valid(img) && img.layers == 1
    ensures Pixels(Flattened(img), 0) == Pixels(img, 0)
  {
    PixelsAreSlice(Flattened(img), 0);
    PixelsAreSlice(img, 0);
  }

  // Display

  /** A pixel as shown: 0 as a space, anything else in decimal. */
  function Cell(v: int): string {
    if v == 0 then " " else ShowInt(v)
  }

  function RowText(img: Image, l: nat, y: nat, x: nat): string
    requires Valid(img) && l < img.layers && y < img.height && x <= img.width
    decreases img.width - x
  {
    if x == img.width then "" else Cell(Pixel(img, l, x, y)) + RowText(img, l, y, x + 1)
  }

  function RenderFrom(img: Image, l: nat, y: nat): string
    requires Valid(img) && l < img.layers && y <= img.height
    decreases img.height - y
  {
    if y == img.height then "" else RowText(img, l, y, 0) + "\n" + RenderFrom(img, l, y + 1)
  }

  /** `Display for Layer`: each row's cells, then a newline. */
  function Render(img: Image, l: nat): string
    requires Valid(img) && l < img.layers
  {
    RenderFrom(img, l, 0)
  }

  /** `fmt`: the outer loop, one row and a newline at a time. */
  method Display(img: Image, l: nat) returns (out: string)
    requires Valid(img) && l < img.layers
    ensures out == Render(img, l)
  {
    out := "";
    var y := 0;
    while y < img.height
      invariant 0 <= y <= img.height
      invariant out + RenderFrom(img, l, y) == Render(img, l)
    {
      var row := ShowRow(img, l, y);
      ghost var before := out;
      out := out + row + "\n";
      Associate(before, row + "\n", RenderFrom(img, l, y + 1));
      Associate(before, row, "\n");
      y := y + 1;
    }
  }

  /** `fmt`: the inner loop, writing the cells of row `y` left to right. */
  method ShowRow(img: Image, l: nat, y: nat) returns (out: string)
    requires Valid(img) && l < img.layers && y < img.height
    ensures out == RowText(img, l, y, 0)
  {
    out := "";
    var x := 0;
    while x < img.width
      invariant 0 <= x <= img.width
      invariant out + RowText(img, l, y, x) == RowText(img, l, y, 0)
    {
      var p := Pixel(img, l, x, y);
      ghost var before := out;
      if p == 0 {
        out := out + " ";
      } else {
        out := out + ShowInt(p);
      }
      Associate(before, Cell(p), RowText(img, l, y, x + 1));
      x := x + 1;
    }
  }

  lemma Associate(a: string, b: string, c: string)
    ensures a + (b + c) == (a + b) + c
  {
  }

  /** How a single-digit pixel shows. */
  function CellChar(v: int): char
    requires 0 <= v < 10
  {
    if v == 0 then ' ' else DigitChar(v)
  }

  predicate SingleDigits(img: Image, l: nat)
    requires Valid(img) && l < img.layers
  {
    forall x, y :: 0 <= x < img.width && 0 <= y < img.height ==> 0 <= Pixel(img, l, x, y) < 10
  }

  lemma {:induction false} RowTextIndex(img: Image, l: nat, y: nat, x: nat)
    requires Valid(img) && l < img.layers && y < img.height && x <= img.width
    requires SingleDigits(img, l)
    ensures |RowText(img, l, y, x)| == img.width - x
    ensures forall i :: x <= i < img.width ==> RowText(img, l, y, x)[i - x] == CellChar(Pixel(img, l, i, y))
    decreases img.width - x
  {
    if x < img.width {
      RowTextIndex(img, l, y, x + 1);
      var v := Pixel(img, l, x, y);
      assert Cell(v) == [CellChar(v)];
    }
  }

  /** Lines of text, each followed by a newline. */
  function Joined(lines: seq<string>): string {
    if |lines| == 0 then "" else lines[0] + "\n" + Joined(lines[1..])
  }

  /** Lines of equal length `n` make a grid: character `x` of line `row`
      sits at `row * (n + 1) + x`, and the newline at `x == n`. */
  lemma {:induction false} JoinedIndex(lines: seq<string>, n: nat, row: nat, x: nat)
    requires forall i :: 0 <= i < |lines| ==> |lines[i]| == n
    requires row < |lines| && x <= n
    ensures |Joined(lines)| == |lines| * (n + 1)
    ensures row * (n + 1) + x < |Joined(lines)|
    ensures Joined(lines)[row * (n + 1) + x] == if x == n then '\n' else lines[row][x]
    decreases row
  {
    var rest := lines[1..];
    assert Joined(lines) == (lines[0] + "\n") + Joined(rest);
    MulSucc(|rest|, n + 1);
    if row == 0 {
      JoinedLength(rest, n);
    } else {
      JoinedIndex(rest, n, row - 1, x);
      MulSucc(row - 1, n + 1);
      IndexAfter(lines[0] + "\n", Joined(rest), (row - 1) * (n + 1) + x);
    }
  }

  lemma {:induction false} JoinedLength(lines: seq<string>, n: nat)
    requires forall i :: 0 <= i < |lines| ==> |lines[i]| == n
    ensures |Joined(lines)| == |lines| * (n + 1)
    decreases |lines|
  {
    if |lines| > 0 {
      JoinedLength(lines[1..], n);
      MulSucc(|lines| - 1, n + 1);
    }
  }

  /** The text of rows y to height - 1. */
  function RowTexts(img: Image, l: nat, y: nat): seq<string>
    requires Valid(img) && l < img.layers && y <= img.height
  {
    seq(img.height - y, i requires 0 <= i < img.height - y => RowText(img, l, y + i, 0))
  }

  lemma {:induction false} RenderFromJoined(img: Image, l: nat, y: nat)
    requires Valid(img) && l < img.layers && y <= img.height
    ensures RenderFrom(img, l, y) == Joined(RowTexts(img, l, y))
    decreases img.height - y
  {
    if y < img.height {
      var ts := RowTexts(img, l, y);
      RenderFromJoined(img, l, y + 1);
      assert ts[1..] == RowTexts(img, l, y + 1);
      assert Joined(ts) == ts[0] + "\n" + Joined(ts[1..]);
    }
  }

  lemma IndexAfter(a: string, b: string, i: nat)
    requires i < |b|
    ensures (a + b)[|a| + i] == b[i]
  {
  }

  /** With single-digit pixels the picture is a grid: `height` lines of
      `width` characters, each followed by a newline. */
  lemma RenderIndex(img: Image, l: nat, x: nat, y: nat)
    requires Valid(img) && l < img.layers && x <= img.width && y < img.height
    requires SingleDigits(img, l)
    ensures |Render(img, l)| == img.height * (img.width + 1)
    ensures y * (img.width + 1) + x < |Render(img, l)|
    ensures Render(img, l)[y * (img.width + 1) + x] == if x == img.width then '\n' else CellChar(Pixel(img, l, x, y))
  {
    var lines := RowTexts(img, l, 0);
    forall i | 0 <= i < |lines|
      ensures |lines[i]| == img.width
    {
      RowTextIndex(img, l, i, 0);
    }
    RenderFromJoined(img, l, 0);
    JoinedIndex(lines, img.width, y, x);
    RowTextIndex(img, l, y, 0);
  }
}
