/** src/q8.rs: the image-checksum (part A) and decoding (part B) puzzle
    over a layered image. */
module SpaceImage {
  import opened Wrappers
  import opened Arith
  import opened Decimal
  import opened LayeredImage

  /** The command line: which part, and the image's dimensions. */
  datatype Options = A(width: nat, height: nat) | B(width: nat, height: nat)

  /** `dimensions`: either part carries the same pair. */
  function Dimensions(o: Options): (r: (nat, nat))
    ensures o.A? ==> r == (o.width, o.height)
    ensures o.B? ==> r == (o.width, o.height)
  {
    match o
    case A(w, h) => (w, h)
    case B(w, h) => (w, h)
  }

  datatype PuzzleError =
    | BadImage(error: ImageError)     // `new_with_string` failed
    | NoLayers                         // `unwrap` of an empty minimum, or `layers - 1` underflowing

  // Counting

  /** `filter(|c| *c == v).count()`. */
  function Occurrences(s: seq<int>, v: int): (r: nat)
    ensures r <= |s|
  {
    if |s| == 0 then 0 else (if s[0] == v then 1 else 0) + Occurrences(s[1..], v)
  }

  /** Counting agrees with the multiplicity of `v` in the multiset of `s`. */
  lemma {:induction false} OccurrencesIsMultiplicity(s: seq<int>, v: int)
    ensures Occurrences(s, v) == multiset(s)[v]
  {
    if |s| > 0 {
      OccurrencesIsMultiplicity(s[1..], v);
      assert s == [s[0]] + s[1..];
    }
  }

  /** The fold over the pixels adding up `(pixel == 1, pixel == 2)` onto
      the running total. */
  function Tally(s: seq<int>, total: (int, int)): (int, int) {
    if |s| == 0 then total
    else Tally(s[1..], (total.0 + (if s[0] == 1 then 1 else 0), total.1 + (if s[0] == 2 then 1 else 0)))
  }

  /** The fold counts the ones in its first slot and the twos in its second. */
  lemma {:induction false} TallyCounts(s: seq<int>, total: (int, int))
    ensures Tally(s, total) == (total.0 + Occurrences(s, 1), total.1 + Occurrences(s, 2))
  {
    if |s| > 0 {
      TallyCounts(s[1..], (total.0 + (if s[0] == 1 then 1 else 0), total.1 + (if s[0] == 2 then 1 else 0)));
    }
  }

  // The layer with the fewest zeros

  /** The left fold behind `min_by_key`: a later key replaces the best so
      far only when strictly smaller. */
  function MinFrom(keys: seq<nat>, best: nat, i: nat): nat
    requires best < i <= |keys|
    decreases |keys| - i
  {
    if i == |keys| then best
    else MinFrom(keys, if keys[i] < keys[best] then i else best, i + 1)
  }

  /** `keys[m]` is a minimum of `keys` and no earlier key is as small. */
  ghost predicate FirstMinimum(keys: seq<nat>, m: nat) {
    && m < |keys|
    && (forall j :: 0 <= j < |keys| ==> keys[m] <= keys[j])
    && (forall j :: 0 <= j < m ==> keys[m] < keys[j])
  }

  lemma {:induction false} MinFromIsFirstMinimum(keys: seq<nat>, best: nat, i: nat)
    requires best < i <= |keys|
    requires FirstMinimum(keys[..i], best)
    ensures FirstMinimum(keys, MinFrom(keys, best, i))
    decreases |keys| - i
  {
    if i < |keys| {
      var next := if keys[i] < keys[best] then i else best;
      assert keys[..i + 1][..i] == keys[..i];
      MinFromIsFirstMinimum(keys, next, i + 1);
    } else {
      assert keys[..i] == keys;
    }
  }

  /** `min_by_key`: the first of the smallest keys, none when empty. */
  function MinByKey(keys: seq<nat>): (r: Option<nat>)
    ensures r.None? <==> |keys| == 0
    ensures r.Some? ==> FirstMinimum(keys, r.value)
  {
    if |keys| == 0 then None
    else
      MinFromIsFirstMinimum(keys, 0, 1);
      Some(MinFrom(keys, 0, 1))
  }

  /** There is only one first minimum. */
  lemma FirstMinimumUnique(keys: seq<nat>, m: nat, n: nat)
    requires FirstMinimum(keys, m) && FirstMinimum(keys, n)
    ensures m == n
  {
    assert keys[m] == keys[n];
  }

  /** The number of zeros of each layer, in layer order. */
  function ZeroCounts(img: Image): (r: seq<nat>)
    requires Valid(img)
    ensures |r| == img.layers
    ensures forall l :: 0 <= l < img.layers ==> r[l] == Occurrences(Pixels(img, l), 0)
  {
    seq(img.layers, l requires 0 <= l < img.layers => Occurrences(Pixels(img, l), 0))
  }

  // The two parts

  /** A parsed image has no layers exactly when the input is empty. */
  lemma NoLayersIffEmpty(bytes: seq<Byte>, width: nat, height: nat)
    requires NewWithString(bytes, width, height).Success?
    ensures NewWithString(bytes, width, height).value.layers == 0 <==> |bytes| == 0
  {
    var img := NewWithString(bytes, width, height).value;
    if img.layers > 0 {
      MulLeft(1, img.layers, width * height);
    }
  }

  /** The fold over one layer's pixels, multiplied out: its ones times its
      twos. */
  function LayerChecksum(img: Image, l: nat): (r: int)
    requires Valid(img) && l < img.layers
    ensures r == Occurrences(Pixels(img, l), 1) * Occurrences(Pixels(img, l), 2)
  {
    var pixels := Pixels(img, l);
    TallyCounts(pixels, (0, 0));
    var (ones, twos) := Tally(pixels, (0, 0));
    ones * twos
  }

  /** Part A: in the first layer with the fewest zeros, the number of ones
      times the number of twos. */
  function Checksum(bytes: seq<Byte>, width: nat, height: nat): (r: Result<int, PuzzleError>)
    ensures NewWithString(bytes, width, height).Failure? ==>
              r == Failure(BadImage(NewWithString(bytes, width, height).error))
    ensures r == Failure(NoLayers) <==> width * height > 0 && |bytes| == 0
    ensures r.Success? <==> NewWithString(bytes, width, height).Success? && |bytes| > 0
    ensures r.Success? ==>
              var img := NewWithString(bytes, width, height).value;
              exists l :: FirstMinimum(ZeroCounts(img), l) && r.value == LayerChecksum(img, l)
  {
    match NewWithString(bytes, width, height)
    case Failure(e) => Failure(BadImage(e))
    case Success(img) =>
      NoLayersIffEmpty(bytes, width, height);
      match MinByKey(ZeroCounts(img))
      case None => Failure(NoLayers)
      case Some(l) => Success(LayerChecksum(img, l))
  }

  /** Part B: the flattened image's only layer as displayed. */
  function Decoded(bytes: seq<Byte>, width: nat, height: nat): (r: Result<string, PuzzleError>)
    ensures NewWithString(bytes, width, height).Failure? ==>
              r == Failure(BadImage(NewWithString(bytes, width, height).error))
    ensures r == Failure(NoLayers) <==> width * height > 0 && |bytes| == 0
    ensures r.Success? <==> NewWithString(bytes, width, height).Success? && |bytes| > 0
    ensures r.Success? ==>
              var img := NewWithString(bytes, width, height).value;
              img.layers >= 1 && r.value == Render(Flattened(img), 0)
  {
    match NewWithString(bytes, width, height)
    case Failure(e) => Failure(BadImage(e))
    case Success(img) =>
      NoLayersIffEmpty(bytes, width, height);
      if img.layers == 0 then Failure(NoLayers) else Success(Render(Flattened(img), 0))
  }

  /** What `run` prints for the given options: the checksum in decimal, or
      the decoded picture. */
  function Answer(o: Options, bytes: seq<Byte>): Result<string, PuzzleError> {
    match o
    case A(w, h) => (match Checksum(bytes, w, h)
                     case Failure(e) => Failure(e)
                     case Success(v) => Success(ShowInt(v)))
    case B(w, h) => Decoded(bytes, w, h)
  }

  /** `run`: part B flattens the image by overlaying its layers and displays
      the result row by row. */
  method Run(o: Options, bytes: seq<Byte>) returns (r: Result<string, PuzzleError>)
    ensures r == Answer(o, bytes)
  {
    var (width, height) := Dimensions(o);
    var parsed := NewWithString(bytes, width, height);
    if parsed.Failure? {
      return Failure(BadImage(parsed.error));
    }
    var img := parsed.value;
    match o {
      case A(_, _) =>
        var checksum := Checksum(bytes, width, height);
        r := match checksum
             case Failure(e) => Failure(e)
             case Success(v) => Success(ShowInt(v));
      case B(_, _) =>
        if img.layers == 0 {
          return Failure(NoLayers);
        }
        var flat := Flatten(img);
        var out := Display(flat, 0);
        r := Success(out);
    }
  }

  /** Every byte is a decimal digit character. */
  predicate DigitBytes(bytes: seq<Byte>) {
    forall i :: 0 <= i < |bytes| ==> '0' as int <= bytes[i] <= '9' as int
  }

  /** Each pixel of a layer of digit characters is in 0 to 9. */
  lemma DigitPixels(img: Image, l: nat, j: nat)
    requires Valid(img) && l < img.layers && j < img.width * img.height
    requires img.offset == '0' as int
    requires forall i :: 0 <= i < |img.pixels| ==> '0' as int <= img.pixels[i] <= '9' as int
    ensures 0 <= Pixels(img, l)[j] < 10
  {
    PixelsAreSlice(img, l);
  }

  /** Part B on an input of digits: the answer is `height` lines of `width`
      characters; the character for x, y shows the flattened pixel there (the
      pixel of the first layer that is not transparent, see `FlattenedPixel`
      and `VisibleIs`), a space for 0. */
  lemma DecodedShows(bytes: seq<Byte>, width: nat, height: nat, x: nat, y: nat)
    requires DigitBytes(bytes)
    requires Decoded(bytes, width, height).Success?
    requires x < width && y < height
    ensures var out := Decoded(bytes, width, height).value;
            var flat := Flattened(NewWithString(bytes, width, height).value);
            && |out| == height * (width + 1)
            && y * (width + 1) + width < |out| && out[y * (width + 1) + width] == '\n'
            && 0 <= Pixel(flat, 0, x, y) < 10
            && out[y * (width + 1) + x] == CellChar(Pixel(flat, 0, x, y))
  {
    var img := NewWithString(bytes, width, height).value;
    var flat := Flattened(img);
    assert Decoded(bytes, width, height).value == Render(flat, 0);
    FlattenedDigits(img);
    RenderIndex(flat, 0, width, y);
    RenderIndex(flat, 0, x, y);
  }

  /** Flattening an image of digit characters leaves single digits. */
  lemma FlattenedDigits(img: Image)
    requires Valid(img) && img.layers >= 1 && img.offset == '0' as int
    requires forall i :: 0 <= i < |img.pixels| ==> '0' as int <= img.pixels[i] <= '9' as int
    ensures SingleDigits(Flattened(img), 0)
  {
    var flat := Flattened(img);
    forall fx, fy | 0 <= fx < img.width && 0 <= fy < img.height
      ensures 0 <= Pixel(flat, 0, fx, fy) < 10
    {
      var j := fy * img.width + fx;
      FlattenedPixel(img, fx, fy);
      VisibleIs(img, j, 0);
      var k :| 0 <= k < img.layers && Visible(img, j, 0) == Pixels(img, k)[j];
      DigitPixels(img, k, j);
    }
  }
}
