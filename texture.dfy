/** Texture pixel table (src/internal/entitiy/texture.rs): a decoded image is
    flattened once into a row-major array of colours, then sampled with a
    bounds-checked lookup. */
module Textures {
  import opened Colors
  import Grid

  /** One decoded pixel, `image::Rgb<u8>`. */
  datatype Rgb = Rgb(r: bv8, g: bv8, b: bv8)

  /** A decoded image: its size and `get_pixel(x, y).to_rgb()`. Opening and
      decoding the file is not part of this model. */
  datatype Image = Image(width: nat, height: nat, pixel: (nat, nat) -> Rgb)

  datatype Option<T> = None | Some(value: T)

  /** The out-of-range sentinel colour, magenta. */
  const MISSING: bv32 := 0xFF00FF

  /** `(r << 16) | (g << 8) | b` in 32 bits: the packed value fits in 24 bits
      and unpacking it with `Color::from_hex` gives back the pixel's colour. */
  function Pack(p: Rgb): (c: bv32)
    ensures c < 0x100_0000
    ensures FromHex(c) == Color(p.r, p.g, p.b)
  {
    ((p.r as bv32) << 16) | ((p.g as bv32) << 8) | (p.b as bv32)
  }

  /** The packed value is the base-256 number with digits r, g, b. */
  lemma PackIsBase256(p: Rgb)
    ensures Pack(p) == (p.r as bv32) * 0x1_0000 + (p.g as bv32) * 0x100 + p.b as bv32
  {
    ShiftOrIsSum(p.r as bv32, p.g as bv32, p.b as bv32);
  }

  lemma ShiftOrIsSum(r: bv32, g: bv32, b: bv32)
    requires r < 0x100 && g < 0x100 && b < 0x100
    ensures (r << 16) | (g << 8) | b == r * 0x1_0000 + g * 0x100 + b
  {
  }

  /** Each channel is recovered by shifting and masking the packed value. */
  lemma PackChannels(p: Rgb)
    ensures (Pack(p) >> 16) & 0xFF == p.r as bv32
    ensures (Pack(p) >> 8) & 0xFF == p.g as bv32
    ensures Pack(p) & 0xFF == p.b as bv32
  {
  }

  /** `DynamicImage::new_rgb8(1, 1)`: one black pixel. */
  function BlackImage(): (img: Image)
    ensures img.width == 1 && img.height == 1
    ensures img.pixel(0, 0) == Rgb(0, 0, 0)
  {
    Image(1, 1, (x: nat, y: nat) => Rgb(0, 0, 0))
  }

  /** The colour a table of row width `w` holds at flat index `k` once loaded:
      the packed pixel of column `k % w`, row `k / w`. */
  ghost function Cell(img: Image, w: nat, k: nat): Color
    requires w > 0
  {
    FromHex(Pack(img.pixel(k % w, k / w)))
  }

  /** Columns before `x`, and rows before `y` of column `x`, are loaded. */
  ghost predicate Filled(s: seq<Color>, img: Image, w: nat, x: nat, y: nat)
    requires w > 0
  {
    forall k :: 0 <= k < |s| && (k % w < x || (k % w == x && k / w < y)) ==> s[k] == Cell(img, w, k)
  }

  lemma FillStep(s: seq<Color>, img: Image, w: nat, h: nat, x: nat, y: nat)
    requires x < w && y < h && |s| == w * h
    requires Filled(s, img, w, x, y)
    ensures y * w + x < |s|
    ensures Filled(s[y * w + x := FromHex(Pack(img.pixel(x, y)))], img, w, x, y + 1)
  {
    Grid.IndexInBounds(x, y, w, h);
    Grid.IndexSplit(x, y, w);
    var t := s[y * w + x := FromHex(Pack(img.pixel(x, y)))];
    forall k | 0 <= k < |t| && (k % w < x || (k % w == x && k / w < y + 1))
      ensures t[k] == Cell(img, w, k)
    {
      Grid.IndexCell(k, w, h);
    }
  }

  lemma FillColumn(s: seq<Color>, img: Image, w: nat, h: nat, x: nat)
    requires w > 0 && |s| == w * h
    requires Filled(s, img, w, x, h)
    ensures Filled(s, img, w, x + 1, 0)
  {
    forall k | 0 <= k < |s| && k % w < x + 1
      ensures s[k] == Cell(img, w, k)
    {
      Grid.IndexCell(k, w, h);
    }
  }

  class Texture {
    const image: Image
    const width: nat
    const height: nat
    /** The row-major colour table; its length is fixed, its cells are written in place. */
    const colorArray: array<Color>

    ghost predicate Valid()
      reads this
    {
      colorArray.Length == width * height
    }

    /** Texture::black(): a 1x1 texture whose only cell is black. */
    constructor Black()
      ensures Valid() && fresh(colorArray)
      ensures width == 1 && height == 1 && colorArray.Length == 1
      ensures colorArray[0] == Color(0, 0, 0)
    {
      image := BlackImage();
      width := 1;
      height := 1;
      colorArray := new Color[1](_ => Color(0, 0, 0));
      new;
      LoadColorArray();
    }

    /** Texture::new after opening and decoding: `None` stands for a file that
        could not be opened or decoded, which falls back to the black texture. */
    constructor New(decoded: Option<Image>)
      ensures Valid() && fresh(colorArray)
      ensures decoded.None? ==> width == 1 && height == 1 && colorArray[0] == Color(0, 0, 0)
      ensures decoded.Some? ==>
        image == decoded.value && width == decoded.value.width && height == decoded.value.height
      ensures forall x: nat, y: nat :: x < width && y < height ==>
        GetColor(x, y) == FromHex(Pack(image.pixel(x, y)))
    {
      var img := if decoded.Some? then decoded.value else BlackImage();
      image := img;
      width := img.width;
      height := img.height;
      colorArray := new Color[img.width * img.height](_ => Color(0, 0, 0));
      new;
      LoadColorArray();
      if decoded.None? {
        Grid.IndexInBounds(0, 0, 1, 1);
        assert GetColor(0, 0) == colorArray[0];
      }
    }

    /** load_color_array: walks columns x, then rows y, and stores the packed
        pixel (x, y) at `y * width + x`. Afterwards every cell holds its pixel. */
    method LoadColorArray()
      requires Valid()
      modifies colorArray
      ensures Valid()
      ensures width > 0 ==> forall k :: 0 <= k < colorArray.Length ==> colorArray[k] == Cell(image, width, k)
      ensures forall x: nat, y: nat :: x < width && y < height ==>
        GetColor(x, y) == FromHex(Pack(image.pixel(x, y)))
    {
      for x := 0 to width
        invariant width > 0 ==> Filled(colorArray[..], image, width, x, 0)
      {
        for y := 0 to height
          invariant Filled(colorArray[..], image, width, x, y)
        {
          var color := Pack(image.pixel(x, y));
          FillStep(colorArray[..], image, width, height, x, y);
          colorArray[y * width + x] := FromHex(color);
        }
        FillColumn(colorArray[..], image, width, height, x);
      }
      forall x: nat, y: nat | x < width && y < height
        ensures GetColor(x, y) == FromHex(Pack(image.pixel(x, y)))
      {
        Grid.IndexInBounds(x, y, width, height);
        Grid.IndexSplit(x, y, width);
      }
    }

    /** get_color: the table cell of (x, y), or magenta when (x, y) is outside
        the texture. Never reads outside the table. */
    function GetColor(x: nat, y: nat): (c: Color)
      reads this, colorArray
      requires Valid()
      ensures x >= width || y >= height ==> c == FromHex(MISSING) && c == Color(0xFF, 0, 0xFF)
      ensures x < width && y < height ==>
        y * width + x < colorArray.Length && c == colorArray[y * width + x]
    {
      if x >= width || y >= height then
        FromHex(MISSING)
      else
        Grid.IndexInBounds(x, y, width, height);
        colorArray[y * width + x]
    }
  }
}
