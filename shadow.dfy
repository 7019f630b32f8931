/** The shadow colour of src/main.c: the background's argb byte, masked with
    `alpha`, indexes a fixed 256-entry table of darker, opaque colours. */
module ShadowTable {
  import opened CArith

  /** A GColor8 as its `argb` byte. */
  type Color = c: int | 0 <= c < 256

  /** The bit fields of a GColor8, two bits each: alpha in bits 7-6, red 5-4, green 3-2, blue 1-0. */
  datatype Fields = Fields(a: int, r: int, g: int, b: int)
  {
    predicate Valid() { 0 <= a < 4 && 0 <= r < 4 && 0 <= g < 4 && 0 <= b < 4 }
  }

  /** `alpha` (main.c:39), 0b10111111: every bit but bit 6, the low alpha bit. */
  const Alpha: Color := 0xBF

  /** `shadowtable` (main.c:21-36), one row per source line: entry i is row i / 16, column i % 16. */
  const shadowtable: seq<seq<Color>> := [
    [192, 192, 192, 192, 192, 192, 192, 192, 192, 192, 192, 192, 192, 192, 192, 192],
    [192, 192, 192, 192, 192, 192, 192, 192, 192, 192, 192, 192, 192, 192, 192, 192],
    [192, 192, 192, 192, 192, 192, 192, 192, 192, 192, 192, 192, 192, 192, 192, 192],
    [192, 192, 192, 192, 192, 192, 192, 192, 192, 192, 192, 192, 192, 192, 192, 192],
    [192, 192, 192, 193, 192, 192, 192, 193, 192, 192, 192, 193, 196, 196, 196, 197],
    [192, 192, 192, 193, 192, 192, 192, 193, 192, 192, 192, 193, 196, 196, 196, 197],
    [192, 192, 192, 193, 192, 192, 192, 193, 192, 192, 192, 193, 196, 196, 196, 197],
    [208, 208, 208, 209, 208, 208, 208, 209, 208, 208, 208, 209, 212, 212, 212, 213],
    [192, 192, 193, 194, 192, 192, 193, 194, 196, 196, 197, 198, 200, 200, 201, 202],
    [192, 192, 193, 194, 192, 192, 193, 194, 196, 196, 197, 198, 200, 200, 201, 202],
    [208, 208, 209, 210, 208, 208, 209, 210, 212, 212, 213, 214, 216, 216, 217, 218],
    [224, 224, 225, 226, 224, 224, 225, 226, 228, 228, 229, 230, 232, 232, 233, 234],
    [192, 193, 194, 195, 196, 197, 198, 199, 200, 201, 202, 203, 204, 205, 206, 207],
    [208, 209, 210, 211, 212, 213, 214, 215, 216, 217, 218, 219, 220, 221, 222, 223],
    [224, 225, 226, 227, 228, 229, 230, 231, 232, 233, 234, 235, 236, 237, 238, 239],
    [240, 241, 242, 243, 244, 245, 246, 247, 248, 249, 250, 251, 252, 253, 254, 255]
  ]

  /** Opaque black: both alpha bits set, every channel 0. */
  const OpaqueBlack: Color := 0xC0

  /** The `argb` byte that holds the given fields. */
  function Pack(f: Fields): int { 64 * f.a + 16 * f.r + 4 * f.g + f.b }

  /** The fields an `argb` byte holds. */
  function Unpack(c: Color): (f: Fields)
    ensures f.Valid() && Pack(f) == c
  {
    var a, j := c / 64, c % 64;
    var r, k := j / 16, j % 16;
    var g, b := k / 4, k % 4;
    DivModUnique(c, 16, 4 * a + r, 4 * g + b);
    DivModUnique(4 * a + r, 4, a, r);
    DivModUnique(c, 4, 16 * a + 4 * r + g, b);
    DivModUnique(16 * a + 4 * r + g, 4, 4 * a + r, g);
    Fields(c / 64, c / 16 % 4, c / 4 % 4, c % 4)
  }

  /** Packing valid fields into a byte and unpacking it gives the fields back. */
  lemma UnpackPack(f: Fields)
    requires f.Valid()
    ensures 0 <= Pack(f) < 256 && Unpack(Pack(f)) == f
  {
    var c := Pack(f);
    DivModUnique(c, 64, f.a, 16 * f.r + 4 * f.g + f.b);
    DivModUnique(c, 16, 4 * f.a + f.r, 4 * f.g + f.b);
    DivModUnique(4 * f.a + f.r, 4, f.a, f.r);
    DivModUnique(c, 4, 16 * f.a + 4 * f.r + f.g, f.b);
    DivModUnique(16 * f.a + 4 * f.r + f.g, 4, 4 * f.a + f.r, f.g);
  }

  /** One colour channel darkened at a shade level, as the comment beside `alpha`
      (main.c:38) names the levels: 0 full shade, 1 much shade, 2 some shade, 3 no shade. */
  function ShadeChannel(level: int, c: int): (s: int)
    requires 0 <= level < 4 && 0 <= c < 4
    ensures 0 <= s <= c
    ensures level == 0 ==> s == 0
    ensures level == 3 ==> s == c
  {
    if level == 0 then 0
    else if level == 1 then c / 3
    else if level == 2 then (if c == 0 then 0 else c - 1)
    else c
  }

  /** The colour the table holds for a colour with fields f: opaque, with each channel
      shaded at the level that f's alpha names. */
  function Shaded(f: Fields): (s: Fields)
    requires f.Valid()
    ensures s.Valid() && s.a == 3
    ensures s.r <= f.r && s.g <= f.g && s.b <= f.b
  {
    Fields(3, ShadeChannel(f.a, f.r), ShadeChannel(f.a, f.g), ShadeChannel(f.a, f.b))
  }

  // One lemma per row of the table: row 4 * a + r holds the colours with alpha a and red r.
  lemma ShadeRow0(f: Fields)
    requires f.Valid() && f.a == 0 && f.r == 0
    ensures |shadowtable| == 16 && |shadowtable[4 * f.a + f.r]| == 16
    ensures shadowtable[4 * f.a + f.r][4 * f.g + f.b] == Pack(Shaded(f))
  {
  }

  lemma ShadeRow1(f: Fields)
    requires f.Valid() && f.a == 0 && f.r == 1
    ensures |shadowtable| == 16 && |shadowtable[4 * f.a + f.r]| == 16
    ensures shadowtable[4 * f.a + f.r][4 * f.g + f.b] == Pack(Shaded(f))
  {
  }

  lemma ShadeRow2(f: Fields)
    requires f.Valid() && f.a == 0 && f.r == 2
    ensures |shadowtable| == 16 && |shadowtable[4 * f.a + f.r]| == 16
    ensures shadowtable[4 * f.a + f.r][4 * f.g + f.b] == Pack(Shaded(f))
  {
  }

  lemma ShadeRow3(f: Fields)
    requires f.Valid() && f.a == 0 && f.r == 3
    ensures |shadowtable| == 16 && |shadowtable[4 * f.a + f.r]| == 16
    ensures shadowtable[4 * f.a + f.r][4 * f.g + f.b] == Pack(Shaded(f))
  {
  }

  lemma ShadeRow4(f: Fields)
    requires f.Valid() && f.a == 1 && f.r == 0
    ensures |shadowtable| == 16 && |shadowtable[4 * f.a + f.r]| == 16
    ensures shadowtable[4 * f.a + f.r][4 * f.g + f.b] == Pack(Shaded(f))
  {
  }

  lemma ShadeRow5(f: Fields)
    requires f.Valid() && f.a == 1 && f.r == 1
    ensures |shadowtable| == 16 && |shadowtable[4 * f.a + f.r]| == 16
    ensures shadowtable[4 * f.a + f.r][4 * f.g + f.b] == Pack(Shaded(f))
  {
  }

  lemma ShadeRow6(f: Fields)
    requires f.Valid() && f.a == 1 && f.r == 2
    ensures |shadowtable| == 16 && |shadowtable[4 * f.a + f.r]| == 16
    ensures shadowtable[4 * f.a + f.r][4 * f.g + f.b] == Pack(Shaded(f))
  {
  }

  lemma ShadeRow7(f: Fields)
    requires f.Valid() && f.a == 1 && f.r == 3
    ensures |shadowtable| == 16 && |shadowtable[4 * f.a + f.r]| == 16
    ensures shadowtable[4 * f.a + f.r][4 * f.g + f.b] == Pack(Shaded(f))
  {
  }

  lemma ShadeRow8(f: Fields)
    requires f.Valid() && f.a == 2 && f.r == 0
    ensures |shadowtable| == 16 && |shadowtable[4 * f.a + f.r]| == 16
    ensures shadowtable[4 * f.a + f.r][4 * f.g + f.b] == Pack(Shaded(f))
  {
  }

  lemma ShadeRow9(f: Fields)
    requires f.Valid() && f.a == 2 && f.r == 1
    ensures |shadowtable| == 16 && |shadowtable[4 * f.a + f.r]| == 16
    ensures shadowtable[4 * f.a + f.r][4 * f.g + f.b] == Pack(Shaded(f))
  {
  }

  lemma ShadeRow10(f: Fields)
    requires f.Valid() && f.a == 2 && f.r == 2
    ensures |shadowtable| == 16 && |shadowtable[4 * f.a + f.r]| == 16
    ensures shadowtable[4 * f.a + f.r][4 * f.g + f.b] == Pack(Shaded(f))
  {
  }

  lemma ShadeRow11(f: Fields)
    requires f.Valid() && f.a == 2 && f.r == 3
    ensures |shadowtable| == 16 && |shadowtable[4 * f.a + f.r]| == 16
    ensures shadowtable[4 * f.a + f.r][4 * f.g + f.b] == Pack(Shaded(f))
  {
  }

  lemma ShadeRow12(f: Fields)
    requires f.Valid() && f.a == 3 && f.r == 0
    ensures |shadowtable| == 16 && |shadowtable[4 * f.a + f.r]| == 16
    ensures shadowtable[4 * f.a + f.r][4 * f.g + f.b] == Pack(Shaded(f))
  {
  }

  lemma ShadeRow13(f: Fields)
    requires f.Valid() && f.a == 3 && f.r == 1
    ensures |shadowtable| == 16 && |shadowtable[4 * f.a + f.r]| == 16
    ensures shadowtable[4 * f.a + f.r][4 * f.g + f.b] == Pack(Shaded(f))
  {
  }

  lemma ShadeRow14(f: Fields)
    requires f.Valid() && f.a == 3 && f.r == 2
    ensures |shadowtable| == 16 && |shadowtable[4 * f.a + f.r]| == 16
    ensures shadowtable[4 * f.a + f.r][4 * f.g + f.b] == Pack(Shaded(f))
  {
  }

  lemma ShadeRow15(f: Fields)
    requires f.Valid() && f.a == 3 && f.r == 3
    ensures |shadowtable| == 16 && |shadowtable[4 * f.a + f.r]| == 16
    ensures shadowtable[4 * f.a + f.r][4 * f.g + f.b] == Pack(Shaded(f))
  {
  }

  /** The table entry of a colour with fields f. */
  lemma TableEntry(f: Fields)
    requires f.Valid()
    ensures |shadowtable| == 16 && |shadowtable[4 * f.a + f.r]| == 16
    ensures shadowtable[4 * f.a + f.r][4 * f.g + f.b] == Pack(Shaded(f))
  {
    if f.a == 0 {
      if f.r == 0 {
        ShadeRow0(f);
      } else if f.r == 1 {
        ShadeRow1(f);
      } else if f.r == 2 {
        ShadeRow2(f);
      } else {
        ShadeRow3(f);
      }
    } else if f.a == 1 {
      if f.r == 0 {
        ShadeRow4(f);
      } else if f.r == 1 {
        ShadeRow5(f);
      } else if f.r == 2 {
        ShadeRow6(f);
      } else {
        ShadeRow7(f);
      }
    } else if f.a == 2 {
      if f.r == 0 {
        ShadeRow8(f);
      } else if f.r == 1 {
        ShadeRow9(f);
      } else if f.r == 2 {
        ShadeRow10(f);
      } else {
        ShadeRow11(f);
      }
    } else {
      if f.r == 0 {
        ShadeRow12(f);
      } else if f.r == 1 {
        ShadeRow13(f);
      } else if f.r == 2 {
        ShadeRow14(f);
      } else {
        ShadeRow15(f);
      }
    }
  }

  /** Entry i of a 16 by 16 table kept row by row sits at row 4 * alpha + red and
      column 4 * green + blue of i. */
  lemma RowMajor(t: seq<seq<int>>, i: Color)
    requires |t| == 16 && forall k :: 0 <= k < 16 ==> |t[k]| == 16
    ensures var f := Unpack(i); t[i / 16][i % 16] == t[4 * f.a + f.r][4 * f.g + f.b]
  {
    var f := Unpack(i);
    DivModUnique(i, 16, 4 * f.a + f.r, 4 * f.g + f.b);
  }

  /** Every entry of the table is the shaded colour of its index. */
  lemma TableIsShading(i: Color)
    ensures |shadowtable| == 16 && |shadowtable[i / 16]| == 16
    ensures shadowtable[i / 16][i % 16] == Pack(Shaded(Unpack(i)))
  {
    TableEntry(Unpack(i));
    RowMajor(shadowtable, i);
  }

  /** Masking with `alpha` clears the low alpha bit and keeps every other field. */
  lemma AlphaMask(c: Color, f: Fields)
    requires f.Valid() && c == Pack(f)
    ensures BitAnd(Alpha, c) == Pack(f.(a := 2 * (f.a / 2)))
  {
    MaskBF(c);
    DivModUnique(c, 64, f.a, 16 * f.r + 4 * f.g + f.b);
    DivModUnique(c, 128, f.a / 2, 64 * (f.a % 2) + 16 * f.r + 4 * f.g + f.b);
    DivModUnique(f.a / 2, 2, 0, f.a / 2);
  }

  /** `alpha & bg.argb` (main.c:67, 209): the table index of a background. */
  function ShadowIndex(bg: Color): Color
  {
    BitAnd(Alpha, bg)
  }

  /** The index is the background with its low alpha bit cleared and every channel kept. */
  lemma ShadowIndexFields(bg: Color)
    ensures var f := Unpack(bg); Unpack(ShadowIndex(bg)) == f.(a := 2 * (f.a / 2))
  {
    var f := Unpack(bg);
    AlphaMask(bg, f);
    UnpackPack(f.(a := 2 * (f.a / 2)));
  }

  /** `(GColor8) shadowtable[alpha & bg.argb]` (main.c:67, 209): the shadow derived from a background. */
  function ShadowFor(bg: Color): Color
  {
    var i := ShadowIndex(bg);
    TableShape(i);
    shadowtable[i / 16][i % 16]
  }

  /** The shadow is the masked background shaded as its alpha level says. */
  lemma ShadowForFields(bg: Color)
    ensures Unpack(ShadowFor(bg)) == Shaded(Unpack(ShadowIndex(bg)))
  {
    var i := ShadowIndex(bg);
    TableIsShading(i);
    UnpackPack(Shaded(Unpack(i)));
  }

  /** What the mask and the table give together: a background whose top alpha bit is set
      is shaded one step per channel ("some shade"); any other background gets opaque black. */
  lemma ShadowForMeaning(bg: Color)
    ensures var f := Unpack(bg);
      f.a >= 2 ==> Unpack(ShadowFor(bg)) == Fields(3, ShadeChannel(2, f.r), ShadeChannel(2, f.g), ShadeChannel(2, f.b))
    ensures Unpack(bg).a < 2 ==> ShadowFor(bg) == OpaqueBlack
  {
    ShadowIndexFields(bg);
    ShadowForFields(bg);
    MaskedShading(Unpack(bg), ShadowFor(bg));
  }

  /** Shading a colour whose low alpha bit was cleared. */
  lemma MaskedShading(f: Fields, s: Color)
    requires f.Valid() && Unpack(s) == Shaded(f.(a := 2 * (f.a / 2)))
    ensures f.a >= 2 ==> Unpack(s) == Fields(3, ShadeChannel(2, f.r), ShadeChannel(2, f.g), ShadeChannel(2, f.b))
    ensures f.a < 2 ==> s == OpaqueBlack
  {
    if f.a < 2 {
      assert Unpack(s) == Fields(3, 0, 0, 0);
      assert s == Pack(Unpack(s));
    }
  }

  /** A shadow is opaque and never lighter than its background in any channel. */
  lemma ShadowNoLighter(bg: Color)
    ensures var s, f := Unpack(ShadowFor(bg)), Unpack(bg);
      s.a == 3 && s.r <= f.r && s.g <= f.g && s.b <= f.b
  {
    ShadowIndexFields(bg);
    ShadowForFields(bg);
  }

  /** The table is 16 rows of 16 entries, so every colour has its row and column. */
  lemma TableShape(i: Color)
    ensures |shadowtable| == 16 && 0 <= i / 16 < 16 && |shadowtable[i / 16]| == 16
  {
  }

  /** Every entry of the table is an opaque colour: both alpha bits set, so 192..255. */
  lemma TableOpaque(i: Color)
    ensures |shadowtable| == 16 && |shadowtable[i / 16]| == 16
    ensures 192 <= shadowtable[i / 16][i % 16] <= 255
  {
    TableIsShading(i);
  }

  /** The mask keeps the index within the first 192 entries, and the shadow it selects is opaque. */
  lemma ShadowIndexInBounds(bg: Color)
    ensures ShadowIndex(bg) <= 191
    ensures 192 <= ShadowFor(bg)
  {
    var i := ShadowIndex(bg);
    ShadowIndexFields(bg);
    ShadowForFields(bg);
    assert Pack(Unpack(i)) == i;
    assert Pack(Unpack(ShadowFor(bg))) == ShadowFor(bg);
  }
}
