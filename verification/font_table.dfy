/**
 * `font_getChar` as defined (identically) in src/utils/fonts.c and src/fonts.c:
 * the glyph of a character is five consecutive row bytes of the 5x3 table
 * `font_5x3_chars`, whose contents are not part of this model.
 */
module FontTable {
  import opened Machine

  const FONT_WIDTH: nat := 3
  const FONT_HEIGHT: nat := 5

  /** The last glyph `font_getChar` can select starts at 8 * 5, so the table
      must hold at least that many bytes plus one glyph. */
  const MIN_TABLE_LENGTH: nat := 8 * 5 + 5

  /** The `font_size_E` value FONT_SIZE_5x3; other values are possible in C. */
  const FONT_SIZE_5x3: int := 0

  /** What `font_getChar` writes through its three out-pointers. */
  datatype Glyph = Glyph(bitmap: seq<Byte>, width: Byte, height: Byte)

  /** The table offset chosen for a character: only '1'..'8' get their own
      glyph; every other character, '0' and '9' included, uses offset 0. */
  function GlyphStart(c: char): (i: nat)
    ensures '1' <= c <= '8' ==> i == (c as int - '0' as int) * FONT_HEIGHT
    ensures !('1' <= c <= '8') ==> i == 0
    ensures i + FONT_HEIGHT <= MIN_TABLE_LENGTH
    ensures i % FONT_HEIGHT == 0
  {
    if c > '0' && c < '9' then (c as int - '0' as int) * FONT_HEIGHT else 0
  }

  /** `font_getChar`: every size falls back to the 5x3 font. */
  function GetChar(table: seq<Byte>, c: char, size: int): (g: Glyph)
    requires |table| >= MIN_TABLE_LENGTH
    ensures g.width == FONT_WIDTH && g.height == FONT_HEIGHT
    ensures |g.bitmap| == FONT_HEIGHT
    ensures forall r :: 0 <= r < FONT_HEIGHT ==> g.bitmap[r] == table[GlyphStart(c) + r]
  {
    var start := GlyphStart(c);
    Glyph(table[start..start + FONT_HEIGHT], FONT_WIDTH as Byte, FONT_HEIGHT as Byte)
  }

  /** The size argument never matters. */
  lemma SizeIgnored(table: seq<Byte>, c: char, s1: int, s2: int)
    requires |table| >= MIN_TABLE_LENGTH
    ensures GetChar(table, c, s1) == GetChar(table, c, s2)
  {
  }

  /** '9' is outside the selected range and so is drawn with the '0' glyph. */
  lemma NineDrawsAsZero(table: seq<Byte>, size: int)
    requires |table| >= MIN_TABLE_LENGTH
    ensures GetChar(table, '9', size) == GetChar(table, '0', size)
    ensures GetChar(table, '9', size).bitmap == table[0..FONT_HEIGHT]
  {
  }

  /** Distinct characters in '1'..'8' read disjoint rows of the table. */
  lemma {:induction false} DistinctDigitsDistinctRows(c1: char, c2: char, r1: nat, r2: nat)
    requires '1' <= c1 <= '8' && '1' <= c2 <= '8' && c1 != c2
    requires r1 < FONT_HEIGHT && r2 < FONT_HEIGHT
    ensures GlyphStart(c1) + r1 != GlyphStart(c2) + r2
  {
    var d1 := c1 as int - '0' as int;
    var d2 := c2 as int - '0' as int;
    assert d1 != d2;
    if d1 < d2 {
      assert GlyphStart(c1) + r1 < (d1 + 1) * FONT_HEIGHT <= GlyphStart(c2);
    } else {
      assert GlyphStart(c2) + r2 < (d2 + 1) * FONT_HEIGHT <= GlyphStart(c1);
    }
  }
}
