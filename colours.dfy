/**
 * The colour tables of the dynamic renderer: `getR`, `getG` and `getB`
 * map a shade byte to one colour component. Keys 1 to 16 are listed and
 * every other byte (0 included) falls through to 0.
 */
module Colours {
  import opened Pixels
  import opened Arms

  const RArms: seq<Arm> := [
    Arm(1, 66), Arm(2, 25), Arm(3, 9), Arm(4, 4), Arm(5, 0), Arm(6, 12), Arm(7, 24), Arm(8, 57),
    Arm(9, 134), Arm(10, 211), Arm(11, 241), Arm(12, 248), Arm(13, 255), Arm(14, 204), Arm(15, 153), Arm(16, 106)]

  const GArms: seq<Arm> := [
    Arm(1, 30), Arm(2, 7), Arm(3, 1), Arm(4, 4), Arm(5, 7), Arm(6, 44), Arm(7, 82), Arm(8, 125),
    Arm(9, 181), Arm(10, 236), Arm(11, 233), Arm(12, 201), Arm(13, 170), Arm(14, 128), Arm(15, 87), Arm(16, 52)]

  const BArms: seq<Arm> := [
    Arm(1, 15), Arm(2, 26), Arm(3, 47), Arm(4, 73), Arm(5, 100), Arm(6, 138), Arm(7, 177), Arm(8, 209),
    Arm(9, 229), Arm(10, 248), Arm(11, 191), Arm(12, 95), Arm(13, 0), Arm(14, 0), Arm(15, 0), Arm(16, 3)]

  /** The 16-entry palette, as a plain indexed table: entry k is the colour of shade k + 1. */
  const Palette: seq<Rgb> := [
    Rgb(66, 30, 15), Rgb(25, 7, 26), Rgb(9, 1, 47), Rgb(4, 4, 73),
    Rgb(0, 7, 100), Rgb(12, 44, 138), Rgb(24, 82, 177), Rgb(57, 125, 209),
    Rgb(134, 181, 229), Rgb(211, 236, 248), Rgb(241, 233, 191), Rgb(248, 201, 95),
    Rgb(255, 170, 0), Rgb(204, 128, 0), Rgb(153, 87, 0), Rgb(106, 52, 3)]

  /** `getR`: the red component of palette entry x - 1 for shades 1 to 16, else 0. */
  function GetR(x: u8): (r: u8)
    ensures r == if 1 <= x <= 16 then Palette[x - 1].r else 0
  {
    KeysAreOneToSixteen();
    PaletteHoldsArmValues();
    MatchConsecutive(RArms, 1, 0, x);
    Match(RArms, 0, x)
  }

  /** `getG`: the green component of palette entry x - 1 for shades 1 to 16, else 0. */
  function GetG(x: u8): (g: u8)
    ensures g == if 1 <= x <= 16 then Palette[x - 1].g else 0
  {
    KeysAreOneToSixteen();
    PaletteHoldsArmValues();
    MatchConsecutive(GArms, 1, 0, x);
    Match(GArms, 0, x)
  }

  /** `getB`: the blue component of palette entry x - 1 for shades 1 to 16, else 0. */
  function GetB(x: u8): (b: u8)
    ensures b == if 1 <= x <= 16 then Palette[x - 1].b else 0
  {
    KeysAreOneToSixteen();
    PaletteHoldsArmValues();
    MatchConsecutive(BArms, 1, 0, x);
    Match(BArms, 0, x)
  }

  /**
   * `image::Rgb([getR(shade), getG(shade), getB(shade)])`: palette entry
   * shade - 1 for shades 1 to 16, and black for shade 0 and every shade
   * above 16.
   */
  function Colour(shade: u8): (c: Rgb)
    ensures c == if 1 <= shade <= 16 then Palette[shade - 1] else Black
  {
    Rgb(GetR(shade), GetG(shade), GetB(shade))
  }

  /** The arm with key k sits at position k - 1 in each table, so no key repeats. */
  lemma KeysAreOneToSixteen()
    ensures |RArms| == |GArms| == |BArms| == 16
    ensures forall j | 0 <= j < 16 :: RArms[j].key as int == GArms[j].key as int == BArms[j].key as int == j + 1
  {
  }

  /** Row k of the palette holds the values of the arms at position k. */
  lemma PaletteHoldsArmValues()
    ensures |Palette| == 16
    ensures forall j | 0 <= j < 16 :: Palette[j] == Rgb(RArms[j].value, GArms[j].value, BArms[j].value)
  {
  }

  /** Every palette entry is a colour other than black. */
  lemma PaletteHasNoBlack()
    ensures |Palette| == 16 && forall j | 0 <= j < 16 :: Palette[j] != Black
  {
  }

  /**
   * A shade below 16 (all the worker ever produces) never selects the key-16
   * arm, the last of each table.
   */
  lemma SixteenArmUnused(x: u8)
    requires x < 16
    ensures FirstArm(RArms, x) != Some(15) && FirstArm(GArms, x) != Some(15) && FirstArm(BArms, x) != Some(15)
  {
    KeysAreOneToSixteen();
    FirstArmIsEarliest(RArms, x);
    FirstArmIsEarliest(GArms, x);
    FirstArmIsEarliest(BArms, x);
  }
}
