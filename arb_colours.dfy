/**
 * The colour tables of the static-partition renderer. They are written
 * for shades 0 to 15, but every arm after the seventh repeats the key 6,
 * so Rust takes the first `6` arm and the repeated ones are dead: shade 6
 * gets the first `6` arm's value and every shade from 7 up falls through
 * to the wildcard's 0.
 */
module ArbColours {
  import opened Pixels
  import opened Arms
  import Colours

  const RArms: seq<Arm> := [
    Arm(0, 66), Arm(1, 25), Arm(2, 9), Arm(3, 4), Arm(4, 0), Arm(5, 12), Arm(6, 24), Arm(6, 57),
    Arm(6, 134), Arm(6, 211), Arm(6, 241), Arm(6, 248), Arm(6, 255), Arm(6, 204), Arm(6, 153), Arm(6, 106)]

  const GArms: seq<Arm> := [
    Arm(0, 30), Arm(1, 7), Arm(2, 1), Arm(3, 4), Arm(4, 7), Arm(5, 44), Arm(6, 82), Arm(6, 125),
    Arm(6, 181), Arm(6, 236), Arm(6, 233), Arm(6, 201), Arm(6, 170), Arm(6, 128), Arm(6, 87), Arm(6, 52)]

  const BArms: seq<Arm> := [
    Arm(0, 15), Arm(1, 26), Arm(2, 47), Arm(3, 73), Arm(4, 100), Arm(5, 138), Arm(6, 177), Arm(6, 209),
    Arm(6, 229), Arm(6, 248), Arm(6, 191), Arm(6, 95), Arm(6, 0), Arm(6, 0), Arm(6, 0), Arm(6, 3)]

  /** The colours the tables actually produce, indexed by shade 0 to 6. */
  const Reachable: seq<Rgb> := [
    Rgb(66, 30, 15), Rgb(25, 7, 26), Rgb(9, 1, 47), Rgb(4, 4, 73),
    Rgb(0, 7, 100), Rgb(12, 44, 138), Rgb(24, 82, 177)]

  /** `getR` as written: the red component of the listed colour for shades 0 to 6, else 0. */
  function GetR(x: u8): (r: u8)
    ensures r == if x <= 6 then Reachable[x].r else 0
  {
    KeysStopAtSix();
    ReachableHoldsArmValues();
    MatchStopsAtSix(RArms, x);
    Match(RArms, 0, x)
  }

  /** `getG` as written: the green component of the listed colour for shades 0 to 6, else 0. */
  function GetG(x: u8): (g: u8)
    ensures g == if x <= 6 then Reachable[x].g else 0
  {
    KeysStopAtSix();
    ReachableHoldsArmValues();
    MatchStopsAtSix(GArms, x);
    Match(GArms, 0, x)
  }

  /** `getB` as written: the blue component of the listed colour for shades 0 to 6, else 0. */
  function GetB(x: u8): (b: u8)
    ensures b == if x <= 6 then Reachable[x].b else 0
  {
    KeysStopAtSix();
    ReachableHoldsArmValues();
    MatchStopsAtSix(BArms, x);
    Match(BArms, 0, x)
  }

  /**
   * `image::Rgb([getR(shade), getG(shade), getB(shade)])` with the tables as
   * written: shades 0 to 6 get the listed colours, the first `6` arm winning
   * for shade 6, and every shade from 7 up is black.
   */
  function Colour(shade: u8): (c: Rgb)
    ensures c == if shade <= 6 then Reachable[shade] else Black
  {
    Rgb(GetR(shade), GetG(shade), GetB(shade))
  }

  /**
   * In a table whose arm k has key min(k, 6), shades 0 to 6 select the arm
   * at their own position and every larger shade the wildcard.
   */
  lemma MatchStopsAtSix(arms: seq<Arm>, x: u8)
    requires |arms| == 16
    requires forall j | 0 <= j < 16 :: arms[j].key as int == if j < 6 then j else 6
    ensures Match(arms, 0, x) == if x <= 6 then arms[x].value else 0
  {
    if x <= 6 {
      MatchSelects(arms, 0, x, x as nat);
    } else {
      MatchFallsThrough(arms, 0, x);
    }
  }

  /** Arm k has key min(k, 6) in all three tables. */
  lemma KeysStopAtSix()
    ensures |RArms| == |GArms| == |BArms| == 16
    ensures forall j | 0 <= j < 16 ::
      RArms[j].key as int == GArms[j].key as int == BArms[j].key as int == if j < 6 then j else 6
  {
  }

  lemma ReachableHoldsArmValues()
    ensures |Reachable| == 7
    ensures forall j | 0 <= j < 7 :: Reachable[j] == Rgb(RArms[j].value, GArms[j].value, BArms[j].value)
  {
  }

  /** The nine arms after the first `6` arm are never selected, for any shade. */
  lemma RepeatedSixArmsUnreachable(x: u8, j: nat)
    requires 7 <= j < 16
    ensures FirstArm(RArms, x) != Some(j) && FirstArm(GArms, x) != Some(j) && FirstArm(BArms, x) != Some(j)
  {
    KeysStopAtSix();
    ShadowedArmUnreachable(RArms, 6, j, x);
    ShadowedArmUnreachable(GArms, 6, j, x);
    ShadowedArmUnreachable(BArms, 6, j, x);
  }

  /** The tables with the keys 0 to 15 that the values were listed for. */
  const FixedRArms: seq<Arm> := [
    Arm(0, 66), Arm(1, 25), Arm(2, 9), Arm(3, 4), Arm(4, 0), Arm(5, 12), Arm(6, 24), Arm(7, 57),
    Arm(8, 134), Arm(9, 211), Arm(10, 241), Arm(11, 248), Arm(12, 255), Arm(13, 204), Arm(14, 153), Arm(15, 106)]

  const FixedGArms: seq<Arm> := [
    Arm(0, 30), Arm(1, 7), Arm(2, 1), Arm(3, 4), Arm(4, 7), Arm(5, 44), Arm(6, 82), Arm(7, 125),
    Arm(8, 181), Arm(9, 236), Arm(10, 233), Arm(11, 201), Arm(12, 170), Arm(13, 128), Arm(14, 87), Arm(15, 52)]

  const FixedBArms: seq<Arm> := [
    Arm(0, 15), Arm(1, 26), Arm(2, 47), Arm(3, 73), Arm(4, 100), Arm(5, 138), Arm(6, 177), Arm(7, 209),
    Arm(8, 229), Arm(9, 248), Arm(10, 191), Arm(11, 95), Arm(12, 0), Arm(13, 0), Arm(14, 0), Arm(15, 3)]

  /**
   * The colour of `shade` under the corrected tables: palette entry `shade`
   * for shades 0 to 15, black for every larger shade.
   */
  function FixedColour(shade: u8): (c: Rgb)
    ensures c == if shade <= 15 then Colours.Palette[shade] else Black
  {
    FixedArmsShiftMainArms();
    Colours.PaletteHoldsArmValues();
    MatchConsecutive(FixedRArms, 0, 0, shade);
    MatchConsecutive(FixedGArms, 0, 0, shade);
    MatchConsecutive(FixedBArms, 0, 0, shade);
    Rgb(Match(FixedRArms, 0, shade), Match(FixedGArms, 0, shade), Match(FixedBArms, 0, shade))
  }

  lemma FixedArmsShiftMainArms()
    ensures |FixedRArms| == |FixedGArms| == |FixedBArms| == 16
    ensures forall j | 0 <= j < 16 ::
      FixedRArms[j].key as int == FixedGArms[j].key as int == FixedBArms[j].key as int == j
    ensures forall j | 0 <= j < 16 ::
      FixedRArms[j].value == Colours.RArms[j].value &&
      FixedGArms[j].value == Colours.GArms[j].value &&
      FixedBArms[j].value == Colours.BArms[j].value
  {
  }

  /**
   * With the keys corrected, the table is the dynamic renderer's table
   * shifted by one shade: shade s here is shade s + 1 there, for every byte
   * that has a successor.
   */
  lemma FixedColourIsShiftedPalette(x: u8)
    requires x < 255
    ensures FixedColour(x) == Colours.Colour(x + 1)
  {
  }

  /**
   * What the repeated keys cost: each shade 7 to 15 renders black, where
   * the tables with the keys they were evidently written for give that
   * shade its own colour.
   */
  lemma RepeatedKeysBlackenShades(x: u8)
    requires 7 <= x <= 15
    ensures Colour(x) == Black
    ensures Colour(x) != FixedColour(x)
  {
    Colours.PaletteHasNoBlack();
  }
}
