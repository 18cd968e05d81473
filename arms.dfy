/**
 * A Rust `match` on a byte whose arms are integer literals followed by a
 * wildcard arm. Rust tries the arms top to bottom and takes the FIRST one
 * whose literal equals the scrutinee; a later arm with a repeated literal
 * can never be taken.
 */
module Arms {
  import opened Pixels

  /** One `key => value` arm. */
  datatype Arm = Arm(key: u8, value: u8)

  /** The position of the arm Rust selects for `x`, or None when only the wildcard matches. */
  function FirstArm(arms: seq<Arm>, x: u8): Option<nat>
  {
    if arms == [] then None
    else if arms[0].key == x then Some(0)
    else match FirstArm(arms[1..], x)
      case None => None
      case Some(i) => Some(i + 1)
  }

  /** `match x { k0 => v0, k1 => v1, ..., _ => fallback }`. */
  function Match(arms: seq<Arm>, fallback: u8, x: u8): u8
  {
    match FirstArm(arms, x)
    case Some(i) => if i < |arms| then arms[i].value else fallback
    case None => fallback
  }

  /**
   * FirstArm finds an arm exactly when some key equals `x`, and then the
   * earliest such arm.
   */
  lemma {:induction false} FirstArmIsEarliest(arms: seq<Arm>, x: u8)
    ensures FirstArm(arms, x).Some? ==> FirstArm(arms, x).value < |arms| && arms[FirstArm(arms, x).value].key == x
    ensures FirstArm(arms, x).Some? ==> forall j | 0 <= j < FirstArm(arms, x).value :: arms[j].key != x
    ensures FirstArm(arms, x).None? <==> forall j | 0 <= j < |arms| :: arms[j].key != x
  {
    if arms != [] && arms[0].key != x {
      FirstArmIsEarliest(arms[1..], x);
      assert forall j | 1 <= j < |arms| :: arms[j] == arms[1..][j - 1];
    }
  }

  /** The arm selected is the first whose key equals `x`, whatever follows it. */
  lemma MatchSelects(arms: seq<Arm>, fallback: u8, x: u8, i: nat)
    requires i < |arms| && arms[i].key == x
    requires forall j | 0 <= j < i :: arms[j].key != x
    ensures FirstArm(arms, x) == Some(i)
    ensures Match(arms, fallback, x) == arms[i].value
  {
    FirstArmIsEarliest(arms, x);
  }

  /** When no literal equals `x` the wildcard's value is returned. */
  lemma MatchFallsThrough(arms: seq<Arm>, fallback: u8, x: u8)
    requires forall j | 0 <= j < |arms| :: arms[j].key != x
    ensures FirstArm(arms, x) == None
    ensures Match(arms, fallback, x) == fallback
  {
    FirstArmIsEarliest(arms, x);
  }

  /**
   * Arms keyed `base`, `base + 1`, ... in order: a key in that range selects
   * the arm at its offset from `base`, any other byte the wildcard.
   */
  lemma MatchConsecutive(arms: seq<Arm>, base: nat, fallback: u8, x: u8)
    requires forall j | 0 <= j < |arms| :: arms[j].key as int == base + j
    ensures Match(arms, fallback, x) ==
      if base <= x as int < base + |arms| then arms[x as int - base].value else fallback
  {
    if base <= x as int < base + |arms| {
      MatchSelects(arms, fallback, x, x as int - base);
    } else {
      MatchFallsThrough(arms, fallback, x);
    }
  }

  /** An arm whose key already appears in an earlier arm is never selected. */
  lemma ShadowedArmUnreachable(arms: seq<Arm>, i: nat, j: nat, x: u8)
    requires i < j < |arms| && arms[i].key == arms[j].key
    ensures FirstArm(arms, x) != Some(j)
  {
    FirstArmIsEarliest(arms, x);
  }
}
