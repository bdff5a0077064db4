/**
  The one piece of src/rendering/board_renderer.rs that is logic rather than drawing: the
  joint sprite names. `get_bit_mask` spells the low four bits of a mask, most significant
  first, and the renderer loads one sprite per mask value 0..15 and indexes that list with
  `Joint::get_joint_mask`.
*/
module Renderer {
  import opened Game

  /** The bits tested by `get_bit_mask`, in the order they are written. */
  const Powers: seq<nat> := [8, 4, 2, 1]

  /** `n & p > 0` for a power of two `p`: the bit of weight `p` is set. */
  predicate HasBit(n: nat, p: nat)
    requires p > 0
  {
    (n / p) % 2 == 1
  }

  function Digit(n: nat, p: nat): char
    requires p > 0
  {
    if HasBit(n, p) then '1' else '0'
  }

  /** `.map(...).fold(String::new(), |acc, x| acc + &x)` over a list of bits. */
  function Digits(n: nat, ps: seq<nat>): (s: string)
    requires forall i :: 0 <= i < |ps| ==> ps[i] > 0
    ensures |s| == |ps|
    ensures forall i :: 0 <= i < |ps| ==> s[i] == Digit(n, ps[i])
  {
    if ps == [] then "" else Digits(n, ps[..|ps| - 1]) + [Digit(n, ps[|ps| - 1])]
  }

  /** `get_bit_mask` on a `usize`. */
  function GetBitMask(n: nat): (s: string)
    ensures |s| == 4
    ensures forall i :: 0 <= i < 4 ==> s[i] in {'0', '1'} && (s[i] == '1' <==> HasBit(n, Powers[i]))
  {
    Digits(n, Powers)
  }

  function DigitValue(c: char): nat
  {
    if c == '1' then 1 else 0
  }

  /** The number a string of '0' and '1' denotes, most significant digit first. */
  function BinaryValue(s: string): nat
  {
    if s == [] then 0 else 2 * BinaryValue(s[..|s| - 1]) + DigitValue(s[|s| - 1])
  }

  lemma BinaryValueOfFour(s: string)
    requires |s| == 4
    ensures BinaryValue(s) == 8 * DigitValue(s[0]) + 4 * DigitValue(s[1]) + 2 * DigitValue(s[2]) + DigitValue(s[3])
  {
    assert BinaryValue(s[..1]) == DigitValue(s[0]) by {
      assert s[..1][..0] == [];
    }
    assert BinaryValue(s[..2]) == 2 * DigitValue(s[0]) + DigitValue(s[1]) by {
      assert s[..2][..1] == s[..1];
    }
    assert BinaryValue(s[..3]) == 4 * DigitValue(s[0]) + 2 * DigitValue(s[1]) + DigitValue(s[2]) by {
      assert s[..3][..2] == s[..2];
    }
    assert s[..4] == s;
  }

  /** For a mask below 16 the name is its four-digit big-endian binary numeral. */
  lemma BitMaskIsBinary(n: nat)
    requires n < 16
    ensures BinaryValue(GetBitMask(n)) == n
  {
    var s := GetBitMask(n);
    BinaryValueOfFour(s);
    assert n == 8 * DigitValue(s[0]) + 4 * DigitValue(s[1]) + 2 * DigitValue(s[2]) + DigitValue(s[3]);
  }

  /** Different masks get different sprite names. */
  lemma BitMaskInjective(m: nat, n: nat)
    requires m < 16 && n < 16
    requires GetBitMask(m) == GetBitMask(n)
    ensures m == n
  {
    BitMaskIsBinary(m);
    BitMaskIsBinary(n);
  }

  /** `format!("crossroads/{}.png", ...)`. */
  function SpritePath(mask: string): string
  {
    "crossroads/" + mask + ".png"
  }

  lemma SpritePathInjective(a: string, b: string)
    requires |a| == |b| && SpritePath(a) == SpritePath(b)
    ensures a == b
  {
    assert SpritePath(a)[11..11 + |a|] == a;
    assert SpritePath(b)[11..11 + |b|] == b;
  }

  /** `generate_joint_spritesheets`: the sixteen sprite paths, one per mask value. */
  function JointSpritePaths(): (paths: seq<string>)
    ensures |paths| == 16
  {
    seq(16, n requires 0 <= n < 16 => SpritePath(GetBitMask(n)))
  }

  /** The sixteen sprite files are distinct. */
  lemma JointSpritePathsDistinct(m: nat, n: nat)
    requires m < 16 && n < 16 && m != n
    ensures JointSpritePaths()[m] != JointSpritePaths()[n]
  {
    if JointSpritePaths()[m] == JointSpritePaths()[n] {
      SpritePathInjective(GetBitMask(m), GetBitMask(n));
      BitMaskInjective(m, n);
    }
  }

  function FlagChar(flag: bool): char
  {
    if flag then '1' else '0'
  }

  /** `spritebatch_joints[joint.get_joint_mask()]` is in range and picks the sprite whose name
      spells the joint's north, east, south and west flags. */
  lemma JointSprite(j: Joint)
    ensures GetJointMask(j) < |JointSpritePaths()|
    ensures GetBitMask(GetJointMask(j)) ==
              [FlagChar(j.northWallClicked), FlagChar(j.eastWallClicked),
               FlagChar(j.southWallClicked), FlagChar(j.westWallClicked)]
  {
  }

  /** The mask test of src/game/mod.rs: a joint whose flags are the four bits of n has mask n. */
  lemma JointMaskFromBits(n: nat)
    requires n < 16
    ensures GetJointMask(Joint((0, 0), HasBit(n, 8), HasBit(n, 4), HasBit(n, 2), HasBit(n, 1))) == n
  {
    BitMaskIsBinary(n);
  }
}
