/** The hardness resolver: an Enrol invocation that did not ask for a KDF
    hardness gets one chosen from the host's memory, against twice libsodium's
    sensitive and moderate memory limits. */
module Hardness {
  import opened Types

  /** The tier for `memory` bytes of physical memory. */
  function ResolveHardness(memory: nat, sensitive: nat, moderate: nat): (h: KdfHardness)
    ensures h == Low || h == Medium || h == High
    ensures h == High <==> memory > 2 * sensitive
    ensures h == Medium <==> 2 * moderate < memory <= 2 * sensitive
  {
    if memory > sensitive * 2 then High
    else if memory > moderate * 2 then Medium
    else Low
  }

  /** The order of the tiers (0 for the two values that are not tiers). */
  function Rank(h: KdfHardness): nat
  {
    match h
    case Low => 1
    case Medium => 2
    case High => 3
    case _ => 0
  }

  /** More memory never gives a lower tier; this holds whatever the two limits are. */
  lemma ResolveIsMonotone(m1: nat, m2: nat, sensitive: nat, moderate: nat)
    requires m1 <= m2
    ensures Rank(ResolveHardness(m1, sensitive, moderate)) <= Rank(ResolveHardness(m2, sensitive, moderate))
  {
  }

  /** The order of the two limits matters for one thing: Medium is chosen for
      some memory size exactly when the moderate limit is below the sensitive one. */
  lemma MediumReachableIff(sensitive: nat, moderate: nat)
    ensures (exists m: nat :: ResolveHardness(m, sensitive, moderate) == Medium) <==> moderate < sensitive
  {
    if moderate < sensitive {
      assert ResolveHardness(2 * sensitive, sensitive, moderate) == Medium;
    }
  }

  /** The record after hardness resolution: only Enrol with an unspecified
      hardness is resolved; every other record is left as it is. */
  function WithHardness(v: Invocation, memory: nat, limits: Limits): (w: Invocation)
    ensures w.(kdfHardness := v.kdfHardness) == v
    ensures v.subcommand != Enrol || v.kdfHardness != Unspecified ==> w == v
    ensures v.subcommand == Enrol ==> w.kdfHardness != Unspecified
    ensures v.subcommand == Enrol && v.kdfHardness == Unspecified ==>
      w.kdfHardness == ResolveHardness(memory, limits.memlimitSensitive, limits.memlimitModerate)
  {
    if v.subcommand == Enrol && v.kdfHardness == Unspecified then
      v.(kdfHardness := ResolveHardness(memory, limits.memlimitSensitive, limits.memlimitModerate))
    else v
  }

  /** After resolution, an Enrol record whose hardness was not Invalid has one of the three tiers. */
  lemma EnrolHasTier(v: Invocation, memory: nat, limits: Limits)
    requires v.subcommand == Enrol && v.kdfHardness != Invalid
    ensures Rank(WithHardness(v, memory, limits).kdfHardness) > 0
  {
  }
}
