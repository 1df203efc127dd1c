/**
 Strength scoring: `calculateEntropy` (length times the base-2 logarithm of the pool size, with the
 logarithm supplied by the caller) and the tier ladder `getPasswordStrength`.
 */
module Strength {
  import opened Policy

  /** The record `getPasswordStrength` returns. */
  datatype Strength = Strength(level: string, color: string, percentage: nat)

  /** The entropy thresholds, in bits, at which the tier goes up. */
  const THRESHOLDS: seq<real> := [28.0, 36.0, 60.0, 128.0]

  /** The five tiers, weakest first. */
  const TIERS: seq<Strength> := [
    Strength("Muito Fraca", "#ff4444", 20),
    Strength("Fraca", "#ff8844", 40),
    Strength("Razoável", "#ffcc44", 60),
    Strength("Forte", "#00FF88", 80),
    Strength("Muito Forte", "#00FF88", 100)
  ]

  /** The number of thresholds in `ts` that `entropy` has reached. */
  function ThresholdsReached(ts: seq<real>, entropy: real): (n: nat)
    ensures n <= |ts|
  {
    if |ts| == 0 then 0
    else (if ts[0] <= entropy then 1 else 0) + ThresholdsReached(ts[1..], entropy)
  }

  /** `getPasswordStrength`: the tier whose index is the number of thresholds the entropy has reached. */
  function GetPasswordStrength(entropy: real): (s: Strength)
    ensures s == TIERS[ThresholdsReached(THRESHOLDS, entropy)]
    ensures s.percentage == 20 * (1 + ThresholdsReached(THRESHOLDS, entropy))
  {
    ThresholdsLadder(entropy);
    if entropy < 28.0 then Strength("Muito Fraca", "#ff4444", 20)
    else if entropy < 36.0 then Strength("Fraca", "#ff8844", 40)
    else if entropy < 60.0 then Strength("Razoável", "#ffcc44", 60)
    else if entropy < 128.0 then Strength("Forte", "#00FF88", 80)
    else Strength("Muito Forte", "#00FF88", 100)
  }

  lemma ThresholdsLadder(entropy: real)
    ensures ThresholdsReached(THRESHOLDS, entropy) ==
      if entropy < 28.0 then 0 else if entropy < 36.0 then 1 else if entropy < 60.0 then 2
      else if entropy < 128.0 then 3 else 4
  {
    var t := THRESHOLDS;
    assert t[1..] == [36.0, 60.0, 128.0];
    assert t[1..][1..] == [60.0, 128.0];
    assert t[1..][1..][1..] == [128.0];
    assert t[1..][1..][1..][1..] == [];
    assert ThresholdsReached([128.0], entropy) == if 128.0 <= entropy then 1 else 0;
    assert ThresholdsReached([60.0, 128.0], entropy) ==
      (if 60.0 <= entropy then 1 else 0) + ThresholdsReached([128.0], entropy);
  }

  /** Reaching more entropy never reaches fewer thresholds. */
  lemma {:induction false} ThresholdsReachedMonotone(ts: seq<real>, e1: real, e2: real)
    requires e1 <= e2
    ensures ThresholdsReached(ts, e1) <= ThresholdsReached(ts, e2)
  {
    if |ts| > 0 {
      ThresholdsReachedMonotone(ts[1..], e1, e2);
    }
  }

  /** The tiers are ordered: more entropy never gives a lower percentage. */
  lemma StrengthMonotone(e1: real, e2: real)
    requires e1 <= e2
    ensures GetPasswordStrength(e1).percentage <= GetPasswordStrength(e2).percentage
  {
    ThresholdsReachedMonotone(THRESHOLDS, e1, e2);
  }

  /** The tiers do not overlap: two entropies get the same tier exactly when they reach the same thresholds. */
  lemma StrengthTiersDisjoint(e1: real, e2: real)
    ensures GetPasswordStrength(e1) == GetPasswordStrength(e2) <==>
      ThresholdsReached(THRESHOLDS, e1) == ThresholdsReached(THRESHOLDS, e2)
  {
  }

  /**
   `calculateEntropy`: the password's length times `log2` of the pool size. `Math.log2` is not part
   of this model; the caller supplies it.
   */
  function CalculateEntropy(password: string, config: Config, log2: nat -> real): real {
    |password| as real * log2(|CharPool(config)|)
  }

  /** With a nonnegative logarithm of the pool size, a longer password never has less entropy. */
  lemma EntropyMonotoneInLength(p1: string, p2: string, config: Config, log2: nat -> real)
    requires |p1| <= |p2|
    requires log2(|CharPool(config)|) >= 0.0
    ensures CalculateEntropy(p1, config, log2) <= CalculateEntropy(p2, config, log2)
  {
    var x := log2(|CharPool(config)|);
    assert (|p2| - |p1|) as real * x >= 0.0;
  }

  /** Hence a longer password never gets a lower strength tier. */
  lemma StrengthMonotoneInLength(p1: string, p2: string, config: Config, log2: nat -> real)
    requires |p1| <= |p2|
    requires log2(|CharPool(config)|) >= 0.0
    ensures GetPasswordStrength(CalculateEntropy(p1, config, log2)).percentage <=
            GetPasswordStrength(CalculateEntropy(p2, config, log2)).percentage
  {
    EntropyMonotoneInLength(p1, p2, config, log2);
    StrengthMonotone(CalculateEntropy(p1, config, log2), CalculateEntropy(p2, config, log2));
  }
}
