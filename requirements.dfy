/**
 The acceptance predicate `meetsRequirements` and its parts: class presence and per-class counts,
 keyboard-pattern detection and the consecutive-repeat detector.
 */
module Requirements {
  import opened Text
  import opened Policy

  /** `/[class]/.test(password)`: some character of the password is in class `k`. */
  predicate Present(password: string, k: CharClass) {
    exists i :: 0 <= i < |password| && InClass(password[i], k)
  }

  /** `(password.match(/[class]/g) || []).length`: the number of characters of class `k`. */
  function CountClass(password: string, k: CharClass): nat {
    if |password| == 0 then 0
    else (if InClass(password[0], k) then 1 else 0) + CountClass(password[1..], k)
  }

  /** The presence test and the count agree: a class is present exactly when it is counted at least once. */
  lemma {:induction false} PresentIffCounted(password: string, k: CharClass)
    ensures Present(password, k) <==> CountClass(password, k) > 0
  {
    if |password| > 0 {
      PresentIffCounted(password[1..], k);
      if Present(password[1..], k) {
        var i :| 0 <= i < |password[1..]| && InClass(password[1..][i], k);
        assert InClass(password[i + 1], k);
      }
      if Present(password, k) && !InClass(password[0], k) {
        var i :| 0 <= i < |password| && InClass(password[i], k);
        assert InClass(password[1..][i - 1], k);
      }
    }
  }

  /** The classes are disjoint, so their counts add up to at most the password's length. */
  lemma {:induction false} ClassCountsBound(password: string)
    ensures CountClass(password, Upper) + CountClass(password, Lower) +
            CountClass(password, Digit) + CountClass(password, Symbol) <= |password|
  {
    if |password| > 0 {
      ClassCountsBound(password[1..]);
    }
  }

  /**
   `hasKeyboardPattern`: the lower-cased password contains one of `KEYBOARD_PATTERNS`, read forward
   or backward.
   */
  predicate HasKeyboardPattern(password: string) {
    var lowerPass := ToLower(password);
    exists k :: 0 <= k < |KEYBOARD_PATTERNS| &&
      (Contains(lowerPass, KEYBOARD_PATTERNS[k]) || Contains(lowerPass, Reverse(KEYBOARD_PATTERNS[k])))
  }

  /** The pattern check ignores case. */
  lemma KeyboardPatternIgnoresCase(password: string)
    ensures HasKeyboardPattern(ToLower(password)) == HasKeyboardPattern(password)
    ensures HasKeyboardPattern(ToUpper(password)) == HasKeyboardPattern(password)
  {
    ToLowerIdempotent(password);
    ToLowerToUpper(password);
  }

  /** The pattern check gives the same answer on the reversed password. */
  lemma KeyboardPatternReversed(password: string)
    ensures HasKeyboardPattern(Reverse(password)) == HasKeyboardPattern(password)
  {
    var lower := ToLower(password);
    ToLowerReverse(password);
    forall k | 0 <= k < |KEYBOARD_PATTERNS|
      ensures (Contains(Reverse(lower), KEYBOARD_PATTERNS[k]) || Contains(Reverse(lower), Reverse(KEYBOARD_PATTERNS[k])))
          == (Contains(lower, KEYBOARD_PATTERNS[k]) || Contains(lower, Reverse(KEYBOARD_PATTERNS[k])))
    {
      var pat := KEYBOARD_PATTERNS[k];
      ContainsReverse(lower, pat);
      ContainsReverse(lower, Reverse(pat));
      ReverseReverse(pat);
    }
  }

  /** A password that contains a string with a keyboard pattern has one too. */
  lemma KeyboardPatternExtends(password: string, part: string)
    requires Contains(password, part) && HasKeyboardPattern(part)
    ensures HasKeyboardPattern(password)
  {
    var k :| 0 <= k < |KEYBOARD_PATTERNS| &&
      (Contains(ToLower(part), KEYBOARD_PATTERNS[k]) || Contains(ToLower(part), Reverse(KEYBOARD_PATTERNS[k])));
    ContainsToLower(password, part);
    if Contains(ToLower(part), KEYBOARD_PATTERNS[k]) {
      ContainsTransitive(ToLower(password), ToLower(part), KEYBOARD_PATTERNS[k]);
    } else {
      ContainsTransitive(ToLower(password), ToLower(part), Reverse(KEYBOARD_PATTERNS[k]));
    }
  }

  /** More than `m` equal characters in a row start at index `i`. */
  predicate RunAt(password: string, i: int, m: nat) {
    0 <= i && i + m < |password| && forall j :: i <= j <= i + m ==> password[j] == password[i]
  }

  /** Some run of identical consecutive characters is longer than `m`. */
  predicate HasRunLongerThan(password: string, m: nat) {
    exists i :: 0 <= i < |password| && RunAt(password, i, m)
  }

  /** A run longer than `m2` is longer than every `m1 <= m2`. */
  lemma RunLongerThanAntitone(password: string, m1: nat, m2: nat)
    requires m1 <= m2 && HasRunLongerThan(password, m2)
    ensures HasRunLongerThan(password, m1)
  {
    var i :| 0 <= i < |password| && RunAt(password, i, m2);
    assert RunAt(password, i, m1);
  }

  /**
   `hasConsecutiveRepeats`: scans every start index below `|password| - maxRepeats` and counts the
   copies of its character that follow. The count is compared with `maxRepeats` only after it has
   been incremented, so `maxRepeats = 0` detects runs of two or more.
   */
  method HasConsecutiveRepeats(password: string, maxRepeats: nat) returns (found: bool)
    ensures found <==> HasRunLongerThan(password, if maxRepeats == 0 then 1 else maxRepeats)
  {
    ghost var limit := if maxRepeats == 0 then 1 else maxRepeats;
    var i := 0;
    while i < |password| - maxRepeats
      invariant 0 <= i
      invariant forall i' :: 0 <= i' < i ==> !RunAt(password, i', limit)
      decreases |password| - maxRepeats - i
    {
      var c := password[i];
      var count := 1;
      var j := i + 1;
      while j < |password| && password[j] == c
        invariant i + 1 <= j <= |password|
        invariant count == j - i <= limit
        invariant forall k :: i <= k < j ==> password[k] == c
      {
        count := count + 1;
        if count > maxRepeats {
          assert RunAt(password, i, limit);
          return true;
        }
        j := j + 1;
      }
      i := i + 1;
    }
    return false;
  }

  /**
   `meetsRequirements`: every enabled class is present, every nonzero minimum is met, no keyboard
   pattern occurs, and, when `avoidRepeats` is set with a nonzero `maxRepeats`, no run is longer
   than `maxRepeats`.
   */
  predicate MeetsRequirements(password: string, config: Config) {
    var hasUpper := Present(password, Upper);
    var hasLower := Present(password, Lower);
    var hasNumber := Present(password, Digit);
    var hasSymbol := Present(password, Symbol);
    if config.useUppercase && !hasUpper then false
    else if config.useLowercase && !hasLower then false
    else if config.useNumbers && !hasNumber then false
    else if config.useSymbols && !hasSymbol then false
    else if config.minUppercase != 0 && CountClass(password, Upper) < config.minUppercase then false
    else if config.minLowercase != 0 && CountClass(password, Lower) < config.minLowercase then false
    else if config.minNumbers != 0 && CountClass(password, Digit) < config.minNumbers then false
    else if config.minSymbols != 0 && CountClass(password, Symbol) < config.minSymbols then false
    else if HasKeyboardPattern(password) then false
    else if config.avoidRepeats && config.maxRepeats != 0 && HasRunLongerThan(password, config.maxRepeats) then false
    else true
  }

  /**
   A password is accepted exactly when every enabled class is present, every class has at least
   its minimum (a zero minimum asks nothing), no keyboard pattern occurs, and, when `avoidRepeats`
   is set with a nonzero `maxRepeats`, no run is longer than `maxRepeats`.
   */
  lemma MeetsRequirementsIff(password: string, config: Config)
    ensures MeetsRequirements(password, config) <==>
      (forall k :: Enabled(config, k) ==> Present(password, k)) &&
      (forall k :: MinCount(config, k) <= CountClass(password, k)) &&
      !HasKeyboardPattern(password) &&
      !(config.avoidRepeats && config.maxRepeats != 0 && HasRunLongerThan(password, config.maxRepeats))
  {
    if MeetsRequirements(password, config) {
      forall k
        ensures (Enabled(config, k) ==> Present(password, k)) && MinCount(config, k) <= CountClass(password, k)
      {
        match k
        case Upper =>
        case Lower =>
        case Digit =>
        case Symbol =>
      }
    } else if forall k :: MinCount(config, k) <= CountClass(password, k) {
      assert MinCount(config, Upper) <= CountClass(password, Upper);
      assert MinCount(config, Lower) <= CountClass(password, Lower);
      assert MinCount(config, Digit) <= CountClass(password, Digit);
      assert MinCount(config, Symbol) <= CountClass(password, Symbol);
      if forall k :: Enabled(config, k) ==> Present(password, k) {
        assert Enabled(config, Upper) ==> Present(password, Upper);
        assert Enabled(config, Lower) ==> Present(password, Lower);
        assert Enabled(config, Digit) ==> Present(password, Digit);
        assert Enabled(config, Symbol) ==> Present(password, Symbol);
      }
    }
  }

  /** An accepted password holds every enabled class at least once and at least its minimum. */
  lemma AcceptedCounts(password: string, config: Config, k: CharClass)
    requires MeetsRequirements(password, config)
    ensures Enabled(config, k) ==> CountClass(password, k) >= 1
    ensures CountClass(password, k) >= MinCount(config, k)
  {
    PresentIffCounted(password, k);
  }

  /**
   Raising a nonzero repeat limit never rejects a password the lower limit accepted. A zero limit
   is excluded because it switches the repeat check off.
   */
  lemma RepeatLimitRelaxed(password: string, config: Config, m: nat)
    requires MeetsRequirements(password, config)
    requires config.maxRepeats != 0 && config.maxRepeats <= m
    ensures MeetsRequirements(password, config.(maxRepeats := m))
  {
    if config.avoidRepeats && HasRunLongerThan(password, m) {
      RunLongerThanAntitone(password, config.maxRepeats, m);
    }
  }

  /** Minimums that add up to more than the password's length can never be met. */
  lemma UnsatisfiableMinimums(password: string, config: Config)
    requires MinCount(config, Upper) + MinCount(config, Lower) + MinCount(config, Digit) + MinCount(config, Symbol) > |password|
    ensures !MeetsRequirements(password, config)
  {
    ClassCountsBound(password);
  }

  /** An occurrence of a keyboard pattern, forward or backward and in any case, rejects the password. */
  lemma KeyboardPatternRejects(password: string, config: Config, k: nat, i: int)
    requires k < |KEYBOARD_PATTERNS|
    requires OccursAt(ToLower(password), KEYBOARD_PATTERNS[k], i) ||
             OccursAt(ToLower(password), Reverse(KEYBOARD_PATTERNS[k]), i)
    ensures !MeetsRequirements(password, config)
  {
  }

  /** Concrete example: the password "xQwErTy9", which holds a mixed-case "qwerty", is rejected. */
  lemma QwertyRejected(config: Config)
    ensures !MeetsRequirements("xQwErTy9", config)
  {
    var lower := ToLower("xQwErTy9");
    assert lower[1..7] == KEYBOARD_PATTERNS[0];
    KeyboardPatternRejects("xQwErTy9", config, 0, 1);
  }
}
