/**
 The rejection-sampling generator `generatePassword`. The secure random source is an oracle
 `rand`: the k-th 32-bit value drawn (counting from 0 over the whole call) is `rand(k)`.
 */
module Generator {
  import opened Wrappers
  import opened Policy
  import opened Requirements

  /** An unsigned 32-bit value, as held by one `Uint32Array` element. */
  type uint32 = x: int | 0 <= x < 0x1_0000_0000

  /** The number of candidates drawn before the generator gives up. */
  const MAX_ATTEMPTS: nat := 1000

  /** The two errors `generatePassword` throws. */
  datatype GenerateError =
    | EmptyPool          // "Character pool is empty. Enable at least one character type."
    | AttemptsExhausted  // "Could not generate password meeting requirements after maximum attempts."

  /** `getSecureRandomInt(max)`: a 32-bit draw reduced modulo `max`. */
  function SecureRandomInt(draw: uint32, max: nat): (r: nat)
    requires max > 0
    ensures r < max
    ensures draw < max ==> r == draw
  {
    draw % max
  }

  /** The candidate of one attempt: `length` pool characters, the i-th chosen by draw number `start + i`. */
  function Candidate(pool: string, length: nat, rand: nat -> uint32, start: nat): (c: string)
    requires |pool| > 0
  {
    seq(length, i requires 0 <= i < length => pool[SecureRandomInt(rand(start + i), |pool|)])
  }

  /** The candidate of attempt number `attempt`, which uses the draws `attempt * length` onwards. */
  function AttemptCandidate(config: Config, pool: string, rand: nat -> uint32, attempt: nat): string
    requires |pool| > 0
  {
    Candidate(pool, config.length, rand, attempt * config.length)
  }

  /** The outcome of the attempts from `attempt` on: the first accepted candidate, or exhaustion. */
  function FirstAccepted(config: Config, pool: string, rand: nat -> uint32, attempt: nat): Result<string, GenerateError>
    requires |pool| > 0
    decreases MAX_ATTEMPTS - attempt
  {
    if attempt >= MAX_ATTEMPTS then Failure(AttemptsExhausted)
    else
      var candidate := AttemptCandidate(config, pool, rand, attempt);
      if MeetsRequirements(candidate, config) then Success(candidate)
      else FirstAccepted(config, pool, rand, attempt + 1)
  }

  /** What `generatePassword` returns or throws for `config` and the random source `rand`. */
  function Generate(config: Config, rand: nat -> uint32): Result<string, GenerateError> {
    var pool := CharPool(config);
    if |pool| == 0 then Failure(EmptyPool) else FirstAccepted(config, pool, rand, 0)
  }

  /** `generatePassword`: builds the pool once, then draws candidates until one is accepted or 1000 were rejected. */
  method GeneratePassword(config: Config, rand: nat -> uint32) returns (result: Result<string, GenerateError>)
    ensures result == Generate(config, rand)
    ensures result == Failure(EmptyPool) <==> CharPool(config) == ""
    ensures result.Success? ==>
      |result.value| == config.length &&
      (forall i :: 0 <= i < |result.value| ==> result.value[i] in CharPool(config)) &&
      MeetsRequirements(result.value, config)
  {
    var pool := GetCharPool(config);
    if |pool| == 0 {
      return Failure(EmptyPool);
    }
    result := SampleAttempts(config, pool, rand);
    FirstAcceptedExhausted(config, pool, rand, 0);
    if result.Success? {
      GenerateSound(config, rand);
    }
  }

  /** The attempt loop of `generatePassword`: the first of at most 1000 candidates that is accepted. */
  method SampleAttempts(config: Config, pool: string, rand: nat -> uint32) returns (result: Result<string, GenerateError>)
    requires |pool| > 0
    ensures result == FirstAccepted(config, pool, rand, 0)
  {
    var attempts := 0;
    var next := 0;  // the number of random values drawn so far
    while attempts < MAX_ATTEMPTS
      invariant attempts <= MAX_ATTEMPTS
      invariant next == attempts * config.length
      invariant FirstAccepted(config, pool, rand, attempts) == FirstAccepted(config, pool, rand, 0)
    {
      var password := DrawCandidate(pool, config.length, rand, next);
      next := next + config.length;
      if MeetsRequirements(password, config) {
        return Success(password);
      }
      attempts := attempts + 1;
    }
    return Failure(AttemptsExhausted);
  }

  /** The inner loop of `generatePassword`: appends `length` pool characters chosen by the draws from `start` on. */
  method DrawCandidate(pool: string, length: nat, rand: nat -> uint32, start: nat) returns (password: string)
    requires |pool| > 0
    ensures password == Candidate(pool, length, rand, start)
  {
    password := "";
    for i := 0 to length
      invariant password == Candidate(pool, length, rand, start)[..i]
    {
      var randomIndex := SecureRandomInt(rand(start + i), |pool|);
      password := password + [pool[randomIndex]];
    }
  }

  /** An accepted candidate is the candidate of the first accepted attempt, and it passes the acceptance predicate. */
  lemma {:induction false} FirstAcceptedFound(config: Config, pool: string, rand: nat -> uint32, attempt: nat, w: string)
    requires |pool| > 0
    requires FirstAccepted(config, pool, rand, attempt) == Success(w)
    ensures MeetsRequirements(w, config)
    ensures exists b ::
      && attempt <= b < MAX_ATTEMPTS
      && w == AttemptCandidate(config, pool, rand, b)
      && forall b' :: attempt <= b' < b ==> !MeetsRequirements(AttemptCandidate(config, pool, rand, b'), config)
    decreases MAX_ATTEMPTS - attempt
  {
    if !MeetsRequirements(AttemptCandidate(config, pool, rand, attempt), config) {
      FirstAcceptedFound(config, pool, rand, attempt + 1, w);
      var b :| attempt + 1 <= b < MAX_ATTEMPTS && w == AttemptCandidate(config, pool, rand, b) &&
        forall b' :: attempt + 1 <= b' < b ==> !MeetsRequirements(AttemptCandidate(config, pool, rand, b'), config);
      assert forall b' :: attempt <= b' < b ==> !MeetsRequirements(AttemptCandidate(config, pool, rand, b'), config);
    }
  }

  /** An accepted candidate has the configured length, uses only pool characters and passes the acceptance predicate. */
  lemma FirstAcceptedSound(config: Config, pool: string, rand: nat -> uint32, attempt: nat, w: string)
    requires |pool| > 0
    requires FirstAccepted(config, pool, rand, attempt) == Success(w)
    ensures |w| == config.length
    ensures forall i :: 0 <= i < |w| ==> w[i] in pool
    ensures MeetsRequirements(w, config)
  {
    FirstAcceptedFound(config, pool, rand, attempt, w);
    var b :| attempt <= b < MAX_ATTEMPTS && w == AttemptCandidate(config, pool, rand, b);
    CandidateFromPool(config, pool, rand, b);
  }

  /** The attempts from `attempt` on end in exhaustion exactly when every one of their candidates is rejected. */
  lemma {:induction false} FirstAcceptedExhausted(config: Config, pool: string, rand: nat -> uint32, attempt: nat)
    requires |pool| > 0
    ensures FirstAccepted(config, pool, rand, attempt).Failure? ==>
      FirstAccepted(config, pool, rand, attempt) == Failure(AttemptsExhausted)
    ensures FirstAccepted(config, pool, rand, attempt) == Failure(AttemptsExhausted) <==>
      forall b :: attempt <= b < MAX_ATTEMPTS ==> !MeetsRequirements(AttemptCandidate(config, pool, rand, b), config)
    decreases MAX_ATTEMPTS - attempt
  {
    if attempt < MAX_ATTEMPTS {
      FirstAcceptedExhausted(config, pool, rand, attempt + 1);
    }
  }

  /** Every password the generator returns has the configured length, is drawn from the pool and meets the policy. */
  lemma GenerateSound(config: Config, rand: nat -> uint32)
    requires Generate(config, rand).Success?
    ensures |Generate(config, rand).value| == config.length
    ensures forall i :: 0 <= i < |Generate(config, rand).value| ==> Generate(config, rand).value[i] in CharPool(config)
    ensures MeetsRequirements(Generate(config, rand).value, config)
  {
    FirstAcceptedSound(config, CharPool(config), rand, 0, Generate(config, rand).value);
  }

  /**
   The returned password is the first accepted candidate: some attempt below 1000 produced it and
   every earlier attempt's candidate was rejected.
   */
  lemma GenerateFirstAccepted(config: Config, rand: nat -> uint32)
    requires Generate(config, rand).Success?
    ensures exists b ::
      && 0 <= b < MAX_ATTEMPTS
      && Generate(config, rand).value == AttemptCandidate(config, CharPool(config), rand, b)
      && forall b' :: 0 <= b' < b ==> !MeetsRequirements(AttemptCandidate(config, CharPool(config), rand, b'), config)
  {
    FirstAcceptedFound(config, CharPool(config), rand, 0, Generate(config, rand).value);
  }

  /** The generator throws the empty-pool error exactly when no character class is enabled. */
  lemma GenerateEmptyPool(config: Config, rand: nat -> uint32)
    ensures Generate(config, rand) == Failure(EmptyPool) <==>
      !config.useUppercase && !config.useLowercase && !config.useNumbers && !config.useSymbols
  {
    CharPoolEmpty(config);
    if |CharPool(config)| > 0 {
      FirstAcceptedExhausted(config, CharPool(config), rand, 0);
    }
  }

  /**
   The generator throws the exhaustion error exactly when the pool is nonempty and all 1000
   candidates are rejected; it never loops beyond them.
   */
  lemma GenerateExhausted(config: Config, rand: nat -> uint32)
    ensures Generate(config, rand) == Failure(AttemptsExhausted) <==>
      |CharPool(config)| > 0 &&
      forall b :: 0 <= b < MAX_ATTEMPTS ==> !MeetsRequirements(AttemptCandidate(config, CharPool(config), rand, b), config)
  {
    if |CharPool(config)| > 0 {
      FirstAcceptedExhausted(config, CharPool(config), rand, 0);
    }
  }

  /** Minimums adding up to more than the length make generation fail, whatever the random source yields. */
  lemma GenerateUnsatisfiable(config: Config, rand: nat -> uint32)
    requires config.useUppercase || config.useLowercase || config.useNumbers || config.useSymbols
    requires config.minUppercase + config.minLowercase + config.minNumbers + config.minSymbols > config.length
    ensures Generate(config, rand) == Failure(AttemptsExhausted)
  {
    var pool := CharPool(config);
    CharPoolEmpty(config);
    forall b | 0 <= b < MAX_ATTEMPTS
      ensures !MeetsRequirements(AttemptCandidate(config, pool, rand, b), config)
    {
      UnsatisfiableMinimums(AttemptCandidate(config, pool, rand, b), config);
    }
    GenerateExhausted(config, rand);
  }

  /**
   A nonzero minimum for a class that is not enabled can never be met, because the pool has no
   character of that class: generation then fails whatever the random source yields.
   */
  lemma GenerateDisabledMinimum(config: Config, rand: nat -> uint32, k: CharClass)
    requires config.useUppercase || config.useLowercase || config.useNumbers || config.useSymbols
    requires !Enabled(config, k) && MinCount(config, k) > 0
    ensures Generate(config, rand) == Failure(AttemptsExhausted)
  {
    var pool := CharPool(config);
    CharPoolEmpty(config);
    forall b | 0 <= b < MAX_ATTEMPTS
      ensures !MeetsRequirements(AttemptCandidate(config, pool, rand, b), config)
    {
      var w := AttemptCandidate(config, pool, rand, b);
      CandidateFromPool(config, pool, rand, b);
      DisabledClassAbsent(w, config, k);
    }
    GenerateExhausted(config, rand);
  }

  /** Every character of a candidate comes from the pool. */
  lemma CandidateFromPool(config: Config, pool: string, rand: nat -> uint32, attempt: nat)
    requires |pool| > 0
    ensures |AttemptCandidate(config, pool, rand, attempt)| == config.length
    ensures forall i :: 0 <= i < config.length ==> AttemptCandidate(config, pool, rand, attempt)[i] in pool
  {
    var w := AttemptCandidate(config, pool, rand, attempt);
    forall i | 0 <= i < config.length
      ensures w[i] in pool
    {
      assert w[i] == pool[SecureRandomInt(rand(attempt * config.length + i), |pool|)];
    }
  }

  /** A string of pool characters holds no character of a class that is not enabled. */
  lemma DisabledClassAbsent(w: string, config: Config, k: CharClass)
    requires forall i :: 0 <= i < |w| ==> w[i] in CharPool(config)
    requires !Enabled(config, k)
    ensures CountClass(w, k) == 0
  {
    CharPoolMembers(config);
    forall i | 0 <= i < |w|
      ensures !InClass(w[i], k)
    {
      if InClass(w[i], k) {
        var k' :| Enabled(config, k') && InClass(w[i], k');
        ClassesDisjoint(w[i], k, k');
      }
    }
    PresentIffCounted(w, k);
  }

  /** The e-mail preset: 18 characters of all four classes, one of each at least, no ambiguous characters, runs of at most 2. */
  const EMAIL_PRESET: Config := Config(
    length := 18, useUppercase := true, useLowercase := true, useNumbers := true, useSymbols := true,
    avoidAmbiguous := true, minUppercase := 1, minLowercase := 1, minNumbers := 1, minSymbols := 1,
    avoidRepeats := true, maxRepeats := 2)

  /**
   Under the e-mail preset a generated password has 18 characters, each class at least once, no
   ambiguous character and no three identical characters in a row.
   */
  lemma EmailPresetPasswords(rand: nat -> uint32)
    requires Generate(EMAIL_PRESET, rand).Success?
    ensures var w := Generate(EMAIL_PRESET, rand).value;
      |w| == 18 &&
      (forall k :: CountClass(w, k) >= 1) &&
      (forall i :: 0 <= i < |w| ==> !IsAmbiguous(w[i])) &&
      !HasRunLongerThan(w, 2)
  {
    var w := Generate(EMAIL_PRESET, rand).value;
    GenerateSound(EMAIL_PRESET, rand);
    CharPoolMembers(EMAIL_PRESET);
    forall k
      ensures CountClass(w, k) >= 1
    {
      AcceptedCounts(w, EMAIL_PRESET, k);
    }
  }
}
