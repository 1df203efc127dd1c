/**
 The password policy of the engine: the configuration record, the four alphabets and their
 character classes, the ambiguous-character filter, and the character pool built from them.
 */
module Policy {
  import opened Text

  /**
   A password configuration. The optional numeric fields of the source (`minUppercase`,
   `minLowercase`, `minNumbers`, `minSymbols`, `maxRepeats`) are 0 when absent, which is how the
   source's truthiness tests treat them; an absent `avoidRepeats` is `false`.
   */
  datatype Config = Config(
    length: nat,
    useUppercase: bool,
    useLowercase: bool,
    useNumbers: bool,
    useSymbols: bool,
    avoidAmbiguous: bool,
    minUppercase: nat,
    minLowercase: nat,
    minNumbers: nat,
    minSymbols: nat,
    avoidRepeats: bool,
    maxRepeats: nat)

  const UPPERCASE: string := "ABCDEFGHIJKLMNOPQRSTUVWXYZ"
  const LOWERCASE: string := "abcdefghijklmnopqrstuvwxyz"
  const NUMBERS: string := "0123456789"
  const SYMBOLS: string := "!@#$%^&*_-+=?"
  const AMBIGUOUS: string := "O0l1I|"

  const KEYBOARD_PATTERNS: seq<string> := ["qwerty", "asdfgh", "zxcvbn", "123456", "abcdef"]

  /** The four character classes, in the order in which the pool concatenates them. */
  datatype CharClass = Upper | Lower | Digit | Symbol

  function Alphabet(k: CharClass): string {
    match k
    case Upper => UPPERCASE
    case Lower => LOWERCASE
    case Digit => NUMBERS
    case Symbol => SYMBOLS
  }

  predicate Enabled(config: Config, k: CharClass) {
    match k
    case Upper => config.useUppercase
    case Lower => config.useLowercase
    case Digit => config.useNumbers
    case Symbol => config.useSymbols
  }

  /** The minimum count the configuration asks of class `k` (0: no minimum). */
  function MinCount(config: Config, k: CharClass): nat {
    match k
    case Upper => config.minUppercase
    case Lower => config.minLowercase
    case Digit => config.minNumbers
    case Symbol => config.minSymbols
  }

  /**
   Membership in the regular-expression character class the acceptance predicate uses for `k`:
   `[A-Z]`, `[a-z]`, `[0-9]` and `[!@#$%^&*_\-+=?]`.
   */
  predicate InClass(c: char, k: CharClass) {
    match k
    case Upper => 'A' <= c <= 'Z'
    case Lower => 'a' <= c <= 'z'
    case Digit => '0' <= c <= '9'
    case Symbol =>
      c == '!' || c == '@' || c == '#' || c == '$' || c == '%' || c == '^' || c == '&' ||
      c == '*' || c == '_' || c == '-' || c == '+' || c == '=' || c == '?'
  }

  /** `s` is the run of consecutive character codes starting at `first`. */
  predicate Consecutive(s: string, first: char) {
    forall i :: 0 <= i < |s| ==> s[i] as int == first as int + i
  }

  lemma UppercaseConsecutive()
    ensures Consecutive(UPPERCASE, 'A') && |UPPERCASE| == 26
  {
  }

  lemma LowercaseConsecutive()
    ensures Consecutive(LOWERCASE, 'a') && |LOWERCASE| == 26
  {
  }

  lemma NumbersConsecutive()
    ensures Consecutive(NUMBERS, '0') && |NUMBERS| == 10
  {
  }

  /** A run of consecutive codes holds exactly the characters of its code range, each once. */
  lemma ConsecutiveMembers(s: string, first: char, c: char)
    requires Consecutive(s, first)
    ensures c in s <==> first as int <= c as int < first as int + |s|
    ensures Distinct(s)
  {
    if first as int <= c as int < first as int + |s| {
      assert s[c as int - first as int] == c;
    }
  }

  /** The regular expressions and the alphabets line up: each class's expression matches exactly its alphabet. */
  lemma AlphabetMatchesClass(k: CharClass, c: char)
    ensures c in Alphabet(k) <==> InClass(c, k)
  {
    match k
    case Upper =>
      UppercaseConsecutive();
      ConsecutiveMembers(UPPERCASE, 'A', c);
    case Lower =>
      LowercaseConsecutive();
      ConsecutiveMembers(LOWERCASE, 'a', c);
    case Digit =>
      NumbersConsecutive();
      ConsecutiveMembers(NUMBERS, '0', c);
    case Symbol =>
  }

  /** No character belongs to two classes. */
  lemma ClassesDisjoint(c: char, k1: CharClass, k2: CharClass)
    requires InClass(c, k1) && InClass(c, k2)
    ensures k1 == k2
  {
  }

  /** Membership in `AMBIGUOUS`, the characters `O0l1I|`. */
  predicate IsAmbiguous(c: char) {
    c == 'O' || c == '0' || c == 'l' || c == '1' || c == 'I' || c == '|'
  }

  lemma AmbiguousMatches(c: char)
    ensures c in AMBIGUOUS <==> IsAmbiguous(c)
  {
  }

  /** `s.split('').filter(char => !AMBIGUOUS.includes(char)).join('')`. */
  function RemoveAmbiguous(s: string): string {
    if |s| == 0 then ""
    else (if IsAmbiguous(s[0]) then "" else [s[0]]) + RemoveAmbiguous(s[1..])
  }

  /** Filtering keeps exactly the characters of `s` that are not ambiguous. */
  lemma {:induction false} RemoveAmbiguousMembers(s: string)
    ensures forall c :: c in RemoveAmbiguous(s) <==> c in s && !IsAmbiguous(c)
    ensures |RemoveAmbiguous(s)| <= |s|
  {
    if |s| > 0 {
      RemoveAmbiguousMembers(s[1..]);
      assert s == [s[0]] + s[1..];
    }
  }

  /** Filtering works piecewise, so it keeps the relative order of the characters it keeps. */
  lemma {:induction false} RemoveAmbiguousConcat(a: string, b: string)
    ensures RemoveAmbiguous(a + b) == RemoveAmbiguous(a) + RemoveAmbiguous(b)
  {
    if |a| == 0 {
      assert a + b == b;
    } else {
      assert (a + b)[0] == a[0];
      assert (a + b)[1..] == a[1..] + b;
      RemoveAmbiguousConcat(a[1..], b);
      var head := if IsAmbiguous(a[0]) then "" else [a[0]];
      assert head + (RemoveAmbiguous(a[1..]) + RemoveAmbiguous(b)) ==
        (head + RemoveAmbiguous(a[1..])) + RemoveAmbiguous(b);
    }
  }

  /** A string without ambiguous characters is left as it is. */
  lemma {:induction false} RemoveAmbiguousKeeps(s: string)
    requires forall i :: 0 <= i < |s| ==> !IsAmbiguous(s[i])
    ensures RemoveAmbiguous(s) == s
  {
    if |s| > 0 {
      RemoveAmbiguousKeeps(s[1..]);
      assert [s[0]] + s[1..] == s;
    }
  }

  /** No character occurs twice in `s`. */
  predicate Distinct(s: string) {
    forall i, j :: 0 <= i < j < |s| ==> s[i] != s[j]
  }

  /** Filtering keeps a string free of duplicates. */
  lemma {:induction false} RemoveAmbiguousDistinct(s: string)
    requires Distinct(s)
    ensures Distinct(RemoveAmbiguous(s))
  {
    if |s| > 0 {
      assert forall i, j :: 0 <= i < j < |s[1..]| ==> s[1..][i] == s[i + 1] && s[1..][j] == s[j + 1];
      RemoveAmbiguousDistinct(s[1..]);
      RemoveAmbiguousMembers(s[1..]);
      assert s[0] !in s[1..];
    }
  }

  lemma DistinctConcat(a: string, b: string)
    requires Distinct(a) && Distinct(b)
    requires forall c :: c in a ==> c !in b
    ensures Distinct(a + b)
  {
    var ab := a + b;
    forall i, j | 0 <= i < j < |ab|
      ensures ab[i] != ab[j]
    {
      if j < |a| {
        assert ab[i] == a[i] && ab[j] == a[j];
      } else if i < |a| {
        assert ab[i] == a[i] && ab[j] == b[j - |a|];
        assert a[i] in a && b[j - |a|] in b;
      } else {
        assert ab[i] == b[i - |a|] && ab[j] == b[j - |a|];
      }
    }
  }

  /** What `if (config.useX) pool += X` appends for class `k`. */
  function Selected(config: Config, k: CharClass): string {
    if Enabled(config, k) then Alphabet(k) else ""
  }

  lemma SelectedMembers(config: Config, k: CharClass, c: char)
    ensures c in Selected(config, k) <==> Enabled(config, k) && InClass(c, k)
  {
    AlphabetMatchesClass(k, c);
  }

  /** The part of the pool contributed by class `k`. */
  function PoolPart(config: Config, k: CharClass): string {
    if config.avoidAmbiguous then RemoveAmbiguous(Selected(config, k)) else Selected(config, k)
  }

  /** The enabled alphabets concatenated in the order upper, lower, digits, symbols. */
  function Unfiltered(config: Config): string {
    Selected(config, Upper) + Selected(config, Lower) + Selected(config, Digit) + Selected(config, Symbol)
  }

  /** The pool: the enabled alphabets, stripped of the ambiguous characters when `avoidAmbiguous` is set. */
  function CharPool(config: Config): string {
    if config.avoidAmbiguous then RemoveAmbiguous(Unfiltered(config)) else Unfiltered(config)
  }

  lemma UnfilteredMembers(config: Config, c: char)
    ensures c in Unfiltered(config) <==> exists k :: Enabled(config, k) && InClass(c, k)
  {
    SelectedMembers(config, Upper, c);
    SelectedMembers(config, Lower, c);
    SelectedMembers(config, Digit, c);
    SelectedMembers(config, Symbol, c);
    if exists k :: Enabled(config, k) && InClass(c, k) {
      var k :| Enabled(config, k) && InClass(c, k);
      SelectedMembers(config, k, c);
    }
  }

  /**
   The pool holds exactly the characters of the enabled classes, except the ambiguous ones when
   `avoidAmbiguous` is set.
   */
  lemma CharPoolMembers(config: Config)
    ensures forall c :: c in CharPool(config) <==>
      (exists k :: Enabled(config, k) && InClass(c, k)) && !(config.avoidAmbiguous && IsAmbiguous(c))
  {
    RemoveAmbiguousMembers(Unfiltered(config));
    forall c {
      UnfilteredMembers(config, c);
    }
  }

  /** `getCharPool`: accumulates the enabled alphabets into `pool`, then filters it. */
  method GetCharPool(config: Config) returns (pool: string)
    ensures pool == CharPool(config)
  {
    var u, l, d := Selected(config, Upper), Selected(config, Lower), Selected(config, Digit);
    pool := "";
    if config.useUppercase { pool := pool + UPPERCASE; }
    assert pool == u;
    if config.useLowercase { pool := pool + LOWERCASE; }
    assert pool == u + l;
    if config.useNumbers { pool := pool + NUMBERS; }
    assert pool == u + l + d;
    if config.useSymbols { pool := pool + SYMBOLS; }
    assert pool == u + l + d + Selected(config, Symbol);
    if config.avoidAmbiguous {
      pool := RemoveAmbiguous(pool);
    }
  }

  /** The pool is the enabled classes' parts, in the fixed class order. */
  lemma CharPoolOrder(config: Config)
    ensures CharPool(config) ==
      PoolPart(config, Upper) + PoolPart(config, Lower) + PoolPart(config, Digit) + PoolPart(config, Symbol)
  {
    var u, l, d, s := Selected(config, Upper), Selected(config, Lower), Selected(config, Digit), Selected(config, Symbol);
    if config.avoidAmbiguous {
      RemoveAmbiguousConcat(u + l + d, s);
      RemoveAmbiguousConcat(u + l, d);
      RemoveAmbiguousConcat(u, l);
    }
  }

  /** The pool is empty exactly when no class is enabled: every alphabet keeps a character after filtering. */
  lemma CharPoolEmpty(config: Config)
    ensures |CharPool(config)| == 0 <==>
      !config.useUppercase && !config.useLowercase && !config.useNumbers && !config.useSymbols
  {
    CharPoolMembers(config);
    if config.useUppercase {
      assert Enabled(config, Upper) && InClass('A', Upper);
      assert 'A' in CharPool(config);
    } else if config.useLowercase {
      assert Enabled(config, Lower) && InClass('a', Lower);
      assert 'a' in CharPool(config);
    } else if config.useNumbers {
      assert Enabled(config, Digit) && InClass('2', Digit);
      assert '2' in CharPool(config);
    } else if config.useSymbols {
      assert Enabled(config, Symbol) && InClass('!', Symbol);
      assert '!' in CharPool(config);
    }
  }

  /** Every character of the part of class `k` belongs to class `k`. */
  lemma PoolPartClass(config: Config, k: CharClass)
    ensures Distinct(PoolPart(config, k))
    ensures forall c :: c in PoolPart(config, k) ==> InClass(c, k)
  {
    AlphabetDistinct(k);
    forall c | c in Alphabet(k)
      ensures InClass(c, k)
    {
      AlphabetMatchesClass(k, c);
    }
    if Enabled(config, k) && config.avoidAmbiguous {
      RemoveAmbiguousDistinct(Alphabet(k));
      RemoveAmbiguousMembers(Alphabet(k));
    }
  }

  lemma AlphabetDistinct(k: CharClass)
    ensures Distinct(Alphabet(k))
  {
    match k
    case Upper =>
      UppercaseConsecutive();
      ConsecutiveMembers(UPPERCASE, 'A', 'A');
    case Lower =>
      LowercaseConsecutive();
      ConsecutiveMembers(LOWERCASE, 'a', 'a');
    case Digit =>
      NumbersConsecutive();
      ConsecutiveMembers(NUMBERS, '0', '0');
    case Symbol =>
      assert Distinct(SYMBOLS);
  }

  /** No character occurs twice in the pool. */
  lemma CharPoolDistinct(config: Config)
    ensures Distinct(CharPool(config))
  {
    CharPoolOrder(config);
    var u, l, d, s := PoolPart(config, Upper), PoolPart(config, Lower), PoolPart(config, Digit), PoolPart(config, Symbol);
    PoolPartClass(config, Upper);
    PoolPartClass(config, Lower);
    PoolPartClass(config, Digit);
    PoolPartClass(config, Symbol);
    DistinctConcat(u, l);
    DistinctConcat(u + l, d);
    DistinctConcat(u + l + d, s);
  }
}
