/**
 Character-string helpers that stand for the JavaScript string methods the engine uses:
 `toLowerCase`/`toUpperCase` (restricted to ASCII letters), `split('').reverse().join('')`,
 `includes` and `split(separator)`.
 */
module Text {

  /** `toLowerCase` on one character: ASCII capitals map to small letters, every other character is kept. */
  function ToLowerChar(c: char): char {
    if 'A' <= c <= 'Z' then (c as int + 32) as char else c
  }

  /** `toUpperCase` on one character: ASCII small letters map to capitals, every other character is kept. */
  function ToUpperChar(c: char): char {
    if 'a' <= c <= 'z' then (c as int - 32) as char else c
  }

  /** `s.toLowerCase()`. */
  function ToLower(s: string): string {
    seq(|s|, i requires 0 <= i < |s| => ToLowerChar(s[i]))
  }

  /** `s.toUpperCase()`. */
  function ToUpper(s: string): string {
    seq(|s|, i requires 0 <= i < |s| => ToUpperChar(s[i]))
  }

  /** `s.split('').reverse().join('')`. */
  function Reverse(s: string): string {
    seq(|s|, i requires 0 <= i < |s| => s[|s| - 1 - i])
  }

  /** `p` occurs in `s` starting at index `i`. */
  predicate OccursAt(s: string, p: string, i: int) {
    0 <= i && i + |p| <= |s| && s[i..i + |p|] == p
  }

  /** `s.includes(p)`. */
  predicate Contains(s: string, p: string) {
    exists i :: 0 <= i <= |s| - |p| && OccursAt(s, p, i)
  }

  /** Lower-casing is idempotent. */
  lemma ToLowerIdempotent(s: string)
    ensures ToLower(ToLower(s)) == ToLower(s)
  {
  }

  /** Lower-casing commutes with reversal. */
  lemma ToLowerReverse(s: string)
    ensures ToLower(Reverse(s)) == Reverse(ToLower(s))
  {
  }

  /** Upper-casing distributes over concatenation. */
  lemma ToUpperConcat(a: string, b: string)
    ensures ToUpper(a + b) == ToUpper(a) + ToUpper(b)
  {
  }

  /** Lower-casing forgets an earlier upper-casing. */
  lemma ToLowerToUpper(s: string)
    ensures ToLower(ToUpper(s)) == ToLower(s)
  {
  }

  /** Lower-casing maps an occurrence of `p` in `s` to an occurrence of the lower-cased `p`. */
  lemma ContainsToLower(s: string, p: string)
    requires Contains(s, p)
    ensures Contains(ToLower(s), ToLower(p))
  {
    var i :| 0 <= i <= |s| - |p| && OccursAt(s, p, i);
    var ls, lp := ToLower(s), ToLower(p);
    forall k | 0 <= k < |p|
      ensures ls[i..i + |p|][k] == lp[k]
    {
      assert s[i..i + |p|][k] == p[k];
    }
    assert OccursAt(ls, lp, i);
  }

  lemma ReverseReverse(s: string)
    ensures Reverse(Reverse(s)) == s
  {
  }

  /** An occurrence of `p` at `i` in `s` is an occurrence of the reversed `p` in the reversed `s`. */
  lemma OccursAtReverse(s: string, p: string, i: int)
    requires OccursAt(s, p, i)
    ensures OccursAt(Reverse(s), Reverse(p), |s| - i - |p|)
  {
    var j := |s| - i - |p|;
    var rs, rp := Reverse(s), Reverse(p);
    forall k | 0 <= k < |p|
      ensures rs[j..j + |p|][k] == rp[k]
    {
      assert rs[j + k] == s[i + |p| - 1 - k];
      assert s[i..i + |p|][|p| - 1 - k] == p[|p| - 1 - k];
    }
  }

  /** `includes` is insensitive to reversing both strings. */
  lemma ContainsReverse(s: string, p: string)
    ensures Contains(Reverse(s), Reverse(p)) <==> Contains(s, p)
  {
    if Contains(s, p) {
      var i :| 0 <= i <= |s| - |p| && OccursAt(s, p, i);
      OccursAtReverse(s, p, i);
    }
    if Contains(Reverse(s), Reverse(p)) {
      var i :| 0 <= i <= |s| - |p| && OccursAt(Reverse(s), Reverse(p), i);
      OccursAtReverse(Reverse(s), Reverse(p), i);
      ReverseReverse(s);
      ReverseReverse(p);
    }
  }

  /** `includes` is transitive: a string containing `q` contains everything `q` contains. */
  lemma ContainsTransitive(s: string, q: string, p: string)
    requires Contains(s, q) && Contains(q, p)
    ensures Contains(s, p)
  {
    var i :| 0 <= i <= |s| - |q| && OccursAt(s, q, i);
    var j :| 0 <= j <= |q| - |p| && OccursAt(q, p, j);
    assert q == s[i..i + |q|];
    forall k | 0 <= k < |p|
      ensures s[i + j..i + j + |p|][k] == p[k]
    {
      assert s[i + j + k] == q[j + k];
    }
    assert OccursAt(s, p, i + j);
  }

  /** `s.split(d)`: the maximal pieces of `s` that do not contain `d`; an empty `s` gives one empty piece. */
  function Split(s: string, d: char): (parts: seq<string>)
    ensures |parts| >= 1
    ensures forall k :: 0 <= k < |parts| ==> d !in parts[k]
  {
    if |s| == 0 then [""]
    else
      var rest := Split(s[1..], d);
      if s[0] == d then [""] + rest else [[s[0]] + rest[0]] + rest[1..]
  }

  /** `parts.join(d)`, the inverse of `Split`. */
  function Join(parts: seq<string>, d: char): (s: string)
    requires |parts| >= 1
  {
    if |parts| == 1 then parts[0] else parts[0] + [d] + Join(parts[1..], d)
  }

  /** Joining the pieces of a split gives back the string. */
  lemma {:induction false} JoinSplit(s: string, d: char)
    ensures Join(Split(s, d), d) == s
  {
    if |s| > 0 {
      var rest := Split(s[1..], d);
      JoinSplit(s[1..], d);
      if s[0] == d {
        assert Split(s, d)[1..] == rest;
      } else {
        var parts := Split(s, d);
        if |rest| == 1 {
          assert parts == [[s[0]] + rest[0]];
        } else {
          assert parts[1..] == rest[1..];
          assert Join(rest, d) == rest[0] + [d] + Join(rest[1..], d);
        }
      }
    }
  }

  /** Splitting a join of separator-free pieces gives the pieces back. */
  lemma {:induction false} SplitJoin(parts: seq<string>, d: char)
    requires |parts| >= 1
    requires forall k :: 0 <= k < |parts| ==> d !in parts[k]
    ensures Split(Join(parts, d), d) == parts
  {
    if |parts| == 1 {
      SplitPiece(parts[0], d);
    } else {
      SplitJoin(parts[1..], d);
      SplitPieceThen(parts[0], d, Join(parts[1..], d));
      assert [parts[0]] + parts[1..] == parts;
    }
  }

  lemma {:induction false} SplitPiece(p: string, d: char)
    requires d !in p
    ensures Split(p, d) == [p]
  {
    if |p| > 0 {
      SplitPiece(p[1..], d);
      assert [p[0]] + p[1..] == p;
    }
  }

  lemma {:induction false} SplitPieceThen(p: string, d: char, t: string)
    requires d !in p
    ensures Split(p + [d] + t, d) == [p] + Split(t, d)
  {
    if |p| == 0 {
      assert p + [d] + t == [d] + t;
      assert ([d] + t)[1..] == t;
    } else {
      SplitPieceThen(p[1..], d, t);
      assert (p + [d] + t)[1..] == p[1..] + [d] + t;
      assert [p[0]] + p[1..] == p;
    }
  }
}
