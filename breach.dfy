/**
 The breach check `checkHIBP`, a k-anonymity range query against the Pwned Passwords service:
 render the SHA-1 digest as uppercase hexadecimal, send only its first 5 characters, and scan the
 `SUFFIX:COUNT` lines of the answer for the remaining 35. The digest itself (`crypto.subtle.digest`
 over the UTF-8 bytes) and the network are inputs: `fetch` maps a request URL to the response.
 */
module Breach {
  import opened Wrappers
  import opened Text

  type byte = x: int | 0 <= x < 256

  /** Digit `v` of `toString(16)`: `0-9` then `a-f`. */
  function HexDigit(v: nat): (c: char)
    requires v < 16
    ensures c == "0123456789abcdef"[v]
  {
    if v < 10 then ('0' as int + v) as char else ('a' as int + v - 10) as char
  }

  /** `b.toString(16)`: lowercase hexadecimal without leading zeros. */
  function ByteToHex(b: byte): string {
    if b < 16 then [HexDigit(b)] else [HexDigit(b / 16), HexDigit(b % 16)]
  }

  /** `s.padStart(2, '0')`. */
  function PadStart2(s: string): string {
    if |s| >= 2 then s else seq(2 - |s|, _ => '0') + s
  }

  /** `hashArray.map(b => b.toString(16).padStart(2, '0')).join('')`. */
  function JoinHex(bytes: seq<byte>): string {
    if |bytes| == 0 then "" else PadStart2(ByteToHex(bytes[0])) + JoinHex(bytes[1..])
  }

  /** The string `sha1` returns for the digest bytes: the joined hexadecimal, upper-cased. */
  function DigestHex(digest: seq<byte>): (h: string)
    ensures |h| == 2 * |digest|
  {
    JoinHexLength(digest);
    ToUpper(JoinHex(digest))
  }

  /** The uppercase hexadecimal digits. */
  const UPPER_HEX: string := "0123456789ABCDEF"

  /** A byte as two uppercase hex digits, high nibble first. */
  function UpperHexPair(b: byte): string {
    [UPPER_HEX[b / 16], UPPER_HEX[b % 16]]
  }

  /** The reference rendering: two uppercase hex digits per byte, in byte order. */
  function UpperHexOf(d: seq<byte>): (h: string)
    ensures |h| == 2 * |d|
  {
    if |d| == 0 then "" else UpperHexPair(d[0]) + UpperHexOf(d[1..])
  }

  /** One byte becomes two lowercase hex digits, high nibble first, zero-padded. */
  lemma ByteHexPair(b: byte)
    ensures PadStart2(ByteToHex(b)) == [HexDigit(b / 16), HexDigit(b % 16)]
  {
  }

  lemma {:induction false} JoinHexLength(bytes: seq<byte>)
    ensures |JoinHex(bytes)| == 2 * |bytes|
  {
    if |bytes| > 0 {
      ByteHexPair(bytes[0]);
      JoinHexLength(bytes[1..]);
    }
  }

  predicate IsUpperHexDigit(c: char) {
    '0' <= c <= '9' || 'A' <= c <= 'F'
  }

  lemma UpperHexDigit(v: nat)
    requires v < 16
    ensures ToUpperChar(HexDigit(v)) == UPPER_HEX[v]
    ensures IsUpperHexDigit(UPPER_HEX[v])
  {
  }

  /** `sha1`'s rendering is the reference rendering: each byte as two uppercase digits, zero-padded, high nibble first. */
  lemma {:induction false} DigestHexUpper(digest: seq<byte>)
    ensures DigestHex(digest) == UpperHexOf(digest)
  {
    if |digest| > 0 {
      var b := digest[0];
      ByteHexPair(b);
      var head := [HexDigit(b / 16), HexDigit(b % 16)];
      assert JoinHex(digest) == head + JoinHex(digest[1..]);
      ToUpperConcat(head, JoinHex(digest[1..]));
      UpperHexDigit(b / 16);
      UpperHexDigit(b % 16);
      assert ToUpper(head) == UpperHexPair(b);
      DigestHexUpper(digest[1..]);
    }
  }

  /** Byte `i` sits at positions `2i` and `2i + 1` of the reference rendering, and every character is an uppercase hex digit. */
  lemma {:induction false} UpperHexAt(d: seq<byte>)
    ensures forall i :: 0 <= i < |d| ==>
      UpperHexOf(d)[2 * i] == UPPER_HEX[d[i] / 16] && UpperHexOf(d)[2 * i + 1] == UPPER_HEX[d[i] % 16]
    ensures forall j :: 0 <= j < |UpperHexOf(d)| ==> IsUpperHexDigit(UpperHexOf(d)[j])
  {
    if |d| > 0 {
      var h, t := UpperHexOf(d), UpperHexOf(d[1..]);
      UpperHexAt(d[1..]);
      UpperHexDigit(d[0] / 16);
      UpperHexDigit(d[0] % 16);
      assert h == UpperHexPair(d[0]) + t;
      forall i | 0 <= i < |d|
        ensures h[2 * i] == UPPER_HEX[d[i] / 16] && h[2 * i + 1] == UPPER_HEX[d[i] % 16]
      {
        if i > 0 {
          assert d[1..][i - 1] == d[i];
          assert h[2 * i] == t[2 * (i - 1)] && h[2 * i + 1] == t[2 * (i - 1) + 1];
        }
      }
      forall j | 0 <= j < |h|
        ensures IsUpperHexDigit(h[j])
      {
        if j >= 2 {
          assert h[j] == t[j - 2];
        }
      }
    }
  }

  /**
   The rendered digest has two uppercase hex digits per byte, the high nibble first: a 20-byte
   SHA-1 digest gives 40 characters.
   */
  lemma DigestHexFormat(digest: seq<byte>)
    ensures |DigestHex(digest)| == 2 * |digest|
    ensures forall i :: 0 <= i < |digest| ==>
      DigestHex(digest)[2 * i] == UPPER_HEX[digest[i] / 16] && DigestHex(digest)[2 * i + 1] == UPPER_HEX[digest[i] % 16]
    ensures forall j :: 0 <= j < |DigestHex(digest)| ==> IsUpperHexDigit(DigestHex(digest)[j])
  {
    DigestHexUpper(digest);
    UpperHexAt(digest);
  }

  /** The value of an uppercase hex digit, if it is one. */
  function HexValue(c: char): Option<nat> {
    if '0' <= c <= '9' then Some(c as int - '0' as int)
    else if 'A' <= c <= 'F' then Some(c as int - 'A' as int + 10)
    else None
  }

  /** Reads uppercase hexadecimal back into bytes, two digits per byte. */
  function DecodeHex(h: string): Option<seq<byte>>
    decreases |h|
  {
    if |h| == 0 then Some([])
    else if |h| == 1 then None
    else match (HexValue(h[0]), HexValue(h[1]), DecodeHex(h[2..]))
      case (Some(hi), Some(lo), Some(rest)) => Some([(hi * 16 + lo) as byte] + rest)
      case _ => None
  }

  /** The rendering loses nothing: decoding it gives the digest back. */
  lemma DecodeDigestHex(digest: seq<byte>)
    ensures DecodeHex(DigestHex(digest)) == Some(digest)
  {
    DigestHexUpper(digest);
    DecodeUpperHexOf(digest);
  }

  lemma {:induction false} DecodeUpperHexOf(d: seq<byte>)
    ensures DecodeHex(UpperHexOf(d)) == Some(d)
  {
    if |d| > 0 {
      DecodeUpperHexOf(d[1..]);
      DecodePair(d[0], UpperHexOf(d[1..]), d[1..]);
      assert [d[0]] + d[1..] == d;
    }
  }

  /** A byte's digit pair in front of a decodable string decodes to that byte in front. */
  lemma DecodePair(b: byte, rest: string, r: seq<byte>)
    requires DecodeHex(rest) == Some(r)
    ensures DecodeHex(UpperHexPair(b) + rest) == Some([b] + r)
  {
    var h := UpperHexPair(b) + rest;
    HexDigitValue(b / 16);
    HexDigitValue(b % 16);
    assert h[0] == UPPER_HEX[b / 16] && h[1] == UPPER_HEX[b % 16] && h[2..] == rest;
  }

  lemma HexDigitValue(v: nat)
    requires v < 16
    ensures HexValue(UPPER_HEX[v]) == Some(v)
  {
  }

  /** The length of the prefix sent to the service. */
  const PREFIX_LENGTH: nat := 5

  /** `hash.substring(0, 5)` and `hash.substring(5)`, which clamp to the string's length. */
  function SplitHash(hash: string): (parts: (string, string))
    ensures parts.0 + parts.1 == hash
    ensures |parts.0| == if |hash| < PREFIX_LENGTH then |hash| else PREFIX_LENGTH
  {
    var cut := if |hash| < PREFIX_LENGTH then |hash| else PREFIX_LENGTH;
    (hash[..cut], hash[cut..])
  }

  /** A 20-byte digest splits into a 5-character prefix and a 35-character suffix. */
  lemma Sha1Split(digest: seq<byte>)
    requires |digest| == 20
    ensures |SplitHash(DigestHex(digest)).0| == 5 && |SplitHash(DigestHex(digest)).1| == 35
  {
    DigestHexFormat(digest);
  }

  /** The request URL: the service's range endpoint followed by the prefix. */
  const RANGE_URL: string := "https://api.pwnedpasswords.com/range/"

  function RequestUrl(digest: seq<byte>): string {
    RANGE_URL + SplitHash(DigestHex(digest)).0
  }

  /**
   k-anonymity: the request carries only the first 5 hex digits of the hash, so two digests whose
   first 5 digits agree send the same request.
   */
  lemma RequestRevealsOnlyPrefix(d1: seq<byte>, d2: seq<byte>)
    requires |d1| == 20 && |d2| == 20
    requires DigestHex(d1)[..PREFIX_LENGTH] == DigestHex(d2)[..PREFIX_LENGTH]
    ensures RequestUrl(d1) == RequestUrl(d2)
    ensures |RequestUrl(d1)| == |RANGE_URL| + 5
  {
    DigestHexFormat(d1);
    DigestHexFormat(d2);
  }

  /** What `fetch` yields: a transport failure, or a response with its `ok` flag and its body text. */
  datatype Response = NetworkFailure | HttpResponse(ok: bool, body: string)

  /** A number as `parseInt` returns it: an integer or `NaN`. */
  datatype ParsedInt = Number(value: int) | NaN

  /** The outcome of a successful check. */
  datatype BreachResult = BreachResult(breached: bool, count: ParsedInt)

  /** `checkHIBP` turns every failure into the one error "Failed to check password against breach database". */
  datatype BreachError = BreachCheckFailed

  predicate IsDecimalDigit(c: char) {
    '0' <= c <= '9'
  }

  /** The leading white space `parseInt` skips (the ASCII part of JavaScript's white space). */
  predicate IsSpace(c: char) {
    c == ' ' || c == '\t' || c == '\n' || c == '\r' || c == '\U{000B}' || c == '\U{000C}'
  }

  /** `s` without its leading white space. */
  function TrimStart(s: string): (t: string)
    ensures |t| <= |s| && t == s[|s| - |t|..]
    ensures forall i :: 0 <= i < |s| - |t| ==> IsSpace(s[i])
    ensures |t| > 0 ==> !IsSpace(t[0])
  {
    if |s| > 0 && IsSpace(s[0]) then TrimStart(s[1..]) else s
  }

  /** The number of decimal digits at the start of `s`. */
  function LeadingDigits(s: string): (n: nat)
    ensures n <= |s|
    ensures forall i :: 0 <= i < n ==> IsDecimalDigit(s[i])
    ensures n < |s| ==> !IsDecimalDigit(s[n])
  {
    if |s| > 0 && IsDecimalDigit(s[0]) then 1 + LeadingDigits(s[1..]) else 0
  }

  /** The value of a string of decimal digits, most significant first. */
  function DigitsValue(ds: string): nat
    requires forall i :: 0 <= i < |ds| ==> IsDecimalDigit(ds[i])
  {
    if |ds| == 0 then 0
    else
      var last := ds[|ds| - 1];
      assert IsDecimalDigit(last);
      10 * DigitsValue(ds[..|ds| - 1]) + (last as int - '0' as int)
  }

  /**
   `parseInt(countStr, 10)` where `None` stands for `undefined`: skip leading white space, read an
   optional sign and the longest run of decimal digits; no digit gives `NaN`.
   */
  function ParseInt(countStr: Option<string>): ParsedInt {
    match countStr
    case None => NaN
    case Some(s) =>
      var t := TrimStart(s);
      var negative := |t| > 0 && t[0] == '-';
      var u := if |t| > 0 && (t[0] == '-' || t[0] == '+') then t[1..] else t;
      var n := LeadingDigits(u);
      if n == 0 then NaN
      else
        var v := DigitsValue(u[..n]);
        Number(if negative then -(v as int) else v)
  }

  /** The decimal rendering of `n`, as the service writes counts. */
  function Decimal(n: nat): (s: string)
    ensures |s| > 0
    ensures forall i :: 0 <= i < |s| ==> IsDecimalDigit(s[i])
  {
    if n < 10 then [('0' as int + n) as char]
    else Decimal(n / 10) + [('0' as int + n % 10) as char]
  }

  lemma {:induction false} DigitsValueDecimal(n: nat)
    ensures DigitsValue(Decimal(n)) == n
  {
    if n >= 10 {
      var s := Decimal(n);
      assert s[..|s| - 1] == Decimal(n / 10);
      DigitsValueDecimal(n / 10);
    }
  }

  /**
   `parseInt` reads back a count written in decimal, also when the line goes on with a character
   that is not a digit (the carriage return of a CRLF line, say).
   */
  lemma ParseIntDecimal(n: nat, rest: string)
    requires |rest| > 0 ==> !IsDecimalDigit(rest[0])
    ensures ParseInt(Some(Decimal(n) + rest)) == Number(n)
  {
    var d := Decimal(n);
    var s := d + rest;
    assert s[0] == d[0];
    LeadingDigitsOf(d, rest);
    assert s[..|d|] == d;
    ParseIntUnsigned(s);
    DigitsValueDecimal(n);
  }

  /** Text that starts with a digit parses as the value of its leading digits. */
  lemma ParseIntUnsigned(s: string)
    requires |s| > 0 && IsDecimalDigit(s[0])
    ensures ParseInt(Some(s)) == Number(DigitsValue(s[..LeadingDigits(s)]))
  {
    assert !IsSpace(s[0]);
    assert TrimStart(s) == s;
    assert s[0] != '-' && s[0] != '+';
    var k := LeadingDigits(s);
    assert k > 0;
  }

  lemma {:induction false} LeadingDigitsOf(ds: string, rest: string)
    requires forall i :: 0 <= i < |ds| ==> IsDecimalDigit(ds[i])
    requires |rest| > 0 ==> !IsDecimalDigit(rest[0])
    ensures LeadingDigits(ds + rest) == |ds|
  {
    if |ds| == 0 {
      assert ds + rest == rest;
    } else {
      assert (ds + rest)[0] == ds[0];
      assert (ds + rest)[1..] == ds[1..] + rest;
      LeadingDigitsOf(ds[1..], rest);
    }
  }

  /** `const [hashSuffix, countStr] = line.split(':')`: the text before the first colon, and the text after it up to the next. */
  function ParseLine(line: string): (string, Option<string>) {
    var parts := Split(line, ':');
    (parts[0], if |parts| > 1 then Some(parts[1]) else None)
  }

  /** The scan of the response lines: the first line whose suffix field is `suffix` decides the result. */
  function ScanLines(lines: seq<string>, suffix: string): BreachResult {
    if |lines| == 0 then BreachResult(false, Number(0))
    else
      var (hashSuffix, countStr) := ParseLine(lines[0]);
      if hashSuffix == suffix then BreachResult(true, ParseInt(countStr))
      else ScanLines(lines[1..], suffix)
  }

  /**
   The scan reports a breach exactly when some line's suffix field equals `suffix`; otherwise it
   reports no breach and a count of 0. Which line decides the count is stated by `ScanLinesAt`.
   */
  lemma {:induction false} ScanLinesBreached(lines: seq<string>, suffix: string)
    ensures ScanLines(lines, suffix).breached <==> exists i :: 0 <= i < |lines| && ParseLine(lines[i]).0 == suffix
    ensures !ScanLines(lines, suffix).breached ==> ScanLines(lines, suffix).count == Number(0)
  {
    if |lines| > 0 && ParseLine(lines[0]).0 != suffix {
      ScanLinesBreached(lines[1..], suffix);
      if exists i :: 0 <= i < |lines| && ParseLine(lines[i]).0 == suffix {
        var i :| 0 <= i < |lines| && ParseLine(lines[i]).0 == suffix;
        assert lines[1..][i - 1] == lines[i];
      }
      if exists i :: 0 <= i < |lines[1..]| && ParseLine(lines[1..][i]).0 == suffix {
        var i :| 0 <= i < |lines[1..]| && ParseLine(lines[1..][i]).0 == suffix;
        assert lines[1..][i] == lines[i + 1];
      }
    }
  }

  /** The first line whose suffix field is `suffix` decides the result. */
  lemma {:induction false} ScanLinesAt(lines: seq<string>, suffix: string, i: nat)
    requires i < |lines| && ParseLine(lines[i]).0 == suffix
    requires forall j :: 0 <= j < i ==> ParseLine(lines[j]).0 != suffix
    ensures ScanLines(lines, suffix) == BreachResult(true, ParseInt(ParseLine(lines[i]).1))
  {
    if i > 0 {
      var rest := lines[1..];
      assert rest[i - 1] == lines[i];
      assert forall j :: 0 <= j < i - 1 ==> rest[j] == lines[j + 1];
      ScanLinesAt(rest, suffix, i - 1);
    }
  }

  /** What `checkHIBP` returns or throws for the digest of the password and the network `fetch`. */
  function CheckHibpResult(digest: seq<byte>, fetch: string -> Response): Result<BreachResult, BreachError> {
    var (prefix, suffix) := SplitHash(DigestHex(digest));
    var response := fetch(RANGE_URL + prefix);
    if !response.HttpResponse? || !response.ok then Failure(BreachCheckFailed)
    else Success(ScanLines(Split(response.body, '\n'), suffix))
  }

  /**
   `checkHIBP`: render and split the digest, query the range of the prefix, fail unless the
   response is ok, then scan its lines for the suffix, returning at the first match.
   */
  method CheckHibp(digest: seq<byte>, fetch: string -> Response) returns (result: Result<BreachResult, BreachError>)
    ensures result == CheckHibpResult(digest, fetch)
    ensures result.Failure? <==> !fetch(RequestUrl(digest)).HttpResponse? || !fetch(RequestUrl(digest)).ok
  {
    var hash := DigestHex(digest);
    var prefix := hash[..if |hash| < PREFIX_LENGTH then |hash| else PREFIX_LENGTH];
    var suffix := hash[|prefix|..];
    var response := fetch(RANGE_URL + prefix);
    if !response.HttpResponse? || !response.ok {
      return Failure(BreachCheckFailed);
    }
    var lines := Split(response.body, '\n');
    var i := 0;
    while i < |lines|
      invariant 0 <= i <= |lines|
      invariant ScanLines(lines[i..], suffix) == ScanLines(lines, suffix)
    {
      var (hashSuffix, countStr) := ParseLine(lines[i]);
      if hashSuffix == suffix {
        return Success(BreachResult(true, ParseInt(countStr)));
      }
      assert lines[i..][1..] == lines[i + 1..];
      i := i + 1;
    }
    return Success(BreachResult(false, Number(0)));
  }

  /** A response that is not ok, or no response at all, is an error and never a "not breached" result. */
  lemma FailedResponseIsError(digest: seq<byte>, fetch: string -> Response)
    requires !fetch(RequestUrl(digest)).HttpResponse? || !fetch(RequestUrl(digest)).ok
    ensures CheckHibpResult(digest, fetch) == Failure(BreachCheckFailed)
  {
  }

  /**
   An ok response whose body has the line `SUFFIX:COUNT` for the password's suffix, preceded only
   by lines for other suffixes and followed by any lines, reports a breach with that count.
   */
  lemma BreachedWithCount(digest: seq<byte>, fetch: string -> Response, before: seq<string>, count: nat, after: string, later: seq<string>)
    requires fetch(RequestUrl(digest)) ==
      HttpResponse(true, Join(before + [SplitHash(DigestHex(digest)).1 + ":" + Decimal(count) + after] + later, '\n'))
    requires forall j :: 0 <= j < |before| ==> '\n' !in before[j] && ParseLine(before[j]).0 != SplitHash(DigestHex(digest)).1
    requires forall j :: 0 <= j < |later| ==> '\n' !in later[j]
    requires '\n' !in after && ':' !in after && (|after| > 0 ==> !IsDecimalDigit(after[0]))
    ensures CheckHibpResult(digest, fetch) == Success(BreachResult(true, Number(count)))
  {
    var suffix := SplitHash(DigestHex(digest)).1;
    var body := Join(before + [suffix + ":" + Decimal(count) + after] + later, '\n');
    HexHasNoSeparators(digest);
    CountLineScanned(suffix, count, after, before, later);
    OkResponseScanned(digest, fetch, body);
  }

  /** A body whose first line for `suffix` is `SUFFIX:COUNT` scans to a breach with that count. */
  lemma CountLineScanned(suffix: string, count: nat, after: string, before: seq<string>, later: seq<string>)
    requires ':' !in suffix && '\n' !in suffix
    requires '\n' !in after && ':' !in after && (|after| > 0 ==> !IsDecimalDigit(after[0]))
    requires forall j :: 0 <= j < |before| ==> '\n' !in before[j] && ParseLine(before[j]).0 != suffix
    requires forall j :: 0 <= j < |later| ==> '\n' !in later[j]
    ensures ScanLines(Split(Join(before + [suffix + ":" + Decimal(count) + after] + later, '\n'), '\n'), suffix) ==
      BreachResult(true, Number(count))
  {
    var line := suffix + ":" + Decimal(count) + after;
    CountLine(suffix, count, after);
    ScanBody(before, line, later, suffix);
    ParseIntDecimal(count, after);
  }

  /** An ok response is answered by scanning the lines of its body for the suffix. */
  lemma OkResponseScanned(digest: seq<byte>, fetch: string -> Response, body: string)
    requires fetch(RequestUrl(digest)) == HttpResponse(true, body)
    ensures CheckHibpResult(digest, fetch) == Success(ScanLines(Split(body, '\n'), SplitHash(DigestHex(digest)).1))
  {
  }

  /** Splitting a body of separator-free lines and scanning it stops at the first line for `suffix`. */
  lemma ScanBody(before: seq<string>, line: string, later: seq<string>, suffix: string)
    requires forall j :: 0 <= j < |before| ==> '\n' !in before[j] && ParseLine(before[j]).0 != suffix
    requires '\n' !in line && ParseLine(line).0 == suffix
    requires forall j :: 0 <= j < |later| ==> '\n' !in later[j]
    ensures ScanLines(Split(Join(before + [line] + later, '\n'), '\n'), suffix) == BreachResult(true, ParseInt(ParseLine(line).1))
  {
    var lines := before + [line] + later;
    forall j | 0 <= j < |lines|
      ensures '\n' !in lines[j]
    {
      if j < |before| {
        assert lines[j] == before[j];
      } else if j > |before| {
        assert lines[j] == later[j - |before| - 1];
      }
    }
    SplitJoin(lines, '\n');
    assert lines[|before|] == line;
    assert forall j :: 0 <= j < |before| ==> lines[j] == before[j];
    ScanLinesAt(lines, suffix, |before|);
  }

  /** Neither separator of the response occurs in the hex suffix. */
  lemma HexHasNoSeparators(digest: seq<byte>)
    ensures ':' !in SplitHash(DigestHex(digest)).1 && '\n' !in SplitHash(DigestHex(digest)).1
  {
    DigestHexFormat(digest);
    var h := DigestHex(digest);
    var suffix := SplitHash(h).1;
    forall j | 0 <= j < |suffix|
      ensures IsUpperHexDigit(suffix[j])
    {
      assert suffix[j] == h[j + |h| - |suffix|];
    }
  }

  /** A line `SUFFIX:COUNT` followed by a non-digit tail parses into the suffix and the count text. */
  lemma CountLine(suffix: string, count: nat, after: string)
    requires ':' !in suffix && '\n' !in suffix
    requires '\n' !in after && ':' !in after
    ensures '\n' !in suffix + ":" + Decimal(count) + after
    ensures ParseLine(suffix + ":" + Decimal(count) + after) == (suffix, Some(Decimal(count) + after))
  {
    var dc := Decimal(count) + after;
    assert ':' !in dc && '\n' !in dc;
    assert Join([suffix, dc], ':') == suffix + ":" + Decimal(count) + after;
    SplitJoin([suffix, dc], ':');
  }
}
