/** Form validators of KarinPulse: the Chilean RUT checker and formatter,
    the e-mail shape check and the password-strength rules. */
module Validators {

  // ---------------------------------------------------------------------------
  // Character classes
  // ---------------------------------------------------------------------------

  /** The characters matched by `\s` in a JavaScript regular expression:
      the WhiteSpace and LineTerminator code points of ECMAScript. */
  predicate IsWhitespace(c: char) {
    c == ' ' || c == '\t' || c == '\n' || c == '\U{B}' || c == '\U{C}' || c == '\r'
    || c == '\U{A0}' || c == '\U{1680}' || ('\U{2000}' <= c <= '\U{200A}')
    || c == '\U{2028}' || c == '\U{2029}' || c == '\U{202F}' || c == '\U{205F}'
    || c == '\U{3000}' || c == '\U{FEFF}'
  }

  /** `\d`: an ASCII decimal digit. */
  predicate IsDigit(c: char) { '0' <= c <= '9' }

  predicate IsLower(c: char) { 'a' <= c <= 'z' }

  predicate IsUpper(c: char) { 'A' <= c <= 'Z' }

  /** `\w`: the characters on the word side of a `\b` / `\B` boundary. */
  predicate IsWordChar(c: char) { IsLower(c) || IsUpper(c) || IsDigit(c) || c == '_' }

  /** The class `[.\s-]` removed when a RUT is cleaned. */
  predicate IsSeparator(c: char) { c == '.' || c == '-' || IsWhitespace(c) }

  /** `toUpperCase` on one character, restricted to ASCII letters. */
  function ToUpper(c: char): (u: char)
    ensures !IsLower(u)
    ensures IsLower(c) ==> IsUpper(u) && u as int == c as int - 32
    ensures !IsLower(c) ==> u == c
  {
    if IsLower(c) then (c as int - 32) as char else c
  }

  function DigitValue(c: char): (v: nat)
    requires IsDigit(c)
    ensures v < 10
  {
    c as int - '0' as int
  }

  function DigitChar(d: nat): (c: char)
    requires d < 10
    ensures IsDigit(c) && DigitValue(c) == d
  {
    ('0' as int + d) as char
  }

  /** `/^\d+$/.test(s)`: a non-empty run of decimal digits. */
  predicate IsDigitString(s: string) {
    |s| > 0 && forall k | 0 <= k < |s| :: IsDigit(s[k])
  }

  /** `.length` of a JavaScript string: UTF-16 code units, so a character above
      U+FFFF (a surrogate pair) counts twice. */
  function Utf16Length(s: string): (n: nat)
    ensures |s| <= n <= 2 * |s|
    ensures (forall k | 0 <= k < |s| :: s[k] as int <= 0xFFFF) ==> n == |s|
  {
    if s == [] then 0 else (if s[0] as int > 0xFFFF then 2 else 1) + Utf16Length(s[1..])
  }

  lemma {:induction false} Utf16Append(a: string, b: string)
    ensures Utf16Length(a + b) == Utf16Length(a) + Utf16Length(b)
  {
    if a == [] {
      assert a + b == b;
    } else {
      assert (a + b)[0] == a[0];
      assert (a + b)[1..] == a[1..] + b;
      Utf16Append(a[1..], b);
    }
  }

  // ---------------------------------------------------------------------------
  // RUT normalisation
  // ---------------------------------------------------------------------------

  /** A string that cleaning leaves alone: no separator and no lower-case letter. */
  predicate IsClean(s: string) {
    forall k | 0 <= k < |s| :: !IsSeparator(s[k]) && !IsLower(s[k])
  }

  /** `rut.replace(/[.\s-]/g, '').toUpperCase()`. */
  function Clean(s: string): (r: string)
    ensures |r| <= |s|
    ensures IsClean(r)
  {
    if s == [] then []
    else (if IsSeparator(s[0]) then [] else [ToUpper(s[0])]) + Clean(s[1..])
  }

  lemma {:induction false} CleanAppend(a: string, b: string)
    ensures Clean(a + b) == Clean(a) + Clean(b)
  {
    if a == [] {
      assert a + b == b;
    } else {
      assert (a + b)[0] == a[0];
      assert (a + b)[1..] == a[1..] + b;
      CleanAppend(a[1..], b);
    }
  }

  lemma CleanOne(c: char)
    ensures Clean([c]) == if IsSeparator(c) then [] else [ToUpper(c)]
  {
    assert [c][1..] == [];
  }

  /** Cleaning works character by character, anywhere in the input: a separator
      is dropped and any other character is kept, upper-cased, between the
      cleaned text before it and the cleaned text after it. */
  lemma CleanKeepsOthers(a: string, c: char, b: string)
    ensures Clean(a + [c] + b) == Clean(a) + (if IsSeparator(c) then [] else [ToUpper(c)]) + Clean(b)
  {
    CleanAppend(a + [c], b);
    CleanAppend(a, [c]);
    CleanOne(c);
  }

  /** A clean string is a fixed point of cleaning. */
  lemma {:induction false} CleanFixesClean(s: string)
    requires IsClean(s)
    ensures Clean(s) == s
  {
    if s != [] {
      CleanFixesClean(s[1..]);
    }
  }

  /** Cleaning is idempotent. */
  lemma CleanIdempotent(s: string)
    ensures Clean(Clean(s)) == Clean(s)
  {
    CleanFixesClean(Clean(s));
  }

  /** Two inputs that differ only in the case of ASCII letters clean to the same string. */
  lemma {:induction false} CleanIgnoresCase(a: string, b: string)
    requires |a| == |b|
    requires forall k | 0 <= k < |a| :: ToUpper(a[k]) == ToUpper(b[k])
    ensures Clean(a) == Clean(b)
  {
    if a != [] {
      assert IsSeparator(a[0]) <==> IsSeparator(b[0]);
      CleanIgnoresCase(a[1..], b[1..]);
    }
  }

  // ---------------------------------------------------------------------------
  // Thousands separators: `s.replace(/\B(?=(\d{3})+(?!\d))/g, '.')`
  // ---------------------------------------------------------------------------

  /** Length of the run of decimal digits that starts at position p. */
  function DigitRun(s: string, p: nat): (n: nat)
    requires p <= |s|
    ensures p + n <= |s|
    decreases |s| - p
  {
    if p < |s| && IsDigit(s[p]) then 1 + DigitRun(s, p + 1) else 0
  }

  /** The run of digits from p has no digit right after it. */
  lemma {:induction false} DigitRunEnds(s: string, p: nat)
    requires p <= |s|
    ensures forall q | p <= q < p + DigitRun(s, p) :: IsDigit(s[q])
    ensures p + DigitRun(s, p) == |s| || !IsDigit(s[p + DigitRun(s, p)])
    decreases |s| - p
  {
    if p < |s| && IsDigit(s[p]) {
      DigitRunEnds(s, p + 1);
    }
  }

  /** `\B` in front of s[p]: both neighbours lie on the same side of a word
      boundary, the start of the string counting as a non-word neighbour. */
  predicate NotAtBoundary(s: string, p: nat)
    requires p < |s|
  {
    (p > 0 && IsWordChar(s[p - 1])) == IsWordChar(s[p])
  }

  /** `(?=(\d{3})+(?!\d))` at p: some positive number of groups of three digits
      starts at p and is not followed by a further digit. */
  predicate GroupsAhead(s: string, p: nat)
    requires p <= |s|
  {
    exists k: nat | 1 <= k <= |s| && p + 3 * k <= |s| :: DigitsThenNoDigit(s, p, 3 * k)
  }

  /** s[p..p + len] are digits and no digit follows them. */
  predicate DigitsThenNoDigit(s: string, p: nat, len: nat)
    requires p + len <= |s|
  {
    (forall q | p <= q < p + len :: IsDigit(s[q]))
    && (p + len == |s| || !IsDigit(s[p + len]))
  }

  /** The look-ahead holds exactly when the digit run from p is a positive
      multiple of three long. */
  lemma GroupsAheadIsRun(s: string, p: nat)
    requires p <= |s|
    ensures GroupsAhead(s, p) <==> DigitRun(s, p) > 0 && DigitRun(s, p) % 3 == 0
  {
    var r := DigitRun(s, p);
    DigitRunEnds(s, p);
    if GroupsAhead(s, p) {
      var k: nat :| 1 <= k <= |s| && p + 3 * k <= |s| && DigitsThenNoDigit(s, p, 3 * k);
      assert p + 3 * k < |s| ==> !IsDigit(s[p + 3 * k]);
      assert p + r < |s| ==> !IsDigit(s[p + r]);
      assert r == 3 * k;
    }
    if r > 0 && r % 3 == 0 {
      var k: nat := r / 3;
      assert p + 3 * k == p + r && DigitsThenNoDigit(s, p, 3 * k);
    }
  }

  /** The pattern `\B(?=(\d{3})+(?!\d))` matches the empty string in front of
      s[p]. The look-ahead needs a digit, so the end of the string never matches. */
  predicate DotBefore(s: string, p: nat)
    requires p < |s|
  {
    NotAtBoundary(s, p) && GroupsAhead(s, p)
  }

  /** The first k characters of s with a '.' inserted wherever the pattern matches. */
  function DottedPrefix(s: string, k: nat): string
    requires k <= |s|
  {
    if k == 0 then []
    else DottedPrefix(s, k - 1) + (if DotBefore(s, k - 1) then "." else "") + [s[k - 1]]
  }

  function InsertDots(s: string): string {
    DottedPrefix(s, |s|)
  }

  /** The display form `${number-with-dots}-${dv}` shared by both formatters. */
  function Display(body: string, dv: char): string {
    InsertDots(body) + "-" + [dv]
  }

  /** Reference grouping of a digit string: a '.' before every third digit, counted
      from the right. */
  function Group(d: string): (r: string)
    decreases |d|
  {
    if |d| <= 3 then d else Group(d[..|d| - 3]) + "." + d[|d| - 3..]
  }

  /** The inserted text, a '.' or nothing, is dropped by cleaning. */
  lemma CleanSkipsDot(prev: string, dot: string, c: char)
    requires dot == "." || dot == ""
    ensures Clean(prev + dot + [c]) == Clean(prev) + Clean([c])
  {
    CleanAppend(prev + dot, [c]);
    CleanAppend(prev, dot);
    if dot == "." {
      CleanOne('.');
    }
  }

  lemma {:induction false} CleanDottedPrefix(s: string, k: nat)
    requires k <= |s|
    ensures Clean(DottedPrefix(s, k)) == Clean(s[..k])
  {
    if k > 0 {
      CleanDottedPrefix(s, k - 1);
      var dot := if DotBefore(s, k - 1) then "." else "";
      CleanSkipsDot(DottedPrefix(s, k - 1), dot, s[k - 1]);
      assert s[..k] == s[..k - 1] + [s[k - 1]];
      CleanAppend(s[..k - 1], [s[k - 1]]);
    }
  }

  /** Inserting the thousands separators is undone by cleaning. */
  lemma CleanInsertDots(s: string)
    ensures Clean(InsertDots(s)) == Clean(s)
  {
    CleanDottedPrefix(s, |s|);
    assert s[..|s|] == s;
  }

  lemma {:induction false} DigitRunOfDigits(s: string, p: nat)
    requires IsDigitString(s) && p <= |s|
    ensures DigitRun(s, p) == |s| - p
    decreases |s| - p
  {
    if p < |s| {
      DigitRunOfDigits(s, p + 1);
    }
  }

  /** On a digit string the pattern matches exactly in front of the positions
      0 < p whose distance to the end is a multiple of three. */
  lemma DotBeforeDigits(s: string, p: nat)
    requires IsDigitString(s) && p < |s|
    ensures DotBefore(s, p) <==> 0 < p && (|s| - p) % 3 == 0
  {
    DigitRunOfDigits(s, p);
    GroupsAheadIsRun(s, p);
  }

  lemma {:induction false} DottedPrefixAgree(s: string, t: string, k: nat)
    requires k <= |s| && k <= |t|
    requires forall p | 0 <= p < k :: s[p] == t[p] && DotBefore(s, p) == DotBefore(t, p)
    ensures DottedPrefix(s, k) == DottedPrefix(t, k)
  {
    if k > 0 {
      DottedPrefixAgree(s, t, k - 1);
    }
  }

  lemma {:induction false} DottedPrefixNoDots(s: string, k: nat)
    requires k <= |s|
    requires forall p | 0 <= p < k :: !DotBefore(s, p)
    ensures DottedPrefix(s, k) == s[..k]
  {
    if k > 0 {
      DottedPrefixNoDots(s, k - 1);
      assert s[..k] == s[..k - 1] + [s[k - 1]];
    }
  }

  /** One step of the replacement where a '.' goes in front of s[k]. */
  lemma DottedWithDot(s: string, k: nat)
    requires k < |s| && DotBefore(s, k)
    ensures DottedPrefix(s, k + 1) == DottedPrefix(s, k) + "." + [s[k]]
  {
  }

  /** One step of the replacement where s[k] is copied alone. */
  lemma DottedWithoutDot(s: string, k: nat)
    requires k < |s| && !DotBefore(s, k)
    ensures DottedPrefix(s, k + 1) == DottedPrefix(s, k) + [s[k]]
  {
    assert DottedPrefix(s, k) + "" == DottedPrefix(s, k);
  }

  /** In a digit string longer than three, a '.' goes before the third digit from
      the right and none before the last two. */
  lemma LastGroupDots(d: string)
    requires IsDigitString(d) && |d| > 3
    ensures DotBefore(d, |d| - 3) && !DotBefore(d, |d| - 2) && !DotBefore(d, |d| - 1)
  {
    var n := |d|;
    DotBeforeDigits(d, n - 3);
    DotBeforeDigits(d, n - 2);
    DotBeforeDigits(d, n - 1);
  }

  /** The last three digits of a digit string longer than three form its last group. */
  lemma DottedLastGroup(d: string)
    requires IsDigitString(d) && |d| > 3
    ensures InsertDots(d) == DottedPrefix(d, |d| - 3) + "." + d[|d| - 3..]
  {
    var n := |d|;
    LastGroupDots(d);
    DottedWithDot(d, n - 3);
    DottedWithoutDot(d, n - 2);
    DottedWithoutDot(d, n - 1);
    var front := DottedPrefix(d, n - 3);
    assert d[n - 3..] == [d[n - 3]] + [d[n - 2]] + [d[n - 1]];
    assert front + "." + [d[n - 3]] + [d[n - 2]] + [d[n - 1]]
        == front + "." + ([d[n - 3]] + [d[n - 2]] + [d[n - 1]]);
  }

  /** Before the last group, a digit string and its front agree on where dots go. */
  lemma DotBeforeFront(d: string, p: nat)
    requires IsDigitString(d) && p + 3 < |d|
    ensures DotBefore(d, p) == DotBefore(d[..|d| - 3], p)
  {
    var n := |d|;
    var front := d[..n - 3];
    assert IsDigitString(front);
    DotBeforeDigits(d, p);
    DotBeforeDigits(front, p);
    assert (n - p) % 3 == (n - 3 - p) % 3 by {
      assert n - p == (n - 3 - p) + 3;
    }
  }

  /** Dropping the last three digits does not move any earlier separator. */
  lemma DottedFront(d: string)
    requires IsDigitString(d) && |d| > 3
    ensures DottedPrefix(d, |d| - 3) == InsertDots(d[..|d| - 3])
  {
    var n := |d|;
    var front := d[..n - 3];
    forall p | 0 <= p < n - 3 ensures d[p] == front[p] && DotBefore(d, p) == DotBefore(front, p) {
      DotBeforeFront(d, p);
    }
    DottedPrefixAgree(d, front, n - 3);
  }

  /** A digit string of at most three characters gets no separator. */
  lemma DottedShort(d: string)
    requires IsDigitString(d) && |d| <= 3
    ensures InsertDots(d) == d
  {
    forall p | 0 <= p < |d| ensures !DotBefore(d, p) {
      DotBeforeDigits(d, p);
    }
    DottedPrefixNoDots(d, |d|);
    assert d[..|d|] == d;
  }

  /** On digit strings the regular-expression replacement agrees with the reference
      grouping, e.g. "12345678" becomes "12.345.678". */
  lemma {:induction false} InsertDotsGroups(d: string)
    requires IsDigitString(d)
    ensures InsertDots(d) == Group(d)
    decreases |d|
  {
    if |d| <= 3 {
      DottedShort(d);
    } else {
      DottedLastGroup(d);
      DottedFront(d);
      InsertDotsGroups(d[..|d| - 3]);
    }
  }

  // ---------------------------------------------------------------------------
  // RUT check character (modulo 11)
  // ---------------------------------------------------------------------------

  /** The multiplier applied to the digit j places from the right: 2, 3, ..., 7, 2, ... */
  function Weight(j: nat): (w: nat)
    ensures 2 <= w <= 7
  {
    2 + j % 6
  }

  /** Weighted sum of the digits body[i..], each multiplied by the weight of its
      distance from the right end of body. */
  function SuffixSum(body: string, i: nat): nat
    requires IsDigitString(body) && i <= |body|
    decreases |body| - i
  {
    if i == |body| then 0
    else DigitValue(body[i]) * Weight(|body| - 1 - i) + SuffixSum(body, i + 1)
  }

  function WeightedSum(body: string): nat
    requires IsDigitString(body)
  {
    SuffixSum(body, 0)
  }

  /** Lines 50-55: `calculatedDV` is computed first and then overridden for the
      remainders 0 and 1. The sum is never negative, so `%` agrees with JavaScript. */
  function ExpectedCheckChar(sum: nat): char {
    var remainder := sum % 11;
    var calculated := if remainder < 2 then DigitChar(remainder) else DigitChar(11 - remainder);
    if remainder == 0 then '0' else if remainder == 1 then 'K' else calculated
  }

  /** The characters a RUT check position can hold. */
  predicate IsCheckChar(c: char) { IsDigit(c) || c == 'K' }

  /** The value a check character stands for: 'K' is ten. */
  function CheckValue(c: char): (v: nat)
    requires IsCheckChar(c)
    ensures v <= 10
  {
    if c == 'K' then 10 else DigitValue(c)
  }

  /** The expected check character is the one that brings the weighted sum to a
      multiple of eleven, and no other character does. */
  lemma CheckCharMod11(sum: nat, c: char)
    ensures IsCheckChar(ExpectedCheckChar(sum))
    ensures c == ExpectedCheckChar(sum) <==> IsCheckChar(c) && (sum + CheckValue(c)) % 11 == 0
  {
    var r := sum % 11;
    assert sum == 11 * (sum / 11) + r;
    if IsCheckChar(c) {
      var v := CheckValue(c);
      assert (sum + v) % 11 == (r + v) % 11 by {
        assert sum + v == 11 * (sum / 11) + (r + v);
      }
      if c != 'K' {
        assert c == DigitChar(v);
      }
    }
  }

  // ---------------------------------------------------------------------------
  // validateRUT
  // ---------------------------------------------------------------------------

  datatype RutResult = RutResult(isValid: bool, formatted: string, clean: string)

  /** What `validateRUT` returns for the raw input `rut`. */
  function RutOutcome(rut: string): RutResult {
    var clean := Clean(rut);
    if |clean| < 8 || |clean| > 9 then RutResult(false, rut, clean)
    else
      var body := clean[..|clean| - 1];
      var dv := clean[|clean| - 1];
      if !IsDigitString(body) then RutResult(false, rut, clean)
      else
        var isValid := dv == ExpectedCheckChar(WeightedSum(body));
        RutResult(isValid, if isValid then Display(body, dv) else rut, clean)
  }

  /** `validateRUT`: clean, reject on length, reject a non-digit body, then add up
      the weighted digits from the right in a loop and compare check characters. */
  method ValidateRut(rut: string) returns (res: RutResult)
    ensures res == RutOutcome(rut)
  {
    var clean := Clean(rut);
    if |clean| < 8 || |clean| > 9 {
      return RutResult(false, rut, clean);
    }
    var rutNumber := clean[..|clean| - 1];
    var dv := clean[|clean| - 1];
    if !IsDigitString(rutNumber) {
      return RutResult(false, rut, clean);
    }
    var n := |rutNumber|;
    var sum := 0;
    var multiplier := 2;
    var i := n - 1;
    while i >= 0
      invariant -1 <= i < n
      invariant sum == SuffixSum(rutNumber, i + 1)
      invariant multiplier == Weight(n - 1 - i)
      decreases i
    {
      sum := sum + DigitValue(rutNumber[i]) * multiplier;
      multiplier := if multiplier == 7 then 2 else multiplier + 1;
      i := i - 1;
    }
    var expectedDV := ExpectedCheckChar(sum);
    var isValid := dv == expectedDV;
    var formatted := if isValid then Display(rutNumber, dv) else rut;
    return RutResult(isValid, formatted, clean);
  }

  /** `clean` is returned on every path, is the cleaned input and is itself clean. */
  lemma RutClean(rut: string)
    ensures RutOutcome(rut).clean == Clean(rut)
    ensures Clean(RutOutcome(rut).clean) == RutOutcome(rut).clean
  {
    CleanIdempotent(rut);
  }

  /** A cleaned length outside 8..9 is rejected and the raw input is echoed. */
  lemma RutRejectsLength(rut: string)
    requires |Clean(rut)| < 8 || |Clean(rut)| > 9
    ensures !RutOutcome(rut).isValid && RutOutcome(rut).formatted == rut
  {
  }

  /** A body with a character other than a decimal digit is rejected and the raw
      input is echoed. */
  lemma RutRejectsNonDigitBody(rut: string, k: nat)
    requires 8 <= |Clean(rut)| <= 9
    requires k < |Clean(rut)| - 1 && !IsDigit(Clean(rut)[k])
    ensures !RutOutcome(rut).isValid && RutOutcome(rut).formatted == rut
  {
    assert !IsDigit(Clean(rut)[..|Clean(rut)| - 1][k]);
  }

  /** A cleaned input holding a character above U+FFFF is rejected and the raw input
      echoed: such a character is neither a digit nor `K`. */
  lemma RutRejectsAstral(rut: string, k: nat)
    requires k < |Clean(rut)| && Clean(rut)[k] as int > 0xFFFF
    ensures !RutOutcome(rut).isValid && RutOutcome(rut).formatted == rut
  {
    var c := Clean(rut);
    if 8 <= |c| <= 9 {
      if k < |c| - 1 {
        RutRejectsNonDigitBody(rut, k);
      } else if IsDigitString(c[..|c| - 1]) {
        CheckCharMod11(WeightedSum(c[..|c| - 1]), c[k]);
      }
    }
  }

  /** Line 19 measures `clean.length` in UTF-16 units while RutOutcome counts
      characters. Every input whose UTF-16 length fails the gate is rejected with the
      raw input echoed all the same; the counts differ only on inputs that
      RutRejectsAstral rejects as well, so the two gates lead to the same outcome. */
  lemma RutRejectsUtf16Length(rut: string)
    requires Utf16Length(Clean(rut)) < 8 || Utf16Length(Clean(rut)) > 9
    ensures !RutOutcome(rut).isValid && RutOutcome(rut).formatted == rut
  {
    var c := Clean(rut);
    if exists k | 0 <= k < |c| :: c[k] as int > 0xFFFF {
      var k :| 0 <= k < |c| && c[k] as int > 0xFFFF;
      RutRejectsAstral(rut, k);
    } else {
      RutRejectsLength(rut);
    }
  }

  /** The validity rule: the cleaned input has length 8 or 9, its body is all digits,
      and its last character is a check character that brings the weighted sum of the
      body to a multiple of eleven. */
  lemma RutValidIff(rut: string)
    ensures RutOutcome(rut).isValid <==>
      var c := Clean(rut);
      8 <= |c| <= 9 && IsDigitString(c[..|c| - 1]) && IsCheckChar(c[|c| - 1])
      && (WeightedSum(c[..|c| - 1]) + CheckValue(c[|c| - 1])) % 11 == 0
  {
    var c := Clean(rut);
    if 8 <= |c| <= 9 && IsDigitString(c[..|c| - 1]) {
      CheckCharMod11(WeightedSum(c[..|c| - 1]), c[|c| - 1]);
    }
  }

  /** A valid RUT is displayed as its body grouped by dots every three digits from
      the right, a hyphen and the check character. */
  lemma RutFormattedShape(rut: string)
    requires RutOutcome(rut).isValid
    ensures var c := Clean(rut);
      RutOutcome(rut).formatted == Group(c[..|c| - 1]) + "-" + [c[|c| - 1]]
  {
    var c := Clean(rut);
    InsertDotsGroups(c[..|c| - 1]);
  }

  lemma CleanDisplay(body: string, dv: char)
    requires IsClean(body + [dv])
    ensures Clean(Display(body, dv)) == body + [dv]
  {
    CleanInsertDots(body);
    CleanAppend(InsertDots(body) + "-", [dv]);
    CleanAppend(InsertDots(body), "-");
    CleanFixesClean(body + [dv]);
    CleanAppend(body, [dv]);
  }

  /** Cleaning the display form of a valid RUT gives back its clean form. */
  lemma RutFormattedRoundTrip(rut: string)
    requires RutOutcome(rut).isValid
    ensures Clean(RutOutcome(rut).formatted) == RutOutcome(rut).clean
  {
    var c := Clean(rut);
    assert FormatRut(rut) == Display(c[..|c| - 1], c[|c| - 1]);
    CleanDisplayOfClean(c);
  }

  /** Inputs with the same clean form get the same verdict and the same clean
      form; a valid one also gets the same display form. */
  lemma RutDependsOnClean(a: string, b: string)
    requires Clean(a) == Clean(b)
    ensures RutOutcome(a).isValid == RutOutcome(b).isValid
    ensures RutOutcome(a).clean == RutOutcome(b).clean
    ensures RutOutcome(a).isValid ==> RutOutcome(a).formatted == RutOutcome(b).formatted
  {
  }

  /** Upper and lower case are not told apart. */
  lemma RutIgnoresCase(a: string, b: string)
    requires |a| == |b|
    requires forall k | 0 <= k < |a| :: ToUpper(a[k]) == ToUpper(b[k])
    ensures RutOutcome(a).isValid == RutOutcome(b).isValid
    ensures RutOutcome(a).clean == RutOutcome(b).clean
  {
    CleanIgnoresCase(a, b);
  }

  /** Cleaning a digit string leaves it alone. */
  lemma CleanDigits(s: string)
    requires IsDigitString(s)
    ensures Clean(s) == s
  {
    CleanFixesClean(s);
  }

  lemma CleanDropSep(a: string, sep: char, b: string)
    requires IsSeparator(sep)
    ensures Clean(a + [sep] + b) == Clean(a) + Clean(b)
  {
    CleanAppend(a + [sep], b);
    CleanAppend(a, [sep]);
  }

  lemma WeightedSumDigits(b: string)
    requires b == "12345678"
    ensures IsDigitString(b) && WeightedSum(b) == 138
  {
    assert SuffixSum(b, 8) == 0;
    assert SuffixSum(b, 7) == 16;
    assert SuffixSum(b, 6) == 37;
    assert SuffixSum(b, 5) == 61;
    assert SuffixSum(b, 4) == 86;
    assert SuffixSum(b, 3) == 110;
    assert SuffixSum(b, 2) == 131;
    assert SuffixSum(b, 1) == 135;
  }

  lemma WeightedSumOnes(b: string)
    requires b == "11111111"
    ensures IsDigitString(b) && WeightedSum(b) == 32
  {
    assert SuffixSum(b, 8) == 0;
    assert SuffixSum(b, 7) == 2;
    assert SuffixSum(b, 6) == 5;
    assert SuffixSum(b, 5) == 9;
    assert SuffixSum(b, 4) == 14;
    assert SuffixSum(b, 3) == 20;
    assert SuffixSum(b, 2) == 27;
    assert SuffixSum(b, 1) == 29;
  }

  /** Eight digits group as 2, 3 and 3. */
  lemma GroupEight(d: string)
    requires |d| == 8
    ensures Group(d) == d[..2] + "." + d[2..5] + "." + d[5..]
  {
    var front := d[..5];
    assert front[..2] == d[..2] && front[2..] == d[2..5];
    assert Group(front) == d[..2] + "." + d[2..5];
  }

  lemma GroupNine(d: string)
    requires d == "123456789"
    ensures Group(d) == "123.456.789"
  {
    var front := d[..6];
    assert front == "123456" && d[6..] == "789";
    assert front[..3] == "123" && front[3..] == "456";
    assert Group(front) == "123.456";
  }

  /** The body 12345678 has check character 5 and display form 12.345.678. (The
      literal is passed as a parameter so that the solver does not unfold every
      function applied to it.) */
  lemma Body12345678(body: string)
    requires body == "12345678"
    ensures IsDigitString(body) && ExpectedCheckChar(WeightedSum(body)) == '5'
    ensures InsertDots(body) == "12.345.678"
  {
    WeightedSumDigits(body);
    assert ExpectedCheckChar(138) == '5';
    assert InsertDots(body) == "12.345.678" by {
      InsertDotsGroups(body);
      GroupEight(body);
      assert body[..2] == "12" && body[2..5] == "345" && body[5..] == "678";
    }
  }

  /** The body 11111111 has check character 1 and display form 11.111.111. */
  lemma Body11111111(body: string)
    requires body == "11111111"
    ensures IsDigitString(body) && ExpectedCheckChar(WeightedSum(body)) == '1'
    ensures InsertDots(body) == "11.111.111"
  {
    WeightedSumOnes(body);
    assert ExpectedCheckChar(32) == '1';
    assert InsertDots(body) == "11.111.111" by {
      InsertDotsGroups(body);
      GroupEight(body);
      assert body[..2] == "11" && body[2..5] == "111" && body[5..] == "111";
    }
  }

  /** RutOutcome of an input whose clean form is a digit body of length 7 or 8
      followed by one more character. */
  lemma RutOutcomeOfParts(rut: string, body: string, dv: char)
    requires Clean(rut) == body + [dv] && 7 <= |body| <= 8 && IsDigitString(body)
    ensures RutOutcome(rut).clean == body + [dv]
    ensures RutOutcome(rut).isValid == (dv == ExpectedCheckChar(WeightedSum(body)))
    ensures RutOutcome(rut).formatted
         == if dv == ExpectedCheckChar(WeightedSum(body)) then Display(body, dv) else rut
  {
    assert (body + [dv])[..|body|] == body;
  }

  /** Cleaning `body-dv` for a digit body and a check character that is no separator. */
  lemma CleanDashed(rut: string, body: string, dv: char)
    requires IsDigitString(body) && !IsSeparator(dv) && rut == body + ['-'] + [dv]
    ensures Clean(rut) == body + [ToUpper(dv)]
  {
    CleanDropSep(body, '-', [dv]);
    CleanDigits(body);
    CleanOne(dv);
  }

  /** Cleaning 12345678 followed by a dash and any check character. */
  lemma Clean12345678(rut: string, dv: char)
    requires !IsSeparator(dv) && rut == "12345678-" + [dv]
    ensures Clean(rut) == "12345678" + [ToUpper(dv)]
  {
    assert rut == "12345678" + ['-'] + [dv];
    CleanDashed(rut, "12345678", dv);
  }

  /** The display form of 12345678 with any check character. */
  lemma Display12345678(body: string, dv: char, shown: string)
    requires body == "12345678" && shown == "12.345.678-" + [dv]
    ensures Display(body, dv) == shown
  {
    Body12345678(body);
  }

  /** validateRUT on 12345678 with any check character: only 5 passes. */
  lemma Rut12345678(rut: string, dv: char)
    requires !IsSeparator(dv) && rut == "12345678-" + [dv]
    ensures RutOutcome(rut).clean == "12345678" + [ToUpper(dv)]
    ensures RutOutcome(rut).isValid <==> ToUpper(dv) == '5'
    ensures RutOutcome(rut).formatted == if ToUpper(dv) == '5' then "12.345.678-5" else rut
  {
    var body := "12345678";
    Clean12345678(rut, dv);
    Body12345678(body);
    RutOutcomeOfParts(rut, body, ToUpper(dv));
    if ToUpper(dv) == '5' {
      Display12345678(body, '5', "12.345.678-5");
    }
  }

  lemma RutExampleValid(rut: string)
    requires rut == "12345678-5"
    ensures RutOutcome(rut) == RutResult(true, "12.345.678-5", "123456785")
  {
    Rut12345678(rut, '5');
    assert "12345678" + ['5'] == "123456785";
  }

  /** Cleaning a dotted and dashed RUT made of digit groups a.b.c-d. */
  lemma CleanDottedDashed(a: string, b: string, c: string, d: string)
    requires IsDigitString(a) && IsDigitString(b) && IsDigitString(c) && IsDigitString(d)
    ensures Clean(a + ['.'] + b + ['.'] + c + ['-'] + d) == a + b + c + d
  {
    CleanDropSep(a + ['.'] + b + ['.'] + c, '-', d);
    CleanDropSep(a + ['.'] + b, '.', c);
    CleanDropSep(a, '.', b);
    CleanDigits(a);
    CleanDigits(b);
    CleanDigits(c);
    CleanDigits(d);
  }

  lemma CleanOnes(rut: string)
    requires rut == "11.111.111-1"
    ensures Clean(rut) == "11111111" + ['1']
  {
    var a, b, d := "11", "111", "1";
    CleanDottedDashed(a, b, b, d);
    assert rut == a + ['.'] + b + ['.'] + b + ['-'] + d;
    assert a + b + b + d == "11111111" + ['1'];
  }

  lemma DisplayOnes(body: string)
    requires body == "11111111"
    ensures Display(body, '1') == "11.111.111-1"
  {
    Body11111111(body);
    assert Display(body, '1') == "11.111.111" + "-" + ['1'];
  }

  lemma RutExampleOnes(rut: string)
    requires rut == "11.111.111-1"
    ensures RutOutcome(rut) == RutResult(true, "11.111.111-1", "111111111")
  {
    var body := "11111111";
    CleanOnes(rut);
    Body11111111(body);
    RutOutcomeOfParts(rut, body, '1');
    DisplayOnes(body);
    assert body + ['1'] == "111111111";
  }

  lemma RutExampleShort(rut: string)
    requires rut == "1-9"
    ensures RutOutcome(rut) == RutResult(false, "1-9", "19")
  {
    assert rut == "1" + ['-'] + ['9'];
    CleanDashed(rut, "1", '9');
  }


  /** 12345678 followed by a `k` of either case cleans to 12345678K and is rejected. */
  lemma RutCheckK(rut: string, dv: char)
    requires (dv == 'k' || dv == 'K') && rut == "12345678-" + [dv]
    ensures RutOutcome(rut).clean == "12345678K" && !RutOutcome(rut).isValid
  {
    Rut12345678(rut, dv);
    assert "12345678" + ['K'] == "12345678K";
  }

  /** "12345678-k" and "12345678-K" clean alike and are both rejected (the check
      character of 12345678 is 5). */
  lemma RutExampleCase(lower: string, upper: string)
    requires lower == "12345678-k" && upper == "12345678-K"
    ensures RutOutcome(lower).clean == RutOutcome(upper).clean == "12345678K"
    ensures !RutOutcome(lower).isValid && !RutOutcome(upper).isValid
  {
    RutCheckK(lower, 'k');
    RutCheckK(upper, 'K');
  }

  // ---------------------------------------------------------------------------
  // formatRUT
  // ---------------------------------------------------------------------------

  /** `formatRUT`: formats whenever the cleaned input is at least 8 UTF-16 units
      long, without checking the body or the check character and with no upper
      bound. */
  function FormatRut(rut: string): string {
    var clean := Clean(rut);
    if Utf16Length(clean) < 8 then rut else Display(clean[..|clean| - 1], clean[|clean| - 1])
  }

  /** Below 8 cleaned UTF-16 units the input comes back unchanged. */
  lemma FormatRutShort(rut: string)
    requires Utf16Length(Clean(rut)) < 8
    ensures FormatRut(rut) == rut
  {
  }

  /** From 8 cleaned UTF-16 units on, formatRUT displays the cleaned input split
      before its last character. */
  lemma FormatRutLong(rut: string, body: string, dv: char)
    requires Clean(rut) == body + [dv] && Utf16Length(body + [dv]) >= 8
    ensures FormatRut(rut) == Display(body, dv)
  {
    assert (body + [dv])[..|body|] == body;
  }

  lemma CleanDisplayOfClean(c: string)
    requires IsClean(c) && c != []
    ensures Clean(Display(c[..|c| - 1], c[|c| - 1])) == c
  {
    assert c[..|c| - 1] + [c[|c| - 1]] == c;
    CleanDisplay(c[..|c| - 1], c[|c| - 1]);
  }

  /** From 8 cleaned UTF-16 units on, cleaning the result gives back the clean form. */
  lemma FormatRutRoundTrip(rut: string)
    requires Utf16Length(Clean(rut)) >= 8
    ensures Clean(FormatRut(rut)) == Clean(rut)
  {
    var c := Clean(rut);
    assert c == c[..|c| - 1] + [c[|c| - 1]];
    FormatRutLong(rut, c[..|c| - 1], c[|c| - 1]);
    CleanDisplayOfClean(c);
  }

  /** The two formatters agree on every RUT that validates, and differ exactly in
      that validateRUT echoes the raw input whenever it rejects. */
  lemma FormattersCompared(rut: string)
    ensures RutOutcome(rut).isValid ==> FormatRut(rut) == RutOutcome(rut).formatted
    ensures !RutOutcome(rut).isValid ==> RutOutcome(rut).formatted == rut
    ensures Utf16Length(Clean(rut)) < 8 ==> FormatRut(rut) == RutOutcome(rut).formatted
  {
  }

  lemma DisplayTooLong(body: string)
    requires body == "123456789"
    ensures Display(body, '0') == "123.456.789-0"
  {
    InsertDotsGroups(body);
    GroupNine(body);
    assert Display(body, '0') == "123.456.789" + "-" + ['0'];
  }

  lemma CleanTooLong(rut: string)
    requires rut == "123456789-0"
    ensures Clean(rut) == "123456789" + ['0']
  {
    assert rut == "123456789" + ['-'] + ['0'];
    CleanDashed(rut, "123456789", '0');
  }

  /** A too-long input: validateRUT echoes it, formatRUT still formats it. */
  lemma FormattersDifferTooLong(rut: string)
    requires rut == "123456789-0"
    ensures RutOutcome(rut).formatted == "123456789-0"
    ensures FormatRut(rut) == "123.456.789-0"
  {
    var body := "123456789";
    CleanTooLong(rut);
    DisplayTooLong(body);
    FormatRutLong(rut, body, '0');
  }

  /** A wrong check character: validateRUT echoes the input, formatRUT formats it. */
  lemma FormattersDifferWrongCheck(rut: string)
    requires rut == "12345678-4"
    ensures RutOutcome(rut).formatted == "12345678-4"
    ensures FormatRut(rut) == "12.345.678-4"
  {
    var body := "12345678";
    Rut12345678(rut, '4');
    assert FormatRut(rut) == "12.345.678-4" by {
      Display12345678(body, '4', "12.345.678-4");
      FormatRutLong(rut, body, '4');
    }
  }

  // ---------------------------------------------------------------------------
  // validateEmail: /^[^\s@]+@[^\s@]+\.[^\s@]+$/
  // ---------------------------------------------------------------------------

  /** `[^\s@]+` matches all of t. */
  predicate PlainRun(t: string) {
    |t| > 0 && forall k | 0 <= k < |t| :: !IsWhitespace(t[k]) && t[k] != '@'
  }

  /** The pattern matches with its '@' at position a and its '.' at position d. */
  predicate SplitsAt(email: string, a: nat, d: nat)
    requires a < d < |email|
  {
    email[a] == '@' && email[d] == '.'
    && PlainRun(email[..a]) && PlainRun(email[a + 1..d]) && PlainRun(email[d + 1..])
  }

  /** `validateEmail`: the regular expression matches the whole string for some
      choice of the '@' and the '.' it consumes. */
  predicate ValidateEmail(email: string) {
    exists a: nat, d: nat | a < d < |email| :: SplitsAt(email, a, d)
  }

  function CountChar(s: string, c: char): (n: nat)
    ensures n <= |s|
    ensures n == 0 <==> forall k | 0 <= k < |s| :: s[k] != c
  {
    if s == [] then 0 else (if s[0] == c then 1 else 0) + CountChar(s[1..], c)
  }

  lemma {:induction false} CountCharAppend(s: string, t: string, c: char)
    ensures CountChar(s + t, c) == CountChar(s, c) + CountChar(t, c)
  {
    if s == [] {
      assert s + t == t;
    } else {
      assert (s + t)[1..] == s[1..] + t;
      CountCharAppend(s[1..], t, c);
    }
  }

  /** c occurs exactly once in s, at position a, iff it occurs at a and nowhere else. */
  lemma OnlyOccurrence(s: string, c: char, a: nat)
    requires a < |s| && s[a] == c
    ensures CountChar(s, c) == 1 <==> forall k | 0 <= k < |s| && k != a :: s[k] != c
  {
    assert s == s[..a] + ([s[a]] + s[a + 1..]);
    CountCharAppend(s[..a], [s[a]] + s[a + 1..], c);
    CountCharAppend([s[a]], s[a + 1..], c);
  }

  /** The domain part has a '.' that is neither its first nor its last character. */
  predicate InnerDot(domain: string) {
    exists i: nat | 0 < i < |domain| - 1 :: domain[i] == '.'
  }

  /** The shape the e-mail check accepts, stated field by field. */
  predicate EmailShape(email: string) {
    (forall k | 0 <= k < |email| :: !IsWhitespace(email[k]))
    && CountChar(email, '@') == 1
    && exists a: nat | 0 < a < |email| :: email[a] == '@' && InnerDot(email[a + 1..])
  }

  lemma EmailShapeOfSplit(email: string, a: nat, d: nat)
    requires a < d < |email| && SplitsAt(email, a, d)
    ensures EmailShape(email)
  {
    assert forall k | 0 <= k < a :: email[k] == email[..a][k];
    assert forall k | a < k < d :: email[k] == email[a + 1..d][k - a - 1];
    assert forall k | d < k < |email| :: email[k] == email[d + 1..][k - d - 1];
    OnlyOccurrence(email, '@', a);
    var domain := email[a + 1..];
    assert domain[d - a - 1] == '.';
  }

  lemma SplitOfEmailShape(email: string)
    requires EmailShape(email)
    ensures ValidateEmail(email)
  {
    var a: nat :| 0 < a < |email| && email[a] == '@' && InnerDot(email[a + 1..]);
    var domain := email[a + 1..];
    var i: nat :| 0 < i < |domain| - 1 && domain[i] == '.';
    var d := a + 1 + i;
    OnlyOccurrence(email, '@', a);
    assert SplitsAt(email, a, d);
  }

  /** The regular expression accepts exactly the strings without whitespace that hold
      one '@', something before it, and after it a '.' that is neither the first nor
      the last character of the domain. */
  lemma ValidateEmailIff(email: string)
    ensures ValidateEmail(email) <==> EmailShape(email)
  {
    if ValidateEmail(email) {
      var a: nat, d: nat :| a < d < |email| && SplitsAt(email, a, d);
      EmailShapeOfSplit(email, a, d);
    }
    if EmailShape(email) {
      SplitOfEmailShape(email);
    }
  }

  lemma EmailExampleValid(email: string)
    requires email == "ana@karin.cl"
    ensures ValidateEmail(email)
  {
    assert PlainRun(email[..3]) by { assert email[..3] == "ana"; }
    assert PlainRun(email[4..9]) by { assert email[4..9] == "karin"; }
    assert PlainRun(email[10..]) by { assert email[10..] == "cl"; }
    assert SplitsAt(email, 3, 9);
  }

  /** Rejected: a second '@'. */
  lemma EmailExampleTwoAts(email: string)
    requires email == "ana@@karin.cl"
    ensures !ValidateEmail(email)
  {
    ValidateEmailIff(email);
    OnlyOccurrence(email, '@', 3);
    assert email[4] == '@';
    assert CountChar(email, '@') != 1;
  }

  /** Rejected: no '.' after the '@'. */
  lemma EmailExampleNoDot(email: string)
    requires email == "ana@karincl"
    ensures !ValidateEmail(email)
  {
    ValidateEmailIff(email);
    assert forall k | 0 <= k < |email| :: email[k] != '.';
  }

  /** Rejected: whitespace. */
  lemma EmailExampleSpace(email: string)
    requires email == "ana @karin.cl"
    ensures !ValidateEmail(email)
  {
    ValidateEmailIff(email);
    assert IsWhitespace(email[3]);
  }

  // ---------------------------------------------------------------------------
  // validatePassword
  // ---------------------------------------------------------------------------

  /** The four rules, in the order their messages are pushed. */
  datatype PasswordRule = MinLength | Uppercase | Lowercase | Digit

  const PasswordRules: seq<PasswordRule> := [MinLength, Uppercase, Lowercase, Digit]

  function Rank(rule: PasswordRule): nat {
    match rule
    case MinLength => 0
    case Uppercase => 1
    case Lowercase => 2
    case Digit => 3
  }

  /** `/[A-Z]/`, `/[a-z]/` and `/\d/` find a match somewhere in s. */
  predicate HasUpper(s: string) { exists k | 0 <= k < |s| :: IsUpper(s[k]) }
  predicate HasLower(s: string) { exists k | 0 <= k < |s| :: IsLower(s[k]) }
  predicate HasDigit(s: string) { exists k | 0 <= k < |s| :: IsDigit(s[k]) }

  predicate Violates(password: string, rule: PasswordRule) {
    match rule
    case MinLength => Utf16Length(password) < 8
    case Uppercase => !HasUpper(password)
    case Lowercase => !HasLower(password)
    case Digit => !HasDigit(password)
  }

  function Message(rule: PasswordRule): string {
    match rule
    case MinLength => "La contraseña debe tener al menos 8 caracteres"
    case Uppercase => "La contraseña debe contener al menos una mayúscula"
    case Lowercase => "La contraseña debe contener al menos una minúscula"
    case Digit => "La contraseña debe contener al menos un número"
  }

  /** The rule as a one-element list if the password breaks it, else empty. */
  function Check(password: string, rule: PasswordRule): seq<PasswordRule> {
    if Violates(password, rule) then [rule] else []
  }

  /** The rules of `rules` that the password breaks, in their order. */
  function Broken(password: string, rules: seq<PasswordRule>): (r: seq<PasswordRule>)
    ensures |r| <= |rules|
  {
    if rules == [] then []
    else Check(password, rules[0]) + Broken(password, rules[1..])
  }

  /** A rule is reported exactly when it is one of the rules and the password
      violates it. */
  lemma {:induction false} BrokenMembers(password: string, rules: seq<PasswordRule>, rule: PasswordRule)
    ensures rule in Broken(password, rules) <==> rule in rules && Violates(password, rule)
  {
    if rules != [] {
      BrokenMembers(password, rules[1..], rule);
      assert rules == [rules[0]] + rules[1..];
    }
  }

  function Messages(rules: seq<PasswordRule>): (m: seq<string>)
    ensures |m| == |rules|
  {
    if rules == [] then [] else [Message(rules[0])] + Messages(rules[1..])
  }

  lemma {:induction false} MessagesAppend(a: seq<PasswordRule>, b: seq<PasswordRule>)
    ensures Messages(a + b) == Messages(a) + Messages(b)
  {
    if a == [] {
      assert a + b == b;
    } else {
      assert (a + b)[1..] == a[1..] + b;
      MessagesAppend(a[1..], b);
    }
  }

  /** The last three rules, unfolded one at a time. */
  lemma BrokenLastThree(password: string)
    ensures Broken(password, [Uppercase, Lowercase, Digit])
         == Check(password, Uppercase) + Check(password, Lowercase) + Check(password, Digit)
  {
    var c1, c2, c3 := Check(password, Uppercase), Check(password, Lowercase), Check(password, Digit);
    var r3: seq<PasswordRule> := [Digit];
    var r2: seq<PasswordRule> := [Lowercase, Digit];
    var r1: seq<PasswordRule> := [Uppercase, Lowercase, Digit];
    assert r3[1..] == [] && r2[1..] == r3 && r1[1..] == r2;
    assert Broken(password, r3) == c3 + [] == c3;
    assert Broken(password, r2) == c2 + c3;
    assert Broken(password, r1) == c1 + (c2 + c3);
    assert c1 + (c2 + c3) == c1 + c2 + c3;
  }

  lemma BrokenPasswordRules(password: string)
    ensures Broken(password, PasswordRules)
         == Check(password, MinLength) + Check(password, Uppercase)
          + Check(password, Lowercase) + Check(password, Digit)
  {
    var c0, c1 := Check(password, MinLength), Check(password, Uppercase);
    var c2, c3 := Check(password, Lowercase), Check(password, Digit);
    assert PasswordRules[1..] == [Uppercase, Lowercase, Digit];
    BrokenLastThree(password);
    assert c0 + (c1 + c2 + c3) == c0 + c1 + c2 + c3;
  }

  lemma PushBroken(password: string, broken: seq<PasswordRule>, rule: PasswordRule)
    ensures Messages(broken + Check(password, rule))
         == Messages(broken) + (if Violates(password, rule) then [Message(rule)] else [])
  {
    MessagesAppend(broken, Check(password, rule));
    if Violates(password, rule) {
      assert Messages([rule]) == [Message(rule)] + Messages([]);
    }
  }

  datatype PasswordResult = PasswordResult(isValid: bool, errors: seq<string>)

  /** `validatePassword`: one message pushed per broken rule. */
  method ValidatePassword(password: string) returns (res: PasswordResult)
    ensures res.errors == Messages(Broken(password, PasswordRules))
    ensures res.isValid <==> res.errors == []
  {
    var errors: seq<string> := [];
    if Utf16Length(password) < 8 {
      errors := errors + [Message(MinLength)];
    }
    ghost var broken := Check(password, MinLength);
    assert errors == Messages(broken) by {
      PushBroken(password, [], MinLength);
      assert [] + broken == broken;
    }
    if !HasUpper(password) {
      errors := errors + [Message(Uppercase)];
    }
    assert errors == Messages(broken + Check(password, Uppercase)) by {
      PushBroken(password, broken, Uppercase);
    }
    broken := broken + Check(password, Uppercase);
    if !HasLower(password) {
      errors := errors + [Message(Lowercase)];
    }
    assert errors == Messages(broken + Check(password, Lowercase)) by {
      PushBroken(password, broken, Lowercase);
    }
    broken := broken + Check(password, Lowercase);
    if !HasDigit(password) {
      errors := errors + [Message(Digit)];
    }
    assert errors == Messages(broken + Check(password, Digit)) by {
      PushBroken(password, broken, Digit);
    }
    broken := broken + Check(password, Digit);
    assert broken == Broken(password, PasswordRules) by {
      BrokenPasswordRules(password);
    }
    return PasswordResult(|errors| == 0, errors);
  }

  /** The rules appear in strictly increasing rank, so none twice. */
  predicate InRuleOrder(rules: seq<PasswordRule>) {
    forall i, j | 0 <= i < j < |rules| :: Rank(rules[i]) < Rank(rules[j])
  }

  lemma {:induction false} BrokenOrdered(password: string, rules: seq<PasswordRule>)
    requires InRuleOrder(rules)
    ensures InRuleOrder(Broken(password, rules))
  {
    if rules != [] {
      var rest := rules[1..];
      BrokenOrdered(password, rest);
      var tail := Broken(password, rest);
      forall j | 0 <= j < |tail| ensures Rank(rules[0]) < Rank(tail[j]) {
        BrokenMembers(password, rest, tail[j]);
        assert tail[j] in rest;
        var m :| 0 <= m < |rest| && rest[m] == tail[j];
        assert rest[m] == rules[m + 1];
      }
      var r := Broken(password, rules);
      if Violates(password, rules[0]) {
        assert r == [rules[0]] + tail;
        forall i, j | 0 <= i < j < |r| ensures Rank(r[i]) < Rank(r[j]) {
          assert r[0] == rules[0] && r[j] == tail[j - 1];
          if i == 0 {
            assert Rank(rules[0]) < Rank(tail[j - 1]);
          } else {
            assert r[i] == tail[i - 1];
            assert InRuleOrder(tail);
          }
        }
      } else {
        assert r == tail;
      }
    }
  }

  /** The password passes exactly when it breaks no rule; the errors name each broken
      rule once, in the fixed order length, upper case, lower case, digit, so there
      are at most four. */
  lemma PasswordRulesHold(password: string)
    ensures var r := Broken(password, PasswordRules);
      && (r == [] <==> Utf16Length(password) >= 8 && HasUpper(password) && HasLower(password) && HasDigit(password))
      && (forall rule :: rule in r <==> Violates(password, rule))
      && InRuleOrder(r)
      && |Messages(r)| <= 4
  {
    BrokenOrdered(password, PasswordRules);
    var r := Broken(password, PasswordRules);
    forall rule ensures rule in r <==> Violates(password, rule) {
      BrokenMembers(password, PasswordRules, rule);
      assert PasswordRules[Rank(rule)] == rule;
    }
    if r != [] {
      assert r[0] in r;
    }
    if r == [] {
      assert MinLength !in r && Uppercase !in r && Lowercase !in r && Digit !in r;
    }
  }

  /** Two emoji count as four UTF-16 units, so this six-character password is
      long enough. */
  lemma PasswordAstralLength(password: string)
    requires password == "Abc1\U{1F600}\U{1F600}"
    ensures |password| == 6 && Utf16Length(password) == 8
  {
    var ascii, emoji := "Abc1", '\U{1F600}';
    assert password == ascii + [emoji] + [emoji];
    Utf16Append(ascii + [emoji], [emoji]);
    Utf16Append(ascii, [emoji]);
    assert Utf16Length([emoji]) == 2 by {
      assert [emoji][1..] == [];
    }
  }

  /** The same password breaks no rule. */
  lemma PasswordExampleAstral(password: string)
    requires password == "Abc1\U{1F600}\U{1F600}"
    ensures |password| == 6 && Broken(password, PasswordRules) == []
  {
    PasswordAstralLength(password);
    assert IsUpper(password[0]) && IsLower(password[1]) && IsDigit(password[3]);
    PasswordRulesHold(password);
  }
}
