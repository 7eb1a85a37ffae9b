/** Character classes and string operations shared by the model.

    PHP strings are byte strings; here a PHP string is a `string` whose characters
    stand for its bytes. The operations below are the PHP and PCRE primitives the
    auditor and the controllers rely on: `trim`, `explode`, `preg_split` on line
    breaks, `stripos`, `intval` of a digit string and integer formatting. */
module Text {

  predicate IsDigit(c: char) { '0' <= c <= '9' }

  /** PCRE's `\w` without Unicode mode. */
  predicate IsWordChar(c: char) { 'a' <= c <= 'z' || 'A' <= c <= 'Z' || IsDigit(c) || c == '_' }

  /** PCRE's `\s` without Unicode mode: space, tab, line feed, vertical tab, form feed, carriage return. */
  predicate IsSpace(c: char) {
    c == ' ' || c == '\t' || c == '\n' || c == '\U{000B}' || c == '\U{000C}' || c == '\r'
  }

  /** The characters PHP's `trim` strips when called without a character list. */
  predicate IsTrimSpace(c: char) {
    c == ' ' || c == '\t' || c == '\n' || c == '\r' || c == '\0' || c == '\U{000B}'
  }

  predicate AllDigits(s: string) { forall i :: 0 <= i < |s| ==> IsDigit(s[i]) }

  function DigitValue(c: char): (d: nat)
    requires IsDigit(c)
    ensures d < 10
  {
    (c as int) - ('0' as int)
  }

  function DigitChar(d: nat): (c: char)
    requires d < 10
    ensures IsDigit(c) && DigitValue(c) == d
  {
    ('0' as int + d) as char
  }

  /** `intval` of a non-empty run of decimal digits (unbounded: PHP's saturation at
      PHP_INT_MAX is not modelled). */
  function DigitsValue(s: string): (n: nat)
    requires AllDigits(s)
    ensures n == 0 <==> forall k :: 0 <= k < |s| ==> s[k] == '0'
  {
    if s == [] then 0
    else
      var init := s[..|s| - 1];
      assert forall k :: 0 <= k < |init| ==> init[k] == s[k];
      10 * DigitsValue(init) + DigitValue(s[|s| - 1])
  }

  /** Decimal rendering of a natural number, as PHP's string interpolation of an int. */
  function NatToString(n: nat): (s: string)
    ensures |s| >= 1 && AllDigits(s)
    ensures DigitsValue(s) == n
  {
    if n < 10 then [DigitChar(n)]
    else
      var prefix := NatToString(n / 10);
      var s := prefix + [DigitChar(n % 10)];
      assert s[..|s| - 1] == prefix;
      s
  }

  lemma NatToStringInjective(a: nat, b: nat)
    requires NatToString(a) == NatToString(b)
    ensures a == b
  {
  }

  /** Length of the leading run of digits: how far a greedy `\d+` reaches. */
  function DigitRun(s: string): (n: nat)
    ensures n <= |s|
    ensures AllDigits(s[..n])
    ensures n < |s| ==> !IsDigit(s[n])
  {
    if s == [] || !IsDigit(s[0]) then 0 else 1 + DigitRun(s[1..])
  }

  /** A greedy `\d+` over a run of digits stops where the run does. */
  lemma {:induction false} DigitRunOf(digits: string, rest: string)
    requires AllDigits(digits) && (rest == [] || !IsDigit(rest[0]))
    ensures DigitRun(digits + rest) == |digits|
  {
    if digits != [] {
      assert (digits + rest)[1..] == digits[1..] + rest;
      DigitRunOf(digits[1..], rest);
    }
  }

  /** Length of the leading run of blanks: how far a greedy `\s+` reaches. */
  function SpaceRun(s: string): (n: nat)
    ensures n <= |s|
    ensures n < |s| ==> !IsSpace(s[n])
  {
    if s == [] || !IsSpace(s[0]) then 0 else 1 + SpaceRun(s[1..])
  }

  /** A greedy `\s+` over a run of blanks stops where the run does. */
  lemma {:induction false} SpaceRunOf(blanks: string, rest: string)
    requires forall k :: 0 <= k < |blanks| ==> IsSpace(blanks[k])
    requires rest != [] && !IsSpace(rest[0])
    ensures SpaceRun(blanks + rest) == |blanks|
  {
    if blanks != [] {
      assert (blanks + rest)[1..] == blanks[1..] + rest;
      SpaceRunOf(blanks[1..], rest);
    }
  }

  /** Lower-cases ASCII letters only, as PHP 8's `stripos` and `strtolower` do. */
  function LowerChar(c: char): char {
    if 'A' <= c <= 'Z' then (c as int + 32) as char else c
  }

  function Lower(s: string): (r: string)
    ensures |r| == |s|
    ensures forall i :: 0 <= i < |s| ==> r[i] == LowerChar(s[i])
  {
    if s == [] then [] else [LowerChar(s[0])] + Lower(s[1..])
  }

  lemma LowerConcat(a: string, b: string)
    ensures Lower(a + b) == Lower(a) + Lower(b)
  {
    assert forall i :: 0 <= i < |a + b| ==> Lower(a + b)[i] == (Lower(a) + Lower(b))[i];
  }

  /** `strpos($haystack, $needle) !== false`. */
  predicate Contains(haystack: string, needle: string)
    ensures Contains(haystack, needle) ==> |needle| <= |haystack|
    ensures needle == [] ==> Contains(haystack, needle)
    decreases |haystack|
  {
    |needle| <= |haystack| && (haystack[..|needle|] == needle || Contains(haystack[1..], needle))
  }

  /** `stripos($haystack, $needle) !== false`. */
  predicate ContainsIgnoringCase(haystack: string, needle: string)
    ensures Contains(haystack, needle) ==> ContainsIgnoringCase(haystack, needle)
  {
    if Contains(haystack, needle) then
      LowerKeepsContains(haystack, needle);
      true
    else Contains(Lower(haystack), Lower(needle))
  }

  /** Lowering both texts keeps an occurrence. */
  lemma {:induction false} LowerKeepsContains(haystack: string, needle: string)
    requires Contains(haystack, needle)
    ensures Contains(Lower(haystack), Lower(needle))
    decreases |haystack|
  {
    var h, n := Lower(haystack), Lower(needle);
    if haystack[..|needle|] == needle {
      assert h[..|n|] == Lower(haystack[..|needle|]);
    } else {
      LowerKeepsContains(haystack[1..], needle);
      assert h[1..] == Lower(haystack[1..]);
    }
  }

  /** A needle found at offset `i` is found by `Contains`. */
  lemma {:induction false} ContainsAt(haystack: string, needle: string, i: nat)
    requires i + |needle| <= |haystack| && haystack[i..i + |needle|] == needle
    ensures Contains(haystack, needle)
  {
    if i > 0 {
      assert haystack[1..][i - 1..i - 1 + |needle|] == needle;
      ContainsAt(haystack[1..], needle, i - 1);
    }
  }

  /** `stripos` finds a word wherever it stands in the text, whatever the case of
      its ASCII letters. */
  lemma ContainsIgnoringCaseAt(pre: string, word: string, post: string, needle: string)
    requires Lower(word) == Lower(needle)
    ensures ContainsIgnoringCase(pre + word + post, needle)
  {
    LowerConcat(pre + word, post);
    LowerConcat(pre, word);
    var lowered := Lower(pre) + Lower(word) + Lower(post);
    assert Lower(pre + word + post) == lowered;
    InfixOf(Lower(pre), Lower(word), Lower(post));
    ContainsAt(lowered, Lower(needle), |Lower(pre)|);
  }

  lemma InfixOf(a: string, b: string, c: string)
    ensures |a| + |b| <= |a + b + c| && (a + b + c)[|a|..|a| + |b|] == b
  {
  }

  /** `b` placed between `a` and `c`. */
  function Around(a: string, b: string, c: string): (r: string)
    ensures Contains(r, b) && r == a + b + c
  {
    InfixOf(a, b, c);
    ContainsAt(a + b + c, b, |a|);
    a + b + c
  }

  /** Text put in front keeps an occurrence. */
  lemma ContainsGrows(s: string, needle: string, front: string)
    requires Contains(s, needle)
    ensures Contains(front + s, needle)
  {
    var i := ContainsWitness(s, needle);
    assert (front + s)[|front| + i..|front| + i + |needle|] == s[i..i + |needle|];
    ContainsAt(front + s, needle, |front| + i);
  }

  /** Conversely, `Contains` only holds where the needle occurs at some offset. */
  lemma {:induction false} ContainsWitness(haystack: string, needle: string) returns (i: nat)
    requires Contains(haystack, needle)
    ensures i + |needle| <= |haystack| && haystack[i..i + |needle|] == needle
    decreases |haystack|
  {
    if haystack[..|needle|] == needle {
      i := 0;
    } else {
      var j := ContainsWitness(haystack[1..], needle);
      i := j + 1;
      assert haystack[i..i + |needle|] == haystack[1..][j..j + |needle|];
    }
  }

  /** Number of leading characters of `s` that satisfy `strip`. */
  function LeadingCount(s: string, strip: char -> bool): (n: nat)
    ensures n <= |s|
    ensures forall k :: 0 <= k < n ==> strip(s[k])
    ensures n < |s| ==> !strip(s[n])
  {
    if s == [] || !strip(s[0]) then 0 else 1 + LeadingCount(s[1..], strip)
  }

  /** Number of trailing characters of `s` that satisfy `strip`. */
  function TrailingCount(s: string, strip: char -> bool): (n: nat)
    ensures n <= |s|
    ensures forall k :: |s| - n <= k < |s| ==> strip(s[k])
    ensures n < |s| ==> !strip(s[|s| - 1 - n])
  {
    if s == [] || !strip(s[|s| - 1]) then 0 else 1 + TrailingCount(s[..|s| - 1], strip)
  }

  /** PHP `trim` with a character set given as a predicate: the longest infix of `s`
      that neither starts nor ends with a stripped character. */
  function TrimWith(s: string, strip: char -> bool): (r: string)
    ensures |r| <= |s|
    ensures r != [] ==> !strip(r[0]) && !strip(r[|r| - 1])
    ensures (forall c :: c in s ==> strip(c)) ==> r == []
  {
    var lead := LeadingCount(s, strip);
    var rest := s[lead..];
    var trail := TrailingCount(rest, strip);
    assert lead < |s| ==> rest[0] == s[lead];
    rest[..|rest| - trail]
  }

  /** Trimming removes exactly a stripped prefix and suffix around a core that
      neither starts nor ends with a stripped character. */
  lemma TrimAround(pre: string, core: string, post: string, strip: char -> bool)
    requires forall c :: c in pre ==> strip(c)
    requires forall c :: c in post ==> strip(c)
    requires core != [] && !strip(core[0]) && !strip(core[|core| - 1])
    ensures TrimWith(pre + core + post, strip) == core
  {
    var s := pre + core + post;
    LeadingOf(pre, core + post, strip);
    assert s == pre + (core + post);
    assert s[|pre|..] == core + post;
    TrailingOf(core, post, strip);
  }

  /** `r` stands at offset `i` of `s`, and every character of `s` around it is
      one that `strip` removes. */
  predicate FramedBy(s: string, r: string, i: nat, strip: char -> bool) {
    i + |r| <= |s| && r == s[i..i + |r|] &&
    forall k :: 0 <= k < |s| && !(i <= k < i + |r|) ==> strip(s[k])
  }

  /** Trimming keeps an infix of `s` and drops only stripped characters around it. */
  lemma {:induction false} TrimFrame(s: string, strip: char -> bool)
    ensures FramedBy(s, TrimWith(s, strip), LeadingCount(s, strip), strip)
  {
    var i := LeadingCount(s, strip);
    var rest := s[i..];
    var trail := TrailingCount(rest, strip);
    assert TrimWith(s, strip) == rest[..|rest| - trail];
    forall k | i + |rest| - trail <= k < |s| ensures strip(s[k]) {
      assert s[k] == rest[k - i];
    }
  }

  lemma {:induction false} LeadingOf(pre: string, rest: string, strip: char -> bool)
    requires forall k :: 0 <= k < |pre| ==> strip(pre[k])
    requires rest != [] && !strip(rest[0])
    ensures LeadingCount(pre + rest, strip) == |pre|
  {
    if pre != [] {
      assert (pre + rest)[1..] == pre[1..] + rest;
      LeadingOf(pre[1..], rest, strip);
    }
  }

  lemma {:induction false} TrailingOf(core: string, post: string, strip: char -> bool)
    requires forall c :: c in post ==> strip(c)
    requires core != [] && !strip(core[|core| - 1])
    ensures TrailingCount(core + post, strip) == |post|
  {
    if post != [] {
      assert (core + post)[..|core + post| - 1] == core + post[..|post| - 1];
      TrailingOf(core, post[..|post| - 1], strip);
    }
  }

  /** PHP's `empty` on a string: the empty string and "0". */
  predicate PhpEmpty(s: string) {
    s == "" || s == "0"
  }

  /** PHP `trim($s)` with its default character list " \t\n\r\0\x0B". */
  function Trim(s: string): (r: string)
    ensures FramedBy(s, r, LeadingCount(s, IsTrimSpace), IsTrimSpace)
    ensures r != [] ==> !IsTrimSpace(r[0]) && !IsTrimSpace(r[|r| - 1])
  {
    TrimFrame(s, IsTrimSpace);
    TrimWith(s, IsTrimSpace)
  }

  /** PHP `explode($sep, $s)`: the pieces between occurrences of `sep`, never an
      empty list; joining them back with `sep` gives `s`. */
  function Split(s: string, sep: char): (pieces: seq<string>)
    ensures |pieces| >= 1
    ensures forall k :: 0 <= k < |pieces| ==> sep !in pieces[k]
    ensures Join(pieces, sep) == s
  {
    if s == [] then [[]]
    else
      var rest := Split(s[1..], sep);
      if s[0] == sep then [[]] + rest
      else [[s[0]] + rest[0]] + rest[1..]
  }

  function Join(pieces: seq<string>, sep: char): string
    requires |pieces| >= 1
  {
    if |pieces| == 1 then pieces[0] else pieces[0] + [sep] + Join(pieces[1..], sep)
  }

  predicate IsLineBreak(c: char) { c == '\n' || c == '\r' }

  /** `s` with every "\r\n" pair and every lone "\r" written as "\n". */
  function NormalizeBreaks(s: string): (r: string)
    ensures '\r' !in r
    ensures '\r' !in s ==> r == s
  {
    if s == [] then []
    else if s[0] == '\r' && |s| >= 2 && s[1] == '\n' then "\n" + NormalizeBreaks(s[2..])
    else if s[0] == '\r' then "\n" + NormalizeBreaks(s[1..])
    else
      assert '\r' !in s ==> '\r' !in s[1..];
      [s[0]] + NormalizeBreaks(s[1..])
  }

  /** PHP `preg_split('/\r\n|\r|\n/', $s)`: the text between line breaks, where a
      "\r\n" pair counts as a single break. Splitting is `explode` on "\n" once the
      other breaks are written as "\n", so joining the lines back with "\n" gives
      the text with its breaks normalised. */
  function SplitLines(s: string): (lines: seq<string>)
    ensures |lines| >= 1
    ensures forall k :: 0 <= k < |lines| ==> forall c :: c in lines[k] ==> !IsLineBreak(c)
    ensures |lines| - 1 <= |s|
    ensures lines == Split(NormalizeBreaks(s), '\n')
    ensures Join(lines, '\n') == NormalizeBreaks(s)
    ensures '\r' !in s ==> Join(lines, '\n') == s
  {
    if s == [] then [[]]
    else if s[0] == '\r' && |s| >= 2 && s[1] == '\n' then
      assert ("\n" + NormalizeBreaks(s[2..]))[1..] == NormalizeBreaks(s[2..]);
      [[]] + SplitLines(s[2..])
    else if IsLineBreak(s[0]) then
      assert ("\n" + NormalizeBreaks(s[1..]))[1..] == NormalizeBreaks(s[1..]);
      [[]] + SplitLines(s[1..])
    else
      var rest := SplitLines(s[1..]);
      assert ([s[0]] + NormalizeBreaks(s[1..]))[1..] == NormalizeBreaks(s[1..]);
      [[s[0]] + rest[0]] + rest[1..]
  }
}
