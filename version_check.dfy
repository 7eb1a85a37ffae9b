/** The auditor's PDF version check (VucemValidatorController::getPdfVersionWithGs
    and getPdfVersionFromFile). Ghostscript is asked for the document's version
    first; when it is missing, fails, or prints something that is not a version
    number, the version is read from the `%PDF-x.y` marker in the file's first
    twenty bytes. */
module VersionCheck {
  import opened Text
  import opened Optional
  import opened Tools

  /** How many bytes of the file `getPdfVersionFromFile` reads. */
  const HEADER_BYTES: nat := 20

  /** A version as the file marker gives it: digits, a dot, digits. */
  predicate IsVersionText(v: string) {
    exists i :: 0 < i < |v| - 1 && v[i] == '.' && AllDigits(v[..i]) && AllDigits(v[i + 1..])
  }

  /** The marker "%PDF-" followed by `v` sits at offset `k` of `h`. */
  predicate MarkerAt(h: string, k: nat, v: string) {
    k + 5 + |v| <= |h| && h[k..k + 5 + |v|] == "%PDF-" + v
  }

  /** `/%PDF-(\d+\.\d+)/` tried at offset `p`. Each greedy `\d+` can only give
      back digits, which never match the `\.` that must follow, so the first run of
      digits is taken whole; the second is taken whole because it is greedy. */
  function VersionAt(h: string, p: nat): (v: Option<string>)
    ensures v.Some? ==> IsVersionText(v.value) && MarkerAt(h, p, v.value)
  {
    if p + 5 > |h| || h[p..p + 5] != "%PDF-" then None
    else
      var a := DigitRun(h[p + 5..]);
      var q := p + 5 + a;
      if a == 0 || q >= |h| || h[q] != '.' then None
      else
        var b := DigitRun(h[q + 1..]);
        if b == 0 then None
        else
          var v := h[p + 5..q + 1 + b];
          assert v[..a] == h[p + 5..][..a] && v[a + 1..] == h[q + 1..][..b];
          Some(v)
  }

  /** No offset in `[p, q)` starts a match. */
  predicate NoMatchBetween(h: string, p: nat, q: nat) {
    forall k :: p <= k < q ==> VersionAt(h, k).None?
  }

  /** The leftmost match at or after offset `p` (see `VersionFromLeftmost`). */
  function VersionFrom(h: string, p: nat): (v: Option<string>)
    ensures v.Some? ==> IsVersionText(v.value) && exists k :: p <= k && MarkerAt(h, k, v.value)
    decreases |h| - p
  {
    if p >= |h| then None
    else
      var here := VersionAt(h, p);
      if here.Some? then here else VersionFrom(h, p + 1)
  }

  /** `VersionFrom` finds nothing exactly when no offset from `p` on starts a
      match, and otherwise returns the match at the first offset that does. */
  lemma {:induction false} VersionFromLeftmost(h: string, p: nat)
    ensures VersionFrom(h, p).None? <==> NoMatchBetween(h, p, |h|)
    ensures VersionFrom(h, p).Some? ==>
      exists k :: p <= k < |h| && VersionAt(h, k) == VersionFrom(h, p) && NoMatchBetween(h, p, k)
    decreases |h| - p
  {
    if p < |h| {
      if VersionAt(h, p).Some? {
        assert NoMatchBetween(h, p, p);
      } else {
        VersionFromLeftmost(h, p + 1);
        if VersionFrom(h, p + 1).Some? {
          var k :| p + 1 <= k < |h| && VersionAt(h, k) == VersionFrom(h, p + 1) && NoMatchBetween(h, p + 1, k);
          assert NoMatchBetween(h, p, k);
        }
      }
    }
  }

  /** `getPdfVersionFromFile`: `None` when the file cannot be opened or its first
      twenty bytes hold no version marker. */
  function VersionFromFile(file: Option<string>): (v: Option<string>)
    ensures v.Some? ==> file.Some? && IsVersionText(v.value)
    ensures v.Some? ==> exists k :: MarkerAt(Header(file.value), k, v.value)
  {
    match file
    case None => None
    case Some(bytes) => VersionFrom(Header(bytes), 0)
  }

  /** `fread($handle, 20)`. */
  function Header(bytes: string): (h: string)
    ensures |h| == if |bytes| < HEADER_BYTES then |bytes| else HEADER_BYTES
    ensures h == bytes[..|h|]
  {
    bytes[..if |bytes| < HEADER_BYTES then |bytes| else HEADER_BYTES]
  }

  /** `VersionAt` at offset 0 once both digit runs are known. */
  lemma VersionAtStart(h: string, a: nat, b: nat)
    requires 5 + a + 1 <= |h| && h[..5] == "%PDF-" && h[5 + a] == '.' && 0 < a && 0 < b
    requires DigitRun(h[5..]) == a && DigitRun(h[5 + a + 1..]) == b
    ensures VersionAt(h, 0) == Some(h[5..5 + a + 1 + b])
  {
    assert h[0..5] == h[..5];
  }

  lemma StandardMarker(h: string, major: string, minor: string, tail: string)
    requires major != [] && minor != [] && AllDigits(major) && AllDigits(minor)
    requires tail == [] || !IsDigit(tail[0])
    requires h == "%PDF-" + major + "." + minor + tail
    ensures VersionAt(h, 0) == Some(major + "." + minor)
  {
    var q := 5 + |major|;
    assert h[..5] == "%PDF-" && h[q] == '.' && h[5..q + 1 + |minor|] == major + "." + minor;
    assert DigitRun(h[5..]) == |major| by {
      assert h[5..] == major + ("." + minor + tail);
      DigitRunOf(major, "." + minor + tail);
    }
    assert DigitRun(h[q + 1..]) == |minor| by {
      assert h[q + 1..] == minor + tail;
      DigitRunOf(minor, tail);
    }
    VersionAtStart(h, |major|, |minor|);
  }

  /** A file that starts with a standard header `%PDF-major.minor` is read back as
      `major.minor`, provided the marker fits in the first twenty bytes. */
  lemma HeaderRoundTrip(major: string, minor: string, rest: string)
    requires major != [] && minor != [] && AllDigits(major) && AllDigits(minor)
    requires |major| + |minor| + 6 <= HEADER_BYTES
    requires rest == [] || !IsDigit(rest[0])
    ensures VersionFromFile(Some("%PDF-" + major + "." + minor + rest)) == Some(major + "." + minor)
  {
    var file := "%PDF-" + major + "." + minor + rest;
    var h := Header(file);
    var m := |major| + |minor| + 6;
    var tail := h[m..];
    assert h == "%PDF-" + major + "." + minor + tail by {
      assert file[..m] == "%PDF-" + major + "." + minor;
      assert h == file[..m] + file[m..|h|];
    }
    assert tail == [] || tail[0] == rest[0] by {
      if tail != [] {
        assert tail[0] == h[m] == file[m];
      }
    }
    StandardMarker(h, major, minor, tail);
  }

  /** The characters the second `trim` of the Ghostscript output strips. */
  predicate IsQuoteOrBreak(c: char) { c == '"' || c == ' ' || c == '\r' || c == '\n' }

  predicate IsVersionChar(c: char) { IsDigit(c) || c == '.' }

  /** What `/^[\d\.]+$/` accepts. */
  predicate IsVersionString(v: string) {
    v != [] && forall c :: c in v ==> IsVersionChar(c)
  }

  /** What may surround the version in Ghostscript's output. */
  predicate IsFraming(c: char) { IsTrimSpace(c) || IsQuoteOrBreak(c) }

  /** `v` stands at offset `i` of `s`, with only framing characters around it. */
  predicate FramedAt(s: string, v: string, i: nat) {
    i + |v| <= |s| && s[i..i + |v|] == v &&
    forall k :: 0 <= k < |s| && !(i <= k < i + |v|) ==> IsFraming(s[k])
  }

  /** The Ghostscript output accepted as a version: trimmed, stripped of quotes,
      and then made only of digits and dots (`/^[\d\.]+$/`). A version found is
      what Ghostscript printed, with nothing but blanks, line breaks and quotes
      around it; output holding any other character, such as an error message,
      gives none. */
  function GhostscriptVersion(stdout: string): (v: Option<string>)
    ensures v.Some? ==> IsVersionString(v.value)
    ensures v.Some? ==> exists i :: FramedAt(stdout, v.value, i)
    ensures v.Some? ==> forall k :: 0 <= k < |stdout| ==> IsVersionChar(stdout[k]) || IsFraming(stdout[k])
  {
    var trimmed := Trim(stdout);
    var cleaned := TrimWith(trimmed, IsQuoteOrBreak);
    if IsVersionString(cleaned) then
      TrimFrame(stdout, IsTrimSpace);
      TrimFrame(trimmed, IsQuoteOrBreak);
      ComposeFrames(stdout, trimmed, cleaned, LeadingCount(stdout, IsTrimSpace), LeadingCount(trimmed, IsQuoteOrBreak));
      Some(cleaned)
    else None
  }

  /** An infix framed by blanks, of an infix framed by quotes and breaks, is framed
      by both. */
  lemma {:induction false} ComposeFrames(s: string, t: string, c: string, i: nat, j: nat)
    requires FramedBy(s, t, i, IsTrimSpace) && FramedBy(t, c, j, IsQuoteOrBreak) && IsVersionString(c)
    ensures FramedAt(s, c, i + j)
    ensures forall k :: 0 <= k < |s| ==> IsVersionChar(s[k]) || IsFraming(s[k])
  {
    assert forall m :: 0 <= m < |c| ==> s[i + j + m] == t[j + m] == c[m];
    assert s[i + j..i + j + |c|] == c;
    forall k | 0 <= k < |s| && !(i + j <= k < i + j + |c|) ensures IsFraming(s[k]) {
      if i <= k < i + |t| {
        assert s[k] == t[k - i];
      }
    }
    forall k | i + j <= k < i + j + |c| ensures IsVersionChar(s[k]) {
      assert s[k] == c[k - i - j];
    }
  }

  /** A version Ghostscript prints bare, say "1.4\n", is recovered unchanged. */
  lemma PlainVersionRecovered(v: string, before: string, after: string)
    requires v != [] && forall c :: c in v ==> IsVersionChar(c)
    requires forall c :: c in before ==> IsTrimSpace(c)
    requires forall c :: c in after ==> IsTrimSpace(c)
    ensures GhostscriptVersion(before + v + after) == Some(v)
  {
    assert v[0] in v && v[|v| - 1] in v;
    TrimAround(before, v, after, IsTrimSpace);
    assert [] + v + [] == v;
    TrimAround([], v, [], IsQuoteOrBreak);
  }

  /** A version Ghostscript prints as a quoted string, with surrounding blanks and
      line breaks, is recovered unchanged. */
  lemma QuotedVersionRecovered(v: string, before: string, after: string)
    requires v != [] && forall c :: c in v ==> IsVersionChar(c)
    requires forall c :: c in before ==> IsTrimSpace(c) && IsQuoteOrBreak(c)
    requires forall c :: c in after ==> IsTrimSpace(c) && IsQuoteOrBreak(c)
    ensures GhostscriptVersion(before + "\"" + v + "\"" + after) == Some(v)
  {
    var quoted := "\"" + v + "\"";
    assert before + "\"" + v + "\"" + after == before + quoted + after;
    TrimAround(before, quoted, after, IsTrimSpace);
    assert quoted == "\"" + v + "\"";
    assert v[0] in v && v[|v| - 1] in v;
    TrimAround("\"", v, "\"", IsQuoteOrBreak);
  }

  /** `getPdfVersionWithGs`: Ghostscript's answer when it ran successfully and
      printed a version; otherwise the file marker. Whatever the source, a
      detected version is made of digits and dots only. */
  function PdfVersion(gs: ToolRun, file: Option<string>): (v: Option<string>)
    ensures v.Some? ==> v.value != [] && forall c :: c in v.value ==> IsVersionChar(c)
    ensures gs.Succeeded? && GhostscriptVersion(gs.stdout).Some? ==> v == GhostscriptVersion(gs.stdout)
    ensures !(gs.Succeeded? && GhostscriptVersion(gs.stdout).Some?) ==> v == VersionFromFile(file)
  {
    if gs.Succeeded? && GhostscriptVersion(gs.stdout).Some? then GhostscriptVersion(gs.stdout)
    else
      var fromFile := VersionFromFile(file);
      if fromFile.Some? then
        var w := fromFile.value;
        var i :| 0 < i < |w| - 1 && w[i] == '.' && AllDigits(w[..i]) && AllDigits(w[i + 1..]);
        assert forall k :: 0 <= k < |w| ==> IsVersionChar(w[k]) by {
          forall k | 0 <= k < |w| ensures IsVersionChar(w[k]) {
            if k < i { assert w[k] == w[..i][k]; }
            else if k > i { assert w[k] == w[i + 1..][k - i - 1]; }
          }
        }
        fromFile
      else fromFile
  }

  /** The compliance rule: the version check passes only on exactly "1.4". */
  predicate VersionOk(v: Option<string>) {
    v == Some("1.4")
  }
}
