/** The auditor's greyscale check (VucemValidatorController::checkGrayWithInkCov,
    checkColorAlternative and checkPpmForColor). Ghostscript's `inkcov` device
    prints the cyan, magenta, yellow and black coverage of every page; a page with
    any cyan, magenta or yellow above 0.0001 is in colour. When no page line can be
    read, the first page is rendered to a PPM image and its first 10000 pixels are
    sampled instead. */
module ColorCheck {
  import opened Text
  import opened Optional
  import opened Tools

  /** An exact decimal `num / 10^scale`, as written in Ghostscript's output. */
  datatype Decimal = Decimal(num: nat, scale: nat)

  function Pow10(n: nat): (p: nat)
    ensures p >= 1
  {
    if n == 0 then 1 else 10 * Pow10(n - 1)
  }

  /** `floatval($x) > 0.0001`, decided exactly: `num / 10^scale > 1 / 10^4`. */
  predicate HasInk(d: Decimal) {
    d.num * 10000 > Pow10(d.scale)
  }

  /** Powers of ten multiply by adding their exponents. */
  lemma {:induction false} Pow10Add(a: nat, b: nat)
    ensures Pow10(a + b) == Pow10(a) * Pow10(b)
    decreases a
  {
    if a > 0 {
      Pow10Add(a - 1, b);
      assert Pow10(a + b) == 10 * Pow10(a - 1 + b);
    }
  }

  /** The exact value the decimal is written for. */
  function Value(d: Decimal): real {
    (d.num as real) / (Pow10(d.scale) as real)
  }

  /** `HasInk` is the comparison `floatval` makes, on exact values: the decimal
      read as the rational `num / 10^scale` exceeds 0.0001. */
  lemma InkIsAboveThreshold(d: Decimal)
    ensures HasInk(d) <==> Value(d) > 0.0001
  {
    RatioAbove(d.num, Pow10(d.scale));
  }

  /** `n / p > 1 / 10^4` compares the same way as `n * 10^4 > p`. */
  lemma RatioAbove(n: nat, p: nat)
    requires p >= 1
    ensures (n as real) / (p as real) > 0.0001 <==> n * 10000 > p
  {
    var den := p as real;
    var r := (n as real) / den;
    assert r * den == n as real;
    var gap := r * 10000.0 - 1.0;
    assert (n * 10000) as real - den == gap * den;
    SignOfProduct(gap, den);
  }

  /** A product with a positive factor has the sign of the other factor. */
  lemma SignOfProduct(x: real, y: real)
    requires y > 0.0
    ensures x > 0.0 <==> x * y > 0.0
  {
    if x <= 0.0 {
      assert (-x) * y >= 0.0;
    }
  }

  /** Trailing zeros do not change the verdict: "0.00011" and "0.000110" are
      both ink, "0.0001" and "0.00010" both not. */
  lemma InkIgnoresTrailingZeros(d: Decimal, z: nat)
    ensures HasInk(Decimal(d.num * Pow10(z), d.scale + z)) <==> HasInk(d)
  {
    Pow10Add(d.scale, z);
    ScaledCompare(d.num, Pow10(d.scale), Pow10(z), Pow10(d.scale + z));
  }

  /** Scaling a decimal's digits and its denominator by the same factor keeps
      its comparison with 0.0001. */
  lemma ScaledCompare(num: nat, y: nat, q: nat, scaled: nat)
    requires q >= 1 && scaled == y * q
    ensures num * q * 10000 > scaled <==> num * 10000 > y
  {
    assert num * q * 10000 == (num * 10000) * q;
    MulMonotone(num * 10000, y, q);
  }

  /** Multiplying both sides by a positive number keeps a strict comparison. */
  lemma MulMonotone(x: nat, y: nat, q: nat)
    requires q >= 1
    ensures x * q > y * q <==> x > y
  {
    if x > y {
      assert x * q - y * q == (x - y) * q;
    } else {
      assert y * q - x * q == (y - x) * q;
    }
  }

  /** The coverage threshold is strict: 0.0001 itself is no ink, 0.00011 is. */
  lemma InkThreshold()
    ensures !HasInk(Decimal(0, 5))      // "0.00000"
    ensures !HasInk(Decimal(10, 5))     // "0.00010"
    ensures HasInk(Decimal(11, 5))      // "0.00011"
    ensures HasInk(Decimal(1, 3))       // "0.001"
  {
  }

  /** The length of the greedy `\d+\.?\d*` at the start of `t`. */
  function NumberLen(t: string): (k: nat)
    requires t != [] && IsDigit(t[0])
    ensures 0 < k <= |t|
  {
    var a := DigitRun(t);
    if a < |t| && t[a] == '.' then a + 1 + DigitRun(t[a + 1..]) else a
  }

  /** The value `floatval` gives that number: the digits before the dot, then
      those after it as a fraction. */
  function LeadingNumber(t: string): Decimal
    requires t != [] && IsDigit(t[0])
  {
    var a := DigitRun(t);
    if a < |t| && t[a] == '.' then
      var f := t[a + 1..];
      var b := DigitRun(f);
      Decimal(DigitsValue(t[..a] + f[..b]), b)
    else Decimal(DigitsValue(t[..a]), 0)
  }

  /** The cyan, magenta and yellow coverage of one page. */
  datatype Ink = Ink(cyan: Decimal, magenta: Decimal, yellow: Decimal)

  /** A page is in colour when its cyan, magenta or yellow coverage exceeds 0.0001. */
  predicate IsColourPage(ink: Ink)
    ensures IsColourPage(ink) <==> Value(ink.cyan) > 0.0001 || Value(ink.magenta) > 0.0001 || Value(ink.yellow) > 0.0001
  {
    InkIsAboveThreshold(ink.cyan);
    InkIsAboveThreshold(ink.magenta);
    InkIsAboveThreshold(ink.yellow);
    HasInk(ink.cyan) || HasInk(ink.magenta) || HasInk(ink.yellow)
  }

  /** A number read by one group of the coverage pattern, and the offset where
      the next group starts. */
  datatype Group = Group(value: Decimal, next: nat)

  /** One `(\d+\.?\d*)\s+` group at the start of `t`, when the next group can
      start after it: the number's value and the offset where the next group
      starts. A number cut short ends before a digit or a dot, never before the
      blank that `\s+` needs, so the number is taken whole; `\s+` must then run up
      to a digit, so it takes the whole gap. */
  function GroupAt(t: string): (r: Option<Group>)
    ensures r.Some? ==> 0 < r.value.next < |t| && IsDigit(t[r.value.next])
  {
    if t == [] || !IsDigit(t[0]) then None
    else
      var e := NumberLen(t);
      var g := e + SpaceRun(t[e..]);
      if g == e || g >= |t| || !IsDigit(t[g]) then None else Some(Group(LeadingNumber(t), g))
  }

  /** The second and third groups of the coverage pattern at the start of `t`:
      the magenta and yellow values. */
  function LastGroups(t: string): Option<(Decimal, Decimal)> {
    match GroupAt(t)
    case None => None
    case Some(Group(m, o2)) =>
      match GroupAt(t[o2..])
      case None => None
      case Some(Group(y, _)) => Some((m, y))
  }

  /** `/(\d+\.?\d*)\s+(\d+\.?\d*)\s+(\d+\.?\d*)\s+(\d+\.?\d*)\s*(?:CMYK)?/i` matched
      at the start of `t`: three groups, then the fourth number, which only needs
      its first digit since the rest of the pattern matches the empty string. */
  function InkAtStart(t: string): Option<Ink> {
    match GroupAt(t)
    case None => None
    case Some(Group(c, o1)) =>
      match LastGroups(t[o1..])
      case None => None
      case Some((m, y)) => Some(Ink(c, m, y))
  }

  /** The leftmost match at or after offset `p` (see `InkFromLeftmost`). */
  function InkFrom(s: string, p: nat): Option<Ink>
    decreases |s| - p
  {
    if p >= |s| then None
    else if InkAtStart(s[p..]).Some? then InkAtStart(s[p..]) else InkFrom(s, p + 1)
  }

  /** No offset in `[p, q)` starts a match. */
  predicate NoInkBetween(s: string, p: nat, q: nat)
    requires q <= |s|
  {
    forall k :: p <= k < q ==> InkAtStart(s[k..]).None?
  }

  /** `InkFrom` finds nothing exactly when no offset from `p` on starts a match,
      and otherwise returns the match at the first offset that does. */
  lemma {:induction false} InkFromLeftmost(s: string, p: nat)
    ensures InkFrom(s, p).None? <==> NoInkBetween(s, p, |s|)
    ensures InkFrom(s, p).Some? ==>
      exists k :: p <= k < |s| && InkAtStart(s[k..]) == InkFrom(s, p) && NoInkBetween(s, p, k)
    decreases |s| - p
  {
    if p < |s| {
      if InkAtStart(s[p..]).Some? {
        assert NoInkBetween(s, p, p);
      } else {
        InkFromLeftmost(s, p + 1);
        if InkFrom(s, p + 1).Some? {
          var k :| p + 1 <= k < |s| && InkAtStart(s[k..]) == InkFrom(s, p + 1) && NoInkBetween(s, p + 1, k);
          NoInkExtend(s, p, k);
        } else {
          NoInkExtend(s, p, |s|);
        }
      }
    }
  }

  lemma NoInkExtend(s: string, p: nat, q: nat)
    requires p < q <= |s| && InkAtStart(s[p..]).None? && NoInkBetween(s, p + 1, q)
    ensures NoInkBetween(s, p, q)
  {
  }

  /** `preg_match` of the coverage pattern on one line. */
  function InkOfLine(line: string): Option<Ink> {
    InkFrom(line, 0)
  }

  /** A number as Ghostscript prints it: digits, a dot, digits. */
  datatype NumberText = NumberText(whole: string, fraction: string)

  predicate WellFormed(n: NumberText) {
    n.whole != [] && n.fraction != [] && AllDigits(n.whole) && AllDigits(n.fraction)
  }

  function Render(n: NumberText): string {
    n.whole + "." + n.fraction
  }

  function ValueOf(n: NumberText): Decimal
    requires WellFormed(n)
  {
    Decimal(DigitsValue(n.whole + n.fraction), |n.fraction|)
  }

  predicate Blank(s: string) {
    forall k :: 0 <= k < |s| ==> IsSpace(s[k])
  }

  /** What `\s+` matches: a non-empty run of blanks. */
  predicate Gap(s: string) {
    s != [] && Blank(s)
  }

  predicate StartsWithDigit(s: string) {
    s != [] && IsDigit(s[0])
  }

  /** `NumberLen` and `LeadingNumber` once the digit runs around the dot are known. */
  lemma NumberParts(t: string, a: nat, b: nat)
    requires t != [] && IsDigit(t[0]) && a < |t| && DigitRun(t) == a && t[a] == '.'
    requires DigitRun(t[a + 1..]) == b
    ensures a + 1 + b <= |t| && NumberLen(t) == a + 1 + b
    ensures LeadingNumber(t) == Decimal(DigitsValue(t[..a] + t[a + 1..][..b]), b)
  {
  }

  /** The digits before the dot of a printed number, and where they end. */
  lemma WholeRun(w: string, x: string, t: string)
    requires w != [] && AllDigits(w) && x != [] && x[0] == '.' && t == w + x
    ensures IsDigit(t[0]) && DigitRun(t) == |w| && t[..|w|] == w && t[|w|] == '.' && t[|w| + 1..] == x[1..]
  {
    DigitRunOf(w, x);
  }

  /** The digits after the dot of a printed number, and where they end. */
  lemma FractionRun(f: string, rest: string, u: string)
    requires AllDigits(f) && rest != [] && !IsDigit(rest[0]) && u == f + rest
    ensures DigitRun(u) == |f| && u[..|f|] == f
  {
    DigitRunOf(f, rest);
  }

  /** A printed number followed by something other than a digit is read whole,
      with its exact value. */
  lemma LeadingNumberOf(n: NumberText, rest: string, t: string)
    requires WellFormed(n) && rest != [] && !IsDigit(rest[0]) && t == Render(n) + rest
    ensures NumberRead(t, |Render(n)|, ValueOf(n))
  {
    var w, f := n.whole, n.fraction;
    var x := ['.'] + (f + rest);
    assert t == w + x;
    WholeRun(w, x, t);
    NumberOf(t, w, f, rest);
  }

  lemma NumberOf(t: string, w: string, f: string, rest: string)
    requires w != [] && AllDigits(w) && AllDigits(f) && rest != [] && !IsDigit(rest[0])
    requires |w| < |t| && IsDigit(t[0]) && DigitRun(t) == |w| && t[..|w|] == w && t[|w|] == '.' && t[|w| + 1..] == f + rest
    ensures NumberLen(t) == |w| + 1 + |f| && LeadingNumber(t) == Decimal(DigitsValue(w + f), |f|)
  {
    FractionRun(f, rest, t[|w| + 1..]);
    NumberParts(t, |w|, |f|);
    assert t[..|w|] + t[|w| + 1..][..|f|] == w + f;
  }

  /** `t` starts with a number of `e` characters whose value is `v`. */
  predicate NumberRead(t: string, e: nat, v: Decimal) {
    StartsWithDigit(t) && NumberLen(t) == e && LeadingNumber(t) == v
  }

  /** From offset `e`, `t` has `k` blanks and then `after`, which starts with a digit. */
  predicate GapRead(t: string, e: nat, k: nat, after: string) {
    0 < k && e + k < |t| && SpaceRun(t[e..]) == k && t[e + k..] == after && IsDigit(t[e + k])
  }

  /** `GroupAt` once the number and the gap after it are known. */
  lemma GroupAtFrom(t: string, e: nat, k: nat, v: Decimal, after: string)
    requires NumberRead(t, e, v) && GapRead(t, e, k, after)
    ensures GroupAt(t) == Some(Group(v, e + k))
  {
  }

  /** A printed number followed by a gap and then a digit is one group: it is
      read whole, with its exact value, and the gap after it is skipped whole. */
  lemma GroupOf(n: NumberText, gap: string, after: string, t: string)
    requires WellFormed(n) && Gap(gap) && StartsWithDigit(after) && t == Render(n) + gap + after
    ensures StartsWithDigit(t)
    ensures GroupAt(t) == Some(Group(ValueOf(n), |Render(n)| + |gap|))
    ensures t[|Render(n)| + |gap|..] == after
  {
    var e, k := |Render(n)|, |gap|;
    assert NumberRead(t, e, ValueOf(n)) by {
      assert t == Render(n) + (gap + after);
      LeadingNumberOf(n, gap + after, t);
    }
    assert GapRead(t, e, k, after) by {
      GapThenDigit(t, Render(n), gap, after);
    }
    GroupAtFrom(t, e, k, ValueOf(n), after);
  }

  /** The `\s+` after a number takes the whole gap up to the next digit. */
  lemma GapThenDigit(t: string, p: string, gap: string, after: string)
    requires Gap(gap) && StartsWithDigit(after) && t == p + gap + after
    ensures GapRead(t, |p|, |gap|, after)
  {
    assert t[|p|..] == gap + after;
    SpaceRunOf(gap, after);
    assert t[|p| + |gap|] == after[0];
  }

  lemma {:induction false} NoMatchInLeadingBlank(s: string, p: nat, lead: nat)
    requires p <= lead < |s| && forall k :: p <= k < lead ==> IsSpace(s[k])
    ensures InkFrom(s, p) == InkFrom(s, lead)
    decreases lead - p
  {
    if p < lead {
      assert GroupAt(s[p..]) == None by {
        assert s[p..][0] == s[p];
      }
      NoMatchInLeadingBlank(s, p + 1, lead);
    }
  }

  /** `LastGroups` once both of its groups are known. */
  lemma LastGroupsFrom(second: string, o2: nat, third: string)
    requires GroupAt(second).Some? && GroupAt(second).value.next == o2 && second[o2..] == third
    requires GroupAt(third).Some?
    ensures LastGroups(second) == Some((GroupAt(second).value.value, GroupAt(third).value.value))
  {
  }

  /** The magenta and yellow groups of a coverage line are read back with their values. */
  lemma LastGroupsOf(m: NumberText, g2: string, y: NumberText, g3: string, tail: string)
    requires WellFormed(m) && Gap(g2) && WellFormed(y) && Gap(g3) && StartsWithDigit(tail)
    ensures StartsWithDigit(Render(m) + g2 + (Render(y) + g3 + tail))
    ensures LastGroups(Render(m) + g2 + (Render(y) + g3 + tail)) == Some((ValueOf(m), ValueOf(y)))
  {
    var third := Render(y) + g3 + tail;
    var second := Render(m) + g2 + third;
    var o2 := |Render(m)| + |g2|;
    assert StartsWithDigit(third) && GroupAt(third) == Some(Group(ValueOf(y), |Render(y)| + |g3|)) by {
      GroupOf(y, g3, tail, third);
    }
    assert StartsWithDigit(second) && GroupAt(second) == Some(Group(ValueOf(m), |Render(m)| + |g2|)) && second[o2..] == third by {
      GroupOf(m, g2, third, second);
    }
    LastGroupsFrom(second, o2, third);
  }

  /** `InkAtStart` once its first group and the two after it are known. */
  lemma InkAtStartFrom(t: string, o1: nat, second: string)
    requires GroupAt(t).Some? && GroupAt(t).value.next == o1 && t[o1..] == second
    requires LastGroups(second).Some?
    ensures InkAtStart(t) == Some(Ink(GroupAt(t).value.value, LastGroups(second).value.0, LastGroups(second).value.1))
  {
  }

  /** The three groups of a coverage line are read back with their values. */
  lemma InkAtParts(c: NumberText, g1: string, m: NumberText, g2: string,
                   y: NumberText, g3: string, tail: string)
    requires WellFormed(c) && Gap(g1) && WellFormed(m) && Gap(g2) && WellFormed(y) && Gap(g3)
    requires StartsWithDigit(tail)
    ensures InkAtStart(Render(c) + g1 + (Render(m) + g2 + (Render(y) + g3 + tail)))
            == Some(Ink(ValueOf(c), ValueOf(m), ValueOf(y)))
  {
    var second := Render(m) + g2 + (Render(y) + g3 + tail);
    var t := Render(c) + g1 + second;
    var o1 := |Render(c)| + |g1|;
    assert StartsWithDigit(second) && LastGroups(second) == Some((ValueOf(m), ValueOf(y))) by {
      LastGroupsOf(m, g2, y, g3, tail);
    }
    assert GroupAt(t) == Some(Group(ValueOf(c), |Render(c)| + |g1|)) && t[o1..] == second by {
      GroupOf(c, g1, second, t);
    }
    InkAtStartFrom(t, o1, second);
  }

  /** A page line as the inkcov device prints it, blank-indented, four numbers
      separated by blanks and then anything (" CMYK OK"), is read back with its
      cyan, magenta and yellow values. */
  lemma InkLineRoundTrip(indent: string, c: NumberText, g1: string, m: NumberText, g2: string,
                         y: NumberText, g3: string, k: NumberText, rest: string)
    requires Blank(indent) && Gap(g1) && Gap(g2) && Gap(g3)
    requires WellFormed(c) && WellFormed(m) && WellFormed(y) && WellFormed(k)
    ensures InkOfLine(indent + Render(c) + g1 + Render(m) + g2 + Render(y) + g3 + Render(k) + rest)
            == Some(Ink(ValueOf(c), ValueOf(m), ValueOf(y)))
  {
    var tail := Render(k) + rest;
    var body := Render(c) + g1 + (Render(m) + g2 + (Render(y) + g3 + tail));
    var s := indent + body;
    assert s == indent + Render(c) + g1 + Render(m) + g2 + Render(y) + g3 + Render(k) + rest;
    var p0 := |indent|;
    assert s[p0..] == body;
    assert tail[0] == k.whole[0];
    InkAtParts(c, g1, m, g2, y, g3, tail);
    forall j | 0 <= j < p0 ensures IsSpace(s[j]) {
      assert s[j] == indent[j];
    }
    NoMatchInLeadingBlank(s, 0, p0);
  }

  /** How many lines read as page coverage, and how many of those pages are in colour. */
  function InkPages(lines: seq<string>): (n: nat)
    ensures n <= |lines|
  {
    if lines == [] then 0
    else InkPages(lines[..|lines| - 1]) + (if PageLine(lines[|lines| - 1]) then 1 else 0)
  }

  /** A line that reads as a page's coverage. */
  predicate PageLine(line: string) {
    InkOfLine(line).Some?
  }

  /** A line that reads as a page with cyan, magenta or yellow ink. */
  predicate ColourLine(line: string) {
    InkOfLine(line).Some? && IsColourPage(InkOfLine(line).value)
  }

  function ColourPages(lines: seq<string>): nat {
    if lines == [] then 0
    else ColourPages(lines[..|lines| - 1]) + (if ColourLine(lines[|lines| - 1]) then 1 else 0)
  }

  lemma {:induction false} ColourPagesAmongPages(lines: seq<string>)
    ensures ColourPages(lines) <= InkPages(lines)
  {
    if lines != [] {
      ColourPagesAmongPages(lines[..|lines| - 1]);
    }
  }

  /** No page is counted as coloured exactly when no line reads as a coloured page. */
  lemma {:induction false} NoColourPages(lines: seq<string>)
    ensures ColourPages(lines) == 0 <==> forall k :: 0 <= k < |lines| ==> !ColourLine(lines[k])
  {
    if lines != [] {
      var init := lines[..|lines| - 1];
      NoColourPages(init);
      assert forall k :: 0 <= k < |init| ==> init[k] == lines[k];
    }
  }

  /** No page is counted exactly when no line reads as a page's coverage. */
  lemma {:induction false} NoInkPages(lines: seq<string>)
    ensures InkPages(lines) == 0 <==> forall k :: 0 <= k < |lines| ==> !PageLine(lines[k])
  {
    if lines != [] {
      var init := lines[..|lines| - 1];
      NoInkPages(init);
      assert forall k :: 0 <= k < |init| ==> init[k] == lines[k];
    }
  }

  datatype GrayDetail =
    | GhostscriptNotFound
    | NotAnalysable
    | AllPagesGray(pages: nat)
    | ColourOnPages(colourPages: nat, pages: nat)
    | AlternativeUnavailable
    | RenderMissing
    | RenderInColour
    | RenderGray

  datatype GrayCheck = GrayCheck(isGray: bool, detail: GrayDetail)

  /** The inkcov output the check reads: stdout, a line break, then stderr. */
  function InkcovOutput(run: ToolRun): string
    requires !run.NotFound?
  {
    run.stdout + "\n" + run.stderr
  }

  /** The page-counting loop of `checkGrayWithInkCov`. */
  method CountPages(lines: seq<string>) returns (totalPages: nat, pagesWithColor: nat, isGray: bool)
    ensures totalPages == InkPages(lines)
    ensures pagesWithColor == ColourPages(lines)
    ensures isGray <==> pagesWithColor == 0
  {
    totalPages, pagesWithColor, isGray := 0, 0, true;
    var i := 0;
    while i < |lines|
      invariant 0 <= i <= |lines|
      invariant totalPages == InkPages(lines[..i])
      invariant pagesWithColor == ColourPages(lines[..i])
      invariant isGray <==> pagesWithColor == 0
    {
      assert lines[..i + 1][..i] == lines[..i];
      var ink := InkOfLine(lines[i]);
      if ink.Some? {
        totalPages := totalPages + 1;
        if IsColourPage(ink.value) {
          assert ColourLine(lines[i]);
          isGray := false;
          pagesWithColor := pagesWithColor + 1;
        }
      }
      i := i + 1;
    }
    assert lines[..|lines|] == lines;
  }

  /** The verdict `checkGrayWithInkCov` reaches on the tool's answer: none without
      Ghostscript or without output; the rendered page's verdict when no line
      carries ink figures; otherwise as `InkReport` says. */
  predicate GrayReport(inkcov: ToolRun, rendered: Option<seq<byte>>, r: GrayCheck) {
    && (inkcov.NotFound? ==> r == GrayCheck(false, GhostscriptNotFound))
    && (!inkcov.NotFound? && PhpEmpty(Trim(InkcovOutput(inkcov))) ==> r == GrayCheck(false, NotAnalysable))
    && (!inkcov.NotFound? && !PhpEmpty(Trim(InkcovOutput(inkcov))) ==>
         InkReport(SplitLines(Trim(InkcovOutput(inkcov))), rendered, r))
  }

  /** The verdict on the lines of inkcov's output: the rendered page's when no
      line reads as a page; otherwise grey exactly when no page carries colour,
      reporting the pages read and, for colour, how many of them carry it. */
  predicate InkReport(lines: seq<string>, rendered: Option<seq<byte>>, r: GrayCheck) {
    if InkPages(lines) == 0 then r == ColorAlternative(true, rendered)
    else
      && (r.isGray <==> forall k :: 0 <= k < |lines| ==> !ColourLine(lines[k]))
      && r.detail == (if r.isGray then AllPagesGray(InkPages(lines))
                      else ColourOnPages(ColourPages(lines), InkPages(lines)))
  }

  /** `checkGrayWithInkCov`. `inkcov` is the run of Ghostscript's inkcov device
      (`NotFound` when Ghostscript is missing); `rendered` is the PPM file the
      fallback renders, when it exists. */
  method CheckGrayWithInkCov(inkcov: ToolRun, rendered: Option<seq<byte>>) returns (r: GrayCheck)
    ensures GrayReport(inkcov, rendered, r)
    ensures r.detail.ColourOnPages? ==> 0 < r.detail.colourPages <= r.detail.pages
  {
    if inkcov.NotFound? {
      return GrayCheck(false, GhostscriptNotFound);
    }
    var output := inkcov.stdout + "\n" + inkcov.stderr;
    if PhpEmpty(Trim(output)) {
      return GrayCheck(false, NotAnalysable);
    }
    var lines := SplitLines(Trim(output));
    var totalPages, pagesWithColor, isGray := CountPages(lines);
    ColourPagesAmongPages(lines);
    NoColourPages(lines);
    if totalPages == 0 {
      return ColorAlternative(true, rendered);
    }
    if isGray {
      return GrayCheck(true, AllPagesGray(totalPages));
    }
    return GrayCheck(false, ColourOnPages(pagesWithColor, totalPages));
  }

  /** `checkColorAlternative`: render the first page; a missing render is treated
      as colour, to be safe; otherwise the sampled pixels decide. */
  function ColorAlternative(ghostscriptFound: bool, rendered: Option<seq<byte>>): (r: GrayCheck)
    ensures !ghostscriptFound || rendered.None? ==> !r.isGray
    ensures ghostscriptFound && rendered.Some? ==> (r.isGray <==> !PpmHasColor(rendered))
  {
    if !ghostscriptFound then GrayCheck(false, AlternativeUnavailable)
    else if rendered.None? then GrayCheck(false, RenderMissing)
    else if PpmHasColor(rendered) then GrayCheck(false, RenderInColour)
    else GrayCheck(true, RenderGray)
  }

  // Sampling a PPM image (checkPpmForColor).

  newtype byte = x: int | 0 <= x < 256

  const NEWLINE: byte := 10
  const HASH: byte := 35

  /** How many pixels are sampled, and how many coloured ones mean colour (1%). */
  const SAMPLE_SIZE: nat := 10000
  const COLOUR_PIXEL_LIMIT: nat := 100
  const TOLERANCE: int := 5

  /** `fgets`: the bytes up to and including the next line feed, and the position
      after them; `None` at the end of the file. */
  function ReadLine(bytes: seq<byte>, pos: nat): (r: Option<(seq<byte>, nat)>)
    ensures r.None? <==> pos >= |bytes|
    ensures r.Some? ==> pos < r.value.1 <= |bytes| && r.value.0 == bytes[pos..r.value.1]
    decreases |bytes| - pos
  {
    if pos >= |bytes| then None
    else if bytes[pos] == NEWLINE then Some(([NEWLINE], pos + 1))
    else
      match ReadLine(bytes, pos + 1)
      case None => Some((bytes[pos..], |bytes|))
      case Some((rest, next)) => Some((bytes[pos..next], next))
  }

  /** The `do … while` that skips comment lines: it stops after the first line
      that does not start with '#' (the dimensions), or at the end of the file. */
  function AfterComments(bytes: seq<byte>, pos: nat): (p: nat)
    requires pos <= |bytes|
    ensures pos <= p <= |bytes|
    decreases |bytes| - pos
  {
    match ReadLine(bytes, pos)
    case None => pos
    case Some((line, next)) => if line[0] == HASH then AfterComments(bytes, next) else next
  }

  /** Position after the header: magic line, comments and dimensions, maximum value. */
  function PixelStart(bytes: seq<byte>): (p: nat)
    ensures p <= |bytes|
  {
    var afterMagic := match ReadLine(bytes, 0) case None => 0 case Some((_, next)) => next;
    var afterDims := AfterComments(bytes, afterMagic);
    match ReadLine(bytes, afterDims) case None => afterDims case Some((_, next)) => next
  }

  /** `strpos($header, 'P6') !== false || strpos($header, 'P3') !== false`. */
  predicate HasMagic(line: seq<byte>) {
    exists i :: 0 <= i < |line| - 1 && line[i] == 80 && (line[i + 1] == 54 || line[i + 1] == 51)
  }

  function Abs(x: int): nat { if x < 0 then -x else x }

  predicate ColourPixel(r: byte, g: byte, b: byte) {
    Abs(r as int - g as int) > TOLERANCE || Abs(r as int - b as int) > TOLERANCE || Abs(g as int - b as int) > TOLERANCE
  }

  /** Coloured pixels among at most `n` whole RGB triples at the start of `data`. */
  function ColourSample(data: seq<byte>, n: nat): (c: nat)
    ensures c <= n && c <= |data| / 3
    decreases n
  {
    if n == 0 || |data| < 3 then 0
    else (if ColourPixel(data[0], data[1], data[2]) then 1 else 0) + ColourSample(data[3..], n - 1)
  }

  /** The first line `fgets` returns, empty when there is none. */
  function MagicLine(bytes: seq<byte>): seq<byte> {
    match ReadLine(bytes, 0) case None => [] case Some((line, _)) => line
  }

  /** `checkPpmForColor` on the file's bytes (`None` when it cannot be opened):
      colour is assumed when the file is unreadable or not a PPM image. */
  predicate PpmHasColor(file: Option<seq<byte>>)
    ensures PpmHasColor(file) && file.Some? && HasMagic(MagicLine(file.value)) ==>
      |file.value| - PixelStart(file.value) >= 3 * (COLOUR_PIXEL_LIMIT + 1)
  {
    match file
    case None => true
    case Some(bytes) =>
      !HasMagic(MagicLine(bytes)) ||
      var start := PixelStart(bytes);
      ColourSample(bytes[start..], SAMPLE_SIZE) > COLOUR_PIXEL_LIMIT
  }

  /** The header reads of `checkPpmForColor` after the magic line: the `do … while`
      over comment lines, then the maximum-value line. */
  method SkipHeader(bytes: seq<byte>, afterMagic: nat) returns (pos: nat)
    requires afterMagic <= |bytes|
    ensures pos == (match ReadLine(bytes, AfterComments(bytes, afterMagic))
                    case None => AfterComments(bytes, afterMagic)
                    case Some((_, next)) => next)
  {
    pos := afterMagic;
    var line := ReadLine(bytes, pos);
    while line.Some? && line.value.0[0] == HASH
      invariant pos <= |bytes| && line == ReadLine(bytes, pos)
      invariant AfterComments(bytes, afterMagic) == AfterComments(bytes, pos)
      decreases |bytes| - pos
    {
      pos := line.value.1;
      line := ReadLine(bytes, pos);
    }
    if line.Some? {
      pos := line.value.1;
    }
    var maxVal := ReadLine(bytes, pos);
    if maxVal.Some? {
      pos := maxVal.value.1;
    }
  }

  /** The sampling loop: at most SAMPLE_SIZE triples, stopping at a short read. */
  method CountColourPixels(bytes: seq<byte>, start: nat) returns (colorPixels: nat)
    requires start <= |bytes|
    ensures colorPixels == ColourSample(bytes[start..], SAMPLE_SIZE)
  {
    colorPixels := 0;
    var pos := start;
    var i := 0;
    while i < SAMPLE_SIZE && pos + 3 <= |bytes|
      invariant i <= SAMPLE_SIZE && start <= pos <= |bytes|
      invariant colorPixels + ColourSample(bytes[pos..], SAMPLE_SIZE - i) == ColourSample(bytes[start..], SAMPLE_SIZE)
      decreases SAMPLE_SIZE - i
    {
      if ColourPixel(bytes[pos], bytes[pos + 1], bytes[pos + 2]) {
        colorPixels := colorPixels + 1;
      }
      assert bytes[pos..][3..] == bytes[pos + 3..];
      pos := pos + 3;
      i := i + 1;
    }
  }

  method CheckPpmForColor(file: Option<seq<byte>>) returns (hasColor: bool)
    ensures hasColor == PpmHasColor(file)
  {
    if file.None? {
      return true;
    }
    var bytes := file.value;
    var header := ReadLine(bytes, 0);
    var magic := if header.Some? then header.value.0 else [];
    if !HasMagic(magic) {
      return true;
    }
    var pos := SkipHeader(bytes, header.value.1);
    var colorPixels := CountColourPixels(bytes, pos);
    hasColor := colorPixels > COLOUR_PIXEL_LIMIT;
  }

  /** A render whose sampled area holds at most 300 bytes of pixel data (100
      pixels) can never count as colour, whatever those pixels are. */
  lemma SmallRenderIsGray(bytes: seq<byte>)
    requires PixelStart(bytes) <= |bytes| && |bytes| - PixelStart(bytes) <= 3 * COLOUR_PIXEL_LIMIT + 2
    ensures ColourSample(bytes[PixelStart(bytes)..], SAMPLE_SIZE) <= COLOUR_PIXEL_LIMIT
  {
  }

  /** Only the first 10000 pixels are looked at: bytes after them never change the
      verdict. */
  lemma {:induction false} SampleIgnoresTail(data: seq<byte>, extra: seq<byte>, n: nat)
    requires |data| >= 3 * n
    ensures ColourSample(data + extra, n) == ColourSample(data, n)
    decreases n
  {
    if n > 0 {
      assert (data + extra)[3..] == data[3..] + extra;
      assert (data + extra)[..3] == data[..3];
      SampleIgnoresTail(data[3..], extra, n - 1);
    }
  }

  /** A render whose pixels all have equal channels (up to the tolerance) is grey. */
  lemma {:induction false} GrayPixelsNeverCount(data: seq<byte>, n: nat)
    requires forall k :: 0 <= k && 3 * k + 2 < |data| ==> !ColourPixel(data[3 * k], data[3 * k + 1], data[3 * k + 2])
    ensures ColourSample(data, n) == 0
    decreases n
  {
    if n > 0 && |data| >= 3 {
      assert !ColourPixel(data[0], data[1], data[2]) by {
        assert 3 * 0 + 2 < |data|;
      }
      forall k | 0 <= k && 3 * k + 2 < |data[3..]|
        ensures !ColourPixel(data[3..][3 * k], data[3..][3 * k + 1], data[3..][3 * k + 2])
      {
        assert 3 * (k + 1) + 2 < |data|;
        assert data[3..][3 * k] == data[3 * (k + 1)];
        assert data[3..][3 * k + 1] == data[3 * (k + 1) + 1];
        assert data[3..][3 * k + 2] == data[3 * (k + 1) + 2];
      }
      GrayPixelsNeverCount(data[3..], n - 1);
    }
  }
}
