/** Reading the table that Poppler's `pdfimages -list` prints, one embedded image
    per row:

      page num type width height color comp bpc enc interp object ID x-ppi y-ppi size ratio

    Two regular expressions read it. The auditor's (VucemValidatorController.php)
    requires `\w+` for the enc and interp columns; the converter's (VucemPdfConverter.php)
    accepts `\S+` there. Both are anchored at the start of the line only:
    `^\s*` then fourteen groups separated by `\s+`.

    Every group but the last is followed by `\s+` and matches only non-space
    characters, so it must span a whole whitespace-separated field; and each `\s+`
    is followed by a group that starts with a non-space character, so it spans a
    whole gap. A line therefore matches exactly when its first thirteen fields have
    the required shapes and a fourteenth field starting with a digit follows; the
    last group (`y-ppi`) is the digit prefix of that fourteenth field. `MatchRow`
    decides this on the fields of the line. */
module PdfImagesList {
  import opened Text
  import opened Optional

  /** Length of the leading run of non-space characters. */
  function NonSpaceRun(s: string): (n: nat)
    ensures n <= |s|
    ensures forall k :: 0 <= k < n ==> !IsSpace(s[k])
    ensures n < |s| ==> IsSpace(s[n])
  {
    if s == [] || IsSpace(s[0]) then 0 else 1 + NonSpaceRun(s[1..])
  }

  /** The whitespace-separated fields of a line, left to right. */
  function Fields(s: string): (fs: seq<string>)
    ensures forall k :: 0 <= k < |fs| ==> fs[k] != [] && forall c :: c in fs[k] ==> !IsSpace(c)
    decreases |s|
  {
    if s == [] then []
    else if IsSpace(s[0]) then Fields(s[1..])
    else
      var n := NonSpaceRun(s);
      [s[..n]] + Fields(s[n..])
  }

  /** `\d+`, `\w+` and `\S+`. */
  datatype FieldClass = DigitsField | WordField | NonSpaceField

  predicate InClass(f: string, c: FieldClass) {
    f != [] &&
    match c
    case DigitsField => AllDigits(f)
    case WordField => forall ch :: ch in f ==> IsWordChar(ch)
    case NonSpaceField => forall ch :: ch in f ==> !IsSpace(ch)
  }

  /** Whose regular expression reads the table. */
  datatype ListPattern = AuditorPattern | ConverterPattern

  /** The classes the first thirteen groups demand, column by column. */
  function Columns(pattern: ListPattern): (cs: seq<FieldClass>)
    ensures |cs| == 13
  {
    var encInterp := if pattern == AuditorPattern then WordField else NonSpaceField;
    [DigitsField, DigitsField, WordField, DigitsField, DigitsField, WordField, DigitsField,
     DigitsField, encInterp, encInterp, DigitsField, DigitsField, DigitsField]
  }

  predicate RowShape(fs: seq<string>, pattern: ListPattern) {
    |fs| >= 14 &&
    (forall k :: 0 <= k < 13 ==> InClass(fs[k], Columns(pattern)[k])) &&
    fs[13] != [] && IsDigit(fs[13][0])
  }

  /** One matched row: the captured columns the controllers keep. */
  datatype Row = Row(page: nat, num: nat, kind: string, width: nat, height: nat,
                     color: string, xPpi: nat, yPpi: nat)

  /** `preg_match` of the row pattern on one line of the table. */
  function MatchRow(line: string, pattern: ListPattern): (r: Option<Row>)
    ensures r.Some? <==> RowShape(Fields(line), pattern)
    ensures r.Some? ==>
      var fs := Fields(line);
      r.value.page == DigitsValue(fs[0]) && r.value.num == DigitsValue(fs[1]) &&
      r.value.xPpi == DigitsValue(fs[12]) &&
      r.value.yPpi == DigitsValue(fs[13][..DigitRun(fs[13])])
  {
    var fs := Fields(line);
    if !RowShape(fs, pattern) then None
    else
      assert InClass(fs[0], Columns(pattern)[0]) && InClass(fs[1], Columns(pattern)[1]);
      assert InClass(fs[3], Columns(pattern)[3]) && InClass(fs[4], Columns(pattern)[4]);
      assert InClass(fs[12], Columns(pattern)[12]);
      Some(Row(DigitsValue(fs[0]), DigitsValue(fs[1]), fs[2], DigitsValue(fs[3]), DigitsValue(fs[4]),
               fs[5], DigitsValue(fs[12]), DigitsValue(fs[13][..DigitRun(fs[13])])))
  }

  /** Every row the auditor's stricter pattern accepts, the converter's accepts too,
      with the same captured values. */
  lemma AuditorRowsAreConverterRows(line: string)
    ensures MatchRow(line, AuditorPattern).Some? ==> MatchRow(line, ConverterPattern) == MatchRow(line, AuditorPattern)
  {
    var fs := Fields(line);
    if RowShape(fs, AuditorPattern) {
      forall k | 0 <= k < 13 ensures InClass(fs[k], Columns(ConverterPattern)[k]) {
        assert InClass(fs[k], Columns(AuditorPattern)[k]);
      }
    }
  }

  /** `intval(round(($xPpi + $yPpi) / 2))`: PHP rounds halves away from zero, so on
      non-negative densities this is the mean rounded half up. */
  function AverageDpi(xPpi: nat, yPpi: nat): (dpi: nat)
    ensures 2 * dpi - 1 <= xPpi + yPpi <= 2 * dpi
    ensures dpi == 300 <==> xPpi + yPpi == 599 || xPpi + yPpi == 600
  {
    (xPpi + yPpi + 1) / 2
  }

  /** The code's resolution rule accepts an image whose two axes differ as long as
      their rounded mean is 300. */
  lemma AverageRuleAcceptsUnequalAxes()
    ensures AverageDpi(300, 299) == 300 && AverageDpi(301, 299) == 300 && AverageDpi(299, 299) == 299
  {
  }

  lemma {:induction false} FirstField(s: string, i: nat)
    requires i < |s| && !IsSpace(s[i]) && forall k :: 0 <= k < i ==> IsSpace(s[k])
    ensures |Fields(s)| >= 1 && Fields(s)[0][0] == s[i]
    decreases i
  {
    if i > 0 {
      FirstField(s[1..], i - 1);
    }
  }

  lemma {:induction false} BlankHasNoFields(s: string)
    requires forall c :: c in s ==> IsSpace(c)
    ensures Fields(s) == []
    decreases |s|
  {
    if s != [] {
      BlankHasNoFields(s[1..]);
    }
  }

  /** Lines whose first non-blank character is not a digit (the column header
      "page num type …" and the dashed separator under it) and blank lines are
      never rows, under either pattern. */
  lemma NonRowLines(line: string, pattern: ListPattern)
    requires (forall c :: c in line ==> IsSpace(c)) ||
             exists i :: 0 <= i < |line| && !IsSpace(line[i]) && !IsDigit(line[i]) &&
                         forall k :: 0 <= k < i ==> IsSpace(line[k])
    ensures MatchRow(line, pattern) == None
  {
    if forall c :: c in line ==> IsSpace(c) {
      BlankHasNoFields(line);
    } else {
      var i :| 0 <= i < |line| && !IsSpace(line[i]) && !IsDigit(line[i]) &&
               forall k :: 0 <= k < i ==> IsSpace(line[k]);
      FirstField(line, i);
    }
  }
}
