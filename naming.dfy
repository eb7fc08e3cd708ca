/** The naming rules of the upload endpoint: which filenames are accepted as PDFs, and
    the display name a stored record gets (stem + "_" + millisecond timestamp + ".pdf"). */
module Naming {
  import opened Types

  const PdfExtension: string := ".pdf"

  predicate EndsWith(s: string, suffix: string) {
    |suffix| <= |s| && s[|s| - |suffix|..] == suffix
  }

  /** Lower-casing of one character; only the ASCII letters change. */
  function LowerChar(c: char): char {
    if 'A' <= c <= 'Z' then (c as int + 32) as char else c
  }

  function ToLower(s: string): string {
    seq(|s|, i requires 0 <= i < |s| => LowerChar(s[i]))
  }

  /** The type check of the upload endpoint: the lower-cased name ends in ".pdf". Every
      name the strip below shortens passes it; a passing name ends in '.' and three more
      characters. */
  predicate HasPdfSuffix(name: string): (accepted: bool)
    ensures EndsWith(name, PdfExtension) ==> accepted
    ensures accepted ==> |name| >= 4 && name[|name| - 4] == '.'
  {
    var n := |name|;
    var lower := ToLower(name);
    assert n >= 4 ==> lower[n - 4..] == [LowerChar(name[n - 4]), LowerChar(name[n - 3]), LowerChar(name[n - 2]), LowerChar(name[n - 1])];
    EndsWith(lower, PdfExtension)
  }

  /** The same check read character by character: the last four characters are '.',
      then 'p', 'd', 'f' in either case. */
  lemma HasPdfSuffixByCharacters(name: string)
    ensures HasPdfSuffix(name) <==>
      |name| >= 4 &&
      name[|name| - 4] == '.' &&
      (name[|name| - 3] == 'p' || name[|name| - 3] == 'P') &&
      (name[|name| - 2] == 'd' || name[|name| - 2] == 'D') &&
      (name[|name| - 1] == 'f' || name[|name| - 1] == 'F')
  {
    var n := |name|;
    if n >= 4 {
      var tail := ToLower(name)[n - 4..];
      assert tail == [LowerChar(name[n - 4]), LowerChar(name[n - 3]), LowerChar(name[n - 2]), LowerChar(name[n - 1])];
      assert HasPdfSuffix(name) <==> tail == PdfExtension;
    }
  }

  /** Removal of one trailing lower-case ".pdf" (the regular expression `\.pdf$`, which is
      case-sensitive although the type check is not). */
  function StripPdf(name: string): (stem: string)
    ensures |stem| <= |name| && name[..|stem|] == stem
    ensures EndsWith(name, PdfExtension) ==> name == stem + PdfExtension
    ensures !EndsWith(name, PdfExtension) ==> stem == name
  {
    if EndsWith(name, PdfExtension) then name[..|name| - 4] else name
  }

  /** Only one extension is removed: a name ending in ".pdf.pdf" keeps the inner one. */
  lemma StripPdfRemovesOnlyOne(stem: string)
    ensures StripPdf(stem + PdfExtension) == stem
    ensures StripPdf(stem + PdfExtension + PdfExtension) == stem + PdfExtension
  {
    var once := stem + PdfExtension;
    assert once[..|once| - 4] == stem;
    var twice := once + PdfExtension;
    assert twice[|twice| - 4..] == PdfExtension;
    assert twice[..|twice| - 4] == once;
  }

  /** A name whose extension is not all lower case is accepted but not stripped. */
  lemma StripPdfKeepsUpperCaseExtension(name: string)
    requires HasPdfSuffix(name) && !EndsWith(name, PdfExtension)
    ensures StripPdf(name) == name
  {
  }

  predicate IsDigit(c: char) {
    '0' <= c <= '9'
  }

  predicate AllDigits(s: string) {
    forall i :: 0 <= i < |s| ==> IsDigit(s[i])
  }

  function DigitChar(d: nat): (c: char)
    requires d < 10
    ensures IsDigit(c)
  {
    ('0' as int + d) as char
  }

  function DigitValue(c: char): nat
    requires IsDigit(c)
  {
    c as int - '0' as int
  }

  /** Decimal rendering of a non-negative number, as String.valueOf does for a long. */
  function Decimal(n: nat): (s: string)
    ensures s != [] && AllDigits(s)
    ensures s[0] == '0' ==> n == 0 && |s| == 1
    decreases n
  {
    if n < 10 then [DigitChar(n)] else Decimal(n / 10) + [DigitChar(n % 10)]
  }

  /** Reading a string of decimal digits back as a number. */
  function ParseDecimal(s: string): nat
    requires AllDigits(s)
  {
    if s == [] then 0 else ParseDecimal(s[..|s| - 1]) * 10 + DigitValue(s[|s| - 1])
  }

  lemma {:induction false} DecimalRoundTrip(n: nat)
    ensures ParseDecimal(Decimal(n)) == n
    decreases n
  {
    if n < 10 {
      assert Decimal(n)[..0] == [];
    } else {
      var s := Decimal(n);
      assert s[..|s| - 1] == Decimal(n / 10);
      DecimalRoundTrip(n / 10);
    }
  }

  /** Distinct timestamps give distinct renderings. */
  lemma DecimalInjective(a: nat, b: nat)
    requires Decimal(a) == Decimal(b)
    ensures a == b
  {
    DecimalRoundTrip(a);
    DecimalRoundTrip(b);
  }

  /** The stored display name: the stripped original name, "_", the timestamp, ".pdf". */
  function DerivedName(original: string, millis: nat): (name: string)
    ensures EndsWith(name, PdfExtension)
    ensures |StripPdf(original)| < |name| && name[..|StripPdf(original)| + 1] == StripPdf(original) + "_"
  {
    var stem := StripPdf(original);
    var name := stem + "_" + Decimal(millis) + PdfExtension;
    assert name[..|stem| + 1] == stem + "_";
    name
  }

  /** Index of the last occurrence of `c` in `s`. */
  function LastIndexOf(s: string, c: char): (r: Option<nat>)
    ensures r.Some? ==> r.value < |s| && s[r.value] == c && forall j :: r.value < j < |s| ==> s[j] != c
    ensures r.None? ==> forall j :: 0 <= j < |s| ==> s[j] != c
  {
    if s == [] then None
    else if s[|s| - 1] == c then Some(|s| - 1)
    else LastIndexOf(s[..|s| - 1], c)
  }

  /** Reading a display name back as (stem, timestamp): the timestamp is the run of digits
      between the last "_" and the final ".pdf". */
  function SplitDerivedName(name: string): Option<(string, nat)> {
    if !EndsWith(name, PdfExtension) then None
    else
      var body := name[..|name| - 4];
      match LastIndexOf(body, '_')
      case None => None
      case Some(i) =>
        var digits := body[i + 1..];
        if digits != [] && AllDigits(digits) then Some((body[..i], ParseDecimal(digits))) else None
  }

  /** The display name loses nothing: its stem and its timestamp can be read back. */
  lemma {:induction false} DerivedNameRoundTrip(original: string, millis: nat)
    ensures SplitDerivedName(DerivedName(original, millis)) == Some((StripPdf(original), millis))
  {
    var stem := StripPdf(original);
    var digits := Decimal(millis);
    var name := DerivedName(original, millis);
    var body := stem + "_" + digits;
    assert name[..|name| - 4] == body;
    assert body[|stem|] == '_';
    assert forall j :: |stem| < j < |body| ==> body[j] == digits[j - |stem| - 1];
    var last := LastIndexOf(body, '_');
    assert last == Some(|stem|);
    assert body[|stem| + 1..] == digits;
    assert body[..|stem|] == stem;
    DecimalRoundTrip(millis);
  }

  /** Two uploads stored under the same display name had the same stem and timestamp. */
  lemma DerivedNameInjective(a: string, ma: nat, b: string, mb: nat)
    requires DerivedName(a, ma) == DerivedName(b, mb)
    ensures StripPdf(a) == StripPdf(b) && ma == mb
  {
    DerivedNameRoundTrip(a, ma);
    DerivedNameRoundTrip(b, mb);
  }

  /** A name ending in lower-case ".pdf" has that extension replaced by "_<millis>.pdf". */
  lemma DerivedNameOfLowerCaseExtension(stem: string, millis: nat)
    ensures DerivedName(stem + PdfExtension, millis) == stem + "_" + Decimal(millis) + PdfExtension
  {
    StripPdfRemovesOnlyOne(stem);
  }

  /** An accepted name whose extension is not all lower case keeps it in front of the
      timestamp: "Report.PDF" becomes "Report.PDF_<millis>.pdf". */
  lemma DerivedNameOfUpperCaseExtension(millis: nat)
    ensures HasPdfSuffix("Report.PDF")
    ensures DerivedName("Report.PDF", millis) == "Report.PDF_" + Decimal(millis) + PdfExtension
  {
    HasPdfSuffixByCharacters("Report.PDF");
    assert !EndsWith("Report.PDF", PdfExtension) by {
      assert "Report.PDF"[6..] == ".PDF";
    }
  }
}
