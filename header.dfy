/**
  The fixed text that opens the acknowledgements document: the two-line
  comment `licenseComment` builds (copyright years and license identifier),
  the title, and the sentence introducing the product.
*/
module Header {

  import opened Text
  import Decimal

  const FileCreatedYear := 2021
  const SpdxLine := "<!-- SPDX-License-Identifier: WTFPL -->"

  /** The year as a template literal writes it. */
  lemma CreatedYearText()
    ensures Decimal.IntToString(FileCreatedYear) == "2021"
  {
    assert Decimal.NatToString(2) == "2";
    assert Decimal.NatToString(20) == "20";
    assert Decimal.NatToString(202) == "202";
  }

  /** The year, or the range of years, the copyright notice names. */
  function YearRange(currentYear: int): (r: string)
    ensures currentYear == FileCreatedYear ==> r == "2021"
    ensures currentYear != FileCreatedYear ==>
      && |r| > 5 && r[..5] == "2021-"
      && Decimal.IsCanonicalIntegerText(r[5..]) && Decimal.ParseInt(r[5..]) == currentYear
  {
    CreatedYearText();
    if FileCreatedYear == currentYear then Decimal.IntToString(FileCreatedYear)
    else
      var year := Decimal.IntToString(currentYear);
      Decimal.IntToStringRoundTrip(currentYear);
      var r := "2021-" + year;
      assert r[..5] == "2021-" && r[5..] == year;
      r
  }

  /** The range is one line of text. */
  lemma YearRangeHasNoBreak(currentYear: int)
    ensures '\n' !in YearRange(currentYear)
  {
    var r := YearRange(currentYear);
    if currentYear != FileCreatedYear {
      var year := r[5..];
      assert r == "2021-" + year;
      assert '\n' !in year by {
        if year[0] == '-' {
          assert year == [year[0]] + year[1..];
          assert Decimal.AllDigits(year[1..]);
        }
      }
    }
  }

  const CopyrightPrefix := "<!-- Copyright "
  const CopyrightSuffix := " de arco -->"

  function CopyrightLine(currentYear: int): string {
    CopyrightPrefix + YearRange(currentYear) + CopyrightSuffix
  }

  /** `licenseComment`: the two-line comment that opens the document. */
  function LicenseComment(currentYear: int): (r: string)
    ensures SplitLines(r) == [CopyrightLine(currentYear), SpdxLine]
  {
    var lines := [CopyrightLine(currentYear), SpdxLine];
    CopyrightLineIsSingle(currentYear);
    SpdxLineIsSingle();
    SplitJoinLf(lines);
    Join(lines, "\n")
  }

  const Title := "# Acknowledgments"
  const IntroSuffix := " makes use of the following" + " open source projects."

  function Intro(product: string): string {
    product + IntroSuffix
  }

  /** The fixed lines before the first section. */
  function Preamble(product: string, currentYear: int): seq<string> {
    [CopyrightLine(currentYear), SpdxLine, Title, "", Intro(product), ""]
  }

  lemma PreambleLinesAreSingle(product: string, currentYear: int)
    requires SingleLine(product)
    ensures SingleLines(Preamble(product, currentYear))
  {
    CopyrightLineIsSingle(currentYear);
    IntroIsSingle(product);
    SpdxLineIsSingle();
    TitleIsSingle();
  }

  lemma CopyrightLineIsSingle(currentYear: int)
    ensures SingleLine(CopyrightLine(currentYear))
  {
    YearRangeHasNoBreak(currentYear);
    CopyrightAffixesAreSingle();
    SingleLineAfter(CopyrightPrefix + YearRange(currentYear), CopyrightSuffix);
  }

  lemma IntroIsSingle(product: string)
    requires SingleLine(product)
    ensures SingleLine(Intro(product))
  {
    IntroSuffixIsSingle();
    SingleLineAfter(product, IntroSuffix);
  }

  lemma SpdxLineIsSingle()
    ensures SingleLine(SpdxLine)
  {
  }

  lemma TitleIsSingle()
    ensures SingleLine(Title)
  {
  }

  lemma IntroSuffixIsSingle()
    ensures SingleLine(IntroSuffix) && IntroSuffix != []
  {
  }

  lemma CopyrightAffixesAreSingle()
    ensures SingleLine(CopyrightPrefix) && SingleLine(CopyrightSuffix) && CopyrightSuffix != []
  {
  }
}
