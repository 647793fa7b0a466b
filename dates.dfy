/**
 * The publication date of a PubMed record: the Year, Month and Day children
 * of its PubDate element, joined as `year-month-day` with month and day
 * zero-padded to two characters, and a fixed default when the element is
 * absent or a month or day element has no text.
 */
module Dates {
  import opened Wrappers

  /** A child element looked up by name: absent, or present with or without text. */
  datatype Child = Missing | Element(text: Option<string>)

  /** The PubDate element of an article, if it has one. */
  datatype PubDateElem = NoPubDate | PubDate(year: Child, month: Child, day: Child)

  const DefaultDate := "2024-01-01"

  function Zeros(n: nat): (z: string)
    ensures |z| == n && forall i :: 0 <= i < n ==> z[i] == '0'
  {
    seq(n, _ => '0')
  }

  predicate IsSign(c: char) {
    c == '+' || c == '-'
  }

  /** Python's `str.zfill(width)`: zeros are inserted after a leading sign, up to `width` characters. */
  function ZFill(s: string, width: nat): string {
    if |s| >= width then s
    else if |s| > 0 && IsSign(s[0]) then [s[0]] + Zeros(width - |s|) + s[1..]
    else Zeros(width - |s|) + s
  }

  /**
   * `_extract_publication_date`. A child's missing text prints as "None"
   * for the year and raises for the month and day when `zfill` is applied,
   * which the surrounding handler turns into the default date.
   */
  function PublicationDate(p: PubDateElem): string {
    match p
    case NoPubDate => DefaultDate
    case PubDate(year, month, day) =>
      if month == Element(None) || day == Element(None) then DefaultDate
      else YearText(year) + "-" + ZFill(PartText(month), 2) + "-" + ZFill(PartText(day), 2)
  }

  function YearText(c: Child): string {
    match c
    case Missing => "2024"
    case Element(t) => t.GetOr("None")
  }

  /** The text of a month or day child, "01" when it is absent; only called when present children have text. */
  function PartText(c: Child): string {
    match c
    case Missing => "01"
    case Element(t) => t.GetOr("")
  }

  // ----- zfill -----

  /** `zfill` never shortens and pads to exactly `width` when the text is shorter. */
  lemma ZFillLength(s: string, width: nat)
    ensures |ZFill(s, width)| == if |s| >= width then |s| else width
  {
  }

  /** Without a sign, `zfill` prepends zeros and keeps the text whole at the end. */
  lemma ZFillUnsigned(s: string, width: nat) returns (k: nat)
    requires s == [] || !IsSign(s[0])
    ensures k + |s| == |ZFill(s, width)|
    ensures ZFill(s, width) == Zeros(k) + s
  {
    if |s| >= width {
      k := 0;
      assert Zeros(0) + s == s;
    } else {
      k := width - |s|;
    }
  }

  /** With a sign, `zfill` keeps the sign in front and the digits at the end. */
  lemma ZFillSigned(s: string, width: nat) returns (k: nat)
    requires s != [] && IsSign(s[0])
    ensures ZFill(s, width) == [s[0]] + Zeros(k) + s[1..]
    ensures k == if |s| >= width then 0 else width - |s|
  {
    if |s| >= width {
      k := 0;
      assert [s[0]] + Zeros(0) + s[1..] == s;
    } else {
      k := width - |s|;
    }
  }

  /** Padding an already padded text changes nothing. */
  lemma ZFillIdempotent(s: string, width: nat)
    ensures ZFill(ZFill(s, width), width) == ZFill(s, width)
  {
    ZFillLength(s, width);
  }

  // ----- The date -----

  predicate IsDigit(c: char) {
    '0' <= c <= '9'
  }

  predicate IsDigits(s: string) {
    forall i :: 0 <= i < |s| ==> IsDigit(s[i])
  }

  /** `YYYY-MM-DD`. */
  predicate IsIsoDate(r: string) {
    |r| == 10 && r[4] == '-' && r[7] == '-'
    && IsDigits(r[..4]) && IsDigits(r[5..7]) && IsDigits(r[8..])
  }

  /** The date has a default whenever the element is absent or a month or day child has no text. */
  lemma DefaultWhenUnreadable(p: PubDateElem)
    requires p.NoPubDate? || p.month == Element(None) || p.day == Element(None)
    ensures PublicationDate(p) == "2024-01-01"
  {
  }

  /** An element with none of the three children gives the default date too. */
  lemma AllMissingIsDefault()
    ensures PublicationDate(PubDate(Missing, Missing, Missing)) == DefaultDate
  {
    assert ZFill("01", 2) == "01";
  }

  /** A year child without text prints as "None" in front of the date. */
  lemma TextlessYear(month: Child, day: Child)
    requires month != Element(None) && day != Element(None)
    ensures PublicationDate(PubDate(Element(None), month, day))[..5] == "None-"
  {
  }

  /** A padded one- or two-digit part is exactly two digits and keeps its own digits at the end. */
  lemma PaddedPart(s: string)
    requires 1 <= |s| <= 2 && IsDigits(s)
    ensures |ZFill(s, 2)| == 2 && IsDigits(ZFill(s, 2))
    ensures ZFill(s, 2)[2 - |s|..] == s
  {
  }

  /** Joining a four-digit year and two two-digit parts with dashes gives an ISO date. */
  lemma JoinIsIso(y: string, mm: string, dd: string)
    requires |y| == 4 && IsDigits(y) && |mm| == 2 && IsDigits(mm) && |dd| == 2 && IsDigits(dd)
    ensures IsIsoDate(y + "-" + mm + "-" + dd)
  {
    var r := y + "-" + mm + "-" + dd;
    assert r[..4] == y;
    assert r[5..7] == mm;
    assert r[8..] == dd;
  }

  /** A year child that is absent or holds four digits. */
  predicate YearOfDigits(c: Child) {
    c.Missing? || (c.text.Some? && |c.text.value| == 4 && IsDigits(c.text.value))
  }

  /** A month or day child that is absent or holds one or two digits. */
  predicate PartOfDigits(c: Child) {
    c.Missing? || (c.text.Some? && 1 <= |c.text.value| <= 2 && IsDigits(c.text.value))
  }

  lemma YearDigits(c: Child)
    requires YearOfDigits(c)
    ensures |YearText(c)| == 4 && IsDigits(YearText(c))
  {
  }

  lemma PartDigits(c: Child)
    requires PartOfDigits(c)
    ensures c != Element(None)
    ensures |ZFill(PartText(c), 2)| == 2 && IsDigits(ZFill(PartText(c), 2))
  {
    PaddedPart(PartText(c));
  }

  /**
   * A four-digit year with one- or two-digit month and day (or absent ones) gives an
   * ISO date whose fields are the year's text and the month's and day's digits.
   */
  lemma DigitsGiveIsoDate(p: PubDateElem)
    requires p.PubDate? && YearOfDigits(p.year) && PartOfDigits(p.month) && PartOfDigits(p.day)
    ensures IsIsoDate(PublicationDate(p))
    ensures PublicationDate(p)[..4] == YearText(p.year)
    ensures PublicationDate(p)[7 - |PartText(p.month)|..7] == PartText(p.month)
    ensures PublicationDate(p)[10 - |PartText(p.day)|..] == PartText(p.day)
  {
    YearDigits(p.year);
    PartDigits(p.month);
    PartDigits(p.day);
    var y, mm, dd := YearText(p.year), ZFill(PartText(p.month), 2), ZFill(PartText(p.day), 2);
    JoinIsIso(y, mm, dd);
    var r := y + "-" + mm + "-" + dd;
    assert r[..4] == y;
    assert r[5..7] == mm;
    assert r[8..] == dd;
  }

  /**
   * Each child is read on its own: the date joins the year's text and the padded
   * month and day texts, and an absent child stands for "2024" as the year and
   * "01" as the month or day.
   */
  lemma DateFromChildren(year: Child, month: Child, day: Child)
    requires month != Element(None) && day != Element(None)
    ensures PublicationDate(PubDate(year, month, day))
         == YearText(year) + "-" + ZFill(PartText(month), 2) + "-" + ZFill(PartText(day), 2)
    ensures year.Missing? ==> YearText(year) == "2024"
    ensures month.Missing? ==> ZFill(PartText(month), 2) == "01"
    ensures day.Missing? ==> ZFill(PartText(day), 2) == "01"
    ensures year.Element? ==> YearText(year) == year.text.GetOr("None")
    ensures month.Element? ==> PartText(month) == month.text.value
    ensures day.Element? ==> PartText(day) == day.text.value
  {
    assert ZFill("01", 2) == "01";
  }

  /** The date of a record with a full PubDate, read the way the source reads it. */
  lemma ExampleDate()
    ensures PublicationDate(PubDate(Element(Some("2023")), Element(Some("5")), Missing)) == "2023-05-01"
    ensures PublicationDate(PubDate(Element(Some("2023")), Element(Some("Jan")), Element(Some("7")))) == "2023-Jan-07"
  {
    assert ZFill("5", 2) == "05";
    assert ZFill("01", 2) == "01";
    assert ZFill("Jan", 2) == "Jan";
    assert ZFill("7", 2) == "07";
  }
}
