/**
 The "years in business" phrase of the wine shop page: a year count followed by
 the Russian word for "year" in the grammatical number that the count selects
 ("год", "года" or "лет").
 */
module AgePhrase {
  import opened Wrappers
  import Decimal
  import Seqs

  /** The three forms of the Russian word for "year" that the phrase can end with. */
  datatype YearWord = Let | God | Goda {
    function Text(): string {
      match this
      case Let => "лет"
      case God => "год"
      case Goda => "года"
    }
  }

  /**
   The word chosen by the shop script, rule by rule in the script's order.
   The third rule tests the last two digits, not the last one, so 22, 32, ...
   fall through to "лет". Each word is characterised exactly: "год" for a last
   digit 1 except 11, "года" only for last two digits 2..4, "лет" for everything
   else; in particular the teen check wins over the last-digit check for 11.
   */
  function ChooseWord(years: int): (w: YearWord)
    ensures w == God <==> years % 10 == 1 && years % 100 != 11
    ensures w == Goda <==> 2 <= years % 100 <= 4
    ensures w == Let <==> !(years % 10 == 1 && years % 100 != 11) && !(2 <= years % 100 <= 4)
  {
    LastDigitOfLastTwo(years);
    if 5 <= years % 100 <= 20 then Let
    else if years % 10 == 1 then God
    else if 2 <= years % 100 <= 4 then Goda
    else Let
  }

  /**
   The phrase the page shows: the count, one space, then the chosen word. It
   reads back as exactly that count and that word.
   */
  function Phrase(years: int): (s: string)
    ensures ParsePhrase(s) == Some((years, ChooseWord(years)))
  {
    PhraseRoundTripOf(years, ChooseWord(years));
    Decimal.IntText(years) + " " + ChooseWord(years).Text()
  }

  /**
   The Russian agreement rule for a whole count: singular after a last digit 1
   other than 11, paucal after a last digit 2..4 other than 12..14, and the
   genitive plural otherwise.
   */
  function RussianWord(n: int): YearWord {
    if n % 10 == 1 && n % 100 != 11 then God
    else if 2 <= n % 10 <= 4 && !(12 <= n % 100 <= 14) then Goda
    else Let
  }

  /** The script's rule with the third test reading the last digit. */
  function ChooseWordCorrected(years: int): YearWord {
    if 5 <= years % 100 <= 20 then Let
    else if years % 10 == 1 then God
    else if 2 <= years % 10 <= 4 then Goda
    else Let
  }

  /** The corrected phrase reads back as the count and the Russian word for it. */
  function PhraseCorrected(years: int): (s: string)
    ensures ParsePhrase(s) == Some((years, RussianWord(years)))
  {
    PhraseRoundTripOf(years, ChooseWordCorrected(years));
    CorrectedIsRussian(years);
    Decimal.IntText(years) + " " + ChooseWordCorrected(years).Text()
  }

  /** Reads one of the three word forms back. */
  function ParseWord(t: string): Option<YearWord> {
    if t == Let.Text() then Some(Let)
    else if t == God.Text() then Some(God)
    else if t == Goda.Text() then Some(Goda)
    else None
  }

  /** Splits a phrase at its first space and reads the count and the word. */
  function ParsePhrase(s: string): Option<(int, YearWord)> {
    var k := Seqs.IndexOf(s, ' ');
    if k == |s| then None
    else
      match (Decimal.ParseInt(s[..k]), ParseWord(s[k + 1..]))
      case (Some(n), Some(w)) => Some((n, w))
      case _ => None
  }

  // ---- arithmetic on the last two digits ----

  /** The last digit of a count is the last digit of its last two digits. */
  lemma LastDigitOfLastTwo(y: int)
    ensures y % 10 == (y % 100) % 10
  {
    var q, r := y / 100, y % 100;
    assert y == 10 * (10 * q) + r;
    assert (10 * (10 * q) + r) % 10 == r % 10;
  }

  // ---- properties of the rule as written ----

  /** The chosen word depends only on the last two digits of the count. */
  lemma WordDependsOnLastTwoDigits(a: int, b: int)
    requires a % 100 == b % 100
    ensures ChooseWord(a) == ChooseWord(b)
  {
    LastDigitOfLastTwo(a);
    LastDigitOfLastTwo(b);
  }

  /**
   The rule as written agrees with the Russian rule except when the last two
   digits are 22..24, 32..34, ..., 92..94, where it says "лет" instead of "года".
   */
  lemma AsWrittenVersusRussian(y: int)
    ensures ChooseWord(y) == RussianWord(y) <==> !(y % 100 > 20 && 2 <= y % 10 <= 4)
    ensures y % 100 > 20 && 2 <= y % 10 <= 4 ==> ChooseWord(y) == Let && RussianWord(y) == Goda
  {
    LastDigitOfLastTwo(y);
  }

  /** A concrete count on which the rule as written gives the wrong word. */
  lemma TwentyTwoYears()
    ensures Phrase(22) == "22 лет"
    ensures RussianWord(22) == Goda
  {
    assert Decimal.NatText(22) == Decimal.NatText(2) + [Decimal.DigitChar(2)] == "22";
    assert Decimal.IntText(22) == "22";
    assert ChooseWord(22) == Let;
  }

  /** The corrected rule is the Russian rule for every count. */
  lemma CorrectedIsRussian(y: int)
    ensures ChooseWordCorrected(y) == RussianWord(y)
  {
    LastDigitOfLastTwo(y);
  }

  // ---- the printed phrase ----

  /** The first space of a phrase is the one after the number, since a number has none. */
  lemma {:induction false} FirstSpaceAfterNumber(t: string, w: string)
    requires forall i :: 0 <= i < |t| ==> t[i] != ' '
    ensures Seqs.IndexOf(t + " " + w, ' ') == |t|
  {
    if |t| > 0 {
      assert (t + " " + w)[1..] == t[1..] + " " + w;
      FirstSpaceAfterNumber(t[1..], w);
    }
  }

  /** A phrase reads back as its count and word, for both rules. */
  lemma {:induction false} PhraseRoundTripOf(years: int, w: YearWord)
    ensures ParsePhrase(Decimal.IntText(years) + " " + w.Text()) == Some((years, w))
  {
    var t := Decimal.IntText(years);
    var s := t + " " + w.Text();
    FirstSpaceAfterNumber(t, w.Text());
    assert s[..|t|] == t;
    assert s[|t| + 1..] == w.Text();
    Decimal.IntTextRoundTrip(years);
  }

  /** The only text that reads as a count and a word is that count's text, one space, and the word. */
  lemma ParsePhraseCanonical(s: string, years: int, w: YearWord)
    requires ParsePhrase(s) == Some((years, w))
    ensures s == Decimal.IntText(years) + " " + w.Text()
  {
    var k := Seqs.IndexOf(s, ' ');
    Decimal.ParseIntCanonical(s[..k], years);
    assert s[k + 1..] == w.Text();
    assert s == s[..k] + " " + s[k + 1..];
  }

}
