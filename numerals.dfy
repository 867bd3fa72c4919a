/** The numeral normaliser: Arabic-Indic digits are replaced by ASCII digits.
    Both extractors build the same translation table (`str.maketrans` from the ten
    code points U+0660 .. U+0669 to "0123456789"). */
module Numerals {
  import opened Text

  /** The translation of one character. */
  function WesternChar(c: char): (r: char)
    ensures IsIndicDigit(c) ==> IsAsciiDigit(r) && DigitValue(r) == DigitValue(c)
    ensures !IsIndicDigit(c) ==> r == c
  {
    if IsIndicDigit(c) then AsciiDigit(DigitValue(c)) else c
  }

  /** `text.translate(str.maketrans('٠١٢٣٤٥٦٧٨٩', '0123456789'))`. */
  function ToWestern(s: String): (r: String)
    ensures |r| == |s|
    ensures forall i | 0 <= i < |s| :: IsIndicDigit(s[i]) ==> IsAsciiDigit(r[i]) && DigitValue(r[i]) == DigitValue(s[i])
    ensures forall i | 0 <= i < |s| :: !IsIndicDigit(s[i]) ==> r[i] == s[i]
  {
    seq(|s|, i requires 0 <= i < |s| => WesternChar(s[i]))
  }

  /** The normalised text contains no Arabic-Indic digit. */
  lemma NoIndicDigitsAfter(s: String)
    ensures forall i | 0 <= i < |ToWestern(s)| :: !IsIndicDigit(ToWestern(s)[i])
  {
  }

  /** Text without Arabic-Indic digits, and in particular every ASCII digit, is left alone. */
  lemma WesternFixedPoint(s: String)
    requires forall i | 0 <= i < |s| :: !IsIndicDigit(s[i])
    ensures ToWestern(s) == s
  {
  }

  /** Normalising twice is normalising once. */
  lemma ToWesternIdempotent(s: String)
    ensures ToWestern(ToWestern(s)) == ToWestern(s)
  {
    NoIndicDigitsAfter(s);
    WesternFixedPoint(ToWestern(s));
  }

  /** Normalisation maps each of the ten digits to the ASCII digit of the same value. */
  lemma DigitTable()
    ensures ToWestern("٠١٢٣٤٥٦٧٨٩") == "0123456789"
  {
  }

  /** Normalisation works character by character, so it commutes with slicing. */
  lemma ToWesternSlice(s: String, a: nat, b: nat)
    requires a <= b <= |s|
    ensures ToWestern(s[a..b]) == ToWestern(s)[a..b]
  {
  }
}
