/** `normalizePhoneNumber` (src/utils/formatter/phone.ts): Indonesian numbers
    are brought to the national form that starts with a trunk `0`. */
module Phone {
  import opened Text

  predicate AllDigits(s: string) {
    forall i :: 0 <= i < |s| ==> IsAsciiDigit(s[i])
  }

  /** `input.replace(/\D/g, '')`: the ASCII digits of `s`, in their order. */
  function Digits(s: string): (r: string)
    ensures AllDigits(r) && |r| <= |s|
  {
    if s == [] then []
    else (if IsAsciiDigit(s[0]) then [s[0]] else []) + Digits(s[1..])
  }

  /** The cleaned digits fall under one of the three rewriting branches:
      country code `62`, a mobile number that starts with `8`, or a number
      already in national form. Otherwise the input comes back untouched. */
  predicate Recognised(cleaned: string) {
    StartsWith(cleaned, "62") || StartsWith(cleaned, "8") || StartsWith(cleaned, "0")
  }

  function NormalizePhoneNumber(input: string): (r: string)
    ensures !Recognised(Digits(input)) ==> r == input
    ensures Recognised(Digits(input)) ==> AllDigits(r) && |r| > 0 && r[0] == '0'
    ensures Recognised(Digits(input)) ==> |r| <= |Digits(input)| + 1
  {
    var cleaned := Digits(input);
    if StartsWith(cleaned, "62") then "0" + cleaned[2..]
    else if StartsWith(cleaned, "8") then "0" + cleaned
    else if StartsWith(cleaned, "0") then cleaned
    else input
  }

  /** Cleaning distributes over concatenation. */
  lemma {:induction false} DigitsAppend(a: string, b: string)
    ensures Digits(a + b) == Digits(a) + Digits(b)
  {
    if a == [] {
      AppendEmpty(a, b);
    } else {
      ConsAppend(a, b, b);
      DigitsAppend(a[1..], b);
      AppendAssoc(if IsAsciiDigit(a[0]) then [a[0]] else [], Digits(a[1..]), Digits(b));
    }
  }

  /** Each character is judged on its own: a non-digit anywhere in the input
      is dropped and a digit is kept in place. */
  lemma DigitsAt(a: string, c: char, b: string)
    ensures !IsAsciiDigit(c) ==> Digits(a + [c] + b) == Digits(a + b)
    ensures IsAsciiDigit(c) ==> Digits(a + [c] + b) == Digits(a) + [c] + Digits(b)
  {
    DigitsAppend(a + [c], b);
    DigitsAppend(a, [c]);
    DigitsAppend(a, b);
    assert Digits([c]) == (if IsAsciiDigit(c) then [c] else []) + Digits([]);
  }

  /** A string of digits is left as it is by the cleaning step. */
  lemma {:induction false} DigitsOfDigits(s: string)
    requires AllDigits(s)
    ensures Digits(s) == s
  {
    if s != [] {
      DigitsOfDigits(s[1..]);
      assert [s[0]] + s[1..] == s;
    }
  }

  /** Normalising twice is the same as normalising once. */
  lemma NormalizeIdempotent(input: string)
    ensures NormalizePhoneNumber(NormalizePhoneNumber(input)) == NormalizePhoneNumber(input)
  {
    var r := NormalizePhoneNumber(input);
    if Recognised(Digits(input)) {
      DigitsOfDigits(r);
      assert !StartsWith(r, "62") && !StartsWith(r, "8") && StartsWith(r, "0");
    }
  }

  /** Only the digits matter once a branch applies: spaces, `+`, dashes and
      brackets are ignored, so a formatted number and its bare digits
      normalise alike. */
  lemma NormalizeIgnoresFormatting(input: string)
    requires Recognised(Digits(input))
    ensures NormalizePhoneNumber(input) == NormalizePhoneNumber(Digits(input))
  {
    DigitsOfDigits(Digits(input));
  }

  /** The three spellings of the same subscriber number, with country code,
      with trunk zero and (for mobile numbers) with neither, all normalise to
      the trunk-zero form. */
  lemma NormalizeAgreesOnSpellings(national: string)
    requires AllDigits(national)
    ensures NormalizePhoneNumber("62" + national) == "0" + national
    ensures NormalizePhoneNumber("0" + national) == "0" + national
    ensures StartsWith(national, "8") ==> NormalizePhoneNumber(national) == "0" + national
  {
    DigitsOfDigits("62" + national);
    assert ("62" + national)[2..] == national;
    DigitsOfDigits("0" + national);
    DigitsOfDigits(national);
  }
}
