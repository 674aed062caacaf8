/** `isEmail` (src/utils/function/validation.ts): the trimmed text is tested
    against `^[a-zA-Z0-9._%+-]+@[a-zA-Z0-9.-]+\.[a-zA-Z]{2,}$`. The regular
    expression is written here twice: as the decomposition it accepts
    (`EmailShape`) and as a direct scan (`ScanEmail`), proved equal. */
module Validation {
  import opened Base
  import opened Text

  /** `[a-zA-Z0-9._%+-]` */
  predicate IsLocalChar(c: char) {
    IsAsciiLetter(c) || IsAsciiDigit(c) || c == '.' || c == '_' || c == '%' || c == '+' || c == '-'
  }

  /** `[a-zA-Z0-9.-]` */
  predicate IsDomainChar(c: char) {
    IsAsciiLetter(c) || IsAsciiDigit(c) || c == '.' || c == '-'
  }

  predicate AllLocal(s: string) { forall i :: 0 <= i < |s| ==> IsLocalChar(s[i]) }
  predicate AllDomain(s: string) { forall i :: 0 <= i < |s| ==> IsDomainChar(s[i]) }
  predicate AllLetters(s: string) { forall i :: 0 <= i < |s| ==> IsAsciiLetter(s[i]) }

  /** The regular expression matches `t` with the `@` at `at` and the `.`
      before the top-level label at `dot`: a non-empty local part, a
      non-empty domain, and two or more letters after the dot. */
  predicate EmailSplit(t: string, at: nat, dot: nat) {
    && 0 < at && at + 1 < dot && dot + 2 < |t|
    && t[at] == '@' && t[dot] == '.'
    && AllLocal(t[..at]) && AllDomain(t[at + 1..dot]) && AllLetters(t[dot + 1..])
  }

  /** The language of the regular expression. */
  ghost predicate EmailShape(t: string) {
    exists at: nat, dot: nat :: EmailSplit(t, at, dot)
  }

  /** A scan that decides the regular expression: the first `@` splits the
      local part from the rest, and the last `.` of the rest splits the
      domain from the top-level label. */
  function ScanEmail(t: string): bool {
    match IndexOf(t, '@')
    case None => false
    case Some(at) =>
      match LastIndexOf(t[at + 1..], '.')
      case None => false
      case Some(k) => EmailSplit(t, at, at + 1 + k)
  }

  /** The three parts of a match, character by character. */
  lemma EmailSplitChars(t: string, at: nat, dot: nat)
    requires EmailSplit(t, at, dot)
    ensures forall k :: 0 <= k < at ==> IsLocalChar(t[k])
    ensures forall k :: at < k < dot ==> IsDomainChar(t[k])
    ensures forall k :: dot < k < |t| ==> IsAsciiLetter(t[k])
    ensures forall k :: 0 <= k < |t| && k != at ==> IsLocalChar(t[k])
  {
    assert forall k :: 0 <= k < at ==> t[..at][k] == t[k];
    assert forall k :: at < k < dot ==> t[at + 1..dot][k - at - 1] == t[k];
    assert forall k :: dot < k < |t| ==> t[dot + 1..][k - dot - 1] == t[k];
  }

  /** No character of the local class is whitespace or an `@`; the domain
      and top-level classes are narrower still. */
  lemma LocalCharVisible(c: char)
    requires IsLocalChar(c)
    ensures !IsWhitespace(c) && c != '@'
  {
  }

  /** Whatever the scan accepts, the regular expression matches. */
  lemma ScanEmailSound(t: string)
    requires ScanEmail(t)
    ensures EmailShape(t)
  {
    var at := IndexOf(t, '@').value;
    var dot := at + 1 + LastIndexOf(t[at + 1..], '.').value;
    assert EmailSplit(t, at, dot);
  }

  /** Whatever the regular expression matches, the scan accepts, splitting
      at the same places: no character class admits '@', so `at` is the
      first '@', and the letters after `dot` hold no '.', so `dot` is the
      last '.'. */
  lemma ScanEmailComplete(t: string, at: nat, dot: nat)
    requires EmailSplit(t, at, dot)
    ensures IndexOf(t, '@') == Some(at)
    ensures LastIndexOf(t[at + 1..], '.') == Some(dot - at - 1)
    ensures ScanEmail(t)
  {
    EmailSplitChars(t, at, dot);
    var rest := t[at + 1..];
    assert forall k :: dot - at - 1 < k < |rest| ==> rest[k] == t[k + at + 1];
    assert rest[dot - at - 1] == '.';
  }

  /** The scan accepts exactly the strings the regular expression matches. */
  lemma ScanEmailIsShape(t: string)
    ensures ScanEmail(t) <==> EmailShape(t)
  {
    if ScanEmail(t) {
      ScanEmailSound(t);
    }
    if EmailShape(t) {
      var at: nat, dot: nat :| EmailSplit(t, at, dot);
      ScanEmailComplete(t, at, dot);
    }
  }

  /** `isEmail(text)`: the trimmed text matches the regular expression. */
  function IsEmail(text: string): (ok: bool)
    ensures ok <==> EmailShape(Trim(text))
  {
    ScanEmailIsShape(Trim(text));
    ScanEmail(Trim(text))
  }

  /** Leading or trailing whitespace never changes the verdict. */
  lemma IsEmailIgnoresPadding(lead: string, text: string, trail: string)
    requires AllWhitespace(lead) && AllWhitespace(trail)
    ensures IsEmail(lead + text + trail) == IsEmail(text)
  {
    TrimIgnoresPadding(lead, text, trail);
  }

  /** What an accepted address looks like once trimmed: exactly one `@`, a
      non-empty local part of `[a-zA-Z0-9._%+-]`, a non-empty domain of
      `[a-zA-Z0-9.-]`, a final `.` and two or more letters, and no
      whitespace anywhere, so whitespace inside the address rejects it. */
  lemma AcceptedEmail(text: string)
    requires IsEmail(text)
    ensures var t := Trim(text);
      exists at: nat, dot: nat ::
        && 0 < at < dot < |t| - 2
        && (forall k :: 0 <= k < |t| && t[k] == '@' ==> k == at)
        && AllLocal(t[..at]) && t[at] == '@'
        && at + 1 < dot && AllDomain(t[at + 1..dot])
        && t[dot] == '.' && |t| - dot - 1 >= 2 && AllLetters(t[dot + 1..])
    ensures forall k :: 0 <= k < |Trim(text)| ==> !IsWhitespace(Trim(text)[k])
  {
    var t := Trim(text);
    var at: nat, dot: nat :| EmailSplit(t, at, dot);
    EmailSplitChars(t, at, dot);
    forall k | 0 <= k < |t|
      ensures !IsWhitespace(t[k]) && (t[k] == '@' ==> k == at)
    {
      if k != at {
        LocalCharVisible(t[k]);
      }
    }
  }
}
