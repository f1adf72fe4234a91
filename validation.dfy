/**
 * The input checks the handlers apply before they touch a table: presence of
 * a field, the telephone pattern `^07[0-9]{8}$`, the PIN rule (length 4 and
 * `^\d+$`) and the admin password length.
 */
module Validation {

  /** JavaScript's `!field` on a body field is false exactly when the field is a non-empty string. */
  predicate Present(s: string)
  {
    s != ""
  }

  /** `\d` and `[0-9]`: without the `u` flag both mean the ASCII digits. */
  predicate IsDigit(c: char)
  {
    '0' <= c <= '9'
  }

  /** One position of an anchored pattern without repetition: a literal character or `[0-9]`. */
  datatype CharClass = Literal(c: char) | AnyDigit

  predicate InClass(c: char, k: CharClass)
  {
    match k
    case Literal(l) => c == l
    case AnyDigit => IsDigit(c)
  }

  /** `s` matches `^p0 p1 ... pn$`: one character per position, nothing before or after. */
  predicate MatchesAnchored(s: string, pattern: seq<CharClass>)
  {
    if pattern == [] then s == []
    else s != [] && InClass(s[0], pattern[0]) && MatchesAnchored(s[1..], pattern[1..])
  }

  /** `07[0-9]{8}`, with the repetition written out. */
  const TelephonePattern: seq<CharClass> :=
    [Literal('0'), Literal('7'), AnyDigit, AnyDigit, AnyDigit, AnyDigit, AnyDigit, AnyDigit, AnyDigit, AnyDigit]

  /** `/^07[0-9]{8}$/.test(telephone)` */
  predicate IsTelephone(s: string)
  {
    MatchesAnchored(s, TelephonePattern)
  }

  /** `/^\d+$/.test(s)`: one digit, then any number of digits, then the end. */
  predicate DigitsOnly(s: string)
  {
    |s| > 0 && IsDigit(s[0]) && (|s| == 1 || DigitsOnly(s[1..]))
  }

  /** The negation of the rejection `pin.length !== 4 || !/^\d+$/.test(pin)`. */
  predicate IsPin(s: string)
  {
    |s| == 4 && DigitsOnly(s)
  }

  /** The negation of the admin-signup rejection `password.length < 6`. */
  predicate IsAdminPassword(p: string)
  {
    |p| >= 6
  }

  /** An anchored pattern matches exactly the strings of its length that fit it position by position. */
  lemma {:induction false} MatchesAnchoredAt(s: string, pattern: seq<CharClass>)
    ensures MatchesAnchored(s, pattern) <==>
              |s| == |pattern| && forall i :: 0 <= i < |s| ==> InClass(s[i], pattern[i])
  {
    if pattern != [] && s != [] {
      MatchesAnchoredAt(s[1..], pattern[1..]);
      if |s| == |pattern| && forall i :: 0 <= i < |s| ==> InClass(s[i], pattern[i]) {
        forall i | 0 <= i < |s[1..]| ensures InClass(s[1..][i], pattern[1..][i]) {
          assert s[1..][i] == s[i + 1] && pattern[1..][i] == pattern[i + 1];
        }
      }
      if MatchesAnchored(s, pattern) {
        forall i | 0 <= i < |s| ensures InClass(s[i], pattern[i]) {
          if i > 0 {
            assert s[1..][i - 1] == s[i] && pattern[1..][i - 1] == pattern[i];
          }
        }
      }
    }
  }

  /** The telephone rule spelled out: ten characters, `0`, `7`, then eight digits. */
  lemma TelephoneShape(s: string)
    ensures IsTelephone(s) <==>
              |s| == 10 && s[0] == '0' && s[1] == '7' && forall i :: 2 <= i < 10 ==> IsDigit(s[i])
  {
    MatchesAnchoredAt(s, TelephonePattern);
    assert |TelephonePattern| == 10;
    assert TelephonePattern[0] == Literal('0') && TelephonePattern[1] == Literal('7');
    assert forall i :: 2 <= i < 10 ==> TelephonePattern[i] == AnyDigit;
  }

  /** `^\d+$` spelled out: non-empty and every character a digit. */
  lemma {:induction false} DigitsOnlyAt(s: string)
    ensures DigitsOnly(s) <==> |s| > 0 && forall i :: 0 <= i < |s| ==> IsDigit(s[i])
  {
    if |s| > 1 {
      DigitsOnlyAt(s[1..]);
      assert forall i :: 1 <= i < |s| ==> s[i] == s[1..][i - 1];
    }
  }

  /** The PIN rule spelled out: exactly four characters, all digits. */
  lemma PinShape(s: string)
    ensures IsPin(s) <==> |s| == 4 && forall i :: 0 <= i < 4 ==> IsDigit(s[i])
  {
    DigitsOnlyAt(s);
  }

  /** A valid telephone is a ten-digit number and therefore passes `^\d+$` too, but is never a PIN. */
  lemma TelephoneIsDigits(s: string)
    requires IsTelephone(s)
    ensures DigitsOnly(s) && |s| == 10 && !IsPin(s)
  {
    TelephoneShape(s);
    DigitsOnlyAt(s);
  }
}
