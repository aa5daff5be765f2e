/**
  The date-time validator of datetime.c.

  `IsDateTime(s, len)` follows the position-indexed, short-circuiting checks of
  the C function `isDateTime`: a length gate (20 or 25), four year digits,
  fixed separators, two-character fields checked character by character, and a
  time-zone suffix that is either `Z` (length 20) or `(+|-)hh:mm` (length 25).

  The ranges are the ones the checks implement, not the ones the comment above
  the C function claims: month 01-23, day 01-31, hour 00-59.
 */
module DateTime {

  /** An ASCII decimal digit; `isdigit` in the "C" locale. */
  predicate IsDigit(c: char) {
    '0' <= c <= '9'
  }

  /** The value of an ASCII digit character. */
  function DigitValue(c: char): (v: nat)
    requires IsDigit(c)
    ensures v < 10
  {
    c as int - '0' as int
  }

  /** The value of the two-digit field starting at position `i`. */
  function FieldValue(s: seq<char>, i: nat): (v: nat)
    requires i + 1 < |s| && IsDigit(s[i]) && IsDigit(s[i + 1])
    ensures v < 100
  {
    10 * DigitValue(s[i]) + DigitValue(s[i + 1])
  }

  /** The month check: `0` then 1-9, `1` then 0-9, or `2` then 0-3. */
  predicate MonthChars(a: char, b: char) {
    (a == '0' && '1' <= b <= '9') ||
    (a == '1' && '0' <= b <= '9') ||
    (a == '2' && '0' <= b <= '3')
  }

  /** The day check: `0` then 1-9, `1` or `2` then 0-9, or `3` then 0-1. */
  predicate DayChars(a: char, b: char) {
    (a == '0' && '1' <= b <= '9') ||
    (a == '1' && '0' <= b <= '9') ||
    (a == '2' && '0' <= b <= '9') ||
    (a == '3' && '0' <= b <= '1')
  }

  /** The check shared by hour, minute, second and both offset fields:
      first character 0-5, second 0-9. */
  predicate SexagesimalChars(a: char, b: char) {
    '0' <= a <= '5' && '0' <= b <= '9'
  }

  /** `YYYY-MM-DDThh:mm:ss`, the first 19 characters, in the order the C code
      checks them; the first failing check decides. */
  predicate PrefixOk(s: seq<char>)
    requires |s| >= 19
  {
    if !(IsDigit(s[0]) && IsDigit(s[1]) && IsDigit(s[2]) && IsDigit(s[3])) then false
    else if s[4] != '-' then false
    else if !MonthChars(s[5], s[6]) then false
    else if s[7] != '-' then false
    else if !DayChars(s[8], s[9]) then false
    else if s[10] != 'T' then false
    else if !SexagesimalChars(s[11], s[12]) then false
    else if s[13] != ':' then false
    else if !SexagesimalChars(s[14], s[15]) then false
    else if s[16] != ':' then false
    else SexagesimalChars(s[17], s[18])
  }

  /** The `(+|-)hh:mm` suffix at positions 19-24. */
  predicate OffsetOk(s: seq<char>)
    requires |s| >= 25
  {
    (s[19] == '+' || s[19] == '-') &&
    SexagesimalChars(s[20], s[21]) &&
    s[22] == ':' &&
    SexagesimalChars(s[23], s[24])
  }

  /** The C function `isDateTime(s, len)`. The caller must supply a buffer
      holding at least `len` characters whenever `len` passes the length gate;
      for any other `len` nothing is read. */
  predicate IsDateTime(s: seq<char>, len: int)
    requires len == 20 || len == 25 ==> len <= |s|
  {
    if len != 20 && len != 25 then false
    else if !PrefixOk(s) then false
    else if len == 20 then s[19] == 'Z'
    else OffsetOk(s)
  }

  /** A token as `main` passes it: its own length, as `strlen` gives it. */
  predicate Accepted(token: seq<char>) {
    IsDateTime(token, |token|)
  }

  /*
   * Field-level characterisations: each character check accepts exactly the
   * two-digit strings whose value lies in the implemented range.
   */

  /** Numeric reading of a two-character field. */
  predicate DigitPairIn(a: char, b: char, lo: nat, hi: nat) {
    IsDigit(a) && IsDigit(b) && lo <= 10 * DigitValue(a) + DigitValue(b) <= hi
  }

  lemma MonthCharsRange(a: char, b: char)
    ensures MonthChars(a, b) <==> DigitPairIn(a, b, 1, 23)
  {
  }

  lemma DayCharsRange(a: char, b: char)
    ensures DayChars(a, b) <==> DigitPairIn(a, b, 1, 31)
  {
  }

  lemma SexagesimalCharsRange(a: char, b: char)
    ensures SexagesimalChars(a, b) <==> DigitPairIn(a, b, 0, 59)
  {
  }

  /** The value-level grammar: what a string must look like to be accepted,
      written with field values instead of character checks. */
  predicate Separators(s: seq<char>)
    requires |s| >= 19
  {
    s[4] == '-' && s[7] == '-' && s[10] == 'T' && s[13] == ':' && s[16] == ':'
  }

  predicate YearDigits(s: seq<char>)
    requires |s| >= 4
  {
    IsDigit(s[0]) && IsDigit(s[1]) && IsDigit(s[2]) && IsDigit(s[3])
  }

  predicate FieldIn(s: seq<char>, i: nat, lo: nat, hi: nat)
    requires i + 1 < |s|
  {
    IsDigit(s[i]) && IsDigit(s[i + 1]) && lo <= FieldValue(s, i) <= hi
  }

  predicate PrefixGrammar(s: seq<char>)
    requires |s| >= 19
  {
    YearDigits(s) && Separators(s) &&
    FieldIn(s, 5, 1, 23) &&     // month
    FieldIn(s, 8, 1, 31) &&     // day
    FieldIn(s, 11, 0, 59) &&    // hour
    FieldIn(s, 14, 0, 59) &&    // minute
    FieldIn(s, 17, 0, 59)       // second
  }

  predicate SuffixGrammar(s: seq<char>)
    requires |s| == 20 || |s| == 25
  {
    if |s| == 20 then s[19] == 'Z'
    else (s[19] == '+' || s[19] == '-') && FieldIn(s, 20, 0, 59) &&
         s[22] == ':' && FieldIn(s, 23, 0, 59)
  }

  predicate Grammar(s: seq<char>) {
    (|s| == 20 || |s| == 25) && PrefixGrammar(s) && SuffixGrammar(s)
  }

  lemma {:induction false} PrefixOkIffGrammar(s: seq<char>)
    requires |s| >= 19
    ensures PrefixOk(s) <==> PrefixGrammar(s)
  {
    MonthCharsRange(s[5], s[6]);
    DayCharsRange(s[8], s[9]);
    SexagesimalCharsRange(s[11], s[12]);
    SexagesimalCharsRange(s[14], s[15]);
    SexagesimalCharsRange(s[17], s[18]);
  }

  /** The validator accepts a token exactly when the token follows the
      value-level grammar. */
  lemma {:induction false} AcceptedIffGrammar(s: seq<char>)
    ensures Accepted(s) <==> Grammar(s)
  {
    if |s| == 20 || |s| == 25 {
      PrefixOkIffGrammar(s);
      if |s| == 25 {
        SexagesimalCharsRange(s[20], s[21]);
        SexagesimalCharsRange(s[23], s[24]);
      }
    }
  }

  /** Any length other than 20 and 25 is rejected before a character is read. */
  lemma LengthGate(s: seq<char>, len: int)
    requires len != 20 && len != 25
    ensures !IsDateTime(s, len)
  {
  }

  /** An accepted string has four year digits and the fixed separators. */
  lemma AcceptedHasSeparators(s: seq<char>, len: int)
    requires len == 20 || len == 25 ==> len <= |s|
    requires IsDateTime(s, len)
    ensures len == 20 || len == 25
    ensures YearDigits(s) && Separators(s)
  {
  }

  /** With a well-formed prefix, a length-20 string is accepted exactly when
      position 19 is `Z`, and a length-25 string exactly when positions 19-24
      are a sign, an hour 00-59, `:` and a minute 00-59. */
  lemma {:induction false} SuffixRule(s: seq<char>, len: int)
    requires len == 20 || len == 25
    requires len <= |s|
    requires PrefixGrammar(s)
    ensures len == 20 ==> (IsDateTime(s, len) <==> s[19] == 'Z')
    ensures len == 25 ==>
      (IsDateTime(s, len) <==>
        (s[19] == '+' || s[19] == '-') && FieldIn(s, 20, 0, 59) &&
        s[22] == ':' && FieldIn(s, 23, 0, 59))
  {
    PrefixOkIffGrammar(s);
    if len == 25 {
      SexagesimalCharsRange(s[20], s[21]);
      SexagesimalCharsRange(s[23], s[24]);
    }
  }

  /** The validator reads only positions below `len` and never position 25 or
      beyond: two buffers that agree there get the same verdict. */
  lemma {:induction false} ReadsOnlyBelowLen(s: seq<char>, t: seq<char>, len: int)
    requires len == 20 || len == 25 ==> len <= |s| && len <= |t|
    requires forall i :: 0 <= i < len && i < 25 && i < |s| && i < |t| ==> s[i] == t[i]
    ensures IsDateTime(s, len) == IsDateTime(t, len)
  {
    if len == 20 || len == 25 {
      assert s[..19] == t[..19];
      assert PrefixOk(s) == PrefixOk(t) by {
        assert forall i :: 0 <= i < 19 ==> s[i] == t[i];
      }
    }
  }
}
