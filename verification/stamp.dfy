/**
  A reference reading of the strings `isDateTime` accepts: a record of field
  values, a formatter that writes it in the `YYYY-MM-DDThh:mm:ssTZD` layout,
  and a decoder for accepted strings. The round trips below show that the
  validator accepts exactly the formatted records whose fields lie in the
  ranges the C checks implement.
 */
module Stamp {
  import opened DateTime

  /** The time-zone designator: `Z`, or a signed `hh:mm` offset. */
  datatype Zone = Utc | Offset(negative: bool, hours: nat, minutes: nat)

  datatype Stamp = Stamp(
    year: nat, month: nat, day: nat,
    hour: nat, minute: nat, second: nat,
    zone: Zone)

  /** The field ranges the checks of datetime.c accept (wider than a calendar:
      month up to 23, hour up to 59). */
  predicate ValidZone(z: Zone) {
    match z
    case Utc => true
    case Offset(_, h, m) => h <= 59 && m <= 59
  }

  predicate Valid(st: Stamp) {
    st.year <= 9999 &&
    1 <= st.month <= 23 &&
    1 <= st.day <= 31 &&
    st.hour <= 59 && st.minute <= 59 && st.second <= 59 &&
    ValidZone(st.zone)
  }

  function Digit(n: nat): (c: char)
    requires n < 10
    ensures IsDigit(c) && DigitValue(c) == n
  {
    ('0' as int + n) as char
  }

  function Two(n: nat): (r: seq<char>)
    requires n < 100
    ensures |r| == 2 && IsDigit(r[0]) && IsDigit(r[1])
    ensures 10 * DigitValue(r[0]) + DigitValue(r[1]) == n
  {
    [Digit(n / 10), Digit(n % 10)]
  }

  function Four(n: nat): (r: seq<char>)
    requires n < 10000
    ensures |r| == 4 && YearDigits(r)
  {
    Two(n / 100) + Two(n % 100)
  }

  function FormatZone(z: Zone): (r: seq<char>)
    requires ValidZone(z)
    ensures z.Utc? ==> r == "Z"
    ensures z.Offset? ==> |r| == 6 && r[0] == (if z.negative then '-' else '+') && r[3] == ':'
  {
    match z
    case Utc => "Z"
    case Offset(neg, h, m) => [if neg then '-' else '+'] + Two(h) + ":" + Two(m)
  }

  function Format(st: Stamp): (r: seq<char>)
    requires Valid(st)
    ensures |r| == (if st.zone.Utc? then 20 else 25)
  {
    Four(st.year) + "-" + Two(st.month) + "-" + Two(st.day) + "T" +
    Two(st.hour) + ":" + Two(st.minute) + ":" + Two(st.second) +
    FormatZone(st.zone)
  }

  /** The field values of an accepted string. */
  function Decode(s: seq<char>): (st: Stamp)
    requires Accepted(s)
    ensures Valid(st)
    ensures Format(st) == s
  {
    AcceptedIffGrammar(s);
    var year := 1000 * DigitValue(s[0]) + 100 * DigitValue(s[1]) + 10 * DigitValue(s[2]) + DigitValue(s[3]);
    var zone := if |s| == 20 then Utc else Offset(s[19] == '-', FieldValue(s, 20), FieldValue(s, 23));
    var st := Stamp(year, FieldValue(s, 5), FieldValue(s, 8),
                    FieldValue(s, 11), FieldValue(s, 14), FieldValue(s, 17), zone);
    FormatDecoded(s, st);
    st
  }

  lemma {:induction false} TwoOfField(s: seq<char>, i: nat)
    requires i + 1 < |s| && IsDigit(s[i]) && IsDigit(s[i + 1])
    ensures Two(FieldValue(s, i)) == s[i..i + 2]
  {
    var r := Two(FieldValue(s, i));
    DigitInjective(r[0], s[i]);
    DigitInjective(r[1], s[i + 1]);
  }

  lemma DigitInjective(a: char, b: char)
    requires IsDigit(a) && IsDigit(b)
    requires DigitValue(a) == DigitValue(b)
    ensures a == b
  {
  }

  lemma {:induction false} FormatDecoded(s: seq<char>, st: Stamp)
    requires Grammar(s)
    requires st.year == 1000 * DigitValue(s[0]) + 100 * DigitValue(s[1]) + 10 * DigitValue(s[2]) + DigitValue(s[3])
    requires st.month == FieldValue(s, 5) && st.day == FieldValue(s, 8)
    requires st.hour == FieldValue(s, 11) && st.minute == FieldValue(s, 14) && st.second == FieldValue(s, 17)
    requires st.zone == if |s| == 20 then Utc else Offset(s[19] == '-', FieldValue(s, 20), FieldValue(s, 23))
    ensures Valid(st)
    ensures Format(st) == s
  {
    var y := st.year;
    assert y / 100 == FieldValue(s, 0);
    assert y % 100 == FieldValue(s, 2);
    TwoOfField(s, 0);
    TwoOfField(s, 2);
    TwoOfField(s, 5);
    TwoOfField(s, 8);
    TwoOfField(s, 11);
    TwoOfField(s, 14);
    TwoOfField(s, 17);
    var z := FormatZone(st.zone);
    if |s| == 25 {
      TwoOfField(s, 20);
      TwoOfField(s, 23);
      assert z == s[19..25];
    } else {
      assert z == s[19..20];
    }
    assert s == s[0..2] + s[2..4] + "-" + s[5..7] + "-" + s[8..10] + "T" +
                s[11..13] + ":" + s[14..16] + ":" + s[17..19] + s[19..];
  }

  lemma FieldOfTwo(s: seq<char>, i: nat, n: nat)
    requires n < 100 && i + 1 < |s|
    requires s[i..i + 2] == Two(n)
    ensures IsDigit(s[i]) && IsDigit(s[i + 1]) && FieldValue(s, i) == n
  {
    assert s[i] == s[i..i + 2][0] && s[i + 1] == s[i..i + 2][1];
  }

  /** Where each field of a record lands in its layout. */
  lemma {:induction false} FormatLayout(st: Stamp)
    requires Valid(st)
    ensures var s := Format(st);
      s[..4] == Four(st.year) && Separators(s) &&
      s[5..7] == Two(st.month) && s[8..10] == Two(st.day) &&
      s[11..13] == Two(st.hour) && s[14..16] == Two(st.minute) &&
      s[17..19] == Two(st.second) && s[19..] == FormatZone(st.zone)
  {
    var s := Format(st);
    var y, mo, d := Four(st.year), Two(st.month), Two(st.day);
    var h, mi, se := Two(st.hour), Two(st.minute), Two(st.second);
    var date := y + "-" + mo + "-" + d;
    var time := h + ":" + mi + ":" + se;
    var z := FormatZone(st.zone);
    assert s == date + "T" + time + z;
    assert |date| == 10 && |time| == 8;
    assert s[..10] == date;
    assert s[10] == 'T';
    assert s[11..19] == time;
    assert s[19..] == z;
    assert date[..4] == y && date[4] == '-' && date[5..7] == mo && date[7] == '-' && date[8..10] == d;
    assert time[..2] == h && time[2] == ':' && time[3..5] == mi && time[5] == ':' && time[6..8] == se;
    assert s[..4] == s[..10][..4];
    assert s[5..7] == s[..10][5..7] && s[8..10] == s[..10][8..10];
    assert s[11..13] == s[11..19][..2] && s[14..16] == s[11..19][3..5] && s[17..19] == s[11..19][6..8];
    assert s[4] == date[4] && s[7] == date[7] && s[13] == time[2] && s[16] == time[5];
  }

  /** The year digits of a record's layout read back as its year. */
  lemma {:induction false} YearOfFour(s: seq<char>, n: nat)
    requires n < 10000 && |s| >= 4 && s[..4] == Four(n)
    ensures YearDigits(s)
    ensures 1000 * DigitValue(s[0]) + 100 * DigitValue(s[1]) + 10 * DigitValue(s[2]) + DigitValue(s[3]) == n
  {
    var a, b := Two(n / 100), Two(n % 100);
    assert s[..4] == a + b;
    assert s[0] == a[0] && s[1] == a[1] && s[2] == b[0] && s[3] == b[1];
  }

  /** Every record in range formats to an accepted string, and decoding that
      string gives the record back. */
  lemma {:induction false} FormatAccepted(st: Stamp)
    requires Valid(st)
    ensures Accepted(Format(st))
    ensures Decode(Format(st)) == st
  {
    var s := Format(st);
    FormatLayout(st);
    YearOfFour(s, st.year);
    FieldOfTwo(s, 5, st.month);
    FieldOfTwo(s, 8, st.day);
    FieldOfTwo(s, 11, st.hour);
    FieldOfTwo(s, 14, st.minute);
    FieldOfTwo(s, 17, st.second);
    if st.zone.Offset? {
      var z := FormatZone(st.zone);
      assert z[1..3] == Two(st.zone.hours) && z[4..6] == Two(st.zone.minutes);
      assert s[20..22] == z[1..3] && s[23..25] == z[4..6];
      FieldOfTwo(s, 20, st.zone.hours);
      FieldOfTwo(s, 23, st.zone.minutes);
      assert s[19] == z[0] && s[22] == z[3];
    } else {
      assert s[19] == 'Z';
    }
    assert Grammar(s);
    AcceptedIffGrammar(s);
  }

  /** The validator's language, stated through the record: a string is
      accepted exactly when it is the layout of some in-range record. */
  lemma AcceptedIffFormatted(s: seq<char>)
    ensures Accepted(s) <==> exists st :: Valid(st) && Format(st) == s
  {
    if Accepted(s) {
      var st := Decode(s);
      assert Valid(st) && Format(st) == s;
    }
    if st :| Valid(st) && Format(st) == s {
      FormatAccepted(st);
    }
  }
}
