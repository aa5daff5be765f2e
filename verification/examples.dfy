/**
  Concrete inputs that pin down the boundaries the checks of datetime.c
  implement, including the ones wider than its header comment (month 13,
  hour 24), and one run of the token loop.
 */
module Examples {
  import opened DateTime
  import opened Dedup

  lemma TypicalStampsAccepted()
    ensures Accepted("2024-05-17T10:20:30Z")
    ensures Accepted("2024-05-17T10:20:30+02:30")
    ensures Accepted("0000-01-01T00:00:00-59:59")
  {
  }

  /** Month passes for 01-23 only. */
  lemma MonthBoundaries()
    ensures Accepted("2024-13-17T10:20:30Z")
    ensures Accepted("2024-23-17T10:20:30Z")
    ensures !Accepted("2024-00-17T10:20:30Z")
    ensures !Accepted("2024-24-17T10:20:30Z")
  {
  }

  /** Day passes for 01-31 only. */
  lemma DayBoundaries()
    ensures Accepted("2024-05-31T10:20:30Z")
    ensures !Accepted("2024-05-00T10:20:30Z")
    ensures !Accepted("2024-05-32T10:20:30Z")
  {
  }

  /** Hour, minute and second pass for 00-59. */
  lemma ClockBoundaries()
    ensures Accepted("2024-05-17T24:20:30Z")
    ensures Accepted("2024-05-17T59:59:59Z")
    ensures !Accepted("2024-05-17T60:20:30Z")
    ensures !Accepted("2024-05-17T10:60:30Z")
    ensures !Accepted("2024-05-17T10:20:60Z")
  {
  }

  /** The suffix must match the length: `Z` only at length 20, an offset only
      at length 25. */
  lemma SuffixMustMatchLength()
    ensures !Accepted("2024-05-17T10:20:30+")
    ensures !Accepted("2024-05-17T10:20:30Z02:30")
    ensures !Accepted("2024-05-17T10:20:30+02-30")
    ensures !Accepted("2024-05-17T10:20:30+60:00")
    ensures !Accepted("2024-05-17 10:20:30Z")
    ensures !Accepted("2024-05-17T10:20:30")
  {
  }

  /** A duplicate is suppressed and an invalid token dropped; the list comes
      out newest first. */
  lemma {:induction false} DuplicateAndInvalid(a: string, b: string, bad: string)
    requires Accepted(a) && Accepted(b) && !Accepted(bad)
    requires a != b
    ensures Process([a, bad, a, b]) == [b, a]
  {
    var t1: seq<string> := [a];
    var t2 := t1 + [bad];
    var t3 := t2 + [a];
    ProcessSnoc([], a);
    assert [] + [a] == t1;
    ProcessSnoc(t1, bad);
    ProcessSnoc(t2, a);
    assert a in t2;
    assert b !in t3;
    ProcessSnoc(t3, b);
    assert t3 + [b] == [a, bad, a, b];
  }

  lemma SampleRun()
    ensures Process([]) == []
    ensures Process(["2024-05-17T10:20:30Z", "not-a-date", "2024-05-17T10:20:30Z", "2024-05-17T10:20:31Z"])
         == ["2024-05-17T10:20:31Z", "2024-05-17T10:20:30Z"]
  {
    var a, b, bad := "2024-05-17T10:20:30Z", "2024-05-17T10:20:31Z", "not-a-date";
    assert Accepted(a) && Accepted(b) && !Accepted(bad);
    DuplicateAndInvalid(a, b, bad);
  }
}
