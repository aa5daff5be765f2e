# FindDateTime in Dafny

FindDateTime is a small C program (`datetime.c`). It reads whitespace-separated
tokens from a file and keeps those that look like an RFC 3339 date-time
(`YYYY-MM-DDThh:mm:ss` followed by `Z` or `(+|-)hh:mm`). It drops duplicates
and prints the values it kept. This project models the two pieces of logic in
that program:

- **the validator** `isDateTime(s, len)`. It is a position-by-position,
  short-circuiting character check. It is modelled as the predicate
  `DateTime.IsDateTime` with the same order of checks, the same
  character ranges and the same length gate.
- **the duplicate-suppressing list** that `main` builds. It is modelled as a
  pure fold `Dedup.Process` over the token sequence. An imperative version,
  `Driver.Run`, follows the C code's list walks and is proved equal to it.

Modules:

- `datetime.dfy` (`DateTime`): the validator, its field checks and a
  value-level grammar proved equivalent to it.
- `stamp.dfy` (`Stamp`): a record of field values with a formatter and a
  decoder. It shows that the accepted strings are exactly the layouts of
  in-range records.
- `dedup.dfy` (`Dedup`): the list as a head-first sequence, the fold, and its
  contents, distinctness, growth and order properties.
- `driver.dfy` (`Driver`): the token loop, the duplicate walk, head insertion,
  the print walk and the `malloc` failure exit.
- `examples.dfy` (`Examples`): concrete boundary inputs and one sample run.

The model follows what the code does, including where it differs from the
header comment at datetime.c:15-17:

- The month check accepts 01–23, not 01–12, and the hour check accepts 00–59,
  not 00–23. The header comment claims the narrower ranges.
- The day check rejects `00` and accepts 01–31.
- New values are inserted at the head of the list, and the list is printed from
  the head. So the list is printed newest first, the reverse of first
  appearance. `Dedup.ProcessOrder` and `Examples.SampleRun` state this order.

## Model

| member | source | states |
|---|---|---|
| DateTime.AcceptedIffGrammar | datetime.c:22-127 | a token is accepted exactly when it is 20 or 25 characters long and has four year digits, the separators `-` `-` `T` `:` `:`, month 1–23, day 1–31, hour/minute/second 0–59, and either `Z` (length 20) or sign, offset hour 0–59, `:`, offset minute 0–59 (length 25) |
| DateTime.PrefixOkIffGrammar | datetime.c:31-88 | the checks on the first 19 characters pass exactly when the year is four digits, the separators are in place and the five two-digit fields have values in their ranges |
| DateTime.LengthGate | datetime.c:25-29 | any length other than 20 and 25 is rejected, whatever the characters |
| DateTime.AcceptedHasSeparators | datetime.c:31-81 | acceptance implies length 20 or 25, ASCII digits at positions 0–3, `-` at 4 and 7, `T` at 10, `:` at 13 and 16 |
| DateTime.MonthCharsRange | datetime.c:40-46 | the month check passes exactly for two ASCII digits whose value is 1–23 |
| DateTime.DayCharsRange | datetime.c:51-58 | the day check passes exactly for two ASCII digits whose value is 1–31 |
| DateTime.SexagesimalCharsRange | datetime.c:63-88 | the hour, minute and second checks pass exactly for two ASCII digits whose value is 0–59 |
| DateTime.SuffixRule | datetime.c:93-124 | with a valid prefix, length 20 is accepted iff position 19 is `Z`; length 25 is accepted iff positions 19–24 are `+`/`-`, 00–59, `:`, 00–59 |
| DateTime.ReadsOnlyBelowLen | datetime.c:22-127 | the verdict depends only on the characters below `len` and below position 25: two buffers agreeing there get the same answer |
| Stamp.Decode | datetime.c:22-127 | an accepted string decodes to a record whose fields are in the implemented ranges and whose layout is that same string |
| Stamp.FormatAccepted | datetime.c:22-127 | every in-range record lays out to an accepted string that decodes back to the record |
| Stamp.AcceptedIffFormatted | datetime.c:22-127 | a string is accepted exactly when it is the layout of some in-range record |
| Dedup.Insert | datetime.c:160-191 | after inserting, the list holds exactly the old values plus the token; a duplicate-free list stays duplicate-free; the old list is kept unchanged as the tail |
| Dedup.Process | datetime.c:156-193 | the list after reading the tokens is duplicate-free, holds only accepted tokens, and holds every accepted token |
| Dedup.ProcessSnoc | datetime.c:172-191 | reading an accepted token not seen before makes it the new head with the rest unchanged; any other token leaves the list unchanged |
| Dedup.InsertIdempotent | datetime.c:160-174 | inserting the same value twice gives the same list as inserting it once |
| Dedup.RepeatNoChange | datetime.c:160-174 | reading a token that already occurred earlier in the input leaves the list unchanged |
| Dedup.ProcessGrowsAtHead | datetime.c:185-190 | the list only grows, and only at the head: the list after a prefix of the input is a suffix of the list after the whole input |
| Dedup.ProcessOrder | datetime.c:185-203 | from head to tail, the values are in strictly decreasing order of first appearance in the input |
| Dedup.ProcessUnique | datetime.c:156-203 | any duplicate-free sequence of exactly the accepted tokens, newest first by first appearance, equals the list the program builds |
| Driver.FindNode | datetime.c:160-170 | the duplicate walk stops at the first node holding the token, and it reaches the end of the list exactly when the token is absent |
| Driver.PrintWalk | datetime.c:197-203 | the print walk emits the list's values once each, head first |
| Driver.Run | datetime.c:155-203 | the token loop prints `Process(tokens)` when the allocator supplies enough nodes, and ends with out-of-memory exactly when the distinct accepted tokens outnumber the nodes it can get |
| Examples.TypicalStampsAccepted | datetime.c:93-124 | a `Z` stamp, a `+hh:mm` stamp and a `-hh:mm` stamp are accepted |
| Examples.MonthBoundaries | datetime.c:40-46 | months 13 and 23 are accepted; 00 and 24 are rejected |
| Examples.DayBoundaries | datetime.c:51-58 | day 31 is accepted; 00 and 32 are rejected |
| Examples.ClockBoundaries | datetime.c:63-88 | hour 24 and 59:59:59 are accepted; 60 in the hour, minute or second is rejected |
| Examples.SuffixMustMatchLength | datetime.c:93-124 | a sign at length 20, `Z` at length 25, a bad offset separator or value, a space for `T` and a missing suffix are all rejected |
| Examples.DuplicateAndInvalid | datetime.c:156-203 | for tokens a, an invalid token, a, b, the list is [b, a]: the duplicate is suppressed, the invalid token dropped, newest first |
| Examples.SampleRun | datetime.c:156-203 | no tokens give an empty list, and the sample four-token input gives its two distinct valid values newest first |

## Left out

- File handling is not modelled: the argument-count check, `fopen`/`fclose` and
  their error messages, `fscanf("%s")` tokenization, `printf`, and the process
  exit codes (datetime.c:142-153, 156, 195, 201). Tokens arrive as a
  `seq<string>` and printed lines are returned as a sequence.
- The 100-byte read buffer `s[100]` (datetime.c:138) and the overflow that a
  longer token would cause are not modelled. Tokens are unbounded strings.
- The `strcpy` of a 25-character token into the 25-byte field `char s[25]`
  (datetime.c:131, 183) writes its terminator out of bounds. The model stores
  the whole string and does not reproduce this undefined behaviour.
- The first node's `next` is never initialised when `head` is null
  (datetime.c:176, 186-189). The model treats the first node as the end of the
  list, which is what the print and duplicate walks assume.
- `isdigit` is modelled as the ASCII range `'0'..'9'`. Other locales are not
  modelled (datetime.c:32).
- Tokens are modelled as C strings up to their first NUL, and `strcmp(...) == 0`
  as string equality. `%s` stores an embedded NUL byte, after which `strlen`
  (datetime.c:158) and `strcmp` (datetime.c:165) see only the part before it.
  That truncation is not modelled.
- Driver.Run: `malloc` failure is modelled as a fixed node budget (the first
  `nodeBudget` allocations succeed, later ones fail). An allocator that fails
  and then succeeds again is not modelled. Either way the program exits at the
  first failure.
