/**
  The duplicate-suppressing list that `main` in datetime.c builds, without the
  file I/O. The list is a sequence read from its head. An accepted token is
  compared with every stored value and, when absent, becomes the new head;
  rejected tokens are dropped. Because insertion is at the head, the printed
  list holds the distinct accepted tokens in REVERSE order of first appearance.
 */
module Dedup {
  import opened DateTime

  /** No value is stored twice. */
  predicate Distinct(list: seq<string>) {
    forall i, j :: 0 <= i < j < |list| ==> list[i] != list[j]
  }

  /** Every stored value passed the validator. */
  predicate AllAccepted(list: seq<string>) {
    forall i :: 0 <= i < |list| ==> Accepted(list[i])
  }

  /** The dedup walk followed by head insertion when the walk found nothing. */
  function Insert(list: seq<string>, token: string): (r: seq<string>)
    ensures forall x :: x in r <==> x in list || x == token
    ensures Distinct(list) ==> Distinct(r)
    ensures |list| <= |r| <= |list| + 1
    ensures r[|r| - |list|..] == list
  {
    if token in list then list else [token] + list
  }

  /** One iteration of the token loop. */
  function Step(list: seq<string>, token: string): (r: seq<string>)
  {
    if Accepted(token) then Insert(list, token) else list
  }

  /** The list after reading `tokens` in order, head first. */
  function Process(tokens: seq<string>): (r: seq<string>)
    ensures Distinct(r)
    ensures AllAccepted(r)
    ensures forall x :: x in r <==> x in tokens && Accepted(x)
    decreases |tokens|
  {
    if tokens == [] then []
    else Step(Process(tokens[..|tokens| - 1]), tokens[|tokens| - 1])
  }

  /** Reading one more token: an accepted token not yet stored becomes the new
      head with the rest unchanged; anything else leaves the list as it was. */
  lemma ProcessSnoc(tokens: seq<string>, t: string)
    ensures Accepted(t) && t !in tokens ==> Process(tokens + [t]) == [t] + Process(tokens)
    ensures !Accepted(t) || t in tokens ==> Process(tokens + [t]) == Process(tokens)
  {
    assert (tokens + [t])[..|tokens|] == tokens;
  }

  /** Inserting a value a second time changes nothing. */
  lemma InsertIdempotent(list: seq<string>, token: string)
    ensures Insert(Insert(list, token), token) == Insert(list, token)
  {
  }

  /** Reading a token again, however many tokens came between, changes
      nothing. */
  lemma RepeatNoChange(tokens: seq<string>, t: string)
    requires t in tokens
    ensures Process(tokens + [t]) == Process(tokens)
  {
    ProcessSnoc(tokens, t);
  }

  /** The list only grows, and only at its head: the list after a prefix of
      the input is a suffix of the list after the whole input. */
  lemma {:induction false} ProcessGrowsAtHead(xs: seq<string>, ys: seq<string>)
    ensures |Process(xs)| <= |Process(xs + ys)|
    ensures Process(xs + ys)[|Process(xs + ys)| - |Process(xs)|..] == Process(xs)
    decreases |ys|
  {
    if ys == [] {
      assert xs + ys == xs;
    } else {
      var init := ys[..|ys| - 1];
      var t := ys[|ys| - 1];
      ProcessGrowsAtHead(xs, init);
      assert xs + ys == (xs + init) + [t];
      ProcessSnoc(xs + init, t);
    }
  }

  /** The list after a prefix of the input is never longer than the final
      list. */
  lemma PrefixListNoLonger(tokens: seq<string>, k: nat)
    requires k <= |tokens|
    ensures |Process(tokens[..k])| <= |Process(tokens)|
  {
    ProcessGrowsAtHead(tokens[..k], tokens[k..]);
    assert tokens[..k] + tokens[k..] == tokens;
  }

  /** The position of the first occurrence of `x` in `xs`. */
  function FirstIndex(xs: seq<string>, x: string): (i: nat)
    requires x in xs
    ensures i < |xs| && xs[i] == x && x !in xs[..i]
  {
    if xs[0] == x then 0 else 1 + FirstIndex(xs[1..], x)
  }

  /** An index holding `x` with no `x` before it is the first index. */
  lemma {:induction false} FirstIndexUnique(xs: seq<string>, x: string, k: nat)
    requires k < |xs| && xs[k] == x && x !in xs[..k]
    ensures FirstIndex(xs, x) == k
  {
    if k > 0 {
      assert xs[0] == xs[..k][0];
      assert xs[1..][..k - 1] == xs[1..k];
      FirstIndexUnique(xs[1..], x, k - 1);
    }
  }

  lemma {:induction false} FirstIndexSnoc(xs: seq<string>, t: string, x: string)
    requires x in xs
    ensures FirstIndex(xs + [t], x) == FirstIndex(xs, x)
  {
    var i := FirstIndex(xs, x);
    assert (xs + [t])[..i] == xs[..i];
    FirstIndexUnique(xs + [t], x, i);
  }

  /** The list is ordered by decreasing first appearance: the head is the
      most recently first-seen value. */
  lemma {:induction false} ProcessOrder(tokens: seq<string>)
    ensures forall i, j :: 0 <= i < j < |Process(tokens)| ==>
      FirstIndex(tokens, Process(tokens)[i]) > FirstIndex(tokens, Process(tokens)[j])
    decreases |tokens|
  {
    if tokens != [] {
      var init := tokens[..|tokens| - 1];
      var t := tokens[|tokens| - 1];
      assert tokens == init + [t];
      ProcessOrder(init);
      var p := Process(init);
      var r := Process(tokens);
      ProcessSnoc(init, t);
      forall x | x in p
        ensures FirstIndex(tokens, x) == FirstIndex(init, x) < |init|
      {
        FirstIndexSnoc(init, t, x);
      }
      if Accepted(t) && t !in init {
        assert r == [t] + p;
        assert FirstIndex(tokens, t) == |init|;
        forall i, j | 0 <= i < j < |r|
          ensures FirstIndex(tokens, r[i]) > FirstIndex(tokens, r[j])
        {
          assert r[j] == p[j - 1] && r[j] in p;
          if i > 0 {
            assert r[i] == p[i - 1];
          }
        }
      }
    }
  }

  /** The list is determined by its contents and its order: any duplicate-free
      sequence of exactly the accepted tokens, ordered by decreasing first
      appearance, is the list `main` prints. */
  lemma {:induction false} ProcessUnique(tokens: seq<string>, out: seq<string>)
    requires Distinct(out)
    requires forall x :: x in out <==> x in tokens && Accepted(x)
    requires forall i, j :: 0 <= i < j < |out| ==>
      FirstIndex(tokens, out[i]) > FirstIndex(tokens, out[j])
    ensures out == Process(tokens)
  {
    ProcessOrder(tokens);
    SameOrderedSequence(tokens, out, Process(tokens));
  }

  /** A duplicate-free sequence has as many elements as its set of values. */
  lemma {:induction false} DistinctSize(a: seq<string>)
    requires Distinct(a)
    ensures |set x | x in a| == |a|
    decreases |a|
  {
    if a != [] {
      DistinctSize(a[1..]);
      assert (set x | x in a) == (set x | x in a[1..]) + {a[0]};
      assert a[0] !in a[1..] by {
        forall k | 0 <= k < |a| - 1
          ensures a[1..][k] != a[0]
        {
          assert a[1..][k] == a[k + 1];
        }
      }
    }
  }

  /** In a sequence ordered by decreasing first index, the head has the
      largest first index. */
  lemma HeadHasLatestFirstIndex(tokens: seq<string>, a: seq<string>, x: string)
    requires forall y :: y in a ==> y in tokens
    requires forall i, j :: 0 <= i < j < |a| ==> FirstIndex(tokens, a[i]) > FirstIndex(tokens, a[j])
    requires x in a
    ensures FirstIndex(tokens, a[0]) >= FirstIndex(tokens, x)
  {
    var k :| 0 <= k < |a| && a[k] == x;
    if k > 0 {
      assert FirstIndex(tokens, a[0]) > FirstIndex(tokens, a[k]);
    }
  }

  /** Removing the same head from two duplicate-free sequences with the same
      elements leaves tails with the same elements. */
  lemma SameTails(a: seq<string>, b: seq<string>)
    requires Distinct(a) && Distinct(b)
    requires forall x :: x in a <==> x in b
    requires a != [] && b != [] && a[0] == b[0]
    ensures forall x :: x in a[1..] <==> x in b[1..]
  {
    forall x | x in a[1..]
      ensures x in b[1..]
    {
      var k :| 1 <= k < |a| && a[k] == x;
      assert x in a && x in b;
      var m :| 0 <= m < |b| && b[m] == x;
      assert m != 0;
      assert b[1..][m - 1] == x;
    }
    forall x | x in b[1..]
      ensures x in a[1..]
    {
      var k :| 1 <= k < |b| && b[k] == x;
      assert x in b && x in a;
      var m :| 0 <= m < |a| && a[m] == x;
      assert m != 0;
      assert a[1..][m - 1] == x;
    }
  }

  /** Dropping the head keeps a sequence ordered by decreasing first index. */
  lemma TailNewestFirst(tokens: seq<string>, a: seq<string>)
    requires a != []
    requires forall x :: x in a ==> x in tokens
    requires forall i, j :: 0 <= i < j < |a| ==> FirstIndex(tokens, a[i]) > FirstIndex(tokens, a[j])
    ensures forall x :: x in a[1..] ==> x in tokens
    ensures forall i, j :: 0 <= i < j < |a[1..]| ==> FirstIndex(tokens, a[1..][i]) > FirstIndex(tokens, a[1..][j])
  {
    forall i, j | 0 <= i < j < |a[1..]|
      ensures FirstIndex(tokens, a[1..][i]) > FirstIndex(tokens, a[1..][j])
    {
      assert a[1..][i] == a[i + 1] && a[1..][j] == a[j + 1];
    }
  }

  /** Two duplicate-free sequences with the same elements, both ordered by
      decreasing first index in `tokens`, are equal. */
  lemma {:induction false} SameOrderedSequence(tokens: seq<string>, a: seq<string>, b: seq<string>)
    requires Distinct(a) && Distinct(b)
    requires forall x :: x in a <==> x in b
    requires forall x :: x in a ==> x in tokens
    requires forall i, j :: 0 <= i < j < |a| ==> FirstIndex(tokens, a[i]) > FirstIndex(tokens, a[j])
    requires forall i, j :: 0 <= i < j < |b| ==> FirstIndex(tokens, b[i]) > FirstIndex(tokens, b[j])
    ensures a == b
    decreases |a|
  {
    DistinctSize(a);
    DistinctSize(b);
    assert (set x | x in a) == (set x | x in b);
    if |a| != 0 {
      // Both heads carry the largest first index, so they are the same token.
      HeadHasLatestFirstIndex(tokens, a, b[0]);
      HeadHasLatestFirstIndex(tokens, b, a[0]);
      assert a[0] == tokens[FirstIndex(tokens, a[0])] == b[0];
      SameTails(a, b);
      TailNewestFirst(tokens, a);
      TailNewestFirst(tokens, b);
      SameOrderedSequence(tokens, a[1..], b[1..]);
    }
  }
}
