/**
  The token loop of `main` in datetime.c, written as the C code walks its
  linked list, and proved to compute `Dedup.Process`.

  The list is a sequence of node values read from `head`; a node pointer is an
  index into it, with `|list|` standing for the null pointer. Reading the file,
  the usage and open-failure paths, and `printf` are outside the model: the
  tokens arrive as a sequence and the printed lines are returned. `malloc` is
  modelled as succeeding for the first `nodeBudget` nodes and failing after
  that, which makes `main` stop with an out-of-memory outcome.
 */
module Driver {
  import opened DateTime
  import opened Dedup

  datatype Outcome = Printed(lines: seq<string>) | OutOfMemory

  /** The duplicate walk: follow `next` from the head until a node holds
      `token` or the end of the list is reached. */
  method FindNode(list: seq<string>, token: string) returns (node: nat)
    ensures node <= |list|
    ensures node < |list| ==> list[node] == token
    ensures token !in list[..node]
    ensures node == |list| <==> token !in list
  {
    node := 0;
    while node < |list| && list[node] != token
      invariant node <= |list|
      invariant token !in list[..node]
    {
      node := node + 1;
    }
    assert node == |list| ==> list[..node] == list;
  }

  /** The print walk: one line per node, from the head to the end. */
  method PrintWalk(list: seq<string>) returns (lines: seq<string>)
    ensures lines == list
  {
    lines := [];
    var node := 0;
    while node < |list|
      invariant node <= |list|
      invariant lines == list[..node]
    {
      lines := lines + [list[node]];
      node := node + 1;
    }
  }

  /** `main` from the first `fscanf` to the last `printf`. */
  method Run(tokens: seq<string>, nodeBudget: nat) returns (o: Outcome)
    ensures |Process(tokens)| <= nodeBudget ==> o == Printed(Process(tokens))
    ensures |Process(tokens)| > nodeBudget ==> o == OutOfMemory
  {
    var head: seq<string> := [];
    var k := 0;
    while k < |tokens|
      invariant k <= |tokens|
      invariant head == Process(tokens[..k])
      invariant |head| <= nodeBudget
    {
      var s := tokens[k];
      assert tokens[..k + 1] == tokens[..k] + [s];
      ProcessSnoc(tokens[..k], s);
      if IsDateTime(s, |s|) {
        var node := FindNode(head, s);
        if node == |head| {
          if |head| == nodeBudget {
            // malloc fails: the list would need one more node than it can get.
            PrefixListNoLonger(tokens, k + 1);
            return OutOfMemory;
          }
          head := [s] + head;
        }
      }
      k := k + 1;
    }
    assert tokens[..k] == tokens;
    var lines := PrintWalk(head);
    return Printed(lines);
  }
}
