/** The per-node drops counter that the controller derives from the agents'
    cumulative reports (internal/controller/results.go:100-112). */
module DropsMetric {
  import opened Clock

  function At(m: map<string, int>, node: string): int {
    if node in m then m[node] else 0
  }

  /** (last report, counter) after one more report. */
  function Report(last: map<string, int>, counter: map<string, int>, node: string, reported: int)
    : (map<string, int>, map<string, int>)
  {
    (last[node := reported],
     if reported > At(last, node)
     then counter[node := At(counter, node) + (reported - At(last, node))]
     else counter)
  }

  datatype Message = Message(node: string, reported: int)

  /** The state after a sequence of reports to one controller process. */
  function Reports(ms: seq<Message>): (map<string, int>, map<string, int>) {
    if ms == [] then (map[], map[])
    else
      var (last, counter) := Reports(ms[..|ms| - 1]);
      Report(last, counter, ms[|ms| - 1].node, ms[|ms| - 1].reported)
  }

  /** The values that one node reported, oldest first, after the initial 0. */
  function Of(ms: seq<Message>, node: string): (r: seq<int>)
    ensures r != [] && r[0] == 0
  {
    if ms == [] then [0]
    else
      var before := Of(ms[..|ms| - 1], node);
      if ms[|ms| - 1].node == node then before + [ms[|ms| - 1].reported] else before
  }

  /** The sum of all decreases between consecutive values. */
  function Decreases(vs: seq<int>): nat {
    if |vs| < 2 then 0
    else Decreases(vs[..|vs| - 1]) + Max(0, vs[|vs| - 2] - vs[|vs| - 1])
  }

  ghost predicate NeverDecreases(vs: seq<int>) {
    forall i :: 0 < i < |vs| ==> vs[i - 1] <= vs[i]
  }

  /** counter = last report + sum of all decreases, for every node and every
      interleaving of the nodes' reports. */
  lemma {:induction false} CounterIdentity(ms: seq<Message>, node: string)
    ensures var (last, counter) := Reports(ms);
            var vs := Of(ms, node);
            && At(last, node) == vs[|vs| - 1]
            && At(counter, node) == At(last, node) + Decreases(vs)
  {
    if ms != [] {
      var n := |ms| - 1;
      CounterIdentity(ms[..n], node);
      var before := Of(ms[..n], node);
      if ms[n].node == node {
        var vs := before + [ms[n].reported];
        assert vs[..|vs| - 1] == before;
      }
    }
  }

  /** The counter is at least every report, and equals the last one exactly
      when the reports never decreased. */
  lemma CounterBounds(ms: seq<Message>, node: string)
    ensures var (last, counter) := Reports(ms);
            var vs := Of(ms, node);
            && (forall i :: 0 <= i < |vs| ==> vs[i] <= At(counter, node))
            && (At(counter, node) == At(last, node) <==> NeverDecreases(vs))
  {
    CounterIdentity(ms, node);
    var vs := Of(ms, node);
    forall i | 0 <= i < |vs| ensures vs[i] <= vs[|vs| - 1] + Decreases(vs) {
      DropIsBounded(vs, i);
    }
    DecreasesZeroIff(vs);
  }

  lemma {:induction false} DropIsBounded(vs: seq<int>, i: nat)
    requires i < |vs|
    ensures vs[i] <= vs[|vs| - 1] + Decreases(vs)
  {
    if i < |vs| - 1 {
      DropIsBounded(vs[..|vs| - 1], i);
    }
  }

  lemma {:induction false} DecreasesZeroIff(vs: seq<int>)
    ensures Decreases(vs) == 0 <==> NeverDecreases(vs)
  {
    if |vs| >= 2 {
      var n := |vs| - 1;
      DecreasesZeroIff(vs[..n]);
      assert NeverDecreases(vs) <==> NeverDecreases(vs[..n]) && vs[n - 1] <= vs[n];
    }
  }

  /** A further report never lowers any node's counter. */
  lemma CounterMonotone(ms: seq<Message>, m: Message, node: string)
    ensures At(Reports(ms).1, node) <= At(Reports(ms + [m]).1, node)
  {
    assert (ms + [m])[..|ms|] == ms;
  }

  /** A restarted controller starts at zero and takes over the first report, so
      its counter is not below the old one if and only if that report makes up
      for the last one and all decreases before it. */
  lemma RestartKeepsIff(ms: seq<Message>, node: string, first: int)
    ensures var vs := Of(ms, node);
            && At(Reports([Message(node, first)]).1, node) == Max(0, first)
            && (At(Reports([Message(node, first)]).1, node) >= At(Reports(ms).1, node) <==>
                  Max(0, first) >= vs[|vs| - 1] + Decreases(vs))
  {
    CounterIdentity(ms, node);
    assert [Message(node, first)][..0] == [];
  }
}
