/**
 * Auto-connection: which strips are asked to connect outputs, in what
 * order, and the targets derived from the strips' output port names.
 */
module AutoConnect {
  import opened Strips

  /** The indices of the strips whose group affinity is `affinity`, in index order. */
  function IndicesWith(s: seq<Strip>, affinity: bool): (r: seq<nat>)
    ensures forall x :: 0 <= x < |r| ==> r[x] < |s|
  {
    if s == [] then []
    else IndicesWith(s[..|s| - 1], affinity) + (if s[|s| - 1].groupAffinity == affinity then [|s| - 1] else [])
  }

  /** The indices of one kind are those of strips of that kind, in increasing order. */
  lemma {:induction false} IndicesWithSound(s: seq<Strip>, affinity: bool)
    ensures forall x :: 0 <= x < |IndicesWith(s, affinity)| ==> s[IndicesWith(s, affinity)[x]].groupAffinity == affinity
    ensures forall x, y :: 0 <= x < y < |IndicesWith(s, affinity)| ==> IndicesWith(s, affinity)[x] < IndicesWith(s, affinity)[y]
  {
    if s != [] {
      var n := |s| - 1;
      var init := s[..n];
      IndicesWithSound(init, affinity);
      var prev := IndicesWith(init, affinity);
      var r := IndicesWith(s, affinity);
      assert r == prev + (if s[n].groupAffinity == affinity then [n] else []);
      forall x | 0 <= x < |prev| ensures r[x] == prev[x] && s[prev[x]] == init[prev[x]] {
      }
    }
  }

  /** Every strip of the kind has its index among the indices of that kind. */
  lemma {:induction false} IndicesWithComplete(s: seq<Strip>, affinity: bool)
    ensures forall i :: 0 <= i < |s| && s[i].groupAffinity == affinity ==> i in IndicesWith(s, affinity)
  {
    if s != [] {
      var n := |s| - 1;
      var init := s[..n];
      IndicesWithComplete(init, affinity);
      var prev := IndicesWith(init, affinity);
      var r := IndicesWith(s, affinity);
      assert r == prev + (if s[n].groupAffinity == affinity then [n] else []);
      forall i | 0 <= i < |s| && s[i].groupAffinity == affinity
        ensures i in r
      {
        if i < n {
          assert init[i] == s[i];
          assert i in prev;
        } else {
          assert r[|r| - 1] == n;
        }
      }
    }
  }

  /**
   * The order auto_connect and maybe_auto_connect_output ask the strips in:
   * the strips with group affinity first, then the catch-alls, each group
   * in index order.
   */
  function DispatchOrder(s: seq<Strip>): seq<nat> {
    IndicesWith(s, true) + IndicesWith(s, false)
  }

  /** Taking one more strip of the pack into account adds its index when it is of the kind asked for. */
  lemma IndicesWithStep(s: seq<Strip>, i: nat, affinity: bool)
    requires i < |s|
    ensures IndicesWith(s[..i + 1], affinity) == IndicesWith(s[..i], affinity) + (if s[i].groupAffinity == affinity then [i] else [])
  {
    assert s[..i + 1][..i] == s[..i];
  }

  /** The strips of a prefix of the pack, of either kind, are asked in a prefix of that kind's order. */
  lemma {:induction false} IndicesWithPrefix(s: seq<Strip>, n: nat, affinity: bool)
    requires n <= |s|
    ensures IndicesWith(s[..n], affinity) <= IndicesWith(s, affinity)
  {
    if n < |s| {
      var init := s[..|s| - 1];
      assert init[..n] == s[..n];
      IndicesWithPrefix(init, n, affinity);
    } else {
      assert s[..n] == s;
    }
  }

  lemma {:induction false} IndicesWithPartition(s: seq<Strip>)
    ensures |IndicesWith(s, true)| + |IndicesWith(s, false)| == |s|
  {
    if s != [] {
      IndicesWithPartition(s[..|s| - 1]);
    }
  }

  /** `o` lists every index below `n` exactly once. */
  predicate IsIndexPermutation(o: seq<nat>, n: nat) {
    && |o| == n
    && (forall x :: 0 <= x < |o| ==> o[x] < n)
    && (forall i :: 0 <= i < n ==> i in o)
    && (forall x, y :: 0 <= x < y < |o| ==> o[x] != o[y])
  }

  /**
   * In the order `o` of indices into `s`, no strip with group affinity comes
   * after one without, and strips of the same kind come in index order.
   */
  predicate AffinityFirst(s: seq<Strip>, o: seq<nat>)
    requires forall x :: 0 <= x < |o| ==> o[x] < |s|
  {
    && (forall x, y :: 0 <= x < y < |o| && s[o[y]].groupAffinity ==> s[o[x]].groupAffinity)
    && (forall x, y :: 0 <= x < y < |o| && s[o[x]].groupAffinity == s[o[y]].groupAffinity ==> o[x] < o[y])
  }

  /** Every strip is asked exactly once. */
  lemma DispatchOrderPermutes(s: seq<Strip>)
    ensures IsIndexPermutation(DispatchOrder(s), |s|)
  {
    var a, b := IndicesWith(s, true), IndicesWith(s, false);
    var o := a + b;
    IndicesWithPartition(s);
    IndicesWithSound(s, true);
    IndicesWithSound(s, false);
    IndicesWithComplete(s, true);
    IndicesWithComplete(s, false);
    forall x, y | 0 <= x < y < |o|
      ensures o[x] != o[y]
    {
      if y < |a| {
        assert o[x] == a[x] && o[y] == a[y];
      } else if x >= |a| {
        assert o[x] == b[x - |a|] && o[y] == b[y - |a|];
      } else {
        assert s[o[x]].groupAffinity != s[o[y]].groupAffinity;
      }
    }
    forall i | 0 <= i < |s| ensures i in o {
      if s[i].groupAffinity {
        assert i in a;
      } else {
        assert i in b;
      }
    }
  }

  /** No strip with group affinity is asked after a catch-all; strips of the same kind are asked in index order. */
  lemma DispatchOrderAffinityFirst(s: seq<Strip>)
    ensures AffinityFirst(s, DispatchOrder(s))
  {
    var a, b := IndicesWith(s, true), IndicesWith(s, false);
    var o := a + b;
    IndicesWithSound(s, true);
    IndicesWithSound(s, false);
    forall x, y | 0 <= x < y < |o|
      ensures s[o[y]].groupAffinity ==> s[o[x]].groupAffinity
      ensures s[o[x]].groupAffinity == s[o[y]].groupAffinity ==> o[x] < o[y]
    {
      if y < |a| {
        assert o[x] == a[x] && o[y] == a[y];
      } else if x >= |a| {
        assert o[x] == b[x - |a|] && o[y] == b[y - |a|];
      } else {
        assert o[x] == a[x] && o[y] == b[y - |a|];
      }
    }
  }

  /** The position of the last '/' in a port name. */
  function LastSlash(p: string): (k: nat)
    requires '/' in p
    ensures k < |p| && p[k] == '/'
    ensures forall j :: k < j < |p| ==> p[j] != '/'
  {
    if p[|p| - 1] == '/' then |p| - 1
    else
      assert '/' in p[..|p| - 1] by {
        var i :| 0 <= i < |p| && p[i] == '/';
        assert p[..|p| - 1][i] == '/';
      }
      LastSlash(p[..|p| - 1])
  }

  /**
   * The connection target derived from an output port name: everything
   * from its last '/' on dropped, and "/mains" added when no '/' is left.
   */
  function Target(p: string): (t: string)
    requires '/' in p
    ensures '/' in t
  {
    var q := p[..LastSlash(p)];
    if '/' in q then q else q + "/mains"
  }

  /** Every port name `dir/leaf` gives `dir`, or `dir/mains` when `dir` holds no '/'. */
  lemma TargetOf(dir: string, leaf: string)
    requires '/' !in leaf
    ensures Target(dir + "/" + leaf) == if '/' in dir then dir else dir + "/mains"
  {
    var p := dir + "/" + leaf;
    assert p[|dir|] == '/';
    assert forall j :: |dir| < j < |p| ==> p[j] == leaf[j - |dir| - 1];
    assert LastSlash(p) == |dir|;
    assert p[..|dir|] == dir;
  }

  /** Every output port of every strip names a '/'-separated path. */
  predicate PortsHaveSlash(s: seq<Strip>) {
    forall i, p :: 0 <= i < |s| && p in s[i].outputs ==> '/' in p
  }

  /** Every port in `ports` names a '/'-separated path. */
  predicate AllHaveSlash(ports: seq<string>) {
    forall p :: p in ports ==> '/' in p
  }

  /** The output ports of all strips, gathered from the last strip to the first. */
  function CollectPorts(s: seq<Strip>): (ports: seq<string>)
    ensures PortsHaveSlash(s) ==> AllHaveSlash(ports)
  {
    if s == [] then []
    else
      assert PortsHaveSlash(s) ==> PortsHaveSlash(s[1..]) by {
        assert forall i :: 0 <= i < |s| - 1 ==> s[1..][i] == s[i + 1];
      }
      CollectPorts(s[1..]) + s[0].outputs
  }

  /** Gathering from strip `i` on adds strip `i`'s ports after those of the strips to its right. */
  lemma CollectPortsStep(s: seq<Strip>, i: nat)
    requires i < |s|
    ensures CollectPorts(s[i..]) == CollectPorts(s[i + 1..]) + s[i].outputs
  {
    assert s[i..][1..] == s[i + 1..];
  }

  /** The gathered ports are exactly the ports of the strips. */
  lemma {:induction false} CollectPortsMembers(s: seq<Strip>)
    ensures forall p :: p in CollectPorts(s) ==> exists i :: 0 <= i < |s| && p in s[i].outputs
    ensures forall i, p :: 0 <= i < |s| && p in s[i].outputs ==> p in CollectPorts(s)
  {
    if s != [] {
      var t := s[1..];
      CollectPortsMembers(t);
      forall p | p in CollectPorts(s) ensures exists i :: 0 <= i < |s| && p in s[i].outputs {
        if p !in s[0].outputs {
          assert p in CollectPorts(t);
          var i :| 0 <= i < |t| && p in t[i].outputs;
          assert p in s[i + 1].outputs;
        }
      }
      forall i, p | 0 <= i < |s| && p in s[i].outputs ensures p in CollectPorts(s) {
        if i > 0 {
          assert t[i - 1] == s[i];
        }
      }
    }
  }

  /** Later strips' ports come first. */
  lemma {:induction false} CollectPortsOfConcat(a: seq<Strip>, b: seq<Strip>)
    ensures CollectPorts(a + b) == CollectPorts(b) + CollectPorts(a)
  {
    if a == [] {
      assert a + b == b;
    } else {
      assert (a + b)[0] == a[0] && (a + b)[1..] == a[1..] + b;
      CollectPortsOfConcat(a[1..], b);
    }
  }

  function Targets(ports: seq<string>): (t: seq<string>)
    requires AllHaveSlash(ports)
    ensures |t| == |ports| && forall i :: 0 <= i < |ports| ==> t[i] == Target(ports[i])
  {
    seq(|ports|, i requires 0 <= i < |ports| => Target(ports[i]))
  }

  /** The elements of `xs` in order of first appearance, each once. */
  function Dedup(xs: seq<string>): (d: seq<string>)
    ensures forall i, j :: 0 <= i < j < |d| ==> d[i] != d[j]
    ensures forall x :: x in d <==> x in xs
  {
    if xs == [] then []
    else
      var d := Dedup(xs[..|xs| - 1]);
      assert forall x :: x in xs <==> x in xs[..|xs| - 1] || x == xs[|xs| - 1] by {
        assert xs == xs[..|xs| - 1] + [xs[|xs| - 1]];
      }
      if xs[|xs| - 1] in d then d else d + [xs[|xs| - 1]]
  }

  /** One more element either was seen already or goes to the end. */
  lemma DedupStep(xs: seq<string>, k: nat)
    requires k < |xs|
    ensures Dedup(xs[..k + 1]) == if xs[k] in Dedup(xs[..k]) then Dedup(xs[..k]) else Dedup(xs[..k]) + [xs[k]]
  {
    assert xs[..k + 1][..k] == xs[..k];
  }

  /** Where `x` first appears in `xs`. */
  function FirstIndex(xs: seq<string>, x: string): (k: nat)
    requires x in xs
    ensures k < |xs| && xs[k] == x
    ensures forall j :: 0 <= j < k ==> xs[j] != x
  {
    if xs[0] == x then 0 else 1 + FirstIndex(xs[1..], x)
  }

  lemma FirstIndexInPrefix(xs: seq<string>, n: nat, x: string)
    requires n <= |xs| && x in xs[..n]
    ensures x in xs && FirstIndex(xs, x) == FirstIndex(xs[..n], x)
  {
    var k := FirstIndex(xs[..n], x);
    assert xs[k] == x;
    var m := FirstIndex(xs, x);
    assert m <= k;
    assert xs[..n][m] == x;
  }

  /** De-duplication keeps the order in which the elements first appear. */
  lemma {:induction false} DedupKeepsFirstAppearanceOrder(xs: seq<string>)
    ensures forall i, j :: 0 <= i < j < |Dedup(xs)| ==> FirstIndex(xs, Dedup(xs)[i]) < FirstIndex(xs, Dedup(xs)[j])
  {
    if xs != [] {
      var n := |xs| - 1;
      var init := xs[..n];
      var last := xs[n];
      var prev := Dedup(init);
      var d := Dedup(xs);
      DedupKeepsFirstAppearanceOrder(init);
      forall y | y in prev ensures FirstIndex(xs, y) == FirstIndex(init, y) && FirstIndex(xs, y) < n {
        FirstIndexInPrefix(xs, n, y);
      }
      assert d == if last in prev then prev else prev + [last];
      forall i, j | 0 <= i < j < |d| ensures FirstIndex(xs, d[i]) < FirstIndex(xs, d[j]) {
        assert d[i] == prev[i] && d[i] in prev;
        if j < |prev| {
          assert d[j] == prev[j] && d[j] in prev;
          assert FirstIndex(init, prev[i]) < FirstIndex(init, prev[j]);
          assert FirstIndex(xs, d[i]) == FirstIndex(init, prev[i]);
          assert FirstIndex(xs, d[j]) == FirstIndex(init, prev[j]);
        } else {
          assert last !in init && d[j] == last;
          assert FirstIndex(xs, last) == n;
        }
      }
    }
  }
}
