/** The worker's removal of the head takes several statements and no lock
    (src/excom-server/client.c, the start of the inner loop), while the parser
    appends under a lock of its own. This module says which interleavings the
    list survives. Nodes are numbered in the order they are allocated. */
module ListRace {
  import opened Bytes

  /** `faulted` records a store through a null pointer. */
  datatype List = List(next: seq<Option<nat>>, head: Option<nat>, last: Option<nat>, faulted: bool)

  /** The parser's append of a new node. */
  function Append(l: List): List {
    var n := |l.next|;
    if l.head.None? then l.(next := l.next + [None], head := Some(n), last := Some(n))
    else if l.last.None? || l.last.value >= n then l.(faulted := true)
    else l.(next := l.next[l.last.value := Some(n)] + [None], last := Some(n))
  }

  function AppendMany(l: List, k: nat): List {
    if k == 0 then l else Append(AppendMany(l, k - 1))
  }

  /** The statements of the removal, with `a` appends between the load of
      packet->_next and the store to the head, `b` between that store and the
      test for the empty list, and `c` between the test and its consequence. */
  function Remove(l: List, a: nat, b: nat, c: nat): List
    requires l.head.Some? && l.head.value < |l.next|
  {
    var loaded := l.next[l.head.value];
    var stored := AppendMany(l, a).(head := loaded);
    var tested := AppendMany(stored, b);
    var end := AppendMany(tested, c);
    if tested.head.None? then end.(last := None) else end
  }

  /** The list is the nodes `xs`, linked in order. With no nodes, `last` may be
      left over from before. */
  ghost predicate Links(l: List, xs: seq<nat>) {
    && !l.faulted
    && (forall i | 0 <= i < |xs| :: xs[i] < |l.next|)
    && (forall i, j | 0 <= i < j < |xs| :: xs[i] != xs[j])
    && (forall i | 0 <= i < |xs| - 1 :: l.next[xs[i]] == Some(xs[i + 1]))
    && (xs == [] ==> l.head == None)
    && (xs != [] ==> l.head == Some(xs[0]) && l.last == Some(xs[|xs| - 1]) && l.next[xs[|xs| - 1]] == None)
  }

  /** Both pointers agree with the nodes, as every append relies on. */
  ghost predicate Holds(l: List, xs: seq<nat>) {
    Links(l, xs) && (xs == [] ==> l.last == None)
  }

  /** `k` nodes allocated from number `n` on. */
  function Nodes(n: nat, k: nat): (xs: seq<nat>)
    ensures |xs| == k && forall i | 0 <= i < k :: xs[i] == n + i
  {
    seq(k, i => n + i)
  }

  lemma AppendLinks(l: List, xs: seq<nat>)
    requires Links(l, xs)
    ensures Links(Append(l), xs + [|l.next|]) && |Append(l).next| == |l.next| + 1
  {
    var n, ys := |l.next|, xs + [|l.next|];
    var r := Append(l);
    if xs != [] {
      var m := |xs| - 1;
      assert ys[m] == xs[m] && ys[m + 1] == n;
      forall i | 0 <= i < |ys| - 1 ensures r.next[ys[i]] == Some(ys[i + 1]) {
        if i < m {
          assert ys[i] == xs[i] && ys[i + 1] == xs[i + 1] && xs[i] != xs[m];
        }
      }
    }
  }

  lemma {:induction false} AppendManyLinks(l: List, xs: seq<nat>, k: nat)
    requires Links(l, xs)
    ensures Links(AppendMany(l, k), xs + Nodes(|l.next|, k))
    ensures |AppendMany(l, k).next| == |l.next| + k
  {
    hide Links, Append;
    if k == 0 {
      assert xs + Nodes(|l.next|, 0) == xs;
    } else {
      AppendManyLinks(l, xs, k - 1);
      AppendLinks(AppendMany(l, k - 1), xs + Nodes(|l.next|, k - 1));
      assert xs + Nodes(|l.next|, k) == xs + Nodes(|l.next|, k - 1) + [|l.next| + (k - 1)];
    }
  }

  lemma NodesJoin(n: nat, a: nat, b: nat)
    ensures Nodes(n, a) + Nodes(n + a, b) == Nodes(n, a + b)
    ensures Nodes(n, 0) == [] && (a > 0 ==> Nodes(n, a) != [] && Nodes(n, a)[0] == n)
  {
  }

  lemma Ends(l: List, xs: seq<nat>)
    requires Links(l, xs)
    ensures l.head == if xs == [] then None else Some(xs[0])
    ensures xs != [] ==> xs[0] < |l.next| && l.last == Some(xs[|xs| - 1])
    ensures xs != [] ==> l.next[xs[0]] == if |xs| > 1 then Some(xs[1]) else None
  {
    if |xs| > 1 {
      assert l.next[xs[0]] == Some(xs[0 + 1]);
    }
  }

  lemma ClearLast(l: List, xs: seq<nat>)
    requires Links(l, xs)
    ensures Holds(l.(last := None), xs) <==> xs == []
  {
  }

  /** The removal, run against any number of appends at each point, leaves the
      rest of the list and the appended nodes exactly when it does not meet an
      append at the moments that matter: with one node in the list, no append
      between load and store, and none between a test that found the list
      empty and its consequence. */
  lemma RemoveSurvives(l: List, xs: seq<nat>, a: nat, b: nat, c: nat)
    requires Holds(l, xs) && xs != []
    ensures Holds(Remove(l, a, b, c), xs[1..] + Nodes(|l.next|, a + b + c))
       <==> |xs| > 1 || (a == 0 && (b > 0 || c == 0))
  {
    var n := |l.next|;
    if |xs| > 1 {
      LongList(l, xs, a, b, c);
    } else if a == 0 {
      LoneNode(l, xs, b, c);
    } else {
      LostNode(l, xs, a, b, c);
    }
  }

  lemma DropHead(l: List, xs: seq<nat>, h: Option<nat>)
    requires Links(l, xs) && xs != []
    requires h == if |xs| > 1 then Some(xs[1]) else None
    ensures Links(l.(head := h), xs[1..])
  {
    var ys := xs[1..];
    assert forall i | 0 <= i < |ys| :: ys[i] == xs[i + 1];
  }

  /** Two runs of appends to a list without its head, as the removal leaves
      them. */
  lemma TwoRuns(l: List, xs: seq<nat>, b: nat, c: nat)
    requires Links(l, xs)
    ensures Links(AppendMany(l, b), xs + Nodes(|l.next|, b))
    ensures Links(AppendMany(AppendMany(l, b), c), xs + Nodes(|l.next|, b + c))
  {
    hide Links, AppendMany, Nodes;
    var n := |l.next|;
    AppendManyLinks(l, xs, b);
    AppendManyLinks(AppendMany(l, b), xs + Nodes(n, b), c);
    Assoc(xs, Nodes(n, b), Nodes(n + b, c));
    NodesJoin(n, b, c);
  }

  lemma LongList(l: List, xs: seq<nat>, a: nat, b: nat, c: nat)
    requires Holds(l, xs) && |xs| > 1
    ensures Holds(Remove(l, a, b, c), xs[1..] + Nodes(|l.next|, a + b + c))
  {
    hide Links, AppendMany, Nodes;
    var n := |l.next|;
    Ends(l, xs);
    AppendManyLinks(l, xs, a);
    var mid := xs + Nodes(n, a);
    assert mid[1] == xs[1] && mid[1..] == xs[1..] + Nodes(n, a);
    DropHead(AppendMany(l, a), mid, Some(xs[1]));
    var stored := AppendMany(l, a).(head := Some(xs[1]));
    TwoRuns(stored, mid[1..], b, c);
    Assoc(xs[1..], Nodes(n, a), Nodes(n + a, b + c));
    NodesJoin(n, a, b + c);
    Ends(AppendMany(stored, b), mid[1..] + Nodes(n + a, b));
  }

  lemma LoneNode(l: List, xs: seq<nat>, b: nat, c: nat)
    requires Holds(l, xs) && |xs| == 1
    ensures Holds(Remove(l, 0, b, c), xs[1..] + Nodes(|l.next|, 0 + b + c)) <==> b > 0 || c == 0
  {
    hide Links, Nodes, Append;
    var n := |l.next|;
    Ends(l, xs);
    DropHead(l, xs, None);
    assert AppendMany(l, 0) == l;
    hide AppendMany;
    var stored := l.(head := None);
    assert xs[1..] == [];
    TwoRuns(stored, [], b, c);
    assert [] + Nodes(n, b) == Nodes(n, b) && [] + Nodes(n, b + c) == Nodes(n, b + c);
    NodesJoin(n, b, c);
    NodesJoin(n, b + c, 0);
    Ends(AppendMany(stored, b), Nodes(n, b));
    ClearLast(AppendMany(AppendMany(stored, b), c), Nodes(n, b + c));
  }

  lemma Headless(l: List, xs: seq<nat>)
    requires Links(l, xs)
    ensures Links(l.(head := None), [])
  {
  }

  lemma LostNode(l: List, xs: seq<nat>, a: nat, b: nat, c: nat)
    requires Holds(l, xs) && |xs| == 1 && a > 0
    ensures !Holds(Remove(l, a, b, c), xs[1..] + Nodes(|l.next|, a + b + c))
  {
    hide Links, AppendMany, Nodes;
    var n, m := |l.next|, |l.next| + a;
    Ends(l, xs);
    AppendManyLinks(l, xs, a);
    var stored := AppendMany(l, a).(head := None);
    Headless(AppendMany(l, a), xs + Nodes(n, a));
    TwoRuns(stored, [], b, c);
    assert [] + Nodes(m, b) == Nodes(m, b) && [] + Nodes(m, b + c) == Nodes(m, b + c);
    NodesJoin(m, b + c, 0);
    NodesJoin(n, a + b + c, 0);
    var end := Remove(l, a, b, c);
    Ends(AppendMany(AppendMany(stored, b), c), Nodes(m, b + c));
    assert end.head != Some(n);
    var expected := xs[1..] + Nodes(n, a + b + c);
    assert xs[1..] == [] && expected == Nodes(n, a + b + c);
    if Holds(end, expected) {
      Ends(end, expected);
    }
  }
}
