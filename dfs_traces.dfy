/**
 * The two searches and passes of proj/2020-2021/p1 evaluated on three
 * small inputs, one search step per lemma: the assigning `DP` reporting a
 * path too short on a topological order (`AssignReportsShort`), the marker
 * stack search listing a DAG out of reverse topological order
 * (`OrderNotTopological`), and the `std::stack` search listing a vertex twice
 * (`DuplicateOrder`).  A state is `Walk(stack, is_last, visited, order)`,
 * with `is_last` and `visited` indexed by the vertices `0..n`.
 */
module DfsTraces {
  import opened Seqs
  import opened LinkedGraph
  import opened DfsWalk
  import opened KahnOrder
  import opened PathDp
  import opened DfsTopo

  /** Input `4 3 / 2 3 / 3 4 / 1 4`: arcs 2 -> 3, 3 -> 4 and 1 -> 4. */
  const Chain: AdjLists := [[], [4], [3], [4], []]
  const None: seq<bool> := [false, false, false, false, false]
  const V1: seq<bool> := [false, true, false, false, false]
  const V14: seq<bool> := [false, true, false, false, true]
  const V124: seq<bool> := [false, true, true, false, true]
  const All: seq<bool> := [false, true, true, true, true]

  lemma ChainWithin() ensures Within(Chain, 4) {}

  lemma C1(marked: bool) ensures Step(marked, Chain, 4, Walk([1], None, None, [])) == Walk([1, 4], V1, V1, []) { ChainWithin(); }
  lemma C2(marked: bool) ensures Step(marked, Chain, 4, Walk([1, 4], V1, V1, [])) == Walk([1, 4], V14, V14, []) { ChainWithin(); }
  lemma C3(marked: bool) ensures Step(marked, Chain, 4, Walk([1, 4], V14, V14, [])) == Walk([1], V14, V14, [4]) { ChainWithin(); }
  lemma C4(marked: bool) ensures Step(marked, Chain, 4, Walk([1], V14, V14, [4])) == Walk([], V14, V14, [4, 1]) { ChainWithin(); }
  lemma C5(marked: bool) ensures Step(marked, Chain, 4, Walk([2], V14, V14, [4, 1])) == Walk([2, 3], V124, V124, [4, 1]) { ChainWithin(); }
  lemma C6(marked: bool) ensures Step(marked, Chain, 4, Walk([2, 3], V124, V124, [4, 1])) == Walk([2, 3], All, All, [4, 1]) { ChainWithin(); }
  lemma C7(marked: bool) ensures Step(marked, Chain, 4, Walk([2, 3], All, All, [4, 1])) == Walk([2], All, All, [4, 1, 3]) { ChainWithin(); }
  lemma C8(marked: bool) ensures Step(marked, Chain, 4, Walk([2], All, All, [4, 1, 3])) == Walk([], All, All, [4, 1, 3, 2]) { ChainWithin(); }

  lemma ChainRound1(marked: bool)
    ensures Within(Chain, 4) && Round(marked, Chain, 4, 1, Walk([], None, None, [])) == Walk([], V14, V14, [4, 1])
  {
    ChainWithin();
    C1(marked); C2(marked); C3(marked); C4(marked);
    assert Start(marked, 1, Walk([], None, None, [])) == Walk([1], None, None, []);
  }

  lemma ChainRound2(marked: bool)
    ensures Within(Chain, 4) && Round(marked, Chain, 4, 2, Walk([], V14, V14, [4, 1])) == Walk([], All, All, [4, 1, 3, 2])
  {
    ChainWithin();
    C5(marked); C6(marked); C7(marked); C8(marked);
    assert Start(marked, 2, Walk([], V14, V14, [4, 1])) == Walk([2], V14, V14, [4, 1]);
  }

  /** Both searches of the input list the vertices as `4 1 3 2`. */
  lemma ChainOrder(marked: bool)
    ensures Within(Chain, 4) && Dfs(marked, Chain, 4).order == [4, 1, 3, 2]
  {
    ChainWithin();
    var w0 := Walk([], seq(5, _ => false), seq(5, _ => false), []);
    assert w0 == Walk([], None, None, []);
    var w1 := Walk([], V14, V14, [4, 1]);
    var w2 := Walk([], All, All, [4, 1, 3, 2]);
    SearchNext(marked, Chain, 4, 1, w0);
    ChainRound1(marked);
    SearchNext(marked, Chain, 4, 2, w1);
    ChainRound2(marked);
    ChainDone();
    SearchVisited(marked, Chain, 4, 3, w2);
  }

  lemma ChainDone()
    ensures Shape(Chain, 4, Walk([], All, All, [4, 1, 3, 2]))
    ensures forall v :: 3 <= v <= 4 ==> All[v]
  {
    ChainWithin();
  }

  const Zeros: seq<int> := [0, 0, 0, 0, 0]

  lemma ChainAssign()
    ensures Within(Chain, 4) && AllIn([2, 3, 1, 4], 0, 5)
    ensures Relax(Assign, Chain, 4, [2, 3, 1, 4], Zeros) == [0, 0, 0, 1, 1]
  {
    ChainWithin();
    assert RelaxFrom(Assign, [3], 2, Zeros) == [0, 0, 0, 1, 0];
    assert RelaxFrom(Assign, [4], 3, [0, 0, 0, 1, 0]) == [0, 0, 0, 1, 2];
    assert RelaxFrom(Assign, [4], 1, [0, 0, 0, 1, 2]) == [0, 0, 0, 1, 1];
    assert Relax(Assign, Chain, 4, [4], [0, 0, 0, 1, 1]) == [0, 0, 0, 1, 1];
    assert Relax(Assign, Chain, 4, [1, 4], [0, 0, 0, 1, 2]) == [0, 0, 0, 1, 1];
    assert Relax(Assign, Chain, 4, [3, 1, 4], [0, 0, 0, 1, 0]) == [0, 0, 0, 1, 1];
  }

  lemma ChainLift()
    ensures Within(Chain, 4) && AllIn([2, 3, 1, 4], 0, 5)
    ensures Relax(Lift, Chain, 4, [2, 3, 1, 4], Zeros) == [0, 0, 0, 1, 2]
  {
    ChainWithin();
    assert RelaxFrom(Lift, [3], 2, Zeros) == [0, 0, 0, 1, 0];
    assert RelaxFrom(Lift, [4], 3, [0, 0, 0, 1, 0]) == [0, 0, 0, 1, 2];
    assert RelaxFrom(Lift, [4], 1, [0, 0, 0, 1, 2]) == [0, 0, 0, 1, 2];
    assert Relax(Lift, Chain, 4, [4], [0, 0, 0, 1, 2]) == [0, 0, 0, 1, 2];
    assert Relax(Lift, Chain, 4, [1, 4], [0, 0, 0, 1, 2]) == [0, 0, 0, 1, 2];
    assert Relax(Lift, Chain, 4, [3, 1, 4], [0, 0, 0, 1, 0]) == [0, 0, 0, 1, 2];
  }

  lemma ChainTopological()
    ensures Topological(Chain, [2, 3, 1, 4], 4) && Path(Chain, 4, [2, 3, 4])
  {
    var t := [2, 3, 1, 4];
    assert t[..0] == [] && t[..1] == [2] && t[..2] == [2, 3] && t[..3] == [2, 3, 1];
  }

  /**
   * On `4 3 / 2 3 / 3 4 / 1 4` both programs pop `2 3 1 4`, a topological
   * order, yet the assigning pass leaves `dist[4] = 1` from the later arc
   * `1 -> 4`: they report 2 sources and a longest path of 2 vertices, while
   * `2 -> 3 -> 4` has 3.
   */
  lemma AssignReportsShort()
    ensures Within(Chain, 4)
    ensures Dfs(true, Chain, 4).order == [4, 1, 3, 2] && Dfs(false, Chain, 4).order == [4, 1, 3, 2]
    ensures Reversed([4, 1, 3, 2]) == [2, 3, 1, 4] && Topological(Chain, [2, 3, 1, 4], 4)
    ensures CountZero(Relax(Assign, Chain, 4, [2, 3, 1, 4], seq(5, _ => 0)), 4) == 2
    ensures MaxDist(Relax(Assign, Chain, 4, [2, 3, 1, 4], seq(5, _ => 0)), 4) + 1 == 2
    ensures Path(Chain, 4, [2, 3, 4])
  {
    ChainOrder(true);
    ChainOrder(false);
    ChainReversed();
    ChainTopological();
    ChainAssignReports();
  }

  lemma ChainReversed()
    ensures Reversed([4, 1, 3, 2]) == [2, 3, 1, 4]
  {
    assert Reversed([2]) == [2];
    assert Reversed([3, 2]) == [2, 3];
    assert Reversed([1, 3, 2]) == [2, 3, 1];
  }

  lemma ChainAssignReports()
    ensures Within(Chain, 4) && AllIn([2, 3, 1, 4], 0, 5)
    ensures CountZero(Relax(Assign, Chain, 4, [2, 3, 1, 4], seq(5, _ => 0)), 4) == 2
    ensures MaxDist(Relax(Assign, Chain, 4, [2, 3, 1, 4], seq(5, _ => 0)), 4) + 1 == 2
  {
    assert seq(5, _ => 0) == Zeros;
    ChainAssign();
    var d := [0, 0, 0, 1, 1];
    assert MaxDist(d, 4) == 1;
    assert CountZero(d, 4) == 2;
  }

  /** The corrected pass on the same order reports the 3 vertices of `2 -> 3 -> 4`. */
  lemma LiftReportsChain()
    ensures Within(Chain, 4) && AllIn([2, 3, 1, 4], 0, 5)
    ensures MaxDist(Relax(Lift, Chain, 4, [2, 3, 1, 4], seq(5, _ => 0)), 4) + 1 == 3
  {
    assert seq(5, _ => 0) == Zeros;
    ChainLift();
    var d := [0, 0, 0, 1, 2];
    assert MaxDist(d, 4) == 2;
  }

  /** Input `4 4 / 1 2 / 1 3 / 3 2 / 2 4`: arcs 1 -> 2, 1 -> 3, 3 -> 2 and 2 -> 4. */
  const Cross: AdjLists := [[], [2, 3], [4], [2], []]
  const P13: seq<bool> := [false, true, false, true, false]
  const P123: seq<bool> := [false, true, true, true, false]

  lemma CrossWithin() ensures Within(Cross, 4) {}

  lemma N1() ensures Step(true, Cross, 4, Walk([1], None, None, [])) == Walk([1, 2, 3], V1, V1, []) {
    CrossWithin();
    StepOpen(true, Cross, 4, Walk([1], None, None, []), [], 1);
    OpenOne();
    ScanTwoThree();
  }

  /** Opening vertex 1 pushes it and marks it. */
  lemma OpenOne() ensures Push(true, [], 1) == [1] && None[1 := true] == V1 {
    assert [] + [1] == [1];
  }

  /** The targets 2 and 3 of vertex 1 are pushed in that order. */
  lemma ScanTwoThree() ensures AllIn([2, 3], 0, 5) && Scan(true, [2, 3], Walk([1], V1, V1, [])) == Walk([1, 2, 3], V1, V1, []) {
    assert [2, 3][1..] == [3] && [3][1..] == [];
    assert Push(true, [1], 2) == [1, 2] && Push(true, [1, 2], 3) == [1, 2, 3];
  }
  lemma N2() ensures Step(true, Cross, 4, Walk([1, 2, 3], V1, V1, [])) == Walk([1, 2, 3], P13, P13, []) {
    CrossWithin();
    StepOpen(true, Cross, 4, Walk([1, 2, 3], V1, V1, []), [1, 2], 3);
    OpenThree();
    ScanHeld();
  }

  /** Opening vertex 3 pushes it once and marks it. */
  lemma OpenThree() ensures Push(true, [1, 2], 3) == [1, 2, 3] && V1[3 := true] == P13 {
    assert [1, 2] + [3] == [1, 2, 3];
  }

  /** Vertex 2, already held, is not pushed again when 3 is expanded. */
  lemma ScanHeld()
    ensures AllIn([2], 0, 5) && Scan(true, [2], Walk([1, 2, 3], P13, P13, [])) == Walk([1, 2, 3], P13, P13, [])
  {
    assert Push(true, [1, 2, 3], 2) == [1, 2, 3] && P13[2 := false] == P13;
  }
  lemma N3() ensures Step(true, Cross, 4, Walk([1, 2, 3], P13, P13, [])) == Walk([1, 2], P13, P13, [3]) { CrossWithin(); }
  lemma N4() ensures Step(true, Cross, 4, Walk([1, 2], P13, P13, [3])) == Walk([1, 2, 4], P123, P123, [3]) { CrossWithin(); }
  lemma N5() ensures Step(true, Cross, 4, Walk([1, 2, 4], P123, P123, [3])) == Walk([1, 2, 4], All, All, [3]) { CrossWithin(); }
  lemma N6() ensures Step(true, Cross, 4, Walk([1, 2, 4], All, All, [3])) == Walk([1, 2], All, All, [3, 4]) { CrossWithin(); }
  lemma N7() ensures Step(true, Cross, 4, Walk([1, 2], All, All, [3, 4])) == Walk([1], All, All, [3, 4, 2]) { CrossWithin(); }
  lemma N8() ensures Step(true, Cross, 4, Walk([1], All, All, [3, 4, 2])) == Walk([], All, All, [3, 4, 2, 1]) { CrossWithin(); }

  lemma CrossRound()
    ensures Within(Cross, 4) && Round(true, Cross, 4, 1, Walk([], None, None, [])) == Walk([], All, All, [3, 4, 2, 1])
  {
    CrossWithin();
    N1(); N2(); N3(); N4(); N5(); N6(); N7(); N8();
    assert Start(true, 1, Walk([], None, None, [])) == Walk([1], None, None, []);
  }

  lemma CrossDone()
    ensures Shape(Cross, 4, Walk([], All, All, [3, 4, 2, 1]))
    ensures forall v :: 2 <= v <= 4 ==> All[v]
  {
    CrossWithin();
  }

  /** The marker-stack search lists `3 4 2 1`: vertex 2, already held below 3, is not pushed again above it. */
  lemma CrossOrder()
    ensures Within(Cross, 4) && Dfs(true, Cross, 4).order == [3, 4, 2, 1]
  {
    CrossWithin();
    var w0 := Walk([], seq(5, _ => false), seq(5, _ => false), []);
    assert w0 == Walk([], None, None, []);
    var w1 := Walk([], All, All, [3, 4, 2, 1]);
    SearchNext(true, Cross, 4, 1, w0);
    CrossRound();
    CrossDone();
    SearchVisited(true, Cross, 4, 2, w1);
  }

  lemma CrossRelax(rule: Rule)
    ensures Within(Cross, 4) && AllIn([1, 2, 4, 3], 0, 5)
    ensures Relax(rule, Cross, 4, [1, 2, 4, 3], Zeros) == [0, 0, 2, 1, 2]
  {
    CrossWithin();
    assert RelaxFrom(rule, [2, 3], 1, Zeros) == [0, 0, 1, 1, 0];
    assert RelaxFrom(rule, [4], 2, [0, 0, 1, 1, 0]) == [0, 0, 1, 1, 2];
    assert RelaxFrom(rule, [2], 3, [0, 0, 1, 1, 2]) == [0, 0, 2, 1, 2];
    assert Relax(rule, Cross, 4, [3], [0, 0, 1, 1, 2]) == [0, 0, 2, 1, 2];
    assert Relax(rule, Cross, 4, [4, 3], [0, 0, 1, 1, 2]) == [0, 0, 2, 1, 2];
    assert Relax(rule, Cross, 4, [2, 4, 3], [0, 0, 1, 1, 0]) == [0, 0, 2, 1, 2];
  }

  lemma CrossReports(rule: Rule)
    ensures Within(Cross, 4) && AllIn([1, 2, 4, 3], 0, 5)
    ensures MaxDist(Relax(rule, Cross, 4, [1, 2, 4, 3], seq(5, _ => 0)), 4) + 1 == 3
  {
    assert seq(5, _ => 0) == Zeros;
    CrossRelax(rule);
    var d := [0, 0, 2, 1, 2];
    assert MaxDist(d, 4) == 2;
  }

  /**
   * The marker-stack search does not list the vertices in reverse
   * topological order: on `4 4 / 1 2 / 1 3 / 3 2 / 2 4` it pops `2` before
   * `3` although `3 -> 2`, so even the corrected pass reports 3 vertices
   * while `1 -> 3 -> 2 -> 4` has 4.
   */
  lemma OrderNotTopological()
    ensures Within(Cross, 4)
    ensures Dfs(true, Cross, 4).order == [3, 4, 2, 1] && Reversed([3, 4, 2, 1]) == [1, 2, 4, 3]
    ensures !Topological(Cross, [1, 2, 4, 3], 4) && Path(Cross, 4, [1, 3, 2, 4])
    ensures AllIn([1, 2, 4, 3], 0, 5)
    ensures MaxDist(Relax(Lift, Cross, 4, [1, 2, 4, 3], seq(5, _ => 0)), 4) + 1 == 3
  {
    CrossOrder();
    CrossReports(Lift);
    CrossNotTopological();
  }

  lemma CrossNotTopological()
    ensures Reversed([3, 4, 2, 1]) == [1, 2, 4, 3]
    ensures !Topological(Cross, [1, 2, 4, 3], 4) && Path(Cross, 4, [1, 3, 2, 4])
  {
    CrossReversed();
    CrossUnordered();
    assert Cross[1] == [2, 3] && Cross[3] == [2] && Cross[2] == [4];
  }

  lemma CrossReversed()
    ensures Reversed([3, 4, 2, 1]) == [1, 2, 4, 3]
  {
    assert Reversed([3]) == [3];
    assert Reversed([3, 4]) == [4, 3];
    assert Reversed([3, 4, 2]) == [2, 4, 3];
  }

  lemma CrossUnordered()
    ensures !Topological(Cross, [1, 2, 4, 3], 4)
  {
    var t := [1, 2, 4, 3];
    assert t[..1] == [1] && 2 in Cross[3];
  }

  /** `1 3 2 4` is a topological order of the same input. */
  lemma CrossTopological()
    ensures Topological(Cross, [1, 3, 2, 4], 4)
  {
    var t := [1, 3, 2, 4];
    assert t[..0] == [] && t[..1] == [1] && t[..2] == [1, 3] && t[..3] == [1, 3, 2];
  }

  /**
   * The input of `OrderNotTopological` has no cycle, and the corrected
   * search followed by the corrected pass reports at least the 4 vertices
   * of `1 -> 3 -> 2 -> 4`, where the code as written reports 3.
   */
  lemma CrossFixed()
    ensures Within(Cross, 4) && Acyclic(Cross) && Cross[0] == []
    ensures AllIn(Reversed(FixedDfs(Cross, 4).order), 1, 5)
    ensures MaxDist(Relax(Lift, Cross, 4, Reversed(FixedDfs(Cross, 4).order), seq(5, _ => 0)), 4) + 1 >= 4
  {
    CrossWithin();
    CrossTopological();
    TopologicalAcyclic(Cross, 4, [1, 3, 2, 4]);
    FixedReportsLongest(Cross, 4);
    CrossNotTopological();
  }

  /** Input `3 3 / 1 2 / 1 3 / 3 2`: arcs 1 -> 2, 1 -> 3 and 3 -> 2. */
  const Twice: AdjLists := [[], [2, 3], [], [2]]
  const T0: seq<bool> := [false, false, false, false]
  const T1: seq<bool> := [false, true, false, false]
  const T13: seq<bool> := [false, true, false, true]
  const TAll: seq<bool> := [false, true, true, true]

  lemma TwiceWithin() ensures Within(Twice, 3) {}

  lemma D1() ensures Step(false, Twice, 3, Walk([1], T0, T0, [])) == Walk([1, 2, 3], T1, T1, []) { TwiceWithin(); }
  lemma D2() ensures Step(false, Twice, 3, Walk([1, 2, 3], T1, T1, [])) == Walk([1, 2, 3, 2], T13, T13, []) { TwiceWithin(); }
  lemma D3() ensures Step(false, Twice, 3, Walk([1, 2, 3, 2], T13, T13, [])) == Walk([1, 2, 3, 2], TAll, TAll, []) { TwiceWithin(); }
  lemma D4() ensures Step(false, Twice, 3, Walk([1, 2, 3, 2], TAll, TAll, [])) == Walk([1, 2, 3], TAll, TAll, [2]) { TwiceWithin(); }
  lemma D5() ensures Step(false, Twice, 3, Walk([1, 2, 3], TAll, TAll, [2])) == Walk([1, 2], TAll, TAll, [2, 3]) { TwiceWithin(); }
  lemma D6() ensures Step(false, Twice, 3, Walk([1, 2], TAll, TAll, [2, 3])) == Walk([1], TAll, TAll, [2, 3, 2]) { TwiceWithin(); }
  lemma D7() ensures Step(false, Twice, 3, Walk([1], TAll, TAll, [2, 3, 2])) == Walk([], TAll, TAll, [2, 3, 2, 1]) { TwiceWithin(); }

  lemma TwiceRound()
    ensures Within(Twice, 3) && Round(false, Twice, 3, 1, Walk([], T0, T0, [])) == Walk([], TAll, TAll, [2, 3, 2, 1])
  {
    TwiceWithin();
    D1(); D2(); D3(); D4(); D5(); D6(); D7();
    assert Start(false, 1, Walk([], T0, T0, [])) == Walk([1], T0, T0, []);
  }

  lemma TwiceDone()
    ensures Shape(Twice, 3, Walk([], TAll, TAll, [2, 3, 2, 1]))
    ensures forall v :: 2 <= v <= 3 ==> TAll[v]
  {
    TwiceWithin();
  }

  /**
   * The `std::stack` search pushes 2 a second time when 3 is expanded, so
   * `order` lists 2 twice, which the marker stacks never do (`DfsCovers`).
   */
  lemma DuplicateOrder()
    ensures Within(Twice, 3) && Dfs(false, Twice, 3).order == [2, 3, 2, 1]
  {
    TwiceWithin();
    var w0 := Walk([], seq(4, _ => false), seq(4, _ => false), []);
    assert w0 == Walk([], T0, T0, []);
    var w1 := Walk([], TAll, TAll, [2, 3, 2, 1]);
    SearchNext(false, Twice, 3, 1, w0);
    TwiceRound();
    TwiceDone();
    SearchVisited(false, Twice, 3, 2, w1);
  }
}
