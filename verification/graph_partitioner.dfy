/**
  The decomposition of the dependency graph into complete subgraphs
  (`pfa1`).

  The algorithm keeps two lists: subgraphs still to divide (connected, not
  complete) and complete subgraphs (the output).  Dividing a subgraph deletes
  a minimum node cut from it and sorts the pieces that remain into the two
  lists.  Deleted nodes are never reported: the output is a partition of the
  nodes that were NOT deleted, and together with the deleted nodes it covers
  the input exactly once.
*/
module GraphPartitioner {
  import opened DependencyGraph

  /** The two networkx routines the algorithm relies on. */
  datatype GraphLib = GraphLib(
    connectedComponents: Graph -> seq<set<nat>>,
    minimumNodeCut: Graph -> set<nat>)

  /** Their contracts: the components of every graph, and a minimum node cut
      of every connected graph that is not complete (the only graphs it is
      called on).  ComponentListExists and MinimumNodeCutExists show both can
      be met. */
  ghost predicate LibSound(lib: GraphLib)
  {
    && (forall h {:trigger lib.connectedComponents(h)} ::
          WellFormed(h) ==> IsComponentList(h, lib.connectedComponents(h)))
    && (forall h {:trigger lib.minimumNodeCut(h)} ::
          WellFormed(h) && Connected(h) && !Complete(h) ==>
          IsMinimumNodeCut(h, lib.minimumNodeCut(h)))
  }

  /** A subgraph of `g` as the algorithm holds it: non-empty, connected, and
      induced in `g` by its own nodes. */
  ghost predicate Piece(g: Graph, x: Graph)
  {
    x.nodes != {} && x == Induced(g, x.nodes) && Connected(x)
  }

  /** The invariant of the two lists: every graph to divide is a piece that
      is not complete, every complete one is a piece that is complete, and no
      node is in two graphs. */
  ghost predicate Classified(g: Graph, toDivide: seq<Graph>, complete: seq<Graph>)
  {
    && (forall i :: 0 <= i < |toDivide| ==> Piece(g, toDivide[i]) && !Complete(toDivide[i]))
    && (forall i :: 0 <= i < |complete| ==> Piece(g, complete[i]) && Complete(complete[i]))
    && PairwiseDisjoint(toDivide) && PairwiseDisjoint(complete)
    && UnionNodes(toDivide) !! UnionNodes(complete)
  }

  /** Every connected component of `g` that is already complete is in `subs`,
      unchanged. */
  ghost predicate CompleteComponentsKept(g: Graph, subs: seq<Graph>)
  {
    forall u {:trigger Component(g, u)} :: u in g.nodes && Complete(Induced(g, Component(g, u))) ==>
      Induced(g, Component(g, u)) in subs
  }

  /** No edge of `g` leaves `x` except into a deleted node: once the deleted
      nodes are gone, `x` is a union of connected components of `g`. */
  ghost predicate Closed(g: Graph, deleted: set<nat>, x: Graph)
  {
    forall u, v {:trigger Adjacent(g, u, v)} ::
      u in x.nodes && Adjacent(g, u, v) && v !in deleted ==> v in x.nodes
  }

  ghost predicate AllClosed(g: Graph, deleted: set<nat>, s: seq<Graph>)
  {
    forall x :: x in s ==> Closed(g, deleted, x)
  }

  /** What pfa1 returns, with the nodes it deleted: complete, connected,
      induced subgraphs of `g`, each closed (so they are exactly the
      connected components of `g` without the deleted nodes, see
      ReturnedAreComponents), with disjoint node sets, which together with
      the deleted nodes hold every node of `g` exactly once; at least one
      subgraph when `g` has a node; and a component of `g` that is complete
      already is returned as it is. */
  ghost predicate IsDecomposition(g: Graph, subs: seq<Graph>, deleted: set<nat>)
  {
    && (forall i :: 0 <= i < |subs| ==>
          Piece(g, subs[i]) && Complete(subs[i]) && Closed(g, deleted, subs[i]))
    && PairwiseDisjoint(subs)
    && UnionNodes(subs) !! deleted
    && UnionNodes(subs) + deleted == g.nodes
    && (g.nodes != {} ==> subs != [])
    && CompleteComponentsKept(g, subs)
  }

  /** One division: the subgraph that was divided and the cut deleted from it. */
  datatype Division = Division(piece: Graph, cut: set<nat>)

  /** The nodes deleted by the divisions of a log. */
  function CutNodes(log: seq<Division>): set<nat>
  {
    if log == [] then {} else CutNodes(log[..|log| - 1]) + log[|log| - 1].cut
  }

  /** The subgraphs divided, in the order of the log. */
  function Divided(log: seq<Division>): (r: seq<Graph>)
    ensures |r| == |log| && forall i :: 0 <= i < |log| ==> r[i] == log[i].piece
  {
    seq(|log|, i requires 0 <= i < |log| => log[i].piece)
  }

  /** Every logged division took the library's minimum node cut out of a
      connected, non-complete, induced subgraph of `g` that, when it was
      divided, was a connected component of `g` without the nodes the
      earlier divisions had deleted (disjoint from them and closed, see
      LoggedPiecesAreComponents); the deleted nodes are exactly the union
      of the cuts, and no node is cut twice (CutsDisjoint). */
  ghost predicate CutLog(g: Graph, lib: GraphLib, log: seq<Division>, deleted: set<nat>)
  {
    && (forall i :: 0 <= i < |log| ==>
          && Piece(g, log[i].piece) && !Complete(log[i].piece)
          && log[i].cut == lib.minimumNodeCut(log[i].piece)
          && IsMinimumNodeCut(log[i].piece, log[i].cut))
    && (forall i :: 0 <= i < |log| ==>
          log[i].piece.nodes !! CutNodes(log[..i]) && Closed(g, CutNodes(log[..i]), log[i].piece))
    && deleted == CutNodes(log)
  }

  // ---------------------------------------------------------------------
  // List operations

  function RemoveAt<T>(s: seq<T>, k: nat): (r: seq<T>)
    requires k < |s|
    ensures |r| == |s| - 1
    ensures forall i :: 0 <= i < |r| ==> r[i] == if i < k then s[i] else s[i + 1]
  {
    s[..k] + s[k + 1..]
  }

  /** The position list.remove deletes: the first occurrence of `x`. */
  function IndexOf<T(==)>(s: seq<T>, x: T): (k: nat)
    requires x in s
    ensures k < |s| && s[k] == x
    ensures forall j :: 0 <= j < k ==> s[j] != x
  {
    if s[0] == x then 0 else 1 + IndexOf(s[1..], x)
  }

  lemma RemoveAtKeeps<T>(s: seq<T>, k: nat, y: T)
    requires k < |s| && y in s && y != s[k]
    ensures y in RemoveAt(s, k)
  {
    var i :| 0 <= i < |s| && s[i] == y;
    if i < k {
      assert RemoveAt(s, k)[i] == y;
    } else {
      assert RemoveAt(s, k)[i - 1] == y;
    }
  }

  lemma RemoveAtGraphs(s: seq<Graph>, k: nat)
    requires k < |s| && PairwiseDisjoint(s)
    ensures PairwiseDisjoint(RemoveAt(s, k))
    ensures UnionNodes(RemoveAt(s, k)) == UnionNodes(s) - s[k].nodes
  {
    var r := RemoveAt(s, k);
    forall v | v in UnionNodes(r) ensures v in UnionNodes(s) - s[k].nodes {
      var i :| 0 <= i < |r| && v in r[i].nodes;
      if i < k {
        assert r[i] == s[i];
      } else {
        assert r[i] == s[i + 1];
      }
    }
    forall v | v in UnionNodes(s) - s[k].nodes ensures v in UnionNodes(r) {
      var i :| 0 <= i < |s| && v in s[i].nodes;
      if i < k {
        assert v in r[i].nodes;
      } else {
        assert v in r[i - 1].nodes;
      }
    }
  }

  lemma AppendGraph(s: seq<Graph>, x: Graph)
    ensures UnionNodes(s + [x]) == UnionNodes(s) + x.nodes
    ensures PairwiseDisjoint(s) && x.nodes !! UnionNodes(s) ==> PairwiseDisjoint(s + [x])
  {
    var t := s + [x];
    forall v | v in UnionNodes(t) ensures v in UnionNodes(s) + x.nodes {
      var i :| 0 <= i < |t| && v in t[i].nodes;
      if i < |s| { assert t[i] == s[i]; }
    }
    forall v | v in UnionNodes(s) ensures v in UnionNodes(t) {
      var i :| 0 <= i < |s| && v in s[i].nodes;
      assert t[i] == s[i];
    }
    assert x == t[|s|];
    if PairwiseDisjoint(s) && x.nodes !! UnionNodes(s) {
      forall i, j | 0 <= i < |t| && 0 <= j < |t| && i != j
        ensures t[i].nodes !! t[j].nodes
      {
        if i < |s| && j < |s| {
          assert t[i] == s[i] && t[j] == s[j];
        } else if i < |s| {
          assert t[i] == s[i];
          assert s[i].nodes <= UnionNodes(s);
        } else {
          assert t[j] == s[j];
          assert s[j].nodes <= UnionNodes(s);
        }
      }
    }
  }

  lemma MemberNodes(s: seq<Graph>, x: Graph)
    requires x in s
    ensures x.nodes <= UnionNodes(s)
  {
    var i :| 0 <= i < |s| && s[i] == x;
  }

  lemma PrefixKeeps(a: seq<Graph>, b: seq<Graph>, x: Graph)
    requires a <= b && x in a
    ensures x in b
  {
    var i :| 0 <= i < |a| && a[i] == x;
    assert b[i] == x;
  }

  lemma SubsetSize(a: set<nat>, b: set<nat>)
    requires a <= b
    ensures |a| <= |b|
  {
    assert b == a + (b - a);
  }

  /** Taking one element out of a list takes it out of its multiset. */
  lemma RemoveAtMultiset<T>(s: seq<T>, k: nat)
    requires k < |s|
    ensures multiset(RemoveAt(s, k)) + multiset{s[k]} == multiset(s)
  {
    assert s == s[..k] + [s[k]] + s[k + 1..];
  }

  /** A list that grew past its old prefix only with graphs from `from`. */
  lemma TailMembers(a: seq<Graph>, a': seq<Graph>, from: seq<Graph>)
    requires a <= a' && forall i :: |a| <= i < |a'| ==> a'[i] in from
    ensures forall y :: y in a' ==> y in a || y in from
  {
    forall y | y in a' ensures y in a || y in from {
      var i :| 0 <= i < |a'| && a'[i] == y;
      if i < |a| {
        assert a[i] == y;
      }
    }
  }

  /** Cutting a proper part of the nodes on the lists leaves some. */
  lemma RemainsAfterCut(before: set<nat>, cur: set<nat>, cut: set<nat>)
    requires cut < cur && cur <= before
    ensures before - cut != {}
  {
    var v :| v in cur && v !in cut;
    assert v in before - cut;
  }

  /** The nodes on the lists after a division: those before, less the cut. */
  lemma CutArithmetic(before: set<nat>, rest: set<nat>, others: set<nat>, cur: set<nat>, cut: set<nat>)
    requires rest == before - cur && cur <= before && cut <= cur && cur !! rest + others
    ensures rest + others + (cur - cut) == before + others - cut
  {
  }

  /** Moving the nodes `x` of one piece from the pieces still to sort onto
      one of the two lists. */
  lemma MoveArithmetic(toDivide: set<nat>, complete: set<nat>, rest: set<nat>, x: set<nat>)
    requires x <= rest && rest !! toDivide + complete
    ensures toDivide + x + complete + (rest - x) == toDivide + complete + rest
    ensures toDivide + (complete + x) + (rest - x) == toDivide + complete + rest
    ensures rest - x !! (toDivide + x) + complete
    ensures rest - x !! toDivide + (complete + x)
  {
  }

  /** Moving a cut from the nodes on the lists to the deleted nodes. */
  lemma DeleteArithmetic(before: set<nat>, after: set<nat>, deleted: set<nat>, cut: set<nat>, all: set<nat>)
    requires before + deleted == all && deleted !! before
    requires cut <= before && after == before - cut
    ensures after + (deleted + cut) == all && deleted + cut !! after
    ensures cut !! deleted && deleted + cut <= all
  {
  }

  // ---------------------------------------------------------------------
  // Facts about pieces

  /** A well-formed graph is the subgraph induced by all its nodes. */
  lemma InducedSelf(g: Graph)
    requires WellFormed(g)
    ensures Induced(g, g.nodes) == g
  {
    assert Induced(g, g.nodes).edges == g.edges;
  }

  /** A graph closed while some nodes are deleted stays closed when more are. */
  lemma ClosedGrows(g: Graph, d: set<nat>, d': set<nat>, s: seq<Graph>)
    requires AllClosed(g, d, s) && d <= d'
    ensures AllClosed(g, d', s)
  {
    forall x | x in s ensures Closed(g, d', x) {
      assert Closed(g, d, x);
    }
  }

  /** An edge of `g` from a node of a component of the closed induced
      subgraph `h`, to a node that is not deleted, ends in that component. */
  lemma EdgeInComponent(g: Graph, d: set<nat>, h: Graph, u: nat, v: nat)
    requires h == Induced(g, h.nodes) && Closed(g, d, h)
    requires u in h.nodes && Adjacent(g, u, v) && v !in d
    ensures v in Component(h, u)
  {
    assert v in h.nodes;
    assert Adjacent(h, u, v);
    assert IsPath(h, [u, v]);
  }

  /** The components of a closed induced subgraph `h` of `g` are closed. */
  lemma ComponentsClosed(g: Graph, d: set<nat>, h: Graph, cs: seq<set<nat>>)
    requires h == Induced(g, h.nodes) && IsComponentList(h, cs) && Closed(g, d, h)
    ensures AllClosed(g, d, Subgraphs(h, cs))
  {
    forall x | x in Subgraphs(h, cs) ensures Closed(g, d, x) {
      var i :| 0 <= i < |cs| && Subgraphs(h, cs)[i] == x;
      ComponentSubgraph(h, cs, i);
      forall u, v | u in x.nodes && Adjacent(g, u, v) && v !in d
        ensures v in x.nodes
      {
        EdgeInComponent(g, d, h, u, v);
        assert cs[i] == Component(h, u);
      }
    }
  }

  /** The components of an induced subgraph `h` of `g` are pieces of `g`
      that share no node and together hold every node of `h`. */
  lemma ComponentPieces(g: Graph, h: Graph, cs: seq<set<nat>>)
    requires WellFormed(g) && h == Induced(g, h.nodes) && IsComponentList(h, cs)
    ensures forall i :: 0 <= i < |cs| ==> Piece(g, Subgraphs(h, cs)[i])
    ensures PairwiseDisjoint(Subgraphs(h, cs))
    ensures UnionNodes(Subgraphs(h, cs)) == h.nodes
  {
    ComponentSubgraphs(h, cs);
    forall i | 0 <= i < |cs|
      ensures Piece(g, Subgraphs(h, cs)[i])
    {
      ComponentSubgraph(h, cs, i);
      InducedOfInduced(g, h.nodes, cs[i]);
      assert h.nodes * cs[i] == cs[i];
    }
  }

  /** Deleting the library's cut from a piece that is not complete: the cut
      is a minimum node cut inside the piece, and the components of what
      remains are pieces holding exactly the nodes of the piece outside the
      cut. */
  lemma CutPieces(g: Graph, lib: GraphLib, current: Graph, cut: set<nat>, reduced: Graph, pieces: seq<Graph>,
                  deleted: set<nat>)
    requires WellFormed(g) && LibSound(lib)
    requires Piece(g, current) && !Complete(current) && Closed(g, deleted, current)
    requires cut == lib.minimumNodeCut(current)
    requires reduced == RemoveNodes(current, cut)
    requires pieces == Subgraphs(reduced, lib.connectedComponents(reduced))
    ensures IsMinimumNodeCut(current, cut) && cut <= current.nodes
    ensures forall i :: 0 <= i < |pieces| ==> Piece(g, pieces[i])
    ensures PairwiseDisjoint(pieces)
    ensures UnionNodes(pieces) == current.nodes - cut
    ensures AllClosed(g, deleted + cut, pieces)
  {
    assert WellFormed(current);
    assert IsMinimumNodeCut(current, cut);
    InducedOfInduced(g, current.nodes, current.nodes - cut);
    assert current.nodes * (current.nodes - cut) == current.nodes - cut;
    assert reduced == Induced(g, current.nodes - cut);
    assert WellFormed(reduced);
    ComponentPieces(g, reduced, lib.connectedComponents(reduced));
    forall u, v | u in reduced.nodes && Adjacent(g, u, v) && v !in deleted + cut
      ensures v in reduced.nodes
    {
      assert v in current.nodes;
    }
    ComponentsClosed(g, deleted + cut, reduced, lib.connectedComponents(reduced));
  }

  /** Taking the graph at `k` off the list to divide keeps the lists
      classified, and that graph shares no node with what stays. */
  lemma TakeFrom(g: Graph, toDivide: seq<Graph>, complete: seq<Graph>, k: nat)
    requires Classified(g, toDivide, complete) && k < |toDivide|
    ensures Classified(g, RemoveAt(toDivide, k), complete)
    ensures toDivide[k].nodes !! UnionNodes(RemoveAt(toDivide, k)) + UnionNodes(complete)
  {
    TakePiece(toDivide, k);
  }

  /** Filing a new piece: a complete one on the complete list, any other on
      the list to divide. */
  lemma FileInto(g: Graph, toDivide: seq<Graph>, complete: seq<Graph>, x: Graph)
    requires Classified(g, toDivide, complete) && Piece(g, x)
    requires x.nodes !! UnionNodes(toDivide) + UnionNodes(complete)
    ensures Complete(x) ==> Classified(g, toDivide, complete + [x])
    ensures !Complete(x) ==> Classified(g, toDivide + [x], complete)
    ensures UnionNodes(toDivide + [x]) == UnionNodes(toDivide) + x.nodes
    ensures UnionNodes(complete + [x]) == UnionNodes(complete) + x.nodes
  {
    AppendGraph(toDivide, x);
    AppendGraph(complete, x);
  }

  /** Taking the element at `k` off a list of disjoint graphs: the rest
      stay disjoint, lose exactly its nodes, and are the other elements. */
  lemma TakePiece(rest: seq<Graph>, k: nat)
    requires k < |rest| && PairwiseDisjoint(rest)
    ensures PairwiseDisjoint(RemoveAt(rest, k))
    ensures UnionNodes(RemoveAt(rest, k)) == UnionNodes(rest) - rest[k].nodes
    ensures rest[k].nodes <= UnionNodes(rest)
    ensures forall y :: y in rest && y != rest[k] ==> y in RemoveAt(rest, k)
    ensures forall y :: y in RemoveAt(rest, k) ==> y in rest
  {
    MemberNodes(rest, rest[k]);
    RemoveAtGraphs(rest, k);
    forall y | y in rest && y != rest[k] ensures y in RemoveAt(rest, k) {
      RemoveAtKeeps(rest, k, y);
    }
  }

  /** A graph already on the complete list stays there when the list grows. */
  lemma KeptWhenGrowing(g: Graph, complete: seq<Graph>, complete': seq<Graph>)
    requires CompleteComponentsKept(g, complete) && complete <= complete'
    ensures CompleteComponentsKept(g, complete')
  {
    forall u | u in g.nodes && Complete(Induced(g, Component(g, u)))
      ensures Induced(g, Component(g, u)) in complete'
    {
      PrefixKeeps(complete, complete', Induced(g, Component(g, u)));
    }
  }

  /** If every complete component subgraph was filed as complete, every
      complete component of `g` is on the complete list. */
  lemma ComponentsFiled(g: Graph, comps: seq<set<nat>>, complete: seq<Graph>)
    requires IsComponentList(g, comps)
    requires forall i :: 0 <= i < |comps| && Complete(Subgraphs(g, comps)[i]) ==>
               Subgraphs(g, comps)[i] in complete
    ensures CompleteComponentsKept(g, complete)
  {
    forall u | u in g.nodes && Complete(Induced(g, Component(g, u)))
      ensures Induced(g, Component(g, u)) in complete
    {
      var i :| 0 <= i < |comps| && u in comps[i];
      assert comps[i] == Component(g, u);
      assert Subgraphs(g, comps)[i] == Induced(g, comps[i]);
    }
  }

  /** The list to divide keeps every graph but the divided one. */
  lemma StillListed(toDivide: seq<Graph>, current: Graph, toDivide': seq<Graph>)
    requires current in toDivide && RemoveAt(toDivide, IndexOf(toDivide, current)) <= toDivide'
    ensures forall y :: y in toDivide && y != current ==> y in toDivide'
  {
    var k := IndexOf(toDivide, current);
    forall y | y in toDivide && y != current ensures y in toDivide' {
      RemoveAtKeeps(toDivide, k, y);
      PrefixKeeps(RemoveAt(toDivide, k), toDivide', y);
    }
  }

  /** After one subgraph of a pass is divided, the rest of the pass is still
      waiting on the list to divide: they share no node with it, so none of
      them is the graph that was divided. */
  lemma PendingStays(pending: seq<Graph>, k: nat, toDivide': seq<Graph>)
    requires k < |pending| && PairwiseDisjoint(pending)
    requires pending[k].nodes != {}
    requires forall y :: y in pending && y != pending[k] ==> y in toDivide'
    ensures forall y :: y in RemoveAt(pending, k) ==> y in toDivide'
  {
    forall y | y in RemoveAt(pending, k) ensures y in toDivide' {
      var i :| 0 <= i < |pending| - 1 && RemoveAt(pending, k)[i] == y;
      var j := if i < k then i else i + 1;
      assert pending[j] == y && j != k;
      assert y.nodes !! pending[k].nodes;
    }
  }

  // ---------------------------------------------------------------------
  // The algorithm

  /** Sorting subgraphs into the two lists (the loops at lines 255-260 and
      279-284): each piece goes to `complete` when its complement has no
      edge, and to `toDivide` otherwise.  With `shuffled`, the pieces are
      visited in an arbitrary order, as random.sample gives them; otherwise
      in list order.  The lists keep what they held and gain exactly the
      pieces, each once. */
  method Classify(ghost g: Graph, pieces: seq<Graph>, shuffled: bool, toDivide: seq<Graph>, complete: seq<Graph>)
    returns (toDivide': seq<Graph>, complete': seq<Graph>)
    requires Classified(g, toDivide, complete)
    requires forall i :: 0 <= i < |pieces| ==> Piece(g, pieces[i])
    requires PairwiseDisjoint(pieces)
    requires UnionNodes(pieces) !! UnionNodes(toDivide) + UnionNodes(complete)
    ensures Classified(g, toDivide', complete')
    ensures UnionNodes(toDivide') + UnionNodes(complete') ==
            UnionNodes(toDivide) + UnionNodes(complete) + UnionNodes(pieces)
    ensures toDivide <= toDivide' && complete <= complete'
    ensures |toDivide'| + |complete'| == |toDivide| + |complete| + |pieces|
    ensures forall i :: |toDivide| <= i < |toDivide'| ==> toDivide'[i] in pieces
    ensures forall i :: |complete| <= i < |complete'| ==> complete'[i] in pieces
    ensures forall i :: 0 <= i < |pieces| ==>
              if Complete(pieces[i]) then pieces[i] in complete' else pieces[i] in toDivide'
  {
    toDivide', complete' := toDivide, complete;
    var rest := pieces;
    while rest != []
      invariant Classified(g, toDivide', complete')
      invariant forall i :: 0 <= i < |rest| ==> Piece(g, rest[i])
      invariant PairwiseDisjoint(rest)
      invariant UnionNodes(rest) !! UnionNodes(toDivide') + UnionNodes(complete')
      invariant UnionNodes(toDivide') + UnionNodes(complete') + UnionNodes(rest) ==
                UnionNodes(toDivide) + UnionNodes(complete) + UnionNodes(pieces)
      invariant toDivide <= toDivide' && complete <= complete'
      invariant |toDivide'| + |complete'| + |rest| == |toDivide| + |complete| + |pieces|
      invariant forall y :: y in rest ==> y in pieces
      invariant forall i :: |toDivide| <= i < |toDivide'| ==> toDivide'[i] in pieces
      invariant forall i :: |complete| <= i < |complete'| ==> complete'[i] in pieces
      invariant forall i :: 0 <= i < |pieces| ==> (pieces[i] in rest ||
                  if Complete(pieces[i]) then pieces[i] in complete' else pieces[i] in toDivide')
      decreases |rest|
    {
      var k := 0;
      if shuffled {
        k :| 0 <= k < |rest|;
      }
      var x := rest[k];
      TakePiece(rest, k);
      FileInto(g, toDivide', complete', x);
      MoveArithmetic(UnionNodes(toDivide'), UnionNodes(complete'), UnionNodes(rest), x.nodes);
      rest := RemoveAt(rest, k);
      if ComplementEdges(x) != {} {
        toDivide' := toDivide' + [x];
      } else {
        complete' := complete' + [x];
      }
    }
  }

  /** What is left of `current` once the library's minimum node cut is
      removed, as the subgraphs of its connected components (lines 270-277). */
  function Remainder(lib: GraphLib, current: Graph): seq<Graph>
  {
    var reduced := RemoveNodes(current, lib.minimumNodeCut(current));
    Subgraphs(reduced, lib.connectedComponents(reduced))
  }

  /** Graphs closed for `d` on the old lists, and pieces closed for `d + cut`:
      the new lists are closed for `d + cut`. */
  lemma ClosedAfterDivide(g: Graph, d: set<nat>, cut: set<nat>, toDivide: seq<Graph>, rest: seq<Graph>,
                          toDivide': seq<Graph>, complete: seq<Graph>, complete': seq<Graph>, pieces: seq<Graph>)
    requires AllClosed(g, d, toDivide) && AllClosed(g, d, complete) && AllClosed(g, d + cut, pieces)
    requires forall y :: y in rest ==> y in toDivide
    requires rest <= toDivide' && forall i :: |rest| <= i < |toDivide'| ==> toDivide'[i] in pieces
    requires complete <= complete' && forall i :: |complete| <= i < |complete'| ==> complete'[i] in pieces
    ensures AllClosed(g, d + cut, toDivide') && AllClosed(g, d + cut, complete')
  {
    ClosedGrows(g, d, d + cut, toDivide);
    ClosedGrows(g, d, d + cut, complete);
    TailMembers(rest, toDivide', pieces);
    TailMembers(complete, complete', pieces);
  }

  /** One step of the inner loop (lines 270-284): delete the library's
      minimum node cut from `current`, take `current` off the list, and
      sort the connected pieces of what remains into the two lists.  The
      lists then hold what they held, less `current`, plus exactly those
      pieces. */
  method Divide(ghost g: Graph, lib: GraphLib, current: Graph, toDivide: seq<Graph>, complete: seq<Graph>,
                ghost deleted: set<nat>)
    returns (toDivide': seq<Graph>, complete': seq<Graph>)
    requires WellFormed(g) && LibSound(lib)
    requires Classified(g, toDivide, complete)
    requires AllClosed(g, deleted, toDivide) && AllClosed(g, deleted, complete)
    requires current in toDivide
    ensures Classified(g, toDivide', complete')
    ensures Piece(g, current) && !Complete(current)
    ensures IsMinimumNodeCut(current, lib.minimumNodeCut(current))
    ensures lib.minimumNodeCut(current) <= current.nodes <= UnionNodes(toDivide)
    ensures UnionNodes(toDivide') + UnionNodes(complete') ==
            UnionNodes(toDivide) + UnionNodes(complete) - lib.minimumNodeCut(current)
    ensures AllClosed(g, deleted + lib.minimumNodeCut(current), toDivide')
    ensures AllClosed(g, deleted + lib.minimumNodeCut(current), complete')
    ensures RemoveAt(toDivide, IndexOf(toDivide, current)) <= toDivide' && complete <= complete'
    ensures |toDivide'| + |complete'| == |toDivide| - 1 + |complete| + |Remainder(lib, current)|
    ensures forall i :: |toDivide| - 1 <= i < |toDivide'| ==> toDivide'[i] in Remainder(lib, current)
    ensures forall i :: |complete| <= i < |complete'| ==> complete'[i] in Remainder(lib, current)
    ensures forall i :: 0 <= i < |Remainder(lib, current)| ==>
              if Complete(Remainder(lib, current)[i]) then Remainder(lib, current)[i] in complete'
              else Remainder(lib, current)[i] in toDivide'
  {
    var cut := lib.minimumNodeCut(current);
    var k := IndexOf(toDivide, current);
    TakePiece(toDivide, k);
    TakeFrom(g, toDivide, complete, k);
    var rest := RemoveAt(toDivide, k);
    var reduced := RemoveNodes(current, cut);
    var newS := Subgraphs(reduced, lib.connectedComponents(reduced));
    assert newS == Remainder(lib, current);
    CutPieces(g, lib, current, cut, reduced, newS, deleted);
    toDivide', complete' := Classify(g, newS, false, rest, complete);
    CutArithmetic(UnionNodes(toDivide), UnionNodes(rest), UnionNodes(complete), current.nodes, cut);
    ClosedAfterDivide(g, deleted, cut, toDivide, rest, toDivide', complete, complete', newS);
  }

  /** The state of the outer loop of pfa1: the two lists are classified,
      every graph on them is closed, and with the deleted nodes they hold
      every node of `g` exactly once. */
  ghost predicate Progress(g: Graph, toDivide: seq<Graph>, complete: seq<Graph>, deleted: set<nat>)
  {
    && Classified(g, toDivide, complete)
    && AllClosed(g, deleted, toDivide) && AllClosed(g, deleted, complete)
    && UnionNodes(toDivide) + UnionNodes(complete) + deleted == g.nodes
    && deleted !! UnionNodes(toDivide) + UnionNodes(complete)
    && (g.nodes != {} ==> UnionNodes(toDivide) + UnionNodes(complete) != {})
    && CompleteComponentsKept(g, complete)
  }

  /** Appending a division of a piece that is disjoint from the deleted
      nodes and closed keeps the log valid. */
  lemma ExtendCutLog(g: Graph, lib: GraphLib, log: seq<Division>, deleted: set<nat>, d: Division)
    requires CutLog(g, lib, log, deleted)
    requires Piece(g, d.piece) && !Complete(d.piece)
    requires d.cut == lib.minimumNodeCut(d.piece) && IsMinimumNodeCut(d.piece, d.cut)
    requires d.piece.nodes !! deleted && Closed(g, deleted, d.piece)
    ensures CutLog(g, lib, log + [d], deleted + d.cut)
  {
    var log' := log + [d];
    assert log'[..|log|] == log;
    forall i | 0 <= i < |log'|
      ensures log'[i].piece.nodes !! CutNodes(log'[..i]) && Closed(g, CutNodes(log'[..i]), log'[i].piece)
    {
      if i < |log| {
        assert log'[..i] == log[..i];
      }
    }
  }

  /** Logging one more division. */
  lemma LogDivision(g: Graph, lib: GraphLib, log: seq<Division>, log': seq<Division>, deleted: set<nat>,
                    d: Division, pending: seq<Graph>, k: nat, toDivide: seq<Graph>)
    requires CutLog(g, lib, log', deleted) && log <= log'
    requires multiset(Divided(log'[|log|..])) + multiset(pending) == multiset(toDivide)
    requires k < |pending| && d.piece == pending[k]
    requires Piece(g, d.piece) && !Complete(d.piece)
    requires d.cut == lib.minimumNodeCut(d.piece) && IsMinimumNodeCut(d.piece, d.cut)
    requires d.piece.nodes !! deleted && Closed(g, deleted, d.piece)
    ensures CutLog(g, lib, log' + [d], deleted + d.cut)
    ensures log <= log' + [d]
    ensures multiset(Divided((log' + [d])[|log|..])) + multiset(RemoveAt(pending, k)) == multiset(toDivide)
  {
    ExtendCutLog(g, lib, log', deleted, d);
    assert (log' + [d])[|log|..] == log'[|log|..] + [d];
    assert Divided(log'[|log|..] + [d]) == Divided(log'[|log|..]) + [d.piece];
    RemoveAtMultiset(pending, k);
  }

  /** One pass of the outer loop of pfa1 (lines 267-285): every subgraph on
      the list to divide when the pass starts is divided exactly once, in
      an arbitrary order (random.sample over the whole list), and the nodes
      deleted by the pass are the cuts of those divisions.  Each division
      deletes at least one node. */
  method DividePass(ghost g: Graph, lib: GraphLib, toDivide: seq<Graph>, complete: seq<Graph>,
                    ghost deleted: set<nat>, ghost log: seq<Division>)
    returns (toDivide': seq<Graph>, complete': seq<Graph>, ghost deleted': set<nat>, ghost log': seq<Division>)
    requires WellFormed(g) && LibSound(lib)
    requires Progress(g, toDivide, complete, deleted) && toDivide != []
    requires CutLog(g, lib, log, deleted)
    ensures Progress(g, toDivide', complete', deleted')
    ensures CutLog(g, lib, log', deleted')
    ensures log <= log' && multiset(Divided(log'[|log|..])) == multiset(toDivide)
    ensures deleted < deleted' <= g.nodes
    ensures complete <= complete'
  {
    toDivide', complete', deleted', log' := toDivide, complete, deleted, log;
    var pending := toDivide;
    while pending != []
      invariant Progress(g, toDivide', complete', deleted')
      invariant CutLog(g, lib, log', deleted')
      invariant log <= log'
      invariant multiset(Divided(log'[|log|..])) + multiset(pending) == multiset(toDivide)
      invariant forall y :: y in pending ==> y in toDivide'
      invariant PairwiseDisjoint(pending)
      invariant deleted <= deleted' <= g.nodes
      invariant |pending| < |toDivide| ==> deleted < deleted'
      invariant |pending| <= |toDivide| && complete <= complete'
      decreases |pending|
    {
      var k :| 0 <= k < |pending|;
      var current := pending[k];
      ghost var cut := lib.minimumNodeCut(current);
      var nextDivide, nextComplete := Divide(g, lib, current, toDivide', complete', deleted');
      StillListed(toDivide', current, nextDivide);
      PendingStays(pending, k, nextDivide);
      KeptWhenGrowing(g, complete', nextComplete);
      DeleteArithmetic(UnionNodes(toDivide') + UnionNodes(complete'), UnionNodes(nextDivide) + UnionNodes(nextComplete),
                       deleted', cut, g.nodes);
      RemainsAfterCut(UnionNodes(toDivide') + UnionNodes(complete'), current.nodes, cut);
      TakePiece(pending, k);
      MemberNodes(toDivide', current);
      assert Closed(g, deleted', current);
      LogDivision(g, lib, log, log', deleted', Division(current, cut), pending, k, toDivide);
      pending := RemoveAt(pending, k);
      toDivide', complete' := nextDivide, nextComplete;
      deleted' := deleted' + cut;
      log' := log' + [Division(current, cut)];
    }
  }

  /** The start of pfa1 (lines 246-260): the subgraphs of the connected
      components of `g`, sorted into the two lists in an arbitrary order.
      The lists hold exactly those subgraphs, each once. */
  method Start(g: Graph, lib: GraphLib) returns (toDivide: seq<Graph>, complete: seq<Graph>)
    requires WellFormed(g) && LibSound(lib)
    ensures Progress(g, toDivide, complete, {})
    ensures |toDivide| + |complete| == |lib.connectedComponents(g)|
    ensures forall x :: x in toDivide || x in complete ==> x in Subgraphs(g, lib.connectedComponents(g))
    ensures forall i :: 0 <= i < |lib.connectedComponents(g)| ==>
              if Complete(Subgraphs(g, lib.connectedComponents(g))[i])
              then Subgraphs(g, lib.connectedComponents(g))[i] in complete
              else Subgraphs(g, lib.connectedComponents(g))[i] in toDivide
  {
    var comps := lib.connectedComponents(g);
    var S := Subgraphs(g, comps);
    InducedSelf(g);
    ComponentPieces(g, g, comps);
    forall u, v | u in g.nodes && Adjacent(g, u, v)
      ensures v in g.nodes
    {
      assert EdgeKey(u, v) in g.edges;
    }
    ComponentsClosed(g, {}, g, comps);
    assert UnionNodes([]) == {};
    toDivide, complete := Classify(g, S, true, [], []);
    TailMembers([], toDivide, S);
    TailMembers([], complete, S);
    ComponentsFiled(g, comps, complete);
  }

  /** When nothing is left to divide, the complete list is a decomposition. */
  lemma Finished(g: Graph, complete: seq<Graph>, deleted: set<nat>)
    requires Progress(g, [], complete, deleted)
    ensures IsDecomposition(g, complete, deleted)
  {
    assert UnionNodes([]) == {};
    forall i | 0 <= i < |complete| ensures Closed(g, deleted, complete[i]) {
      assert complete[i] in complete;
    }
  }

  /** A proper superset is larger. */
  lemma StrictSubsetSize(a: set<nat>, b: set<nat>)
    requires a < b
    ensures |a| < |b|
  {
    assert !(b <= a);
    var v :| v in b && v !in a;
    SubsetSize(a + {v}, b);
  }

  /** The node set of each subgraph, in order (line 290). */
  function NodeSets(s: seq<Graph>): (r: seq<set<nat>>)
    ensures |r| == |s| && forall i :: 0 <= i < |s| ==> r[i] == s[i].nodes
  {
    seq(|s|, i requires 0 <= i < |s| => s[i].nodes)
  }

  /** The edge set of each subgraph, in order (line 291). */
  function EdgeSets(s: seq<Graph>): (r: seq<set<(nat, nat)>>)
    ensures |r| == |s| && forall i :: 0 <= i < |s| ==> r[i] == s[i].edges
  {
    seq(|s|, i requires 0 <= i < |s| => s[i].edges)
  }

  /** pfa1: split the graph into its connected components, then divide the
      non-complete ones, pass after pass, until none is left.  `deleted` is
      every node removed by a cut, `log` the divisions in the order they
      happened, and `passes` the number of passes of the outer loop
      (n_iter - 1 in the source). */
  method Pfa1(g: Graph, lib: GraphLib)
    returns (subgraphs: seq<Graph>, nodeSets: seq<set<nat>>, edgeSets: seq<set<(nat, nat)>>,
             ghost deleted: set<nat>, ghost log: seq<Division>, ghost passes: nat)
    requires WellFormed(g) && LibSound(lib)
    ensures IsDecomposition(g, subgraphs, deleted)
    ensures CutLog(g, lib, log, deleted)
    ensures |nodeSets| == |subgraphs| && |edgeSets| == |subgraphs|
    ensures forall i :: 0 <= i < |subgraphs| ==>
              nodeSets[i] == subgraphs[i].nodes && edgeSets[i] == subgraphs[i].edges
    ensures passes <= |deleted|
  {
    var toDivide, complete := Start(g, lib);
    deleted := {};
    log := [];
    passes := 0;
    while toDivide != []
      invariant Progress(g, toDivide, complete, deleted)
      invariant CutLog(g, lib, log, deleted)
      invariant passes <= |deleted| && deleted <= g.nodes
      decreases g.nodes - deleted
    {
      ghost var before := deleted;
      toDivide, complete, deleted, log := DividePass(g, lib, toDivide, complete, deleted, log);
      StrictSubsetSize(before, deleted);
      passes := passes + 1;
    }
    Finished(g, complete, deleted);
    subgraphs := complete;
    nodeSets := NodeSets(complete);
    edgeSets := EdgeSets(complete);
  }

  // ---------------------------------------------------------------------
  // Properties of every decomposition

  /** A connected component that is complete already survives whole: it is
      one of the returned subgraphs and none of its nodes is deleted. */
  lemma CompleteComponentSurvives(g: Graph, subs: seq<Graph>, deleted: set<nat>, u: nat)
    requires IsDecomposition(g, subs, deleted)
    requires u in g.nodes && Complete(Induced(g, Component(g, u)))
    ensures Induced(g, Component(g, u)) in subs
    ensures Component(g, u) !! deleted
  {
    var c := Induced(g, Component(g, u));
    assert c in subs;
    MemberNodes(subs, c);
    assert c.nodes == Component(g, u);
  }

  /** In a graph without edges only a node reaches itself. */
  lemma EdgelessReach(h: Graph, u: nat, v: nat)
    requires h.edges == {} && Reachable(h, u, v)
    ensures u == v
  {
    var p :| IsPath(h, p) && p[0] == u && p[|p| - 1] == v;
    assert |p| > 1 ==> Adjacent(h, p[0], p[1]);
  }

  /** Without edges, the component of a node is the node alone, and its
      subgraph is complete. */
  lemma EdgelessComponent(g: Graph, v: nat)
    requires g.edges == {} && v in g.nodes
    ensures Component(g, v) == {v}
    ensures Induced(g, Component(g, v)) == Graph({v}, {})
    ensures Complete(Graph({v}, {}))
  {
    forall w | w in Component(g, v) ensures w == v {
      EdgelessReach(g, v, w);
    }
    ReachableRefl(g, v);
  }

  /** Without edges, a connected subgraph has exactly one node. */
  lemma EdgelessPiece(g: Graph, x: Graph)
    requires g.edges == {} && Piece(g, x)
    ensures |x.nodes| == 1
  {
    var u :| u in x.nodes;
    assert x.edges == {};
    forall w | w in x.nodes ensures w == u {
      assert Reachable(x, u, w);
      EdgelessReach(x, u, w);
    }
    assert x.nodes == {u};
  }

  /** With no edge at all (no two features depend on each other), nothing is
      deleted and every feature is a subgraph of its own. */
  lemma EdgelessDecomposition(g: Graph, subs: seq<Graph>, deleted: set<nat>)
    requires WellFormed(g) && g.edges == {} && IsDecomposition(g, subs, deleted)
    ensures deleted == {}
    ensures forall v :: v in g.nodes ==> Graph({v}, {}) in subs
    ensures forall i :: 0 <= i < |subs| ==> |subs[i].nodes| == 1
  {
    forall v | v in g.nodes
      ensures Graph({v}, {}) in subs && v !in deleted
    {
      EdgelessComponent(g, v);
      CompleteComponentSurvives(g, subs, deleted, v);
    }
    forall i | 0 <= i < |subs|
      ensures |subs[i].nodes| == 1
    {
      EdgelessPiece(g, subs[i]);
    }
  }

  /** In a complete graph every node reaches every other in one step. */
  lemma CompleteComponent(g: Graph, u: nat)
    requires Complete(g) && u in g.nodes
    ensures Component(g, u) == g.nodes
  {
    forall v | v in g.nodes ensures v in Component(g, u) {
      if v == u {
        ReachableRefl(g, u);
      } else {
        assert Adjacent(g, u, v);
        assert IsPath(g, [u, v]);
      }
    }
  }

  /** Disjoint non-empty graphs that all lie inside the one at `k`: there
      is no other. */
  lemma SingleCover(subs: seq<Graph>, k: nat)
    requires k < |subs| && PairwiseDisjoint(subs)
    requires forall j :: 0 <= j < |subs| ==> subs[j].nodes != {}
    requires UnionNodes(subs) <= subs[k].nodes
    ensures |subs| == 1 && k == 0
  {
    forall j | 0 <= j < |subs| ensures subs[j] == subs[k] && j == k {
      var v :| v in subs[j].nodes;
      assert v in UnionNodes(subs);
    }
    assert subs[|subs| - 1] == subs[k] && |subs| - 1 == k;
    assert subs[0] == subs[k] && 0 == k;
  }

  /** A complete graph (every feature depends on every other) is returned
      whole, as the only subgraph, and nothing is deleted. */
  lemma CompleteGraphDecomposition(g: Graph, subs: seq<Graph>, deleted: set<nat>)
    requires WellFormed(g) && Complete(g) && g.nodes != {}
    requires IsDecomposition(g, subs, deleted)
    ensures subs == [g] && deleted == {}
  {
    var u :| u in g.nodes;
    CompleteComponent(g, u);
    InducedSelf(g);
    CompleteComponentSurvives(g, subs, deleted, u);
    var k :| 0 <= k < |subs| && subs[k] == g;
    SingleCover(subs, k);
  }

  /** No edge of `g` joins two different returned subgraphs. */
  lemma NoEdgeBetween(g: Graph, subs: seq<Graph>, deleted: set<nat>, i: nat, j: nat, u: nat, v: nat)
    requires IsDecomposition(g, subs, deleted)
    requires i < |subs| && j < |subs| && i != j && u in subs[i].nodes && v in subs[j].nodes
    ensures !Adjacent(g, u, v)
  {
    MemberNodes(subs, subs[j]);
  }

  /** A path that avoids the deleted nodes and starts in a closed subgraph
      never leaves it. */
  lemma {:induction false} PathStaysInside(g: Graph, deleted: set<nat>, x: Graph, p: seq<nat>, k: nat)
    requires WellFormed(g) && Closed(g, deleted, x)
    requires IsPath(RemoveNodes(g, deleted), p) && p[0] in x.nodes && k < |p|
    ensures p[k] in x.nodes
    decreases k
  {
    if k > 0 {
      PathStaysInside(g, deleted, x, p, k - 1);
      assert Adjacent(RemoveNodes(g, deleted), p[k - 1], p[k]);
      assert Adjacent(g, p[k - 1], p[k]) && p[k] !in deleted;
    }
  }

  /** A closed piece that avoids the deleted nodes is the connected
      component of each of its nodes in `g` without the deleted nodes. */
  lemma ClosedPieceIsComponent(g: Graph, deleted: set<nat>, x: Graph, u: nat)
    requires WellFormed(g) && Piece(g, x) && x.nodes !! deleted && Closed(g, deleted, x)
    requires u in x.nodes
    ensures x.nodes == Component(RemoveNodes(g, deleted), u)
  {
    var r := RemoveNodes(g, deleted);
    assert x.nodes <= r.nodes;
    forall w | w in x.nodes ensures w in Component(r, u) {
      assert Reachable(x, u, w);
      var p :| IsPath(x, p) && p[0] == u && p[|p| - 1] == w;
      forall k | 0 <= k < |p| - 1 ensures Adjacent(r, p[k], p[k + 1]) {
        assert Adjacent(x, p[k], p[k + 1]);
      }
      assert IsPath(r, p);
    }
    forall w | w in Component(r, u) ensures w in x.nodes {
      var p :| IsPath(r, p) && p[0] == u && p[|p| - 1] == w;
      PathStaysInside(g, deleted, x, p, |p| - 1);
    }
  }

  /** The returned subgraphs are exactly the connected components of `g`
      once the deleted nodes are removed. */
  lemma ReturnedAreComponents(g: Graph, subs: seq<Graph>, deleted: set<nat>, i: nat, u: nat)
    requires WellFormed(g) && IsDecomposition(g, subs, deleted)
    requires i < |subs| && u in subs[i].nodes
    ensures subs[i].nodes == Component(RemoveNodes(g, deleted), u)
  {
    MemberNodes(subs, subs[i]);
    ClosedPieceIsComponent(g, deleted, subs[i], u);
  }

  /** Each divided subgraph was, when it was divided, a connected component
      of `g` without the nodes deleted before it. */
  lemma LoggedPiecesAreComponents(g: Graph, lib: GraphLib, log: seq<Division>, deleted: set<nat>, i: nat, u: nat)
    requires WellFormed(g) && CutLog(g, lib, log, deleted)
    requires i < |log| && u in log[i].piece.nodes
    ensures log[i].piece.nodes == Component(RemoveNodes(g, CutNodes(log[..i])), u)
  {
    ClosedPieceIsComponent(g, CutNodes(log[..i]), log[i].piece, u);
  }

  /** Every logged cut is among the deleted nodes of the log. */
  lemma {:induction false} CutInCutNodes(log: seq<Division>, i: nat)
    requires i < |log|
    ensures log[i].cut <= CutNodes(log)
    decreases |log|
  {
    if i < |log| - 1 {
      var front := log[..|log| - 1];
      assert front[i] == log[i];
      CutInCutNodes(front, i);
    }
  }

  /** No node is cut by two divisions: the cuts of a log are pairwise
      disjoint, so the deleted nodes split into one cut per division. */
  lemma CutsDisjoint(g: Graph, lib: GraphLib, log: seq<Division>, deleted: set<nat>, i: nat, j: nat)
    requires CutLog(g, lib, log, deleted)
    requires i < j < |log|
    ensures log[i].cut !! log[j].cut
  {
    assert log[..j][i] == log[i];
    CutInCutNodes(log[..j], i);
    assert log[j].cut <= log[j].piece.nodes;
  }

  // ---------------------------------------------------------------------
  // A worked example: the path 0 - 1 - 2

  /** Features 0 and 2 both depend on feature 1 but not on each other. */
  function PathGraph(): (g: Graph)
    ensures WellFormed(g)
  {
    Graph({0, 1, 2}, {(0, 1), (1, 2)})
  }

  /** Inducing on nodes that avoid `m`, when every edge touches `m`, leaves
      no edge. */
  lemma InducedAvoiding(g: Graph, s: set<nat>, m: nat)
    requires forall e :: e in g.edges ==> e.0 == m || e.1 == m
    requires m !in s
    ensures Induced(g, s).edges == {}
  {
  }

  /** A set of at most one element that holds `w` is {w}. */
  lemma Singleton(c: set<nat>, w: nat)
    requires w in c && |c| <= 1
    ensures c == {w}
  {
    assert |c - {w}| == |c| - 1;
  }

  /** The only connected, non-complete induced subgraph of the path is the
      whole path. */
  lemma PathOnlyPiece(x: Graph)
    requires Piece(PathGraph(), x) && !Complete(x)
    ensures x == PathGraph()
  {
    var u, v :| u in x.nodes && v in x.nodes && u != v && !Adjacent(x, u, v);
    assert !Adjacent(PathGraph(), u, v);
    assert Reachable(x, u, v);
    var p :| IsPath(x, p) && p[0] == u && p[|p| - 1] == v;
    PathLeavesPair(x, p, u, v);
    var k :| 0 <= k < |p| && p[k] != u && p[k] != v;
    assert p[k] in x.nodes;
    assert x.nodes == {0, 1, 2};
    assert x.edges == PathGraph().edges;
  }

  /** Removing an end of the path leaves it connected. */
  lemma EndNotCut(w: nat)
    requires w == 0 || w == 2
    ensures !IsNodeCut(PathGraph(), {w})
  {
    var r := RemoveNodes(PathGraph(), {w});
    var a, b := if w == 0 then 1 else 0, if w == 0 then 2 else 1;
    assert r.nodes == {a, b};
    assert Adjacent(r, a, b);
    forall s, t | s in r.nodes && t in r.nodes ensures Reachable(r, s, t) {
      if s == t {
        assert IsPath(r, [s]);
      } else {
        assert Adjacent(r, s, t);
        assert IsPath(r, [s, t]);
      }
    }
  }

  /** The only minimum node cut of the path is its middle node. */
  lemma PathMinimumCut(c: set<nat>)
    requires IsMinimumNodeCut(PathGraph(), c)
    ensures c == {1}
  {
    var r := RemoveNodes(PathGraph(), {1});
    assert r.nodes == {0, 2};
    InducedAvoiding(PathGraph(), {0, 2}, 1);
    assert !Reachable(r, 0, 2) by {
      if Reachable(r, 0, 2) {
        EdgelessReach(r, 0, 2);
      }
    }
    assert IsNodeCut(PathGraph(), {1});
    var w :| w in c;
    Singleton(c, w);
    if w != 1 {
      EndNotCut(w);
    }
  }

  /** All cuts of the log are `c`: a non-empty log deletes exactly `c`. */
  lemma {:induction false} CutNodesSame(log: seq<Division>, c: set<nat>)
    requires forall i :: 0 <= i < |log| ==> log[i].cut == c
    ensures CutNodes(log) == if log == [] then {} else c
  {
    if log != [] {
      CutNodesSame(log[..|log| - 1], c);
    }
  }

  /** A closed induced subgraph of the path that holds node 0, with nothing
      deleted, holds the whole path and so is not complete. */
  lemma PathWholeNotComplete(x: Graph)
    requires x == Induced(PathGraph(), x.nodes) && Closed(PathGraph(), {}, x) && 0 in x.nodes
    ensures !Complete(x)
  {
    assert Adjacent(PathGraph(), 0, 1) && Adjacent(PathGraph(), 1, 2);
    assert 1 in x.nodes && 2 in x.nodes;
    assert !Adjacent(x, 0, 2);
  }

  /** Deleting nothing from the path is not a decomposition. */
  lemma PathNeedsCut(subs: seq<Graph>, deleted: set<nat>)
    requires IsDecomposition(PathGraph(), subs, deleted)
    ensures deleted != {}
  {
    if deleted == {} {
      assert 0 in UnionNodes(subs);
      var i :| 0 <= i < |subs| && 0 in subs[i].nodes;
      PathWholeNotComplete(subs[i]);
    }
  }

  /** With the middle node deleted, each end is a subgraph on its own. */
  lemma PathEndSubgraph(subs: seq<Graph>, i: nat, e: nat)
    requires IsDecomposition(PathGraph(), subs, {1})
    requires i < |subs| && e in subs[i].nodes
    ensures subs[i] == Graph({e}, {})
  {
    var x := subs[i];
    MemberNodes(subs, x);
    assert x.nodes <= {0, 2};
    InducedAvoiding(PathGraph(), x.nodes, 1);
    forall w | w in x.nodes ensures w == e {
      assert Reachable(x, e, w);
      EdgelessReach(x, e, w);
    }
    assert x.nodes == {e};
  }

  /** On the path, pfa1 deletes exactly the middle node and returns the two
      ends as subgraphs of their own, whatever order it divides in. */
  lemma PathGraphDecomposition(lib: GraphLib, subs: seq<Graph>, deleted: set<nat>, log: seq<Division>)
    requires IsDecomposition(PathGraph(), subs, deleted) && CutLog(PathGraph(), lib, log, deleted)
    ensures deleted == {1}
    ensures Graph({0}, {}) in subs && Graph({2}, {}) in subs
  {
    forall i | 0 <= i < |log| ensures log[i].cut == {1} {
      PathOnlyPiece(log[i].piece);
      PathMinimumCut(log[i].cut);
    }
    CutNodesSame(log, {1});
    PathNeedsCut(subs, deleted);
    assert 0 in UnionNodes(subs) && 2 in UnionNodes(subs);
    var i :| 0 <= i < |subs| && 0 in subs[i].nodes;
    PathEndSubgraph(subs, i, 0);
    var j :| 0 <= j < |subs| && 2 in subs[j].nodes;
    PathEndSubgraph(subs, j, 2);
  }
}
