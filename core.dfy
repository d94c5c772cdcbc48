/** The DEXA aggregator object of entropic/core.py: a liquidity graph built
    from flat edge and node records, weighted edge by edge, and queried for
    the fewest-hop routes between two tokens. */
module Core {
  import opened Outcomes
  import opened Collections
  import opened SimplePaths
  import opened Graphs

  class Dexa {
    var graph: Graph

    /** The graph is well formed: every listed node is a node, every edge
        joins one or two of them. */
    ghost predicate Valid()
      reads this, graph
    {
      WellFormed(graph.View())
    }

    /** The dataclass constructor `DEXA(graph)`. */
    constructor (g: Graph)
      ensures graph == g
    {
      graph := g;
    }

    /** `DEXA.from_list(edge_list, node_list)`: succeeds exactly when the
        record functions say so, with the graph they describe, and fails
        with the same error otherwise. */
    static method FromList(es: seq<Record>, ns: seq<Record>) returns (r: Result<Dexa>)
      ensures r.Ok? <==> Build(es, ns).Ok?
      ensures r.Err? ==> Build(es, ns) == Err(r.error)
      ensures r.Ok? ==> fresh(r.value) && fresh(r.value.graph)
      ensures r.Ok? ==> r.value.Valid() && r.value.graph.View() == Build(es, ns).value
    {
      BuildStages(es, ns);
      var graph := new Graph();
      var loaded := LoadEdgeRecords(graph, es);
      if loaded.Err? {
        return Err(loaded.error);
      }
      var merged := MergeNodeRecords(graph, ns);
      if merged.Err? {
        return Err(merged.error);
      }
      ghost var h := graph.View();
      AnnotateShape(h);
      AnnotateEdges(graph);
      var dexa := new Dexa(graph);
      return Ok(dexa);
    }

    /** The first loop of from_list, on a new graph. */
    static method LoadEdgeRecords(graph: Graph, es: seq<Record>) returns (r: Result<()>)
      requires graph.View() == Empty()
      modifies graph
      ensures r.Ok? <==> LoadEdges(es).Ok?
      ensures r.Err? ==> LoadEdges(es) == Err(r.error)
      ensures r.Ok? ==> LoadEdges(es) == Ok(graph.View())
    {
      var i := 0;
      while i < |es|
        invariant 0 <= i <= |es|
        invariant LoadEdges(es[..i]) == Ok(graph.View())
        modifies graph
      {
        var rec := es[i];
        InitLast(es[..i + 1]);
        assert es[..i + 1][..i] == es[..i];
        if !Loadable(rec) {
          LoadEdgesStaysFailed(es, i + 1);
          return Err(if HasEnds(rec) then TypeError else KeyError);
        }
        LoadEdgesStep(es[..i], rec);
        graph.AddEdge(rec["u"], rec["v"], EdgeAttrs(rec));
        i := i + 1;
      }
      assert es[..i] == es;
      return Ok(());
    }

    /** The second loop of from_list: each node record is merged into the
        node it names. */
    static method MergeNodeRecords(graph: Graph, ns: seq<Record>) returns (r: Result<()>)
      modifies graph
      ensures r.Ok? <==> MergeNodes(old(graph.View()), ns).Ok?
      ensures r.Err? ==> MergeNodes(old(graph.View()), ns) == Err(r.error)
      ensures r.Ok? ==> MergeNodes(old(graph.View()), ns) == Ok(graph.View())
    {
      ghost var g := graph.View();
      var j := 0;
      while j < |ns|
        invariant 0 <= j <= |ns|
        invariant MergeNodes(g, ns[..j]) == Ok(graph.View())
        invariant graph.nodes.Keys == g.nodes.Keys
        modifies graph
      {
        var rec := ns[j];
        InitLast(ns[..j + 1]);
        assert ns[..j + 1][..j] == ns[..j];
        if "name" !in rec || rec["name"] !in graph.nodes {
          MergeNodesMeaning(g, ns);
          assert rec in ns;
          return Err(KeyError);
        }
        var updated := graph.UpdateNode(rec["name"], rec);
        j := j + 1;
      }
      assert ns[..j] == ns;
      return Ok(());
    }

    /** The third loop of from_list: each edge dict gets the liquidity of
        its two endpoints, the earlier-inserted one as the source. */
    static method AnnotateEdges(graph: Graph)
      requires WellFormed(graph.View())
      modifies graph
      ensures graph.View() == Annotate(old(graph.View()))
    {
      ghost var g := graph.View();
      PartlyAnnotatedStart(g);
      PartlyAnnotatedDone(g);
      var remaining := graph.edges.Keys;
      while remaining != {}
        invariant remaining <= g.edges.Keys
        invariant graph.View() == Snapshot(g.order, g.nodes, PartlyAnnotated(g, remaining))
        decreases remaining
        modifies graph
      {
        var e :| e in remaining;
        assert e != {} && forall x :: x in e ==> x in graph.order by {
          assert 1 <= |e|;
        }
        var u := FirstIn(graph.order, e);
        var v := LastIn(graph.order, e);
        ghost var before := graph.edges;
        var a, b := Liquidity(graph.nodes[u]), Liquidity(graph.nodes[v]);
        graph.SetEdgeAttr(e, "source_liquidity", a);
        graph.SetEdgeAttr(e, "target_liquidity", b);
        assert graph.edges == before[e := before[e]["source_liquidity" := a]["target_liquidity" := b]] by {
          Overwrite(before, e, before[e]["source_liquidity" := a], before[e]["source_liquidity" := a]["target_liquidity" := b]);
        }
        assert before[e]["source_liquidity" := a]["target_liquidity" := b] == Annotated(g, e) by {
          assert before[e] == g.edges[e];
          assert u == Source(g, e) && v == Target(g, e);
        }
        PartlyAnnotatedStep(g, remaining, e);
        remaining := remaining - {e};
      }
    }

    /** `assign_weight(weight_func)`: each edge dict gets `weight` set to
        `weight_func` of that dict; the nodes and the edge set stay. */
    method AssignWeight(weightFunc: Record -> Value)
      requires Valid()
      modifies graph
      ensures graph.View() == Snapshot(old(graph.order), old(graph.nodes), Reweighted(old(graph.edges), weightFunc))
      ensures Valid()
    {
      ghost var before := graph.edges;
      PartlyReweightedEnds(before, weightFunc);
      var remaining := graph.edges.Keys;
      while remaining != {}
        invariant remaining <= before.Keys
        invariant graph.order == old(graph.order) && graph.nodes == old(graph.nodes)
        invariant graph.edges == PartlyReweighted(before, weightFunc, remaining)
        decreases remaining
        modifies graph
      {
        var e :| e in remaining;
        PartlyReweightedStep(before, weightFunc, remaining, e);
        graph.SetEdgeAttr(e, "weight", weightFunc(graph.edges[e]));
        remaining := remaining - {e};
      }
      assert WellFormed(graph.View()) by {
        SameShapeWellFormed(old(graph.View()), graph.View());
      }
    }

    /** `get_pathways(source, target, num_of_paths)`: the ValueError (a
        count below 0 or above `sys.maxsize`), NodeNotFound and NoPath
        cases exactly as the library raises them;
        otherwise at most `num_of_paths` distinct simple paths in
        non-decreasing hop count, cut short only when there are no more,
        and none left out shorter than one returned. */
    function GetPathways(source: Value, target: Value, numOfPaths: int): (r: Result<seq<seq<Value>>>)
      requires Valid()
      reads this, graph
      ensures r == Err(ValueError) <==> numOfPaths < 0 || numOfPaths > MaxSize
      ensures r == Err(NodeNotFound) <==>
        0 < numOfPaths <= MaxSize && (source !in graph.nodes || target !in graph.nodes)
      ensures r == Err(NoPath) <==>
        && 0 < numOfPaths <= MaxSize && source in graph.nodes && target in graph.nodes
        && forall q :: !IsSimplePath(graph.order, graph.edges.Keys, source, target, q)
      ensures r.Ok? ==>
        && |r.value| <= numOfPaths
        && (forall p :: p in r.value ==> IsSimplePath(graph.order, graph.edges.Keys, source, target, p))
        && Distinct(r.value)
        && ByHopCount(r.value)
        && (forall q :: IsSimplePath(graph.order, graph.edges.Keys, source, target, q) && q !in r.value ==>
              |r.value| == numOfPaths && forall p :: p in r.value ==> |p| <= |q|)
    {
      var g := graph.View();
      assert source in g.nodes <==> source in g.order;
      assert target in g.nodes <==> target in g.order;
      KShortestPathsErrors(g.order, g.edges.Keys, source, target, numOfPaths);
      var r := KShortestPaths(g.order, g.edges.Keys, source, target, numOfPaths);
      if r.Ok? then
        KShortestPathsCorrect(g.order, g.edges.Keys, source, target, numOfPaths);
        r
      else
        r
    }
  }
}
