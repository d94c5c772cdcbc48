/** The liquidity graph of entropic/core.py: an undirected simple graph in
    the manner of networkx's `nx.Graph`, with attribute dicts on nodes and
    edges, and the way DEXA.from_list fills it from flat edge and node
    records. */
module Graphs {
  import opened Outcomes
  import opened Collections

  /** A JSON-like attribute value: a number, a string or a boolean. */
  datatype Value = Num(n: real) | Text(s: string) | Flag(b: bool)

  /** An attribute dict (also the shape of an edge or node record). */
  type Record = map<string, Value>

  /** The state of an `nx.Graph`: the nodes in insertion order, each node's
      attribute dict, and each edge's attribute dict keyed by the unordered
      pair of its endpoints (a one-element set for a self-loop). */
  datatype Snapshot = Snapshot(order: seq<Value>, nodes: map<Value, Record>, edges: map<set<Value>, Record>)

  /** The order lists each node once and only nodes; each edge joins one or
      two nodes of the graph. */
  ghost predicate WellFormed(g: Snapshot)
  {
    && Distinct(g.order)
    && (forall n :: n in g.nodes ==> n in g.order)
    && (forall i :: 0 <= i < |g.order| ==> g.order[i] in g.nodes)
    && (forall e :: e in g.edges ==> 1 <= |e| <= 2)
    && (forall e, n :: e in g.edges && n in e ==> n in g.nodes)
  }

  /** `nx.Graph()`. */
  function Empty(): (g: Snapshot)
    ensures WellFormed(g)
  {
    Snapshot([], map[], map[])
  }

  /** Adding a node that is not there yet, with an empty attribute dict. */
  function AddNode(g: Snapshot, n: Value): Snapshot
  {
    if n in g.nodes then g else Snapshot(g.order + [n], g.nodes[n := map[]], g.edges)
  }

  /** `add_edge(u, v, **attrs)`: missing endpoints are added, `u` first; an
      edge already joining the pair has `attrs` merged into its dict
      (`dict.update`), otherwise the edge is created with `attrs`. */
  function AddEdgeTo(g: Snapshot, u: Value, v: Value, attrs: Record): Snapshot
  {
    var h := AddNode(AddNode(g, u), v);
    SetEdge(h, {u, v}, (if {u, v} in h.edges then h.edges[{u, v}] else map[]) + attrs)
  }

  /** The graph with edge `e`'s dict set to `d`. */
  function SetEdge(g: Snapshot, e: set<Value>, d: Record): Snapshot
  {
    Snapshot(g.order, g.nodes, g.edges[e := d])
  }

  /** An edge joins one or two nodes. */
  lemma PairSize(u: Value, v: Value)
    ensures 1 <= |{u, v}| <= 2
  {
    if u == v { assert {u, v} == {u}; }
  }

  /** The order and the node dicts list the same nodes. */
  ghost predicate Listed(g: Snapshot)
  {
    && Distinct(g.order)
    && (forall m :: m in g.order ==> m in g.nodes)
    && (forall m :: m in g.nodes ==> m in g.order)
  }

  /** Adding a node appends it to the order exactly when it is new, and
      the order and the node dicts still list the same nodes. */
  lemma AddNodeOrder(g: Snapshot, n: Value)
    requires Listed(g)
    ensures Listed(AddNode(g, n))
    ensures AddNode(g, n).order == if n in g.order then g.order else g.order + [n]
    ensures AddNode(g, n).order[..|g.order|] == g.order
  {
    if n !in g.nodes {
      AppendDistinct(g.order, n);
      assert (g.order + [n])[..|g.order|] == g.order;
    }
  }

  /** A prefix of a prefix is a prefix. */
  lemma PrefixOfPrefix<U>(a: seq<U>, b: seq<U>, c: seq<U>)
    requires |a| <= |b| <= |c| && c[..|b|] == b && b[..|a|] == a
    ensures c[..|a|] == a
  {
    assert c[..|a|] == c[..|b|][..|a|];
  }

  /** Adding both endpoints of an edge, `u` first, keeps the graph well
      formed and only appends to the order. */
  lemma AddEndpointsWellFormed(g: Snapshot, u: Value, v: Value)
    requires WellFormed(g)
    ensures WellFormed(AddNode(AddNode(g, u), v))
    ensures AddNode(AddNode(g, u), v).order[..|g.order|] == g.order
  {
    var h1 := AddNode(g, u);
    var h2 := AddNode(h1, v);
    assert Listed(g) by {
      forall m | m in g.order ensures m in g.nodes {
        var i :| 0 <= i < |g.order| && g.order[i] == m;
      }
    }
    AddNodeOrder(g, u);
    AddNodeOrder(h1, v);
    PrefixOfPrefix(g.order, h1.order, h2.order);
    forall i | 0 <= i < |h2.order|
      ensures h2.order[i] in h2.nodes
    {
      assert h2.order[i] in h2.order;
    }
  }

  /** Adding both endpoints adds exactly them to the nodes, with empty
      dicts, and changes no existing dict. */
  lemma AddEndpointsDicts(g: Snapshot, u: Value, v: Value)
    ensures var h := AddNode(AddNode(g, u), v);
      && h.nodes.Keys == g.nodes.Keys + {u, v}
      && h.edges == g.edges
      && (forall n :: n in g.nodes ==> h.nodes[n] == g.nodes[n])
      && (forall n :: n in h.nodes && n !in g.nodes ==> h.nodes[n] == map[])
  {
    var h1 := AddNode(g, u);
    var h2 := AddNode(h1, v);
    assert h1.nodes.Keys == g.nodes.Keys + {u};
    assert h2.nodes.Keys == h1.nodes.Keys + {v};
    forall n | n in h2.nodes && n !in g.nodes
      ensures h2.nodes[n] == map[]
    {
      assert n == u || n == v;
    }
  }

  /** Adding an edge keeps the graph well formed and adds exactly its
      endpoints to the nodes, after the old order, with empty dicts. */
  lemma AddEdgeToNodes(g: Snapshot, u: Value, v: Value, attrs: Record)
    requires WellFormed(g)
    ensures var h := AddEdgeTo(g, u, v, attrs);
      && WellFormed(h)
      && h.nodes.Keys == g.nodes.Keys + {u, v}
      && h.order[..|g.order|] == g.order
      && (forall n :: n in g.nodes ==> h.nodes[n] == g.nodes[n])
      && (forall n :: n in h.nodes && n !in g.nodes ==> h.nodes[n] == map[])
  {
    var h2 := AddNode(AddNode(g, u), v);
    AddEndpointsWellFormed(g, u, v);
    AddEndpointsDicts(g, u, v);
    PairSize(u, v);
    SetEdgeWellFormed(h2, {u, v}, (if {u, v} in h2.edges then h2.edges[{u, v}] else map[]) + attrs);
  }

  /** Adding an edge appends its missing endpoints to the order, `u`
      first, and nothing else. */
  lemma AddEdgeToOrder(g: Snapshot, u: Value, v: Value, attrs: Record)
    ensures AddEdgeTo(g, u, v, attrs).order ==
      g.order + (if u in g.nodes then [] else [u]) + (if v in g.nodes || v == u then [] else [v])
  {
    var h1 := AddNode(g, u);
    assert h1.order == g.order + (if u in g.nodes then [] else [u]);
    assert v in h1.nodes <==> v in g.nodes || v == u;
  }

  /** Adding an edge adds its pair to the edges, merges `attrs` into that
      pair's dict, and touches no other edge. */
  lemma AddEdgeToEdges(g: Snapshot, u: Value, v: Value, attrs: Record)
    ensures var h := AddEdgeTo(g, u, v, attrs);
      && h.edges.Keys == g.edges.Keys + {{u, v}}
      && (forall e :: e in g.edges && e != {u, v} ==> h.edges[e] == g.edges[e])
      && h.edges[{u, v}] == (if {u, v} in g.edges then g.edges[{u, v}] + attrs else attrs)
  {
    var h2 := AddNode(AddNode(g, u), v);
    assert h2.edges == g.edges;
    var e := {u, v};
    var d := (if e in g.edges then g.edges[e] else map[]) + attrs;
    assert AddEdgeTo(g, u, v, attrs).edges == g.edges[e := d];
    forall e' | e' in g.edges && e' != e
      ensures AddEdgeTo(g, u, v, attrs).edges[e'] == g.edges[e']
    {
      assert g.edges[e := d][e'] == g.edges[e'];
    }
  }

  /** Giving a pair of nodes of a well-formed graph an edge dict keeps it
      well formed. */
  lemma SetEdgeWellFormed(g: Snapshot, e: set<Value>, d: Record)
    requires WellFormed(g) && 1 <= |e| <= 2 && forall x :: x in e ==> x in g.nodes
    ensures WellFormed(SetEdge(g, e, d))
  {
  }

  // ---------------------------------------------------------------------
  // DEXA.from_list, as functions of the records

  /** A record's attributes without its `u` and `v` entries. */
  function EdgeAttrs(rec: Record): Record
  {
    rec - {"u", "v"}
  }

  /** The record names both endpoints. */
  predicate HasEnds(rec: Record)
  {
    "u" in rec && "v" in rec
  }

  /** The attributes repeat a parameter name of `add_edge(self, u_of_edge,
      v_of_edge, **attr)`; passed as keyword arguments, Python raises
      TypeError for "multiple values" before the method runs. */
  predicate ClashesWithParameters(attrs: Record)
  {
    "self" in attrs || "u_of_edge" in attrs || "v_of_edge" in attrs
  }

  /** The record goes through one iteration of the edge loop. */
  predicate Loadable(rec: Record)
  {
    HasEnds(rec) && !ClashesWithParameters(EdgeAttrs(rec))
  }

  /** The unordered pair a complete edge record joins. */
  function PairOf(rec: Record): set<Value>
    requires HasEnds(rec)
  {
    {rec["u"], rec["v"]}
  }

  /** The graph after the first loop of from_list over the edge records
      `es`: a record without `u` or `v` raises KeyError at `pop`, and one
      whose other keys clash with `add_edge`'s parameters raises TypeError
      at the call. */
  function LoadEdges(es: seq<Record>): Result<Snapshot>
  {
    if es == [] then Ok(Empty())
    else
      var rec := es[|es| - 1];
      match LoadEdges(es[..|es| - 1])
      case Err(e) => Err(e)
      case Ok(g) =>
        if !HasEnds(rec) then Err(KeyError)
        else if ClashesWithParameters(EdgeAttrs(rec)) then Err(TypeError)
        else Ok(AddEdgeTo(g, rec["u"], rec["v"], EdgeAttrs(rec)))
  }

  /** Every endpoint named by a complete edge record. */
  function Endpoints(es: seq<Record>): set<Value>
  {
    (set r | r in es && HasEnds(r) :: r["u"]) + (set r | r in es && HasEnds(r) :: r["v"])
  }

  /** Every pair joined by a complete edge record. */
  function Pairs(es: seq<Record>): set<set<Value>>
  {
    set r | r in es && HasEnds(r) :: PairOf(r)
  }

  /** The attributes the records for pair `e` leave on its edge: each one's
      attributes merged over the previous, in record order. */
  function PairAttrs(es: seq<Record>, e: set<Value>): Record
  {
    if es == [] then map[]
    else
      var rec := es[|es| - 1];
      var acc := PairAttrs(es[..|es| - 1], e);
      if HasEnds(rec) && PairOf(rec) == e then acc + EdgeAttrs(rec) else acc
  }

  lemma EndpointsSnoc(es: seq<Record>, rec: Record)
    requires HasEnds(rec)
    ensures Endpoints(es + [rec]) == Endpoints(es) + {rec["u"], rec["v"]}
    ensures Pairs(es + [rec]) == Pairs(es) + {PairOf(rec)}
  {
    var es' := es + [rec];
    assert forall r :: r in es' <==> r in es || r == rec;
  }

  /** The edge loop fails exactly when some record cannot be loaded. */
  lemma {:induction false} LoadEdgesSucceeds(es: seq<Record>)
    ensures LoadEdges(es).Ok? <==> forall r :: r in es ==> Loadable(r)
  {
    if es != [] {
      var init, rec := es[..|es| - 1], es[|es| - 1];
      InitLast(es);
      assert forall r :: r in es <==> r in init || r == rec;
      LoadEdgesSucceeds(init);
      if LoadEdges(init).Ok? && !Loadable(rec) {
        assert !HasEnds(rec) || ClashesWithParameters(EdgeAttrs(rec));
      }
    }
  }

  /** Record `i` is the first one the edge loop cannot load. */
  predicate FirstUnloadable(es: seq<Record>, i: int)
  {
    0 <= i < |es| && !Loadable(es[i]) && forall j :: 0 <= j < i ==> Loadable(es[j])
  }

  /** A failed edge loop reports the error of the first record it cannot
      load: KeyError for a missing endpoint, TypeError for an attribute
      named like a parameter of `add_edge`. */
  lemma {:induction false} LoadEdgesFailure(es: seq<Record>)
    requires LoadEdges(es).Err?
    ensures exists i :: FirstUnloadable(es, i) &&
              LoadEdges(es).error == (if HasEnds(es[i]) then TypeError else KeyError)
  {
    var init, rec := es[..|es| - 1], es[|es| - 1];
    InitLast(es);
    if LoadEdges(init).Err? {
      LoadEdgesFailure(init);
      var i :| FirstUnloadable(init, i) && LoadEdges(init).error == (if HasEnds(init[i]) then TypeError else KeyError);
      assert FirstUnloadable(es, i) by {
        assert es[i] == init[i];
        assert forall j :: 0 <= j < i ==> es[j] == init[j];
      }
    } else {
      LoadEdgesSucceeds(init);
      assert FirstUnloadable(es, |es| - 1) by {
        assert forall j :: 0 <= j < |init| ==> es[j] == init[j] && init[j] in init;
      }
    }
  }

  /** Once a prefix of the records has failed, the whole loop fails with
      the same error. */
  lemma {:induction false} LoadEdgesStaysFailed(es: seq<Record>, n: nat)
    requires n <= |es| && LoadEdges(es[..n]).Err?
    ensures LoadEdges(es) == LoadEdges(es[..n])
    decreases |es| - n
  {
    if n < |es| {
      var es' := es[..n + 1];
      assert es'[..|es'| - 1] == es[..n];
      LoadEdgesStaysFailed(es, n + 1);
    } else {
      assert es[..n] == es;
    }
  }

  /** After the edge loop the graph is well formed and its nodes are
      exactly the records' endpoints, each with an empty dict. */
  lemma {:induction false} LoadEdgesNodes(es: seq<Record>)
    requires LoadEdges(es).Ok?
    ensures WellFormed(LoadEdges(es).value)
    ensures LoadEdges(es).value.nodes.Keys == Endpoints(es)
    ensures forall n :: n in LoadEdges(es).value.nodes ==> LoadEdges(es).value.nodes[n] == map[]
  {
    if es == [] {
      assert Endpoints(es) == {};
    } else {
      var init, rec := es[..|es| - 1], es[|es| - 1];
      InitLast(es);
      LoadEdgesNodes(init);
      var g := LoadEdges(init).value;
      AddEdgeToNodes(g, rec["u"], rec["v"], EdgeAttrs(rec));
      EndpointsSnoc(init, rec);
    }
  }

  /** A pair no record joins has gathered no attributes. */
  lemma {:induction false} PairAttrsAbsent(es: seq<Record>, e: set<Value>)
    requires e !in Pairs(es)
    ensures PairAttrs(es, e) == map[]
  {
    if es != [] {
      var init, rec := es[..|es| - 1], es[|es| - 1];
      InitLast(es);
      assert forall r :: r in init ==> r in es;
      PairAttrsAbsent(init, e);
    }
  }

  /** One more complete record adds its edge to the loaded graph. */
  lemma LoadEdgesStep(init: seq<Record>, rec: Record)
    requires LoadEdges(init).Ok? && Loadable(rec)
    ensures LoadEdges(init + [rec]) == Ok(AddEdgeTo(LoadEdges(init).value, rec["u"], rec["v"], EdgeAttrs(rec)))
  {
    assert (init + [rec])[..|init|] == init;
  }

  /** One more record for pair `p` merges its attributes into that pair's
      and leaves every other pair's alone. */
  lemma PairAttrsStep(init: seq<Record>, rec: Record, e: set<Value>)
    requires HasEnds(rec)
    ensures PairAttrs(init + [rec], e) ==
              if e == PairOf(rec) then PairAttrs(init, e) + EdgeAttrs(rec) else PairAttrs(init, e)
  {
    assert (init + [rec])[..|init|] == init;
  }

  /** After the edge loop the edges are exactly the records' pairs, and
      each edge's dict is the merge of its records' attributes. */
  lemma {:induction false} LoadEdgesEdges(es: seq<Record>)
    requires LoadEdges(es).Ok?
    ensures LoadEdges(es).value.edges.Keys == Pairs(es)
    ensures forall e :: e in LoadEdges(es).value.edges ==> LoadEdges(es).value.edges[e] == PairAttrs(es, e)
  {
    if es == [] {
      assert Pairs(es) == {};
    } else {
      var init, rec := es[..|es| - 1], es[|es| - 1];
      InitLast(es);
      LoadEdgesEdges(init);
      var g := LoadEdges(init).value;
      var p := PairOf(rec);
      LoadEdgesStep(init, rec);
      var h := AddEdgeTo(g, rec["u"], rec["v"], EdgeAttrs(rec));
      AddEdgeToEdges(g, rec["u"], rec["v"], EdgeAttrs(rec));
      assert h.edges.Keys == Pairs(es) by {
        EndpointsSnoc(init, rec);
      }
      forall e | e in h.edges
        ensures h.edges[e] == PairAttrs(es, e)
      {
        PairAttrsStep(init, rec, e);
        if e == p && p !in g.edges {
          PairAttrsAbsent(init, p);
        }
      }
    }
  }

  /** The edge loop: it succeeds exactly when every record has both
      endpoints and no attribute named like a parameter of `add_edge`; the
      nodes are then exactly the endpoints, each with an
      empty dict, the edges exactly the pairs of the records, and each
      edge's dict the merge of its records' attributes. */
  lemma LoadEdgesMeaning(es: seq<Record>)
    ensures LoadEdges(es).Ok? <==> forall r :: r in es ==> Loadable(r)
    ensures LoadEdges(es).Ok? ==>
      var g := LoadEdges(es).value;
      && WellFormed(g)
      && g.nodes.Keys == Endpoints(es)
      && (forall n :: n in g.nodes ==> g.nodes[n] == map[])
      && g.edges.Keys == Pairs(es)
      && (forall e :: e in g.edges ==> g.edges[e] == PairAttrs(es, e))
  {
    LoadEdgesSucceeds(es);
    if LoadEdges(es).Ok? {
      LoadEdgesNodes(es);
      LoadEdgesEdges(es);
    }
  }

  /** `graph.nodes[name].update(rec)` for one node record: a record without
      `name`, or naming no node of the graph, raises KeyError; otherwise
      the record (its `name` included) is merged into that node's dict. */
  function MergeNode(g: Snapshot, rec: Record): Result<Snapshot>
  {
    if "name" !in rec then Err(KeyError)
    else if rec["name"] !in g.nodes then Err(KeyError)
    else Ok(Snapshot(g.order, g.nodes[rec["name"] := g.nodes[rec["name"]] + rec], g.edges))
  }

  /** The second loop of from_list over the node records `ns`. */
  function MergeNodes(g: Snapshot, ns: seq<Record>): Result<Snapshot>
  {
    if ns == [] then Ok(g)
    else
      match MergeNodes(g, ns[..|ns| - 1])
      case Err(e) => Err(e)
      case Ok(h) => MergeNode(h, ns[|ns| - 1])
  }

  /** The attributes the node records naming `n` add to it, in order. */
  function NodeAttrs(ns: seq<Record>, n: Value): Record
  {
    if ns == [] then map[]
    else
      var rec := ns[|ns| - 1];
      var acc := NodeAttrs(ns[..|ns| - 1], n);
      if "name" in rec && rec["name"] == n then acc + rec else acc
  }

  /** Merging one more dict on the right is associative. */
  lemma MergeAssoc(a: Record, b: Record, c: Record)
    ensures (a + b) + c == a + (b + c)
  {
  }

  /** The node loop: it succeeds exactly when every record names an
      existing node; it then leaves the order, the node set and the edges
      alone and merges into each node the records that name it. */
  lemma {:induction false} MergeNodesMeaning(g: Snapshot, ns: seq<Record>)
    ensures MergeNodes(g, ns).Ok? <==> forall r :: r in ns ==> "name" in r && r["name"] in g.nodes
    ensures MergeNodes(g, ns).Err? ==> MergeNodes(g, ns).error == KeyError
    ensures MergeNodes(g, ns).Ok? ==>
      var h := MergeNodes(g, ns).value;
      && h.order == g.order && h.edges == g.edges
      && h.nodes.Keys == g.nodes.Keys
      && (forall n :: n in h.nodes ==> h.nodes[n] == g.nodes[n] + NodeAttrs(ns, n))
  {
    if ns != [] {
      var init, rec := ns[..|ns| - 1], ns[|ns| - 1];
      InitLast(ns);
      assert forall r :: r in ns <==> r in init || r == rec;
      MergeNodesMeaning(g, init);
      if MergeNodes(g, init).Ok? && "name" in rec && rec["name"] in g.nodes {
        var h := MergeNodes(g, init).value;
        forall n | n in h.nodes
          ensures MergeNodes(g, ns).value.nodes[n] == g.nodes[n] + NodeAttrs(ns, n)
        {
          if rec["name"] == n {
            MergeAssoc(g.nodes[n], NodeAttrs(init, n), rec);
          }
        }
      }
    } else {
      forall n | n in g.nodes
        ensures g.nodes[n] + NodeAttrs(ns, n) == g.nodes[n]
      {
      }
    }
  }

  /** The first node of `order` that lies in `e`. */
  function FirstIn(order: seq<Value>, e: set<Value>): (n: Value)
    requires e != {} && forall x :: x in e ==> x in order
    ensures n in e
    ensures exists i :: 0 <= i < |order| && order[i] == n && forall j :: 0 <= j < i ==> order[j] !in e
  {
    if order[0] in e then order[0]
    else
      assert forall x :: x in e ==> x in order[1..] by {
        forall y | y in e ensures y in order[1..] {
          var k :| 0 <= k < |order| && order[k] == y;
          assert order[1..][k - 1] == y;
        }
      }
      var n := FirstIn(order[1..], e);
      var i :| 0 <= i < |order[1..]| && order[1..][i] == n && forall j :: 0 <= j < i ==> order[1..][j] !in e;
      assert order[i + 1] == n && forall j :: 0 <= j < i + 1 ==> order[j] !in e by {
        forall j | 0 <= j < i + 1 ensures order[j] !in e {
          if j > 0 { assert order[j] == order[1..][j - 1]; }
        }
      }
      n
  }

  /** The last node of `order` that lies in `e`. */
  function LastIn(order: seq<Value>, e: set<Value>): (n: Value)
    requires e != {} && forall x :: x in e ==> x in order
    ensures n in e
    ensures exists i :: 0 <= i < |order| && order[i] == n && forall j :: i < j < |order| ==> order[j] !in e
  {
    var init := order[..|order| - 1];
    if order[|order| - 1] in e then order[|order| - 1]
    else
      assert forall x :: x in e ==> x in init by {
        forall y | y in e ensures y in init {
          var k :| 0 <= k < |order| && order[k] == y;
          assert init[k] == y;
        }
      }
      var n := LastIn(init, e);
      var i :| 0 <= i < |init| && init[i] == n && forall j :: i < j < |init| ==> init[j] !in e;
      assert order[i] == n && forall j :: i < j < |order| ==> order[j] !in e by {
        forall j | i < j < |order| ensures order[j] !in e {
          if j < |init| { assert order[j] == init[j]; }
        }
      }
      n
  }

  /** `graph.nodes[n].get('liquidity', 0)`. */
  function Liquidity(attrs: Record): Value
  {
    if "liquidity" in attrs then attrs["liquidity"] else Num(0.0)
  }

  /** The edge `e` as `graph.edges(data=True)` reports it: `(u, v, d)` with
      `u` the endpoint inserted earlier and `v` the other (the same node
      for a self-loop). */
  function Source(g: Snapshot, e: set<Value>): Value
    requires WellFormed(g) && e in g.edges
  {
    assert e != {} by { assert 1 <= |e|; }
    FirstIn(g.order, e)
  }

  function Target(g: Snapshot, e: set<Value>): Value
    requires WellFormed(g) && e in g.edges
  {
    assert e != {} by { assert 1 <= |e|; }
    LastIn(g.order, e)
  }

  /** The dict of edge `e` after the third loop of from_list. */
  function Annotated(g: Snapshot, e: set<Value>): Record
    requires WellFormed(g) && e in g.edges
  {
    g.edges[e]["source_liquidity" := Liquidity(g.nodes[Source(g, e)])]
              ["target_liquidity" := Liquidity(g.nodes[Target(g, e)])]
  }

  /** The third loop of from_list: every edge dict gets both liquidities. */
  function Annotate(g: Snapshot): Snapshot
    requires WellFormed(g)
  {
    Snapshot(g.order, g.nodes, map e | e in g.edges :: Annotated(g, e))
  }

  /** The edge dicts part way through the third loop: those still in
      `todo` as they were, the others annotated. */
  function PartlyAnnotated(g: Snapshot, todo: set<set<Value>>): map<set<Value>, Record>
    requires WellFormed(g)
  {
    map e | e in g.edges :: if e in todo then g.edges[e] else Annotated(g, e)
  }

  /** Annotating one more edge of `todo`. */
  lemma PartlyAnnotatedStep(g: Snapshot, todo: set<set<Value>>, e: set<Value>)
    requires WellFormed(g) && e in g.edges
    ensures PartlyAnnotated(g, todo - {e}) == PartlyAnnotated(g, todo)[e := Annotated(g, e)]
  {
  }

  /** Before the third loop no edge dict is annotated. */
  lemma PartlyAnnotatedStart(g: Snapshot)
    requires WellFormed(g)
    ensures PartlyAnnotated(g, g.edges.Keys) == g.edges
  {
  }

  /** After the third loop every edge dict is annotated. */
  lemma PartlyAnnotatedDone(g: Snapshot)
    requires WellFormed(g)
    ensures PartlyAnnotated(g, {}) == Annotate(g).edges
  {
  }

  /** The two endpoints of an edge: together they are the edge, and the
      source comes no later than the target in insertion order. */
  lemma SourceTargetMeaning(g: Snapshot, e: set<Value>)
    requires WellFormed(g) && e in g.edges
    ensures e == {Source(g, e), Target(g, e)}
    ensures exists i, j :: 0 <= i <= j < |g.order| && g.order[i] == Source(g, e) && g.order[j] == Target(g, e)
  {
    FirstLastCover(g.order, e);
    FirstBeforeLast(g.order, e);
  }

  /** In a duplicate-free order, the first node of a set comes no later
      than its last. */
  lemma FirstBeforeLast(order: seq<Value>, e: set<Value>)
    requires Distinct(order) && e != {} && forall x :: x in e ==> x in order
    ensures exists i, j :: 0 <= i <= j < |order| && order[i] == FirstIn(order, e) && order[j] == LastIn(order, e)
  {
    var i :| 0 <= i < |order| && order[i] == FirstIn(order, e) && forall k :: 0 <= k < i ==> order[k] !in e;
    var j :| 0 <= j < |order| && order[j] == LastIn(order, e) && forall k :: j < k < |order| ==> order[k] !in e;
    var v := LastIn(order, e);
    assert v in e && order[j] == v;
    assert i <= j;
  }

  /** A one- or two-element set of nodes is its first and its last node
      in a duplicate-free order. */
  lemma FirstLastCover(order: seq<Value>, e: set<Value>)
    requires Distinct(order) && 1 <= |e| <= 2 && forall x :: x in e ==> x in order
    ensures e == {FirstIn(order, e), LastIn(order, e)}
  {
    var u, v := FirstIn(order, e), LastIn(order, e);
    if u == v {
      var i :| 0 <= i < |order| && order[i] == u && forall k :: 0 <= k < i ==> order[k] !in e;
      var j :| 0 <= j < |order| && order[j] == v && forall k :: j < k < |order| ==> order[k] !in e;
      forall x | x in e
        ensures x == u
      {
        var k :| 0 <= k < |order| && order[k] == x;
        assert i <= k <= j;
      }
      assert e == {u};
    } else {
      assert |{u, v}| == 2;
      SubsetSameSize({u, v}, e);
    }
  }

  /** A subset at least as large as the whole set is the whole set. */
  lemma SubsetSameSize<U>(a: set<U>, b: set<U>)
    requires a <= b && |b| <= |a|
    ensures a == b
  {
    assert a + b == b && a * b == a;
    assert |b - a| == 0;
  }

  /** DEXA.from_list as a function of the two record lists. */
  function Build(es: seq<Record>, ns: seq<Record>): Result<Snapshot>
  {
    match LoadEdges(es)
    case Err(e) => Err(e)
    case Ok(g) =>
      LoadEdgesMeaning(es);
      match MergeNodes(g, ns)
      case Err(e) => Err(e)
      case Ok(h) =>
        MergeNodesMeaning(g, ns);
        Ok(Annotate(h))
  }

  /** from_list's three stages: an edge-record failure or a node-record
      failure is the outcome, otherwise the node loop leaves a well-formed
      graph whose annotation is the outcome. */
  lemma BuildStages(es: seq<Record>, ns: seq<Record>)
    ensures LoadEdges(es).Err? ==> Build(es, ns) == Err(LoadEdges(es).error)
    ensures LoadEdges(es).Ok? ==>
      var m := MergeNodes(LoadEdges(es).value, ns);
      && (m.Err? ==> Build(es, ns) == Err(m.error))
      && (m.Ok? ==> WellFormed(m.value) && Build(es, ns) == Ok(Annotate(m.value)))
  {
    if LoadEdges(es).Ok? {
      var g := LoadEdges(es).value;
      assert WellFormed(g) by { LoadEdgesNodes(es); }
      MergeNodesMeaning(g, ns);
      if MergeNodes(g, ns).Ok? {
        SameShapeWellFormed(g, MergeNodes(g, ns).value);
      }
    }
  }

  /** Well-formedness depends only on the order, the node set and the edge
      set. */
  lemma SameShapeWellFormed(g: Snapshot, h: Snapshot)
    requires WellFormed(g)
    requires h.order == g.order && h.nodes.Keys == g.nodes.Keys && h.edges.Keys == g.edges.Keys
    ensures WellFormed(h)
  {
  }

  /** The endpoints of the complete edge records in order of first
      appearance, `u` before `v` within a record. */
  function Appearances(es: seq<Record>): seq<Value>
  {
    if es == [] then []
    else
      var acc := Appearances(es[..|es| - 1]);
      var rec := es[|es| - 1];
      if !HasEnds(rec) then acc
      else
        var withU := if rec["u"] in acc then acc else acc + [rec["u"]];
        if rec["v"] in withU then withU else withU + [rec["v"]]
  }

  /** The edge loop inserts the nodes in order of first appearance, so the
      endpoint `edges(data=True)` reports first is the one that appeared
      first in the edge records. */
  lemma {:induction false} LoadEdgesOrder(es: seq<Record>)
    requires LoadEdges(es).Ok?
    ensures LoadEdges(es).value.order == Appearances(es)
  {
    if es != [] {
      var init, rec := es[..|es| - 1], es[|es| - 1];
      LoadEdgesOrder(init);
      var g := LoadEdges(init).value;
      assert Listed(g) by {
        LoadEdgesNodes(init);
        forall m | m in g.order
          ensures m in g.nodes
        {
          var i :| 0 <= i < |g.order| && g.order[i] == m;
        }
      }
      var u, v := rec["u"], rec["v"];
      AddNodeOrder(g, u);
      AddNodeOrder(AddNode(g, u), v);
    }
  }

  /** from_list succeeds exactly when every edge record names both
      endpoints and has no attribute named like a parameter of `add_edge`,
      and every node record has a `name` that is one of those endpoints; a
      failure is a KeyError, or a TypeError when some edge record clashes. */
  lemma BuildSucceeds(es: seq<Record>, ns: seq<Record>)
    ensures Build(es, ns).Ok? <==>
              && (forall r :: r in es ==> Loadable(r))
              && (forall r :: r in ns ==> "name" in r && r["name"] in Endpoints(es))
    ensures Build(es, ns).Err? ==> Build(es, ns).error == KeyError || Build(es, ns).error == TypeError
    ensures Build(es, ns) == Err(TypeError) ==>
              exists r :: r in es && HasEnds(r) && ClashesWithParameters(EdgeAttrs(r))
  {
    LoadEdgesSucceeds(es);
    if LoadEdges(es).Ok? {
      LoadEdgesNodes(es);
      MergeNodesMeaning(LoadEdges(es).value, ns);
    } else {
      LoadEdgesFailure(es);
      var i :| FirstUnloadable(es, i) && LoadEdges(es).error == (if HasEnds(es[i]) then TypeError else KeyError);
      assert es[i] in es;
    }
  }

  /** The third loop changes only the edge dicts, never which edges or
      nodes exist. */
  lemma AnnotateShape(h: Snapshot)
    requires WellFormed(h)
    ensures var g := Annotate(h);
      && g.order == h.order && g.nodes == h.nodes && g.edges.Keys == h.edges.Keys
      && WellFormed(g)
  {
  }

  /** The graph after the node loop, when from_list succeeds. */
  function Merged(es: seq<Record>, ns: seq<Record>): (h: Snapshot)
    requires Build(es, ns).Ok?
    ensures WellFormed(h) && Build(es, ns) == Ok(Annotate(h))
  {
    var g := LoadEdges(es).value;
    LoadEdgesNodes(es);
    MergeNodesMeaning(g, ns);
    MergeNodes(g, ns).value
  }

  /** The node order after the node loop. */
  lemma MergedOrder(es: seq<Record>, ns: seq<Record>)
    requires Build(es, ns).Ok?
    ensures Merged(es, ns).order == Appearances(es)
  {
    LoadEdgesOrder(es);
    MergeNodesMeaning(LoadEdges(es).value, ns);
  }

  /** The nodes and their dicts after the node loop. */
  lemma MergedNodes(es: seq<Record>, ns: seq<Record>)
    requires Build(es, ns).Ok?
    ensures var h := Merged(es, ns);
      && h.nodes.Keys == Endpoints(es)
      && (forall n :: n in h.nodes ==> h.nodes[n] == NodeAttrs(ns, n))
  {
    var g := LoadEdges(es).value;
    assert g.nodes.Keys == Endpoints(es) && forall n :: n in g.nodes ==> g.nodes[n] == map[] by {
      LoadEdgesNodes(es);
    }
    MergeNodesMeaning(g, ns);
    var h := MergeNodes(g, ns).value;
    forall n | n in h.nodes
      ensures h.nodes[n] == NodeAttrs(ns, n)
    {
      EmptyMerge(NodeAttrs(ns, n));
    }
  }

  lemma EmptyMerge(d: Record)
    ensures map[] + d == d
  {
  }

  /** The edges after the node loop. */
  lemma MergedEdges(es: seq<Record>, ns: seq<Record>)
    requires Build(es, ns).Ok?
    ensures var h := Merged(es, ns);
      && h.edges.Keys == Pairs(es)
      && (forall e :: e in h.edges ==> h.edges[e] == PairAttrs(es, e))
  {
    LoadEdgesEdges(es);
    MergeNodesMeaning(LoadEdges(es).value, ns);
  }

  /** The nodes from_list builds: the endpoints in order of first
      appearance, each with the merge of the node records naming it. */
  lemma BuildNodes(es: seq<Record>, ns: seq<Record>)
    requires Build(es, ns).Ok?
    ensures var g := Build(es, ns).value;
      && WellFormed(g)
      && g.order == Appearances(es)
      && g.nodes.Keys == Endpoints(es)
      && (forall n :: n in g.nodes ==> g.nodes[n] == NodeAttrs(ns, n))
  {
    MergedOrder(es, ns);
    MergedNodes(es, ns);
    AnnotateShape(Merged(es, ns));
  }

  /** The edges from_list builds: the records' pairs, each with the merge
      of its records' attributes plus both endpoints' liquidity, the
      earlier-inserted endpoint's as `source_liquidity`. */
  lemma BuildEdges(es: seq<Record>, ns: seq<Record>)
    requires Build(es, ns).Ok?
    ensures var g := Build(es, ns).value;
      && WellFormed(g)
      && g.edges.Keys == Pairs(es)
      && (forall e :: e in g.edges ==>
            g.edges[e] == PairAttrs(es, e)["source_liquidity" := Liquidity(NodeAttrs(ns, Source(g, e)))]
                                          ["target_liquidity" := Liquidity(NodeAttrs(ns, Target(g, e)))])
  {
    var h := Merged(es, ns);
    var g := Build(es, ns).value;
    MergedNodes(es, ns);
    MergedEdges(es, ns);
    AnnotateShape(h);
    forall e | e in g.edges
      ensures g.edges[e] == PairAttrs(es, e)["source_liquidity" := Liquidity(NodeAttrs(ns, Source(g, e)))]
                                            ["target_liquidity" := Liquidity(NodeAttrs(ns, Target(g, e)))]
    {
      assert g.edges[e] == Annotated(h, e);
      assert Source(g, e) == Source(h, e) && Target(g, e) == Target(h, e);
    }
  }

  /** Whichever endpoint is reported first, an edge's two liquidity
      entries are those of the two endpoints of any record for it. */
  lemma BuildLiquidity(es: seq<Record>, ns: seq<Record>, r: Record)
    requires Build(es, ns).Ok? && r in es
    ensures HasEnds(r) && PairOf(r) in Build(es, ns).value.edges
    ensures var d := Build(es, ns).value.edges[PairOf(r)];
      var lu, lv := Liquidity(NodeAttrs(ns, r["u"])), Liquidity(NodeAttrs(ns, r["v"]));
      || (d["source_liquidity"] == lu && d["target_liquidity"] == lv)
      || (d["source_liquidity"] == lv && d["target_liquidity"] == lu)
  {
    var g := Build(es, ns).value;
    assert HasEnds(r) by { BuildSucceeds(es, ns); }
    var e := PairOf(r);
    assert e in Pairs(es);
    BuildEdges(es, ns);
    SourceTargetMeaning(g, e);
    var s, t := Source(g, e), Target(g, e);
    assert {s, t} == {r["u"], r["v"]};
    var lu, lv := Liquidity(NodeAttrs(ns, r["u"])), Liquidity(NodeAttrs(ns, r["v"]));
    var d := g.edges[e];
    assert d["source_liquidity"] == Liquidity(NodeAttrs(ns, s));
    assert d["target_liquidity"] == Liquidity(NodeAttrs(ns, t));
    if s == r["u"] {
      assert t == r["v"];
    } else {
      assert s == r["v"] && t == r["u"];
    }
  }

  /** Later records for a pair overwrite earlier ones key by key: the value
      an edge keeps under key `k` is the one from the last record for that
      pair carrying `k`. */
  lemma {:induction false} PairAttrsLastWins(es: seq<Record>, e: set<Value>, i: nat, k: string)
    requires i < |es| && HasEnds(es[i]) && PairOf(es[i]) == e && k in EdgeAttrs(es[i])
    requires forall j :: i < j < |es| && HasEnds(es[j]) && PairOf(es[j]) == e ==> k !in EdgeAttrs(es[j])
    ensures k in PairAttrs(es, e) && PairAttrs(es, e)[k] == es[i][k]
  {
    var init := es[..|es| - 1];
    if i < |es| - 1 {
      assert init[i] == es[i];
      PairAttrsLastWins(init, e, i, k);
    }
  }

  /** Likewise for node records: a node keeps, under key `k`, the value of
      the last record naming it that carries `k`. */
  lemma {:induction false} NodeAttrsLastWins(ns: seq<Record>, n: Value, i: nat, k: string)
    requires i < |ns| && "name" in ns[i] && ns[i]["name"] == n && k in ns[i]
    requires forall j :: i < j < |ns| && "name" in ns[j] && ns[j]["name"] == n ==> k !in ns[j]
    ensures k in NodeAttrs(ns, n) && NodeAttrs(ns, n)[k] == ns[i][k]
  {
    var init := ns[..|ns| - 1];
    if i < |ns| - 1 {
      assert init[i] == ns[i];
      NodeAttrsLastWins(init, n, i, k);
    }
  }

  // ---------------------------------------------------------------------
  // DEXA.assign_weight, as a function of the edge dicts

  /** Every edge dict with its `weight` set to `f` of that dict. */
  function Reweighted(edges: map<set<Value>, Record>, f: Record -> Value): (r: map<set<Value>, Record>)
    ensures r.Keys == edges.Keys
    ensures forall e :: e in r ==> "weight" in r[e] && r[e]["weight"] == f(edges[e])
    ensures forall e, k :: e in r && k in r[e] && k != "weight" ==> k in edges[e] && r[e][k] == edges[e][k]
    ensures forall e, k :: e in r && k in edges[e] ==> k in r[e]
  {
    map e | e in edges :: edges[e]["weight" := f(edges[e])]
  }

  /** The edge dicts part way through assign_weight: those still in `todo`
      as they were, the others with their weight set. */
  function PartlyReweighted(edges: map<set<Value>, Record>, f: Record -> Value, todo: set<set<Value>>): map<set<Value>, Record>
  {
    map e | e in edges :: if e in todo then edges[e] else edges[e]["weight" := f(edges[e])]
  }

  /** Weighting one more edge of `todo`. */
  lemma PartlyReweightedStep(edges: map<set<Value>, Record>, f: Record -> Value, todo: set<set<Value>>, e: set<Value>)
    requires e in edges
    ensures PartlyReweighted(edges, f, todo - {e}) == PartlyReweighted(edges, f, todo)[e := edges[e]["weight" := f(edges[e])]]
  {
  }

  /** Before the loop of assign_weight no edge is weighted; after it, all. */
  lemma PartlyReweightedEnds(edges: map<set<Value>, Record>, f: Record -> Value)
    ensures PartlyReweighted(edges, f, edges.Keys) == edges
    ensures PartlyReweighted(edges, f, {}) == Reweighted(edges, f)
  {
    assert PartlyReweighted(edges, f, edges.Keys) == edges by {
      assert forall e :: e in edges ==> PartlyReweighted(edges, f, edges.Keys)[e] == edges[e];
    }
  }

  /** Assigning weights twice with a function that ignores the old weight
      gives the same graph as once. */
  lemma ReweightIdempotent(edges: map<set<Value>, Record>, f: Record -> Value)
    requires forall d: Record :: f(d) == f(d - {"weight"})
    ensures Reweighted(Reweighted(edges, f), f) == Reweighted(edges, f)
  {
    var once := Reweighted(edges, f);
    forall e | e in once
      ensures Reweighted(once, f)[e] == once[e]
    {
      assert once[e] - {"weight"} == edges[e] - {"weight"};
      assert f(once[e]) == f(edges[e]);
      assert once[e]["weight" := f(once[e])] == once[e];
    }
    assert Reweighted(once, f).Keys == once.Keys;
  }

  // ---------------------------------------------------------------------
  // The mutable graph object

  /** An `nx.Graph` instance, with the operations from_list and
      assign_weight perform on it. */
  class Graph {
    var order: seq<Value>
    var nodes: map<Value, Record>
    var edges: map<set<Value>, Record>

    /** The graph's current state as a value. */
    function View(): Snapshot
      reads this
    {
      Snapshot(order, nodes, edges)
    }

    /** `nx.Graph()`: no nodes and no edges. */
    constructor ()
      ensures View() == Empty()
    {
      order := [];
      nodes := map[];
      edges := map[];
    }

    /** `add_edge(u, v, **attrs)`. */
    method AddEdge(u: Value, v: Value, attrs: Record)
      modifies this
      ensures View() == AddEdgeTo(old(View()), u, v, attrs)
    {
      if u !in nodes {
        order := order + [u];
        nodes := nodes[u := map[]];
      }
      if v !in nodes {
        order := order + [v];
        nodes := nodes[v := map[]];
      }
      var e := {u, v};
      var d := if e in edges then edges[e] else map[];
      edges := edges[e := d + attrs];
    }

    /** `graph.nodes[name].update(rec)`: KeyError for a name that is not a
        node; otherwise `rec` is merged into that node's dict. */
    method UpdateNode(name: Value, rec: Record) returns (r: Result<()>)
      modifies this
      ensures r.Ok? <==> name in old(nodes)
      ensures r.Err? ==> r.error == KeyError && View() == old(View())
      ensures r.Ok? ==> View() == Snapshot(old(order), old(nodes)[name := old(nodes)[name] + rec], old(edges))
    {
      if name !in nodes {
        return Err(KeyError);
      }
      nodes := nodes[name := nodes[name] + rec];
      return Ok(());
    }

    /** `d[key] = value` on the dict of edge `e`. */
    method SetEdgeAttr(e: set<Value>, key: string, value: Value)
      requires e in edges
      modifies this
      ensures View() == SetEdge(old(View()), e, old(edges)[e][key := value])
    {
      edges := edges[e := edges[e][key := value]];
    }
  }
}
