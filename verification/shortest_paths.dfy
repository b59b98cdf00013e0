/**
 * The single-pair cheapest-walk search that the flight search obtains from
 * networkx's `dijkstra_path`.  The model is a label-correcting search: labels
 * are relaxed along improving edges until none is left, after which every
 * label is the cheapest cost of reaching its vertex.  Only the cost of the
 * returned walk is pinned, not which of several equally cheap walks is chosen.
 */
module ShortestPaths {
  import opened Graphs

  /** The best walk known so far from the source to a vertex, with its cost. */
  datatype Label = Label(cost: nat, path: seq<Vertex>)

  type Table = map<Vertex, Label>

  /** Every label is realised by a walk from `s` of exactly that cost. */
  ghost predicate Sound(g: Graph, s: Vertex, d: Table) {
    && s in d && d[s].cost == 0
    && (forall v :: v in d ==> v in g.vertices)
    && forall v :: v in d ==> PathFromTo(g, d[v].path, s, v) && PathCost(g, d[v].path) == d[v].cost
  }

  /** Following edge `e` from a labelled vertex gives a new or cheaper label. */
  predicate Improves(g: Graph, d: Table, e: Edge)
    requires e in g.edges
  {
    e.0 in d && (e.1 !in d || d[e.0].cost + g.edges[e].weight < d[e.1].cost)
  }

  /** No edge improves any label: the table is a fixpoint of relaxation. */
  ghost predicate Settled(g: Graph, d: Table) {
    forall e :: e in g.edges ==> !Improves(g, d, e)
  }

  /** Sum of the labels of the vertices of `vs` (unlabelled vertices count 0). */
  function LabelSum(vs: seq<Vertex>, d: Table): nat {
    if vs == [] then 0
    else (if vs[0] in d then d[vs[0]].cost else 0) + LabelSum(vs[1..], d)
  }

  /** Lowering one label lowers the sum over any sequence that holds its vertex. */
  lemma {:induction false} LabelSumDecreases(vs: seq<Vertex>, d: Table, v: Vertex, l: Label)
    requires v in d && l.cost < d[v].cost
    ensures LabelSum(vs, d[v := l]) <= LabelSum(vs, d)
    ensures v in vs ==> LabelSum(vs, d[v := l]) < LabelSum(vs, d)
    decreases |vs|
  {
    if vs != [] {
      LabelSumDecreases(vs[1..], d, v, l);
      if vs[0] != v {
        assert v in vs ==> v in vs[1..];
      }
    }
  }

  /** Labelling one more vertex of the graph leaves fewer vertices unlabelled. */
  lemma FewerUnlabelled(all: set<Vertex>, keys: set<Vertex>, v: Vertex)
    requires v in all && v !in keys
    ensures |all - (keys + {v})| < |all - keys|
  {
    var before := all - keys;
    var after := all - (keys + {v});
    assert after == before - {v};
    assert v in before;
  }

  /** Once no edge improves, each label is at most the cost of every walk to its vertex. */
  lemma {:induction false} SettledIsOptimal(g: Graph, s: Vertex, d: Table, p: seq<Vertex>)
    requires Sound(g, s, d) && Settled(g, d)
    requires IsPath(g, p) && p[0] == s
    ensures Last(p) in d && d[Last(p)].cost <= PathCost(g, p)
    decreases |p|
  {
    if |p| > 1 {
      var q := p[..|p| - 1];
      PrefixIsPath(g, p, |p| - 1);
      SettledIsOptimal(g, s, d, q);
      var e := (Last(q), Last(p));
      assert e == (p[|p| - 2], p[|p| - 1]);
      assert e in g.edges && !Improves(g, d, e);
    }
  }

  /** The label that following edge `e` from its labelled source would give. */
  function Relaxed(g: Graph, d: Table, e: Edge): Label
    requires e in g.edges && e.0 in d
  {
    Label(d[e.0].cost + g.edges[e].weight, d[e.0].path + [e.1])
  }

  /** Relaxing an improving edge keeps every label realised by a walk. */
  lemma RelaxKeepsSound(g: Graph, s: Vertex, d: Table, e: Edge)
    requires WellFormed(g) && Sound(g, s, d)
    requires e in g.edges && Improves(g, d, e)
    ensures Sound(g, s, d[e.1 := Relaxed(g, d, e)])
  {
    ExtendPath(g, d[e.0].path, e.1);
    var d' := d[e.1 := Relaxed(g, d, e)];
    assert e.1 != s by {
      assert d[s].cost == 0;
    }
    forall v | v in d'
      ensures PathFromTo(g, d'[v].path, s, v) && PathCost(g, d'[v].path) == d'[v].cost
    {
      if v == e.1 {
        assert Last(d[e.0].path + [e.1]) == e.1;
      }
    }
  }

  /** The search starts from the source alone, reached by the one-vertex walk at cost 0. */
  lemma StartIsSound(g: Graph, s: Vertex)
    requires s in g.vertices
    ensures Sound(g, s, map[s := Label(0, [s])])
  {
    assert PathFromTo(g, [s], s, s) && PathCost(g, [s]) == 0;
  }

  /** One relaxation labels a new vertex of the graph or lowers the sum of the labels. */
  lemma RelaxLowersMeasure(g: Graph, d: Table, e: Edge, all: set<Vertex>)
    requires e in g.edges && Improves(g, d, e) && e.1 in all && e.1 in g.vertices
    ensures var d' := d[e.1 := Relaxed(g, d, e)];
      || |all - d'.Keys| < |all - d.Keys|
      || (|all - d'.Keys| == |all - d.Keys| && LabelSum(g.vertices, d') < LabelSum(g.vertices, d))
  {
    var d' := d[e.1 := Relaxed(g, d, e)];
    if e.1 in d {
      assert d'.Keys == d.Keys;
      LabelSumDecreases(g.vertices, d, e.1, Relaxed(g, d, e));
    } else {
      assert d'.Keys == d.Keys + {e.1};
      FewerUnlabelled(all, d.Keys, e.1);
    }
  }

  /**
   * Relaxes improving edges from the single label `s: 0` until none is left;
   * every label of the result is realised by a walk and no edge improves it.
   */
  method Settle(g: Graph, s: Vertex) returns (d: Table)
    requires WellFormed(g) && s in g.vertices
    ensures Sound(g, s, d) && Settled(g, d)
  {
    var all := set v | v in g.vertices;
    d := map[s := Label(0, [s])];
    StartIsSound(g, s);
    while exists e :: e in g.edges && Improves(g, d, e)
      invariant Sound(g, s, d)
      decreases |all - d.Keys|, LabelSum(g.vertices, d)
    {
      var e :| e in g.edges && Improves(g, d, e);
      RelaxKeepsSound(g, s, d, e);
      RelaxLowersMeasure(g, d, e, all);
      d := d[e.1 := Relaxed(g, d, e)];
    }
  }

  /**
   * A cheapest walk from `s` to `t`, or None exactly when there is no walk
   * (networkx raises `NodeNotFound` or `NetworkXNoPath` in that case).
   */
  method CheapestWalk(g: Graph, s: Vertex, t: Vertex) returns (r: Option<seq<Vertex>>)
    requires WellFormed(g)
    ensures r.Some? ==> PathFromTo(g, r.value, s, t)
    ensures r.Some? ==> forall p :: PathFromTo(g, p, s, t) ==> PathCost(g, r.value) <= PathCost(g, p)
    ensures r.None? <==> !Reachable(g, s, t)
  {
    if s !in g.vertices {
      return None;
    }
    var d := Settle(g, s);
    if t in d {
      r := Some(d[t].path);
      forall p | PathFromTo(g, p, s, t)
        ensures PathCost(g, r.value) <= PathCost(g, p)
      {
        SettledIsOptimal(g, s, d, p);
      }
    } else {
      r := None;
      forall p | PathFromTo(g, p, s, t)
        ensures false
      {
        SettledIsOptimal(g, s, d, p);
      }
    }
  }
}
