/**
  Dependency-graph transformations: attaching neighbour and link objects to
  each node for hover highlighting, collapsing an endpoint graph to a service
  graph, and the label and caption decisions made when a node is painted.

  Node ids are tab-separated paths; a service node's id is the first two
  segments, and an endpoint node's id extends its service's id.
 */
module DependencyGraph {
  import opened Seqs
  import Text

  /** A call edge between two node ids. */
  datatype Link = Link(source: string, target: string)

  /**
    A graph node: `group` is the id of the service node it belongs to,
    `dependencies` the ids it calls and `linkInBetween` its outgoing edges.
   */
  datatype Node = Node(
    id: string,
    group: string,
    name: string,
    dependencies: seq<string>,
    linkInBetween: seq<Link>)

  datatype Graph = Graph(nodes: seq<Node>, links: seq<Link>)

  /** A node with its highlight neighbours and the graph's link objects of its edges. */
  datatype ProcessedNode = ProcessedNode(node: Node, highlight: seq<Option<Node>>, links: seq<Link>)

  datatype ProcessedGraph = ProcessedGraph(nodes: seq<ProcessedNode>, links: seq<Link>)

  const NewLine: char := '\n'

  function Ids(nodes: seq<Node>): (r: seq<string>)
    ensures |r| == |nodes| && forall i :: 0 <= i < |nodes| ==> r[i] == nodes[i].id
  {
    Project(nodes, (n: Node) => n.id)
  }

  /** `nodes.find((n) => n.id === id)`: the first node with that id, if any. */
  function FindNode(nodes: seq<Node>, id: string): (r: Option<Node>)
    ensures r.None? <==> forall i :: 0 <= i < |nodes| ==> nodes[i].id != id
    ensures r.Some? ==> exists i :: 0 <= i < |nodes| && nodes[i] == r.value && r.value.id == id
                                    && forall j :: 0 <= j < i ==> nodes[j].id != id
  {
    var ids := Ids(nodes);
    match IndexOf(ids, id)
    case Some(i) => Some(nodes[i])
    case None =>
      assert forall i :: 0 <= i < |nodes| ==> nodes[i].id != id by {
        forall i | 0 <= i < |nodes| ensures nodes[i].id != id {
          assert ids[i] == nodes[i].id;
        }
      }
      None
  }

  /**
    For each of a node's edges in order, the graph's link with the same source
    and target, skipping edges the graph does not have.
   */
  function FoundLinks(edges: seq<Link>, links: seq<Link>): (r: seq<Link>)
    ensures forall l :: l in r <==> l in edges && l in links
    ensures |r| <= |edges|
    decreases |edges|
  {
    if |edges| == 0 then []
    else
      var e := edges[|edges| - 1];
      assert edges == edges[..|edges| - 1] + [e];
      var found := match IndexOf(links, e)
        case Some(i) => [links[i]]
        case None => [];
      FoundLinks(edges[..|edges| - 1], links) + found
  }

  /** A single edge yields the graph's matching link, which equals the edge, or nothing. */
  lemma FoundLinksSingle(e: Link, links: seq<Link>)
    ensures FoundLinks([e], links) == if e in links then [e] else []
  {
  }

  /** Links are found edge by edge, in the order of the node's edges. */
  lemma {:induction false} FoundLinksConcat(a: seq<Link>, b: seq<Link>, links: seq<Link>)
    ensures FoundLinks(a + b, links) == FoundLinks(a, links) + FoundLinks(b, links)
    decreases |b|
  {
    if |b| == 0 {
      assert a + b == a;
    } else {
      var p, e := b[..|b| - 1], b[|b| - 1];
      assert b == p + [e];
      AppendAssociative(a, p, [e]);
      FoundLinksConcat(a, p, links);
      FoundLinksConcatStep(a, p, e, links);
    }
  }

  lemma FoundLinksSnoc(p: seq<Link>, e: Link, links: seq<Link>)
    ensures FoundLinks(p + [e], links) == FoundLinks(p, links) + (if e in links then [e] else [])
  {
    assert (p + [e])[..|p + [e]| - 1] == p;
  }

  lemma FoundLinksConcatStep(a: seq<Link>, p: seq<Link>, e: Link, links: seq<Link>)
    requires FoundLinks(a + p, links) == FoundLinks(a, links) + FoundLinks(p, links)
    ensures FoundLinks((a + p) + [e], links) == FoundLinks(a, links) + FoundLinks(p + [e], links)
  {
    var last := if e in links then [e] else [];
    FoundLinksSnoc(a + p, e, links);
    FoundLinksSnoc(p, e, links);
    AppendAssociative(FoundLinks(a, links), FoundLinks(p, links), last);
  }

  /**
    `ProcessData`: the same nodes and links, each node extended with the
    nodes its dependencies name (`None` where no node has that id) and the
    graph's links matching its edges.
   */
  function ProcessData(g: Graph): (r: ProcessedGraph)
    ensures r.links == g.links
    ensures |r.nodes| == |g.nodes|
    ensures forall i :: 0 <= i < |g.nodes| ==> r.nodes[i].node == g.nodes[i]
    ensures forall i :: 0 <= i < |g.nodes| ==>
      |r.nodes[i].highlight| == |g.nodes[i].dependencies|
    ensures forall i, j :: 0 <= i < |g.nodes| && 0 <= j < |r.nodes[i].highlight| ==>
      (r.nodes[i].highlight[j].Some? ==>
         r.nodes[i].highlight[j].value in g.nodes && r.nodes[i].highlight[j].value.id == g.nodes[i].dependencies[j])
      && (r.nodes[i].highlight[j].None? <==> g.nodes[i].dependencies[j] !in Ids(g.nodes))
    ensures forall i, j :: 0 <= i < |g.nodes| && 0 <= j < |r.nodes[i].highlight| ==>
      r.nodes[i].highlight[j] == FindNode(g.nodes, g.nodes[i].dependencies[j])
    ensures forall i, l :: 0 <= i < |g.nodes| ==>
      (l in r.nodes[i].links <==> l in g.links && l in g.nodes[i].linkInBetween)
    ensures forall i :: 0 <= i < |g.nodes| ==> r.nodes[i].links == FoundLinks(g.nodes[i].linkInBetween, g.links)
  {
    ProcessedGraph(
      seq(|g.nodes|, i requires 0 <= i < |g.nodes| =>
        var n := g.nodes[i];
        ProcessedNode(
          n,
          seq(|n.dependencies|, j requires 0 <= j < |n.dependencies| => FindNode(g.nodes, n.dependencies[j])),
          FoundLinks(n.linkInBetween, g.links))),
      g.links)
  }

  /** A service id: the first two tab-separated segments of a node id. */
  function ServiceId(id: string): (r: string)
    ensures r <= id
    ensures |Text.Split(r, Text.Tab)| <= 2
    ensures |Text.Split(id, Text.Tab)| <= 2 ==> r == id
    ensures |Text.Split(id, Text.Tab)| > 2 ==> |Text.Split(r, Text.Tab)| == 2
    ensures |Text.Split(r, Text.Tab)| <= |Text.Split(id, Text.Tab)|
            && Text.Split(r, Text.Tab) == Text.Split(id, Text.Tab)[..|Text.Split(r, Text.Tab)|]
  {
    Text.TakeSegments(id, Text.Tab, 2)
  }

  /** The service-level edge an endpoint-level edge contributes. */
  function ServiceLink(l: Link): Link {
    Link(ServiceId(l.source), ServiceId(l.target))
  }

  function ServiceLinksOf(links: seq<Link>): (r: seq<Link>)
    ensures |r| == |links| && forall i :: 0 <= i < |links| ==> r[i] == ServiceLink(links[i])
  {
    seq(|links|, i requires 0 <= i < |links| => ServiceLink(links[i]))
  }

  /** No node id of the edge contains a line break. */
  predicate NoLineBreak(l: Link) {
    NewLine !in l.source && NewLine !in l.target
  }

  /** The string a link is stored as in the de-duplicating set: `${source}\n${target}`. */
  function Encode(l: Link): (r: string)
    ensures NewLine in r && |r| == |l.source| + 1 + |l.target|
    ensures NoLineBreak(l) ==> Text.Split(r, NewLine) == [l.source, l.target]
  {
    SplitJoined(l);
    l.source + [NewLine] + l.target
  }

  lemma SplitJoined(l: Link)
    ensures (l.source + [NewLine] + l.target)[|l.source|] == NewLine
    ensures NoLineBreak(l) ==> Text.Split(l.source + [NewLine] + l.target, NewLine) == [l.source, l.target]
  {
    if NoLineBreak(l) {
      Text.SplitConcat(l.source, l.target, NewLine);
      Text.SplitNoSeparator(l.source, NewLine);
      Text.SplitNoSeparator(l.target, NewLine);
    }
  }

  /** `key.split("\n")` destructured as `[source, target]`. */
  function Decode(key: string): (r: Link)
    requires NewLine in key
    ensures NoLineBreak(r)
    ensures Encode(r) <= key
    ensures NewLine !in key[|Encode(r)|..] ==> Encode(r) == key
    ensures |Encode(r)| < |key| ==> key[|Encode(r)|] == NewLine
  {
    var parts := Text.Split(key, NewLine);
    Text.SplitFirstTwo(key, NewLine);
    Link(parts[0], parts[1])
  }

  /** Encoding round-trips exactly for ids without line breaks. */
  lemma DecodeEncode(l: Link)
    requires NoLineBreak(l)
    ensures Decode(Encode(l)) == l
  {
  }

  function Keys(links: seq<Link>): (r: seq<string>)
    ensures |r| == |links| && forall i :: 0 <= i < |links| ==> r[i] == Encode(ServiceLink(links[i]))
  {
    Project(links, (l: Link) => Encode(ServiceLink(l)))
  }

  function DecodeAll(keys: seq<string>): (r: seq<Link>)
    requires forall i :: 0 <= i < |keys| ==> NewLine in keys[i]
    ensures |r| == |keys| && forall i :: 0 <= i < |keys| ==> r[i] == Decode(keys[i])
  {
    seq(|keys|, i requires 0 <= i < |keys| => Decode(keys[i]))
  }

  /** The edge's key begins the key of some truncated endpoint edge. */
  ghost predicate ReadsBackFrom(d: Link, links: seq<Link>) {
    exists j :: 0 <= j < |links| && Encode(d) <= Encode(ServiceLink(links[j]))
  }

  /**
    The de-duplicated service-level edges: each endpoint edge truncated to
    service ids, encoded as a string, put in a `Set`, and decoded again.
   */
  function ServiceLinks(links: seq<Link>): (r: seq<Link>)
    ensures |r| <= |links|
    ensures forall i :: 0 <= i < |r| ==> NoLineBreak(r[i])
    ensures forall i :: 0 <= i < |r| ==> ReadsBackFrom(r[i], links)
  {
    var keys := Distinct(Keys(links));
    DistinctKeysHaveNewLine(links);
    DecodeAllOrigin(keys, links);
    DecodeAll(keys)
  }

  /** Each decoded key reads back a prefix of the key of some truncated endpoint edge. */
  lemma DecodeAllOrigin(keys: seq<string>, links: seq<Link>)
    requires forall i :: 0 <= i < |keys| ==> NewLine in keys[i]
    requires forall k :: k in keys ==> k in Keys(links)
    ensures forall i :: 0 <= i < |keys| ==> ReadsBackFrom(DecodeAll(keys)[i], links)
  {
    forall i | 0 <= i < |keys| ensures ReadsBackFrom(DecodeAll(keys)[i], links) {
      assert keys[i] in Keys(links);
      var j :| 0 <= j < |links| && Keys(links)[j] == keys[i];
      assert Encode(Decode(keys[i])) <= Encode(ServiceLink(links[j]));
    }
  }

  /** No id of any link contains a line break. */
  ghost predicate NoLineBreaks(links: seq<Link>) {
    forall i :: 0 <= i < |links| ==> NoLineBreak(links[i])
  }

  /**
    When no id contains a line break, the service edges are exactly the
    distinct truncated endpoint edges, in order of first occurrence.
   */
  lemma {:induction false} ServiceLinksAreDistinctTruncations(links: seq<Link>)
    requires NoLineBreaks(links)
    ensures ServiceLinks(links) == Distinct(ServiceLinksOf(links))
    decreases |links|
  {
    if |links| > 0 {
      var p := links[..|links| - 1];
      var l := links[|links| - 1];
      assert links == p + [l];
      assert NoLineBreaks(p) && NoLineBreak(l);
      ServiceLinksAreDistinctTruncations(p);
      ServiceLinksStep(p, l);
    }
  }

  /** The inductive step of `ServiceLinksAreDistinctTruncations`: one more endpoint edge. */
  lemma ServiceLinksStep(p: seq<Link>, l: Link)
    requires NoLineBreaks(p) && NoLineBreak(l)
    requires ServiceLinks(p) == Distinct(ServiceLinksOf(p))
    ensures ServiceLinks(p + [l]) == Distinct(ServiceLinksOf(p + [l]))
  {
    var sl := ServiceLink(l);
    var k := Encode(sl);
    KeysSnoc(p, l);
    ServiceLinksOfSnoc(p, l);
    DistinctSnoc(Keys(p), k);
    DistinctSnoc(ServiceLinksOf(p), sl);
    NoLineBreakTruncated(l);
    DecodeEncode(sl);
    EncodeInjective(p, l);
    var dk := Distinct(Keys(p));
    DistinctKeysHaveNewLine(p);
    if k !in dk {
      DecodeAllSnoc(dk, k);
    }
  }

  lemma KeysSnoc(p: seq<Link>, l: Link)
    ensures Keys(p + [l]) == Keys(p) + [Encode(ServiceLink(l))]
  {
  }

  lemma ServiceLinksOfSnoc(p: seq<Link>, l: Link)
    ensures ServiceLinksOf(p + [l]) == ServiceLinksOf(p) + [ServiceLink(l)]
  {
  }

  lemma DistinctKeysHaveNewLine(links: seq<Link>)
    ensures forall i :: 0 <= i < |Distinct(Keys(links))| ==> NewLine in Distinct(Keys(links))[i]
  {
    var keys := Distinct(Keys(links));
    forall i | 0 <= i < |keys| ensures NewLine in keys[i] {
      assert keys[i] in Keys(links);
    }
  }

  lemma DecodeAllSnoc(keys: seq<string>, k: string)
    requires forall i :: 0 <= i < |keys| ==> NewLine in keys[i]
    requires NewLine in k
    ensures forall i :: 0 <= i < |keys + [k]| ==> NewLine in (keys + [k])[i]
    ensures DecodeAll(keys + [k]) == DecodeAll(keys) + [Decode(k)]
  {
    assert forall i :: 0 <= i < |keys + [k]| ==> NewLine in (keys + [k])[i] by {
      forall i | 0 <= i < |keys + [k]| ensures NewLine in (keys + [k])[i] {
        if i < |keys| {
          assert (keys + [k])[i] == keys[i];
        }
      }
    }
  }

  /** Truncating ids keeps them free of line breaks. */
  lemma NoLineBreakTruncated(l: Link)
    requires NoLineBreak(l)
    ensures NoLineBreak(ServiceLink(l))
  {
    assert ServiceId(l.source) <= l.source;
    assert ServiceId(l.target) <= l.target;
  }

  /** For ids without line breaks, an edge's key is already in the set exactly when the edge is. */
  lemma EncodeInjective(p: seq<Link>, l: Link)
    requires NoLineBreaks(p) && NoLineBreak(l)
    ensures Encode(ServiceLink(l)) in Keys(p) <==> ServiceLink(l) in ServiceLinksOf(p)
  {
    NoLineBreakTruncated(l);
    DecodeEncode(ServiceLink(l));
    if Encode(ServiceLink(l)) in Keys(p) {
      var i :| 0 <= i < |p| && Keys(p)[i] == Encode(ServiceLink(l));
      NoLineBreakTruncated(p[i]);
      DecodeEncode(ServiceLink(p[i]));
      assert ServiceLinksOf(p)[i] == ServiceLink(l);
    }
    if ServiceLink(l) in ServiceLinksOf(p) {
      var i :| 0 <= i < |p| && ServiceLinksOf(p)[i] == ServiceLink(l);
      assert Keys(p)[i] == Encode(ServiceLink(l));
    }
  }

  /**
    Every service edge comes from some endpoint edge, every endpoint edge
    yields a service edge, and no service edge is listed twice.
   */
  lemma ServiceLinksCoverage(links: seq<Link>)
    requires NoLineBreaks(links)
    ensures forall s :: s in ServiceLinks(links) ==> exists l :: l in links && s == ServiceLink(l)
    ensures forall l :: l in links ==> ServiceLink(l) in ServiceLinks(links)
    ensures NoDuplicates(ServiceLinks(links))
  {
    ServiceLinksAreDistinctTruncations(links);
    DistinctTruncationsCover(links, ServiceLinks(links));
  }

  /** The coverage facts for any sequence equal to the distinct truncated edges. */
  lemma DistinctTruncationsCover(links: seq<Link>, r: seq<Link>)
    requires r == Distinct(ServiceLinksOf(links))
    ensures forall s :: s in r ==> exists l :: l in links && s == ServiceLink(l)
    ensures forall l :: l in links ==> ServiceLink(l) in r
    ensures NoDuplicates(r)
  {
    var sl := ServiceLinksOf(links);
    forall s | s in r ensures exists l :: l in links && s == ServiceLink(l) {
      var i :| 0 <= i < |sl| && sl[i] == s;
      assert links[i] in links;
    }
    forall l | l in links ensures ServiceLink(l) in r {
      var i :| 0 <= i < |links| && links[i] == l;
      assert sl[i] == ServiceLink(l);
    }
  }

  /** A node is a service node when it is its own group. */
  predicate IsService(n: Node) {
    n.id == n.group
  }

  /** `nodes.filter((n) => n.id === n.group)`. */
  function ServiceNodes(nodes: seq<Node>): (r: seq<Node>)
    ensures forall n :: n in r <==> n in nodes && IsService(n)
    ensures |r| <= |nodes|
    decreases |nodes|
  {
    if |nodes| == 0 then []
    else
      var n := nodes[|nodes| - 1];
      assert nodes == nodes[..|nodes| - 1] + [n];
      ServiceNodes(nodes[..|nodes| - 1]) + (if IsService(n) then [n] else [])
  }

  /** Filtering keeps the original order: it distributes over concatenation. */
  lemma {:induction false} ServiceNodesConcat(a: seq<Node>, b: seq<Node>)
    ensures ServiceNodes(a + b) == ServiceNodes(a) + ServiceNodes(b)
    decreases |b|
  {
    if |b| == 0 {
      assert a + b == a;
    } else {
      var p, n := b[..|b| - 1], b[|b| - 1];
      assert b == p + [n];
      AppendAssociative(a, p, [n]);
      ServiceNodesConcat(a, p);
      ServiceNodesConcatStep(a, p, n);
    }
  }

  lemma ServiceNodesSnoc(p: seq<Node>, n: Node)
    ensures ServiceNodes(p + [n]) == ServiceNodes(p) + (if IsService(n) then [n] else [])
  {
    assert (p + [n])[..|p + [n]| - 1] == p;
  }

  lemma ServiceNodesConcatStep(a: seq<Node>, p: seq<Node>, n: Node)
    requires ServiceNodes(a + p) == ServiceNodes(a) + ServiceNodes(p)
    ensures ServiceNodes((a + p) + [n]) == ServiceNodes(a) + ServiceNodes(p + [n])
  {
    var last := if IsService(n) then [n] else [];
    ServiceNodesSnoc(a + p, n);
    ServiceNodesSnoc(p, n);
    AppendAssociative(ServiceNodes(a), ServiceNodes(p), last);
  }

  /** `links.filter((l) => l.source === id)`. */
  function OutgoingLinks(links: seq<Link>, id: string): (r: seq<Link>)
    ensures forall l :: l in r <==> l in links && l.source == id
    ensures |r| <= |links|
    decreases |links|
  {
    if |links| == 0 then []
    else
      var l := links[|links| - 1];
      assert links == links[..|links| - 1] + [l];
      OutgoingLinks(links[..|links| - 1], id) + (if l.source == id then [l] else [])
  }

  /** A single edge is kept exactly when it leaves the node. */
  lemma OutgoingLinksSingle(l: Link, id: string)
    ensures OutgoingLinks([l], id) == if l.source == id then [l] else []
  {
  }

  /** Filtering keeps the order of the service edges: it distributes over concatenation. */
  lemma {:induction false} OutgoingLinksConcat(a: seq<Link>, b: seq<Link>, id: string)
    ensures OutgoingLinks(a + b, id) == OutgoingLinks(a, id) + OutgoingLinks(b, id)
    decreases |b|
  {
    if |b| == 0 {
      assert a + b == a;
    } else {
      var p, l := b[..|b| - 1], b[|b| - 1];
      assert b == p + [l];
      AppendAssociative(a, p, [l]);
      OutgoingLinksConcat(a, p, id);
      OutgoingLinksConcatStep(a, p, l, id);
    }
  }

  lemma OutgoingLinksConcatStep(a: seq<Link>, p: seq<Link>, l: Link, id: string)
    requires OutgoingLinks(a + p, id) == OutgoingLinks(a, id) + OutgoingLinks(p, id)
    ensures OutgoingLinks((a + p) + [l], id) == OutgoingLinks(a, id) + OutgoingLinks(p + [l], id)
  {
    var last := if l.source == id then [l] else [];
    OutgoingLinksSnoc(a + p, l, id);
    OutgoingLinksSnoc(p, l, id);
    AppendAssociative(OutgoingLinks(a, id), OutgoingLinks(p, id), last);
  }

  lemma OutgoingLinksSnoc(p: seq<Link>, l: Link, id: string)
    ensures OutgoingLinks(p + [l], id) == OutgoingLinks(p, id) + (if l.source == id then [l] else [])
  {
    assert (p + [l])[..|p + [l]| - 1] == p;
  }

  /** A service node rebuilt against the service edges. */
  function WithAdjacency(n: Node, links: seq<Link>): (r: Node)
    ensures r.id == n.id && r.group == n.group && r.name == n.name
    ensures forall l :: l in r.linkInBetween <==> l in links && l.source == n.id
    ensures r.linkInBetween == OutgoingLinks(links, n.id)
    ensures |r.dependencies| == |r.linkInBetween|
    ensures forall j :: 0 <= j < |r.dependencies| ==> r.dependencies[j] == r.linkInBetween[j].target
  {
    var out := OutgoingLinks(links, n.id);
    n.(linkInBetween := out,
       dependencies := seq(|out|, j requires 0 <= j < |out| => out[j].target))
  }

  /**
    `toServiceDependencyGraph`: the service nodes of an endpoint graph, in
    order, each with its outgoing service edges and their targets, over the
    de-duplicated service edges.
   */
  function ToServiceDependencyGraph(g: Graph): (r: Graph)
    ensures r.links == ServiceLinks(g.links)
    ensures |r.nodes| == |ServiceNodes(g.nodes)|
    ensures forall i :: 0 <= i < |r.nodes| ==>
      var n := ServiceNodes(g.nodes)[i];
      r.nodes[i].id == n.id && r.nodes[i].group == n.group && r.nodes[i].name == n.name
    ensures forall i, l :: 0 <= i < |r.nodes| ==>
      (l in r.nodes[i].linkInBetween <==> l in r.links && l.source == r.nodes[i].id)
    ensures forall i :: 0 <= i < |r.nodes| ==> r.nodes[i].linkInBetween == OutgoingLinks(r.links, r.nodes[i].id)
    ensures forall i :: 0 <= i < |r.nodes| ==>
      |r.nodes[i].dependencies| == |r.nodes[i].linkInBetween|
      && forall j :: 0 <= j < |r.nodes[i].dependencies| ==>
           r.nodes[i].dependencies[j] == r.nodes[i].linkInBetween[j].target
  {
    Graph(AllWithAdjacency(ServiceNodes(g.nodes), ServiceLinks(g.links)), ServiceLinks(g.links))
  }

  /** Every node rebuilt against the same edges, in order. */
  function AllWithAdjacency(nodes: seq<Node>, links: seq<Link>): (r: seq<Node>)
    ensures |r| == |nodes|
    ensures forall i :: 0 <= i < |nodes| ==> r[i] == WithAdjacency(nodes[i], links)
  {
    seq(|nodes|, i requires 0 <= i < |nodes| => WithAdjacency(nodes[i], links))
  }

  /** Every node of the service graph is a service node of the endpoint graph. */
  lemma ServiceGraphNodesAreServices(g: Graph, i: nat)
    requires i < |ToServiceDependencyGraph(g).nodes|
    ensures IsService(ToServiceDependencyGraph(g).nodes[i])
    ensures exists n :: n in g.nodes && IsService(n) && n.id == ToServiceDependencyGraph(g).nodes[i].id
  {
    var n := ServiceNodes(g.nodes)[i];
    assert n in ServiceNodes(g.nodes);
  }

  const ExternalLabel: string := "EX"
  const ServiceLabel: string := "SRV"
  const EndpointLabel: string := "EP"

  /** The kind label painted on a node: external caller, service, or endpoint. */
  function NodeLabel(n: Node): (r: string)
    ensures r == ExternalLabel <==> n.id == "null"
    ensures r == ServiceLabel <==> n.id != "null" && IsService(n)
    ensures r == EndpointLabel <==> n.id != "null" && !IsService(n)
  {
    if n.id == "null" then ExternalLabel
    else if IsService(n) then ServiceLabel
    else EndpointLabel
  }

  const MaxCaptionLength: nat := 30
  const KeptEnds: nat := 15
  const Ellipsis: string := " ... "

  /** A long endpoint name shortened to its first and last fifteen characters. */
  function Shorten(name: string): (r: string)
    ensures |name| <= MaxCaptionLength ==> r == name
    ensures |name| > MaxCaptionLength ==>
      |r| == 2 * KeptEnds + |Ellipsis|
      && r[..KeptEnds] == name[..KeptEnds]
      && r[KeptEnds..KeptEnds + |Ellipsis|] == Ellipsis
      && r[KeptEnds + |Ellipsis|..] == name[|name| - KeptEnds..]
    ensures |r| <= 2 * KeptEnds + |Ellipsis|
  {
    if |name| > MaxCaptionLength then
      name[..KeptEnds] + Ellipsis + name[|name| - KeptEnds..]
    else name
  }

  /** The caption painted under a node: the name, shortened for endpoint nodes. */
  function Caption(n: Node): (r: string)
    ensures r != n.name ==> NodeLabel(n) == EndpointLabel && |n.name| > MaxCaptionLength
    ensures NodeLabel(n) != EndpointLabel ==> r == n.name
    ensures NodeLabel(n) == EndpointLabel ==> |r| <= 2 * KeptEnds + |Ellipsis|
    ensures NodeLabel(n) == EndpointLabel && |n.name| > MaxCaptionLength ==>
      |r| == 2 * KeptEnds + |Ellipsis| && r[..KeptEnds] == n.name[..KeptEnds]
      && r[KeptEnds..KeptEnds + |Ellipsis|] == Ellipsis && r[|r| - KeptEnds..] == n.name[|n.name| - KeptEnds..]
  {
    if NodeLabel(n) != EndpointLabel then n.name else Shorten(n.name)
  }
}
