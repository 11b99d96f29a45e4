/**
  The data logic of the version-comparison page: pairing per-service metric
  records of two tagged versions into diff records, the guards on creating
  and deleting a tagged version, and the message shown for the relationship
  between two selected services.
 */
module Diff {
  import opened Seqs
  import DependencyGraph

  /** Metric numbers are only copied, never computed with, so they are plain reals. */
  type Metric = real

  /** Service cohesion (the three figures the comparison shows). */
  datatype Cohesion = Cohesion(dataCohesion: Metric, usageCohesion: Metric, totalInterfaceCohesion: Metric)

  /** Service coupling: absolute importance, dependence and criticality. */
  datatype Coupling = Coupling(ais: Metric, ads: Metric, acs: Metric)

  /** Service instability. */
  datatype Instability = Instability(dependingBy: Metric, dependingOn: Metric, instability: Metric)

  const CohesionZero := Cohesion(0.0, 0.0, 0.0)
  const CouplingZero := Coupling(0.0, 0.0, 0.0)
  const InstabilityZero := Instability(0.0, 0.0, 0.0)

  /** One service's metrics in one version. */
  datatype ServiceMetric<M> = ServiceMetric(uniqueServiceName: string, name: string, metrics: M)

  /** One service's metrics in both versions, side by side. */
  datatype MetricDiff<M> = MetricDiff(uniqueServiceName: string, name: string, v1: M, v2: M)

  function Names<M>(data: seq<ServiceMetric<M>>): (r: seq<string>)
    ensures |r| == |data| && forall i :: 0 <= i < |data| ==> r[i] == data[i].name
  {
    Project(data, (d: ServiceMetric<M>) => d.name)
  }

  function DiffNames<M>(diff: seq<MetricDiff<M>>): (r: seq<string>)
    ensures |r| == |diff| && forall i :: 0 <= i < |diff| ==> r[i] == diff[i].name
  {
    Project(diff, (d: MetricDiff<M>) => d.name)
  }

  /**
    The metrics of the first record named `name` (`data.find(item => item.name === name)`),
    or `zero` when no record has that name.
   */
  function Lookup<M>(data: seq<ServiceMetric<M>>, name: string, zero: M): (r: M)
    ensures (exists i :: 0 <= i < |data| && data[i].name == name) ==>
              exists i :: 0 <= i < |data| && data[i].name == name && r == data[i].metrics
                          && forall j :: 0 <= j < i ==> data[j].name != name
    ensures (forall i :: 0 <= i < |data| ==> data[i].name != name) ==> r == zero
  {
    var names := Names(data);
    match IndexOf(names, name)
    case Some(i) => data[i].metrics
    case None =>
      assert forall i :: 0 <= i < |data| ==> data[i].name != name by {
        forall i | 0 <= i < |data| ensures data[i].name != name {
          assert names[i] == data[i].name;
        }
      }
      zero
  }

  /**
    Pairs the records of two versions: one diff record per distinct service
    name of either version, in the iteration order of the `Set` of all names,
    carrying the first matching record's metrics of each version or `zero`.
   */
  function Merge<M>(v1: seq<ServiceMetric<M>>, v2: seq<ServiceMetric<M>>, zero: M): (r: seq<MetricDiff<M>>)
    ensures DiffNames(r) == Distinct(Names(v1) + Names(v2))
    ensures forall i :: 0 <= i < |r| ==> r[i].uniqueServiceName == r[i].name
    ensures forall i :: 0 <= i < |r| ==> r[i].v1 == Lookup(v1, r[i].name, zero)
    ensures forall i :: 0 <= i < |r| ==> r[i].v2 == Lookup(v2, r[i].name, zero)
  {
    var names := Distinct(Names(v1) + Names(v2));
    var r := seq(|names|, i requires 0 <= i < |names| =>
      MetricDiff(names[i], names[i], Lookup(v1, names[i], zero), Lookup(v2, names[i], zero)));
    assert DiffNames(r) == names;
    r
  }

  /** Index of the diff record for `name`, if any. */
  ghost predicate RecordFor<M>(r: seq<MetricDiff<M>>, i: int, name: string) {
    0 <= i < |r| && r[i].name == name
  }

  /** The merge has exactly one record per name occurring in either version and no other records. */
  lemma MergeCoverage<M>(v1: seq<ServiceMetric<M>>, v2: seq<ServiceMetric<M>>, zero: M, name: string)
    ensures (exists i :: RecordFor(Merge(v1, v2, zero), i, name)) <==> name in Names(v1) || name in Names(v2)
    ensures forall i, j :: RecordFor(Merge(v1, v2, zero), i, name) && RecordFor(Merge(v1, v2, zero), j, name) ==> i == j
  {
    var r := Merge(v1, v2, zero);
    var names := DiffNames(r);
    if exists i :: RecordFor(r, i, name) {
      var i :| RecordFor(r, i, name);
      assert names[i] == name;
      assert name in Names(v1) + Names(v2);
    }
    if name in Names(v1) || name in Names(v2) {
      assert name in Names(v1) + Names(v2);
      assert name in names;
      var i :| 0 <= i < |names| && names[i] == name;
      assert RecordFor(r, i, name);
    }
    forall i, j | RecordFor(r, i, name) && RecordFor(r, j, name) ensures i == j {
      assert names[i] == names[j];
    }
  }

  /**
    The records come in the order: names of the first version by first
    occurrence, then the names that occur only in the second version, by first
    occurrence there.
   */
  lemma MergeOrder<M>(v1: seq<ServiceMetric<M>>, v2: seq<ServiceMetric<M>>, zero: M)
    ensures DiffNames(Merge(v1, v2, zero)) == Distinct(Names(v1)) + Without(Distinct(Names(v2)), Names(v1))
  {
    DistinctConcat(Names(v1), Names(v2));
  }

  /**
    A service missing from a version gets all-`zero` metrics for it; a service
    present gets the metrics of its first record there.
   */
  lemma MergeFirstMatchOrZero<M>(v1: seq<ServiceMetric<M>>, v2: seq<ServiceMetric<M>>, zero: M, i: nat)
    requires i < |Merge(v1, v2, zero)|
    ensures var d := Merge(v1, v2, zero)[i];
      (d.name !in Names(v1) ==> d.v1 == zero) && (d.name !in Names(v2) ==> d.v2 == zero)
    ensures var d := Merge(v1, v2, zero)[i];
      d.name in Names(v1) ==>
        IndexOf(Names(v1), d.name).Some? && d.v1 == v1[IndexOf(Names(v1), d.name).value].metrics
    ensures var d := Merge(v1, v2, zero)[i];
      d.name in Names(v2) ==>
        IndexOf(Names(v2), d.name).Some? && d.v2 == v2[IndexOf(Names(v2), d.name).value].metrics
  {
  }

  /** Swapping the versions swaps the two sides of every record with the same name. */
  lemma MergeSymmetric<M>(a: seq<ServiceMetric<M>>, b: seq<ServiceMetric<M>>, zero: M, i: nat, j: nat)
    requires i < |Merge(a, b, zero)| && j < |Merge(b, a, zero)|
    requires Merge(a, b, zero)[i].name == Merge(b, a, zero)[j].name
    ensures Merge(a, b, zero)[i].v1 == Merge(b, a, zero)[j].v2
    ensures Merge(a, b, zero)[i].v2 == Merge(b, a, zero)[j].v1
  {
  }

  /** Both sides agree when a version is compared with itself; no records give no diff. */
  lemma MergeSelf<M>(a: seq<ServiceMetric<M>>, zero: M)
    ensures forall i :: 0 <= i < |Merge(a, a, zero)| ==> Merge(a, a, zero)[i].v1 == Merge(a, a, zero)[i].v2
    ensures Merge([], [], zero) == []
  {
    assert DiffNames(Merge([], [], zero)) == Distinct([]);
  }

  /** `mergeCohesionData`: services missing from a version show zero cohesion for it. */
  function MergeCohesion(v1: seq<ServiceMetric<Cohesion>>, v2: seq<ServiceMetric<Cohesion>>): (r: seq<MetricDiff<Cohesion>>)
    ensures DiffNames(r) == Distinct(Names(v1) + Names(v2))
    ensures forall i :: 0 <= i < |r| && r[i].name !in Names(v1) ==> r[i].v1 == CohesionZero
    ensures forall i :: 0 <= i < |r| && r[i].name !in Names(v2) ==> r[i].v2 == CohesionZero
    ensures forall i :: 0 <= i < |r| ==>
      r[i].uniqueServiceName == r[i].name
      && r[i].v1 == Lookup(v1, r[i].name, CohesionZero) && r[i].v2 == Lookup(v2, r[i].name, CohesionZero)
  {
    Merge(v1, v2, CohesionZero)
  }

  /** `mergeCouplingData`: services missing from a version show zero coupling for it. */
  function MergeCoupling(v1: seq<ServiceMetric<Coupling>>, v2: seq<ServiceMetric<Coupling>>): (r: seq<MetricDiff<Coupling>>)
    ensures DiffNames(r) == Distinct(Names(v1) + Names(v2))
    ensures forall i :: 0 <= i < |r| && r[i].name !in Names(v1) ==> r[i].v1 == CouplingZero
    ensures forall i :: 0 <= i < |r| && r[i].name !in Names(v2) ==> r[i].v2 == CouplingZero
    ensures forall i :: 0 <= i < |r| ==>
      r[i].uniqueServiceName == r[i].name
      && r[i].v1 == Lookup(v1, r[i].name, CouplingZero) && r[i].v2 == Lookup(v2, r[i].name, CouplingZero)
  {
    Merge(v1, v2, CouplingZero)
  }

  /** `mergeInstabilityData`: services missing from a version show zero instability for it. */
  function MergeInstability(v1: seq<ServiceMetric<Instability>>, v2: seq<ServiceMetric<Instability>>): (r: seq<MetricDiff<Instability>>)
    ensures DiffNames(r) == Distinct(Names(v1) + Names(v2))
    ensures forall i :: 0 <= i < |r| && r[i].name !in Names(v1) ==> r[i].v1 == InstabilityZero
    ensures forall i :: 0 <= i < |r| && r[i].name !in Names(v2) ==> r[i].v2 == InstabilityZero
    ensures forall i :: 0 <= i < |r| ==>
      r[i].uniqueServiceName == r[i].name
      && r[i].v1 == Lookup(v1, r[i].name, InstabilityZero) && r[i].v2 == Lookup(v2, r[i].name, InstabilityZero)
  {
    Merge(v1, v2, InstabilityZero)
  }

  /** The tag under which the page shows the live data; it is not a stored version. */
  const LatestVersion: string := "Latest"

  /**
    The tag whose stored data the delete button removes, or `None` when the
    request is skipped: no tag selected, or the live "Latest" view selected.
   */
  function DeleteTagRequest(tag: string): (r: Option<string>)
    ensures r.Some? <==> tag != "" && tag != LatestVersion
    ensures r.Some? ==> r.value == tag
  {
    if tag == "" || tag == LatestVersion then None else Some(tag)
  }

  /** What is stored when the latest data is saved as a new tagged version. */
  datatype TaggedDiffData = TaggedDiffData(
    tag: string,
    graphData: DependencyGraph.Graph,
    cohesionData: seq<ServiceMetric<Cohesion>>,
    couplingData: seq<ServiceMetric<Coupling>>,
    instabilityData: seq<ServiceMetric<Instability>>)

  /**
    `createNewVersion`: the data to store, or `None` when the latest graph has
    not been loaded or no version name was entered.
   */
  function CreateVersionRequest(
    latest: Option<DependencyGraph.Graph>,
    newVersion: string,
    cohesion: seq<ServiceMetric<Cohesion>>,
    coupling: seq<ServiceMetric<Coupling>>,
    instability: seq<ServiceMetric<Instability>>): (r: Option<TaggedDiffData>)
    ensures r.Some? <==> latest.Some? && newVersion != ""
    ensures r.Some? ==> r.value.tag == newVersion && r.value.graphData == latest.value
    ensures r.Some? ==> r.value.cohesionData == cohesion && r.value.couplingData == coupling
                        && r.value.instabilityData == instability
  {
    if latest.None? || newVersion == "" then None
    else Some(TaggedDiffData(newVersion, latest.value, cohesion, coupling, instability))
  }

  const NoMatchingServices: string := "no matching services in graph"
  const IndirectDependency: string := "indirect dependency"
  const NotExistMessage: string := "These two given services do not exist in this version."
  const NoDirectDependencyMessage: string := "These two given services do not have a direct dependency in this version."

  /** The explanation shown under the service-pair graph of one version. */
  function RelationshipMessage(relationship: string): (r: string)
    ensures relationship == NoMatchingServices ==> r == NotExistMessage
    ensures relationship == IndirectDependency ==> r == NoDirectDependencyMessage
    ensures r == "" <==> relationship != NoMatchingServices && relationship != IndirectDependency
  {
    if relationship == NoMatchingServices then NotExistMessage
    else if relationship == IndirectDependency then NoDirectDependencyMessage
    else ""
  }
}
