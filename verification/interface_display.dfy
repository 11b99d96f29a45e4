/**
  The schema listing of an endpoint's interface panel: the recorded request/
  response schemas are de-duplicated, ordered by status and recency, and
  labelled; user-tagged schemas are listed beside them; a radio index selects
  one entry of either list.
 */
module InterfaceDisplay {
  import opened Seqs
  import Text

  /**
    One recorded schema of an endpoint: response status, request and response
    schemas (either may be absent), and the time it was seen (epoch milliseconds).
   */
  datatype SchemaRecord = SchemaRecord(status: string, req: Option<string>, res: Option<string>, time: int)

  /** A recorded schema with the label shown in the list. */
  datatype ExistingSchema = ExistingSchema(schema: SchemaRecord, autoLabel: string)

  /** A schema the user saved under a label of their own. */
  datatype TaggedInterface = TaggedInterface(
    uniqueLabelName: string,
    userLabel: string,
    requestSchema: string,
    responseSchema: string,
    boundToSwagger: bool)

  /** The identity of a recorded schema: status, request and response, tab-separated, absent as "". */
  function Key(s: SchemaRecord): (r: string)
    ensures NoTabField(s) ==> Text.Split(r, Text.Tab) == [s.status, s.req.GetOr(""), s.res.GetOr("")]
  {
    KeySplits(s.status, s.req.GetOr(""), s.res.GetOr(""));
    s.status + [Text.Tab] + s.req.GetOr("") + [Text.Tab] + s.res.GetOr("")
  }

  /** No field of the record that goes into its key contains a tab. */
  predicate NoTabField(s: SchemaRecord) {
    Text.Tab !in s.status && Text.Tab !in s.req.GetOr("") && Text.Tab !in s.res.GetOr("")
  }

  lemma KeySplits(status: string, req: string, res: string)
    ensures Text.Tab !in status && Text.Tab !in req && Text.Tab !in res ==>
      Text.Split(status + [Text.Tab] + req + [Text.Tab] + res, Text.Tab) == [status, req, res]
  {
    if Text.Tab !in status && Text.Tab !in req && Text.Tab !in res {
      assert status + [Text.Tab] + req + [Text.Tab] + res == status + [Text.Tab] + (req + [Text.Tab] + res);
      Text.SplitConcat(status, req + [Text.Tab] + res, Text.Tab);
      Text.SplitConcat(req, res, Text.Tab);
      Text.SplitNoSeparator(status, Text.Tab);
      Text.SplitNoSeparator(req, Text.Tab);
      Text.SplitNoSeparator(res, Text.Tab);
    }
  }

  /**
    For fields without tabs, two records share a key exactly when they agree
    on status, request and response, an absent schema counting as "".
   */
  lemma KeyIdentifies(a: SchemaRecord, b: SchemaRecord)
    requires NoTabField(a) && NoTabField(b)
    ensures Key(a) == Key(b) <==>
      a.status == b.status && a.req.GetOr("") == b.req.GetOr("") && a.res.GetOr("") == b.res.GetOr("")
  {
    if Key(a) == Key(b) {
      assert Text.Split(Key(a), Text.Tab) == Text.Split(Key(b), Text.Tab);
    }
  }

  function Keys(s: seq<SchemaRecord>): (r: seq<string>)
    ensures |r| == |s| && forall i :: 0 <= i < |s| ==> r[i] == Key(s[i])
  {
    Project(s, Key)
  }

  /**
    Inserting the records into a `Map` by key, in order: one entry per key,
    at the position where the key was first inserted, holding the record last
    inserted under it.
   */
  function Dedup(s: seq<SchemaRecord>): (r: seq<SchemaRecord>)
    ensures Keys(r) == Distinct(Keys(s))
    decreases |s|
  {
    if |s| == 0 then []
    else
      var p := s[..|s| - 1];
      var x := s[|s| - 1];
      var d := Dedup(p);
      assert s == p + [x];
      KeysSnoc(p, x);
      DistinctSnoc(Keys(p), Key(x));
      match IndexOf(Keys(d), Key(x))
      case Some(i) =>
        KeysUpdate(d, i, x);
        d[i := x]
      case None =>
        KeysSnoc(d, x);
        d + [x]
  }

  lemma KeysSnoc(p: seq<SchemaRecord>, x: SchemaRecord)
    ensures Keys(p + [x]) == Keys(p) + [Key(x)]
  {
  }

  lemma KeysUpdate(d: seq<SchemaRecord>, i: nat, x: SchemaRecord)
    requires i < |d| && Key(d[i]) == Key(x)
    ensures Keys(d[i := x]) == Keys(d)
  {
  }

  /** How `Dedup` sees one more record. */
  lemma DedupSnoc(p: seq<SchemaRecord>, x: SchemaRecord)
    ensures IndexOf(Keys(Dedup(p)), Key(x)).Some? ==>
              Dedup(p + [x]) == Dedup(p)[IndexOf(Keys(Dedup(p)), Key(x)).value := x]
    ensures IndexOf(Keys(Dedup(p)), Key(x)).None? ==> Dedup(p + [x]) == Dedup(p) + [x]
  {
    assert (p + [x])[..|p + [x]| - 1] == p;
  }

  /** `e` is the record at some position of `s` after which no record has the same key. */
  ghost predicate LastWithKey(s: seq<SchemaRecord>, e: SchemaRecord) {
    exists j :: 0 <= j < |s| && s[j] == e && forall k :: j < k < |s| ==> Key(s[k]) != Key(e)
  }

  /** The record kept for each key is the last one recorded under it. */
  lemma {:induction false} DedupKeepsLast(s: seq<SchemaRecord>)
    ensures forall i :: 0 <= i < |Dedup(s)| ==> LastWithKey(s, Dedup(s)[i])
    decreases |s|
  {
    if |s| > 0 {
      var p := s[..|s| - 1];
      var x := s[|s| - 1];
      assert s == p + [x];
      DedupKeepsLast(p);
      DedupKeepsLastStep(p, x);
    }
  }

  /** The inductive step of `DedupKeepsLast`: one more record is inserted. */
  lemma DedupKeepsLastStep(p: seq<SchemaRecord>, x: SchemaRecord)
    requires forall i :: 0 <= i < |Dedup(p)| ==> LastWithKey(p, Dedup(p)[i])
    ensures forall i :: 0 <= i < |Dedup(p + [x])| ==> LastWithKey(p + [x], Dedup(p + [x])[i])
  {
    LastRecordIsLastWithKey(p, x);
    OthersStayLast(p, x);
    DedupSnoc(p, x);
    match IndexOf(Keys(Dedup(p)), Key(x))
    case Some(m) => KeepsLastReplaced(p + [x], Dedup(p), Dedup(p + [x]), x, m);
    case None => KeepsLastAppended(p + [x], Dedup(p), Dedup(p + [x]), x);
  }

  /** The step when the key is already present in `d`: its entry is replaced in place. */
  lemma KeepsLastReplaced(s: seq<SchemaRecord>, d: seq<SchemaRecord>, r: seq<SchemaRecord>, x: SchemaRecord, m: nat)
    requires m < |d| && r == d[m := x]
    requires IndexOf(Keys(d), Key(x)) == Some(m)
    requires LastWithKey(s, x)
    requires forall i :: 0 <= i < |d| && Key(d[i]) != Key(x) ==> LastWithKey(s, d[i])
    requires forall i :: 0 <= i < |d| && Key(d[i]) == Key(x) ==> IndexOf(Keys(d), Key(x)) == Some(i)
    ensures forall i :: 0 <= i < |r| ==> LastWithKey(s, r[i])
  {
    forall i | 0 <= i < |r| ensures LastWithKey(s, r[i]) {
      if i != m {
        assert r[i] == d[i] && Key(d[i]) != Key(x);
      }
    }
  }

  /** The step when the key is new to `d`: the record is appended. */
  lemma KeepsLastAppended(s: seq<SchemaRecord>, d: seq<SchemaRecord>, r: seq<SchemaRecord>, x: SchemaRecord)
    requires r == d + [x]
    requires IndexOf(Keys(d), Key(x)).None?
    requires LastWithKey(s, x)
    requires forall i :: 0 <= i < |d| && Key(d[i]) != Key(x) ==> LastWithKey(s, d[i])
    ensures forall i :: 0 <= i < |r| ==> LastWithKey(s, r[i])
  {
    forall i | 0 <= i < |r| ensures LastWithKey(s, r[i]) {
      if i < |d| {
        assert r[i] == d[i];
        assert Keys(d)[i] == Key(d[i]);
      }
    }
  }

  lemma LastRecordIsLastWithKey(p: seq<SchemaRecord>, x: SchemaRecord)
    ensures LastWithKey(p + [x], x)
  {
    assert (p + [x])[|p|] == x;
  }

  /** Entries whose key differs from a newly inserted record's key remain the last of their key. */
  lemma OthersStayLast(p: seq<SchemaRecord>, x: SchemaRecord)
    requires forall i :: 0 <= i < |Dedup(p)| ==> LastWithKey(p, Dedup(p)[i])
    ensures forall i :: 0 <= i < |Dedup(p)| && Key(Dedup(p)[i]) != Key(x) ==> LastWithKey(p + [x], Dedup(p)[i])
    ensures forall i :: 0 <= i < |Dedup(p)| && Key(Dedup(p)[i]) == Key(x) ==> IndexOf(Keys(Dedup(p)), Key(x)) == Some(i)
  {
    var d := Dedup(p);
    forall i | 0 <= i < |d| && Key(d[i]) != Key(x) ensures LastWithKey(p + [x], d[i]) {
      LastWithKeyExtend(p, x, d[i]);
    }
    forall i | 0 <= i < |d| && Key(d[i]) == Key(x) ensures IndexOf(Keys(d), Key(x)) == Some(i) {
      assert Keys(d)[i] == Key(x);
      var m := IndexOf(Keys(d), Key(x)).value;
      assert Keys(d)[m] == Keys(d)[i];
    }
  }

  lemma LastWithKeyExtend(p: seq<SchemaRecord>, x: SchemaRecord, e: SchemaRecord)
    requires LastWithKey(p, e) && Key(x) != Key(e)
    ensures LastWithKey(p + [x], e)
  {
    var j :| 0 <= j < |p| && p[j] == e && forall k :: j < k < |p| ==> Key(p[k]) != Key(e);
    assert (p + [x])[j] == e;
  }

  /** JavaScript's `a.status < b.status` on the status strings. */
  predicate StatusLess(a: SchemaRecord, b: SchemaRecord) {
    Text.LexLess(a.status, b.status)
  }

  /** Exactly one of: `a`'s status is lower, `b`'s status is lower, the statuses are equal. */
  lemma StatusTrichotomy(a: SchemaRecord, b: SchemaRecord)
    ensures StatusLess(a, b) ==> !StatusLess(b, a) && a.status != b.status
    ensures !StatusLess(a, b) && !StatusLess(b, a) <==> a.status == b.status
  {
    Text.LexLessIrreflexive(a.status);
    if a.status != b.status {
      Text.LexLessTotal(a.status, b.status);
    }
    if StatusLess(a, b) {
      Text.LexLessAsymmetric(a.status, b.status);
    }
  }

  /** The sort comparator: by status ascending, then by time descending. */
  function Compare(a: SchemaRecord, b: SchemaRecord): (r: int)
    ensures r < 0 <==> StatusLess(a, b) || (a.status == b.status && a.time > b.time)
    ensures r > 0 <==> StatusLess(b, a) || (a.status == b.status && a.time < b.time)
    ensures r == 0 <==> a.status == b.status && a.time == b.time
  {
    StatusTrichotomy(a, b);
    if StatusLess(a, b) then -1
    else if StatusLess(b, a) then 1
    else b.time - a.time
  }

  /** `a` may stand before `b` in the sorted list. */
  predicate Ordered(a: SchemaRecord, b: SchemaRecord) {
    StatusLess(a, b) || (a.status == b.status && a.time >= b.time)
  }

  ghost predicate Sorted(s: seq<SchemaRecord>) {
    forall i, j :: 0 <= i < j < |s| ==> Ordered(s[i], s[j])
  }

  /** The comparator is consistent with `Ordered`: a negative result orders its arguments, any other the reverse. */
  lemma CompareOrders(a: SchemaRecord, b: SchemaRecord)
    ensures Compare(a, b) < 0 ==> Ordered(a, b)
    ensures Compare(a, b) >= 0 ==> Ordered(b, a)
  {
    if !StatusLess(a, b) && !StatusLess(b, a) && a.status != b.status {
      Text.LexLessTotal(a.status, b.status);
    }
  }

  lemma OrderedTransitive(a: SchemaRecord, b: SchemaRecord, c: SchemaRecord)
    requires Ordered(a, b) && Ordered(b, c)
    ensures Ordered(a, c)
  {
    if StatusLess(a, b) && StatusLess(b, c) {
      Text.LexLessTransitive(a.status, b.status, c.status);
    }
  }

  /** Inserts `x` after every element that does not strictly follow it (so the sort is stable). */
  function InsertSorted(x: SchemaRecord, s: seq<SchemaRecord>): (r: seq<SchemaRecord>)
    ensures multiset(r) == multiset(s) + multiset{x}
    decreases |s|
  {
    if |s| == 0 then [x]
    else if Compare(x, s[0]) < 0 then [x] + s
    else
      assert s == [s[0]] + s[1..];
      [s[0]] + InsertSorted(x, s[1..])
  }

  lemma {:induction false} InsertSortedSorted(x: SchemaRecord, s: seq<SchemaRecord>)
    requires Sorted(s)
    ensures Sorted(InsertSorted(x, s))
    decreases |s|
  {
    if |s| > 0 {
      CompareOrders(x, s[0]);
      var r := InsertSorted(x, s);
      if Compare(x, s[0]) < 0 {
        forall k | 1 <= k < |r| ensures Ordered(x, r[k]) {
          if k > 1 {
            OrderedTransitive(x, s[0], s[k - 1]);
          }
        }
      } else {
        var t := InsertSorted(x, s[1..]);
        InsertSortedSorted(x, s[1..]);
        forall k | 0 <= k < |t| ensures Ordered(s[0], t[k]) {
          assert t[k] in multiset(t);
          assert t[k] in multiset(s[1..]) || t[k] == x;
          if t[k] != x {
            var m :| 0 <= m < |s[1..]| && s[1..][m] == t[k];
            assert s[m + 1] == t[k];
          }
        }
        assert r == [s[0]] + t;
      }
    }
  }

  /**
    The records sorted by status ascending and, within a status, newest first
    (`Array.prototype.sort` with the page's comparator; the sort is stable).
   */
  function Sort(s: seq<SchemaRecord>): (r: seq<SchemaRecord>)
    ensures Sorted(r)
    ensures multiset(r) == multiset(s)
    decreases |s|
  {
    if |s| == 0 then []
    else
      var p := Sort(s[..|s| - 1]);
      assert s == s[..|s| - 1] + [s[|s| - 1]];
      InsertSortedSorted(s[|s| - 1], p);
      InsertSorted(s[|s| - 1], p)
  }

  /** Reordering a list of records with distinct keys keeps the keys distinct. */
  lemma PermutationKeepsKeysDistinct(d: seq<SchemaRecord>, s: seq<SchemaRecord>)
    requires NoDuplicates(Keys(d))
    requires multiset(s) == multiset(d)
    ensures NoDuplicates(Keys(s))
  {
    forall i, j | 0 <= i < j < |s| ensures Keys(s)[i] != Keys(s)[j] {
      if Key(s[i]) == Key(s[j]) {
        assert s[i] in multiset(d) && s[j] in multiset(d);
        var a :| 0 <= a < |d| && d[a] == s[i];
        var b :| 0 <= b < |d| && d[b] == s[j];
        if a == b {
          TwoOccurrences(s, i, j);
          assert NoDuplicates(d) by {
            forall u, v | 0 <= u < v < |d| ensures d[u] != d[v] {
              assert Keys(d)[u] != Keys(d)[v];
            }
          }
          NoDuplicatesMultiplicity(d, s[i]);
          assert false;
        } else {
          assert false;
        }
      }
    }
  }

  /** The label of the newest schema of a status. */
  function LatestLabel(status: string): string {
    "Auto-" + status + " (Latest)"
  }

  /** The label of an older schema, with its time as the browser formats it. */
  function TimedLabel(status: string, formattedTime: string): string {
    "Auto-" + status + " (" + formattedTime + ")"
  }

  /** No earlier entry has the status of entry `i`. */
  ghost predicate FirstOfStatus(s: seq<SchemaRecord>, i: int)
    requires 0 <= i < |s|
  {
    forall j :: 0 <= j < i ==> s[j].status != s[i].status
  }

  /**
    Labels the sorted records: the first record of each status is marked as
    the latest, every other one carries its formatted time.
   */
  method LabelSchemas(sorted: seq<SchemaRecord>, formatTime: int -> string) returns (r: seq<ExistingSchema>)
    ensures |r| == |sorted|
    ensures forall i :: 0 <= i < |r| ==> r[i].schema == sorted[i]
    ensures forall i :: 0 <= i < |r| ==>
      r[i].autoLabel == if FirstOfStatus(sorted, i) then LatestLabel(sorted[i].status)
                        else TimedLabel(sorted[i].status, formatTime(sorted[i].time))
  {
    var seenStatus: set<string> := {};
    r := [];
    var i := 0;
    while i < |sorted|
      invariant 0 <= i <= |sorted|
      invariant |r| == i
      invariant forall s :: s in seenStatus <==> exists j :: 0 <= j < i && sorted[j].status == s
      invariant forall k :: 0 <= k < i ==> r[k].schema == sorted[k]
      invariant forall k :: 0 <= k < i ==>
        r[k].autoLabel == if FirstOfStatus(sorted, k) then LatestLabel(sorted[k].status)
                          else TimedLabel(sorted[k].status, formatTime(sorted[k].time))
    {
      var item := sorted[i];
      var autoLabel;
      UnseenIsFirst(sorted, i, seenStatus);
      if item.status !in seenStatus {
        autoLabel := LatestLabel(item.status);
        seenStatus := seenStatus + {item.status};
      } else {
        autoLabel := TimedLabel(item.status, formatTime(item.time));
      }
      assert forall k :: 0 <= k < i ==> (r + [ExistingSchema(item, autoLabel)])[k] == r[k];
      r := r + [ExistingSchema(item, autoLabel)];
      i := i + 1;
    }
  }

  /** A status not yet seen before position `i` is exactly one that is first at `i`. */
  lemma UnseenIsFirst(sorted: seq<SchemaRecord>, i: nat, seen: set<string>)
    requires i < |sorted|
    requires forall s :: s in seen <==> exists j :: 0 <= j < i && sorted[j].status == s
    ensures sorted[i].status !in seen <==> FirstOfStatus(sorted, i)
  {
    if sorted[i].status in seen {
      var j :| 0 <= j < i && sorted[j].status == sorted[i].status;
    }
  }

  /** A timed label can only look like the latest label when the time is formatted as "Latest". */
  lemma TimedLabelIsNotLatest(status: string, formattedTime: string)
    ensures TimedLabel(status, formattedTime) == LatestLabel(status) ==> formattedTime == "Latest"
  {
    var pre := "Auto-" + status + " (";
    var t := TimedLabel(status, formattedTime);
    var l := LatestLabel(status);
    assert t == pre + formattedTime + ")";
    assert l == pre + "Latest" + ")";
    if t == l {
      assert |formattedTime| == |"Latest"|;
      assert t[|pre|..|pre| + |formattedTime|] == formattedTime;
      assert l[|pre|..|pre| + |"Latest"|] == "Latest";
    }
  }

  /**
    Among the labelled entries of one status exactly one is marked latest,
    namely the first, and in a sorted list it is the newest of its status.
   */
  lemma LatestIsFirstAndNewest(sorted: seq<SchemaRecord>, r: seq<ExistingSchema>, formatTime: int -> string, i: nat)
    requires Sorted(sorted)
    requires |r| == |sorted| && i < |r|
    requires forall k :: 0 <= k < |r| ==>
      r[k].autoLabel == if FirstOfStatus(sorted, k) then LatestLabel(sorted[k].status)
                        else TimedLabel(sorted[k].status, formatTime(sorted[k].time))
    requires forall t :: formatTime(t) != "Latest"
    ensures r[i].autoLabel == LatestLabel(sorted[i].status) <==> FirstOfStatus(sorted, i)
    ensures r[i].autoLabel == LatestLabel(sorted[i].status) ==>
      forall j :: 0 <= j < |sorted| && sorted[j].status == sorted[i].status ==> sorted[i].time >= sorted[j].time
  {
    if !FirstOfStatus(sorted, i) {
      TimedLabelIsNotLatest(sorted[i].status, formatTime(sorted[i].time));
    } else {
      forall j | 0 <= j < |sorted| && sorted[j].status == sorted[i].status
        ensures sorted[i].time >= sorted[j].time
      {
        if j > i {
          assert Ordered(sorted[i], sorted[j]);
          Text.LexLessIrreflexive(sorted[i].status);
        }
      }
    }
  }

  /** Every status occurring in the list has its latest-marked entry. */
  lemma EveryStatusHasLatest(sorted: seq<SchemaRecord>, status: string)
    requires exists k :: 0 <= k < |sorted| && sorted[k].status == status
    ensures exists i :: 0 <= i < |sorted| && sorted[i].status == status && FirstOfStatus(sorted, i)
  {
    var k :| 0 <= k < |sorted| && sorted[k].status == status;
    var i := FirstIndexOfStatus(sorted, status, k);
  }

  function FirstIndexOfStatus(sorted: seq<SchemaRecord>, status: string, k: nat): (i: nat)
    requires k < |sorted| && sorted[k].status == status
    ensures i <= k && sorted[i].status == status && FirstOfStatus(sorted, i)
    decreases k
  {
    if exists j :: 0 <= j < k && sorted[j].status == status then
      var j :| 0 <= j < k && sorted[j].status == status;
      FirstIndexOfStatus(sorted, status, j)
    else k
  }

  /**
    `loadData`: the recorded schemas de-duplicated, sorted and labelled. The
    entries carry the distinct keys, ordered by status then recency, and each
    status's first entry is marked latest.
   */
  method LoadExisting(schemas: seq<SchemaRecord>, formatTime: int -> string) returns (r: seq<ExistingSchema>)
    ensures |r| == |Distinct(Keys(schemas))|
    ensures Sorted(Schemas(r))
    ensures multiset(Schemas(r)) == multiset(Dedup(schemas))
    ensures NoDuplicates(Keys(Schemas(r)))
    ensures forall i :: 0 <= i < |r| ==>
      r[i].autoLabel == if FirstOfStatus(Schemas(r), i) then LatestLabel(r[i].schema.status)
                        else TimedLabel(r[i].schema.status, formatTime(r[i].schema.time))
  {
    var deduped := Dedup(schemas);
    var sorted := Sort(deduped);
    assert |sorted| == |Keys(deduped)| by {
      assert |multiset(sorted)| == |multiset(deduped)|;
    }
    PermutationKeepsKeysDistinct(deduped, sorted);
    r := LabelSchemas(sorted, formatTime);
    SchemasOfLabelled(r, sorted);
  }

  lemma SchemasOfLabelled(r: seq<ExistingSchema>, sorted: seq<SchemaRecord>)
    requires |r| == |sorted| && forall i :: 0 <= i < |r| ==> r[i].schema == sorted[i]
    ensures Schemas(r) == sorted
  {
  }

  function Schemas(r: seq<ExistingSchema>): (s: seq<SchemaRecord>)
    ensures |s| == |r| && forall i :: 0 <= i < |r| ==> s[i] == r[i].schema
  {
    seq(|r|, i requires 0 <= i < |r| => r[i].schema)
  }

  /** An entry of the comparison drop-downs. */
  datatype SchemaChoice = SchemaChoice(req: string, res: string, name: string)

  /**
    `allSchema`: the tagged schemas, named by their user labels, followed by
    the recorded ones, named by their automatic labels; a list not yet loaded
    counts as empty.
   */
  function AllSchema(tagged: Option<seq<TaggedInterface>>, existing: Option<seq<ExistingSchema>>): (r: seq<SchemaChoice>)
    ensures var t := tagged.GetOr([]); var e := existing.GetOr([]);
      |r| == |t| + |e|
      && (forall i :: 0 <= i < |t| ==>
            r[i] == SchemaChoice(t[i].requestSchema, t[i].responseSchema, t[i].userLabel))
      && (forall i :: 0 <= i < |e| ==>
            r[|t| + i] == SchemaChoice(e[i].schema.req.GetOr(""), e[i].schema.res.GetOr(""), e[i].autoLabel))
  {
    var t := tagged.GetOr([]);
    var e := existing.GetOr([]);
    seq(|t|, i requires 0 <= i < |t| => SchemaChoice(t[i].requestSchema, t[i].responseSchema, t[i].userLabel))
    + seq(|e|, i requires 0 <= i < |e| => SchemaChoice(e[i].schema.req.GetOr(""), e[i].schema.res.GetOr(""), e[i].autoLabel))
  }

  function ChoiceNames(all: seq<SchemaChoice>): (r: seq<string>)
    ensures |r| == |all| && forall i :: 0 <= i < |all| ==> r[i] == all[i].name
  {
    Project(all, (c: SchemaChoice) => c.name)
  }

  /**
    `getSchemaFromLabel`: request and response of the first entry with that
    name, separated by a blank line; `None` where the page would fail on a
    missing entry.
   */
  function SchemaFromLabel(all: seq<SchemaChoice>, wanted: string): (r: Option<string>)
    ensures r.None? <==> forall i :: 0 <= i < |all| ==> all[i].name != wanted
    ensures r.Some? ==> exists i :: 0 <= i < |all| && all[i].name == wanted
                                    && (forall j :: 0 <= j < i ==> all[j].name != wanted)
                                    && r.value == all[i].req + "\n\n" + all[i].res
  {
    var names := ChoiceNames(all);
    match IndexOf(names, wanted)
    case Some(i) => Some(all[i].req + "\n\n" + all[i].res)
    case None =>
      assert forall i :: 0 <= i < |all| ==> all[i].name != wanted by {
        forall i | 0 <= i < |all| ensures all[i].name != wanted {
          assert names[i] == all[i].name;
        }
      }
      None
  }

  /** The selected schema: `id` indexes the list it came from; `bounded` is set for tagged ones. */
  datatype SchemaItem = SchemaItem(req: string, res: string, id: int, bounded: Option<bool>)

  datatype SelectionState = SelectionState(selected: Option<SchemaItem>, addable: bool, deleteAble: bool)

  /**
    `handleSelectionChange`: radio index `idx` numbers the recorded schemas
    first and the tagged ones after them. A recorded schema can be tagged, a
    tagged one deleted; an index past both lists keeps the selection and
    enables neither action.
   */
  function SelectionChange(
    existing: Option<seq<ExistingSchema>>,
    tagged: Option<seq<TaggedInterface>>,
    selected: Option<SchemaItem>,
    idx: nat): (r: SelectionState)
    ensures !(r.addable && r.deleteAble)
    ensures r.addable <==> existing.Some? && idx < |existing.value|
    ensures r.deleteAble <==> existing.Some? && tagged.Some?
                              && |existing.value| <= idx < |existing.value| + |tagged.value|
    ensures r.addable ==> r.selected == Some(SchemaItem(
      existing.value[idx].schema.req.GetOr(""), existing.value[idx].schema.res.GetOr(""), idx, None))
    ensures r.deleteAble ==>
      var t := tagged.value[idx - |existing.value|];
      r.selected == Some(SchemaItem(t.requestSchema, t.responseSchema, idx - |existing.value|, Some(t.boundToSwagger)))
    ensures !r.addable && !r.deleteAble ==> r.selected == selected
  {
    if existing.Some? && idx < |existing.value| then
      var e := existing.value[idx].schema;
      SelectionState(Some(SchemaItem(e.req.GetOr(""), e.res.GetOr(""), idx, None)), true, false)
    else if tagged.Some? && existing.Some? && idx - |existing.value| < |tagged.value| then
      var id := idx - |existing.value|;
      var t := tagged.value[id];
      SelectionState(Some(SchemaItem(t.requestSchema, t.responseSchema, id, Some(t.boundToSwagger))), false, true)
    else
      SelectionState(selected, false, false)
  }

  /**
    What `deleteTag` does: nothing, or a delete request. The request's target
    is absent when the selected id is outside the tagged list, where the page
    passes `tagged[selected.id]`, which is `undefined`, to the request.
   */
  datatype TagDeletion = Skipped | Requested(target: Option<TaggedInterface>)

  /** `deleteTag`: skipped without a selection or a loaded tagged list, else a request for `tagged[selected.id]`. */
  function DeleteTarget(tagged: Option<seq<TaggedInterface>>, selected: Option<SchemaItem>): (r: TagDeletion)
    ensures r.Skipped? <==> selected.None? || tagged.None?
    ensures r.Requested? ==> (r.target.Some? <==> 0 <= selected.value.id < |tagged.value|)
    ensures r.Requested? && r.target.Some? ==> r.target.value == tagged.value[selected.value.id]
  {
    if selected.None? || tagged.None? then Skipped
    else if 0 <= selected.value.id < |tagged.value| then Requested(Some(tagged.value[selected.value.id]))
    else Requested(None)
  }

  /** Deleting after selecting a tagged entry deletes exactly the entry that was selected. */
  lemma SelectThenDelete(
    existing: Option<seq<ExistingSchema>>,
    tagged: Option<seq<TaggedInterface>>,
    selected: Option<SchemaItem>,
    idx: nat)
    requires SelectionChange(existing, tagged, selected, idx).deleteAble
    ensures DeleteTarget(tagged, SelectionChange(existing, tagged, selected, idx).selected)
            == Requested(Some(tagged.value[idx - |existing.value|]))
  {
  }

  /**
    The selection survives the reload after a deletion. When the last tagged
    entry was selected and deleted, deleting again sends a request without a
    target.
   */
  lemma DeleteAfterReload(
    existing: Option<seq<ExistingSchema>>,
    tagged: seq<TaggedInterface>,
    selected: Option<SchemaItem>,
    idx: nat)
    requires existing.Some? && |tagged| > 0 && idx == |existing.value| + |tagged| - 1
    ensures var state := SelectionChange(existing, Some(tagged), selected, idx);
      state.deleteAble
      && DeleteTarget(Some(tagged), state.selected) == Requested(Some(tagged[|tagged| - 1]))
      && DeleteTarget(Some(tagged[..|tagged| - 1]), state.selected) == Requested(None)
  {
  }

  /** `getLabelName`: the last tab-separated segment of the endpoint's unique label. */
  function LabelName(uniqueLabelName: string): (r: string)
    ensures Text.Tab !in r
    ensures |r| <= |uniqueLabelName| && uniqueLabelName[|uniqueLabelName| - |r|..] == r
    ensures |r| < |uniqueLabelName| ==> uniqueLabelName[|uniqueLabelName| - |r| - 1] == Text.Tab
    ensures Text.Tab !in uniqueLabelName ==> r == uniqueLabelName
  {
    Text.LastSegment(uniqueLabelName, Text.Tab)
  }
}
