/**
 The metric state: three counter families (`input_gb`, `output_gb`,
 `total_gb`), each a map from a label tuple to a counter value. An update
 resets all three and adds each record's figures under its labels.
 */
module Metrics {
  import opened Decimal
  import opened Join

  /** The label values, in the order of the `labels` list: address, dns_name, server_name, server_number, product. */
  datatype Labels = Labels(address: string, dnsName: string, serverName: string, serverNumber: string, product: string)

  /** The labels a record is counted under; the server number is rendered by `strconv.Itoa`. */
  function LabelsOf(ti: TrafficInfo): Labels {
    Labels(ti.address, ti.dnsName, ti.serverName, Itoa(ti.serverNumber), ti.product)
  }

  /** The label tuple gives back the record's address, names and server number. */
  lemma LabelsOfRecovers(ti: TrafficInfo)
    ensures LabelsOf(ti).address == ti.address && LabelsOf(ti).dnsName == ti.dnsName
    ensures IsIntText(LabelsOf(ti).serverNumber) && ParseInt(LabelsOf(ti).serverNumber) == ti.serverNumber
  {
    ItoaRoundTrip(ti.serverNumber);
  }

  datatype Family = Input | Output | Total

  function FigureOf(ti: TrafficInfo, f: Family): real {
    match f
    case Input => ti.input
    case Output => ti.output
    case Total => ti.total
  }

  /** The figure of a traffic-response entry that a family reports: `In`, `Out` or `Sum`. */
  function Reported(figures: Figures, f: Family): real {
    match f
    case Input => figures.incoming
    case Output => figures.outgoing
    case Total => figures.sum
  }

  /** `CounterVec.With(l).Add(v)`: the counter under `l`, created at zero when absent, grows by `v`. */
  function AddTo(m: map<Labels, real>, l: Labels, v: real): (r: map<Labels, real>)
    ensures r.Keys == m.Keys + {l}
    ensures r[l] == (if l in m then m[l] else 0.0) + v
    ensures forall k :: k in m && k != l ==> r[k] == m[k]
  {
    m[l := (if l in m then m[l] else 0.0) + v]
  }

  /** One family after a reset and one Add per record of the snapshot, in order. */
  function Accumulated(snapshot: seq<TrafficInfo>, f: Family): map<Labels, real> {
    if snapshot == [] then map[]
    else
      var last := snapshot[|snapshot| - 1];
      AddTo(Accumulated(snapshot[..|snapshot| - 1], f), LabelsOf(last), FigureOf(last, f))
  }

  /** The label tuples present after an update are exactly those of the snapshot's records. */
  lemma {:induction false} AccumulatedKeys(snapshot: seq<TrafficInfo>, f: Family, l: Labels)
    ensures l in Accumulated(snapshot, f) <==> exists i :: 0 <= i < |snapshot| && LabelsOf(snapshot[i]) == l
  {
    if snapshot != [] {
      var init := snapshot[..|snapshot| - 1];
      AccumulatedKeys(init, f, l);
      assert forall i :: 0 <= i < |init| ==> init[i] == snapshot[i];
    }
  }

  predicate DistinctAddresses(snapshot: seq<TrafficInfo>) {
    forall i, j :: 0 <= i < j < |snapshot| ==> snapshot[i].address != snapshot[j].address
  }

  /**
   With one record per address, adding to freshly reset counters is setting
   them: each label tuple holds exactly its record's figure.
   */
  lemma {:induction false} AccumulatedIsSet(snapshot: seq<TrafficInfo>, f: Family, i: int)
    requires DistinctAddresses(snapshot) && 0 <= i < |snapshot|
    ensures LabelsOf(snapshot[i]) in Accumulated(snapshot, f)
    ensures Accumulated(snapshot, f)[LabelsOf(snapshot[i])] == FigureOf(snapshot[i], f)
  {
    var n := |snapshot|;
    var init := snapshot[..n - 1];
    if i == n - 1 {
      AccumulatedKeys(init, f, LabelsOf(snapshot[i]));
      assert forall j :: 0 <= j < |init| ==> init[j] == snapshot[j];
    } else {
      assert init[i] == snapshot[i];
      DistinctPrefix(snapshot);
      AccumulatedIsSet(init, f, i);
      assert LabelsOf(snapshot[n - 1]) != LabelsOf(snapshot[i]);
    }
  }

  /** Dropping the last record keeps the addresses distinct. */
  lemma DistinctPrefix(snapshot: seq<TrafficInfo>)
    requires DistinctAddresses(snapshot) && snapshot != []
    ensures DistinctAddresses(snapshot[..|snapshot| - 1])
  {
    var init := snapshot[..|snapshot| - 1];
    forall a, b | 0 <= a < b < |init| ensures init[a].address != init[b].address {
      assert init[a] == snapshot[a] && init[b] == snapshot[b];
    }
  }

  /**
   For a snapshot built from a traffic response, each family holds one label
   tuple per address key of the response and no other, and the value under
   every tuple is the figure of the key it names, unchanged.
   */
  lemma ReconciledMatchesTraffic(
    out: seq<TrafficInfo>, data: map<string, Figures>,
    table: map<string, Inventory.ServerEntry>, rdns: map<string, string>, f: Family)
    requires IsSnapshot(out, data, table, rdns)
    ensures forall l :: l in Accumulated(out, f) ==> l.address in data
    ensures forall k :: k in data ==> exists l :: l in Accumulated(out, f) && l.address == k
    ensures forall i :: 0 <= i < |out| ==>
      LabelsOf(out[i]) in Accumulated(out, f) &&
      Accumulated(out, f)[LabelsOf(out[i])] == Reported(data[out[i].address], f)
    ensures forall l :: l in Accumulated(out, f) ==> l.address in data && Accumulated(out, f)[l] == Reported(data[l.address], f)
    ensures forall l1, l2 :: l1 in Accumulated(out, f) && l2 in Accumulated(out, f) && l1.address == l2.address ==> l1 == l2
  {
    ReconciledCoversTraffic(out, data, table, rdns, f);
    ReconciledNoOtherTuples(out, data, table, rdns, f);
  }

  /** No traffic key has two label tuples, and every tuple holds the figure of the key it names. */
  lemma ReconciledNoOtherTuples(
    out: seq<TrafficInfo>, data: map<string, Figures>,
    table: map<string, Inventory.ServerEntry>, rdns: map<string, string>, f: Family)
    requires IsSnapshot(out, data, table, rdns)
    ensures forall l :: l in Accumulated(out, f) ==> l.address in data && Accumulated(out, f)[l] == Reported(data[l.address], f)
    ensures forall l1, l2 :: l1 in Accumulated(out, f) && l2 in Accumulated(out, f) && l1.address == l2.address ==> l1 == l2
  {
    forall l | l in Accumulated(out, f)
      ensures l.address in data && Accumulated(out, f)[l] == Reported(data[l.address], f)
    {
      ReconciledTupleValue(out, data, table, rdns, f, l);
    }
    forall l1, l2 | l1 in Accumulated(out, f) && l2 in Accumulated(out, f) && l1.address == l2.address
      ensures l1 == l2
    {
      ReconciledTupleUnique(out, data, table, rdns, f, l1, l2);
    }
  }

  /** Every traffic key has the tuple of its record, holding the key's figure, and no tuple names anything else. */
  lemma ReconciledCoversTraffic(
    out: seq<TrafficInfo>, data: map<string, Figures>,
    table: map<string, Inventory.ServerEntry>, rdns: map<string, string>, f: Family)
    requires IsSnapshot(out, data, table, rdns)
    ensures forall l :: l in Accumulated(out, f) ==> l.address in data
    ensures forall k :: k in data ==> exists l :: l in Accumulated(out, f) && l.address == k
    ensures forall i :: 0 <= i < |out| ==>
      LabelsOf(out[i]) in Accumulated(out, f) &&
      Accumulated(out, f)[LabelsOf(out[i])] == Reported(data[out[i].address], f)
  {
    forall l | l in Accumulated(out, f) ensures l.address in data {
      AccumulatedKeys(out, f, l);
    }
    forall k | k in data ensures exists l :: l in Accumulated(out, f) && l.address == k {
      var i :| 0 <= i < |out| && out[i].address == k;
      AccumulatedKeys(out, f, LabelsOf(out[i]));
    }
    forall i | 0 <= i < |out|
      ensures LabelsOf(out[i]) in Accumulated(out, f) &&
        Accumulated(out, f)[LabelsOf(out[i])] == Reported(data[out[i].address], f)
    {
      AccumulatedIsSet(out, f, i);
    }
  }

  /** Every label tuple present holds the figure of the traffic key it names. */
  lemma ReconciledTupleValue(
    out: seq<TrafficInfo>, data: map<string, Figures>,
    table: map<string, Inventory.ServerEntry>, rdns: map<string, string>, f: Family, l: Labels)
    requires IsSnapshot(out, data, table, rdns) && l in Accumulated(out, f)
    ensures l.address in data && Accumulated(out, f)[l] == Reported(data[l.address], f)
  {
    AccumulatedKeys(out, f, l);
    var i :| 0 <= i < |out| && LabelsOf(out[i]) == l;
    AccumulatedIsSet(out, f, i);
  }

  /** No traffic key has two label tuples. */
  lemma ReconciledTupleUnique(
    out: seq<TrafficInfo>, data: map<string, Figures>,
    table: map<string, Inventory.ServerEntry>, rdns: map<string, string>, f: Family, l1: Labels, l2: Labels)
    requires IsSnapshot(out, data, table, rdns)
    requires l1 in Accumulated(out, f) && l2 in Accumulated(out, f) && l1.address == l2.address
    ensures l1 == l2
  {
    AccumulatedKeys(out, f, l1);
    AccumulatedKeys(out, f, l2);
    var i1 :| 0 <= i1 < |out| && LabelsOf(out[i1]) == l1;
    var i2 :| 0 <= i2 < |out| && LabelsOf(out[i2]) == l2;
    if i1 != i2 {
      assert out[i1].address != out[i2].address;
    }
  }

  /** The three counter families, process-wide state that each successful update replaces. */
  class Counters {
    var inputGB: map<Labels, real>
    var outputGB: map<Labels, real>
    var totalGB: map<Labels, real>

    /** The families hold what one update with `snapshot` leaves. */
    ghost predicate Reflects(snapshot: seq<TrafficInfo>)
      reads this
    {
      && inputGB == Accumulated(snapshot, Input)
      && outputGB == Accumulated(snapshot, Output)
      && totalGB == Accumulated(snapshot, Total)
    }

    /** Registered families start with no label tuple at all. */
    constructor ()
      ensures inputGB == map[] && outputGB == map[] && totalGB == map[]
    {
      inputGB, outputGB, totalGB := map[], map[], map[];
    }

    /**
     The reconciliation in `updateMetrics`: `Reset` all three families, then
     add each record's input, output and total under its labels. The new
     state depends on the snapshot alone, so applying the same snapshot twice
     leaves the same state as applying it once.
     */
    method Apply(snapshot: seq<TrafficInfo>)
      modifies this
      ensures Reflects(snapshot)
    {
      inputGB := map[];
      outputGB := map[];
      totalGB := map[];
      var i := 0;
      while i < |snapshot|
        invariant 0 <= i <= |snapshot|
        invariant Reflects(snapshot[..i])
      {
        var ti := snapshot[i];
        assert snapshot[..i + 1][..i] == snapshot[..i];
        var labels := LabelsOf(ti);
        inputGB := AddTo(inputGB, labels, ti.input);
        outputGB := AddTo(outputGB, labels, ti.output);
        totalGB := AddTo(totalGB, labels, ti.total);
        i := i + 1;
      }
      assert snapshot[..i] == snapshot;
    }
  }
}
