/**
 The reverse-DNS table: `handleRDNS` turns the decoded list of `{ip, ptr}`
 entries into a map from bare IP to PTR name.
 */
module ReverseDns {

  datatype RdnsEntry = RdnsEntry(ip: string, ptr: string)

  /** The entries folded in order into a map; a later entry for the same IP overwrites an earlier one. */
  function RdnsTable(entries: seq<RdnsEntry>): map<string, string> {
    if entries == [] then map[]
    else
      var last := entries[|entries| - 1];
      RdnsTable(entries[..|entries| - 1])[last.ip := last.ptr]
  }

  /** Entry `i` is the last one for its IP. */
  ghost predicate LastEntryFor(entries: seq<RdnsEntry>, i: int) {
    && 0 <= i < |entries|
    && forall j :: i < j < |entries| ==> entries[j].ip != entries[i].ip
  }

  /** The table holds exactly the IPs that some entry names. */
  lemma {:induction false} RdnsTableKeys(entries: seq<RdnsEntry>, ip: string)
    ensures ip in RdnsTable(entries) <==> exists i :: 0 <= i < |entries| && entries[i].ip == ip
  {
    if entries != [] {
      var init := entries[..|entries| - 1];
      RdnsTableKeys(init, ip);
      assert forall i :: 0 <= i < |init| ==> init[i] == entries[i];
    }
  }

  /** Each IP maps to the PTR name of the last entry for it. */
  lemma {:induction false} RdnsTableLastWins(entries: seq<RdnsEntry>, i: int)
    requires LastEntryFor(entries, i)
    ensures entries[i].ip in RdnsTable(entries) && RdnsTable(entries)[entries[i].ip] == entries[i].ptr
  {
    var n := |entries|;
    if i < n - 1 {
      var init := entries[..n - 1];
      assert LastEntryFor(init, i) by {
        forall j | i < j < |init| ensures init[j].ip != init[i].ip {
          assert init[j] == entries[j];
        }
      }
      RdnsTableLastWins(init, i);
    }
  }

  /** The loop of `handleRDNS` over the decoded entries. */
  method BuildRdns(entries: seq<RdnsEntry>) returns (out: map<string, string>)
    ensures out == RdnsTable(entries)
  {
    out := map[];
    var i := 0;
    while i < |entries|
      invariant 0 <= i <= |entries|
      invariant out == RdnsTable(entries[..i])
    {
      var entry := entries[i];
      assert entries[..i + 1][..i] == entries[..i];
      out := out[entry.ip := entry.ptr];
      i := i + 1;
    }
    assert entries[..i] == entries;
  }
}
