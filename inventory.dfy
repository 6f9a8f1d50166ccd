/**
 The server inventory and what `updateIPs` derives from it before the traffic
 query: the join table from address key to server (bare IPs and `ip/mask`
 subnet keys) and the form parameters of the query (`url.Values`).
 */
module Inventory {
  import opened Period

  datatype Subnet = Subnet(ip: string, mask: string)

  /** One leased server, with the fields the exporter reads from the inventory. */
  datatype ServerEntry = ServerEntry(
    serverNumber: int,
    serverName: string,
    product: string,
    ips: seq<string>,
    subnets: seq<Subnet>)

  /** The join key of a subnet: its IP, a slash, its mask. */
  function SubnetKey(sn: Subnet): (k: string)
    ensures |k| == |sn.ip| + 1 + |sn.mask| && k[|sn.ip|] == '/'
    ensures k[..|sn.ip|] == sn.ip && k[|sn.ip| + 1..] == sn.mask
  {
    sn.ip + "/" + sn.mask
  }

  function IpSet(ips: seq<string>): set<string> {
    set ip | ip in ips
  }

  function IpKeys(s: ServerEntry): set<string> {
    IpSet(s.ips)
  }

  function SubnetKeysOf(subnets: seq<Subnet>): set<string> {
    set sn | sn in subnets :: SubnetKey(sn)
  }

  function SubnetKeys(s: ServerEntry): set<string> {
    SubnetKeysOf(s.subnets)
  }

  /** The map in which every key of `ks` is bound to `s`. */
  function Assign(ks: set<string>, s: ServerEntry): map<string, ServerEntry> {
    map k | k in ks :: s
  }

  /**
   Folding the inventory in order into a map, binding every key that `keys`
   gives for a server to that server; a later server overwrites an earlier one.
   */
  function Index(servers: seq<ServerEntry>, keys: ServerEntry -> set<string>): map<string, ServerEntry> {
    if servers == [] then map[]
    else
      var last := servers[|servers| - 1];
      Index(servers[..|servers| - 1], keys) + Assign(keys(last), last)
  }

  /** The folded map holds exactly the keys some server has. */
  lemma {:induction false} IndexKeys(servers: seq<ServerEntry>, keys: ServerEntry -> set<string>, k: string)
    ensures k in Index(servers, keys) <==> exists i :: 0 <= i < |servers| && k in keys(servers[i])
  {
    if servers != [] {
      var init := servers[..|servers| - 1];
      IndexKeys(init, keys, k);
      assert forall i :: 0 <= i < |init| ==> init[i] == servers[i];
    }
  }

  /** Server `i` is the last one in the inventory that has `k` among its keys. */
  ghost predicate LastOwner(servers: seq<ServerEntry>, keys: ServerEntry -> set<string>, k: string, i: int) {
    && 0 <= i < |servers|
    && k in keys(servers[i])
    && forall j :: i < j < |servers| ==> k !in keys(servers[j])
  }

  lemma {:induction false} IndexLastOwner(servers: seq<ServerEntry>, keys: ServerEntry -> set<string>, k: string, i: int)
    requires LastOwner(servers, keys, k, i)
    ensures k in Index(servers, keys) && Index(servers, keys)[k] == servers[i]
  {
    var n := |servers|;
    if i < n - 1 {
      var init := servers[..n - 1];
      assert k !in keys(servers[n - 1]);
      assert LastOwner(init, keys, k, i) by {
        forall j | i < j < |init| ensures k !in keys(init[j]) {
          assert init[j] == servers[j];
        }
      }
      IndexLastOwner(init, keys, k, i);
    }
  }

  /** The join table `ipToServer`: every bare IP first, then every subnet key. */
  function JoinTable(servers: seq<ServerEntry>): map<string, ServerEntry> {
    Index(servers, IpKeys) + Index(servers, SubnetKeys)
  }

  /** A key is in the join table exactly when some server lists it as an IP or as a subnet. */
  lemma JoinTableKeys(servers: seq<ServerEntry>, k: string)
    ensures k in JoinTable(servers) <==>
      exists i :: 0 <= i < |servers| && (k in IpKeys(servers[i]) || k in SubnetKeys(servers[i]))
  {
    IndexKeys(servers, IpKeys, k);
    IndexKeys(servers, SubnetKeys, k);
  }

  /** A subnet key maps to the last server holding that subnet, whatever the IP pass wrote. */
  lemma JoinTableSubnetOwner(servers: seq<ServerEntry>, k: string, i: int)
    requires LastOwner(servers, SubnetKeys, k, i)
    ensures k in JoinTable(servers) && JoinTable(servers)[k] == servers[i]
  {
    IndexLastOwner(servers, SubnetKeys, k, i);
  }

  /** A key that is no subnet key maps to the last server listing it as an IP. */
  lemma JoinTableIpOwner(servers: seq<ServerEntry>, k: string, i: int)
    requires LastOwner(servers, IpKeys, k, i)
    requires forall j :: 0 <= j < |servers| ==> k !in SubnetKeys(servers[j])
    ensures k in JoinTable(servers) && JoinTable(servers)[k] == servers[i]
  {
    IndexLastOwner(servers, IpKeys, k, i);
    IndexKeys(servers, SubnetKeys, k);
  }

  /** The form parameters of the traffic query (`url.Values`): each key with its list of values. */
  type Values = map<string, seq<string>>

  /** `url.Values.Set`: the key gets exactly the one value. */
  function SetValue(par: Values, key: string, v: string): (r: Values)
    ensures r.Keys == par.Keys + {key} && r[key] == [v]
    ensures forall k :: k in par && k != key ==> r[k] == par[k]
  {
    par[key := [v]]
  }

  /** `url.Values.Add`: the value is appended to the key's list, which is created when absent. */
  function AddValue(par: Values, key: string, v: string): (r: Values)
    ensures r.Keys == par.Keys + {key}
    ensures r[key] == (if key in par then par[key] else []) + [v]
    ensures forall k :: k in par && k != key ==> r[k] == par[k]
  {
    par[key := (if key in par then par[key] else []) + [v]]
  }

  /** What a series of `Add(key, v)` for each `v` of `vs` leaves, starting from a map without `key`. */
  function WithList(par: Values, key: string, vs: seq<string>): Values {
    if vs == [] then par else par[key := vs]
  }

  /** Every server IP, in inventory order. */
  function AllIps(servers: seq<ServerEntry>): seq<string> {
    if servers == [] then [] else AllIps(servers[..|servers| - 1]) + servers[|servers| - 1].ips
  }

  lemma {:induction false} AllIpsMembers(servers: seq<ServerEntry>, ip: string)
    ensures ip in AllIps(servers) <==> exists i :: 0 <= i < |servers| && ip in servers[i].ips
  {
    if servers != [] {
      var init := servers[..|servers| - 1];
      AllIpsMembers(init, ip);
      assert forall i :: 0 <= i < |init| ==> init[i] == servers[i];
    }
  }

  /** The subnet IPs of a list of subnets, in order: never the mask. */
  function SubnetIps(subnets: seq<Subnet>): (r: seq<string>)
    ensures |r| == |subnets|
    ensures forall i :: 0 <= i < |subnets| ==> r[i] == subnets[i].ip
  {
    if subnets == [] then [] else SubnetIps(subnets[..|subnets| - 1]) + [subnets[|subnets| - 1].ip]
  }

  /** Every subnet IP of the inventory, in inventory order. */
  function AllSubnetIps(servers: seq<ServerEntry>): seq<string> {
    if servers == [] then [] else AllSubnetIps(servers[..|servers| - 1]) + SubnetIps(servers[|servers| - 1].subnets)
  }

  lemma {:induction false} AllSubnetIpsMembers(servers: seq<ServerEntry>, ip: string)
    ensures ip in AllSubnetIps(servers) <==>
      exists i, j :: 0 <= i < |servers| && 0 <= j < |servers[i].subnets| && servers[i].subnets[j].ip == ip
  {
    if servers != [] {
      var init := servers[..|servers| - 1];
      var last := servers[|servers| - 1];
      AllSubnetIpsMembers(init, ip);
      assert forall i :: 0 <= i < |init| ==> init[i] == servers[i];
      assert ip in SubnetIps(last.subnets) <==> exists j :: 0 <= j < |last.subnets| && last.subnets[j].ip == ip;
    }
  }

  /** `type`, `from` and `to`, set before any address is added. */
  function BaseParams(period: string): Values {
    map["type" := ["month"], "from" := [Window(period, "01")], "to" := [Window(period, "31")]]
  }

  /**
   The complete parameter set of the traffic query for period `P`: `type=month`,
   `from=P-01`, `to=P-31`, one `ip[]` per server IP and one `subnet[]` per
   subnet IP, each list in inventory order and present only when non-empty.
   */
  function QueryParams(period: string, servers: seq<ServerEntry>): (par: Values)
    ensures par.Keys == {"type", "from", "to"}
      + (if AllIps(servers) == [] then {} else {"ip[]"})
      + (if AllSubnetIps(servers) == [] then {} else {"subnet[]"})
    ensures par["type"] == ["month"]
    ensures par["from"] == [Window(period, "01")] && par["to"] == [Window(period, "31")]
    ensures "ip[]" in par ==> par["ip[]"] == AllIps(servers)
    ensures "subnet[]" in par ==> par["subnet[]"] == AllSubnetIps(servers)
  {
    WithList(WithList(BaseParams(period), "ip[]", AllIps(servers)), "subnet[]", AllSubnetIps(servers))
  }

  lemma IndexSnoc(servers: seq<ServerEntry>, keys: ServerEntry -> set<string>, i: int)
    requires 0 <= i < |servers|
    ensures Index(servers[..i + 1], keys) == Index(servers[..i], keys) + Assign(keys(servers[i]), servers[i])
  {
    assert servers[..i + 1][..i] == servers[..i];
  }

  lemma AssignOneMore(m: map<string, ServerEntry>, ks: set<string>, k: string, s: ServerEntry)
    ensures (m + Assign(ks, s))[k := s] == m + Assign(ks + {k}, s)
  {
  }

  lemma MergeAssociates(a: map<string, ServerEntry>, b: map<string, ServerEntry>, c: map<string, ServerEntry>)
    ensures a + b + c == a + (b + c)
  {
  }

  lemma AddToList(par: Values, key: string, vs: seq<string>, v: string)
    requires key !in par
    ensures AddValue(WithList(par, key, vs), key, v) == WithList(par, key, vs + [v])
  {
  }

  lemma AllIpsSnoc(servers: seq<ServerEntry>, i: int)
    requires 0 <= i < |servers|
    ensures AllIps(servers[..i + 1]) == AllIps(servers[..i]) + servers[i].ips
  {
    assert servers[..i + 1][..i] == servers[..i];
  }

  lemma AllSubnetIpsSnoc(servers: seq<ServerEntry>, i: int)
    requires 0 <= i < |servers|
    ensures AllSubnetIps(servers[..i + 1]) == AllSubnetIps(servers[..i]) + SubnetIps(servers[i].subnets)
  {
    assert servers[..i + 1][..i] == servers[..i];
  }

  lemma SubnetKeysSnoc(subnets: seq<Subnet>, j: int)
    requires 0 <= j < |subnets|
    ensures SubnetKeysOf(subnets[..j + 1]) == SubnetKeysOf(subnets[..j]) + {SubnetKey(subnets[j])}
  {
    assert subnets[..j + 1] == subnets[..j] + [subnets[j]];
  }

  lemma SubnetIpsSnoc(subnets: seq<Subnet>, j: int)
    requires 0 <= j < |subnets|
    ensures SubnetIps(subnets[..j + 1]) == SubnetIps(subnets[..j]) + [subnets[j].ip]
  {
    assert subnets[..j + 1][..j] == subnets[..j];
  }

  /**
   The loops of `updateIPs` that fill `ipToServer` and `par`: first every IP of
   every server, then every subnet of every server.
   */
  method BuildQuery(period: string, servers: seq<ServerEntry>) returns (ipToServer: map<string, ServerEntry>, par: Values)
    ensures ipToServer == JoinTable(servers)
    ensures par == QueryParams(period, servers)
  {
    ipToServer := map[];
    par := map[];
    par := SetValue(par, "type", "month");
    par := SetValue(par, "from", Window(period, "01"));
    par := SetValue(par, "to", Window(period, "31"));
    assert par == BaseParams(period);
    ipToServer, par := AddIpKeys(servers, par);
    ipToServer, par := AddSubnetKeys(servers, ipToServer, par);
  }

  /** The first pair of loops: every server IP goes into the table and onto `ip[]`. */
  method AddIpKeys(servers: seq<ServerEntry>, base: Values) returns (ipToServer: map<string, ServerEntry>, par: Values)
    requires "ip[]" !in base
    ensures ipToServer == Index(servers, IpKeys)
    ensures par == WithList(base, "ip[]", AllIps(servers))
  {
    ipToServer := map[];
    par := base;
    var i := 0;
    while i < |servers|
      invariant 0 <= i <= |servers|
      invariant ipToServer == Index(servers[..i], IpKeys)
      invariant par == WithList(base, "ip[]", AllIps(servers[..i]))
    {
      ipToServer, par := AddServerIps(servers[i], ipToServer, par, base, AllIps(servers[..i]));
      IndexSnoc(servers, IpKeys, i);
      AllIpsSnoc(servers, i);
      i := i + 1;
    }
    assert servers[..i] == servers;
  }

  /** The inner loop of the IP pass, over the IPs of one server. */
  method AddServerIps(entry: ServerEntry, table: map<string, ServerEntry>, par0: Values, ghost base: Values, ghost sent0: seq<string>)
    returns (ipToServer: map<string, ServerEntry>, par: Values)
    requires "ip[]" !in base && par0 == WithList(base, "ip[]", sent0)
    ensures ipToServer == table + Assign(IpKeys(entry), entry)
    ensures par == WithList(base, "ip[]", sent0 + entry.ips)
  {
    ipToServer := table;
    par := par0;
    var j := 0;
    IpStart(table, entry, sent0);
    while j < |entry.ips|
      invariant 0 <= j <= |entry.ips|
      invariant ipToServer == table + Assign(IpSet(entry.ips[..j]), entry)
      invariant par == WithList(base, "ip[]", sent0 + entry.ips[..j])
    {
      var ip := entry.ips[j];
      IpStep(table, entry, j, base, sent0);
      ipToServer := ipToServer[ip := entry];
      par := AddValue(par, "ip[]", ip);
      j := j + 1;
    }
    assert entry.ips[..j] == entry.ips;
  }

  lemma IpStart(table: map<string, ServerEntry>, entry: ServerEntry, sent0: seq<string>)
    ensures table + Assign(IpSet(entry.ips[..0]), entry) == table
    ensures sent0 + entry.ips[..0] == sent0
  {
    assert IpSet(entry.ips[..0]) == {};
  }

  /** One pass of the IP inner loop: bind the `j`-th IP and append it to `ip[]`. */
  lemma IpStep(table: map<string, ServerEntry>, entry: ServerEntry, j: int, base: Values, sent0: seq<string>)
    requires 0 <= j < |entry.ips| && "ip[]" !in base
    ensures (table + Assign(IpSet(entry.ips[..j]), entry))[entry.ips[j] := entry]
      == table + Assign(IpSet(entry.ips[..j + 1]), entry)
    ensures AddValue(WithList(base, "ip[]", sent0 + entry.ips[..j]), "ip[]", entry.ips[j])
      == WithList(base, "ip[]", sent0 + entry.ips[..j + 1])
  {
    var ip := entry.ips[j];
    assert entry.ips[..j + 1] == entry.ips[..j] + [ip];
    assert IpSet(entry.ips[..j + 1]) == IpSet(entry.ips[..j]) + {ip};
    AssignOneMore(table, IpSet(entry.ips[..j]), ip, entry);
    AddToList(base, "ip[]", sent0 + entry.ips[..j], ip);
    assert sent0 + entry.ips[..j + 1] == (sent0 + entry.ips[..j]) + [ip];
  }

  /** The second pair of loops: every subnet key goes into the table, every subnet IP onto `subnet[]`. */
  method AddSubnetKeys(servers: seq<ServerEntry>, ipTable: map<string, ServerEntry>, base: Values)
    returns (ipToServer: map<string, ServerEntry>, par: Values)
    requires "subnet[]" !in base
    ensures ipToServer == ipTable + Index(servers, SubnetKeys)
    ensures par == WithList(base, "subnet[]", AllSubnetIps(servers))
  {
    ipToServer := ipTable;
    par := base;
    var i := 0;
    while i < |servers|
      invariant 0 <= i <= |servers|
      invariant ipToServer == ipTable + Index(servers[..i], SubnetKeys)
      invariant par == WithList(base, "subnet[]", AllSubnetIps(servers[..i]))
    {
      ipToServer, par := AddServerSubnets(servers[i], ipToServer, par, base, AllSubnetIps(servers[..i]));
      IndexSnoc(servers, SubnetKeys, i);
      AllSubnetIpsSnoc(servers, i);
      MergeAssociates(ipTable, Index(servers[..i], SubnetKeys), Assign(SubnetKeys(servers[i]), servers[i]));
      i := i + 1;
    }
    assert servers[..i] == servers;
  }

  /** The inner loop of the subnet pass, over the subnets of one server. */
  method AddServerSubnets(entry: ServerEntry, table: map<string, ServerEntry>, par0: Values, ghost base: Values, ghost sent0: seq<string>)
    returns (ipToServer: map<string, ServerEntry>, par: Values)
    requires "subnet[]" !in base && par0 == WithList(base, "subnet[]", sent0)
    ensures ipToServer == table + Assign(SubnetKeys(entry), entry)
    ensures par == WithList(base, "subnet[]", sent0 + SubnetIps(entry.subnets))
  {
    ipToServer := table;
    par := par0;
    var j := 0;
    SubnetStart(table, entry, sent0);
    while j < |entry.subnets|
      invariant 0 <= j <= |entry.subnets|
      invariant ipToServer == table + Assign(SubnetKeysOf(entry.subnets[..j]), entry)
      invariant par == WithList(base, "subnet[]", sent0 + SubnetIps(entry.subnets[..j]))
    {
      var sub := entry.subnets[j];
      var t := sub.ip + "/" + sub.mask;
      SubnetStep(table, entry, j, base, sent0);
      ipToServer := ipToServer[t := entry];
      par := AddValue(par, "subnet[]", sub.ip);
      j := j + 1;
    }
    assert entry.subnets[..j] == entry.subnets;
  }

  lemma SubnetStart(table: map<string, ServerEntry>, entry: ServerEntry, sent0: seq<string>)
    ensures table + Assign(SubnetKeysOf(entry.subnets[..0]), entry) == table
    ensures sent0 + SubnetIps(entry.subnets[..0]) == sent0
  {
    assert SubnetKeysOf(entry.subnets[..0]) == {};
  }

  /** One pass of the subnet inner loop: bind the `j`-th subnet key and append its IP to `subnet[]`. */
  lemma SubnetStep(table: map<string, ServerEntry>, entry: ServerEntry, j: int, base: Values, sent0: seq<string>)
    requires 0 <= j < |entry.subnets| && "subnet[]" !in base
    ensures (table + Assign(SubnetKeysOf(entry.subnets[..j]), entry))[SubnetKey(entry.subnets[j]) := entry]
      == table + Assign(SubnetKeysOf(entry.subnets[..j + 1]), entry)
    ensures AddValue(WithList(base, "subnet[]", sent0 + SubnetIps(entry.subnets[..j])), "subnet[]", entry.subnets[j].ip)
      == WithList(base, "subnet[]", sent0 + SubnetIps(entry.subnets[..j + 1]))
  {
    var sub := entry.subnets[j];
    SubnetKeysSnoc(entry.subnets, j);
    AssignOneMore(table, SubnetKeysOf(entry.subnets[..j]), SubnetKey(sub), entry);
    SubnetIpsSnoc(entry.subnets, j);
    AddToList(base, "subnet[]", sent0 + SubnetIps(entry.subnets[..j]), sub.ip);
    assert sent0 + SubnetIps(entry.subnets[..j + 1]) == (sent0 + SubnetIps(entry.subnets[..j])) + [sub.ip];
  }
}
