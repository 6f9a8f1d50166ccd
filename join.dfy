/**
 The join at the end of `updateIPs`: one `TrafficInfo` per address key of the
 traffic response, with server metadata from the join table and a DNS name
 from the reverse-DNS table (directly, or by the part of the key before the
 first slash).
 */
module Join {
  import opened Inventory

  /** The figures the traffic response reports for one address key (`In`, `Out`, `Sum`). */
  datatype Figures = Figures(incoming: real, outgoing: real, sum: real)

  /** The denormalised record handed to the metric reconciler. */
  datatype TrafficInfo = TrafficInfo(
    address: string,
    input: real,
    output: real,
    total: real,
    serverNumber: int,
    serverName: string,
    dnsName: string,
    product: string)

  /** `strings.Split(key, "/")[0]`: the longest prefix of `key` without a slash. */
  function BeforeSlash(key: string): (p: string)
    ensures p <= key && '/' !in p
    ensures |p| < |key| ==> key[|p|] == '/'
  {
    if key == [] || key[0] == '/' then [] else [key[0]] + BeforeSlash(key[1..])
  }

  /** The three properties of BeforeSlash determine it: any prefix that has them is the one. */
  lemma {:induction false} BeforeSlashUnique(key: string, p: string)
    requires p <= key && '/' !in p
    requires |p| < |key| ==> key[|p|] == '/'
    ensures BeforeSlash(key) == p
  {
    if key != [] && key[0] != '/' {
      assert p != [];
      assert p[0] == key[0];
      assert p[1..] <= key[1..];
      BeforeSlashUnique(key[1..], p[1..]);
    }
  }

  /**
   The DNS name of an address key: the PTR name under the key itself, else
   under the part of the key before its first slash, else empty.
   */
  function DnsName(key: string, rdns: map<string, string>): string {
    if key in rdns then rdns[key]
    else if BeforeSlash(key) in rdns then rdns[BeforeSlash(key)]
    else ""
  }

  /** A key without a slash is looked up only as itself: the fallback asks for the same string again. */
  lemma DnsNameBareIp(key: string, rdns: map<string, string>)
    requires '/' !in key
    ensures DnsName(key, rdns) == if key in rdns then rdns[key] else ""
  {
    BeforeSlashUnique(key, key);
  }

  /** A subnet key `ip/mask` falls back to the PTR name of its bare IP. */
  lemma DnsNameSubnet(sn: Subnet, rdns: map<string, string>)
    requires '/' !in sn.ip
    ensures DnsName(SubnetKey(sn), rdns) ==
      if SubnetKey(sn) in rdns then rdns[SubnetKey(sn)]
      else if sn.ip in rdns then rdns[sn.ip]
      else ""
  {
    BeforeSlashUnique(SubnetKey(sn), sn.ip);
  }

  /** The example of a `/32` subnet whose bare IP has a PTR record. */
  lemma DnsNameFallbackExample()
    ensures DnsName("5.5.5.5/32", map["5.5.5.5" := "foo"]) == "foo"
  {
    BeforeSlashUnique("5.5.5.5/32", "5.5.5.5");
  }

  /** The record for one key of the traffic response: the reference the join loop is proved against. */
  function InfoFor(key: string, figures: Figures, table: map<string, ServerEntry>, rdns: map<string, string>): TrafficInfo {
    var inTable := key in table;
    TrafficInfo(
      key, figures.incoming, figures.outgoing, figures.sum,
      if inTable then table[key].serverNumber else 0,
      if inTable then table[key].serverName else "",
      DnsName(key, rdns),
      if inTable then table[key].product else "")
  }

  /** A key that some server holds as a subnet gets that subnet's last holder's metadata. */
  lemma InfoForSubnetOwner(servers: seq<ServerEntry>, key: string, i: int, figures: Figures, rdns: map<string, string>)
    requires LastOwner(servers, SubnetKeys, key, i)
    ensures var info := InfoFor(key, figures, JoinTable(servers), rdns);
      info.serverNumber == servers[i].serverNumber && info.serverName == servers[i].serverName
      && info.product == servers[i].product
  {
    JoinTableSubnetOwner(servers, key, i);
  }

  /** A key that only appears as a server IP gets the metadata of the last server listing it. */
  lemma InfoForIpOwner(servers: seq<ServerEntry>, key: string, i: int, figures: Figures, rdns: map<string, string>)
    requires LastOwner(servers, IpKeys, key, i)
    requires forall j :: 0 <= j < |servers| ==> key !in SubnetKeys(servers[j])
    ensures var info := InfoFor(key, figures, JoinTable(servers), rdns);
      info.serverNumber == servers[i].serverNumber && info.serverName == servers[i].serverName
      && info.product == servers[i].product
  {
    JoinTableIpOwner(servers, key, i);
  }

  /** A key the inventory does not know keeps the zero values: number 0, empty name and product. */
  lemma InfoForUnknownKey(servers: seq<ServerEntry>, key: string, figures: Figures, rdns: map<string, string>)
    requires forall j :: 0 <= j < |servers| ==> key !in IpKeys(servers[j]) && key !in SubnetKeys(servers[j])
    ensures var info := InfoFor(key, figures, JoinTable(servers), rdns);
      info.serverNumber == 0 && info.serverName == "" && info.product == ""
      && info.address == key && info.input == figures.incoming
      && info.output == figures.outgoing && info.total == figures.sum
  {
    JoinTableKeys(servers, key);
  }

  /**
   One server (number 100) with the IP 1.2.3.4 and the subnet 10.0.0.0/24, and
   a PTR record for 1.2.3.4 only: the IP gets the server and the PTR name, the
   subnet gets the server and no DNS name, since neither it nor 10.0.0.0 has one.
   */
  lemma JoinExample(server: ServerEntry, rdns: map<string, string>)
    requires server == ServerEntry(100, "srv", "EX41", ["1.2.3.4"], [Subnet("10.0.0.0", "24")])
    requires rdns == map["1.2.3.4" := "host.example"]
    ensures InfoFor("1.2.3.4", Figures(1.0, 2.0, 3.0), JoinTable([server]), rdns)
      == TrafficInfo("1.2.3.4", 1.0, 2.0, 3.0, 100, "srv", "host.example", "EX41")
    ensures InfoFor("10.0.0.0/24", Figures(4.0, 5.0, 9.0), JoinTable([server]), rdns)
      == TrafficInfo("10.0.0.0/24", 4.0, 5.0, 9.0, 100, "srv", "", "EX41")
  {
    ExampleOwners(server);
    DnsNameSubnet(Subnet("10.0.0.0", "24"), rdns);
    assert "10.0.0.0" != "1.2.3.4";
  }

  /** In the example's join table both keys belong to the one server. */
  lemma ExampleOwners(server: ServerEntry)
    requires server == ServerEntry(100, "srv", "EX41", ["1.2.3.4"], [Subnet("10.0.0.0", "24")])
    ensures "1.2.3.4" in JoinTable([server]) && JoinTable([server])["1.2.3.4"] == server
    ensures "10.0.0.0/24" in JoinTable([server]) && JoinTable([server])["10.0.0.0/24"] == server
  {
    SubnetKeysSnoc(server.subnets, 0);
    assert server.subnets[..1] == server.subnets && server.subnets[..0] == [];
    assert SubnetKey(server.subnets[0]) == "10.0.0.0/24";
    assert SubnetKeys(server) == {"10.0.0.0/24"};
    assert "1.2.3.4" in IpKeys(server);
    assert "1.2.3.4" != "10.0.0.0/24";
    JoinTableIpOwner([server], "1.2.3.4", 0);
    JoinTableSubnetOwner([server], "10.0.0.0/24", 0);
  }

  /** `out` holds exactly one record per key of `data`, each the record InfoFor gives for that key. */
  ghost predicate IsSnapshot(out: seq<TrafficInfo>, data: map<string, Figures>, table: map<string, ServerEntry>, rdns: map<string, string>) {
    && |out| == |data.Keys|
    && (forall i :: 0 <= i < |out| ==>
          out[i].address in data && out[i] == InfoFor(out[i].address, data[out[i].address], table, rdns))
    && (forall i, j :: 0 <= i < j < |out| ==> out[i].address != out[j].address)
    && (forall k :: k in data ==> exists i :: 0 <= i < |out| && out[i].address == k)
  }

  /**
   The loop over the traffic response. Go visits a map in no fixed order, so
   the next key is any key not yet visited.
   */
  method JoinTraffic(data: map<string, Figures>, table: map<string, ServerEntry>, rdns: map<string, string>)
    returns (out: seq<TrafficInfo>)
    ensures IsSnapshot(out, data, table, rdns)
  {
    out := [];
    var remaining := data.Keys;
    while remaining != {}
      invariant remaining <= data.Keys
      invariant |out| + |remaining| == |data.Keys|
      invariant forall i :: 0 <= i < |out| ==>
        out[i].address in data && out[i].address !in remaining
        && out[i] == InfoFor(out[i].address, data[out[i].address], table, rdns)
      invariant forall i, j :: 0 <= i < j < |out| ==> out[i].address != out[j].address
      invariant forall k :: k in data && k !in remaining ==> exists i :: 0 <= i < |out| && out[i].address == k
      decreases |remaining|
    {
      var key :| key in remaining;
      var entry := data[key];
      var ti := TrafficInfo(key, entry.incoming, entry.outgoing, entry.sum, 0, "", "", "");
      if key in table {
        var s := table[key];
        ti := ti.(serverNumber := s.serverNumber, serverName := s.serverName, product := s.product);
      }
      var ok := key in rdns;
      var r := if ok then rdns[key] else "";
      if !ok {
        var tmp := BeforeSlash(key);
        ok := tmp in rdns;
        r := if ok then rdns[tmp] else "";
      }
      if ok {
        ti := ti.(dnsName := r);
      }
      ghost var prev := out;
      out := out + [ti];
      assert out[|prev|].address == key;
      assert forall i :: 0 <= i < |prev| ==> out[i] == prev[i];
      remaining := remaining - {key};
    }
  }
}
