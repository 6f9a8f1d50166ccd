/**
 `updateIPs`: the three remote calls, the billing period and the join, with
 every failure aborting the whole snapshot. The remote calls are inputs: what
 each endpoint answered once decoded, or how it failed. The traffic endpoint
 is a function of the form parameters it is sent.
 */
module Snapshot {
  import opened Period
  import opened Inventory
  import opened ReverseDns
  import opened Join

  /** How `basicRequest` fails: the transport, a non-200 reply with its error envelope, or an envelope that does not decode. */
  datatype RequestError = Transport | ApiError(status: int, code: string) | BadEnvelope

  /** The answer of one endpoint: the decoded payload, a failed request, or a 200 reply whose body does not decode. */
  datatype Reply<T> = Decoded(value: T) | Failed(error: RequestError) | Undecodable

  datatype Failure = RequestFailed(error: RequestError) | PayloadUndecodable

  /** The outcome of one `updateIPs` call; Fatal is the `log.Fatal` on an undecodable reverse-DNS payload. */
  datatype Update = Ok(infos: seq<TrafficInfo>) | Err(failure: Failure) | Fatal

  method UpdateIPs(
    now: Clock,
    serverReply: Reply<seq<ServerEntry>>,
    rdnsReply: Reply<seq<RdnsEntry>>,
    trafficReply: Values -> Reply<map<string, Figures>>)
    returns (u: Update)
    requires Valid(now)
    ensures serverReply.Failed? ==> u == Err(RequestFailed(serverReply.error))
    ensures serverReply.Undecodable? ==> u == Err(PayloadUndecodable)
    ensures serverReply.Decoded? && rdnsReply.Failed? ==> u == Err(RequestFailed(rdnsReply.error))
    ensures serverReply.Decoded? && rdnsReply.Undecodable? ==> u == Fatal
    ensures serverReply.Decoded? && rdnsReply.Decoded? ==>
      var servers := serverReply.value;
      var reply := trafficReply(QueryParams(BillingPeriod(now), servers));
      && (reply.Failed? ==> u == Err(RequestFailed(reply.error)))
      && (reply.Undecodable? ==> u == Err(PayloadUndecodable))
      && (reply.Decoded? ==> u.Ok? && IsSnapshot(u.infos, reply.value, JoinTable(servers), RdnsTable(rdnsReply.value)))
  {
    if serverReply.Failed? {
      return Err(RequestFailed(serverReply.error));
    }
    var period := BillingPeriod(now);
    if serverReply.Undecodable? {
      return Err(PayloadUndecodable);
    }
    var servers := serverReply.value;
    var ipToServer, par := BuildQuery(period, servers);
    match rdnsReply {
      case Failed(e) => return Err(RequestFailed(e));
      case Undecodable => return Fatal;
      case Decoded(entries) =>
        var rdns := BuildRdns(entries);
        match trafficReply(par) {
          case Failed(e) => return Err(RequestFailed(e));
          case Undecodable => return Err(PayloadUndecodable);
          case Decoded(data) =>
            var out := JoinTraffic(data, ipToServer, rdns);
            return Ok(out);
        }
    }
  }
}
