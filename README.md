# hetzner-traffic-exporter: a verified model of the polling and reconciliation core

The exporter polls a hosting provider's account API for per-address traffic
counters and exposes them as Prometheus counters. Each poll cycle runs
`updateIPs`, which makes three remote calls: the server inventory, the
reverse-DNS table, and traffic per IP/subnet for the current billing period.
It joins their results by address key into `TrafficInfo` records.
`updateMetrics` then resets the three counter families `input_gb`,
`output_gb` and `total_gb` and refills them from those records, and sleeps
or returns.

This project models that core in Dafny. The decoded API payloads and the
wall-clock time are inputs. The model consists of:

- `decimal.dfy` (module `Decimal`): `strconv.Itoa`, used for the
  `server_number` label, and the zero-padded digit fields of Go's time
  layout `"2006-01"`, each with a parser that undoes it.
- `period.dfy` (module `Period`): "now minus one hour" on a wall clock
  (year, month, day, hour), the period `P` printed as `YYYY-MM`, and the
  window `P-01` to `P-31`.
- `inventory.dfy` (module `Inventory`): the server entries, the join table
  `ipToServer` and the `url.Values` form parameters of the traffic query.
  These are built by the nested loops of `updateIPs`, modelled as methods
  proved against fold functions.
- `rdns.dfy` (module `ReverseDns`): the table-building loop of `handleRDNS`.
- `join.dfy` (module `Join`): the per-key `TrafficInfo` with the DNS-name
  fallback (`strings.Split(key, "/")[0]`), and the loop over the traffic map
  in unspecified order.
- `snapshot.dfy` (module `Snapshot`): the control flow of `updateIPs`. Each
  remote call is a `Reply`: decoded, failed request (transport error, API
  error envelope, or an envelope that does not decode), or a 200 reply whose
  body does not decode. The traffic endpoint is a function of the parameters
  it is sent.
- `metrics.dfy` (module `Metrics`): the three counter families as a class
  holding maps from label tuple to value, with `Apply` (reset, then one
  `Add` per record).
- `scheduler.dfy` (module `Scheduler`): one cycle of the `updateMetrics`
  loop, and the loop run over a finite sequence of cycle outcomes.

Behaviour that the model takes from the code as written:

- A failed update `continue`s at once. There is no sleep, and even in
  one-shot mode the loop does not return after a failure; it tries again.
- Only an undecodable reverse-DNS payload ends the process (`log.Fatal`).
  An undecodable server list or traffic payload is an ordinary cycle error,
  and so is an undecodable error envelope.
- The DNS fallback lookup by the part before the first `/` happens for every
  key whose direct lookup misses, whether or not it contains `/`. A key
  without `/` that misses is looked up a second time under the same string.
- The pause `time.Duration(i) * 60 * time.Second` is an int64 count of
  nanoseconds, so above 153722867 minutes the product wraps. Up to 307445734
  minutes it is negative, `time.Sleep` returns at once and the loop polls
  again without pausing. Beyond that it is the product modulo 2^64 read as a
  signed value: 307445735 minutes, for instance, sleeps about 26 seconds.
- The counters are reset and refilled with no lock around the two steps.

## Model

| member | source | states |
|---|---|---|
| `Decimal.Itoa` | main.go:282 | `strconv.Itoa`: a minus sign for negative numbers, then the decimal digits; characterised by `ItoaRoundTrip` and `ItoaInjective` |
| `Decimal.ItoaRoundTrip` | main.go:282 | `strconv.Itoa` text of the server number parses back to the same integer (so the label loses nothing) |
| `Decimal.ItoaInjective` | main.go:282 | distinct server numbers give distinct `server_number` label values |
| `Decimal.PaddedDigits` | main.go:196 | a layout field of at least `width` digits whose decimal value is the number printed |
| `Decimal.PaddedDigitsWidth` | main.go:196 | a number below 10^width is printed in exactly `width` digits |
| `Period.HourBefore` | main.go:192-195 | one hour before a valid wall-clock reading is again valid, and the year changes only from January to December of the previous year |
| `Period.HourBeforeThenAfter` | main.go:195 | going back one hour and forward one hour returns to the same reading |
| `Period.HourAfterThenBefore` | main.go:195 | going forward one hour and back one hour returns to the same reading, so `HourBefore` is the exact inverse of the reference `HourAfter` |
| `Period.HourAfter` | main.go:195 | the reference step one hour forward on a valid wall clock, whose result is valid; `HourBefore` is proved its exact inverse |
| `Period.DaysIn` | main.go:195 | Gregorian month lengths (28 to 31; 31 exactly in months 1, 3, 5, 7, 8, 10, 12; 29 exactly in February of a leap year), used when the hour step crosses a day boundary |
| `Period.YearMonth` | main.go:196 | Go's layout `"2006-01"` for a (year, month), at least 7 characters; characterised by `YearMonthFields` and `YearMonthInjective` |
| `Period.YearMonthFields` | main.go:196 | for years 0-9999 the period text is `YYYY-MM`: 7 characters, a dash at index 4, and fields that read back as the year and the month |
| `Period.YearMonthInjective` | main.go:196 | for years 0-9999, different (year, month) pairs give different period texts |
| `Period.BillingPeriod` | main.go:192-196 | the period `P`: the layout text of one hour before now; characterised by `BillingPeriodMonth` |
| `Period.Window` | main.go:209-210 | a bound of the query window: the period, a dash and the day (`01` or the literal `31`), with each part at its known position |
| `Period.BillingPeriodMonth` | main.go:192-196 | `P` is the current month, except in hour 0 of day 1, where it is the previous month (December of the previous year in January) |
| `Inventory.SubnetKey` | main.go:220 | a subnet's join key is its IP, a `/` and its mask, and both parts can be recovered from it |
| `Inventory.Index` | main.go:211-224 | one pass over the inventory assigning each key of each server to that server; characterised by `IndexKeys` and `IndexLastOwner` |
| `Inventory.JoinTable` | main.go:206-224 | `ipToServer`: the IP pass followed by the subnet pass; characterised by `JoinTableKeys`, `JoinTableSubnetOwner` and `JoinTableIpOwner` |
| `Inventory.IndexKeys` | main.go:211-224 | folding the inventory binds exactly the keys that some server has |
| `Inventory.IndexLastOwner` | main.go:211-224 | a key is bound to the last server in inventory order that has it (later overwrites earlier) |
| `Inventory.JoinTableKeys` | main.go:206-224 | the join table's keys are exactly the server IPs and the `ip/mask` subnet keys |
| `Inventory.JoinTableSubnetOwner` | main.go:218-224 | a subnet key maps to its last holder, whatever the earlier IP pass wrote |
| `Inventory.JoinTableIpOwner` | main.go:211-216 | a key that is no subnet key maps to the last server listing it as an IP |
| `Inventory.SetValue` | main.go:208-210 | `url.Values.Set` gives the key exactly one value and leaves the other keys alone |
| `Inventory.AddValue` | main.go:214 | `url.Values.Add` appends to the key's list, creating it when absent, and leaves the other keys alone |
| `Inventory.AllIps` | main.go:211-216 | the `ip[]` values in inventory order; characterised by `AllIpsMembers` |
| `Inventory.AllIpsMembers` | main.go:211-216 | the `ip[]` list holds exactly the IPs of the inventory |
| `Inventory.SubnetIps` | main.go:222 | one `subnet[]` value per subnet, in order, each the subnet IP and never the mask |
| `Inventory.AllSubnetIps` | main.go:218-224 | the `subnet[]` values in inventory order; characterised by `AllSubnetIpsMembers` |
| `Inventory.AllSubnetIpsMembers` | main.go:218-224 | the `subnet[]` list holds exactly the subnet IPs of the inventory |
| `Inventory.QueryParams` | main.go:207-224 | the query has `type=month`, `from=P-01`, `to=P-31`, `ip[]` and `subnet[]` in inventory order (each present only when non-empty), and no other key |
| `Inventory.BuildQuery` | main.go:204-224 | the loops produce exactly the join table and the query parameters above |
| `Inventory.AddIpKeys` | main.go:211-216 | the IP loops bind each IP to its server and append it to `ip[]` |
| `Inventory.AddServerIps` | main.go:212-215 | the inner loop over one server's IPs binds each IP to the server and appends it to `ip[]` |
| `Inventory.AddSubnetKeys` | main.go:218-224 | the subnet loops, run after the IP loops, override with subnet keys and append subnet IPs to `subnet[]` |
| `Inventory.AddServerSubnets` | main.go:219-223 | the inner loop over one server's subnets binds each `ip/mask` key to the server and appends each subnet IP |
| `ReverseDns.RdnsTable` | main.go:165-167 | the IP-to-PTR map, later entries overwriting earlier ones; characterised by `RdnsTableKeys` and `RdnsTableLastWins` |
| `ReverseDns.RdnsTableKeys` | main.go:165-167 | the reverse-DNS table holds exactly the IPs named by some entry |
| `ReverseDns.RdnsTableLastWins` | main.go:165-167 | each IP maps to the PTR name of the last entry for it |
| `ReverseDns.BuildRdns` | main.go:165-167 | the loop of `handleRDNS` produces exactly that table |
| `Join.BeforeSlash` | main.go:252-253 | the first field of `strings.Split(key, "/")` is a prefix of the key with no slash, followed by a slash or the end of the key |
| `Join.BeforeSlashUnique` | main.go:252-253 | those properties determine that prefix uniquely |
| `Join.DnsName` | main.go:250-257 | the PTR name under the key, else under the part before its first `/` when the direct lookup misses, else `""`; characterised by `DnsNameBareIp`, `DnsNameSubnet` and `DnsNameFallbackExample` |
| `Join.InfoFor` | main.go:238-257 | the reference record for one traffic key, against which `JoinTraffic` is proved; characterised by `InfoForSubnetOwner`, `InfoForIpOwner` and `InfoForUnknownKey` |
| `Join.DnsNameBareIp` | main.go:250-257 | a key without `/` gets its own PTR name or `""`; the fallback asks for the same string again |
| `Join.DnsNameSubnet` | main.go:250-257 | a subnet key gets its own PTR name, else that of its bare IP, else `""` |
| `Join.DnsNameFallbackExample` | main.go:250-257 | `5.5.5.5/32` with only `5.5.5.5 -> foo` in the table gets the name `foo` |
| `Join.InfoForSubnetOwner` | main.go:244-249 | a record for a subnet key carries the number, name and product of that subnet's last holder |
| `Join.InfoForIpOwner` | main.go:244-249 | a record for a key that is only an IP carries the metadata of the last server listing it |
| `Join.InfoForUnknownKey` | main.go:238-249 | a key the inventory does not know keeps the zero values `0`, `""`, `""`, and its traffic figures are copied unchanged |
| `Join.JoinExample` | main.go:237-259 | the server 100 example: the IP gets the server and `host.example`, the subnet gets the server and an empty DNS name |
| `Join.JoinTraffic` | main.go:237-259 | exactly one record per key of the traffic response, with `address` equal to the key, each the reference record for it; inventory keys without traffic produce nothing; no ordering is promised |
| `Snapshot.UpdateIPs` | main.go:181-261 | a failed server request, an undecodable server list, a failed reverse-DNS request or any traffic failure gives a cycle error; an undecodable reverse-DNS payload is fatal; otherwise the traffic is queried with `QueryParams` for `P` and the result is the join of all three |
| `Metrics.LabelsOf` | main.go:280-286 | the label tuple a record is counted under, the server number rendered by `Itoa`; characterised by `LabelsOfRecovers` |
| `Metrics.Accumulated` | main.go:275-302 | one family after `Reset` and one `Add` per record in order; characterised by `AccumulatedKeys`, `AccumulatedIsSet` and `ReconciledMatchesTraffic` |
| `Metrics.LabelsOfRecovers` | main.go:280-286 | the label tuple keeps the address and DNS name, and its `server_number` text parses back to the number |
| `Metrics.AddTo` | main.go:280-300 | `With(labels).Add(v)`: the counter under the labels is created at zero when absent and grows by `v`; the other counters are unchanged |
| `Metrics.AccumulatedKeys` | main.go:275-302 | after reset and refill, the label tuples present are exactly those of the snapshot's records |
| `Metrics.AccumulatedIsSet` | main.go:275-302 | with one record per address, each tuple holds exactly its record's figure (add after reset acts as set) |
| `Metrics.ReconciledMatchesTraffic` | main.go:237-302 | after a successful cycle each family has one label tuple per traffic key and no other: every tuple names a traffic key, every key has a tuple, no key has two, and every tuple holds its key's `In`, `Out` or `Sum` unchanged |
| `Metrics.ReconciledCoversTraffic` | main.go:237-302 | every traffic key has the label tuple of its record, holding that key's figure, and no tuple names an address outside the response |
| `Metrics.ReconciledNoOtherTuples` | main.go:237-302 | no traffic key has two label tuples, and every tuple present holds the figure of the key it names |
| `Metrics.ReconciledTupleValue` | main.go:275-302 | every label tuple present after a successful cycle holds the figure of the traffic key it names |
| `Metrics.ReconciledTupleUnique` | main.go:275-302 | two label tuples present after a successful cycle with the same address are the same tuple |
| `Metrics.Counters.constructor` | main.go:85-108 | freshly registered families hold no label tuple |
| `Metrics.Counters.Apply` | main.go:275-302 | the families afterwards hold exactly the reset-and-refill result for the snapshot; the new state depends on the snapshot alone, so applying it twice gives the same state |
| `Scheduler.WaitMinutes` | main.go:311-314 | the clamped interval in minutes is at least 1 and at least the configured interval, and is the interval or 1 |
| `Scheduler.Int64Wrap` | main.go:315 | int64 arithmetic: the result lies in [-2^63, 2^63), differs from the exact value by a multiple of 2^64, and equals it when it fits |
| `Scheduler.SleepDuration` | main.go:315 | the int64-wrapped nanosecond product handed to `time.Sleep`; characterised by `SleepDurationExact`, `SleepDurationWraps` and `SleepDurationWrapsPositive` |
| `Scheduler.SleepDurationExact` | main.go:315 | for 1 to 153722867 minutes the nanosecond duration handed to `time.Sleep` is exactly minutes·60·10^9, hence at least one minute |
| `Scheduler.SleepDurationWraps` | main.go:315 | at 153722868 minutes the int64 product wraps to -9223371993709551616 ns, a negative duration |
| `Scheduler.SleepDurationWrapsPositive` | main.go:315 | at 307445734 minutes the duration is still negative, at 307445735 it wraps past zero to 26290448384 ns, a pause of about 26 seconds |
| `Scheduler.SleepAfterSuccess` | main.go:311-315 | after a success in continuous mode with an interval that fits, the loop sleeps exactly the clamped interval, at least one minute |
| `Scheduler.NextAfter` | main.go:269-315 | after an error the loop retries at once (no sleep, even in one-shot mode); after a success it returns in one-shot mode and otherwise sleeps for the int64 nanosecond duration `SleepDuration(WaitMinutes(interval))`; a fatal decode ends the process |
| `Scheduler.Cycle` | main.go:264-316 | one pass of the loop: a success replaces the counters by the snapshot, a failure leaves them untouched, and the next step is `NextAfter` |
| `Scheduler.LatestSuccess` | main.go:269-302 | the snapshot the counters hold after several cycles; characterised by `LatestSuccessIsLast` and `LatestSuccessStep` |
| `Scheduler.LatestSuccessIsLast` | main.go:269-302 | the snapshot the counters hold after several cycles is the one of the last successful cycle, and there is none exactly when no cycle succeeded |
| `Scheduler.LatestSuccessStep` | main.go:269-302 | one more cycle sets the latest snapshot to its own on success and keeps the previous one otherwise |
| `Scheduler.Actions` | main.go:264-316 | the actions of the loop over a sequence of cycle outcomes, up to and including the first that stops it; characterised by `ActionsShape` |
| `Scheduler.ActionsShape` | main.go:264-316 | the loop takes one action per cycle, each `NextAfter` of that cycle's outcome; none but the last stops it; it ends before the outcomes run out only by stopping |
| `Scheduler.ActionsStep` | main.go:264-316 | one more cycle either completes the actions (its action stops the loop) or leaves them to be continued from the next cycle |
| `Scheduler.Run` | main.go:263-317 | the loop takes exactly the actions `Actions(updates)` and leaves the counters holding the last successful snapshot among the cycles it ran, or untouched if none of them succeeded |

## Left out

- HTTP mechanics of `basicRequest` (main.go:118-145) are not modelled: building the request, basic-auth and content-type headers, and reading the body. Its outcome is the `Reply` input. The `log.Fatal` on an unbuildable request is left out because the URLs are fixed.
- JSON decoding is a library call. It is replaced by the `Decoded`/`Undecodable` reply. Server-entry fields the core never reads (`Server_IP`, `Dc`, `Traffic`, `Flatrate`, `Status`, `Throttled`, `Canceled`, `Paid_until`) are dropped.
- `url.Values.Encode` is not modelled: the key-sorted, percent-escaped POST body. The model stops at the parameter map.
- Traffic figures are exact `real`s instead of `float64`. IEEE rounding, `-0.0` and NaN are not modelled, nor the float sum `curTotal` used only for logging (main.go:278, 301). Prometheus' `Counter.Add` panics on a negative value; the model does not capture that panic.
- Time is a wall-clock reading (year, month, day, hour) given as input. Time zones and daylight-saving shifts of `time.Now().Add(-1h)` in local time are not modelled. Minutes and seconds do not affect the period.
- `time.Sleep`, the goroutine started in `main`, and concurrent scrapes are left out. The code has no lock, so a scrape may see the reset-but-not-refilled counters; the model has no interleaving and does not show this.
- Scheduler.Run: the source loop never ends in continuous mode. The model runs it over a finite sequence of cycle outcomes.
- Exposition is not modelled: `promhttp`, metric registration, `handleOneshot`'s gather-and-print (main.go:319-335), and the duration logging.
- Flag parsing, the credential environment check, and the version and license banners in `main` (main.go:337-369) are left out.
