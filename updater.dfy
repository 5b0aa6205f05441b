/** The dynamic-DNS updater's `main`: find the machine's A record among the
    provider's records and decide whether it is up to date, needs an edit,
    or must be created; and the whole run, from the credentials check to
    the exit status, as a function of what the outside world answers. */
module Updater {
  import opened Wrappers
  import opened PyStr
  import opened Porkbun

  /** A record belongs to this machine when it is an A record and the
      hostname is one of the dot-separated labels of its name. */
  predicate Matches(r: DnsRecord, hostname: string)
  {
    r.recordType == "A" && hostname in Split(r.name, '.')
  }

  /** The label test without Split: the hostname has no dot and occurs in
      the name bounded by dots or the ends of the name. */
  lemma MatchesIff(r: DnsRecord, hostname: string)
    ensures Matches(r, hostname) <==>
      r.recordType == "A" && '.' !in hostname && exists i :: LabelAt(r.name, '.', hostname, i)
  {
    InSplitIff(r.name, '.', hostname);
  }

  /** The labels of the sample name `myhost.example.com`. */
  lemma SampleLabels()
    ensures Split("myhost.example.com", '.') == ["myhost", "example", "com"]
  {
    var parts := ["myhost", "example", "com"];
    assert parts[1..] == ["example", "com"];
    assert parts[1..][1..] == ["com"];
    assert Join(parts, '.') == "myhost.example.com";
    assert forall k :: 0 <= k < |parts| ==> '.' !in parts[k];
    SplitJoin(parts, '.');
  }

  lemma SampleLabelsMembership(labels: seq<string>)
    requires labels == ["myhost", "example", "com"]
    ensures "host" !in labels && "myhost" in labels
  {
  }

  /** A hostname that is only part of a label does not match; the whole
      label does. */
  lemma SubstringIsNotLabel(r: DnsRecord)
    requires r.recordType == "A" && r.name == "myhost.example.com"
    ensures !Matches(r, "host")
    ensures Matches(r, "myhost")
  {
    SampleLabels();
    SampleLabelsMembership(Split(r.name, '.'));
  }

  /** A hostname holding a dot is never a label, so no record ever matches it. */
  lemma DottedHostnameNeverMatches(r: DnsRecord, hostname: string)
    requires '.' in hostname
    ensures !Matches(r, hostname)
  {
    SeparatorNeverInPiece(r.name, '.', hostname);
  }

  /** A dot-free hostname matches the A record named `<hostname>.<domain>`. */
  lemma OwnRecordMatches(hostname: string, domain: string, r: DnsRecord)
    requires '.' !in hostname
    requires r.recordType == "A" && r.name == hostname + "." + domain
    ensures Matches(r, hostname)
  {
    FirstPiece(hostname, '.', domain);
    assert hostname + "." + domain == hostname + ['.'] + domain;
  }

  /** Index of the last matching record, or None when none matches. */
  function LastMatch(records: seq<DnsRecord>, hostname: string): (k: Option<nat>)
    ensures k.Some? ==> k.value < |records| && Matches(records[k.value], hostname)
    ensures k.Some? ==> forall j :: k.value < j < |records| ==> !Matches(records[j], hostname)
    ensures k.None? <==> forall j :: 0 <= j < |records| ==> !Matches(records[j], hostname)
    decreases |records|
  {
    if |records| == 0 then None
    else if Matches(records[|records| - 1], hostname) then Some(|records| - 1)
    else LastMatch(records[..|records| - 1], hostname)
  }

  /** The last match is the unique matching index with no match after it. */
  lemma LastMatchUnique(records: seq<DnsRecord>, hostname: string, k: nat)
    requires k < |records| && Matches(records[k], hostname)
    requires forall j :: k < j < |records| ==> !Matches(records[j], hostname)
    ensures LastMatch(records, hostname) == Some(k)
  {
    var m := LastMatch(records, hostname);
    assert m.Some?;
    assert !(m.value < k) && !(k < m.value);
  }

  /** The record the scan ends with: `current_record` after the loop. */
  function MatchedRecord(records: seq<DnsRecord>, hostname: string): Option<DnsRecord>
  {
    match LastMatch(records, hostname)
    case Some(k) => Some(records[k])
    case None => None
  }

  /** A non-matching record leaves the scan's result unchanged. */
  lemma {:induction false} ScanSkipsNonMatching(records: seq<DnsRecord>, r: DnsRecord, hostname: string)
    requires !Matches(r, hostname)
    ensures MatchedRecord(records + [r], hostname) == MatchedRecord(records, hostname)
  {
    assert (records + [r])[..|records|] == records;
  }

  /** A matching record replaces whatever the scan had found so far. */
  lemma {:induction false} ScanTakesMatching(records: seq<DnsRecord>, r: DnsRecord, hostname: string)
    requires Matches(r, hostname)
    ensures MatchedRecord(records + [r], hostname) == Some(r)
  {
    assert (records + [r])[|records|] == r;
  }

  /** Of two matching records, the later one in provider order wins. */
  lemma LaterMatchWins(records: seq<DnsRecord>, hostname: string, i: nat, j: nat)
    requires i < j < |records|
    requires Matches(records[i], hostname) && Matches(records[j], hostname)
    ensures LastMatch(records, hostname) != Some(i)
  {
  }

  /** The scan over the provider's records: every match overwrites the
      current record, so the last match in list order is kept. */
  method ScanRecords(records: seq<DnsRecord>, hostname: string) returns (current: Option<DnsRecord>)
    ensures current == MatchedRecord(records, hostname)
    ensures current.None? <==> forall j :: 0 <= j < |records| ==> !Matches(records[j], hostname)
    ensures current.Some? ==> current.value in records && Matches(current.value, hostname)
  {
    current := None;
    var i := 0;
    while i < |records|
      invariant 0 <= i <= |records|
      invariant current == MatchedRecord(records[..i], hostname)
    {
      var record := records[i];
      assert records[..i + 1] == records[..i] + [record];
      if record.recordType == "A" && hostname in Split(record.name, '.') {
        ScanTakesMatching(records[..i], record, hostname);
        current := Some(record);
      } else {
        ScanSkipsNonMatching(records[..i], record, hostname);
      }
      i := i + 1;
    }
    assert records[..i] == records;
  }

  /** The three ways the run can end once the records are known. */
  datatype Action = UpToDate | UpdateExisting | CreateNew

  /** The decision after the scan. */
  function Decide(current: Option<DnsRecord>, ip: string): (a: Action)
    ensures a == UpToDate <==> current.Some? && current.value.content == ip
    ensures a == UpdateExisting <==> current.Some? && current.value.content != ip
    ensures a == CreateNew <==> current.None?
  {
    if current.Some? then
      if ip == current.value.content then UpToDate else UpdateExisting
    else
      CreateNew
  }

  /** Everything the outside world contributes to one run.  A reply that is
      None stands for a call that raised instead of answering (and for a
      credentials file that is missing or not JSON). */
  datatype Environment = Environment(
    credentials: Option<Registrar>,
    argv: seq<string>,
    ping: Option<PingReply>,
    rawHostname: string,
    ipLookup: Option<string>,
    records: Option<RecordsReply>,
    writeReply: Option<WriteReply>)

  /** What a run does: the requests it sends, in order, and its exit status. */
  datatype RunResult = RunResult(sent: seq<Request>, exitCode: int)

  function Hostname(env: Environment): string
  {
    Strip(env.rawHostname)
  }

  /** The run gets past the credentials check and the ping. */
  predicate PingPasses(env: Environment)
  {
    env.credentials.Some? && env.ping.Some? && PingAccepted(env.ping.value) &&
    env.ping.value.status.Some? && env.ping.value.yourIp.Some?
  }

  /** The run gets past every check and reaches the decision. */
  predicate ReachesDecision(env: Environment)
  {
    PingPasses(env) && env.ipLookup.Some? && |env.argv| == 2 &&
    env.records.Some? && RecordsAccepted(env.records.value) && env.records.value.records.Some?
  }

  function Ip(env: Environment): string
    requires env.ipLookup.Some?
  {
    Strip(env.ipLookup.value)
  }

  function Domain(env: Environment): string
    requires |env.argv| == 2
  {
    env.argv[1]
  }

  function Records(env: Environment): seq<DnsRecord>
    requires ReachesDecision(env)
  {
    env.records.value.records.value
  }

  /** The three reads every run that reaches the decision has sent. */
  function Reads(env: Environment): seq<Request>
    requires ReachesDecision(env)
  {
    var c := env.credentials.value;
    [PingRequest(c), CheckIpRequest(), RetrieveRequest(Domain(env), c)]
  }

  /** The run, stage by stage, as a value.  Each early `sys.exit(1)` (and
      each uncaught exception, whose exit status is also 1) ends it with the
      requests sent so far. */
  function Outcome(env: Environment): RunResult
  {
    if env.credentials.None? then RunResult([], 1)
    else
      var c := env.credentials.value;
      if !PingPasses(env) then RunResult([PingRequest(c)], 1)
      else
        var sent := [PingRequest(c), CheckIpRequest()];
        if env.ipLookup.None? || |env.argv| != 2 then RunResult(sent, 1)
        else
          if !ReachesDecision(env) then RunResult(sent + [RetrieveRequest(Domain(env), c)], 1)
          else
            match DecidedWrite(env)
            case None => RunResult(Reads(env), 0)
            case Some(w) => RunResult(Reads(env) + [w], WriteStatus(env))
  }

  /** The write the decision calls for, if any. */
  function DecidedWrite(env: Environment): Option<Request>
    requires ReachesDecision(env)
  {
    var hostname, ip, c := Hostname(env), Ip(env), env.credentials.value;
    match Decide(MatchedRecord(Records(env), hostname), ip)
    case UpToDate => None
    case UpdateExisting => Some(UpdateRequest(Domain(env), hostname, ip, c))
    case CreateNew => Some(CreateRequest(Domain(env), hostname, ip, c))
  }

  /** The exit status after a write: 0 exactly when the provider answered
      with a success code and status "SUCCESS". */
  function WriteStatus(env: Environment): int
  {
    if env.writeReply.Some? && WriteSucceeded(env.writeReply.value) then 0 else 1
  }

  /** The program's `main`, in its own order: each failed check returns at
      once with exit status 1. */
  method Run(env: Environment) returns (result: RunResult)
    ensures result == Outcome(env)
  {
    if env.credentials.None? {
      return RunResult([], 1);
    }
    var creds := env.credentials.value;
    var sent := [PingRequest(creds)];
    if env.ping.None? {
      return RunResult(sent, 1);
    }
    var ping := env.ping.value;
    if !HttpSuccess(ping.statusCode) {
      return RunResult(sent, 1);
    }
    if ping.status.None? || ping.yourIp.None? {
      return RunResult(sent, 1);
    }
    var hostname := Strip(env.rawHostname);
    sent := sent + [CheckIpRequest()];
    if env.ipLookup.None? {
      return RunResult(sent, 1);
    }
    var ip := Strip(env.ipLookup.value);
    if |env.argv| != 2 {
      return RunResult(sent, 1);
    }
    var domain := env.argv[1];
    sent := sent + [RetrieveRequest(domain, creds)];
    if env.records.None? || !HttpSuccess(env.records.value.statusCode) {
      return RunResult(sent, 1);
    }
    if env.records.value.records.None? {
      return RunResult(sent, 1);
    }
    var current := ScanRecords(env.records.value.records.value, hostname);
    assert sent == Reads(env);
    assert Decide(current, ip) == Decide(MatchedRecord(Records(env), Hostname(env)), Ip(env));
    if current.Some? {
      if ip == current.value.content {
        return RunResult(sent, 0);
      }
      sent := sent + [UpdateRequest(domain, hostname, ip, creds)];
    } else {
      sent := sent + [CreateRequest(domain, hostname, ip, creds)];
    }
    if env.writeReply.Some? && WriteSucceeded(env.writeReply.value) {
      return RunResult(sent, 0);
    }
    return RunResult(sent, 1);
  }

  /** A missing or unreadable credentials file ends the run with status 1
      before any request is sent. */
  lemma MissingCredentialsSendsNothing(env: Environment)
    requires env.credentials.None?
    ensures Outcome(env) == RunResult([], 1)
  {
  }

  /** A failed ping ends the run with status 1 after the ping alone. */
  lemma FailedPingStopsRun(env: Environment)
    requires env.credentials.Some? && !PingPasses(env)
    ensures Outcome(env) == RunResult([PingRequest(env.credentials.value)], 1)
  {
  }

  /** A wrong number of command-line arguments ends the run with status 1
      and no record is read or written, but the ping and the public-IP
      lookup have already been sent. */
  lemma WrongArgumentCountStopsRun(env: Environment)
    requires PingPasses(env) && env.ipLookup.Some? && |env.argv| != 2
    ensures Outcome(env) == RunResult([PingRequest(env.credentials.value), CheckIpRequest()], 1)
    ensures forall k :: 0 <= k < |Outcome(env).sent| ==>
      !Outcome(env).sent[k].endpoint.Retrieve? && !IsWrite(Outcome(env).sent[k])
  {
  }

  /** Every run ends with status 0 or 1, sends at most one write, and a
      write is only ever the last request sent. */
  lemma AtMostOneWrite(env: Environment)
    ensures Outcome(env).exitCode == 0 || Outcome(env).exitCode == 1
    ensures WriteCount(Outcome(env).sent) <= 1
    ensures forall k :: 0 <= k < |Outcome(env).sent| - 1 ==> !IsWrite(Outcome(env).sent[k])
  {
    var r := Outcome(env);
    if ReachesDecision(env) && DecidedWrite(env).Some? {
      assert r.sent == Reads(env) + [DecidedWrite(env).value];
      assert r.sent[..3] == Reads(env);
      assert WriteCount(r.sent[..3]) == 0;
    }
  }

  /** Once the records are known, the run ends in exactly one of three ways:
      an up-to-date record means no write and status 0; a stale record means
      one edit of `(domain, A, hostname)`; no record means one create; the
      status after a write is 0 exactly when the write succeeded. */
  lemma DecisionOutcome(env: Environment)
    requires ReachesDecision(env)
    ensures var current := MatchedRecord(Records(env), Hostname(env));
            var c := env.credentials.value;
            var written := env.writeReply.Some? && WriteSucceeded(env.writeReply.value);
            (current.Some? && current.value.content == Ip(env) ==>
               Outcome(env) == RunResult(Reads(env), 0)) &&
            (current.Some? && current.value.content != Ip(env) ==>
               Outcome(env) == RunResult(Reads(env) + [UpdateRequest(Domain(env), Hostname(env), Ip(env), c)],
                                         if written then 0 else 1)) &&
            (current.None? ==>
               Outcome(env) == RunResult(Reads(env) + [CreateRequest(Domain(env), Hostname(env), Ip(env), c)],
                                         if written then 0 else 1))
  {
  }

  /** Status 0 means the run reached the decision and either the machine's
      record already held the public IP or the one write succeeded. */
  lemma ExitZeroIff(env: Environment)
    ensures Outcome(env).exitCode == 0 <==>
      ReachesDecision(env) &&
      (var current := MatchedRecord(Records(env), Hostname(env));
       (current.Some? && current.value.content == Ip(env)) ||
       (env.writeReply.Some? && WriteSucceeded(env.writeReply.value)))
  {
  }

  /** Whatever write a run sends carries the public IP and the fixed ttl
      under the run's credentials, for the run's domain and hostname. */
  lemma WriteCarriesIp(env: Environment, k: nat)
    requires k < |Outcome(env).sent| && IsWrite(Outcome(env).sent[k])
    ensures ReachesDecision(env)
    ensures k == 3 && DecidedWrite(env) == Some(Outcome(env).sent[k])
    ensures var w := Outcome(env).sent[k];
            w.body["content"] == Ip(env) && w.body["ttl"] == Ttl &&
            w.body["apikey"] == env.credentials.value.apikey &&
            w.body["secretapikey"] == env.credentials.value.secretapikey &&
            (w.endpoint == EditByNameType(Domain(env), "A", Hostname(env)) ||
             (w.endpoint == Create(Domain(env)) && w.body["name"] == Hostname(env) && w.body["type"] == "A"))
  {
  }

  /** A hostname with a dot in it never finds its record, so every run
      that reaches the decision creates a new one. */
  lemma DottedHostnameAlwaysCreates(env: Environment)
    requires ReachesDecision(env) && '.' in Hostname(env)
    ensures Outcome(env).sent == Reads(env) + [CreateRequest(Domain(env), Hostname(env), Ip(env), env.credentials.value)]
  {
    forall j | 0 <= j < |Records(env)|
      ensures !Matches(Records(env)[j], Hostname(env))
    {
      DottedHostnameNeverMatches(Records(env)[j], Hostname(env));
    }
  }

  /** A run whose matched record already holds the public IP writes
      nothing and ends with status 0. */
  lemma UpToDateRunWritesNothing(env: Environment)
    requires ReachesDecision(env)
    requires var current := MatchedRecord(Records(env), Hostname(env));
             current.Some? && current.value.content == Ip(env)
    ensures Outcome(env) == RunResult(Reads(env), 0)
    ensures WriteCount(Outcome(env).sent) == 0
  {
  }

  /** Idempotence after an edit, when the matched record is the one the
      edit request names: once the provider has applied that request, a
      second run on the same machine finds the same record holding the IP
      and writes nothing. */
  lemma RerunAfterUpdateWritesNothing(env: Environment, again: Environment)
    requires ReachesDecision(env) && ReachesDecision(again)
    requires again.rawHostname == env.rawHostname && again.ipLookup == env.ipLookup
    requires again.argv == env.argv && again.credentials == env.credentials
    requires var k := LastMatch(Records(env), Hostname(env));
             k.Some? && Records(env)[k.value].name == RecordName(Hostname(env), Domain(env))
    requires Records(again) ==
             ApplyEdit(Records(env), UpdateRequest(Domain(env), Hostname(env), Ip(env), env.credentials.value))
    ensures Outcome(again) == RunResult(Reads(again), 0)
  {
    var recs, h := Records(env), Hostname(env);
    var w := UpdateRequest(Domain(env), h, Ip(env), env.credentials.value);
    var k := LastMatch(recs, h).value;
    ApplyEditKeepsNames(recs, w);
    forall j | 0 <= j < |recs|
      ensures Matches(Records(again)[j], h) == Matches(recs[j], h)
    {
    }
    assert EditTargets(w.endpoint, recs[k]);
    LastMatchUnique(Records(again), h, k);
  }

  /** Idempotence after a create: if the first run decided to create and
      the provider stored the created record anywhere among the others, a
      second run on the same machine writes nothing, provided the hostname
      has no dot (see DottedHostnameAlwaysCreates) and is not empty (see
      EmptyHostnameApexNeverMatches). */
  lemma RerunAfterCreateWritesNothing(env: Environment, again: Environment, id: string, p: nat)
    requires ReachesDecision(env) && ReachesDecision(again)
    requires '.' !in Hostname(env) && Hostname(env) != ""
    requires again.rawHostname == env.rawHostname && again.ipLookup == env.ipLookup
    requires again.argv == env.argv && again.credentials == env.credentials
    requires Decide(MatchedRecord(Records(env), Hostname(env)), Ip(env)) == CreateNew
    requires p <= |Records(env)|
    requires
      var body := CreateRequest(Domain(env), Hostname(env), Ip(env), env.credentials.value).body;
      Records(again) == Records(env)[..p] + [Created(id, Domain(env), body)] + Records(env)[p..]
    ensures Outcome(again) == RunResult(Reads(again), 0)
  {
    var recs, h := Records(env), Hostname(env);
    var body := CreateRequest(Domain(env), h, Ip(env), env.credentials.value).body;
    var created := Created(id, Domain(env), body);
    OwnRecordMatches(h, Domain(env), created);
    assert LastMatch(recs, h).None?;
    forall j | p < j < |Records(again)|
      ensures !Matches(Records(again)[j], h)
    {
      assert Records(again)[j] == recs[j - 1];
    }
    assert Records(again)[p] == created;
    LastMatchUnique(Records(again), h, p);
  }

  /** As written, the scan takes any record with the hostname among its
      labels, but the edit names only `<hostname>.<domain>`.  With the A
      record `myhost.lan.example.com` alone, the run edits, the edit names
      no record, so the records after it are the ones the run started from:
      every later run sends the same edit again. */
  lemma MatchedRecordMissedByEdit(c: Registrar, reply: WriteReply)
    ensures
      var record := DnsRecord("1", "myhost.lan.example.com", "A", "600", "203.0.113.5");
      var env := SampleRun(c, record, reply);
      var w := UpdateRequest("example.com", "myhost", "203.0.113.9", c);
      Outcome(env).sent == Reads(env) + [w] && ApplyEdit(Records(env), w) == Records(env)
  {
    var record := DnsRecord("1", "myhost.lan.example.com", "A", "600", "203.0.113.5");
    var env := SampleRun(c, record, reply);
    var w := UpdateRequest("example.com", "myhost", "203.0.113.9", c);
    SampleRunInputs(c, record, reply);
    LabelNotInName(record, w.endpoint);
    LastMatchUnique([record], "myhost", 0);
    ApplyEditKeepsNames([record], w);
    DecisionOutcome(env);
  }

  /** `myhost` is the first label of `myhost.lan.example.com`, which is
      not the name `myhost.example.com` the edit asks for. */
  lemma LabelNotInName(r: DnsRecord, e: Endpoint)
    requires r.recordType == "A" && r.name == "myhost.lan.example.com"
    requires e == EditByNameType("example.com", "A", "myhost")
    ensures Matches(r, "myhost") && !EditTargets(e, r)
  {
    assert "myhost" + "." + "lan.example.com" == r.name;
    OwnRecordMatches("myhost", "lan.example.com", r);
    assert |r.name| != |e.subdomain + "." + e.domain|;
  }

  /** The record an edit for `hostname` in `domain` names: the A record
      called `<hostname>.<domain>`, or the apex A record for an empty
      hostname. */
  predicate Owns(r: DnsRecord, hostname: string, domain: string)
  {
    EditTargets(EditByNameType(domain, "A", hostname), r)
  }

  /** The corrected scan: the index of the last record the edit would
      name, or None when there is none. */
  function LastOwned(records: seq<DnsRecord>, hostname: string, domain: string): (k: Option<nat>)
    ensures k.Some? ==> k.value < |records| && Owns(records[k.value], hostname, domain)
    ensures k.Some? ==> forall j :: k.value < j < |records| ==> !Owns(records[j], hostname, domain)
    ensures k.None? <==> forall j :: 0 <= j < |records| ==> !Owns(records[j], hostname, domain)
    decreases |records|
  {
    if |records| == 0 then None
    else if Owns(records[|records| - 1], hostname, domain) then Some(|records| - 1)
    else LastOwned(records[..|records| - 1], hostname, domain)
  }

  /** With the corrected scan the edit always reaches the record found:
      after the provider applies it, the scan finds the same record, now
      holding the IP, so a second run writes nothing. */
  lemma CorrectedEditReachesMatch(records: seq<DnsRecord>, hostname: string, domain: string, ip: string, c: Registrar)
    requires LastOwned(records, hostname, domain).Some?
    ensures var after := ApplyEdit(records, UpdateRequest(domain, hostname, ip, c));
            var k := LastOwned(records, hostname, domain).value;
            LastOwned(after, hostname, domain) == Some(k) && after[k].content == ip
  {
    var w := UpdateRequest(domain, hostname, ip, c);
    var after := ApplyEdit(records, w);
    var k := LastOwned(records, hostname, domain).value;
    ApplyEditKeepsNames(records, w);
    forall j | 0 <= j < |records|
      ensures Owns(after[j], hostname, domain) == Owns(records[j], hostname, domain)
    {
    }
    assert EditTargets(w.endpoint, records[k]);
    LastOwnedUnique(after, hostname, domain, k);
  }

  /** The last owned record is the unique owned index with none after it. */
  lemma LastOwnedUnique(records: seq<DnsRecord>, hostname: string, domain: string, k: nat)
    requires k < |records| && Owns(records[k], hostname, domain)
    requires forall j :: k < j < |records| ==> !Owns(records[j], hostname, domain)
    ensures LastOwned(records, hostname, domain) == Some(k)
  {
    var m := LastOwned(records, hostname, domain);
    assert m.Some?;
    assert !(m.value < k) && !(k < m.value);
  }

  /** The corrected scan finds only records the label match accepts too:
      for a dot-free, non-empty hostname, owning implies matching. */
  lemma OwnedRecordMatches(r: DnsRecord, hostname: string, domain: string)
    requires '.' !in hostname && hostname != "" && Owns(r, hostname, domain)
    ensures Matches(r, hostname)
  {
    OwnRecordMatches(hostname, domain, r);
  }

  /** The labels of the sample domain `example.com`. */
  lemma SampleDomainLabels()
    ensures Split("example.com", '.') == ["example", "com"]
  {
    var parts := ["example", "com"];
    assert parts[1..] == ["com"];
    assert Join(parts, '.') == "example.com";
    assert forall k :: 0 <= k < |parts| ==> '.' !in parts[k];
    SplitJoin(parts, '.');
  }

  /** An empty hostname: the create names the apex record `example.com`,
      and the empty string is no label of `example.com`, so that record is
      never the machine's and every run creates again. */
  lemma EmptyHostnameApexNeverMatches(c: Registrar, ip: string, id: string)
    ensures Created(id, "example.com", CreateRequest("example.com", "", ip, c).body).name == "example.com"
    ensures !Matches(Created(id, "example.com", CreateRequest("example.com", "", ip, c).body), "")
  {
    SampleDomainLabels();
    EmptyNotALabel(Split("example.com", '.'));
  }

  lemma EmptyNotALabel(labels: seq<string>)
    requires labels == ["example", "com"]
    ensures "" !in labels
  {
  }

  /** The ping is judged by its HTTP status alone: a success code passes
      whatever status field the provider sends, "ERROR" included. */
  lemma PingIgnoresProviderStatus(env: Environment, code: int, status: string, ip: string)
    requires env.credentials.Some? && HttpSuccess(code)
    requires env.ping == Some(PingReply(code, Some(status), Some(ip)))
    ensures PingPasses(env)
  {
  }

  /** A write is judged by the provider's status field as well: a write
      answered with a success code but a status other than "SUCCESS" ends
      the run with status 1. */
  lemma WriteNeedsProviderStatus(env: Environment, code: int, status: string)
    requires ReachesDecision(env) && DecidedWrite(env).Some?
    requires env.writeReply == Some(WriteReply(code, Some(status))) && status != "SUCCESS"
    ensures Outcome(env).exitCode == 1 && WriteCount(Outcome(env).sent) == 1
  {
    assert Outcome(env).sent == Reads(env) + [DecidedWrite(env).value];
    assert Outcome(env).sent[..3] == Reads(env);
  }

  /** A sample run: domain `example.com`, hostname `myhost`, public IP
      `203.0.113.9` (both read with a trailing newline), one record. */
  function SampleRun(c: Registrar, record: DnsRecord, reply: WriteReply): Environment
  {
    Environment(Some(c), ["main.py", "example.com"],
                Some(PingReply(200, Some("SUCCESS"), Some("203.0.113.9"))),
                "myhost\n", Some("203.0.113.9\n"),
                Some(RecordsReply(200, Some([record]))), Some(reply))
  }

  lemma SampleRunInputs(c: Registrar, record: DnsRecord, reply: WriteReply)
    ensures ReachesDecision(SampleRun(c, record, reply))
    ensures Hostname(SampleRun(c, record, reply)) == "myhost"
    ensures Ip(SampleRun(c, record, reply)) == "203.0.113.9"
    ensures Domain(SampleRun(c, record, reply)) == "example.com"
  {
    StripSurrounded([], "myhost", "\n");
    StripSurrounded([], "203.0.113.9", "\n");
    assert [] + "myhost" + "\n" == "myhost\n";
    assert [] + "203.0.113.9" + "\n" == "203.0.113.9\n";
  }

  /** A stale A record `myhost.example.com` is edited to the new IP, and
      the run ends with status 0. */
  lemma SampleStaleRecordIsUpdated(c: Registrar)
    ensures
      var record := DnsRecord("1", "myhost.example.com", "A", "600", "203.0.113.5");
      var env := SampleRun(c, record, WriteReply(200, Some("SUCCESS")));
      Outcome(env) == RunResult(Reads(env) + [UpdateRequest("example.com", "myhost", "203.0.113.9", c)], 0)
  {
    var record := DnsRecord("1", "myhost.example.com", "A", "600", "203.0.113.5");
    var env := SampleRun(c, record, WriteReply(200, Some("SUCCESS")));
    SampleRunInputs(c, record, WriteReply(200, Some("SUCCESS")));
    SubstringIsNotLabel(record);
    LastMatchUnique([record], "myhost", 0);
    DecisionOutcome(env);
  }

  /** The same record already holding the IP: no write, status 0. */
  lemma SampleCurrentRecordIsLeftAlone(c: Registrar, reply: WriteReply)
    ensures
      var record := DnsRecord("1", "myhost.example.com", "A", "600", "203.0.113.9");
      var env := SampleRun(c, record, reply);
      Outcome(env) == RunResult(Reads(env), 0)
  {
    var record := DnsRecord("1", "myhost.example.com", "A", "600", "203.0.113.9");
    var env := SampleRun(c, record, reply);
    SampleRunInputs(c, record, reply);
    SubstringIsNotLabel(record);
    LastMatchUnique([record], "myhost", 0);
    DecisionOutcome(env);
  }

  /** A record of the right name but not of type A is not the machine's:
      a new A record is created, and a create the provider rejects ends
      the run with status 1. */
  lemma SampleNonARecordLeadsToCreate(c: Registrar)
    ensures
      var record := DnsRecord("7", "myhost.example.com", "CNAME", "600", "203.0.113.9");
      var env := SampleRun(c, record, WriteReply(200, Some("ERROR")));
      Outcome(env) == RunResult(Reads(env) + [CreateRequest("example.com", "myhost", "203.0.113.9", c)], 1)
  {
    var record := DnsRecord("7", "myhost.example.com", "CNAME", "600", "203.0.113.9");
    var env := SampleRun(c, record, WriteReply(200, Some("ERROR")));
    SampleRunInputs(c, record, WriteReply(200, Some("ERROR")));
    assert !Matches(record, "myhost");
    DecisionOutcome(env);
  }
}
