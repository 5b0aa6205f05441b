/** The DNS provider's HTTP API as the updater sees it: the records it
    returns, the requests the updater sends (endpoint and JSON body), the
    replies, and when a reply counts as success.  The HTTP transport itself
    is not modelled: replies are given values. */
module Porkbun {
  import opened Wrappers
  import opened PyStr

  /** The `registrar` object of the credentials document: the API key pair
      that authenticates every provider request. */
  datatype Registrar = Registrar(apikey: string, secretapikey: string)

  /** One provider-side DNS record as listed by the retrieve endpoint. */
  datatype DnsRecord = DnsRecord(id: string, name: string, recordType: string, ttl: string, content: string)

  /** The endpoints the updater calls. */
  datatype Endpoint =
    | Ping
    | CheckIp
    | Retrieve(domain: string)
    | EditByNameType(domain: string, recordType: string, subdomain: string)
    | Create(domain: string)

  /** A request: a GET with no body, or a POST with a JSON object of strings. */
  datatype Request =
    | Get(endpoint: Endpoint)
    | Post(endpoint: Endpoint, body: map<string, string>)

  const ApiBase: string := "https://porkbun.com/api/json/v3/"
  const CheckIpUrl: string := "https://checkip.amazonaws.com/"

  /** The fixed time-to-live the updater writes on every record. */
  const Ttl: string := "600"

  /** The URL each endpoint is reached at. */
  function Url(e: Endpoint): (u: string)
    ensures e == CheckIp <==> u == CheckIpUrl
    ensures e != CheckIp ==> |ApiBase| < |u| && u[..|ApiBase|] == ApiBase
  {
    if e.CheckIp? then CheckIpUrl else ApiBase + Path(e)
  }

  /** The path of a provider endpoint below the API base URL. */
  function Path(e: Endpoint): string
    requires !e.CheckIp?
  {
    match e
    case Ping => "ping"
    case Retrieve(d) => "dns/retrieve/" + d
    case EditByNameType(d, t, sub) => "dns/editByNameType/" + (d + "/" + t + "/" + sub)
    case Create(d) => "dns/create/" + d
  }

  /** The first letter of a path tells a ping from a DNS endpoint, and the
      fifth tells the DNS endpoints apart. */
  lemma PathKind(e: Endpoint)
    requires !e.CheckIp?
    ensures |Path(e)| >= 4
    ensures e.Ping? <==> Path(e)[0] == 'p'
    ensures !e.Ping? ==> |Path(e)| > 4 && (e.Retrieve? <==> Path(e)[4] == 'r') && (e.Create? <==> Path(e)[4] == 'c')
  {
    match e
    case Ping =>
    case Retrieve(d) => assert Path(e)[..13] == "dns/retrieve/";
    case EditByNameType(d, t, sub) => assert Path(e)[..19] == "dns/editByNameType/";
    case Create(d) => assert Path(e)[..11] == "dns/create/";
  }

  /** A path part of an edit URL: it holds no slash of its own. */
  predicate PathPart(x: string)
  {
    '/' !in x
  }

  /** Two strings equal after the same prefix are equal. */
  lemma SameTail(p: string, x: string, y: string)
    requires p + x == p + y
    ensures x == y
  {
    assert x == (p + x)[|p|..];
    assert y == (p + y)[|p|..];
  }

  /** The URL the updater posts to fixes the endpoint: always its kind,
      the domain of a retrieve or a create, and the domain, type and
      subdomain of an edit whenever none of those holds a slash. */
  lemma UrlDeterminesEndpoint(e1: Endpoint, e2: Endpoint)
    requires Url(e1) == Url(e2)
    ensures e1.Ping? == e2.Ping? && e1.CheckIp? == e2.CheckIp? && e1.Retrieve? == e2.Retrieve?
    ensures e1.EditByNameType? == e2.EditByNameType? && e1.Create? == e2.Create?
    ensures !e1.EditByNameType? ==> e1 == e2
    ensures (e1.EditByNameType? && e2.EditByNameType? &&
             PathPart(e1.domain) && PathPart(e1.recordType) && PathPart(e1.subdomain) &&
             PathPart(e2.domain) && PathPart(e2.recordType) && PathPart(e2.subdomain)) ==> e1 == e2
  {
    var n := |ApiBase|;
    var u := Url(e1);
    if !e1.CheckIp? && !e2.CheckIp? {
      assert u[..n] == ApiBase;
      var t1 := Path(e1);
      var t2 := Path(e2);
      SameTail(ApiBase, t1, t2);
      PathKind(e1);
      PathKind(e2);
      if e1.EditByNameType? && e2.EditByNameType? {
        var pre := "dns/editByNameType/";
        var r1 := e1.domain + "/" + e1.recordType + "/" + e1.subdomain;
        var r2 := e2.domain + "/" + e2.recordType + "/" + e2.subdomain;
        assert t1 == pre + r1 && t2 == pre + r2;
        SameTail(pre, r1, r2);
        if PathPart(e1.domain) && PathPart(e1.recordType) && PathPart(e1.subdomain) &&
           PathPart(e2.domain) && PathPart(e2.recordType) && PathPart(e2.subdomain) {
          PathParts(e1.domain, e1.recordType, e1.subdomain);
          PathParts(e2.domain, e2.recordType, e2.subdomain);
        }
      } else if e1.Retrieve? && e2.Retrieve? {
        SameTail("dns/retrieve/", e1.domain, e2.domain);
      } else if e1.Create? && e2.Create? {
        SameTail("dns/create/", e1.domain, e2.domain);
      }
    }
  }

  /** Three slash-free parts joined by slashes split back into those parts. */
  lemma PathParts(d: string, t: string, sub: string)
    requires PathPart(d) && PathPart(t) && PathPart(sub)
    ensures Split(d + "/" + t + "/" + sub, '/') == [d, t, sub]
  {
    var parts := [d, t, sub];
    assert parts[1..] == [t, sub];
    assert parts[1..][1..] == [sub];
    assert Join([sub], '/') == sub;
    assert Join([t, sub], '/') == t + "/" + sub;
    assert Join(parts, '/') == d + "/" + (t + "/" + sub);
    assert d + "/" + (t + "/" + sub) == d + "/" + t + "/" + sub;
    assert forall k :: 0 <= k < |parts| ==> '/' !in parts[k];
    SplitJoin(parts, '/');
  }

  /** The HTTP status codes the updater treats as success. */
  predicate HttpSuccess(statusCode: int)
  {
    statusCode in [200, 201, 202]
  }

  /** Reply to the ping endpoint; an absent field (a missing JSON key, or a
      body that is not JSON) is None. */
  datatype PingReply = PingReply(statusCode: int, status: Option<string>, yourIp: Option<string>)

  /** Reply to the retrieve endpoint; `records` is None when the body has no
      `records` list. */
  datatype RecordsReply = RecordsReply(statusCode: int, records: Option<seq<DnsRecord>>)

  /** Reply to the edit and create endpoints. */
  datatype WriteReply = WriteReply(statusCode: int, status: Option<string>)

  /** The ping check looks at the HTTP status only. */
  predicate PingAccepted(r: PingReply)
  {
    HttpSuccess(r.statusCode)
  }

  /** The retrieve check looks at the HTTP status only. */
  predicate RecordsAccepted(r: RecordsReply)
  {
    HttpSuccess(r.statusCode)
  }

  /** A write succeeds only when the HTTP status is a success code AND the
      provider's own `status` field is "SUCCESS". */
  predicate WriteSucceeded(r: WriteReply)
  {
    HttpSuccess(r.statusCode) && r.status == Some("SUCCESS")
  }

  /** The body of the ping and retrieve requests: the registrar object. */
  function RegistrarBody(c: Registrar): (b: map<string, string>)
    ensures b.Keys == {"apikey", "secretapikey"}
    ensures b["apikey"] == c.apikey && b["secretapikey"] == c.secretapikey
  {
    map["apikey" := c.apikey, "secretapikey" := c.secretapikey]
  }

  /** The body sent to edit an existing A record. */
  function UpdateBody(c: Registrar, ip: string): (b: map<string, string>)
    ensures b.Keys == {"apikey", "secretapikey", "content", "ttl"}
    ensures b["apikey"] == c.apikey && b["secretapikey"] == c.secretapikey
    ensures b["content"] == ip && b["ttl"] == Ttl
    ensures "name" !in b && "type" !in b
  {
    map["apikey" := c.apikey, "secretapikey" := c.secretapikey, "content" := ip, "ttl" := "600"]
  }

  /** The body sent to create a new A record. */
  function CreateBody(c: Registrar, subdomain: string, ip: string): (b: map<string, string>)
    ensures b.Keys == {"apikey", "secretapikey", "name", "type", "content", "ttl"}
    ensures b["apikey"] == c.apikey && b["secretapikey"] == c.secretapikey
    ensures b["name"] == subdomain && b["type"] == "A"
    ensures b["content"] == ip && b["ttl"] == Ttl
  {
    map["apikey" := c.apikey, "secretapikey" := c.secretapikey, "name" := subdomain,
        "type" := "A", "content" := ip, "ttl" := "600"]
  }

  /** The two write bodies share their credentials, content and ttl; the
      create body adds exactly the name and the type. */
  lemma CreateBodyExtendsUpdateBody(c: Registrar, subdomain: string, ip: string)
    ensures CreateBody(c, subdomain, ip) == UpdateBody(c, ip)["name" := subdomain]["type" := "A"]
    ensures UpdateBody(c, ip) == map k | k in CreateBody(c, subdomain, ip) && k != "name" && k != "type" :: CreateBody(c, subdomain, ip)[k]
    ensures RegistrarBody(c) == map k | k in UpdateBody(c, ip) && k != "content" && k != "ttl" :: UpdateBody(c, ip)[k]
  {
  }

  function PingRequest(c: Registrar): Request
  {
    Post(Ping, RegistrarBody(c))
  }

  function CheckIpRequest(): Request
  {
    Get(CheckIp)
  }

  function RetrieveRequest(domain: string, c: Registrar): Request
  {
    Post(Retrieve(domain), RegistrarBody(c))
  }

  /** The edit request for the A record `subdomain` of `domain`. */
  function UpdateRequest(domain: string, subdomain: string, ip: string, c: Registrar): (r: Request)
    ensures r.Post? && r.endpoint == EditByNameType(domain, "A", subdomain)
    ensures r.body == UpdateBody(c, ip)
  {
    Post(EditByNameType(domain, "A", subdomain), UpdateBody(c, ip))
  }

  /** The create request for a new record in `domain`. */
  function CreateRequest(domain: string, subdomain: string, ip: string, c: Registrar): (r: Request)
    ensures r.Post? && r.endpoint == Create(domain)
    ensures r.body == CreateBody(c, subdomain, ip)
  {
    Post(Create(domain), CreateBody(c, subdomain, ip))
  }

  /** A request that changes the provider's records. */
  predicate IsWrite(r: Request)
  {
    r.Post? && (r.endpoint.EditByNameType? || r.endpoint.Create?)
  }

  /** The number of writes among the requests sent. */
  function WriteCount(sent: seq<Request>): (n: nat)
    ensures n <= |sent|
    ensures n == 0 <==> forall k :: 0 <= k < |sent| ==> !IsWrite(sent[k])
  {
    if |sent| == 0 then 0
    else (if IsWrite(sent[|sent| - 1]) then 1 else 0) + WriteCount(sent[..|sent| - 1])
  }

  /** What the provider is taken to store after a successful edit of
      `record` with `body`: the same record with the new content and ttl. */
  function Edited(record: DnsRecord, body: map<string, string>): (r: DnsRecord)
    requires "content" in body && "ttl" in body
    ensures r.id == record.id && r.name == record.name && r.recordType == record.recordType
    ensures r.content == body["content"] && r.ttl == body["ttl"]
  {
    record.(content := body["content"], ttl := body["ttl"])
  }

  /** The full name of the record `subdomain` of `domain`: the subdomain
      and the domain joined by a dot, or the domain itself (the apex) when
      the subdomain is empty. */
  function RecordName(subdomain: string, domain: string): string
  {
    if subdomain == "" then domain else subdomain + "." + domain
  }

  /** The records an edit endpoint names: those of its record type whose
      name is `RecordName(subdomain, domain)`. */
  predicate EditTargets(e: Endpoint, r: DnsRecord)
    requires e.EditByNameType?
  {
    r.recordType == e.recordType && r.name == RecordName(e.subdomain, e.domain)
  }

  /** The provider's records after it applies the edit request `req`:
      the records the request names take the body's content and ttl, and
      every other record stays as it was. */
  function ApplyEdit(records: seq<DnsRecord>, req: Request): (after: seq<DnsRecord>)
    requires req.Post? && req.endpoint.EditByNameType?
    requires "content" in req.body && "ttl" in req.body
    ensures |after| == |records|
    ensures forall j :: 0 <= j < |records| ==>
      after[j] == if EditTargets(req.endpoint, records[j]) then Edited(records[j], req.body) else records[j]
    decreases |records|
  {
    if |records| == 0 then []
    else
      var last := records[|records| - 1];
      ApplyEdit(records[..|records| - 1], req) +
      [if EditTargets(req.endpoint, last) then Edited(last, req.body) else last]
  }

  /** An edit changes no name or type, and leaves the records alone when
      none of them is the one it names. */
  lemma ApplyEditKeepsNames(records: seq<DnsRecord>, req: Request)
    requires req.Post? && req.endpoint.EditByNameType?
    requires "content" in req.body && "ttl" in req.body
    ensures forall j :: 0 <= j < |records| ==>
      ApplyEdit(records, req)[j].name == records[j].name &&
      ApplyEdit(records, req)[j].recordType == records[j].recordType
    ensures (forall j :: 0 <= j < |records| ==> !EditTargets(req.endpoint, records[j])) ==>
      ApplyEdit(records, req) == records
  {
  }

  /** What the provider is taken to store after a successful create in
      `domain` with `body`: a record named `RecordName(name, domain)` (the
      apex for an empty name) carrying the body's type, ttl and content,
      under a provider-chosen `id`. */
  function Created(id: string, domain: string, body: map<string, string>): DnsRecord
    requires "name" in body && "type" in body && "ttl" in body && "content" in body
  {
    DnsRecord(id, RecordName(body["name"], domain), body["type"], body["ttl"], body["content"])
  }
}
