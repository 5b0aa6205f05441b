# Porkbun dynamic-DNS updater, modelled in Dafny

The program is a one-shot dynamic-DNS updater for the Porkbun DNS provider.
It loads an API key pair from a credentials file and pings the provider. It
reads the machine's hostname and asks an IP-echo service for the public IP.
Then it retrieves all records of the domain given on the command line. The
machine's record is the last A record whose name has the hostname as one
of its dot-separated labels. If that record already holds the IP, the
program stops. If the record is stale, it edits the A record named
`<hostname>.<domain>`. If no record matches, it creates one.

A failed credentials check, ping, argument check, record retrieval or write
ends the process with exit status 1. So does an exception from a request.
A run that finds its record up to date, or whose write succeeds, ends with
status 0. The IP-echo reply's HTTP status is never checked: whatever body
comes back, stripped, is taken as the IP and may be written to the record.
The model keeps this, since `ipLookup` holds any body string.

The model has four modules:

- `Wrappers` (`wrappers.dfy`): the `Option` type.
- `PyStr` (`pystr.dfy`): Python's `str.strip()` and `str.split('.')` on
  `seq<char>`, with their inverse and uniqueness lemmas.
- `Porkbun` (`porkbun.dfy`): DNS records, provider replies, endpoints and
  URLs, the JSON request bodies, and when a reply counts as success. It
  also holds the effect of an edit request on the provider's records.
- `Updater` (`updater.dfy`): the label match, the scan loop (a method with
  a loop invariant), the three-way decision, and the whole run. The run is
  a specification function `Outcome` from the outside world's answers to
  the requests sent and the exit status. The method `Run` is the program's
  `main` step by step, with early returns where the source calls
  `sys.exit`, and it is proved equal to `Outcome`.

Everything the program gets from outside is an input value of type
`Environment`: the credentials (or their absence), `sys.argv`, the ping
reply, the raw hostname, the IP-echo body, the records reply, and the reply
to whichever write is sent. A reply of `None` stands for a call that raised
an exception. An uncaught Python exception also ends the process with
status 1, so those paths are modelled as exit 1.

Two points of the program's behaviour are easy to miss:

- The scan keeps the LAST matching record in provider order, not the first:
  `current_record` is overwritten on every match. See `Updater.LastMatch`
  and `Updater.LaterMatchWins`.
- A wrong argument count is detected only after the ping and the public-IP
  lookup have been sent. So that run sends two requests before it stops.
  See `Updater.WrongArgumentCountStopsRun`.

Which record an edit changes is fixed by the program's request: the URL
`editByNameType/<domain>/A/<hostname>` names the A records called
`<hostname>.<domain>`. With an empty hostname it names the apex records,
the ones called `<domain>` itself (`Porkbun.RecordName`). `Porkbun.ApplyEdit` gives these records the new
content and ttl and leaves every other record alone. The match, however,
accepts the hostname as any label of a record's name. So the record the
scan found and the record the edit names can differ (see "## Findings").
`Porkbun.Created` gives the contents of the record a create stores. Where
the provider puts it among the other records is its own choice, so
`Updater.RerunAfterCreateWritesNothing` takes that position as a parameter
and holds for every position. A create with an empty name makes the apex
record. For a domain with no empty label, such as `example.com`, an empty
hostname never matches that record (`Updater.EmptyHostnameApexNeverMatches`).

## Model

| member | source | states |
|---|---|---|
| `PyStr.Strip` | main.py:31 | the result has no whitespace (Python `str.isspace`) at either end and is no longer than the input |
| `PyStr.StripIsSlice` | main.py:36 | what strip keeps is a contiguous slice of the input and everything cut away is whitespace |
| `PyStr.StripSurrounded` | main.py:31 | strip is determined: a trimmed string surrounded by any whitespace strips to exactly itself |
| `PyStr.StripIdempotent` | main.py:36 | stripping twice equals stripping once |
| `PyStr.Split` | main.py:107 | `split('.')` yields at least one piece, so `"".split('.') == [""]` |
| `PyStr.PiecesHaveNoSeparator` | main.py:107 | no piece of `split('.')` contains the separator |
| `PyStr.JoinSplit` | main.py:107 | joining the pieces with the separator gives back the original name |
| `PyStr.SplitJoin` | main.py:107 | splitting a join of separator-free pieces gives back exactly those pieces, empty ones included |
| `PyStr.InSplitIff` | main.py:107 | `h in s.split(sep)` holds iff `h` has no separator and occurs in `s` bounded on both sides by a separator or an end of `s` |
| `Porkbun.Url` | main.py:20-76 | only the IP-echo endpoint is off the provider's API base URL; the other four URLs (ping, retrieve, editByNameType, create) all start with it |
| `Porkbun.UrlDeterminesEndpoint` | main.py:20-76 | two endpoints with the same URL are of the same kind; a retrieve or a create URL fixes its domain; an edit URL fixes domain, type and subdomain when none of them holds a slash |
| `Porkbun.HttpSuccess` | main.py:21 | defined as: the HTTP status is 200, 201 or 202 |
| `Porkbun.PingAccepted` | main.py:21 | defined as: the ping reply's HTTP status is a success code; its status field is not consulted |
| `Porkbun.RecordsAccepted` | main.py:42 | defined as: the retrieve reply's HTTP status is a success code; its status field is not consulted |
| `Porkbun.WriteSucceeded` | main.py:58 | defined as: the HTTP status is a success code and the provider's status field is "SUCCESS" (also main.py:77) |
| `Porkbun.RegistrarBody` | main.py:41 | the ping and retrieve body holds exactly the two registrar keys with the credential values |
| `Porkbun.UpdateBody` | main.py:51-56 | the edit body has exactly the keys apikey, secretapikey, content and ttl: content is the IP, ttl is "600", and there is no name or type |
| `Porkbun.CreateBody` | main.py:67-74 | the create body has exactly apikey, secretapikey, name, type, content and ttl: name is the subdomain, type "A", content the IP, ttl "600" |
| `Porkbun.CreateBodyExtendsUpdateBody` | main.py:51-74 | the create body is the edit body plus exactly name and type; the edit body is the registrar body plus exactly content and ttl |
| `Porkbun.UpdateRequest` | main.py:57 | the edit is a POST to editByNameType for `(domain, "A", subdomain)` carrying the edit body |
| `Porkbun.CreateRequest` | main.py:76 | the create is a POST to create for `domain` carrying the create body |
| `Porkbun.PingRequest` | main.py:20 | defined as: a POST to the ping endpoint carrying the registrar body |
| `Porkbun.CheckIpRequest` | main.py:36 | defined as: a GET of the IP-echo endpoint, with no body |
| `Porkbun.RetrieveRequest` | main.py:41 | defined as: a POST to the retrieve endpoint for `domain` carrying the registrar body |
| `Porkbun.RecordName` | main.py:57 | defined as: `<subdomain>.<domain>`, or the domain itself (the apex) for an empty subdomain |
| `Porkbun.EditTargets` | main.py:57 | defined as: an edit endpoint names the records of its type whose name is `RecordName(subdomain, domain)` |
| `Porkbun.Created` | main.py:65-76 | defined as: the record a create stores is named `RecordName(name, domain)` and carries the body's type, ttl and content, under a provider-chosen id |
| `Porkbun.Edited` | main.py:51-57 | an edited record keeps its id, name and type and takes the body's content and ttl |
| `Porkbun.ApplyEdit` | main.py:57 | after the edit request, exactly the records of the request's type named `RecordName(subdomain, domain)` are edited; all others are unchanged |
| `Porkbun.ApplyEditKeepsNames` | main.py:57 | an edit changes no name or type, and changes nothing when no record has the name it asks for |
| `Updater.Matches` | main.py:107 | defined as: the record's type is "A" and the hostname is one of the pieces of `name.split('.')` |
| `Updater.MatchesIff` | main.py:107 | a record is the machine's iff its type is exactly "A", the hostname has no dot, and the hostname occurs in the name bounded by dots or the ends of the name |
| `Updater.SubstringIsNotLabel` | main.py:107 | `host` does not match `myhost.example.com` although it is a substring of it; `myhost` does match |
| `Updater.DottedHostnameNeverMatches` | main.py:107 | a hostname containing a dot matches no record at all |
| `Updater.OwnRecordMatches` | main.py:107 | a dot-free hostname matches the A record named `<hostname>.<domain>` |
| `Updater.LastMatch` | main.py:99-109 | the index found is a matching record with no match after it, and None is returned iff no record matches |
| `Updater.LastMatchUnique` | main.py:105-109 | a matching index with no later match is the one the scan ends with |
| `Updater.MatchedRecord` | main.py:99-109 | defined as: `current_record` after the loop, the record at the last matching index, or None when nothing matches |
| `Updater.ScanSkipsNonMatching` | main.py:107-109 | a non-matching record leaves `current_record` unchanged |
| `Updater.ScanTakesMatching` | main.py:107-109 | a matching record replaces whatever was found before |
| `Updater.LaterMatchWins` | main.py:105-109 | of two matching records, the earlier one is never the result |
| `Updater.ScanRecords` | main.py:99-109 | the loop ends with the last matching record or None; None iff nothing matches; a result is a matching record of the list |
| `Updater.Decide` | main.py:112-123 | exactly one of: up to date iff a match holds the IP; update iff a match holds another content; create iff no match |
| `Updater.Hostname` | main.py:31 | defined as: the raw hostname with Python's `strip()` applied |
| `Updater.Ip` | main.py:36 | defined as: the IP-echo body with Python's `strip()` applied |
| `Updater.Domain` | main.py:96 | defined as: `argv[1]`, for an argument list of length two |
| `Updater.DecidedWrite` | main.py:112-123 | defined as: no write when the matched record holds the IP; the edit for `(domain, A, hostname)` when it holds other content; the create of `hostname` in `domain` when nothing matched |
| `Updater.WriteStatus` | main.py:58-82 | defined as: exit status 0 when the write reply arrived and `WriteSucceeded` holds for it, otherwise 1 (also main.py:126) |
| `Updater.PingPasses` | main.py:20-23 | defined as: credentials are present, the ping reply arrived with a success code, and it holds both `status` and `yourIp` |
| `Updater.Outcome` | main.py:85-126 | defined as: the requests sent and the exit status, stage by stage; each failed check or raised exception ends the run with status 1 and the requests sent so far |
| `Updater.Run` | main.py:85-126 | the step-by-step `main`, early exits included, sends exactly the requests and returns exactly the status of `Outcome` |
| `Updater.MissingCredentialsSendsNothing` | main.py:10-12 | no credentials: status 1 and no request sent |
| `Updater.FailedPingStopsRun` | main.py:20-26 | a failed ping: status 1 after the ping alone |
| `Updater.WrongArgumentCountStopsRun` | main.py:87-94 | argument count other than one: status 1, only the ping and the IP lookup sent, no read and no write of records |
| `Updater.AtMostOneWrite` | main.py:112-126 | every run ends with status 0 or 1, sends at most one write, and only as its last request |
| `Updater.DecisionOutcome` | main.py:112-126 | after the reads: up-to-date record means no write and status 0; stale record means one edit for `(domain, A, hostname)`; no record means one create; after a write the status is 0 iff it succeeded |
| `Updater.ExitZeroIff` | main.py:112-126 | status 0 iff the run reached the decision and either the record already held the IP or the write succeeded |
| `Updater.WriteCarriesIp` | main.py:49-76 | a write is only ever the fourth request, the one the decision calls for; it carries the public IP, ttl "600" and the credentials, and targets the run's domain and hostname (edit) or names the hostname with type A (create) |
| `Updater.DottedHostnameAlwaysCreates` | main.py:105-123 | a hostname containing a dot always leads to a create |
| `Updater.UpToDateRunWritesNothing` | main.py:112-116 | a matched record holding the IP: no write, status 0 |
| `Updater.RerunAfterUpdateWritesNothing` | main.py:105-119 | when the matched record is named `<hostname>.<domain>` and the provider applied the edit request, a second run finds it holding the IP, writes nothing and ends with status 0 |
| `Updater.RerunAfterCreateWritesNothing` | main.py:105-123 | after a run that decided to create, with the created record stored anywhere among the others and a dot-free, non-empty hostname, a second run writes nothing and ends with status 0 |
| `Updater.EmptyHostnameApexNeverMatches` | main.py:65-76 | with an empty hostname the create in `example.com` makes the apex record `example.com`, which the empty hostname does not match, so each run creates again |
| `Updater.MatchedRecordMissedByEdit` | main.py:105-119 | with the A record `myhost.lan.example.com` alone, the run edits, the edit names no existing record, and the records after the edit equal those the run started from, so every run edits again |
| `Updater.LastOwned` | main.py:57 | the index of the last A record named `<hostname>.<domain>` (the one the edit names), or None iff there is none |
| `Updater.CorrectedEditReachesMatch` | main.py:49-62 | with a scan for the record the edit names, the edit always reaches the record found: afterwards the same record is found, holding the IP |
| `Updater.OwnedRecordMatches` | main.py:107 | for a dot-free, non-empty hostname, every record the corrected scan can find is one the program's label match accepts too |
| `Updater.PingIgnoresProviderStatus` | main.py:21 | a ping answered with a success code passes whatever its status field says, "ERROR" included |
| `Updater.WriteNeedsProviderStatus` | main.py:58-82 | a write answered with any HTTP code but a status other than "SUCCESS" ends the run with status 1 after exactly one write |
| `Updater.SampleRunInputs` | main.py:88-96 | in the sample run the hostname and IP lose their trailing newline, the domain is `argv[1]`, and the decision is reached |
| `Updater.SampleStaleRecordIsUpdated` | main.py:112-126 | `myhost.example.com` holding 203.0.113.5 with IP 203.0.113.9: one edit to 203.0.113.9, status 0 |
| `Updater.SampleCurrentRecordIsLeftAlone` | main.py:113-116 | the same record already holding 203.0.113.9: no write, status 0 |
| `Updater.SampleNonARecordLeadsToCreate` | main.py:107-123 | a CNAME named `myhost.example.com` is not the machine's record, so a create is sent; a rejected create gives status 1 |

## Left out

- HTTP transport (`requests.post`, `requests.get`): replies are input values. A call that raises is `None`, which leads to exit 1 as an uncaught exception would.
- The credentials file: its existence check and JSON parsing are one `Option<Registrar>`. `None` covers a missing file (explicit exit 1) and an unparsable one (uncaught exception, also exit 1). A document without a `registrar` object raises at the ping, before any request is sent, which is the same `None`. The registrar object is modelled as its two keys. A registrar object that lacks `apikey` or `secretapikey` is still sent as it is with the ping and the retrieve; it raises `KeyError` only where a write body is built (main.py:52 and main.py:68). That case is not modelled, because the model's registrar always holds both keys.
- `socket.gethostname()` and the IP-echo service: their raw strings are inputs. Only the `.strip()` applied to them is modelled.
- Console output: the banner, the diagnostics, the fixed-width record table and its 1-based row indices. These are presentation only.
- Updater.RerunAfterCreateWritesNothing: holds only for a non-empty hostname. For the empty hostname the create makes the apex record. For a domain with no empty label, such as `example.com`, the label match does not accept that record, so the program creates on every run (`Updater.EmptyHostnameApexNeverMatches`). For a domain with an empty label, such as `example.com.`, the empty hostname does match it.
- Updater.OwnedRecordMatches: holds only for a non-empty hostname, because the apex record an empty hostname owns matches the empty label only when the domain has an empty label (as `example.com.` does, and `example.com` does not).
- `sys.exit` as control flow: it is a returned exit status. `Run` returns early where the source exits.
- Records are assumed to carry all five fields as strings. A record lacking one would raise in the table printing, and that case is not modelled. A reply without a `records` list is modelled: its records are `None`, giving exit 1.
- How the provider stores a created record (its position in later listings, its `id`) belongs to the provider. `Porkbun.Created` is the hypothesis that it is an A record named `<name>.<domain>` with the body's content and ttl. An edit's effect is modelled from the request itself by `Porkbun.ApplyEdit`.
- The URLs are modelled as `Porkbun.Url` but no request carries its URL string: a `Request` carries its `Endpoint`, from which `Url` gives the string.
- The dead assignment `exists = True` in the scan loop has no effect and is not modelled.

## Findings

| source | as written | input that shows it | evidently intended | confidence | as-written member | corrected member |
|---|---|---|---|---|---|---|
| main.py:107 and main.py:57 | the record found is any A record with the hostname among its labels, but the edit names only the A record `<hostname>.<domain>` | domain `example.com`, hostname `myhost`, IP `203.0.113.9`, only record the A record `myhost.lan.example.com` holding `203.0.113.5`: the edit changes no record and the next run edits again | the record the decision inspects is the one the edit changes, so the next run finds it up to date | not executed | `Updater.MatchedRecordMissedByEdit` | `Updater.CorrectedEditReachesMatch` |

`Updater.Outcome` and `Updater.Run` keep the match as written, since they
model `main`. The corrected scan `Updater.LastOwned` finds the record the
edit names. `Updater.CorrectedEditReachesMatch` proves for all inputs that
the edit then reaches that record. `Updater.RerunAfterUpdateWritesNothing`
proves the same for the program as written, for the runs where the two
coincide.
