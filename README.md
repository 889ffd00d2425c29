# Paginated compute-resource enumerators of gcp_scanner, in Dafny

This project models `CrawlCompute` from gcp_scanner. `CrawlCompute` holds seven enumerators. Each one lists one kind of Compute Engine resource in a project: instances, images, disks, static IPs, snapshots, subnets and firewall rules.

Every enumerator runs the same loop:

1. Issue a list or aggregated-list request.
2. `execute()` it.
3. Append what the response holds to a local list.
4. Ask `*_next(previous_request, previous_response)` for the next request.
5. Repeat until that returns `None`.

One `try`/`except Exception` surrounds the whole loop. Any `Exception` ends paging, is only logged, and the list built so far is still returned.

## Files

- `api_types.dfy` (module `ApiTypes`): the JSON values the enumerators read. A dict member is in one of three states, written `Option<Nullable<T>>`:
  - absent (`None`);
  - present and `null` (`Some(Null)`);
  - present with a value (`Some(Value(v))`).

  The other types are `Record` (opaque except its optional `name`), `Envelope` (a scope's scoped list, keyed by member name), `Scopes` (the scope → envelope dict of an aggregated listing, as an ordered sequence, because Python dicts iterate in insertion order) and `Response`.
- `pagination.dfy` (module `Pagination`): the shared loop.
  - The remote service is a finite script, `seq<Page<R>>`. `pages[i]` is what executing the i-th request yields. It is either `Fail` (`execute()` raised) or `Ok(response, next)`. `next` says whether `*_next` returns a request (`HasNext`), returns `None` (`NoNext`) or raises (`NextRaises`).
  - An extractor maps one response to a `Partial`: what the enumerator's nested `for` loops append, and whether they finished or raised part-way.
  - `Paginate` is the imperative loop. It has the `request` variable, the `while request is not None`, an inner loop that appends one entry at a time, and `break` for the `except` exit. It is proved equal to the specification function `Enumerate`. The lemmas state what the source promises about `Enumerate`.
- `crawl_compute.dfy` (module `CrawlCompute`): the per-kind extractors, the seven enumerator methods, and lemmas about each kind's handling of keys.

## Model

| member | source | states |
|---|---|---|
| `Pagination.Paginate` | src/gcp_scanner/crawler/compute.py:25-41 | The loop returns exactly the list and the failure outcome of `Enumerate`, for every script of pages and every extractor. Its loop invariants say that the list is only ever appended to and that the list held so far plus what the remaining pages yield equals the final result. |
| `Pagination.EnumerateSplit` | src/gcp_scanner/crawler/compute.py:28-36 | After k pages that executed, extracted without raising and had a successor, the result is those pages' records in order, followed by what the rest of the service yields. |
| `Pagination.AllPagesSucceed` | src/gcp_scanner/crawler/compute.py:27-36 | If every page succeeds and only the last has no successor, the result is the in-order concatenation of every page's extracted records, with no failure. |
| `Pagination.StopsAtFinalPage` | src/gcp_scanner/crawler/compute.py:35-36 | Paging stops exactly at the first page whose `*_next` returns `None`. Pages the service could serve after it never change the result. |
| `Pagination.ExecuteFails` | src/gcp_scanner/crawler/compute.py:28-41 | If `execute()` raises on request k, the result is exactly the records of pages 0..k-1. Nothing from page k is included, the failure is flagged, and the `Exception` does not escape. |
| `Pagination.ExtractionFails` | src/gcp_scanner/crawler/compute.py:213-228 | If reading response k raises part-way, the result is the records of pages 0..k-1 followed by what page k's loops had already appended. |
| `Pagination.NextRequestFails` | src/gcp_scanner/crawler/compute.py:35-41 | If the `*_next` call after page k raises, page k's records are kept: the result is the records of pages 0..k. |
| `Pagination.CompletesIff` | src/gcp_scanner/crawler/compute.py:26-41 | Both directions: the enumeration ends without failure exactly when it reaches, through pages that all continue, a page after which `*_next` returns `None`. |
| `Pagination.AppendOnly` | src/gcp_scanner/crawler/compute.py:57-66 | The accumulator is append-only. The records returned for a script are a prefix of those returned for any longer script, so the list held after any iteration is a prefix of the list finally returned. |
| `Pagination.SkipEmptyPage` | src/gcp_scanner/crawler/compute.py:60-66 | A page that yields nothing, does not raise and has a successor can be removed from any position of the service without changing the result. |
| `CrawlCompute.GetComputeInstancesNames` | src/gcp_scanner/crawler/compute.py:11-41 | Returns the list the paging loop builds with the instances extraction (`Flattened("instances")`). The lemmas on `Flattened` and `ScopedRecords` give its properties. |
| `CrawlCompute.GetComputeImagesNames` | src/gcp_scanner/crawler/compute.py:43-70 | Returns the list the paging loop builds with the flat extraction `ListedRecords`. |
| `CrawlCompute.GetComputeDisksNames` | src/gcp_scanner/crawler/compute.py:72-102 | Returns the list the paging loop builds with the disks extraction (`Flattened("disks")`). |
| `CrawlCompute.GetStaticIps` | src/gcp_scanner/crawler/compute.py:104-135 | Returns the list the paging loop builds with `StaticIpsPage`, which holds one `{scope: envelope}` map per scope with addresses. |
| `CrawlCompute.GetComputeSnapshots` | src/gcp_scanner/crawler/compute.py:137-165 | Returns the list the paging loop builds with the flat extraction `ListedRecords`, the same one as images. |
| `CrawlCompute.GetSubnets` | src/gcp_scanner/crawler/compute.py:167-196 | Returns the list the paging loop builds with `SubnetsPage`, which holds (scope, envelope) pairs. |
| `CrawlCompute.GetFirewallRules` | src/gcp_scanner/crawler/compute.py:198-228 | Returns the list the paging loop builds with `FirewallsPage`, which holds name one-tuples. |
| `CrawlCompute.ListedPageWithoutItemsIsSkipped` | src/gcp_scanner/crawler/compute.py:62-63 | For images and for snapshots (lines 156-157 run the same code), a page without "items" contributes nothing and paging continues. This holds at any position in the service. |
| `CrawlCompute.ListedNullItemsStops` | src/gcp_scanner/crawler/compute.py:156-157 | For images and snapshots, a page whose "items" is null raises TypeError while being iterated. The earlier pages' records are returned and paging ends. |
| `CrawlCompute.ScopedRecordsThen` | src/gcp_scanner/crawler/compute.py:31-33 | Scopes are flattened in scope order, then item order. Extracting a concatenation of scopes is extracting the first part and then, unless it raised, the second. |
| `CrawlCompute.ScopedRecordsSkipsScope` | src/gcp_scanner/crawler/compute.py:92-94 | A scope whose envelope lacks "instances"/"disks" contributes nothing and does not affect its sibling scopes. |
| `CrawlCompute.ScopedRecordsContents` | src/gcp_scanner/crawler/compute.py:30-33 | Both directions: extraction finishes iff no envelope holds a null list. When it finishes, a record is returned iff it is listed under the key in some scope. |
| `CrawlCompute.ScopedRecordsNullStops` | src/gcp_scanner/crawler/compute.py:91-94 | The first envelope whose list is null raises. The records of the scopes before it, in the same response, are kept. |
| `CrawlCompute.FlattenedPageWithoutItemsIsSkipped` | src/gcp_scanner/crawler/compute.py:30-36 | For instances and disks, a response whose "items" is absent or null contributes nothing and paging continues. |
| `CrawlCompute.FlattenedNullKeepsEarlier` | src/gcp_scanner/crawler/compute.py:88-101 | A null list in scope j of page k ends the enumeration. The result is the records of pages 0..k-1 plus those of scopes 0..j-1 of page k. |
| `CrawlCompute.AddressGroupsConcat` | src/gcp_scanner/crawler/compute.py:124-127 | Static-IP scopes are grouped in encounter order: grouping a concatenation is concatenating the groupings. |
| `CrawlCompute.AddressGroupsContents` | src/gcp_scanner/crawler/compute.py:125-127 | Both directions: there is a `{scope: envelope}` entry, with the envelope unchanged, exactly for the scopes whose "addresses" is present and not null. An empty list counts as present. There are never more entries than scopes. |
| `CrawlCompute.StaticIpsMissingItemsStops` | src/gcp_scanner/crawler/compute.py:120-135 | A static-IP page without "items" (or with null "items") raises at once. The earlier pages' entries are returned and paging ends. |
| `CrawlCompute.SubnetsConcat` | src/gcp_scanner/crawler/compute.py:186-188 | What the subnet pages yield is every (scope, envelope) pair of every response with "items", unfiltered and in order. |
| `CrawlCompute.ScopePairsContents` | src/gcp_scanner/crawler/compute.py:186-188 | Both directions: a (scope, envelope) pair is collected exactly when it is a scope of some page that has "items". Nothing is filtered out and nothing is added. |
| `CrawlCompute.SubnetsFailOnlyOnRequests` | src/gcp_scanner/crawler/compute.py:182-196 | Both directions: reading a subnet listing never raises. The enumeration ends without failure exactly when a page without successor is reached through pages that all executed. |
| `CrawlCompute.SubnetsAllPages` | src/gcp_scanner/crawler/compute.py:183-191 | When every request succeeds, the result is every (scope, envelope) pair of every page with "items", unfiltered and in order. |
| `CrawlCompute.RuleNamesUntilMissing` | src/gcp_scanner/crawler/compute.py:217-221 | Each firewall rule becomes the one-tuple of its name, in order, up to the first rule without a "name" member, which raises. A null name yields `(None,)`. |
| `CrawlCompute.FirewallPageWithoutItemsIsSkipped` | src/gcp_scanner/crawler/compute.py:215-224 | A firewall page without "items" contributes nothing and paging continues. This holds at any position in the service. |
| `CrawlCompute.FirewallNullItemsStops` | src/gcp_scanner/crawler/compute.py:213-228 | A firewall page whose "items" is null raises TypeError while being iterated. The earlier pages' names are returned and paging ends. |
| `CrawlCompute.FirewallMissingNameKeepsEarlier` | src/gcp_scanner/crawler/compute.py:213-228 | A rule without a name on page k ends the enumeration. The names from earlier pages and from the rules before it on page k are kept. |
| `CrawlCompute.FirewallNamesOnly` | src/gcp_scanner/crawler/compute.py:218-221 | Two named rules "a" and "b", each with arbitrary other members (for example differing descriptions), yield exactly `[("a",), ("b",)]`. |

## Behaviour worth knowing

- The static-IP enumerator reads `response["items"]` directly (line 124). A page without "items" raises KeyError and paging ends. A null "items" raises AttributeError and paging ends as well.
- The static-IP enumerator skips scopes whose "addresses" is absent or null (lines 125-126). It is the only enumerator that filters scopes.
- `.get(key, [])` returns a member that is present with the value null, and iterating that null raises TypeError. This applies to "items" for images, snapshots and firewall rules (lines 62, 156, 217), and to the inner lists for instances and disks (lines 32, 93).
- `.get(key, None) is not None` treats null like absent. This is the test on "items" for instances, disks and subnets (lines 30, 91, 186), and the test on "addresses" (line 125).
- When `execute()` raises, nothing from that page is kept. When reading a response raises part-way, whatever that response's loops had already appended is kept, for example the earlier scopes' instances or the earlier rules' names. When `*_next` raises, the whole page is kept.
- A firewall rule whose name is null is not an error: it yields the one-tuple `(None,)` (line 219).

## Left out

- Logging (`logging.info`, `sys.exc_info`) is left out. The `failed` result of `Paginate` marks the runs in which the `except` branch logs a message, and the seven enumerators discard it as the source does.
- `project_name` is left out. It is used only in the first request and in log messages; the page script stands for what the API serves for that project.
- The Google API client (`discovery.Resource`, request objects, HTTP, credentials) is replaced by the page script. The real `*_next` decides by the response's page token inside a library not part of this model, so the script states that decision per page.
- A first request whose construction raises is folded into page 0 failing. A script that runs out while a next request exists is read as that request failing. Because the script is finite, an endless run cannot be represented: in the source, `while request is not None` never ends if `*_next` keeps returning a request, and the model has no such case.
- src/gcp_scanner/client/compute.py, client/interface_client.py and client/client_factory.py are not part of this model. They hold a call to `discovery.build`, an abstract interface and a two-way name switch.
- Concurrency is left out. Each enumerator call is sequential and owns its list; the model's values are not shared.
- Failures that only Python's dynamic typing allows are left out, such as a scope value that is not a dict or a string iterated as a list. The model's types rule them out.
- Exceptions outside `Exception`, such as KeyboardInterrupt and SystemExit, are left out. The handlers catch only `Exception`, so these would propagate to the caller. The model has no such exceptions, and its enumerators always return.
- Record members other than `name` are opaque strings. Envelope members that are not record lists are not represented: a `warning` member, for example, which is a dict, is absent from the model's envelopes. The envelopes returned by the static-IP and subnet enumerators therefore carry only their record lists.
