/** The seven `CrawlCompute` enumerators: the shared paging loop, each with the
    extraction its nested `for` loops perform on one response.
 */
module CrawlCompute {
  import opened ApiTypes
  import opened Pagination

  /** The one-tuple `(firewall["name"],)` a firewall rule is reduced to. */
  datatype RuleName = RuleName(name: Nullable<string>)

  /** `for x in d.get(key, []): append(x)` where `member` is `d.get(key)`: an
      absent member iterates the empty default, a `null` one raises TypeError
      before anything is appended. */
  function IterateOrEmpty(member: Option<Nullable<seq<Record>>>): Partial<Record>
  {
    match member
    case None => Partial([], true)
    case Some(Null) => Partial([], false)
    case Some(Value(records)) => Partial(records, true)
  }

  /** The records of an envelope's member `key`, or none when it is absent or null. */
  function ListedUnder(env: Envelope, key: string): seq<Record>
  {
    match Member(env, key)
    case Some(Value(records)) => records
    case _ => []
  }

  // Flat listings: images and snapshots

  /** `for image in response.get("items", []): images_result.append(image)`. */
  function ListedRecords(response: Response<seq<Record>>): Partial<Record>
  {
    IterateOrEmpty(response.items)
  }

  // Aggregated listings flattened across scopes: instances and disks

  /** `for _, scoped in items.items(): for x in scoped.get(key, []): append(x)`. */
  function ScopedRecords(key: string, scopes: Scopes): Partial<Record>
    decreases |scopes|
  {
    if scopes == [] then Partial([], true)
    else Then(IterateOrEmpty(Member(scopes[0].1, key)), ScopedRecords(key, scopes[1..]))
  }

  /** The extraction of an aggregated listing whose envelopes list their
      records under `key`, entered only when `response.get("items", None)`
      is not None. */
  function Flattened(key: string): Response<Scopes> -> Partial<Record>
  {
    (response: Response<Scopes>) =>
      match response.items
      case Some(Value(scopes)) => ScopedRecords(key, scopes)
      case _ => Partial([], true)
  }

  // Aggregated listing grouped by scope: static IPs

  /** `addresses_scoped_list.get("addresses", None) is not None`. */
  predicate HasAddresses(env: Envelope)
  {
    Member(env, "addresses").Some? && Member(env, "addresses").value.Value?
  }

  /** `{name: addresses_scoped_list}` for each scope that has addresses. */
  function AddressGroups(scopes: Scopes): seq<map<string, Envelope>>
    decreases |scopes|
  {
    if scopes == [] then []
    else (if HasAddresses(scopes[0].1) then [map[scopes[0].0 := scopes[0].1]] else [])
         + AddressGroups(scopes[1..])
  }

  /** `response["items"].items()` raises KeyError when "items" is absent and
      AttributeError when it is null, before anything is appended. */
  function StaticIpsPage(response: Response<Scopes>): Partial<map<string, Envelope>>
  {
    match response.items
    case Some(Value(scopes)) => Partial(AddressGroups(scopes), true)
    case _ => Partial([], false)
  }

  // Aggregated listing as (scope, envelope) pairs: subnets

  /** `for name, scoped in items.items(): subnets_list.append((name, scoped))`,
      entered only when `response.get("items", None)` is not None. */
  function SubnetsPage(response: Response<Scopes>): Partial<(string, Envelope)>
  {
    match response.items
    case Some(Value(scopes)) => Partial(scopes, true)
    case _ => Partial([], true)
  }

  // Flat listing projected to names: firewall rules

  /** `for firewall in rules: append((firewall["name"],))`: a rule without a
      "name" member raises KeyError; one whose name is null yields `(None,)`. */
  function RuleNames(records: seq<Record>): Partial<RuleName>
    decreases |records|
  {
    if records == [] then Partial([], true)
    else
      var here := match records[0].name
        case None => Partial([], false)
        case Some(name) => Partial([RuleName(name)], true);
      Then(here, RuleNames(records[1..]))
  }

  /** `for firewall in response.get("items", []): ...`. */
  function FirewallsPage(response: Response<seq<Record>>): Partial<RuleName>
  {
    match response.items
    case None => Partial([], true)
    case Some(Null) => Partial([], false)
    case Some(Value(records)) => RuleNames(records)
  }

  // The seven enumerators. Each returns the list its `try` block built; the
  // failure flag of the paging loop stands for the message that is only logged.

  method GetComputeInstancesNames(service: seq<Page<Scopes>>) returns (instances: seq<Record>)
    ensures instances == Enumerate(Flattened("instances"), service).records
  {
    var failed;
    instances, failed := Paginate(Flattened("instances"), service);
  }

  method GetComputeImagesNames(service: seq<Page<seq<Record>>>) returns (images: seq<Record>)
    ensures images == Enumerate(ListedRecords, service).records
  {
    var failed;
    images, failed := Paginate(ListedRecords, service);
  }

  method GetComputeDisksNames(service: seq<Page<Scopes>>) returns (disks: seq<Record>)
    ensures disks == Enumerate(Flattened("disks"), service).records
  {
    var failed;
    disks, failed := Paginate(Flattened("disks"), service);
  }

  method GetStaticIps(service: seq<Page<Scopes>>) returns (ips: seq<map<string, Envelope>>)
    ensures ips == Enumerate(StaticIpsPage, service).records
  {
    var failed;
    ips, failed := Paginate(StaticIpsPage, service);
  }

  method GetComputeSnapshots(service: seq<Page<seq<Record>>>) returns (snapshots: seq<Record>)
    ensures snapshots == Enumerate(ListedRecords, service).records
  {
    var failed;
    snapshots, failed := Paginate(ListedRecords, service);
  }

  method GetSubnets(service: seq<Page<Scopes>>) returns (subnets: seq<(string, Envelope)>)
    ensures subnets == Enumerate(SubnetsPage, service).records
  {
    var failed;
    subnets, failed := Paginate(SubnetsPage, service);
  }

  method GetFirewallRules(service: seq<Page<seq<Record>>>) returns (rules: seq<RuleName>)
    ensures rules == Enumerate(FirewallsPage, service).records
  {
    var failed;
    rules, failed := Paginate(FirewallsPage, service);
  }

  // Images and snapshots

  /** A page without "items" contributes nothing and paging goes on. */
  lemma ListedPageWithoutItemsIsSkipped(before: seq<Page<seq<Record>>>, response: Response<seq<Record>>, after: seq<Page<seq<Record>>>)
    requires response.items.None?
    ensures Enumerate(ListedRecords, before + [Ok(response, HasNext)] + after)
            == Enumerate(ListedRecords, before + after)
  {
    SkipEmptyPage(ListedRecords, before, Ok(response, HasNext), after);
  }

  /** A page whose "items" is null raises: the earlier pages are returned. */
  lemma ListedNullItemsStops(pages: seq<Page<seq<Record>>>, k: nat)
    requires k < |pages|
    requires forall i :: 0 <= i < k ==> Continues(ListedRecords, pages[i])
    requires pages[k].Ok? && pages[k].response.items == Some(Null)
    ensures Enumerate(ListedRecords, pages) == Enumeration(Concat(ListedRecords, pages[..k]), true)
  {
    ExtractionFails(ListedRecords, pages, k);
  }

  // Instances and disks

  /** Scopes are read in order: extracting a concatenation of scope lists is
      extracting the first part, then, unless it raised, the second. */
  lemma {:induction false} ScopedRecordsThen(key: string, first: Scopes, second: Scopes)
    ensures ScopedRecords(key, first + second) == Then(ScopedRecords(key, first), ScopedRecords(key, second))
    decreases |first|
  {
    if first == [] {
      assert first + second == second;
    } else {
      assert (first + second)[0] == first[0];
      assert (first + second)[1..] == first[1..] + second;
      ScopedRecordsThen(key, first[1..], second);
    }
  }

  /** A scope whose envelope lacks `key` contributes nothing and does not
      affect its sibling scopes. */
  lemma ScopedRecordsSkipsScope(key: string, before: Scopes, scope: string, env: Envelope, after: Scopes)
    requires key !in env.members
    ensures ScopedRecords(key, before + [(scope, env)] + after) == ScopedRecords(key, before + after)
  {
    ScopedRecordsThen(key, before + [(scope, env)], after);
    ScopedRecordsThen(key, before, [(scope, env)]);
    ScopedRecordsThen(key, before, after);
    assert ScopedRecords(key, [(scope, env)]) == Partial([], true);
  }

  /** Extraction raises exactly when some envelope holds a null `key`; when
      it does not, the records returned are exactly those listed under `key`
      in some scope. */
  lemma {:induction false} ScopedRecordsContents(key: string, scopes: Scopes)
    ensures ScopedRecords(key, scopes).complete
            <==> forall i :: 0 <= i < |scopes| ==> Member(scopes[i].1, key) != Some(Null)
    ensures ScopedRecords(key, scopes).complete ==>
              forall x :: x in ScopedRecords(key, scopes).emitted
                          <==> exists i :: 0 <= i < |scopes| && x in ListedUnder(scopes[i].1, key)
    decreases |scopes|
  {
    if scopes != [] {
      ScopedRecordsContents(key, scopes[1..]);
      var rest := scopes[1..];
      assert forall i :: 0 <= i < |rest| ==> rest[i] == scopes[i + 1];
      if ScopedRecords(key, scopes).complete {
        forall x
          ensures x in ScopedRecords(key, scopes).emitted
                  <==> exists i :: 0 <= i < |scopes| && x in ListedUnder(scopes[i].1, key)
        {
          if x in ListedUnder(scopes[0].1, key) {
          } else if exists i :: 0 <= i < |scopes| && x in ListedUnder(scopes[i].1, key) {
            var i :| 0 <= i < |scopes| && x in ListedUnder(scopes[i].1, key);
            assert x in ListedUnder(rest[i - 1].1, key);
          }
        }
      } else {
        if Member(scopes[0].1, key) != Some(Null) {
          var i :| 0 <= i < |rest| && Member(rest[i].1, key) == Some(Null);
          assert Member(scopes[i + 1].1, key) == Some(Null);
        }
      }
    }
  }

  /** The first envelope whose `key` is null raises: the records of the scopes
      before it, in that same response, are kept. */
  lemma ScopedRecordsNullStops(key: string, scopes: Scopes, k: nat)
    requires k < |scopes|
    requires forall i :: 0 <= i < k ==> Member(scopes[i].1, key) != Some(Null)
    requires Member(scopes[k].1, key) == Some(Null)
    ensures ScopedRecords(key, scopes) == Partial(ScopedRecords(key, scopes[..k]).emitted, false)
  {
    assert scopes == scopes[..k] + scopes[k..];
    ScopedRecordsThen(key, scopes[..k], scopes[k..]);
    ScopedRecordsContents(key, scopes[..k]);
    assert scopes[k..][0] == scopes[k];
  }

  /** A response whose "items" is absent or null contributes nothing and
      paging goes on. */
  lemma FlattenedPageWithoutItemsIsSkipped(key: string, before: seq<Page<Scopes>>, response: Response<Scopes>, after: seq<Page<Scopes>>)
    requires response.items == None || response.items == Some(Null)
    ensures Enumerate(Flattened(key), before + [Ok(response, HasNext)] + after)
            == Enumerate(Flattened(key), before + after)
  {
    SkipEmptyPage(Flattened(key), before, Ok(response, HasNext), after);
  }

  /** A null `key` in scope j of page k ends the enumeration with the records
      of the earlier pages and of scopes 0..j-1 of page k. */
  lemma FlattenedNullKeepsEarlier(key: string, pages: seq<Page<Scopes>>, k: nat, j: nat)
    requires k < |pages|
    requires forall i :: 0 <= i < k ==> Continues(Flattened(key), pages[i])
    requires pages[k].Ok? && pages[k].response.items.Some? && pages[k].response.items.value.Value?
    requires j < |pages[k].response.items.value.value|
    requires forall i :: 0 <= i < j ==> Member(pages[k].response.items.value.value[i].1, key) != Some(Null)
    requires Member(pages[k].response.items.value.value[j].1, key) == Some(Null)
    ensures Enumerate(Flattened(key), pages)
            == Enumeration(Concat(Flattened(key), pages[..k])
                             + ScopedRecords(key, pages[k].response.items.value.value[..j]).emitted, true)
  {
    var scopes := pages[k].response.items.value.value;
    ScopedRecordsNullStops(key, scopes, j);
    ExtractionFails(Flattened(key), pages, k);
  }

  // Static IPs

  /** Scopes are grouped in order. */
  lemma {:induction false} AddressGroupsConcat(first: Scopes, second: Scopes)
    ensures AddressGroups(first + second) == AddressGroups(first) + AddressGroups(second)
    decreases |first|
  {
    if first == [] {
      assert first + second == second;
    } else {
      var head := if HasAddresses(first[0].1) then [map[first[0].0 := first[0].1]] else [];
      assert (first + second)[0] == first[0];
      assert (first + second)[1..] == first[1..] + second;
      assert AddressGroups(first + second) == head + AddressGroups(first[1..] + second);
      AddressGroupsConcat(first[1..], second);
      assert AddressGroups(first) == head + AddressGroups(first[1..]);
    }
  }

  /** One `{scope: envelope}` entry, with the envelope unchanged, for exactly
      the scopes whose "addresses" is present and not null (an empty list
      included), and never more entries than scopes. */
  lemma {:induction false} AddressGroupsContents(scopes: Scopes)
    ensures |AddressGroups(scopes)| <= |scopes|
    ensures forall g :: g in AddressGroups(scopes)
                        <==> exists i :: 0 <= i < |scopes| && HasAddresses(scopes[i].1)
                                         && g == map[scopes[i].0 := scopes[i].1]
    decreases |scopes|
  {
    if scopes != [] {
      AddressGroupsContents(scopes[1..]);
      var rest := scopes[1..];
      forall g
        ensures g in AddressGroups(scopes)
                <==> exists i :: 0 <= i < |scopes| && HasAddresses(scopes[i].1)
                                 && g == map[scopes[i].0 := scopes[i].1]
      {
        if exists i :: 0 <= i < |scopes| && HasAddresses(scopes[i].1) && g == map[scopes[i].0 := scopes[i].1] {
          var i :| 0 <= i < |scopes| && HasAddresses(scopes[i].1) && g == map[scopes[i].0 := scopes[i].1];
          if i > 0 {
            assert rest[i - 1] == scopes[i];
          }
        }
        if g in AddressGroups(rest) {
          var i :| 0 <= i < |rest| && HasAddresses(rest[i].1) && g == map[rest[i].0 := rest[i].1];
          assert rest[i] == scopes[i + 1];
        }
      }
    }
  }

  /** A page without "items" (or with null "items") raises at once: the
      records of the earlier pages are returned and paging ends. */
  lemma StaticIpsMissingItemsStops(pages: seq<Page<Scopes>>, k: nat)
    requires k < |pages|
    requires forall i :: 0 <= i < k ==> Continues(StaticIpsPage, pages[i])
    requires pages[k].Ok? && (pages[k].response.items == None || pages[k].response.items == Some(Null))
    ensures Enumerate(StaticIpsPage, pages) == Enumeration(Concat(StaticIpsPage, pages[..k]), true)
  {
    ExtractionFails(StaticIpsPage, pages, k);
  }

  // Subnets

  /** The (scope, envelope) pairs of one page, when it executed and has "items". */
  function PagePairs(page: Page<Scopes>): Scopes
  {
    match page
    case Ok(Response(Some(Value(scopes))), _) => scopes
    case _ => []
  }

  /** The (scope, envelope) pairs of every response that has "items", in order. */
  function ScopePairs(pages: seq<Page<Scopes>>): seq<(string, Envelope)>
    decreases |pages|
  {
    if pages == [] then [] else PagePairs(pages[0]) + ScopePairs(pages[1..])
  }

  lemma {:induction false} SubnetsConcat(pages: seq<Page<Scopes>>)
    ensures Concat(SubnetsPage, pages) == ScopePairs(pages)
    decreases |pages|
  {
    if pages != [] {
      SubnetsConcat(pages[1..]);
    }
  }

  /** A (scope, envelope) pair is collected exactly when it is a scope of some
      page that has "items"; nothing is filtered out and nothing is added. */
  lemma {:induction false} ScopePairsContents(pages: seq<Page<Scopes>>)
    ensures forall pair :: pair in ScopePairs(pages)
                           <==> exists k :: 0 <= k < |pages| && pair in PagePairs(pages[k])
    decreases |pages|
  {
    if pages != [] {
      ScopePairsContents(pages[1..]);
      var rest := pages[1..];
      forall pair
        ensures pair in ScopePairs(pages) <==> exists k :: 0 <= k < |pages| && pair in PagePairs(pages[k])
      {
        if exists k :: 0 <= k < |pages| && pair in PagePairs(pages[k]) {
          var k :| 0 <= k < |pages| && pair in PagePairs(pages[k]);
          if k > 0 {
            assert rest[k - 1] == pages[k];
          }
        }
        if pair in ScopePairs(rest) {
          var k :| 0 <= k < |rest| && pair in PagePairs(rest[k]);
          assert rest[k] == pages[k + 1];
        }
      }
    }
  }

  /** Reading a subnet listing never raises, so the enumeration ends without
      failure exactly when a page without successor is reached through pages
      that all executed and have one. */
  lemma {:induction false} SubnetsFailOnlyOnRequests(pages: seq<Page<Scopes>>)
    ensures !Enumerate(SubnetsPage, pages).failed
            <==> exists k :: 0 <= k < |pages| && pages[k].Ok? && pages[k].next == NoNext
                             && forall i :: 0 <= i < k ==> pages[i].Ok? && pages[i].next == HasNext
  {
    CompletesIff(SubnetsPage, pages);
    assert forall k :: 0 <= k < |pages| ==>
      (Finishes(SubnetsPage, pages[k]) <==> pages[k].Ok? && pages[k].next == NoNext);
    assert forall i :: 0 <= i < |pages| ==>
      (Continues(SubnetsPage, pages[i]) <==> pages[i].Ok? && pages[i].next == HasNext);
  }

  /** When every request succeeds, every (scope, envelope) pair of every page
      with "items" is returned, unfiltered and in order. */
  lemma {:induction false} SubnetsAllPages(pages: seq<Page<Scopes>>)
    requires |pages| > 0
    requires forall i :: 0 <= i < |pages| - 1 ==> pages[i].Ok? && pages[i].next == HasNext
    requires pages[|pages| - 1].Ok? && pages[|pages| - 1].next == NoNext
    ensures Enumerate(SubnetsPage, pages) == Enumeration(ScopePairs(pages), false)
  {
    AllPagesSucceed(SubnetsPage, pages);
    SubnetsConcat(pages);
  }

  // Firewall rules

  /** Each rule becomes the one-tuple of its name, in order, up to the first
      rule without a "name" member, which raises. */
  lemma {:induction false} RuleNamesUntilMissing(records: seq<Record>, k: nat)
    requires k <= |records|
    requires forall i :: 0 <= i < k ==> records[i].name.Some?
    requires k == |records| || records[k].name.None?
    ensures RuleNames(records)
            == Partial(seq(k, i requires 0 <= i < k => RuleName(records[i].name.value)), k == |records|)
    decreases |records|
  {
    if records != [] {
      if k == 0 {
      } else {
        RuleNamesUntilMissing(records[1..], k - 1);
        var tail := seq(k - 1, i requires 0 <= i < k - 1 => RuleName(records[1..][i].name.value));
        assert [RuleName(records[0].name.value)] + tail
               == seq(k, i requires 0 <= i < k => RuleName(records[i].name.value));
      }
    }
  }

  /** A firewall page without "items" contributes nothing and paging goes on. */
  lemma FirewallPageWithoutItemsIsSkipped(before: seq<Page<seq<Record>>>, response: Response<seq<Record>>, after: seq<Page<seq<Record>>>)
    requires response.items.None?
    ensures Enumerate(FirewallsPage, before + [Ok(response, HasNext)] + after)
            == Enumerate(FirewallsPage, before + after)
  {
    SkipEmptyPage(FirewallsPage, before, Ok(response, HasNext), after);
  }

  /** A firewall page whose "items" is null raises: the earlier pages' names
      are returned. */
  lemma FirewallNullItemsStops(pages: seq<Page<seq<Record>>>, k: nat)
    requires k < |pages|
    requires forall i :: 0 <= i < k ==> Continues(FirewallsPage, pages[i])
    requires pages[k].Ok? && pages[k].response.items == Some(Null)
    ensures Enumerate(FirewallsPage, pages) == Enumeration(Concat(FirewallsPage, pages[..k]), true)
  {
    ExtractionFails(FirewallsPage, pages, k);
  }

  /** A rule without a name in page k ends the enumeration; the names of the
      earlier pages and of the rules before it on page k are kept. */
  lemma FirewallMissingNameKeepsEarlier(pages: seq<Page<seq<Record>>>, k: nat, j: nat)
    requires k < |pages|
    requires forall i :: 0 <= i < k ==> Continues(FirewallsPage, pages[i])
    requires pages[k].Ok? && pages[k].response.items.Some? && pages[k].response.items.value.Value?
    requires j < |pages[k].response.items.value.value|
    requires forall i :: 0 <= i < j ==> pages[k].response.items.value.value[i].name.Some?
    requires pages[k].response.items.value.value[j].name.None?
    ensures Enumerate(FirewallsPage, pages)
            == Enumeration(Concat(FirewallsPage, pages[..k])
                             + seq(j, i requires 0 <= i < j => RuleName(pages[k].response.items.value.value[i].name.value)),
                           true)
  {
    RuleNamesUntilMissing(pages[k].response.items.value.value, j);
    ExtractionFails(FirewallsPage, pages, k);
  }

  /** Two named rules on a single last page yield exactly their two names,
      whatever their other members are. */
  lemma FirewallNamesOnly(others1: map<string, string>, others2: map<string, string>)
    ensures Enumerate(FirewallsPage,
                      [Ok(Response(Some(Value([Record(Some(Value("a")), others1),
                                               Record(Some(Value("b")), others2)]))), NoNext)])
            == Enumeration([RuleName(Value("a")), RuleName(Value("b"))], false)
  {
    var records := [Record(Some(Value("a")), others1), Record(Some(Value("b")), others2)];
    RuleNamesUntilMissing(records, 2);
  }
}
