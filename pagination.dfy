/** The paging loop shared by every `CrawlCompute` enumerator.

    Each enumerator issues a first request, executes it, appends what it finds
    in the response to a local list, and asks `*_next(previous_request,
    previous_response)` for the next request until that returns `None`. A
    single `try`/`except Exception` around the whole loop turns any exception
    (from `execute()`, from reading the response, or from the `*_next` call)
    into an early exit that still returns the list built so far.

    The remote service is a script: `pages[i]` is what executing the i-th
    request yields. The enumerators differ only in the extractor, a function
    from a response to what their nested `for` loops append before they finish
    or raise.
 */
module Pagination {
  import opened ApiTypes

  /** What the `*_next(previous_request, previous_response)` call does. */
  datatype Next = HasNext | NoNext | NextRaises

  /** The outcome of executing one request: `execute()` raised, or it returned
      a response, after which the continuation call behaves as `next`. */
  datatype Page<R> = Fail | Ok(response: Response<R>, next: Next)

  /** What the extraction loops append for one response: the entries appended,
      in order, and whether the loops ran to the end (`false`: they raised
      after appending `emitted`). */
  datatype Partial<T> = Partial(emitted: seq<T>, complete: bool)

  /** What an enumerator ends with: the list it returns, and whether its
      `except` branch ran (the failure that is only logged). */
  datatype Enumeration<T> = Enumeration(records: seq<T>, failed: bool)

  /** Running one extraction loop after another: the second one runs only if
      the first did not raise. */
  function Then<T>(first: Partial<T>, second: Partial<T>): (p: Partial<T>)
    ensures first.emitted <= p.emitted
    ensures p.complete <==> first.complete && second.complete
  {
    if first.complete then Partial(first.emitted + second.emitted, second.complete) else first
  }

  /** A page after which the loop goes on to the next request. */
  predicate Continues<R, T>(extract: Response<R> -> Partial<T>, page: Page<R>)
  {
    page.Ok? && extract(page.response).complete && page.next == HasNext
  }

  /** A page after which the loop ends normally (`*_next` returned `None`). */
  predicate Finishes<R, T>(extract: Response<R> -> Partial<T>, page: Page<R>)
  {
    page.Ok? && extract(page.response).complete && page.next == NoNext
  }

  /** What the enumerator returns when the service answers with `pages`. A
      request beyond the scripted pages fails like a raising `execute()`. */
  function Enumerate<R, T>(extract: Response<R> -> Partial<T>, pages: seq<Page<R>>): Enumeration<T>
    decreases |pages|
  {
    if pages == [] then Enumeration([], true)
    else match pages[0]
      case Fail => Enumeration([], true)
      case Ok(response, next) =>
        var page := extract(response);
        if !page.complete then Enumeration(page.emitted, true)
        else match next
          case NoNext => Enumeration(page.emitted, false)
          case NextRaises => Enumeration(page.emitted, true)
          case HasNext =>
            var rest := Enumerate(extract, pages[1..]);
            Enumeration(page.emitted + rest.records, rest.failed)
  }

  /** The in-order concatenation of what every successfully executed page yields. */
  function Concat<R, T>(extract: Response<R> -> Partial<T>, pages: seq<Page<R>>): seq<T>
    decreases |pages|
  {
    if pages == [] then []
    else (if pages[0].Ok? then extract(pages[0].response).emitted else []) + Concat(extract, pages[1..])
  }

  /** The paging loop itself: `while request is not None`, the request being
      the index of the next scripted page, with `break` for the `except` exit. */
  method Paginate<R, T>(extract: Response<R> -> Partial<T>, pages: seq<Page<R>>)
    returns (records: seq<T>, failed: bool)
    ensures Enumeration(records, failed) == Enumerate(extract, pages)
  {
    records, failed := [], false;
    var request: Option<nat> := Some(0);
    while request.Some?
      invariant request.Some? ==> request.value <= |pages|
      invariant !failed
      invariant request.Some? ==>
        Enumerate(extract, pages)
        == Enumeration(records + Enumerate(extract, pages[request.value..]).records,
                       Enumerate(extract, pages[request.value..]).failed)
      invariant request.None? ==> Enumerate(extract, pages) == Enumeration(records, false)
      decreases if request.Some? then |pages| + 1 - request.value else 0
    {
      var i := request.value;
      if i == |pages| || pages[i].Fail? {
        // execute() raised
        failed := true;
        break;
      }
      assert pages[i..][1..] == pages[i + 1..];
      var response := pages[i].response;
      var page := extract(response);
      ghost var before := records;
      var j := 0;
      while j < |page.emitted|
        invariant j <= |page.emitted|
        invariant records == before + page.emitted[..j]
      {
        records := records + [page.emitted[j]];
        j := j + 1;
      }
      assert page.emitted[..j] == page.emitted;
      if !page.complete {
        // the extraction loops raised part-way through the response
        failed := true;
        break;
      }
      match pages[i].next
      case NoNext =>
        request := None;
      case NextRaises =>
        failed := true;
        break;
      case HasNext =>
        request := Some(i + 1);
    }
  }

  lemma {:induction false} ConcatAppend<R, T>(extract: Response<R> -> Partial<T>, a: seq<Page<R>>, b: seq<Page<R>>)
    ensures Concat(extract, a + b) == Concat(extract, a) + Concat(extract, b)
    decreases |a|
  {
    if a == [] {
      assert a + b == b;
    } else {
      assert (a + b)[1..] == a[1..] + b;
      ConcatAppend(extract, a[1..], b);
    }
  }

  /** After k pages that all continue, the result is what those pages yielded
      followed by whatever the rest of the service yields. */
  lemma {:induction false} EnumerateSplit<R, T>(extract: Response<R> -> Partial<T>, pages: seq<Page<R>>, k: nat)
    requires k <= |pages|
    requires forall i :: 0 <= i < k ==> Continues(extract, pages[i])
    ensures Enumerate(extract, pages)
            == Enumeration(Concat(extract, pages[..k]) + Enumerate(extract, pages[k..]).records,
                           Enumerate(extract, pages[k..]).failed)
  {
    if k == 0 {
      assert pages[..0] == [];
      assert pages[0..] == pages;
    } else {
      EnumerateSplit(extract, pages[1..], k - 1);
      assert pages[1..][..k - 1] == pages[..k][1..];
      assert pages[1..][k - 1..] == pages[k..];
    }
  }

  /** Every page succeeds and only the last has no successor: the result is
      the in-order concatenation of every page's records, with no failure. */
  lemma {:induction false} AllPagesSucceed<R, T>(extract: Response<R> -> Partial<T>, pages: seq<Page<R>>)
    requires |pages| > 0
    requires forall i :: 0 <= i < |pages| - 1 ==> Continues(extract, pages[i])
    requires Finishes(extract, pages[|pages| - 1])
    ensures Enumerate(extract, pages) == Enumeration(Concat(extract, pages), false)
  {
    var n := |pages| - 1;
    EnumerateSplit(extract, pages, n);
    assert pages[..n] + pages[n..] == pages;
    ConcatAppend(extract, pages[..n], pages[n..]);
    assert pages[n..][1..] == [];
  }

  /** The loop stops exactly at the first page whose `*_next` returns `None`:
      whatever the service would serve after it is never requested. */
  lemma StopsAtFinalPage<R, T>(extract: Response<R> -> Partial<T>, pages: seq<Page<R>>, unrequested: seq<Page<R>>)
    requires |pages| > 0
    requires forall i :: 0 <= i < |pages| - 1 ==> Continues(extract, pages[i])
    requires Finishes(extract, pages[|pages| - 1])
    ensures Enumerate(extract, pages + unrequested) == Enumerate(extract, pages)
  {
    var n := |pages| - 1;
    var all := pages + unrequested;
    assert all[..n] == pages[..n];
    assert all[n] == pages[n];
    EnumerateSplit(extract, pages, n);
    EnumerateSplit(extract, all, n);
    assert all[n..][0] == pages[n..][0];
  }

  /** `execute()` raises an `Exception` on request k (or the service has no
      page k): the result is exactly the records of pages 0..k-1, and the
      exception does not escape. */
  lemma ExecuteFails<R, T>(extract: Response<R> -> Partial<T>, pages: seq<Page<R>>, k: nat)
    requires k <= |pages|
    requires forall i :: 0 <= i < k ==> Continues(extract, pages[i])
    requires k == |pages| || pages[k].Fail?
    ensures Enumerate(extract, pages) == Enumeration(Concat(extract, pages[..k]), true)
  {
    EnumerateSplit(extract, pages, k);
  }

  /** Reading response k raises: the result is the records of the earlier
      pages followed by what page k's loops had already appended. */
  lemma ExtractionFails<R, T>(extract: Response<R> -> Partial<T>, pages: seq<Page<R>>, k: nat)
    requires k < |pages|
    requires forall i :: 0 <= i < k ==> Continues(extract, pages[i])
    requires pages[k].Ok? && !extract(pages[k].response).complete
    ensures Enumerate(extract, pages)
            == Enumeration(Concat(extract, pages[..k]) + extract(pages[k].response).emitted, true)
  {
    EnumerateSplit(extract, pages, k);
  }

  /** The `*_next` call after page k raises: page k's records are kept, and
      the result is the records of pages 0..k. */
  lemma NextRequestFails<R, T>(extract: Response<R> -> Partial<T>, pages: seq<Page<R>>, k: nat)
    requires k < |pages|
    requires forall i :: 0 <= i < k ==> Continues(extract, pages[i])
    requires pages[k].Ok? && extract(pages[k].response).complete && pages[k].next == NextRaises
    ensures Enumerate(extract, pages) == Enumeration(Concat(extract, pages[..k + 1]), true)
  {
    EnumerateSplit(extract, pages, k);
    assert pages[..k + 1] == pages[..k] + [pages[k]];
    ConcatAppend(extract, pages[..k], [pages[k]]);
  }

  /** The enumeration ends without failure exactly when it reaches, through
      pages that all continue, a page after which `*_next` returns `None`. */
  lemma {:induction false} CompletesIff<R, T>(extract: Response<R> -> Partial<T>, pages: seq<Page<R>>)
    ensures !Enumerate(extract, pages).failed
            <==> exists k :: 0 <= k < |pages| && Finishes(extract, pages[k])
                             && forall i :: 0 <= i < k ==> Continues(extract, pages[i])
    decreases |pages|
  {
    if pages != [] {
      CompletesIff(extract, pages[1..]);
      if Continues(extract, pages[0]) {
        if !Enumerate(extract, pages).failed {
          var k :| 0 <= k < |pages[1..]| && Finishes(extract, pages[1..][k])
                   && forall i :: 0 <= i < k ==> Continues(extract, pages[1..][i]);
          assert Finishes(extract, pages[k + 1]);
          assert forall i :: 0 <= i < k + 1 ==> Continues(extract, pages[i]) by {
            forall i | 0 <= i < k + 1 ensures Continues(extract, pages[i]) {
              if i > 0 { assert pages[i] == pages[1..][i - 1]; }
            }
          }
        }
        if exists k :: 0 <= k < |pages| && Finishes(extract, pages[k])
                       && forall i :: 0 <= i < k ==> Continues(extract, pages[i]) {
          var k :| 0 <= k < |pages| && Finishes(extract, pages[k])
                   && forall i :: 0 <= i < k ==> Continues(extract, pages[i]);
          assert k != 0;
          assert Finishes(extract, pages[1..][k - 1]);
          assert forall i :: 0 <= i < k - 1 ==> Continues(extract, pages[1..][i]) by {
            forall i | 0 <= i < k - 1 ensures Continues(extract, pages[1..][i]) {
              assert pages[1..][i] == pages[i + 1];
            }
          }
        }
      } else {
        if exists k :: 0 <= k < |pages| && Finishes(extract, pages[k])
                       && forall i :: 0 <= i < k ==> Continues(extract, pages[i]) {
          var k :| 0 <= k < |pages| && Finishes(extract, pages[k])
                   && forall i :: 0 <= i < k ==> Continues(extract, pages[i]);
          assert k == 0;
        }
      }
    }
  }

  /** The accumulator is append-only: whatever the service serves after a
      script, the records returned for the script are a prefix of the records
      returned for the longer one. In particular the list held after any number
      of iterations is a prefix of the list finally returned. */
  lemma {:induction false} AppendOnly<R, T>(extract: Response<R> -> Partial<T>, pages: seq<Page<R>>, more: seq<Page<R>>)
    ensures Enumerate(extract, pages).records <= Enumerate(extract, pages + more).records
    decreases |pages|
  {
    if pages != [] {
      assert (pages + more)[0] == pages[0];
      assert (pages + more)[1..] == pages[1..] + more;
      AppendOnly(extract, pages[1..], more);
    }
  }

  /** A page that yields nothing, does not raise and has a successor can be
      removed from anywhere in the service without changing the result. */
  lemma {:induction false} SkipEmptyPage<R, T>(extract: Response<R> -> Partial<T>, before: seq<Page<R>>, page: Page<R>, after: seq<Page<R>>)
    requires page.Ok? && extract(page.response) == Partial([], true) && page.next == HasNext
    ensures Enumerate(extract, before + [page] + after) == Enumerate(extract, before + after)
    decreases |before|
  {
    if before == [] {
      assert before + [page] + after == [page] + after;
      assert ([page] + after)[1..] == after;
      assert before + after == after;
    } else {
      assert (before + [page] + after)[0] == before[0] == (before + after)[0];
      assert (before + [page] + after)[1..] == before[1..] + [page] + after;
      assert (before + after)[1..] == before[1..] + after;
      SkipEmptyPage(extract, before[1..], page, after);
    }
  }
}
