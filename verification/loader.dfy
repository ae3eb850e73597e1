/** `Snippet.load` in modules/Snippet.js: inputs are resolved in order, URL
    sources through a cache keyed by the normalised URL, and a rejected fetch
    aborts the whole load. The module-level cache becomes an explicit value
    passed in and returned, the network becomes a `Fetcher` oracle, and every
    fetch is recorded in a log. */
module Loader {
  import opened Optional
  import opened Text
  import SourceUrl
  import opened SnippetContent

  /** The cache: normalised URL to fetched text. */
  type Cache = map<string, string>

  /** The network: the text served at a URL, or `None` when the fetch (or
      reading its body) rejects. */
  type Fetcher = string -> Option<string>

  datatype LoadError = FetchRejected(url: string)

  datatype Result<T> = Success(value: T) | Failure(error: LoadError)

  /** One input resolved: its outcome, the cache after it, the URLs fetched. */
  datatype Step = Step(outcome: Result<Content>, cache: Cache, fetched: seq<string>)

  /** A sequence of inputs resolved. */
  datatype Batch = Batch(outcome: Result<seq<Content>>, cache: Cache, fetched: seq<string>)

  /** The constructor argument: one input or an array of them. */
  datatype Inputs = One(input: Input) | Many(inputs: seq<Input>)

  /** What `load` resolves to: one record for one input, an array otherwise. */
  datatype Output = Single(content: Content) | List(contents: seq<Content>)

  datatype Snippet = Snippet(inputs: Inputs)

  /** `new Snippet(inputs)`: a missing or `null` argument is an empty array. */
  function NewSnippet(inputs: Option<Inputs>): (s: Snippet)
    ensures inputs.None? ==> s.inputs == Many([])
    ensures inputs.Some? ==> s.inputs == inputs.value
  {
    Snippet(inputs.GetOr(Many([])))
  }

  /** `new Snippet()` loads to an empty array: no record, no fetch, the
      cache untouched. */
  lemma EmptySnippetLoadsNothing(cache: Cache, fetch: Fetcher, render: Renderer)
    ensures NewSnippet(None).inputs.Many?
    ensures Run(AsList(NewSnippet(None).inputs), cache, fetch, render) == Batch(Success([]), cache, [])
    ensures ExpectedAll(NewSnippet(None).inputs.inputs, cache, fetch, render) == []
  {
  }

  /** The inputs as an array. */
  function AsList(inputs: Inputs): (list: seq<Input>)
    ensures inputs.One? ==> list == [inputs.input]
    ensures inputs.Many? ==> list == inputs.inputs
  {
    match inputs
    case One(input) => [input]
    case Many(list) => list
  }

  /** `big` keeps every entry of `small`, with the same text. */
  ghost predicate Extends(big: Cache, small: Cache) {
    forall k :: k in small ==> k in big && big[k] == small[k]
  }

  ghost predicate NoDuplicates(s: seq<string>) {
    forall i, j :: 0 <= i < j < |s| ==> s[i] != s[j]
  }

  /** How a record is built from a text, its input and its URL; `load`
      builds it with `toSnippetContent` (see `Render`). */
  type Renderer = (string, Input, Option<string>) -> Content

  /** `toSnippetContent` with a fixed highlighter. */
  function Render(hl: Highlighter): Renderer {
    (text, input, url) => ToSnippetContent(text, input, url, hl)
  }

  /** The URL an input's text is fetched from, when its source is a URL. */
  function UrlOf(input: Input): (url: Option<string>)
    ensures url.Some? <==> SourceUrl.IsUrlSource(input.source)
    ensures url.Some? ==> StartsWith(url.value, SourceUrl.Scheme)
  {
    if SourceUrl.IsUrlSource(input.source) then Some(SourceUrl.Normalise(input.source)) else None
  }

  /** The text a record is built from, given the cache once the input has
      been resolved. */
  function TextOf(input: Input, cache: Cache): string {
    match UrlOf(input)
    case Some(url) => if url in cache then cache[url] else ""
    case None => input.source
  }

  /** The cache discipline of one resolved input that started from `cache`:
      at most one fetch, only of a URL that was missing; a rejected fetch
      leaves the cache as it was; a successful one stores exactly the served
      text under the fetched URL and changes nothing else. */
  ghost predicate StepDisciplined(cache: Cache, st: Step, fetch: Fetcher) {
    && (st.fetched == [] || (|st.fetched| == 1 && st.fetched[0] !in cache))
    && (st.outcome.Failure? <==> |st.fetched| == 1 && fetch(st.fetched[0]).None?)
    && (st.outcome.Failure? ==> st.outcome.error == FetchRejected(st.fetched[0]) && st.cache == cache)
    && (st.outcome.Success? && st.fetched == [] ==> st.cache == cache)
    && (st.outcome.Success? && |st.fetched| == 1 ==>
          st.cache == cache[st.fetched[0] := fetch(st.fetched[0]).value])
  }

  /** One iteration of the loop of `load`: inline text is used as it is; a URL
      is looked up in the cache and fetched only on a miss, the fetched text
      being stored before the record is built. */
  function ResolveInput(input: Input, cache: Cache, fetch: Fetcher, render: Renderer): (st: Step)
    ensures StepDisciplined(cache, st, fetch)
    ensures st.fetched == (if UrlOf(input).Some? && UrlOf(input).value !in cache then [UrlOf(input).value] else [])
    ensures st.outcome.Success? && UrlOf(input).Some? ==> UrlOf(input).value in st.cache
    ensures st.outcome.Success? ==>
              st.outcome.value == render(TextOf(input, st.cache), input, UrlOf(input))
  {
    match UrlOf(input)
    case None =>
      Step(Success(render(input.source, input, None)), cache, [])
    case Some(url) =>
      if url in cache then
        Step(Success(render(cache[url], input, Some(url))), cache, [])
      else
        match fetch(url)
        case None => Step(Failure(FetchRejected(url)), cache, [url])
        case Some(text) =>
          var cache' := cache[url := text];
          Step(Success(render(text, input, Some(url))), cache', [url])
  }

  /** The cache discipline of a (partial) load that started from `cache`:
      the cache only grows and never changes an entry; every new key was
      fetched; each URL is fetched at most once and only when it was not
      cached; a success has stored every fetched URL, and a failure ends with
      the rejected fetch. */
  ghost predicate Disciplined(cache: Cache, b: Batch, fetch: Fetcher) {
    && Extends(b.cache, cache)
    && (forall k :: k in b.cache ==> k in cache || k in b.fetched)
    && (forall k :: k in b.cache && k !in cache ==> fetch(k) == Some(b.cache[k]))
    && (forall i :: 0 <= i < |b.fetched| ==> b.fetched[i] !in cache)
    && NoDuplicates(b.fetched)
    && (b.outcome.Success? ==> forall i :: 0 <= i < |b.fetched| ==> b.fetched[i] in b.cache)
    && (b.outcome.Failure? ==>
          |b.fetched| >= 1 && b.outcome.error == FetchRejected(b.fetched[|b.fetched| - 1])
          && fetch(b.fetched[|b.fetched| - 1]).None?)
  }

  /** The loop of `load` over `inputs`, stopping at the first rejected fetch. */
  function Run(inputs: seq<Input>, cache: Cache, fetch: Fetcher, render: Renderer): (b: Batch)
    ensures Disciplined(cache, b, fetch)
    ensures b.outcome.Success? ==> |b.outcome.value| == |inputs|
    decreases |inputs|
  {
    if |inputs| == 0 then Batch(Success([]), cache, [])
    else
      var b := Run(inputs[..|inputs| - 1], cache, fetch, render);
      match b.outcome
      case Failure(_) => b
      case Success(contents) =>
        var st := ResolveInput(inputs[|inputs| - 1], b.cache, fetch, render);
        match st.outcome
        case Failure(e) =>
          RunStep(cache, b, st, fetch, Failure(e));
          Batch(Failure(e), st.cache, b.fetched + st.fetched)
        case Success(c) =>
          RunStep(cache, b, st, fetch, Success(contents + [c]));
          Batch(Success(contents + [c]), st.cache, b.fetched + st.fetched)
  }

  /** Resolving one more input after a successful partial load keeps the
      cache discipline. */
  lemma RunStep(cache: Cache, b: Batch, st: Step, fetch: Fetcher, outcome: Result<seq<Content>>)
    requires Disciplined(cache, b, fetch) && b.outcome.Success?
    requires StepDisciplined(b.cache, st, fetch)
    requires outcome.Failure? <==> st.outcome.Failure?
    requires outcome.Failure? ==> outcome.error == st.outcome.error
    ensures Disciplined(cache, Batch(outcome, st.cache, b.fetched + st.fetched), fetch)
  {
    FetchLogAppend(cache, b.cache, b.fetched, st.fetched);
  }

  /** Appending the fetch of one missing URL to a log of URLs that were
      missing from `cache` and are now all in `mid` keeps the log free of
      cached URLs and of repeats. */
  lemma FetchLogAppend(cache: Cache, mid: Cache, fetched: seq<string>, more: seq<string>)
    requires Extends(mid, cache)
    requires forall i :: 0 <= i < |fetched| ==> fetched[i] !in cache && fetched[i] in mid
    requires NoDuplicates(fetched)
    requires more == [] || (|more| == 1 && more[0] !in mid)
    ensures forall i :: 0 <= i < |fetched + more| ==> (fetched + more)[i] !in cache
    ensures NoDuplicates(fetched + more)
  {
  }

  /** `Run` on a non-empty list, one step unfolded. */
  lemma RunLast(inputs: seq<Input>, cache: Cache, fetch: Fetcher, render: Renderer)
    requires |inputs| > 0
    ensures var b := Run(inputs[..|inputs| - 1], cache, fetch, render);
            var st := ResolveInput(inputs[|inputs| - 1], b.cache, fetch, render);
            Run(inputs, cache, fetch, render)
            == if b.outcome.Failure? then b
               else Batch(if st.outcome.Failure? then Failure(st.outcome.error)
                          else Success(b.outcome.value + [st.outcome.value]),
                          st.cache, b.fetched + st.fetched)
  {
  }

  /** The text an input stands for: inline text itself, or the text of its
      normalised URL, from the starting cache if it is there and from the
      network otherwise. */
  function ReferenceText(input: Input, cache: Cache, fetch: Fetcher): string {
    match UrlOf(input)
    case None => input.source
    case Some(url) => if url in cache then cache[url] else fetch(url).GetOr("")
  }

  /** A cache that grew from `cache` only by served texts and holds the
      input's URL gives the input its reference text. */
  lemma TextMatchesReference(input: Input, cache: Cache, later: Cache, fetch: Fetcher)
    requires Extends(later, cache)
    requires forall k :: k in later && k !in cache ==> fetch(k) == Some(later[k])
    requires UrlOf(input).Some? ==> UrlOf(input).value in later
    ensures TextOf(input, later) == ReferenceText(input, cache, fetch)
  {
  }

  /** The record an input stands for, independent of any cache. */
  function Expected(input: Input, cache: Cache, fetch: Fetcher, render: Renderer): Content {
    render(ReferenceText(input, cache, fetch), input, UrlOf(input))
  }

  /** The records a list of inputs stands for, in order. */
  function ExpectedAll(inputs: seq<Input>, cache: Cache, fetch: Fetcher, render: Renderer): seq<Content>
    decreases |inputs|
  {
    if |inputs| == 0 then []
    else ExpectedAll(inputs[..|inputs| - 1], cache, fetch, render) + [Expected(inputs[|inputs| - 1], cache, fetch, render)]
  }

  /** `ExpectedAll` is pointwise: one record per input, each the one that
      input stands for. */
  lemma {:induction false} ExpectedAllAt(inputs: seq<Input>, cache: Cache, fetch: Fetcher, render: Renderer, i: nat)
    requires i < |inputs|
    ensures |ExpectedAll(inputs, cache, fetch, render)| == |inputs|
    ensures ExpectedAll(inputs, cache, fetch, render)[i] == Expected(inputs[i], cache, fetch, render)
    decreases |inputs|
  {
    var prefix := inputs[..|inputs| - 1];
    var last := Expected(inputs[|inputs| - 1], cache, fetch, render);
    var init := ExpectedAll(prefix, cache, fetch, render);
    assert ExpectedAll(inputs, cache, fetch, render) == init + [last];
    if |prefix| > 0 {
      ExpectedAllAt(prefix, cache, fetch, render, if i < |prefix| then i else 0);
    }
    assert |init| == |prefix|;
    if i < |prefix| {
      assert inputs[i] == prefix[i];
      assert (init + [last])[i] == init[i];
    } else {
      assert (init + [last])[i] == last;
    }
  }

  /** A successful `Run` on a non-empty list: the prefix and the last input
      both succeeded. */
  lemma RunLastSuccess(inputs: seq<Input>, cache: Cache, fetch: Fetcher, render: Renderer)
    requires |inputs| > 0 && Run(inputs, cache, fetch, render).outcome.Success?
    ensures var b := Run(inputs[..|inputs| - 1], cache, fetch, render);
            var st := ResolveInput(inputs[|inputs| - 1], b.cache, fetch, render);
            && b.outcome.Success? && st.outcome.Success?
            && Run(inputs, cache, fetch, render)
               == Batch(Success(b.outcome.value + [st.outcome.value]), st.cache, b.fetched + st.fetched)
  {
    RunLast(inputs, cache, fetch, render);
  }

  /** The last record of a successful `Run` is the one its input stands for. */
  lemma LastMatchesReference(inputs: seq<Input>, cache: Cache, fetch: Fetcher, render: Renderer)
    requires |inputs| > 0 && Run(inputs, cache, fetch, render).outcome.Success?
    ensures var b := Run(inputs[..|inputs| - 1], cache, fetch, render);
            var st := ResolveInput(inputs[|inputs| - 1], b.cache, fetch, render);
            st.outcome.Success? && st.outcome.value == Expected(inputs[|inputs| - 1], cache, fetch, render)
  {
    var b := Run(inputs[..|inputs| - 1], cache, fetch, render);
    var st := ResolveInput(inputs[|inputs| - 1], b.cache, fetch, render);
    RunLastSuccess(inputs, cache, fetch, render);
    TextMatchesReference(inputs[|inputs| - 1], cache, st.cache, fetch);
  }

  /** The cache is transparent: every record of a successful load is built
      from the text its input stands for, whatever the order of the inputs
      and however many of them share a URL. */
  lemma {:induction false} RunMatchesReference(inputs: seq<Input>, cache: Cache, fetch: Fetcher, render: Renderer)
    requires Run(inputs, cache, fetch, render).outcome.Success?
    ensures Run(inputs, cache, fetch, render).outcome.value == ExpectedAll(inputs, cache, fetch, render)
    decreases |inputs|
  {
    if |inputs| > 0 {
      var prefix := inputs[..|inputs| - 1];
      RunLastSuccess(inputs, cache, fetch, render);
      LastMatchesReference(inputs, cache, fetch, render);
      RunMatchesReference(prefix, cache, fetch, render);
    }
  }

  /** Once an input's fetch is rejected, later inputs change nothing: no
      further fetch, no further cache entry, the same error. */
  lemma {:induction false} FailureIsFinal(inputs: seq<Input>, more: seq<Input>, cache: Cache, fetch: Fetcher, render: Renderer)
    requires Run(inputs, cache, fetch, render).outcome.Failure?
    ensures Run(inputs + more, cache, fetch, render) == Run(inputs, cache, fetch, render)
    decreases |more|
  {
    var all := inputs + more;
    if |more| > 0 {
      assert all[..|all| - 1] == inputs + more[..|more| - 1];
      FailureIsFinal(inputs, more[..|more| - 1], cache, fetch, render);
      RunLast(all, cache, fetch, render);
    } else {
      assert all == inputs;
    }
  }

  /** A first input whose URL is missing from the cache and whose fetch
      rejects makes the whole load reject, with the cache as it was. */
  lemma RejectionAbortsBatch(input: Input, rest: seq<Input>, cache: Cache, fetch: Fetcher, render: Renderer, url: string)
    requires UrlOf(input) == Some(url) && url !in cache && fetch(url).None?
    ensures Run([input] + rest, cache, fetch, render) == Batch(Failure(FetchRejected(url)), cache, [url])
  {
    RunOne(input, cache, fetch, render);
    FailureIsFinal([input], rest, cache, fetch, render);
  }

  /** `Run` on one input is that input resolved. */
  lemma RunOne(input: Input, cache: Cache, fetch: Fetcher, render: Renderer)
    ensures var st := ResolveInput(input, cache, fetch, render);
            Run([input], cache, fetch, render)
            == Batch(if st.outcome.Failure? then Failure(st.outcome.error) else Success([st.outcome.value]),
                     st.cache, st.fetched)
  {
    assert [input][..0] == [];
    RunLast([input], cache, fetch, render);
    var st := ResolveInput(input, cache, fetch, render);
    assert [] + st.fetched == st.fetched;
    if st.outcome.Success? {
      assert [] + [st.outcome.value] == [st.outcome.value];
    }
  }

  /** `u` is the normalised URL of one of the inputs. */
  ghost predicate NamedBy(inputs: seq<Input>, u: string) {
    exists j :: 0 <= j < |inputs| && UrlOf(inputs[j]) == Some(u)
  }

  /** Every fetched URL is the normalised URL of some input. */
  lemma {:induction false} FetchedComeFromInputs(inputs: seq<Input>, cache: Cache, fetch: Fetcher, render: Renderer, k: nat)
    requires k < |Run(inputs, cache, fetch, render).fetched|
    ensures NamedBy(inputs, Run(inputs, cache, fetch, render).fetched[k])
    decreases |inputs|
  {
    var prefix := inputs[..|inputs| - 1];
    var u := Run(inputs, cache, fetch, render).fetched[k];
    FetchedByPrefixOrLast(inputs, cache, fetch, render, k);
    if k < |Run(prefix, cache, fetch, render).fetched| && u == Run(prefix, cache, fetch, render).fetched[k] {
      FetchedComeFromInputs(prefix, cache, fetch, render, k);
      NamedByPrefix(inputs, u);
    }
  }

  /** A URL named by a prefix of the inputs is named by the inputs. */
  lemma NamedByPrefix(inputs: seq<Input>, u: string)
    requires |inputs| > 0 && NamedBy(inputs[..|inputs| - 1], u)
    ensures NamedBy(inputs, u)
  {
    var prefix := inputs[..|inputs| - 1];
    var j :| 0 <= j < |prefix| && UrlOf(prefix[j]) == Some(u);
    assert inputs[j] == prefix[j];
  }

  /** `u` is a key of the final cache, and when it was not cached at the
      start the network served it and it is in the fetch log. */
  ghost predicate UrlSettled(b: Batch, cache: Cache, fetch: Fetcher, u: string) {
    u in b.cache && (u !in cache ==> fetch(u).Some? && u in b.fetched)
  }

  /** After a successful load every input's normalised URL is cached; one
      that was not cached at the start was served by the network and is in
      the fetch log. */
  lemma {:induction false} SuccessCachesEveryUrl(inputs: seq<Input>, cache: Cache, fetch: Fetcher, render: Renderer, j: nat)
    requires Run(inputs, cache, fetch, render).outcome.Success?
    requires j < |inputs| && UrlOf(inputs[j]).Some?
    ensures UrlSettled(Run(inputs, cache, fetch, render), cache, fetch, UrlOf(inputs[j]).value)
    decreases |inputs|
  {
    var n := |inputs|;
    PrefixSucceeds(inputs, cache, fetch, render);
    if j < n - 1 {
      SuccessCachesEveryUrl(inputs[..n - 1], cache, fetch, render, j);
      PrefixUrlStaysCached(inputs, cache, fetch, render, j);
    } else {
      assert j == n - 1;
      LastUrlCached(inputs, cache, fetch, render);
    }
  }

  lemma PrefixSucceeds(inputs: seq<Input>, cache: Cache, fetch: Fetcher, render: Renderer)
    requires |inputs| > 0 && Run(inputs, cache, fetch, render).outcome.Success?
    ensures Run(inputs[..|inputs| - 1], cache, fetch, render).outcome.Success?
  {
    RunLastSuccess(inputs, cache, fetch, render);
  }

  /** The prefix case of `SuccessCachesEveryUrl`. */
  lemma PrefixUrlStaysCached(inputs: seq<Input>, cache: Cache, fetch: Fetcher, render: Renderer, j: nat)
    requires Run(inputs, cache, fetch, render).outcome.Success?
    requires j < |inputs| - 1 && UrlOf(inputs[j]).Some?
    requires UrlSettled(Run(inputs[..|inputs| - 1], cache, fetch, render), cache, fetch,
                        UrlOf(inputs[..|inputs| - 1][j]).value)
    ensures UrlSettled(Run(inputs, cache, fetch, render), cache, fetch, UrlOf(inputs[j]).value)
  {
    var n := |inputs|;
    var b0 := Run(inputs[..n - 1], cache, fetch, render);
    var st := ResolveInput(inputs[n - 1], b0.cache, fetch, render);
    assert inputs[..n - 1][j] == inputs[j];
    RunLastSuccess(inputs, cache, fetch, render);
    KeptAfterStep(cache, b0, st, fetch, UrlOf(inputs[j]).value);
  }

  /** The last-input case of `SuccessCachesEveryUrl`. */
  lemma LastUrlCached(inputs: seq<Input>, cache: Cache, fetch: Fetcher, render: Renderer)
    requires Run(inputs, cache, fetch, render).outcome.Success?
    requires |inputs| > 0 && UrlOf(inputs[|inputs| - 1]).Some?
    ensures UrlSettled(Run(inputs, cache, fetch, render), cache, fetch, UrlOf(inputs[|inputs| - 1]).value)
  {
    var n := |inputs|;
    var b0 := Run(inputs[..n - 1], cache, fetch, render);
    var st := ResolveInput(inputs[n - 1], b0.cache, fetch, render);
    RunLastSuccess(inputs, cache, fetch, render);
    CachedByLastStep(cache, b0, st, fetch, UrlOf(inputs[n - 1]).value);
  }

  /** A URL the partial load cached (and logged, when it was new) stays so
      after one more successful step. */
  lemma KeptAfterStep(cache: Cache, b0: Batch, st: Step, fetch: Fetcher, u: string)
    requires StepDisciplined(b0.cache, st, fetch) && st.outcome.Success?
    requires u in b0.cache && (u !in cache ==> fetch(u).Some? && u in b0.fetched)
    ensures u in st.cache && (u !in cache ==> fetch(u).Some? && u in b0.fetched + st.fetched)
  {
    StepExtends(b0.cache, st, fetch);
  }

  /** The URL of the step just taken is cached, and logged when it was new. */
  lemma CachedByLastStep(cache: Cache, b0: Batch, st: Step, fetch: Fetcher, u: string)
    requires Disciplined(cache, b0, fetch) && b0.outcome.Success?
    requires StepDisciplined(b0.cache, st, fetch) && st.outcome.Success?
    requires u in st.cache && st.fetched == (if u !in b0.cache then [u] else [])
    ensures u !in cache ==> fetch(u).Some? && u in b0.fetched + st.fetched
  {
    if u !in cache {
      if u in b0.cache {
        assert fetch(u) == Some(b0.cache[u]);
        var i :| 0 <= i < |b0.fetched| && b0.fetched[i] == u;
        assert (b0.fetched + st.fetched)[i] == u;
      } else {
        assert (b0.fetched + st.fetched)[|b0.fetched|] == u;
      }
    }
  }

  /** Input `j` names a URL that was not cached and that the network
      rejects. */
  ghost predicate RejectedAt(inputs: seq<Input>, cache: Cache, fetch: Fetcher, j: int) {
    && 0 <= j < |inputs|
    && UrlOf(inputs[j]).Some?
    && UrlOf(inputs[j]).value !in cache
    && fetch(UrlOf(inputs[j]).value).None?
  }

  ghost predicate SomeUrlRejected(inputs: seq<Input>, cache: Cache, fetch: Fetcher) {
    exists j :: RejectedAt(inputs, cache, fetch, j)
  }

  /** A load fails exactly when some input, at any position, names an
      uncached URL whose fetch rejects. */
  lemma FailsIffSomeUrlRejected(inputs: seq<Input>, cache: Cache, fetch: Fetcher, render: Renderer)
    ensures Run(inputs, cache, fetch, render).outcome.Failure? <==> SomeUrlRejected(inputs, cache, fetch)
  {
    if Run(inputs, cache, fetch, render).outcome.Failure? {
      FailureNamesRejectedUrl(inputs, cache, fetch, render);
    } else {
      forall j | 0 <= j < |inputs|
        ensures !RejectedAt(inputs, cache, fetch, j)
      {
        SuccessRejectsNothing(inputs, cache, fetch, render, j);
      }
    }
  }

  /** A failed load ended at a rejected fetch of an input's uncached URL. */
  lemma FailureNamesRejectedUrl(inputs: seq<Input>, cache: Cache, fetch: Fetcher, render: Renderer)
    requires Run(inputs, cache, fetch, render).outcome.Failure?
    ensures SomeUrlRejected(inputs, cache, fetch)
  {
    var b := Run(inputs, cache, fetch, render);
    var k := |b.fetched| - 1;
    var u := b.fetched[k];
    LastFetchRejected(cache, b, fetch);
    FetchedComeFromInputs(inputs, cache, fetch, render, k);
    var j :| 0 <= j < |inputs| && UrlOf(inputs[j]) == Some(u);
    assert RejectedAt(inputs, cache, fetch, j);
  }

  lemma LastFetchRejected(cache: Cache, b: Batch, fetch: Fetcher)
    requires Disciplined(cache, b, fetch) && b.outcome.Failure?
    ensures |b.fetched| >= 1
    ensures b.fetched[|b.fetched| - 1] !in cache && fetch(b.fetched[|b.fetched| - 1]).None?
  {
  }

  /** After a successful load no input names an uncached, rejected URL. */
  lemma SuccessRejectsNothing(inputs: seq<Input>, cache: Cache, fetch: Fetcher, render: Renderer, j: nat)
    requires Run(inputs, cache, fetch, render).outcome.Success? && j < |inputs|
    ensures !RejectedAt(inputs, cache, fetch, j)
  {
    if UrlOf(inputs[j]).Some? {
      SuccessCachesEveryUrl(inputs, cache, fetch, render, j);
    }
  }

  /** Input `j` is the first that names an uncached URL the network
      rejects. */
  ghost predicate FirstRejectedAt(inputs: seq<Input>, cache: Cache, fetch: Fetcher, j: int) {
    RejectedAt(inputs, cache, fetch, j) && forall i :: 0 <= i < j ==> !RejectedAt(inputs, cache, fetch, i)
  }

  /** A load fails at its first rejected input, in input order, naming that
      input's URL. The cache it leaves holds the starting entries and the URLs
      of the inputs before it; the fetch log holds the uncached URLs of those
      inputs and ends with the rejected one. */
  lemma FailsAtFirstRejected(inputs: seq<Input>, cache: Cache, fetch: Fetcher, render: Renderer, j: nat)
    requires FirstRejectedAt(inputs, cache, fetch, j)
    ensures Run(inputs, cache, fetch, render).outcome == Failure(FetchRejected(UrlOf(inputs[j]).value))
    ensures forall u :: u in Run(inputs, cache, fetch, render).cache <==> u in cache || NamedBy(inputs[..j], u)
    ensures forall u :: u in Run(inputs, cache, fetch, render).fetched <==>
              u == UrlOf(inputs[j]).value || (NamedBy(inputs[..j], u) && u !in cache)
  {
    var prefix := inputs[..j];
    PrefixBeforeFirstRejectedSucceeds(inputs, cache, fetch, render, j);
    var b := Run(prefix, cache, fetch, render);
    RejectedStep(inputs[j], cache, b, fetch, render);
    LoopStep(inputs, j, cache, fetch, render, b.outcome.value, b.cache, b.fetched);
    LoopReject(inputs, j, cache, fetch, render);
    forall u | true
      ensures u in b.cache <==> u in cache || NamedBy(prefix, u)
      ensures u in b.fetched <==> NamedBy(prefix, u) && u !in cache
    {
      SuccessKeys(prefix, cache, fetch, render, u);
    }
  }

  /** `FailsAtFirstRejected` for whichever input is the first rejected one. */
  lemma FailsAtEveryFirstRejected(inputs: seq<Input>, cache: Cache, fetch: Fetcher, render: Renderer)
    ensures forall j :: FirstRejectedAt(inputs, cache, fetch, j) ==>
              && Run(inputs, cache, fetch, render).outcome == Failure(FetchRejected(UrlOf(inputs[j]).value))
              && forall u :: u in Run(inputs, cache, fetch, render).cache <==> u in cache || NamedBy(inputs[..j], u)
  {
    forall j | FirstRejectedAt(inputs, cache, fetch, j)
      ensures Run(inputs, cache, fetch, render).outcome == Failure(FetchRejected(UrlOf(inputs[j]).value))
      ensures forall u :: u in Run(inputs, cache, fetch, render).cache <==> u in cache || NamedBy(inputs[..j], u)
    {
      FailsAtFirstRejected(inputs, cache, fetch, render, j);
    }
  }

  /** The inputs before the first rejected one load successfully. */
  lemma PrefixBeforeFirstRejectedSucceeds(inputs: seq<Input>, cache: Cache, fetch: Fetcher, render: Renderer, j: nat)
    requires j <= |inputs| && forall i :: 0 <= i < j ==> !RejectedAt(inputs, cache, fetch, i)
    ensures Run(inputs[..j], cache, fetch, render).outcome.Success?
  {
    NoneRejectedBefore(inputs, cache, fetch, j);
    FailsIffSomeUrlRejected(inputs[..j], cache, fetch, render);
  }

  lemma NoneRejectedBefore(inputs: seq<Input>, cache: Cache, fetch: Fetcher, j: nat)
    requires j <= |inputs| && forall i :: 0 <= i < j ==> !RejectedAt(inputs, cache, fetch, i)
    ensures !SomeUrlRejected(inputs[..j], cache, fetch)
  {
    var prefix := inputs[..j];
    forall i | 0 <= i < j
      ensures !RejectedAt(prefix, cache, fetch, i)
    {
      assert prefix[i] == inputs[i];
      assert !RejectedAt(inputs, cache, fetch, i);
    }
  }

  /** After a successful partial load, an input naming a URL that was not
      cached at the start and that the network rejects is fetched and
      rejected. */
  lemma RejectedStep(input: Input, cache: Cache, b: Batch, fetch: Fetcher, render: Renderer)
    requires Disciplined(cache, b, fetch) && b.outcome.Success?
    requires UrlOf(input).Some? && UrlOf(input).value !in cache && fetch(UrlOf(input).value).None?
    ensures ResolveInput(input, b.cache, fetch, render)
            == Step(Failure(FetchRejected(UrlOf(input).value)), b.cache, [UrlOf(input).value])
  {
  }

  /** After a successful load the cache keys are the starting keys and the
      inputs' URLs. */
  lemma SuccessKeys(inputs: seq<Input>, cache: Cache, fetch: Fetcher, render: Renderer, u: string)
    requires Run(inputs, cache, fetch, render).outcome.Success?
    ensures u in Run(inputs, cache, fetch, render).cache <==> u in cache || NamedBy(inputs, u)
    ensures u in Run(inputs, cache, fetch, render).fetched <==> NamedBy(inputs, u) && u !in cache
  {
    SuccessFetchesEveryUncachedUrl(inputs, cache, fetch, render, u);
    if NamedBy(inputs, u) {
      var j :| 0 <= j < |inputs| && UrlOf(inputs[j]) == Some(u);
      SuccessCachesEveryUrl(inputs, cache, fetch, render, j);
    }
  }

  /** After a successful load the fetch log holds exactly the inputs' URLs
      that were not cached at the start, each once. */
  lemma SuccessFetchesEveryUncachedUrl(inputs: seq<Input>, cache: Cache, fetch: Fetcher, render: Renderer, u: string)
    requires Run(inputs, cache, fetch, render).outcome.Success?
    ensures u in Run(inputs, cache, fetch, render).fetched <==> NamedBy(inputs, u) && u !in cache
    ensures NoDuplicates(Run(inputs, cache, fetch, render).fetched)
  {
    var b := Run(inputs, cache, fetch, render);
    if u in b.fetched {
      var k :| 0 <= k < |b.fetched| && b.fetched[k] == u;
      FetchedComeFromInputs(inputs, cache, fetch, render, k);
    }
    if NamedBy(inputs, u) && u !in cache {
      var j :| 0 <= j < |inputs| && UrlOf(inputs[j]) == Some(u);
      SuccessCachesEveryUrl(inputs, cache, fetch, render, j);
    }
  }

  /** A URL fetched by `Run` was fetched by the run of the prefix, at the
      same place, or it is the URL of the last input. */
  lemma FetchedByPrefixOrLast(inputs: seq<Input>, cache: Cache, fetch: Fetcher, render: Renderer, k: nat)
    requires k < |Run(inputs, cache, fetch, render).fetched|
    ensures |inputs| > 0
    ensures var b := Run(inputs[..|inputs| - 1], cache, fetch, render);
            var u := Run(inputs, cache, fetch, render).fetched[k];
            (k < |b.fetched| && u == b.fetched[k]) || NamedBy(inputs, u)
  {
    var n := |inputs|;
    var b := Run(inputs[..n - 1], cache, fetch, render);
    RunLast(inputs, cache, fetch, render);
    var u := Run(inputs, cache, fetch, render).fetched[k];
    if k >= |b.fetched| {
      assert UrlOf(inputs[n - 1]) == Some(u);
    }
  }

  /** Two inputs naming the same normalised URL cause one fetch at most: none
      when the URL is cached, one otherwise. */
  lemma AliasesFetchOnce(a: Input, b: Input, cache: Cache, fetch: Fetcher, render: Renderer, url: string)
    requires UrlOf(a) == Some(url) && UrlOf(b) == Some(url)
    ensures Run([a, b], cache, fetch, render).fetched == if url in cache then [] else [url]
  {
    assert [a, b][..1] == [a];
    RunOne(a, cache, fetch, render);
    RunLast([a, b], cache, fetch, render);
  }

  /** A successful step only adds to the cache. */
  lemma StepExtends(cache: Cache, st: Step, fetch: Fetcher)
    requires StepDisciplined(cache, st, fetch) && st.outcome.Success?
    ensures Extends(st.cache, cache)
  {
  }

  /** An input resolved successfully once is a pure cache hit against any
      cache that extends the one it left. */
  lemma ResolveHit(input: Input, cache: Cache, fetch: Fetcher, render: Renderer, later: Cache, fetch2: Fetcher)
    requires ResolveInput(input, cache, fetch, render).outcome.Success?
    requires Extends(later, ResolveInput(input, cache, fetch, render).cache)
    ensures ResolveInput(input, later, fetch2, render) == Step(ResolveInput(input, cache, fetch, render).outcome, later, [])
  {
    var st := ResolveInput(input, cache, fetch, render);
    assert TextOf(input, later) == TextOf(input, st.cache);
  }

  /** Loading again with the cache a successful load left behind (or any
      cache that extends it) fetches nothing, changes nothing and yields the
      same records, whatever the network now serves. */
  lemma {:induction false} ReloadHitsCache(inputs: seq<Input>, cache: Cache, fetch: Fetcher, render: Renderer,
                                           cache2: Cache, fetch2: Fetcher)
    requires Run(inputs, cache, fetch, render).outcome.Success?
    requires Extends(cache2, Run(inputs, cache, fetch, render).cache)
    ensures Run(inputs, cache2, fetch2, render) == Batch(Run(inputs, cache, fetch, render).outcome, cache2, [])
    decreases |inputs|
  {
    if |inputs| > 0 {
      var prefix := inputs[..|inputs| - 1];
      var last := inputs[|inputs| - 1];
      var b := Run(prefix, cache, fetch, render);
      var st := ResolveInput(last, b.cache, fetch, render);
      RunLastSuccess(inputs, cache, fetch, render);
      StepExtends(b.cache, st, fetch);
      ExtendsTrans(cache2, st.cache, b.cache);
      ReloadHitsCache(prefix, cache, fetch, render, cache2, fetch2);
      ResolveHit(last, b.cache, fetch, render, cache2, fetch2);
      ReloadLast(inputs, render, cache2, fetch2, b.outcome.value, st.outcome.value);
    }
  }

  /** The last step of a reload that hits the cache throughout. */
  lemma ReloadLast(inputs: seq<Input>, render: Renderer, cache2: Cache, fetch2: Fetcher,
                   contents: seq<Content>, c: Content)
    requires |inputs| > 0
    requires Run(inputs[..|inputs| - 1], cache2, fetch2, render) == Batch(Success(contents), cache2, [])
    requires ResolveInput(inputs[|inputs| - 1], cache2, fetch2, render) == Step(Success(c), cache2, [])
    ensures Run(inputs, cache2, fetch2, render) == Batch(Success(contents + [c]), cache2, [])
  {
    RunLast(inputs, cache2, fetch2, render);
    var none: seq<string> := [];
    assert none + none == none;
  }

  lemma ExtendsTrans(a: Cache, b: Cache, c: Cache)
    requires Extends(a, b) && Extends(b, c)
    ensures Extends(a, c)
  {
  }

  /** A single inline input is shown as it is: no fetch, no cache change, no
      title, no URL. */
  lemma InlineTextIsShownAsIs(text: string, cache: Cache, fetch: Fetcher)
    requires text == "line1\nline2\nline3"
    ensures Run([Input(text, None, None, None, Absent)], cache, fetch, Render(NoPrism))
         == Batch(Success([Content(None, text, None)]), cache, [])
  {
    var input := Input(text, None, None, None, Absent);
    assert text[0] != SourceUrl.Scheme[0];
    assert UrlOf(input) == None;
    WholeTextSegment(text);
    RunOne(input, cache, fetch, Render(NoPrism));
  }

  lemma WholeTextSegment(text: string)
    requires text == "line1\nline2\nline3"
    ensures Segment(text, None, None) == text
  {
    assert text == "line1\nline2" + ['\n'] + "line3";
    AfterLastOf("line1\nline2", "line3", '\n');
    assert !IsBlank("line3") by {
      assert !IsJsWhitespace("line3"[0]);
    }
    SegmentWhole(text);
  }

  /** One more iteration of the loop of `load`, in terms of `Run`. */
  lemma LoopStep(inputs: seq<Input>, i: nat, cache: Cache, fetch: Fetcher, render: Renderer,
                 contents: seq<Content>, current: Cache, fetched: seq<string>)
    requires i < |inputs|
    requires Run(inputs[..i], cache, fetch, render) == Batch(Success(contents), current, fetched)
    ensures var st := ResolveInput(inputs[i], current, fetch, render);
            Run(inputs[..i + 1], cache, fetch, render)
            == Batch(if st.outcome.Failure? then Failure(st.outcome.error) else Success(contents + [st.outcome.value]),
                     st.cache, fetched + st.fetched)
  {
    TakeTake(inputs, i, i + 1);
    RunLast(inputs[..i + 1], cache, fetch, render);
  }

  lemma TakeDrop<T>(s: seq<T>, k: nat)
    requires k <= |s|
    ensures s[..k] + s[k..] == s
  {
  }

  lemma TakeAll<T>(s: seq<T>)
    ensures s[..|s|] == s
  {
  }

  lemma TakeTake<T>(s: seq<T>, j: nat, k: nat)
    requires j <= k <= |s|
    ensures s[..k][..j] == s[..j]
  {
  }

  /** Resolving inline text. */
  lemma ResolveInline(input: Input, cache: Cache, fetch: Fetcher, render: Renderer)
    requires !SourceUrl.IsUrlSource(input.source)
    ensures ResolveInput(input, cache, fetch, render) == Step(Success(render(input.source, input, None)), cache, [])
  {
  }

  /** Resolving a URL source, on a cache hit and on a miss. */
  lemma ResolveUrl(input: Input, cache: Cache, fetch: Fetcher, render: Renderer, url: string)
    requires SourceUrl.IsUrlSource(input.source) && url == SourceUrl.Normalise(input.source)
    ensures url in cache ==>
              ResolveInput(input, cache, fetch, render) == Step(Success(render(cache[url], input, Some(url))), cache, [])
    ensures url !in cache && fetch(url).None? ==>
              ResolveInput(input, cache, fetch, render) == Step(Failure(FetchRejected(url)), cache, [url])
    ensures url !in cache && fetch(url).Some? ==>
              ResolveInput(input, cache, fetch, render)
              == Step(Success(render(fetch(url).value, input, Some(url))), cache[url := fetch(url).value], [url])
  {
  }

  /** A rejection part-way through is the rejection of the whole load. */
  lemma LoopReject(inputs: seq<Input>, i: nat, cache: Cache, fetch: Fetcher, render: Renderer)
    requires i < |inputs| && Run(inputs[..i + 1], cache, fetch, render).outcome.Failure?
    ensures Run(inputs, cache, fetch, render) == Run(inputs[..i + 1], cache, fetch, render)
  {
    TakeDrop(inputs, i + 1);
    FailureIsFinal(inputs[..i + 1], inputs[i + 1..], cache, fetch, render);
  }

  /** What a successful load hands back, by the shape of its argument. */
  lemma LoadShape(inputs: Inputs, cache: Cache, fetch: Fetcher, render: Renderer)
    requires Run(AsList(inputs), cache, fetch, render).outcome.Success?
    ensures var contents := Run(AsList(inputs), cache, fetch, render).outcome.value;
            && (inputs.One? ==> |contents| == 1 && contents[0] == Expected(inputs.input, cache, fetch, render))
            && (inputs.Many? ==> contents == ExpectedAll(inputs.inputs, cache, fetch, render))
  {
    RunMatchesReference(AsList(inputs), cache, fetch, render);
  }

  /** The loop of `load`, as written there: the inputs in order, stopping at
      the first rejected fetch. */
  method LoadAll(inputs: seq<Input>, cache: Cache, fetch: Fetcher, render: Renderer) returns (b: Batch)
    ensures b == Run(inputs, cache, fetch, render)
  {
    assert inputs[..0] == [];
    var contents: seq<Content> := [];
    var current := cache;
    var fetched: seq<string> := [];
    var i := 0;
    while i < |inputs|
      invariant 0 <= i <= |inputs|
      invariant Run(inputs[..i], cache, fetch, render) == Batch(Success(contents), current, fetched)
    {
      var st := ResolveInput(inputs[i], current, fetch, render);
      LoopStep(inputs, i, cache, fetch, render, contents, current, fetched);
      current := st.cache;
      fetched := fetched + st.fetched;
      if st.outcome.Failure? {
        LoopReject(inputs, i, cache, fetch, render);
        return Batch(Failure(st.outcome.error), current, fetched);
      }
      contents := contents + [st.outcome.value];
      i := i + 1;
    }
    TakeAll(inputs);
    b := Batch(Success(contents), current, fetched);
  }

  /** `load()`: the inputs as an array, each resolved in turn through the
      cache; the first rejected fetch rejects the whole load with the cache
      entries stored so far. One input yields one record, an array of inputs
      an array of records, each the record its input stands for. */
  method Load(snippet: Snippet, cache: Cache, fetch: Fetcher, hl: Highlighter)
    returns (out: Result<Output>, cacheOut: Cache, fetched: seq<string>)
    ensures var b := Run(AsList(snippet.inputs), cache, fetch, Render(hl));
            && cacheOut == b.cache && fetched == b.fetched
            && (out.Failure? <==> b.outcome.Failure?)
            && (out.Failure? ==> out.error == b.outcome.error)
    ensures out.Success? && snippet.inputs.One? ==>
              var input := snippet.inputs.input;
              out.value == Single(ToSnippetContent(ReferenceText(input, cache, fetch), input, UrlOf(input), hl))
    ensures out.Success? && snippet.inputs.Many? ==>
              out.value == List(ExpectedAll(snippet.inputs.inputs, cache, fetch, Render(hl)))
    ensures out.Failure? <==> SomeUrlRejected(AsList(snippet.inputs), cache, fetch)
    ensures out.Success? ==>
              forall u :: u in fetched <==> NamedBy(AsList(snippet.inputs), u) && u !in cache
    ensures forall j :: FirstRejectedAt(AsList(snippet.inputs), cache, fetch, j) ==>
              && out == Failure(FetchRejected(UrlOf(AsList(snippet.inputs)[j]).value))
              && forall u :: u in cacheOut <==> u in cache || NamedBy(AsList(snippet.inputs)[..j], u)
  {
    FailsIffSomeUrlRejected(AsList(snippet.inputs), cache, fetch, Render(hl));
    FailsAtEveryFirstRejected(AsList(snippet.inputs), cache, fetch, Render(hl));
    var b := LoadAll(AsList(snippet.inputs), cache, fetch, Render(hl));
    cacheOut := b.cache;
    fetched := b.fetched;
    match b.outcome
    case Failure(e) =>
      out := Failure(e);
    case Success(contents) =>
      LoadShape(snippet.inputs, cache, fetch, Render(hl));
      forall u | true
        ensures u in fetched <==> NamedBy(AsList(snippet.inputs), u) && u !in cache
      {
        SuccessFetchesEveryUncachedUrl(AsList(snippet.inputs), cache, fetch, Render(hl), u);
      }
      match snippet.inputs
      case One(_) =>
        out := Success(Single(contents[0]));
      case Many(_) =>
        out := Success(List(contents));
  }
}
