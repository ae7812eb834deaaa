/** Following HTTPS redirects (src/application/network.rs). */
module Redirect {
  import opened Outcomes

  type Url = string

  const MaxRedirects := 10

  const RedirectStatuses := {301, 302, 303, 307, 308}

  /** What the URL library and the trusted-host profile say; the run assumes nothing about them. */
  datatype Web = Web(
    parse: string -> Option<Url>,
    join: (Url, string) -> Option<Url>,
    reparses: Url -> bool,
    permitted: Url -> bool,
    canonical: Url -> string,
    origin: Url -> Option<string>,
    host: Url -> Option<string>,
    port: Url -> Option<nat>)

  /** What resolution and transport answer to the hop with this number; any answer is possible. */
  datatype Hop = Hop(pinned: Option<string>, response: Option<Response>)

  datatype Response = Response(status: nat, bodyLength: nat, location: Option<string>)

  datatype FetchError =
    | InvalidHeaders
    | InvalidUrl
    | Untrusted
    | NoHost
    | NoPort
    | NoOrigin
    | Unresolved
    | TransportFailed
    | TooLarge
    | NoLocation
    | TooManyRedirects
    | InvalidRedirect
    | Loop
    | BadStatus(status: nat)

  predicate Trusted(web: Web, url: Url) { web.reparses(url) && web.permitted(url) }

  // ----- the redirect state -----

  datatype RedirectState = RedirectState(url: Url, credentials: bool, visited: set<string>, redirects: nat)

  function NewState(web: Web, text: string, credentials: bool): Result<RedirectState, FetchError> {
    match web.parse(text)
    case None => Err(InvalidUrl)
    case Some(url) =>
      if !web.reparses(url) then Err(InvalidUrl)
      else if !web.permitted(url) then Err(Untrusted)
      else Ok(RedirectState(url, credentials, {web.canonical(url)}, 0))
  }

  function NextState(web: Web, state: RedirectState, location: string): Result<RedirectState, FetchError> {
    if state.redirects >= MaxRedirects then Err(TooManyRedirects)
    else
      match web.join(state.url, location)
      case None => Err(InvalidRedirect)
      case Some(candidate) =>
        if !web.reparses(candidate) then Err(InvalidUrl)
        else if !web.permitted(candidate) then Err(Untrusted)
        else if web.canonical(candidate) in state.visited then Err(Loop)
        else if web.origin(candidate).None? || web.origin(state.url).None? then Err(NoOrigin)
        else
          var sameOrigin := web.origin(candidate) == web.origin(state.url);
          Ok(RedirectState(
            candidate,
            state.credentials && sameOrigin,
            state.visited + {web.canonical(candidate)},
            state.redirects + 1))
  }

  // ----- a run -----

  /** One transport call: where it goes and what it carries. */
  datatype Call = Call(url: Url, credential: bool, headers: bool)

  predicate SameOriginSoFar(web: Web, calls: seq<Call>, k: nat)
    requires k < |calls|
  {
    forall j :: 0 <= j <= k ==> web.origin(calls[j].url) == web.origin(calls[0].url)
  }

  predicate IsRedirect(hop: Hop, maxBody: nat) {
    hop.pinned.Some? && hop.response.Some? && hop.response.value.status in RedirectStatuses
    && hop.response.value.bodyLength <= maxBody && hop.response.value.location.Some?
  }

  predicate IsSuccess(hop: Hop, maxBody: nat) {
    hop.pinned.Some? && hop.response.Some? && 200 <= hop.response.value.status <= 299
    && hop.response.value.bodyLength <= maxBody
  }

  predicate Follows(web: Web, replies: nat -> Hop, maxBody: nat, calls: seq<Call>, k: nat)
    requires k + 1 < |calls|
  {
    IsRedirect(replies(k), maxBody)
    && web.join(calls[k].url, replies(k).response.value.location.value) == Some(calls[k + 1].url)
  }

  /** The calls are trusted, pairwise different, and each follows the redirect of the call before. */
  ghost predicate SafeCalls(web: Web, replies: nat -> Hop, maxBody: nat, calls: seq<Call>) {
    && |calls| <= MaxRedirects + 1
    && (forall k :: 0 <= k < |calls| ==> Trusted(web, calls[k].url))
    && (forall j, k :: 0 <= j < k < |calls| ==> web.canonical(calls[j].url) != web.canonical(calls[k].url))
    && (forall k :: 0 <= k < |calls| - 1 ==> Follows(web, replies, maxBody, calls, k))
  }

  /** The credential and the extra headers go along exactly while no hop has left the first origin. */
  ghost predicate SecretsKept(web: Web, credential: bool, calls: seq<Call>) {
    forall k :: 0 <= k < |calls| ==>
      && (calls[k].credential <==> credential && SameOriginSoFar(web, calls, k))
      && (calls[k].headers <==> SameOriginSoFar(web, calls, k))
  }

  /** Once a call has gone without the credential or the headers, no later call carries them. */
  ghost predicate NeverRestored(calls: seq<Call>) {
    forall j, k :: 0 <= j <= k < |calls| ==>
      (calls[k].credential ==> calls[j].credential) && (calls[k].headers ==> calls[j].headers)
  }

  lemma DroppedForGood(web: Web, credential: bool, calls: seq<Call>)
    requires SecretsKept(web, credential, calls)
    ensures NeverRestored(calls)
  {
    forall j, k | 0 <= j <= k < |calls| && SameOriginSoFar(web, calls, k) ensures SameOriginSoFar(web, calls, j) {}
  }

  lemma SameOriginStep(web: Web, calls: seq<Call>, call: Call)
    requires calls != []
    ensures var longer := calls + [call];
      && (forall k :: 0 <= k < |calls| ==> (SameOriginSoFar(web, longer, k) <==> SameOriginSoFar(web, calls, k)))
      && (SameOriginSoFar(web, longer, |calls|) <==>
        SameOriginSoFar(web, calls, |calls| - 1) && web.origin(call.url) == web.origin(calls[|calls| - 1].url))
  {
    var longer := calls + [call];
    assert longer[|calls| - 1] == calls[|calls| - 1] && longer[0] == calls[0] && longer[|calls|] == call;
    forall k | 0 <= k < |calls| ensures SameOriginSoFar(web, longer, k) <==> SameOriginSoFar(web, calls, k) {
      assert forall j :: 0 <= j <= k ==> longer[j] == calls[j];
    }
    if SameOriginSoFar(web, longer, |calls|) {
      assert SameOriginSoFar(web, longer, |calls| - 1);
    }
  }

  ghost predicate Seen(web: Web, calls: seq<Call>, canonical: string) {
    exists k :: 0 <= k < |calls| && web.canonical(calls[k].url) == canonical
  }

  /** Everything a run has done so far, before the call for the current state. */
  ghost predicate Progress(
    web: Web, replies: nat -> Hop, maxBody: nat, credential: bool,
    state: RedirectState, forward: bool, calls: seq<Call>)
  {
    && Trusted(web, state.url)
    && |calls| == state.redirects <= MaxRedirects
    && SafeCalls(web, replies, maxBody, calls + [Call(state.url, state.credentials, forward)])
    && SecretsKept(web, credential, calls + [Call(state.url, state.credentials, forward)])
    && forall x :: x in state.visited <==> Seen(web, calls + [Call(state.url, state.credentials, forward)], x)
  }

  lemma Nothing(web: Web, replies: nat -> Hop, maxBody: nat, credential: bool)
    ensures SafeCalls(web, replies, maxBody, []) && SecretsKept(web, credential, [])
  {}

  lemma Start(web: Web, replies: nat -> Hop, maxBody: nat, text: string, credential: bool)
    requires NewState(web, text, credential).Ok?
    ensures Progress(web, replies, maxBody, credential, NewState(web, text, credential).value, true, [])
  {
    var state := NewState(web, text, credential).value;
    var first := Call(state.url, credential, true);
    assert [] + [first] == [first];
    FirstCall(web, replies, maxBody, credential, first);
    hide SafeCalls, SecretsKept, Seen;
  }

  lemma FirstCall(web: Web, replies: nat -> Hop, maxBody: nat, credential: bool, call: Call)
    requires Trusted(web, call.url) && call.credential == credential && call.headers
    ensures SafeCalls(web, replies, maxBody, [call]) && SecretsKept(web, credential, [call])
    ensures forall x :: Seen(web, [call], x) <==> x == web.canonical(call.url)
  {
    assert [call][0] == call;
  }

  lemma SafeStep(web: Web, replies: nat -> Hop, maxBody: nat, made: seq<Call>, upcoming: Call)
    requires made != [] && |made| <= MaxRedirects && SafeCalls(web, replies, maxBody, made)
    requires Trusted(web, upcoming.url) && !Seen(web, made, web.canonical(upcoming.url))
    requires Follows(web, replies, maxBody, made + [upcoming], |made| - 1)
    ensures SafeCalls(web, replies, maxBody, made + [upcoming])
  {
    var all := made + [upcoming];
    assert forall k :: 0 <= k < |made| ==> all[k] == made[k];
    forall k | 0 <= k < |all| - 1 ensures Follows(web, replies, maxBody, all, k) {
      if k < |made| - 1 { assert Follows(web, replies, maxBody, made, k); }
    }
  }

  lemma SecretsStep(web: Web, credential: bool, made: seq<Call>, upcoming: Call)
    requires made != [] && SecretsKept(web, credential, made)
    requires var last := made[|made| - 1]; var same := web.origin(upcoming.url) == web.origin(last.url);
      upcoming.credential == (last.credential && same) && upcoming.headers == (last.headers && same)
    ensures SecretsKept(web, credential, made + [upcoming])
  {
    hide SameOriginSoFar;
    var all := made + [upcoming];
    assert forall k :: 0 <= k < |made| ==> all[k] == made[k];
    SameOriginStep(web, made, upcoming);
  }

  lemma SeenStep(web: Web, made: seq<Call>, upcoming: Call, x: string)
    ensures Seen(web, made + [upcoming], x) <==> Seen(web, made, x) || x == web.canonical(upcoming.url)
  {
    var all := made + [upcoming];
    if Seen(web, made, x) {
      var k :| 0 <= k < |made| && web.canonical(made[k].url) == x;
      assert web.canonical(all[k].url) == x;
    }
    if x == web.canonical(upcoming.url) { assert web.canonical(all[|made|].url) == x; }
    if k :| 0 <= k < |made| && web.canonical(all[k].url) == x { assert web.canonical(made[k].url) == x; }
  }

  lemma Follow(
    web: Web, replies: nat -> Hop, maxBody: nat, credential: bool, state: RedirectState, forward: bool,
    calls: seq<Call>, location: string)
    requires Progress(web, replies, maxBody, credential, state, forward, calls)
    requires IsRedirect(replies(|calls|), maxBody) && replies(|calls|).response.value.location == Some(location)
    requires NextState(web, state, location).Ok?
    ensures var next := NextState(web, state, location).value;
      Progress(web, replies, maxBody, credential, next, forward && web.origin(next.url) == web.origin(state.url),
        calls + [Call(state.url, state.credentials, forward)])
  {
    hide SafeCalls, SecretsKept, Seen;
    var next := NextState(web, state, location).value;
    var made := calls + [Call(state.url, state.credentials, forward)];
    var upcoming := Call(next.url, next.credentials, forward && web.origin(next.url) == web.origin(state.url));
    assert made[|made| - 1] == Call(state.url, state.credentials, forward);
    assert (made + [upcoming])[|calls|] == made[|calls|] && (made + [upcoming])[|made|] == upcoming;
    SafeStep(web, replies, maxBody, made, upcoming);
    SecretsStep(web, credential, made, upcoming);
    forall x { SeenStep(web, made, upcoming, x); }
  }

  /** The calls already made are safe when they are together with the next one. */
  lemma MadeSafe(
    web: Web, replies: nat -> Hop, maxBody: nat, credential: bool,
    state: RedirectState, forward: bool, calls: seq<Call>)
    requires Progress(web, replies, maxBody, credential, state, forward, calls)
    ensures state.redirects <= MaxRedirects
    ensures SafeCalls(web, replies, maxBody, calls) && SecretsKept(web, credential, calls)
    ensures var made := calls + [Call(state.url, state.credentials, forward)];
      SafeCalls(web, replies, maxBody, made) && SecretsKept(web, credential, made) && NeverRestored(made)
    ensures NeverRestored(calls)
  {
    hide SameOriginSoFar, NeverRestored;
    var call := Call(state.url, state.credentials, forward);
    var longer := calls + [call];
    assert forall k :: 0 <= k < |calls| ==> longer[k] == calls[k];
    forall k | 0 <= k < |calls| - 1 ensures Follows(web, replies, maxBody, calls, k) {
      assert Follows(web, replies, maxBody, longer, k);
    }
    if calls != [] { SameOriginStep(web, calls, call); }
    DroppedForGood(web, credential, calls);
    DroppedForGood(web, credential, longer);
  }

  type Outcome = (Result<Response, FetchError>, seq<Call>)

  /** The loop from a state on: the result and all calls made, given those made before. */
  function RunFrom(
    web: Web, replies: nat -> Hop, maxBody: nat, state: RedirectState, forward: bool, calls: seq<Call>): Outcome
    requires state.redirects <= MaxRedirects
    decreases MaxRedirects - state.redirects
  {
    if web.host(state.url).None? then (Err(NoHost), calls)
    else if web.port(state.url).None? then (Err(NoPort), calls)
    else
      var hop := replies(|calls|);
      var made := calls + [Call(state.url, state.credentials, forward)];
      if hop.pinned.None? then (Err(Unresolved), calls)
      else if hop.response.None? then (Err(TransportFailed), made)
      else
        var response := hop.response.value;
        if response.bodyLength > maxBody then (Err(TooLarge), made)
        else if response.status in RedirectStatuses then
          if response.location.None? then (Err(NoLocation), made)
          else
            (match NextState(web, state, response.location.value)
             case Err(e) => (Err(e), made)
             case Ok(next) =>
               RunFrom(web, replies, maxBody, next, forward && web.origin(next.url) == web.origin(state.url), made))
        else if 200 <= response.status <= 299 then (Ok(response), made)
        else (Err(BadStatus(response.status)), made)
  }

  function Run(
    web: Web, replies: nat -> Hop, maxBody: nat, text: string, credential: bool, headersValid: bool): Outcome
  {
    if !headersValid then (Err(InvalidHeaders), [])
    else
      match NewState(web, text, credential)
      case Err(e) => (Err(e), [])
      case Ok(state) => RunFrom(web, replies, maxBody, state, true, [])
  }

  /** What a finished run guarantees. */
  ghost predicate Safe(web: Web, replies: nat -> Hop, maxBody: nat, credential: bool, outcome: Outcome) {
    && SafeCalls(web, replies, maxBody, outcome.1)
    && SecretsKept(web, credential, outcome.1)
    && NeverRestored(outcome.1)
    && (outcome.0.Ok? ==> outcome.1 != [] && IsSuccess(replies(|outcome.1| - 1), maxBody))
    && (outcome.0.Ok? ==> replies(|outcome.1| - 1).response == Some(outcome.0.value))
  }

  lemma {:induction false} RunFromSafe(
    web: Web, replies: nat -> Hop, maxBody: nat, credential: bool,
    state: RedirectState, forward: bool, calls: seq<Call>)
    requires Progress(web, replies, maxBody, credential, state, forward, calls)
    ensures state.redirects <= MaxRedirects
    ensures var outcome := RunFrom(web, replies, maxBody, state, forward, calls);
      Safe(web, replies, maxBody, credential, outcome) && calls <= outcome.1
    ensures calls == [] && RunFrom(web, replies, maxBody, state, forward, calls).1 != [] ==>
      RunFrom(web, replies, maxBody, state, forward, calls).1[0].url == state.url
    decreases MaxRedirects - state.redirects
  {
    hide SafeCalls, SecretsKept, NeverRestored;
    MadeSafe(web, replies, maxBody, credential, state, forward, calls);
    var hop := replies(|calls|);
    var made := calls + [Call(state.url, state.credentials, forward)];
    if web.host(state.url).Some? && web.port(state.url).Some? && IsRedirect(hop, maxBody) {
      var location := hop.response.value.location.value;
      var next := NextState(web, state, location);
      if next.Ok? {
        Follow(web, replies, maxBody, credential, state, forward, calls, location);
        RunFromSafe(web, replies, maxBody, credential, next.value,
          forward && web.origin(next.value.url) == web.origin(state.url), made);
      }
    }
  }

  /** Every run, whatever the network answers: at most eleven calls, all trusted, pairwise different and
      each following a redirect; secrets leave with the first change of origin and never return. */
  lemma RunSafe(web: Web, replies: nat -> Hop, maxBody: nat, text: string, credential: bool, headersValid: bool)
    ensures var outcome := Run(web, replies, maxBody, text, credential, headersValid);
      && Safe(web, replies, maxBody, credential, outcome)
      && (outcome.1 != [] ==> web.parse(text) == Some(outcome.1[0].url))
  {
    hide SafeCalls, SecretsKept, RunFrom, Progress;
    Nothing(web, replies, maxBody, credential);
    if headersValid && NewState(web, text, credential).Ok? {
      Start(web, replies, maxBody, text, credential);
      RunFromSafe(web, replies, maxBody, credential, NewState(web, text, credential).value, true, []);
    }
  }

  method GetWithHeaders(
    web: Web, replies: nat -> Hop, maxBody: nat, text: string, credential: bool, headersValid: bool)
    returns (result: Result<Response, FetchError>, calls: seq<Call>)
    ensures (result, calls) == Run(web, replies, maxBody, text, credential, headersValid)
    ensures Safe(web, replies, maxBody, credential, (result, calls))
  {
    RunSafe(web, replies, maxBody, text, credential, headersValid);
    calls := [];
    if !headersValid { return Err(InvalidHeaders), calls; }
    var initial := NewState(web, text, credential);
    if initial.Err? { return Err(initial.error), calls; }
    var state := initial.value;
    var forward := true;
    ghost var outcome := RunFrom(web, replies, maxBody, state, forward, calls);
    hide Safe, NewState;
    while true
      invariant state.redirects <= MaxRedirects
      invariant RunFrom(web, replies, maxBody, state, forward, calls) == outcome
      decreases MaxRedirects - state.redirects
    {
      if web.host(state.url).None? { return Err(NoHost), calls; }
      if web.port(state.url).None? { return Err(NoPort), calls; }
      var hop := replies(|calls|);
      if hop.pinned.None? { return Err(Unresolved), calls; }
      calls := calls + [Call(state.url, state.credentials, forward)];
      if hop.response.None? { return Err(TransportFailed), calls; }
      var response := hop.response.value;
      if response.bodyLength > maxBody { return Err(TooLarge), calls; }
      if response.status in RedirectStatuses {
        if response.location.None? { return Err(NoLocation), calls; }
        var next := NextState(web, state, response.location.value);
        if next.Err? { return Err(next.error), calls; }
        if web.origin(next.value.url) != web.origin(state.url) {
          forward := false;
        }
        state := next.value;
      } else if 200 <= response.status <= 299 {
        return Ok(response), calls;
      } else {
        return Err(BadStatus(response.status)), calls;
      }
    }
  }
}
