/** Which outcome a redirect run has, told by the chain of its hops (src/application/network.rs). */
module RedirectRuns {
  import opened Outcomes
  import opened Redirect

  // ----- one hop -----

  predicate Addressed(web: Web, url: Url) { web.host(url).Some? && web.port(url).Some? }

  predicate Answered(web: Web, hop: Hop, url: Url) { Addressed(web, url) && hop.pinned.Some? && hop.response.Some? }

  predicate Received(web: Web, hop: Hop, url: Url, maxBody: nat) {
    Answered(web, hop, url) && hop.response.value.bodyLength <= maxBody
  }

  predicate Moved(status: nat) {
    status == 301 || status == 302 || status == 303 || status == 307 || status == 308
  }

  predicate Successful(status: nat) { 200 <= status < 300 }

  /** The reply redirects and names a location. */
  predicate Redirects(web: Web, hop: Hop, url: Url, maxBody: nat, location: string) {
    Received(web, hop, url, maxBody) && Moved(hop.response.value.status)
    && hop.response.value.location == Some(location)
  }

  // ----- a chain of hops -----

  ghost predicate DifferentUrls(web: Web, urls: seq<Url>) {
    forall j, k :: 0 <= j < k < |urls| ==> web.canonical(urls[j]) != web.canonical(urls[k])
  }

  /** From one hop to the next, between trusted places of a known origin. */
  predicate Hops(web: Web, hop: Hop, maxBody: nat, from: Url, to: Url) {
    && hop.response.Some? && hop.response.value.location.Some?
    && Redirects(web, hop, from, maxBody, hop.response.value.location.value)
    && web.join(from, hop.response.value.location.value) == Some(to)
    && web.origin(from).Some? && web.origin(to).Some?
  }

  /** At most eleven trusted and different places, the first one requested, each next one from a redirect. */
  ghost predicate Chain(web: Web, replies: nat -> Hop, maxBody: nat, text: string, urls: seq<Url>) {
    && 1 <= |urls| <= 11 && web.parse(text) == Some(urls[0])
    && (forall k :: 0 <= k < |urls| ==> Trusted(web, urls[k]))
    && DifferentUrls(web, urls)
    && (forall k :: 0 <= k < |urls| - 1 ==> Hops(web, replies(k), maxBody, urls[k], urls[k + 1]))
  }

  predicate OneOrigin(web: Web, urls: seq<Url>) {
    forall k :: 0 <= k < |urls| ==> web.origin(urls[k]) == web.origin(urls[0])
  }

  /** The calls to these places: secrets go along while all places so far have one origin. */
  function CallsTo(web: Web, credential: bool, urls: seq<Url>): seq<Call> {
    if urls == [] then []
    else
      CallsTo(web, credential, urls[..|urls| - 1])
      + [Call(urls[|urls| - 1], credential && OneOrigin(web, urls), OneOrigin(web, urls))]
  }

  // ----- how a run ends -----

  /** What is wrong with the place to which the last reply redirects. */
  ghost predicate BadTarget(web: Web, urls: seq<Url>, location: string, error: FetchError)
    requires urls != []
  {
    var target := web.join(urls[|urls| - 1], location);
    if |urls| == 11 then error == TooManyRedirects
    else if target.None? then error == InvalidRedirect
    else if !web.reparses(target.value) then error == InvalidUrl
    else if !web.permitted(target.value) then error == Untrusted
    else if exists k :: 0 <= k < |urls| && web.canonical(urls[k]) == web.canonical(target.value) then error == Loop
    else error == NoOrigin && (web.origin(target.value).None? || web.origin(urls[|urls| - 1]).None?)
  }

  /** The first check that fails on the last place of the chain. */
  ghost predicate FailsAt(web: Web, hop: Hop, maxBody: nat, urls: seq<Url>, error: FetchError)
    requires urls != []
  {
    var url := urls[|urls| - 1];
    match error
    case NoHost => web.host(url).None?
    case NoPort => web.host(url).Some? && web.port(url).None?
    case Unresolved => Addressed(web, url) && hop.pinned.None?
    case TransportFailed => Addressed(web, url) && hop.pinned.Some? && hop.response.None?
    case TooLarge => Answered(web, hop, url) && hop.response.value.bodyLength > maxBody
    case NoLocation =>
      Received(web, hop, url, maxBody) && Moved(hop.response.value.status) && hop.response.value.location.None?
    case BadStatus(status) =>
      && Received(web, hop, url, maxBody) && hop.response.value.status == status
      && !Moved(status) && !Successful(status)
    case _ => exists location :: Redirects(web, hop, url, maxBody, location) && BadTarget(web, urls, location, error)
  }

  /** These failures come before the last place is called. */
  predicate BeforeCall(error: FetchError) { error.NoHost? || error.NoPort? || error.Unresolved? }

  /** A chain ends in success or at the first check that fails. */
  ghost predicate Ends(
    web: Web, replies: nat -> Hop, maxBody: nat, credential: bool, urls: seq<Url>, outcome: Outcome)
    requires urls != []
  {
    var n := |urls| - 1;
    match outcome.0
    case Ok(response) =>
      && Received(web, replies(n), urls[n], maxBody) && replies(n).response == Some(response)
      && Successful(response.status) && outcome.1 == CallsTo(web, credential, urls)
    case Err(error) =>
      && FailsAt(web, replies(n), maxBody, urls, error)
      && outcome.1 == CallsTo(web, credential, if BeforeCall(error) then urls[..n] else urls)
  }

  ghost predicate LeadsTo(
    web: Web, replies: nat -> Hop, maxBody: nat, text: string, credential: bool, urls: seq<Url>, outcome: Outcome)
  {
    Chain(web, replies, maxBody, text, urls) && Ends(web, replies, maxBody, credential, urls, outcome)
  }

  /** The request is refused before the first hop. */
  predicate Refused(web: Web, text: string, headersValid: bool, error: FetchError) {
    match error
    case InvalidHeaders => !headersValid
    case InvalidUrl => headersValid && (web.parse(text).None? || !web.reparses(web.parse(text).value))
    case Untrusted =>
      headersValid && web.parse(text).Some? && web.reparses(web.parse(text).value)
      && !web.permitted(web.parse(text).value)
    case _ => false
  }

  ghost predicate Explained(
    web: Web, replies: nat -> Hop, maxBody: nat, text: string, credential: bool, headersValid: bool, outcome: Outcome)
  {
    || (outcome.0.Err? && Refused(web, text, headersValid, outcome.0.error) && outcome.1 == [])
    || (headersValid && exists urls :: LeadsTo(web, replies, maxBody, text, credential, urls, outcome))
  }

  // ----- a run follows its chain -----

  function StateAt(web: Web, credential: bool, urls: seq<Url>): RedirectState
    requires urls != []
  {
    RedirectState(
      urls[|urls| - 1],
      credential && OneOrigin(web, urls),
      set k | 0 <= k < |urls| :: web.canonical(urls[k]),
      |urls| - 1)
  }

  /** The rest of the run that has come along these places. */
  function RunAt(web: Web, replies: nat -> Hop, maxBody: nat, credential: bool, urls: seq<Url>): Outcome
    requires 1 <= |urls| <= 11
  {
    var calls := CallsTo(web, credential, urls[..|urls| - 1]);
    RunFrom(web, replies, maxBody, StateAt(web, credential, urls), OneOrigin(web, urls), calls)
  }

  lemma {:induction false} CallsLength(web: Web, credential: bool, urls: seq<Url>)
    ensures |CallsTo(web, credential, urls)| == |urls|
  {
    if urls != [] { CallsLength(web, credential, urls[..|urls| - 1]); }
  }

  lemma OriginStep(web: Web, urls: seq<Url>, next: Url)
    requires urls != []
    ensures OneOrigin(web, urls + [next]) <==>
      OneOrigin(web, urls) && web.origin(next) == web.origin(urls[|urls| - 1])
  {
    var longer := urls + [next];
    assert forall k :: 0 <= k < |urls| ==> longer[k] == urls[k];
    assert longer[|urls|] == next;
  }

  lemma NextPlace(web: Web, credential: bool, urls: seq<Url>, location: string, next: Url)
    requires 1 <= |urls| <= 10 && web.join(urls[|urls| - 1], location) == Some(next) && Trusted(web, next)
    requires DifferentUrls(web, urls + [next])
    requires web.origin(urls[|urls| - 1]).Some? && web.origin(next).Some?
    ensures NextState(web, StateAt(web, credential, urls), location) == Ok(StateAt(web, credential, urls + [next]))
  {
    var longer, visited := urls + [next], StateAt(web, credential, urls).visited;
    OriginStep(web, urls, next);
    assert forall k :: 0 <= k < |urls| ==> longer[k] == urls[k];
    assert longer[|urls|] == next;
    assert web.canonical(next) !in visited;
    var grown := StateAt(web, credential, longer).visited;
    forall c ensures c in grown <==> c in visited || c == web.canonical(next) {
      if c in visited {
        var k :| 0 <= k < |urls| && web.canonical(urls[k]) == c;
        assert web.canonical(longer[k]) == c;
      }
      if c == web.canonical(next) { assert web.canonical(longer[|urls|]) == c; }
    }
    assert grown == visited + {web.canonical(next)};
  }

  /** A run that has come to a place from which the chain goes on goes on to the next place. */
  lemma RunOn(web: Web, replies: nat -> Hop, maxBody: nat, text: string, credential: bool, urls: seq<Url>, next: Url)
    requires urls != [] && Chain(web, replies, maxBody, text, urls + [next])
    ensures |urls| <= 10 && Chain(web, replies, maxBody, text, urls)
    ensures RunAt(web, replies, maxBody, credential, urls) == RunAt(web, replies, maxBody, credential, urls + [next])
  {
    var longer, n := urls + [next], |urls| - 1;
    assert forall k :: 0 <= k < |urls| ==> longer[k] == urls[k];
    assert longer[|urls|] == next && longer[..|urls|] == urls;
    assert Hops(web, replies(n), maxBody, longer[n], longer[n + 1]);
    forall k | 0 <= k < n ensures Hops(web, replies(k), maxBody, urls[k], urls[k + 1]) {
      assert Hops(web, replies(k), maxBody, longer[k], longer[k + 1]);
    }
    NextPlace(web, credential, urls, replies(n).response.value.location.value, next);
    CallsLength(web, credential, urls[..n]);
    OriginStep(web, urls, next);
    hide Chain, DifferentUrls, OneOrigin, StateAt, NextState, CallsTo;
    OneTurn(web, replies, maxBody, credential, urls, next);
  }

  lemma OneTurn(web: Web, replies: nat -> Hop, maxBody: nat, credential: bool, urls: seq<Url>, next: Url)
    requires 1 <= |urls| <= 10
    requires Hops(web, replies(|urls| - 1), maxBody, urls[|urls| - 1], next)
    requires NextState(web, StateAt(web, credential, urls), replies(|urls| - 1).response.value.location.value)
      == Ok(StateAt(web, credential, urls + [next]))
    ensures RunAt(web, replies, maxBody, credential, urls) == RunAt(web, replies, maxBody, credential, urls + [next])
  {
    CallsLength(web, credential, urls[..|urls| - 1]);
    OriginStep(web, urls, next);
    assert (urls + [next])[..|urls|] == urls;
    hide NextState, OneOrigin;
  }

  lemma {:induction false} RunAlong(
    web: Web, replies: nat -> Hop, maxBody: nat, text: string, credential: bool, urls: seq<Url>)
    requires Chain(web, replies, maxBody, text, urls)
    ensures Run(web, replies, maxBody, text, credential, true) == RunAt(web, replies, maxBody, credential, urls)
    decreases |urls|
  {
    var n := |urls| - 1;
    if n == 0 {
      assert urls == [urls[0]] && urls[..0] == [];
      assert StateAt(web, credential, urls).visited == {web.canonical(urls[0])};
    } else {
      assert urls == urls[..n] + [urls[n]];
      RunOn(web, replies, maxBody, text, credential, urls[..n], urls[n]);
      RunAlong(web, replies, maxBody, text, credential, urls[..n]);
    }
  }

  // ----- every run is explained by its chain -----

  /** The next state is refused exactly because of a bad target. */
  lemma NextRefused(web: Web, credential: bool, urls: seq<Url>, location: string, error: FetchError)
    requires 1 <= |urls| <= 11 && Trusted(web, urls[|urls| - 1])
    ensures BadTarget(web, urls, location, error) <==>
      NextState(web, StateAt(web, credential, urls), location) == Err(error)
  {
    hide OneOrigin;
    var state := StateAt(web, credential, urls);
    if web.join(urls[|urls| - 1], location).Some? {
      var canonical := web.canonical(web.join(urls[|urls| - 1], location).value);
      assert canonical in state.visited <==> exists k :: 0 <= k < |urls| && web.canonical(urls[k]) == canonical;
    }
  }

  /** The redirect of this hop, if it is one. */
  ghost predicate Redirected(web: Web, hop: Hop, url: Url, maxBody: nat) {
    Received(web, hop, url, maxBody) && Moved(hop.response.value.status) && hop.response.value.location.Some?
  }

  /** What a turn of the loop gives when it does not follow a redirect, and whether the place was called. */
  function TurnResult(web: Web, hop: Hop, url: Url, maxBody: nat): (Result<Response, FetchError>, bool) {
    if web.host(url).None? then (Err(NoHost), false)
    else if web.port(url).None? then (Err(NoPort), false)
    else if hop.pinned.None? then (Err(Unresolved), false)
    else if hop.response.None? then (Err(TransportFailed), true)
    else
      var response := hop.response.value;
      if response.bodyLength > maxBody then (Err(TooLarge), true)
      else if Moved(response.status) then (Err(NoLocation), true)
      else if Successful(response.status) then (Ok(response), true)
      else (Err(BadStatus(response.status)), true)
  }

  lemma Turn(web: Web, replies: nat -> Hop, maxBody: nat, credential: bool, urls: seq<Url>)
    requires 1 <= |urls| <= 11 && !Redirected(web, replies(|urls| - 1), urls[|urls| - 1], maxBody)
    ensures var (result, called) := TurnResult(web, replies(|urls| - 1), urls[|urls| - 1], maxBody);
      RunAt(web, replies, maxBody, credential, urls) ==
        (result, CallsTo(web, credential, if called then urls else urls[..|urls| - 1]))
  {
    CallsLength(web, credential, urls[..|urls| - 1]);
    hide OneOrigin, NextState;
  }

  lemma RefusedTurn(
    web: Web, replies: nat -> Hop, maxBody: nat, credential: bool, urls: seq<Url>, location: string)
    requires 1 <= |urls| <= 11 && Redirects(web, replies(|urls| - 1), urls[|urls| - 1], maxBody, location)
    requires NextState(web, StateAt(web, credential, urls), location).Err?
    ensures RunAt(web, replies, maxBody, credential, urls) ==
      (Err(NextState(web, StateAt(web, credential, urls), location).error), CallsTo(web, credential, urls))
  {
    CallsLength(web, credential, urls[..|urls| - 1]);
    hide OneOrigin, NextState;
  }

  /** Without a redirect the turn gives the only result that the chain explains. */
  lemma TurnResultExactly(web: Web, hop: Hop, maxBody: nat, urls: seq<Url>, error: FetchError)
    requires urls != [] && !Redirected(web, hop, urls[|urls| - 1], maxBody)
    ensures FailsAt(web, hop, maxBody, urls, error) <==>
      TurnResult(web, hop, urls[|urls| - 1], maxBody).0 == Err(error)
    ensures TurnResult(web, hop, urls[|urls| - 1], maxBody).0 == Err(error) ==>
      (TurnResult(web, hop, urls[|urls| - 1], maxBody).1 <==> !BeforeCall(error))
  {
    hide BadTarget;
  }

  lemma TurnSucceedsExactly(web: Web, hop: Hop, maxBody: nat, url: Url, response: Response)
    ensures (Received(web, hop, url, maxBody) && hop.response == Some(response) && Successful(response.status)) <==>
      TurnResult(web, hop, url, maxBody) == (Ok(response), true)
    ensures TurnResult(web, hop, url, maxBody).0.Ok? ==> TurnResult(web, hop, url, maxBody).1
  {}

  lemma RedirectedFails(web: Web, hop: Hop, maxBody: nat, urls: seq<Url>, location: string, error: FetchError)
    requires urls != [] && Redirects(web, hop, urls[|urls| - 1], maxBody, location)
    ensures FailsAt(web, hop, maxBody, urls, error) <==> BadTarget(web, urls, location, error)
    ensures FailsAt(web, hop, maxBody, urls, error) ==> !BeforeCall(error)
    ensures !Successful(hop.response.value.status)
  {
    if BadTarget(web, urls, location, error) { TargetErrors(web, urls, location, error); }
    hide BadTarget;
  }

  lemma EndsHere(
    web: Web, replies: nat -> Hop, maxBody: nat, text: string, credential: bool, urls: seq<Url>, outcome: Outcome)
    requires LeadsTo(web, replies, maxBody, text, credential, urls, outcome)
    ensures RunAt(web, replies, maxBody, credential, urls) == outcome
  {
    assert 1 <= |urls| <= 11 && Trusted(web, urls[|urls| - 1]);
    hide Chain, RunAt, CallsTo, FailsAt, TurnResult, Received, Successful, BadTarget, NextState;
    var hop, url := replies(|urls| - 1), urls[|urls| - 1];
    if Redirected(web, hop, url, maxBody) {
      var location := hop.response.value.location.value;
      assert outcome.0.Err? by { if outcome.0.Ok? { RedirectedFails(web, hop, maxBody, urls, location, Loop); } }
      RedirectedFails(web, hop, maxBody, urls, location, outcome.0.error);
      NextRefused(web, credential, urls, location, outcome.0.error);
      RefusedTurn(web, replies, maxBody, credential, urls, location);
    } else {
      Turn(web, replies, maxBody, credential, urls);
      match outcome.0
      case Ok(response) => TurnSucceedsExactly(web, hop, maxBody, url, response);
      case Err(error) => TurnResultExactly(web, hop, maxBody, urls, error);
    }
  }

  lemma EndsUnlessRedirected(
    web: Web, replies: nat -> Hop, maxBody: nat, text: string, credential: bool, urls: seq<Url>)
    requires Chain(web, replies, maxBody, text, urls)
    requires !Redirected(web, replies(|urls| - 1), urls[|urls| - 1], maxBody)
    ensures Ends(web, replies, maxBody, credential, urls, RunAt(web, replies, maxBody, credential, urls))
  {
    assert 1 <= |urls| <= 11;
    hide Chain, RunAt, CallsTo, FailsAt, TurnResult, Received, Successful, BadTarget, NextState;
    var hop, url := replies(|urls| - 1), urls[|urls| - 1];
    Turn(web, replies, maxBody, credential, urls);
    match TurnResult(web, hop, url, maxBody).0
    case Ok(response) => TurnSucceedsExactly(web, hop, maxBody, url, response);
    case Err(error) => TurnResultExactly(web, hop, maxBody, urls, error);
  }

  lemma EndsIfRefused(
    web: Web, replies: nat -> Hop, maxBody: nat, text: string, credential: bool, urls: seq<Url>, location: string)
    requires Chain(web, replies, maxBody, text, urls)
    requires Redirects(web, replies(|urls| - 1), urls[|urls| - 1], maxBody, location)
    requires NextState(web, StateAt(web, credential, urls), location).Err?
    ensures Ends(web, replies, maxBody, credential, urls, RunAt(web, replies, maxBody, credential, urls))
  {
    assert 1 <= |urls| <= 11 && Trusted(web, urls[|urls| - 1]);
    hide Chain, RunAt, CallsTo, FailsAt, TurnResult, Received, Successful, BadTarget, NextState;
    var error := NextState(web, StateAt(web, credential, urls), location).error;
    NextRefused(web, credential, urls, location, error);
    RedirectedFails(web, replies(|urls| - 1), maxBody, urls, location, error);
    RefusedTurn(web, replies, maxBody, credential, urls, location);
  }

  /** A chain ends here, or it goes on. */
  lemma EndsOrGoesOn(
    web: Web, replies: nat -> Hop, maxBody: nat, text: string, credential: bool, urls: seq<Url>)
    requires Chain(web, replies, maxBody, text, urls)
    ensures Ends(web, replies, maxBody, credential, urls, RunAt(web, replies, maxBody, credential, urls))
      || exists next :: Chain(web, replies, maxBody, text, urls + [next])
  {
    var hop := replies(|urls| - 1);
    if Redirected(web, hop, urls[|urls| - 1], maxBody) {
      var location := hop.response.value.location.value;
      if NextState(web, StateAt(web, credential, urls), location).Ok? {
        ChainGrows(web, replies, maxBody, text, credential, urls, location);
      } else {
        EndsIfRefused(web, replies, maxBody, text, credential, urls, location);
      }
    } else {
      EndsUnlessRedirected(web, replies, maxBody, text, credential, urls);
    }
    hide Chain, Ends, RunAt;
  }

  /** The errors of a bad target are none of the others. */
  lemma TargetErrors(web: Web, urls: seq<Url>, location: string, error: FetchError)
    requires urls != [] && BadTarget(web, urls, location, error)
    ensures error in {TooManyRedirects, InvalidRedirect, InvalidUrl, Untrusted, Loop, NoOrigin}
  {}

  lemma ChainGrows(
    web: Web, replies: nat -> Hop, maxBody: nat, text: string, credential: bool, urls: seq<Url>, location: string)
    requires Chain(web, replies, maxBody, text, urls)
    requires Redirects(web, replies(|urls| - 1), urls[|urls| - 1], maxBody, location)
    requires NextState(web, StateAt(web, credential, urls), location).Ok?
    ensures exists next :: Chain(web, replies, maxBody, text, urls + [next])
  {
    var n := |urls| - 1;
    var next := web.join(urls[n], location).value;
    var longer := urls + [next];
    assert forall k :: 0 <= k < |urls| ==> longer[k] == urls[k];
    assert longer[|urls|] == next;
    forall k | 0 <= k < |urls| ensures web.canonical(urls[k]) != web.canonical(next) {
      assert web.canonical(urls[k]) in StateAt(web, credential, urls).visited;
    }
    forall k | 0 <= k < |longer| - 1 ensures Hops(web, replies(k), maxBody, longer[k], longer[k + 1]) {
      if k < n { assert Hops(web, replies(k), maxBody, urls[k], urls[k + 1]); }
    }
    assert Chain(web, replies, maxBody, text, longer);
  }

  lemma {:induction false} RunAtExplained(
    web: Web, replies: nat -> Hop, maxBody: nat, text: string, credential: bool, urls: seq<Url>)
    requires Chain(web, replies, maxBody, text, urls)
    ensures exists all ::
      LeadsTo(web, replies, maxBody, text, credential, all, RunAt(web, replies, maxBody, credential, urls))
    decreases 11 - |urls|
  {
    EndsOrGoesOn(web, replies, maxBody, text, credential, urls);
    if Ends(web, replies, maxBody, credential, urls, RunAt(web, replies, maxBody, credential, urls)) {
      assert LeadsTo(web, replies, maxBody, text, credential, urls, RunAt(web, replies, maxBody, credential, urls));
    } else {
      var next :| Chain(web, replies, maxBody, text, urls + [next]);
      RunOn(web, replies, maxBody, text, credential, urls, next);
      assert |urls + [next]| <= 11;
      RunAtExplained(web, replies, maxBody, text, credential, urls + [next]);
    }
  }

  /** The outcome of a run, its result and all its calls, is exactly the one that its chain explains. */
  lemma RunExactly(
    web: Web, replies: nat -> Hop, maxBody: nat, text: string, credential: bool, headersValid: bool, outcome: Outcome)
    ensures Run(web, replies, maxBody, text, credential, headersValid) == outcome <==>
      Explained(web, replies, maxBody, text, credential, headersValid, outcome)
  {
    hide RunFrom, LeadsTo;
    var ran := Run(web, replies, maxBody, text, credential, headersValid);
    if headersValid && NewState(web, text, credential).Ok? {
      FirstPlace(web, replies, maxBody, text, credential);
      var first := [web.parse(text).value];
      RunAtExplained(web, replies, maxBody, text, credential, first);
      RunAlong(web, replies, maxBody, text, credential, first);
    }
    if urls :| headersValid && LeadsTo(web, replies, maxBody, text, credential, urls, outcome) {
      LeadsAlong(web, replies, maxBody, text, credential, urls, outcome);
      EndsHere(web, replies, maxBody, text, credential, urls, outcome);
    }
  }

  lemma LeadsAlong(
    web: Web, replies: nat -> Hop, maxBody: nat, text: string, credential: bool, urls: seq<Url>, outcome: Outcome)
    requires LeadsTo(web, replies, maxBody, text, credential, urls, outcome)
    ensures 1 <= |urls| <= 11
    ensures Run(web, replies, maxBody, text, credential, true) == RunAt(web, replies, maxBody, credential, urls)
    ensures web.parse(text).Some? && Trusted(web, web.parse(text).value)
  {
    RunAlong(web, replies, maxBody, text, credential, urls);
  }

  lemma FirstPlace(web: Web, replies: nat -> Hop, maxBody: nat, text: string, credential: bool)
    requires NewState(web, text, credential).Ok?
    ensures Chain(web, replies, maxBody, text, [web.parse(text).value])
  {}

  /** A run succeeds exactly when the headers are valid and some chain ends in a received, successful reply. */
  lemma SucceedsExactly(
    web: Web, replies: nat -> Hop, maxBody: nat, text: string, credential: bool, headersValid: bool,
    response: Response)
    ensures Run(web, replies, maxBody, text, credential, headersValid).0 == Ok(response) <==>
      headersValid && exists urls :: SuccessChain(web, replies, maxBody, text, urls, response)
  {
    hide Run;
    var outcome := Run(web, replies, maxBody, text, credential, headersValid);
    RunExactly(web, replies, maxBody, text, credential, headersValid, outcome);
    if outcome.0 == Ok(response) {
      var urls :| LeadsTo(web, replies, maxBody, text, credential, urls, outcome);
      assert SuccessChain(web, replies, maxBody, text, urls, response);
    }
    if urls :| headersValid && SuccessChain(web, replies, maxBody, text, urls, response) {
      var success := (Ok(response), CallsTo(web, credential, urls));
      assert LeadsTo(web, replies, maxBody, text, credential, urls, success);
      RunExactly(web, replies, maxBody, text, credential, headersValid, success);
    }
  }

  ghost predicate SuccessChain(
    web: Web, replies: nat -> Hop, maxBody: nat, text: string, urls: seq<Url>, response: Response)
  {
    && Chain(web, replies, maxBody, text, urls) && urls != []
    && Received(web, replies(|urls| - 1), urls[|urls| - 1], maxBody)
    && replies(|urls| - 1).response == Some(response) && Successful(response.status)
  }
}
