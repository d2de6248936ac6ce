/**
  * The brand form's submit handler: field validation, the early return on
  * errors, and the payloads it sends to the app around the fact-service call.
  */
module BrandForm {
  import opened Common
  import opened Strings

  const NameRequired := "Brand name is required"
  const UrlRequired := "URL is required"
  const UrlInvalid := "Please enter a valid URL (e.g., https://example.com)"
  const GenerateFailed := "Failed to generate facts"

  /** The form's error object: one optional message per field. */
  datatype FieldErrors = FieldErrors(name: Option<string>, url: Option<string>) {
    /** The object has at least one key. */
    predicate Any() {
      name.Some? || url.Some?
    }
  }

  const NoErrors := FieldErrors(None, None)

  /**
    * The checks of the submit handler. A name that trims to nothing is missing;
    * a URL that trims to nothing is missing and the URL check is not consulted;
    * otherwise the untrimmed URL goes to `validUrl`, which stands for
    * `new URL(...)` not throwing.
    */
  function Validate(name: string, url: string, validUrl: string -> bool): (e: FieldErrors)
    ensures e.name.Some? <==> AllSpace(name)
    ensures e.name.Some? ==> e.name.value == NameRequired
    ensures AllSpace(url) ==> e.url == Some(UrlRequired)
    ensures !AllSpace(url) ==> (e.url.None? <==> validUrl(url))
    ensures !AllSpace(url) && !validUrl(url) ==> e.url == Some(UrlInvalid)
  {
    FieldErrors(
      if Trim(name) == "" then Some(NameRequired) else None,
      if Trim(url) == "" then Some(UrlRequired)
      else if !validUrl(url) then Some(UrlInvalid)
      else None)
  }

  /** The URL check sees only the raw URL: two checks that agree on it give the same errors. */
  lemma ValidateReadsRawUrlOnly(name: string, url: string, v1: string -> bool, v2: string -> bool)
    requires v1(url) == v2(url) || AllSpace(url)
    ensures Validate(name, url, v1) == Validate(name, url, v2)
  {
  }

  /**
    * The list key of the fact at `index`, read at time `now`: `fact-`, the
    * index in decimal, `-`, the timestamp in decimal. Both numbers read back.
    */
  function FactId(index: nat, now: nat): (r: string)
    ensures 5 < |r| && r[..5] == "fact-"
    ensures var d := |NatToString(index)|;
      && 5 + d < |r| && r[5 + d] == '-'
      && IsDigits(r[5..5 + d]) && DigitsValue(r[5..5 + d]) == index
      && IsDigits(r[6 + d..]) && DigitsValue(r[6 + d..]) == now
    ensures var d := |NatToString(index)|;
      5 + d < |r| && r[5..5 + d] == NatToString(index) && r[6 + d..] == NatToString(now)
  {
    var a, b := NatToString(index), NatToString(now);
    NatToStringRoundTrip(index);
    NatToStringRoundTrip(now);
    var r := "fact-" + a + "-" + b;
    assert r[5..5 + |a|] == a && r[6 + |a|..] == b;
    r
  }

  /**
    * The facts with list keys attached. `clock(i)` is the millisecond
    * timestamp read while tagging the fact at index `i`.
    */
  function WithIds(facts: seq<RawFact>, clock: nat -> nat): (r: seq<Fact>)
    ensures |r| == |facts|
    ensures forall i :: 0 <= i < |r| ==> r[i].content == facts[i].content && r[i].source == facts[i].source
    ensures forall i :: 0 <= i < |r| ==> r[i].id == FactId(i, clock(i))
  {
    seq(|facts|, i requires 0 <= i < |facts| => Fact(facts[i].content, facts[i].source, FactId(i, clock(i))))
  }

  /** The key names its index: keys of different indices differ, whatever the clock says. */
  lemma FactIdsDiffer(i: nat, j: nat, ti: nat, tj: nat)
    requires i != j
    ensures FactId(i, ti) != FactId(j, tj)
  {
    var ri, rj := FactId(i, ti), FactId(j, tj);
    var di, dj := |NatToString(i)|, |NatToString(j)|;
    if di == dj {
      assert ri[5..5 + di] != rj[5..5 + dj];
    } else if di < dj {
      assert rj[5..5 + dj][di] == rj[5 + di];
      assert ri[5 + di] != rj[5 + di];
    } else {
      assert ri[5..5 + di][dj] == ri[5 + dj];
      assert ri[5 + dj] != rj[5 + dj];
    }
  }

  /** All keys of one result list are distinct. */
  lemma WithIdsDistinct(facts: seq<RawFact>, clock: nat -> nat)
    ensures forall i, j :: 0 <= i < j < |facts| ==> WithIds(facts, clock)[i].id != WithIds(facts, clock)[j].id
  {
    forall i, j | 0 <= i < j < |facts|
      ensures WithIds(facts, clock)[i].id != WithIds(facts, clock)[j].id
    {
      FactIdsDiffer(i, j, clock(i), clock(j));
    }
  }

  /**
    * What the fact service did when called: returned a list; rejected with a
    * value whose `message` may be absent; or rejected with `null` or
    * `undefined`, so that reading `error.message` itself throws.
    */
  datatype ServiceOutcome = Returned(facts: seq<RawFact>) | Threw(message: Option<string>) | ThrewNullish

  /** The observable steps of the submit handler, in order. */
  datatype Effect =
    | SetErrors(errors: FieldErrors)
    | SetLoading(loading: bool)
    | Notify(payload: Payload)
    | CallService(name: string, url: string)

  /** `error.message || 'Failed to generate facts'`. */
  function ErrorMessage(message: Option<string>): (r: string)
    ensures r != ""
    ensures Truthy(message) ==> r == message.value
    ensures !Truthy(message) ==> r == GenerateFailed
  {
    if Truthy(message) then message.value else GenerateFailed
  }

  /**
    * The payload after the service call, built from the trimmed inputs: the
    * keyed facts, or the error message. None is sent when the rejection value
    * is nullish, because building the error payload throws first.
    */
  function ResultPayload(name: string, url: string, outcome: ServiceOutcome, clock: nat -> nat): (r: Option<Payload>)
    ensures r.None? <==> outcome.ThrewNullish?
    ensures r.Some? ==> r.value.name == Some(name) && r.value.url == Some(url) && r.value.loading == Some(false)
    ensures r.Some? ==> (r.value.facts.Some? <==> outcome.Returned?) && (r.value.error.Some? <==> outcome.Threw?)
    ensures outcome.Returned? ==> r.value.facts == Some(WithIds(outcome.facts, clock))
    ensures outcome.Threw? ==> r.value.error == Some(ErrorMessage(outcome.message))
  {
    match outcome
    case Returned(facts) => Some(Payload(Some(name), Some(url), Some(WithIds(facts, clock)), None, Some(false)))
    case Threw(message) => Some(Payload(Some(name), Some(url), None, Some(ErrorMessage(message)), Some(false)))
    case ThrewNullish => None
  }

  /**
    * `handleSubmit` of the form. On invalid input only the errors are
    * recorded. Otherwise the errors are cleared, loading is announced before
    * the service is called with the trimmed inputs, the result is passed on
    * (unless building it throws), and the local loading flag is dropped.
    */
  function HandleSubmit(name: string, url: string, validUrl: string -> bool, outcome: ServiceOutcome, clock: nat -> nat)
    : (effects: seq<Effect>)
    ensures Validate(name, url, validUrl).Any() <==> |effects| == 1
    ensures Validate(name, url, validUrl).Any() ==> effects == [SetErrors(Validate(name, url, validUrl))]
    ensures !Validate(name, url, validUrl).Any() ==>
      && |effects| >= 5
      && effects[0] == SetErrors(NoErrors)
      && effects[1] == SetLoading(true)
      && effects[2] == Notify(LoadingPayload)
      && effects[3] == CallService(Trim(name), Trim(url))
      && effects[|effects| - 1] == SetLoading(false)
    ensures !Validate(name, url, validUrl).Any() && outcome.ThrewNullish? ==> |effects| == 5
    ensures !Validate(name, url, validUrl).Any() && !outcome.ThrewNullish? ==>
      |effects| == 6 && effects[4] == Notify(ResultPayload(Trim(name), Trim(url), outcome, clock).value)
  {
    var errors := Validate(name, url, validUrl);
    if errors.Any() then
      [SetErrors(errors)]
    else
      var trimmedName, trimmedUrl := Trim(name), Trim(url);
      var started := [SetErrors(NoErrors), SetLoading(true), Notify(LoadingPayload), CallService(trimmedName, trimmedUrl)];
      match ResultPayload(trimmedName, trimmedUrl, outcome, clock)
      case Some(result) => started + [Notify(result), SetLoading(false)]
      case None => started + [SetLoading(false)]
  }

  /** On invalid input nothing is announced, nothing loads and the service is never called. */
  lemma InvalidInputStops(name: string, url: string, validUrl: string -> bool, outcome: ServiceOutcome, clock: nat -> nat)
    requires AllSpace(name) || AllSpace(url) || !validUrl(url)
    ensures forall e :: e in HandleSubmit(name, url, validUrl, outcome, clock) ==> e.SetErrors? && e.errors.Any()
  {
  }

  /**
    * On valid input the service gets non-blank trimmed inputs, loading is
    * announced before it is called, and the handler ends with loading off.
    */
  lemma ValidInputCallsService(name: string, url: string, validUrl: string -> bool, outcome: ServiceOutcome, clock: nat -> nat)
    requires !AllSpace(name) && !AllSpace(url) && validUrl(url)
    ensures var effects := HandleSubmit(name, url, validUrl, outcome, clock);
      && (exists k :: 0 <= k < |effects| && effects[k] == CallService(Trim(name), Trim(url)))
      && (forall k :: 0 <= k < |effects| && effects[k].CallService? ==> effects[k].name != "" && effects[k].url != "")
      && (forall k, j :: 0 <= k < |effects| && 0 <= j < |effects| && effects[k] == Notify(LoadingPayload) && effects[j].CallService? ==> k < j)
      && effects[|effects| - 1] == SetLoading(false)
  {
    var effects := HandleSubmit(name, url, validUrl, outcome, clock);
    assert effects[3] == CallService(Trim(name), Trim(url));
  }
}
