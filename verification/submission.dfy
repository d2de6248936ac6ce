/** One submission end to end: the form's handler feeding the app's reducer, and what the display then shows. */
module Submission {
  import opened Common
  import opened Strings
  import opened BrandForm
  import opened AppState
  import FactsView

  /** The payloads a run of the form handler passes to the app, in order. */
  function Notified(effects: seq<Effect>): (ps: seq<Payload>)
    ensures |ps| <= |effects|
    ensures forall p :: p in ps <==> Notify(p) in effects
  {
    if |effects| == 0 then []
    else (if effects[0].Notify? then [effects[0].payload] else []) + Notified(effects[1..])
  }

  /** The payloads of two runs back to back are those of the first, then those of the second. */
  lemma {:induction false} NotifiedConcat(a: seq<Effect>, b: seq<Effect>)
    ensures Notified(a + b) == Notified(a) + Notified(b)
    decreases |a|
  {
    if |a| == 0 {
      assert a + b == b;
    } else {
      var head := if a[0].Notify? then [a[0].payload] else [];
      assert (a + b)[0] == a[0] && (a + b)[1..] == a[1..] + b;
      NotifiedConcat(a[1..], b);
      assert head + (Notified(a[1..]) + Notified(b)) == (head + Notified(a[1..])) + Notified(b);
    }
  }

  /** The first four steps of a valid submission pass on the loading payload only. */
  lemma NotifiedOfStart(a: Payload, e0: Effect, e1: Effect, e3: Effect, rest: seq<Effect>)
    requires !e0.Notify? && !e1.Notify? && !e3.Notify?
    ensures Notified([e0, e1, Notify(a), e3] + rest) == [a] + Notified(rest)
  {
    assert [e3][1..] == [];
    assert Notified([e3]) == [];
    assert [Notify(a), e3][1..] == [e3];
    assert Notified([Notify(a), e3]) == [a];
    assert [e1, Notify(a), e3][1..] == [Notify(a), e3];
    assert Notified([e1, Notify(a), e3]) == [a];
    assert [e0, e1, Notify(a), e3][1..] == [e1, Notify(a), e3];
    NotifiedConcat([e0, e1, Notify(a), e3], rest);
  }

  /** A trace shaped like a valid submission's passes on the loading payload, then the result if one was sent. */
  lemma NotifiedOfValidTrace(e: seq<Effect>, result: Option<Payload>)
    requires |e| >= 5 && !e[0].Notify? && !e[1].Notify? && e[2] == Notify(LoadingPayload) && !e[3].Notify?
    requires e[|e| - 1] == SetLoading(false)
    requires result.None? ==> |e| == 5
    requires result.Some? ==> |e| == 6 && e[4] == Notify(result.value)
    ensures result.Some? ==> Notified(e) == [LoadingPayload, result.value]
    ensures result.None? ==> Notified(e) == [LoadingPayload]
  {
    var rest := e[4..];
    assert e == [e[0], e[1], Notify(LoadingPayload), e[3]] + rest;
    NotifiedOfStart(LoadingPayload, e[0], e[1], e[3], rest);
    var last := SetLoading(false);
    assert Notified([last]) == [] by {
      assert [last][1..] == [];
    }
    if result.None? {
      assert rest == [last];
    } else {
      assert rest == [Notify(result.value), last];
      assert rest[1..] == [last];
    }
  }

  /** Before any search the app holds nothing, is consistent and shows the empty prompt. */
  lemma IdleShowsPrompt()
    ensures Consistent(Initial) && FactsView.Select(Initial) == FactsView.EmptyPrompt
  {
  }

  /** A submission keeps a consistent state consistent, whatever the service does. */
  lemma SubmitKeepsConsistent(st: State, name: string, url: string, validUrl: string -> bool, outcome: ServiceOutcome, clock: nat -> nat)
    requires Consistent(st)
    ensures Consistent(Run(st, Notified(HandleSubmit(name, url, validUrl, outcome, clock))))
  {
    var ps := Notified(HandleSubmit(name, url, validUrl, outcome, clock));
    if Validate(name, url, validUrl).Any() {
      InvalidSubmitChangesNothing(st, name, url, validUrl, outcome, clock);
    } else {
      assert forall k :: 0 <= k < |ps| ==> ps[k].loading.Some? by {
        ValidPayloads(name, url, validUrl, outcome, clock);
      }
      RunConsistent(st, ps);
    }
  }

  /**
    * A submission made from the starting state leaves a consistent state, and a
    * rejected one leaves the empty prompt on display.
    */
  lemma SubmitFromIdle(name: string, url: string, validUrl: string -> bool, outcome: ServiceOutcome, clock: nat -> nat)
    ensures var final := Run(Initial, Notified(HandleSubmit(name, url, validUrl, outcome, clock)));
      && Consistent(final)
      && (Validate(name, url, validUrl).Any() ==> FactsView.Select(final) == FactsView.EmptyPrompt)
  {
    SubmitKeepsConsistent(Initial, name, url, validUrl, outcome, clock);
    if Validate(name, url, validUrl).Any() {
      InvalidSubmitChangesNothing(Initial, name, url, validUrl, outcome, clock);
    }
  }

  /** The payloads of a valid submission: loading, then the result unless building it threw. */
  lemma ValidPayloads(name: string, url: string, validUrl: string -> bool, outcome: ServiceOutcome, clock: nat -> nat)
    requires !Validate(name, url, validUrl).Any()
    ensures var ps := Notified(HandleSubmit(name, url, validUrl, outcome, clock));
      var result := ResultPayload(Trim(name), Trim(url), outcome, clock);
      && (result.Some? ==> ps == [LoadingPayload, result.value])
      && (result.None? ==> ps == [LoadingPayload])
  {
    NotifiedOfValidTrace(HandleSubmit(name, url, validUrl, outcome, clock), ResultPayload(Trim(name), Trim(url), outcome, clock));
  }

  /** A rejected submission leaves the app's state, and so the display, as it was. */
  lemma InvalidSubmitChangesNothing(st: State, name: string, url: string, validUrl: string -> bool, outcome: ServiceOutcome, clock: nat -> nat)
    requires AllSpace(name) || AllSpace(url) || !validUrl(url)
    ensures Run(st, Notified(HandleSubmit(name, url, validUrl, outcome, clock))) == st
  {
    var e := HandleSubmit(name, url, validUrl, outcome, clock);
    assert e[1..] == [];
  }

  /**
    * While the service runs, the display shows the spinner and nothing of the
    * previous search. A nullish rejection sends no second payload, so the
    * spinner stays.
    */
  lemma SpinnerWhileWaiting(st: State, name: string, url: string, validUrl: string -> bool, outcome: ServiceOutcome, clock: nat -> nat)
    requires !AllSpace(name) && !AllSpace(url) && validUrl(url)
    ensures var ps := Notified(HandleSubmit(name, url, validUrl, outcome, clock));
      && |ps| >= 1 && Run(st, ps[..1]) == Cleared && FactsView.Select(Run(st, ps[..1])) == FactsView.Spinner
      && (outcome.ThrewNullish? ==> |ps| == 1)
  {
    var ps := Notified(HandleSubmit(name, url, validUrl, outcome, clock));
    assert ps[..1] == [LoadingPayload] && (outcome.ThrewNullish? ==> |ps| == 1) by {
      ValidPayloads(name, url, validUrl, outcome, clock);
    }
    assert Run(st, [LoadingPayload]) == Cleared by {
      assert [LoadingPayload][1..] == [];
    }
  }

  /** The state a valid submission ends in; after a nullish rejection that is still the loading state. */
  lemma SubmitFinalState(st: State, name: string, url: string, validUrl: string -> bool, outcome: ServiceOutcome, clock: nat -> nat)
    requires !AllSpace(name) && !AllSpace(url) && validUrl(url)
    ensures var final := Run(st, Notified(HandleSubmit(name, url, validUrl, outcome, clock)));
      && (outcome.ThrewNullish? ==> final == Cleared)
      && (!outcome.ThrewNullish? ==> !final.isLoading && final.brand == Some(Brand(Trim(name), Trim(url))))
      && (outcome.Returned? ==> final.error.None? && final.facts == WithIds(outcome.facts, clock))
      && (outcome.Threw? ==> final.error == Some(ErrorMessage(outcome.message)) && final.facts == [])
  {
    var ps := Notified(HandleSubmit(name, url, validUrl, outcome, clock));
    var result := ResultPayload(Trim(name), Trim(url), outcome, clock);
    if outcome.ThrewNullish? {
      assert ps == [LoadingPayload] by {
        ValidPayloads(name, url, validUrl, outcome, clock);
      }
      assert [LoadingPayload][1..] == [];
    } else {
      assert ps == [LoadingPayload, result.value] by {
        ValidPayloads(name, url, validUrl, outcome, clock);
      }
      RunLoadingThen(st, result.value);
      assert Trim(name) != "" && Trim(url) != "";
    }
  }

  /**
    * What the display shows after a valid submission: the error panel with the
    * service's message (or the fallback), the empty prompt for an empty
    * result, the list of the returned facts under the trimmed brand, or, after
    * a nullish rejection, the spinner for good.
    */
  lemma SubmitView(st: State, name: string, url: string, validUrl: string -> bool, outcome: ServiceOutcome, clock: nat -> nat)
    requires !AllSpace(name) && !AllSpace(url) && validUrl(url)
    ensures var v := FactsView.Select(Run(st, Notified(HandleSubmit(name, url, validUrl, outcome, clock))));
      && (outcome.ThrewNullish? ==> v == FactsView.Spinner)
      && (outcome.Threw? ==> v == FactsView.ErrorPanel(ErrorMessage(outcome.message)))
      && (outcome.Threw? && !Truthy(outcome.message) ==> v == FactsView.ErrorPanel(GenerateFailed))
      && (outcome.Returned? && outcome.facts == [] ==> v == FactsView.EmptyPrompt)
      && (outcome.Returned? && outcome.facts != [] ==>
            && v.FactList?
            && v.brand == Brand(Trim(name), Trim(url))
            && v.count == FactsView.CountLabel(|outcome.facts|)
            && |v.cards| == |outcome.facts|
            && forall i :: 0 <= i < |v.cards| ==> v.cards[i].source == outcome.facts[i].source)
  {
    var final := Run(st, Notified(HandleSubmit(name, url, validUrl, outcome, clock)));
    SubmitFinalState(st, name, url, validUrl, outcome, clock);
    if outcome.Returned? {
      assert final.facts == WithIds(outcome.facts, clock);
    } else if outcome.Threw? {
      assert final.error == Some(ErrorMessage(outcome.message));
    }
  }
}
