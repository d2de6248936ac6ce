/** The app-level submit handler: a reducer over `{isLoading, error, brand, facts}`. */
module AppState {
  import opened Common

  /** The state a new search starts from, whatever came before. */
  const Cleared: State := State(true, None, None, [])

  /**
    * `handleSubmit` of the app. A defined `loading` sets the flag; a truthy
    * `loading` clears the results and stops there. Otherwise the error becomes
    * the submitted one (or none), the facts the submitted ones (or none), and
    * the brand is replaced only when both name and URL are non-empty.
    */
  function Step(st: State, p: Payload): (r: State)
    ensures p.loading == Some(true) ==> r == Cleared
    ensures p.loading.None? ==> r.isLoading == st.isLoading
    ensures p.loading == Some(false) ==> !r.isLoading
    ensures p.loading != Some(true) ==> (r.error.Some? <==> Truthy(p.error)) && (r.error.Some? ==> r.error == p.error)
    ensures p.loading != Some(true) ==> (p.facts.Some? ==> r.facts == p.facts.value) && (p.facts.None? ==> r.facts == [])
    ensures p.loading != Some(true) && Truthy(p.name) && Truthy(p.url) ==> r.brand == Some(Brand(p.name.value, p.url.value))
    ensures p.loading != Some(true) && !(Truthy(p.name) && Truthy(p.url)) ==> r.brand == st.brand
  {
    var st1 := if p.loading.Some? then st.(isLoading := p.loading.value) else st;
    if p.loading == Some(true) then
      st1.(error := None, brand := None, facts := [])
    else
      st1.(error := if Truthy(p.error) then p.error else None,
           brand := if Truthy(p.name) && Truthy(p.url) then Some(Brand(p.name.value, p.url.value)) else st.brand,
           facts := p.facts.GetOr([]))
  }

  /** A loading payload reads nothing but its flag: the result is the same for any prior state and any other fields. */
  lemma LoadingForgetsEverything(st1: State, st2: State, p1: Payload, p2: Payload)
    requires p1.loading == Some(true) && p2.loading == Some(true)
    ensures Step(st1, p1) == Step(st2, p2)
  {
  }

  /**
    * The payloads applied in order. A loading payload anywhere in the run
    * makes everything before it irrelevant, and payloads that never mention
    * `loading` never change the flag.
    */
  function Run(st: State, ps: seq<Payload>): (r: State)
    ensures forall k :: 0 <= k < |ps| && ps[k].loading == Some(true) ==> r == Run(Cleared, ps[k + 1..])
    ensures (forall k :: 0 <= k < |ps| ==> ps[k].loading.None?) ==> r.isLoading == st.isLoading
    decreases |ps|
  {
    if |ps| == 0 then st
    else
      var rest := ps[1..];
      assert forall k :: 1 <= k < |ps| ==> ps[k] == rest[k - 1] && ps[k + 1..] == rest[k..];
      Run(Step(st, ps[0]), rest)
  }

  /** A search that starts and then completes ends in what the completing payload makes of the cleared state. */
  lemma RunLoadingThen(st: State, p: Payload)
    ensures Run(st, [LoadingPayload, p]) == Step(Cleared, p)
  {
    var ps := [LoadingPayload, p];
    assert ps[0] == LoadingPayload && ps[1..] == [p] && [p][1..] == [];
    assert Run(st, ps) == Run(Step(st, LoadingPayload), [p]);
    assert Run(Step(st, LoadingPayload), [p]) == Step(Cleared, p);
  }

  /** While loading, no error, brand or facts of an earlier search are held. */
  ghost predicate Consistent(st: State) {
    st.isLoading ==> st.error.None? && st.brand.None? && st.facts == []
  }

  /** Payloads that always say whether they are loading keep the state consistent. */
  lemma {:induction false} RunConsistent(st: State, ps: seq<Payload>)
    requires Consistent(st)
    requires forall k :: 0 <= k < |ps| ==> ps[k].loading.Some?
    ensures Consistent(Run(st, ps))
    decreases |ps|
  {
    if |ps| > 0 {
      assert Consistent(Step(st, ps[0]));
      RunConsistent(Step(st, ps[0]), ps[1..]);
    }
  }

  /**
    * No stale error survives a new search: after the loading payload and then
    * a payload without error, the error is gone whatever the state was.
    */
  lemma NoStaleError(st: State, p: Payload)
    requires p.loading == Some(false) && !Truthy(p.error)
    ensures Run(st, [LoadingPayload, p]).error.None?
    ensures !Run(st, [LoadingPayload, p]).isLoading
    ensures !(Truthy(p.name) && Truthy(p.url)) ==> Run(st, [LoadingPayload, p]).brand.None?
  {
    RunLoadingThen(st, p);
  }
}
