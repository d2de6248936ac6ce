/** Values shared by the form, the app-level reducer and the facts display. */
module Common {

  /** An optional value; `None` stands for a field that is absent (`undefined`). */
  datatype Option<+T> = None | Some(value: T) {
    /** The value, or `default` when absent: JavaScript's `x || default` for a value that is never falsy. */
    function GetOr(default: T): T {
      match this
      case Some(v) => v
      case None => default
    }
  }

  /** A fact as the fact service returns it. */
  datatype RawFact = RawFact(content: string, source: string)

  /** A fact after the form has attached a list key to it. */
  datatype Fact = Fact(content: string, source: string, id: string)

  /** The brand whose facts are shown: the trimmed name and URL the user submitted. */
  datatype Brand = Brand(name: string, url: string)

  /** The object the form passes to the app's submit handler; every field may be absent. */
  datatype Payload = Payload(
    name: Option<string>,
    url: Option<string>,
    facts: Option<seq<Fact>>,
    error: Option<string>,
    loading: Option<bool>)

  /** The payload the form sends when a search starts. */
  const LoadingPayload: Payload := Payload(None, None, None, None, Some(true))

  /** The app's state, which is also what the facts display receives as props. */
  datatype State = State(isLoading: bool, error: Option<string>, brand: Option<Brand>, facts: seq<Fact>)

  /** JavaScript truthiness of an optional string: absent and empty are both falsy. */
  predicate Truthy(s: Option<string>) {
    s.Some? && s.value != ""
  }

  /** The app's state when it first renders: nothing loading, no error, no brand, no facts. */
  const Initial: State := State(false, None, None, [])
}
