/** What the facts display shows for a given state: spinner, error panel, empty prompt or fact list. */
module FactsView {
  import opened Common
  import opened Strings
  import LinkScan

  /** One fact card: its list key, the cleaned content, and the raw source string. */
  datatype Card = Card(key: string, content: string, source: string)

  datatype View =
    | Spinner
    | ErrorPanel(message: string)
    | EmptyPrompt
    | FactList(brand: Brand, count: string, cards: seq<Card>)

  function CountWord(n: nat): string {
    if n == 1 then "fact" else "facts"
  }

  /**
    * The line above the list, such as `3 facts found`: it starts with the
    * number of facts in decimal, and says `fact found` for one and
    * `facts found` for any other count.
    */
  function CountLabel(n: nat): (r: string)
    ensures |NatToString(n)| < |r| && r[..|NatToString(n)|] == NatToString(n)
    ensures DigitsValue(r[..|NatToString(n)|]) == n
    ensures r == NatToString(n) + " fact found" <==> n == 1
    ensures n != 1 ==> r == NatToString(n) + " facts found"
  {
    NatToStringRoundTrip(n);
    LabelWording(NatToString(n), n);
    NatToString(n) + " " + CountWord(n) + " found"
  }

  /** The wording after any number `d`: `fact found` for one, `facts found` otherwise. */
  lemma LabelWording(d: string, n: nat)
    ensures var r := d + " " + CountWord(n) + " found";
      && |d| < |r| && r[..|d|] == d
      && (r == d + " fact found" <==> n == 1)
      && (n != 1 ==> r == d + " facts found")
  {
    var r := d + " " + CountWord(n) + " found";
    assert r[..|d|] == d;
    if n != 1 {
      assert |r| == |d| + 12;
    }
  }

  /** A card shows the content with markdown links and empty parentheses removed, and the source verbatim. */
  function CardOf(f: Fact): (c: Card)
    ensures c.key == f.id && c.source == f.source
    ensures c.content == LinkScan.Cleaned(f.content) && |c.content| <= |f.content|
  {
    Card(f.id, LinkScan.Cleaned(f.content), f.source)
  }

  /**
    * The display's choice of view. Loading wins over an error, an error over
    * the empty prompt (no brand, or no facts), and only then is the list shown.
    */
  function Select(st: State): (v: View)
    ensures v.Spinner? <==> st.isLoading
    ensures v.ErrorPanel? <==> !st.isLoading && Truthy(st.error)
    ensures v.ErrorPanel? ==> v.message == st.error.value
    ensures v.EmptyPrompt? <==> !st.isLoading && !Truthy(st.error) && (st.brand.None? || st.facts == [])
    ensures v.FactList? ==> v.brand == st.brand.value && v.count == CountLabel(|st.facts|)
    ensures v.FactList? ==> |v.cards| == |st.facts| && forall i :: 0 <= i < |v.cards| ==> v.cards[i] == CardOf(st.facts[i])
  {
    if st.isLoading then Spinner
    else if Truthy(st.error) then ErrorPanel(st.error.value)
    else if st.brand.None? || |st.facts| == 0 then EmptyPrompt
    else FactList(st.brand.value, CountLabel(|st.facts|), seq(|st.facts|, i requires 0 <= i < |st.facts| => CardOf(st.facts[i])))
  }
}
