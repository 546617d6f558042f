/**
 * The sidebar filter (`apply_filters`): which listing cards stay visible for
 * the search text, the maximum price, the minimum bedrooms and bathrooms and
 * the property type the user picked.
 */
module Filters {
  import opened Wrappers
  import opened Text
  import opened Listings

  /** The raw contents of the five filter widgets; `minBaths` in half bathrooms. */
  datatype FilterInput = FilterInput(
    searchText: string,
    maxPriceText: string,
    minBeds: int,
    minBaths: int,
    selectedType: string)

  /** The filter after reading the widgets once; `maxPrice == None` is no upper bound. */
  datatype Criteria = Criteria(
    search: string,
    maxPrice: Option<real>,
    minBeds: int,
    minBaths: int,
    selectedType: string)

  /**
   * The maximum price typed in the filter box: stripped, `$` and `,` dropped,
   * read as a decimal; anything else is no bound (`float('inf')`).
   */
  function ParseMaxPrice(text: string): (r: Option<real>)
    ensures r.Some? ==> r.value >= 0.0
  {
    ParseDecimal(RemoveChar(RemoveChar(Strip(text), '$'), ','))
  }

  /** The rent suffix that listing prices may carry. */
  const MonthlySuffix := " / mo"

  /**
   * A listing's price text: `$`, `,` and ` / mo` dropped, stripped, read as a
   * decimal; text that cannot be read counts as infinitely expensive (`None`).
   */
  function ListingPrice(price: string): (r: Option<real>)
    ensures r.Some? ==> r.value >= 0.0
  {
    ParseDecimal(Strip(RemoveAll(RemoveChar(RemoveChar(price, '$'), ','), MonthlySuffix)))
  }

  /** A run of digits has no whitespace around it. */
  lemma {:induction false} DigitsAreTrimmed(d: string)
    requires AllDigits(d)
    ensures Strip(d) == d && ' ' !in d
  {
    if d != [] {
      assert IsDigit(d[0]) && IsDigit(d[|d| - 1]);
      StripKeepsTrimmed(d);
    }
    assert forall i :: 0 <= i < |d| ==> d[i] != ' ' by {
      forall i | 0 <= i < |d| ensures d[i] != ' ' { assert IsDigit(d[i]); }
    }
  }

  /**
   * A maximum price typed as money (digits, `$` signs and thousands commas)
   * reads as the number its digits spell; without any digit it is no bound.
   */
  lemma {:induction false} MaxPriceOfMoneyText(text: string)
    requires IsMoneyText(text)
    ensures DigitRun(text) != [] ==> ParseMaxPrice(text) == Some(DigitsValue(DigitRun(text)) as real)
    ensures DigitRun(text) == [] ==> ParseMaxPrice(text) == None
  {
    if text != [] {
      assert !IsSpace(text[0]) && !IsSpace(text[|text| - 1]);
    }
    StripKeepsTrimmed(text);
    MoneyTextDigits(text);
    if DigitRun(text) != [] {
      ParseDigits(DigitRun(text));
    } else {
      EmptyTextFacts();
    }
  }

  /** Money text followed by the rent suffix loses its `$` and `,` but keeps the suffix. */
  lemma {:induction false} MoneyTextWithSuffix(price: string)
    requires IsMoneyText(price)
    ensures RemoveChar(RemoveChar(price + MonthlySuffix, '$'), ',') == DigitRun(price) + MonthlySuffix
  {
    MoneyTextDigits(price);
    RemoveCharConcat(price, MonthlySuffix, '$');
    RemoveCharAbsent(MonthlySuffix, '$');
    RemoveCharConcat(RemoveChar(price, '$'), MonthlySuffix, ',');
    RemoveCharAbsent(MonthlySuffix, ',');
  }

  /**
   * A listing price written as money, with or without the rent suffix, reads
   * as the number its digits spell; without any digit it cannot be read.
   */
  lemma {:induction false} ListingPriceOfMoneyText(price: string)
    requires IsMoneyText(price)
    ensures DigitRun(price) != [] ==>
      && ListingPrice(price) == Some(DigitsValue(DigitRun(price)) as real)
      && ListingPrice(price + MonthlySuffix) == Some(DigitsValue(DigitRun(price)) as real)
    ensures DigitRun(price) == [] ==>
      ListingPrice(price) == None && ListingPrice(price + MonthlySuffix) == None
  {
    var d := DigitRun(price);
    MoneyTextDigits(price);
    MoneyTextWithSuffix(price);
    DigitsAreTrimmed(d);
    RemoveAllTrailing(d, MonthlySuffix);
    if d != [] {
      ParseDigits(d);
    } else {
      EmptyTextFacts();
    }
  }

  /** `price_value <= max_price` where `None` on either side is `float('inf')`. */
  predicate PriceWithin(price: Option<real>, maxPrice: Option<real>): (ok: bool)
    ensures maxPrice.None? ==> ok
    ensures ok && maxPrice.Some? ==> price.Some?
  {
    maxPrice.None? || (price.Some? && price.value <= maxPrice.value)
  }

  /** Reads the widgets the way `apply_filters` does before its loop. */
  function CriteriaOf(input: FilterInput): (c: Criteria)
    ensures Lower(c.search) == c.search && |c.search| <= |input.searchText|
    ensures c.maxPrice.Some? ==> c.maxPrice.value >= 0.0
  {
    LowerIdempotent(Strip(input.searchText));
    Criteria(Lower(Strip(input.searchText)), ParseMaxPrice(input.maxPriceText),
             input.minBeds, input.minBaths, input.selectedType)
  }

  /** The text a search is matched against: title, type and agent, lowered. */
  function SearchableText(p: Listing): string
  {
    Lower(p.title + " " + p.propType + " " + p.agent)
  }

  predicate TextMatch(p: Listing, c: Criteria)
  {
    Contains(SearchableText(p), c.search)
  }

  predicate TypeMatch(p: Listing, c: Criteria)
  {
    c.selectedType == "All" || p.propType == c.selectedType
  }

  predicate PriceMatch(p: Listing, c: Criteria)
  {
    PriceWithin(ListingPrice(p.price), c.maxPrice)
  }

  /**
   * A card is visible when all five conditions hold; under a price bound that
   * means a readable price within it.
   */
  predicate IsVisible(p: Listing, c: Criteria): (v: bool)
    ensures v && c.maxPrice.Some? ==>
      ListingPrice(p.price).Some? && ListingPrice(p.price).value <= c.maxPrice.value
  {
    && TextMatch(p, c)
    && TypeMatch(p, c)
    && PriceMatch(p, c)
    && p.bedrooms >= c.minBeds
    && p.bathrooms >= c.minBaths
  }

  /**
   * `apply_filters`: reads the widgets once, then decides card by card;
   * `visible[i]` is what `setVisible` receives for the i-th card.
   */
  method ApplyFilters(cards: seq<Listing>, input: FilterInput) returns (visible: seq<bool>)
    ensures |visible| == |cards|
    ensures forall i :: 0 <= i < |cards| ==> visible[i] == IsVisible(cards[i], CriteriaOf(input))
  {
    var c := CriteriaOf(input);
    visible := FlagEach(cards, p => IsVisible(p, c));
  }

  /** The card loop of `apply_filters`: one flag per element, in order. */
  method FlagEach<T>(xs: seq<T>, f: T -> bool) returns (flags: seq<bool>)
    ensures flags == Flags(xs, f)
  {
    flags := [];
    for i := 0 to |xs|
      invariant flags == Flags(xs[..i], f)
    {
      assert xs[..i + 1][..i] == xs[..i];
      flags := flags + [f(xs[i])];
    }
    assert xs[..|xs|] == xs;
  }

  /** The flag `f` gives each element, in order. */
  ghost function Flags<T>(xs: seq<T>, f: T -> bool): (r: seq<bool>)
    ensures |r| == |xs|
    ensures forall i :: 0 <= i < |xs| ==> r[i] == f(xs[i])
  {
    if xs == [] then [] else Flags(xs[..|xs| - 1], f) + [f(xs[|xs| - 1])]
  }

  /** The widgets' initial state: empty texts, zero minimums and type "All". */
  const InitialFilter: FilterInput := FilterInput("", "", 0, 0, "All")

  /** The initial widgets read as no search, no price bound and no minimums. */
  lemma InitialCriteria()
    ensures CriteriaOf(InitialFilter) == Criteria([], None, 0, 0, "All")
  {
    EmptyTextFacts();
  }

  /** With no search, no price bound and no minimums, every listing is visible. */
  lemma UnfilteredShowsAll(p: Listing)
    ensures IsVisible(p, Criteria([], None, 0, 0, "All"))
  {
    ContainsEmpty(SearchableText(p));
  }

  /** With the widgets as they start, every listing is visible. */
  lemma InitialFilterShowsAll(p: Listing)
    ensures IsVisible(p, CriteriaOf(InitialFilter))
  {
    InitialCriteria();
    UnfilteredShowsAll(p);
  }

  /** The search of the criteria is the trimmed, lower-cased search box. */
  lemma CriteriaSearch(input: FilterInput)
    ensures CriteriaOf(input).search == Lower(Strip(input.searchText))
  {
  }

  /** A text found in the lower-cased title is found in the searchable text. */
  lemma TitleInSearchableText(p: Listing, needle: string)
    requires Contains(Lower(p.title), needle)
    ensures Contains(SearchableText(p), needle)
  {
    var rest := " " + p.propType + " " + p.agent;
    assert p.title + " " + p.propType + " " + p.agent == p.title + rest;
    LowerConcat(p.title, rest);
    ContainsInConcat(Lower(p.title), Lower(rest), needle);
  }

  /** A text found in the lower-cased agent name is found in the searchable text. */
  lemma AgentInSearchableText(p: Listing, needle: string)
    requires Contains(Lower(p.agent), needle)
    ensures Contains(SearchableText(p), needle)
  {
    var front := p.title + " " + p.propType + " ";
    assert p.title + " " + p.propType + " " + p.agent == front + p.agent;
    LowerConcat(front, p.agent);
    ContainsInConcat(Lower(front), Lower(p.agent), needle);
  }

  /** A search typed in any case finds a listing whose title contains it. */
  lemma TitleSearchFinds(p: Listing, input: FilterInput)
    requires Contains(Lower(p.title), Lower(Strip(input.searchText)))
    ensures TextMatch(p, CriteriaOf(input))
  {
    CriteriaSearch(input);
    TitleInSearchableText(p, Lower(Strip(input.searchText)));
  }

  /** Same for a search found in the agent's name. */
  lemma AgentSearchFinds(p: Listing, input: FilterInput)
    requires Contains(Lower(p.agent), Lower(Strip(input.searchText)))
    ensures TextMatch(p, CriteriaOf(input))
  {
    CriteriaSearch(input);
    AgentInSearchableText(p, Lower(Strip(input.searchText)));
  }

  /** `c2` is at least as strict as `c1`: same text and type, tighter bounds. */
  predicate AtLeastAsStrict(c1: Criteria, c2: Criteria)
  {
    && c2.search == c1.search
    && c2.selectedType == c1.selectedType
    && c2.minBeds >= c1.minBeds
    && c2.minBaths >= c1.minBaths
    && (c1.maxPrice.Some? ==> c2.maxPrice.Some? && c2.maxPrice.value <= c1.maxPrice.value)
  }

  /** Tightening a bound never reveals a hidden card. */
  lemma StricterFilterHidesMore(p: Listing, c1: Criteria, c2: Criteria)
    requires AtLeastAsStrict(c1, c2)
    ensures IsVisible(p, c2) ==> IsVisible(p, c1)
  {
  }

  /** A listing whose price cannot be read is hidden by any maximum price. */
  lemma UnreadablePriceHidden(p: Listing, c: Criteria)
    requires ListingPrice(p.price).None? && c.maxPrice.Some?
    ensures !IsVisible(p, c)
  {
  }
}
