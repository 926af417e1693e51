/** Turning the comma-separated settings into the location and group lists
    the endpoint filters use (Program.cs, lines 13-27). */
module LocationParsing {
  import opened Linq
  import opened Text
  import opened Domain

  /** The location list used when none is configured. */
  const DefaultLocations: string := "Canada,UnitedStates"

  /** `Enum.TryParse(typeof(CountryId), token, ignoreCase: true, ...)` over
      member names: the first member whose name equals `token` up to case. */
  function ParseCountry(token: string): Option<CountryId> {
    FindName(AllCountries, token)
  }

  /** A token parses to `c` exactly when it is `c`'s name up to case. */
  lemma ParseCountryMatches(token: string)
    ensures forall c :: ParseCountry(token) == Some(c) <==> EqualsIgnoreCase(CountryName(c), token)
  {
    var r := ParseCountry(token);
    FindNameFinds(AllCountries, token);
    forall c ensures r == Some(c) <==> EqualsIgnoreCase(CountryName(c), token) {
      AllCountriesListed(c);
      if r.Some? && EqualsIgnoreCase(CountryName(c), token) {
        EqualsIgnoreCaseBothTo(CountryName(c), CountryName(r.value), token);
        CountryNamesDistinct(c, r.value);
      }
    }
  }

  /** The first member of `candidates` whose name equals `token` up to case. */
  function FindName(candidates: seq<CountryId>, token: string): Option<CountryId> {
    if candidates == [] then None
    else if EqualsIgnoreCase(CountryName(candidates[0]), token) then Some(candidates[0])
    else FindName(candidates[1..], token)
  }

  /** The search finds a candidate whose name matches, and fails only when
      no candidate matches. */
  lemma {:induction false} FindNameFinds(candidates: seq<CountryId>, token: string)
    ensures var r := FindName(candidates, token);
      && (r.Some? ==> r.value in candidates && EqualsIgnoreCase(CountryName(r.value), token))
      && (r.None? ==> forall c :: c in candidates ==> !EqualsIgnoreCase(CountryName(c), token))
  {
    if candidates != [] && !EqualsIgnoreCase(CountryName(candidates[0]), token) {
      FindNameFinds(candidates[1..], token);
      assert candidates == [candidates[0]] + candidates[1..];
    }
  }

  lemma AllCountriesListed(c: CountryId)
    ensures c in AllCountries
  {}

  /** A token counts when, once trimmed, it names a country. */
  predicate Recognised(token: string) {
    ParseCountry(Trim(token)).Some?
  }

  /** The countries named by `tokens`, in token order; unrecognised tokens
      contribute nothing. */
  function RecognisedCountries(tokens: seq<string>): seq<CountryId> {
    if tokens == [] then []
    else
      var prefix := RecognisedCountries(tokens[..|tokens| - 1]);
      match ParseCountry(Trim(tokens[|tokens| - 1]))
      case Some(c) => prefix + [c]
      case None => prefix
  }

  /** The loop of lines 14-26: split on commas, trim every token, keep the
      ones that name a country. */
  method ParseLocations(raw: string) returns (locations: seq<CountryId>)
    ensures locations == RecognisedCountries(Split(raw, ','))
  {
    var tokens := Split(raw, ',');
    locations := [];
    for i := 0 to |tokens|
      invariant locations == RecognisedCountries(tokens[..i])
    {
      var token := Trim(tokens[i]);
      RecognisedCountriesStep(tokens, i);
      match ParseCountry(token) {
        case Some(c) => locations := locations + [c];
        case None =>
      }
    }
    assert tokens[..|tokens|] == tokens;
  }

  /** One more token extends the result by the country it names, if any. */
  lemma RecognisedCountriesStep(tokens: seq<string>, i: int)
    requires 0 <= i < |tokens|
    ensures RecognisedCountries(tokens[..i + 1]) == RecognisedCountries(tokens[..i])
      + match ParseCountry(Trim(tokens[i])) case Some(c) => [c] case None => []
  {
    assert tokens[..i + 1][..i] == tokens[..i];
  }

  /** Some token, trimmed, is the name of `c` up to case. */
  predicate NamedBy(c: CountryId, tokens: seq<string>) {
    exists t :: t in tokens && EqualsIgnoreCase(CountryName(c), Trim(t))
  }

  /** The result lists exactly the countries some token names, up to case and
      surrounding white space. */
  lemma {:induction false} RecognisedCountriesMembers(tokens: seq<string>)
    ensures forall c :: c in RecognisedCountries(tokens) <==> NamedBy(c, tokens)
  {
    if tokens != [] {
      var init, last := tokens[..|tokens| - 1], tokens[|tokens| - 1];
      RecognisedCountriesMembers(init);
      assert tokens == init + [last];
      ParseCountryMatches(Trim(last));
      forall c ensures c in RecognisedCountries(tokens) <==> NamedBy(c, tokens) {
        if c in RecognisedCountries(tokens) && c !in RecognisedCountries(init) {
          assert ParseCountry(Trim(last)) == Some(c);
        }
        if t :| t in tokens && EqualsIgnoreCase(CountryName(c), Trim(t)) {
          if t !in init {
            assert t == last;
          }
        }
      }
    }
  }

  /** `countries` are the countries that `tokens`, trimmed, name, one for
      one and in order. */
  predicate CountriesOf(countries: seq<CountryId>, tokens: seq<string>) {
    |countries| == |tokens| && forall i :: 0 <= i < |countries| ==> Some(countries[i]) == ParseCountry(Trim(tokens[i]))
  }

  lemma CountriesOfSnoc(countries: seq<CountryId>, tokens: seq<string>, c: CountryId, t: string)
    requires CountriesOf(countries, tokens) && Some(c) == ParseCountry(Trim(t))
    ensures CountriesOf(countries + [c], tokens + [t])
  {}

  /** The result is the recognised tokens, in order, each mapped to the
      country it names: parsing never reorders, and skips only unrecognised
      tokens. */
  lemma {:induction false} RecognisedCountriesInTokenOrder(tokens: seq<string>)
    ensures CountriesOf(RecognisedCountries(tokens), Where(tokens, Recognised))
  {
    if tokens != [] {
      var init, last := tokens[..|tokens| - 1], tokens[|tokens| - 1];
      RecognisedCountriesInTokenOrder(init);
      assert tokens == init + [last];
      WhereAppend(init, [last], Recognised);
      var wi, ri := Where(init, Recognised), RecognisedCountries(init);
      assert [last][1..] == [];
      if Recognised(last) {
        CountriesOfSnoc(ri, wi, ParseCountry(Trim(last)).value, last);
      }
    }
  }

  /** The member names of `countries`, in order. */
  function Names(countries: seq<CountryId>): seq<string> {
    seq(|countries|, i requires 0 <= i < |countries| => CountryName(countries[i]))
  }

  /** A member name has no comma and no white space at its ends. */
  lemma CountryNameIsToken(c: CountryId)
    ensures ',' !in CountryName(c) && Trim(CountryName(c)) == CountryName(c)
  {
    var name := CountryName(c);
    assert 'A' <= name[0] <= 'Z' && 'a' <= name[|name| - 1] <= 'z';
    TrimNoEdgeWhiteSpace(name);
  }

  /** A member name, as a token, parses to its member. */
  lemma CountryNameParses(c: CountryId)
    ensures ParseCountry(Trim(CountryName(c))) == Some(c)
  {
    CountryNameIsToken(c);
    EqualsIgnoreCaseReflexive(CountryName(c));
    ParseCountryMatches(CountryName(c));
  }

  /** Member names read back as their members. */
  lemma {:induction false} RecognisedNames(countries: seq<CountryId>)
    ensures RecognisedCountries(Names(countries)) == countries
  {
    if countries != [] {
      var n := |countries|;
      var last := countries[n - 1];
      assert Names(countries)[..n - 1] == Names(countries[..n - 1]);
      RecognisedNames(countries[..n - 1]);
      CountryNameParses(last);
      assert countries == countries[..n - 1] + [last];
    }
  }

  /** Writing countries as a comma-separated list of member names and parsing
      the list gives the same countries back, in the same order. */
  lemma ParseLocationsRoundTrip(countries: seq<CountryId>)
    ensures RecognisedCountries(Split(Join(Names(countries), ','), ',')) == countries
  {
    if countries == [] {
      EmptyLocationsParse();
    } else {
      forall i | 0 <= i < |countries| ensures ',' !in Names(countries)[i] {
        CountryNameIsToken(countries[i]);
      }
      SplitJoin(Names(countries), ',');
      RecognisedNames(countries);
    }
  }

  /** The empty setting is one empty token, which names no country, so it
      yields no country and no location filter. */
  lemma EmptyLocationsParse()
    ensures RecognisedCountries(Split("", ',')) == []
  {
    FindNameFinds(AllCountries, []);
    assert Split("", ',') == [""];
    assert Trim("") == "";
    assert [""][..0] == [];
  }

  /** The default setting, "Canada,UnitedStates", yields Canada then the
      United States. */
  lemma DefaultLocationsParse()
    ensures RecognisedCountries(Split(DefaultLocations, ',')) == [Canada, UnitedStates]
  {
    var countries := [Canada, UnitedStates];
    assert Names(countries) == ["Canada", "UnitedStates"];
    assert Join(Names(countries), ',') == DefaultLocations;
    ParseLocationsRoundTrip(countries);
  }

  /** Line 27: an unset group setting gives no groups; a set one, even an
      empty string, gives one trimmed, comma-free title per comma-separated
      piece. */
  function ParseGroups(raw: Option<string>): (titles: seq<string>)
    ensures titles != [] <==> raw.Some?
    ensures raw.Some? ==> |titles| == |Split(raw.value, ',')|
    ensures forall i :: 0 <= i < |titles| ==> ',' !in titles[i] && Trim(titles[i]) == titles[i]
    ensures raw.Some? ==> forall i :: 0 <= i < |titles| ==> TrimmedFrom(titles[i], Split(raw.value, ',')[i])
  {
    match raw
    case None => []
    case Some(s) =>
      var pieces := Split(s, ',');
      var titles := seq(|pieces|, i requires 0 <= i < |pieces| => Trim(pieces[i]));
      assert forall i :: 0 <= i < |titles| ==>
               ',' !in titles[i] && Trim(titles[i]) == titles[i] && TrimmedFrom(titles[i], pieces[i]) by {
        forall i | 0 <= i < |titles|
          ensures ',' !in titles[i] && Trim(titles[i]) == titles[i] && TrimmedFrom(titles[i], pieces[i])
        {
          TrimIdempotent(pieces[i]);
          TrimKeepsAbsent(pieces[i], ',');
          TrimIsTrimmedFrom(pieces[i]);
        }
      }
      titles
  }
}
