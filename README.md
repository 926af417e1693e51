# WireGuard configuration generator for NordVPN, modelled in Dafny

The program (`Program.cs`) reads its settings from environment variables,
fetches the full NordVPN endpoint directory, and keeps the endpoints that offer
WireGuard and have an online technology. When a group list is set, it also
keeps only endpoints in one of those groups, and when the location list names
at least one country, only endpoints in one of those countries (lines 69 and
75). It optionally orders the endpoints by load (least loaded first) and
writes one WireGuard configuration file per endpoint that publishes a public
key, stopping once the requested number of files exists. The exit code is 1
when the private key is missing or no endpoint survives the filters, and 0
when the run completes. An unhandled exception, such as a failed fetch (line
63) or a failed file write, ends the run with neither.

This project models that pipeline on values:

- `text.dfy` (module `Text`) holds the .NET string operations the program relies on:
  - `string.Split(",")`, `Trim()` (the .NET white-space set), ordinal `Replace`;
  - case-insensitive name comparison;
  - `int.ToString()`.
- `linq.dfy` (module `Linq`) holds the LINQ operators `Where` and `FirstOrDefault(predicate)`.
- `domain.dfy` (module `Domain`) holds the directory entries: endpoints, technologies, metadata, groups and locations.
- `locations.dfy` (module `LocationParsing`) holds the parsing of the location list, which is a loop, and of the group list.
- `selection.dfy` (module `Selection`) holds:
  - the filter chain;
  - the "nothing found" exit;
  - `OrderBy(e => e.Load)`, modelled as a stable insertion sort.
- `rendering.dfy` (module `Rendering`) covers a single file:
  - the public key lookup;
  - the configuration text;
  - the file name built from the `{n}`, `{country}`, `{endpointId}` and `{load}` placeholders.
- `generation.dfy` (module `Generation`) holds the generation loop as a method with a loop, proved against a recursive specification function, and the whole run.

Behaviour worth noting:

- **Technology tests (lines 66-67).** These are two independent tests. An endpoint passes when some technology is WireGuard and some technology, possibly a different one, is online (`Selection.OfflineWireguardPasses`).
- **Table line (line 120).** It is always written, as `Table = off` or `Table = on`.
- **Leading line break (line 114).** The configuration text starts with a line break.

## Model

| member | source | states |
|---|---|---|
| `Text.TrimIsTrimmedFrom` | Program.cs:16 | `Trim()` returns the input without a white-space prefix and suffix, neither starting nor ending with white space |
| `Text.TrimShape` | Program.cs:16 | `Trim()` removes exactly a white-space prefix and a white-space suffix, and what remains neither starts nor ends with white space |
| `Text.TrimStartShape` | Program.cs:16 | the leading half of `Trim()`: the result is a suffix of the input, the cut part is white space, and the result does not start with white space |
| `Text.TrimEndShape` | Program.cs:16 | the trailing half of `Trim()`: the result is a prefix of the input, the cut part is white space, and the result does not end with white space |
| `Text.TrimIdempotent` | Program.cs:27 | trimming a trimmed title changes nothing |
| `Text.TrimKeepsAbsent` | Program.cs:27 | trimming never introduces a character, so a comma-free piece stays comma-free |
| `Text.Split` | Program.cs:14 | `Split(",")` yields at least one piece, and no piece contains the separator |
| `Text.JoinSplit` | Program.cs:14 | joining the pieces with the separator gives back the input, so splitting loses nothing |
| `Text.SplitJoin` | Program.cs:14 | splitting a join of separator-free pieces gives the pieces back |
| `Text.EqualsIgnoreCaseAt` | Program.cs:17 | case-insensitive equality is equal length and equal characters up to case, position by position |
| `Text.EqualsIgnoreCaseReflexive` | Program.cs:17 | every name matches itself |
| `Text.EqualsIgnoreCaseBothTo` | Program.cs:17 | two names that both match a token match each other |
| `Text.ReplaceNoOccurrence` | Program.cs:128-133 | `Replace` leaves a string without an occurrence of the pattern unchanged |
| `Text.ReplaceFirstOccurrence` | Program.cs:128-133 | `Replace` substitutes the leftmost occurrence and resumes scanning after it |
| `Text.ReplaceAbsentLead` | Program.cs:129-133 | a placeholder whose first character is absent is not replaced |
| `Text.ReplaceSingleOccurrence` | Program.cs:129-130 | a pattern occurring exactly once is replaced there and nowhere else |
| `Text.ReplaceLoneLead` | Program.cs:129-133 | a placeholder whose first character appears nowhere around its one occurrence is replaced there and nowhere else |
| `Text.ReplaceOtherLead` | Program.cs:129-133 | a placeholder that starts like the one in the text but differs from it later is not replaced |
| `Text.ReplaceBeforeOther` | Program.cs:129-133 | a placeholder followed by a different placeholder is replaced and the other one left for its own step |
| `Text.ReplaceKeepsAbsent` | Program.cs:128 | replacing never brings in a character that neither the text nor the replacement holds |
| `Text.ReplaceChainSingle` | Program.cs:129-133 | in the chain of replacements, a text whose only placeholder is that of step `k` comes out with step `k`'s value in its place |
| `Text.ReplaceChainFirstTwo` | Program.cs:129-133 | a text holding the first two steps' placeholders, in order, comes out with both values in place |
| `Text.ReplaceChainAbsentLeads` | Program.cs:129-133 | a chain of replacements whose placeholders all start with characters absent from the text leaves the text unchanged |
| `Text.NatToString` | Program.cs:130 | the decimal text of a number is non-empty, all digits, and has no leading zero |
| `Text.ParseNatToString` | Program.cs:130 | the decimal text of a number reads back as that number |
| `Text.NatToStringInjective` | Program.cs:130 | distinct numbers have distinct decimal texts |
| `Text.IntToString` | Program.cs:126 | `int.ToString()` consists of digits and a minus sign. A number that is not negative reads back from its digits; a negative one is a minus sign followed by the digits of its magnitude |
| `Text.IntToStringOmits` | Program.cs:126 | the text of a number holds no character other than digits and '-' |
| `Text.SingleDigitText` | Program.cs:130 | a number below ten is written as its one digit |
| `Text.IntToStringInjective` | Program.cs:130 | distinct integers have distinct texts, so the file counter is readable from the name |
| `Linq.Where` | Program.cs:65-67 | `Where` returns no more elements than it is given, and all of them satisfy the predicate |
| `Linq.WhereMembers` | Program.cs:65-67 | `Where` keeps exactly the elements that satisfy the predicate |
| `Linq.WhereMultiset` | Program.cs:65-79 | `Where` keeps every copy of an element that satisfies the predicate and no copy of one that does not |
| `Linq.WhereIdempotent` | Program.cs:65-79 | filtering a second time by the same predicate changes nothing |
| `Linq.WhereIsSubsequence` | Program.cs:65-67 | `Where` keeps the input order |
| `Linq.FirstIndex` | Program.cs:105-106 | the index returned is the first position that satisfies the predicate, or the length when none does |
| `Linq.FirstWhere` | Program.cs:105-106 | `FirstOrDefault(p)` is empty exactly when no element satisfies `p`, and otherwise returns the element at the first such position |
| `Domain.CountryNamesDistinct` | Program.cs:17 | no two country members have names that differ only in case, so a token names at most one country |
| `LocationParsing.ParseCountryMatches` | Program.cs:17 | a token parses to country `c` exactly when it equals `c`'s member name up to case |
| `LocationParsing.FindNameFinds` | Program.cs:17 | the search returns a candidate whose name matches, and fails only when no candidate matches |
| `LocationParsing.ParseLocations` | Program.cs:13-26 | the loop yields the countries named by the comma-separated tokens, trimmed, in token order, and drops the tokens that name no country |
| `LocationParsing.RecognisedCountriesMembers` | Program.cs:13-26 | a country is in the result exactly when some token names it, up to case and surrounding white space |
| `LocationParsing.RecognisedCountriesInTokenOrder` | Program.cs:13-26 | the result is the recognised tokens, each mapped to its country, in order |
| `LocationParsing.CountryNameParses` | Program.cs:16-17 | every country's own member name, trimmed and parsed, gives that country back |
| `LocationParsing.RecognisedNames` | Program.cs:14-20 | a list of member names reads back as those members |
| `LocationParsing.ParseLocationsRoundTrip` | Program.cs:14-20 | countries written as a comma-separated list of member names parse back to the same countries in the same order, the empty list included |
| `LocationParsing.EmptyLocationsParse` | Program.cs:14-20 | an empty location setting names no country, so no location filter applies |
| `LocationParsing.DefaultLocationsParse` | Program.cs:14 | the default setting yields Canada, then the United States |
| `LocationParsing.ParseGroups` | Program.cs:27 | an unset group setting gives no groups. A set one, even the empty string, gives one title per comma-separated piece: title `i` is piece `i` with its leading and trailing white space cut off, and it is comma-free and already trimmed |
| `Selection.FilteredIsOneFilter` | Program.cs:65-79 | the chain of filters is a single `Where` by the conjunction of the active tests |
| `Selection.FilteredMembers` | Program.cs:65-79 | an endpoint is kept exactly when it is in the directory, offers WireGuard, has an online technology, is in a selected group when groups are set, and is in a selected country when locations are set |
| `Selection.FilteredIdempotent` | Program.cs:65-79 | filtering an already filtered list with the same selection changes nothing |
| `Selection.FilteredKeepsOrder` | Program.cs:65-79 | filtering never reorders the directory |
| `Selection.OfflineWireguardPasses` | Program.cs:66-67 | an endpoint whose only WireGuard technology is offline still passes when another of its technologies is online |
| `Selection.InsertByLoad` | Program.cs:92 | insertion adds exactly the element, keeps the result sorted by load, and respects any lower bound on the loads |
| `Selection.SortByLoad` | Program.cs:92 | the ordering is sorted by load and is a permutation of its input |
| `Selection.SortByLoadStable` | Program.cs:92 | the ordering is stable: endpoints of equal load keep their relative order |
| `Selection.SortedStableUnique` | Program.cs:92 | two sorted arrangements that agree on every load's sub-list are equal |
| `Selection.SortByLoadIsOrderBy` | Program.cs:92 | any sorted, stable arrangement of the input is the one the model computes, so `SortByLoad` is exactly `OrderBy` on the load |
| `Selection.Select` | Program.cs:81-93 | the run stops for lack of endpoints exactly when no directory entry passes the filters. Otherwise the list is non-empty and a permutation of the filtered list. It is sorted and stable when least-loaded servers are preferred, and the filtered list unchanged otherwise |
| `Rendering.PublicKeyIsFirstKey` | Program.cs:105-112 | the key is `k` exactly when `k` is non-empty and is the value of the first "public_key" entry of the first WireGuard technology |
| `Rendering.NoWireguardNoKey` | Program.cs:105-108 | an endpoint without a WireGuard technology has no key and is skipped |
| `Rendering.OnlyFirstWireguardConsulted` | Program.cs:105-106 | a key on a second WireGuard technology is not found when the first one has none |
| `Rendering.ContentSplitsIntoLines` | Program.cs:114-127 | when no value contains a line break, the text's lines are the template's 14 lines, opening and closing with an empty line |
| `Rendering.ContentDeterminesValues` | Program.cs:114-127 | the text determines every value written into it: the private key, the address, the DNS list, the table choice, the allowed IPs, the keepalive, the public key and the host |
| `Rendering.EndpointIdOfHost` | Program.cs:128 | `<id>.nordvpn.com` with a dot-free `<id>` gives the identifier `<id>` |
| `Rendering.FileNameWithoutPlaceholders` | Program.cs:129-133 | a format without '{' is used verbatim, so every file gets that one name |
| `Rendering.NumberedFileName` | Program.cs:129-133 | a format `<pre>{n}<post>` with no other '{' yields `<pre>`, the counter's decimal text, then `<post>` |
| `Rendering.PlaceholderValuesPlain` | Program.cs:128-133 | no placeholder value holds a '{', except an endpoint identifier taken from a host name that holds one |
| `Rendering.SinglePlaceholderFileName` | Program.cs:129-133 | a format whose only '{' opens one placeholder becomes that placeholder's value between the text around it |
| `Rendering.CountryFileName` | Program.cs:131 | a format `<pre>{country}<post>` with no other '{' names the file after the first location's country |
| `Rendering.UnknownCountryFileName` | Program.cs:131 | an endpoint without locations fills `{country}` with "unknown" |
| `Rendering.HostFileName` | Program.cs:128-132 | `{endpointId}` for the host `<id>.nordvpn.com` becomes `<id>` |
| `Rendering.LoadFileName` | Program.cs:133 | a format `<pre>{load}<post>` with no other '{' names the file after the endpoint's load |
| `Rendering.NumberedCountryFileName` | Program.cs:129-133 | a format `<pre>{n}<mid>{country}<post>` with no other '{' gets the counter and the country, each in its place |
| `Rendering.CountryFileNameExample` | Program.cs:129-133 | "wg{n}-{country}.conf" names the file numbered 2 of a Canadian endpoint "wg2-Canada.conf" |
| `Rendering.DefaultFileName` | Program.cs:31 | the default format `wg{n}.conf` yields `wg<n>.conf` |
| `Rendering.NumberedFileNamesDistinct` | Program.cs:129-133 | with such a format, distinct counters give distinct names |
| `Generation.Generate` | Program.cs:98-149 | the loop writes exactly the files of the plan `Plan`, in its order: one file per job, rendered from that job's endpoint, key and number |
| `Generation.RenderAll` | Program.cs:114-136 | one file is written per job |
| `Generation.RenderAllAt` | Program.cs:114-136 | the `i`-th file is the one rendered for the `i`-th job |
| `Generation.PlanCount` | Program.cs:99-112 | the number of files is the request capped by the number of endpoints that have a key. A request of -1 means all of them, and any other request that is zero or negative means none |
| `Generation.PlanJobs` | Program.cs:99-148 | the `i`-th job is for the `i`-th endpoint that has a key, carries that key, and is numbered `i` more than the count the loop started from |
| `Generation.UnlimitedRequest` | Program.cs:101 | a request of -1 writes a file for every endpoint that has a key |
| `Generation.GeneratedNamesDistinct` | Program.cs:129-136 | with a format `<pre>{n}<post>`, no two generated files share a name, so none overwrites another |
| `Generation.Run` | Program.cs:5-149 | the exit code is 1, with nothing written, exactly when the private key is empty or no endpoint passes the filters. Otherwise it is 0 and the files are those the loop writes for the selected, possibly sorted, endpoints |

## Left out

- Reading the environment is left out. `Run` takes the settings as values after the defaults of lines 29-42 are applied, and it takes the location and group settings as optional strings. The parsing by `bool.TryParse` and `int.TryParse` is not modelled.
- Fetching the directory through the API client (line 63) is left out. The directory is a parameter of `Run`, so a fetch failure is not modelled.
- Console output is not modelled.
- Creating the destination directory is not modelled, and neither is writing files. `Path.Combine` is also left out (lines 96, 135-136). The model returns the file names and contents that would be written.
- The country enumeration belongs to the API client library, which is not part of this model. `Domain.CountryId` lists a representative set of its members.
- `LocationParsing.ParseCountryMatches` does not cover the numeric and comma-separated forms that `Enum.TryParse` also accepts, such as "5".
- Case-insensitive matching folds ASCII letters only. The .NET comparison also folds non-ASCII letters.
- `int.ToString()` is modelled with invariant-culture digits. Culture-specific negative signs are not modelled.
- Null values are not modelled, except for a metadata value. That covers a null location country (line 131 prints "unknown" for it) and null technology, group or location lists. Those would crash the lazy LINQ chain.
- `Rendering.Content` is the template's lines joined with LF, the line ending of the source file. A CRLF checkout would write CRLF.
- `LocationParsing.ParseLocations`: its contract ties the result to `RecognisedCountries`. Membership and order are stated in the two lemmas about that function, not in the method's own `ensures`.
