/** The endpoint directory entries the generator reads, as values. The enums
    `CountryId`, `ProtocolId` and `Status` belong to the API client library;
    only the members the generator distinguishes, and a representative set
    of countries, are spelled out. */
module Domain {
  import opened Linq
  import opened Text

  /** Country identifiers of the API client library (a representative set). */
  datatype CountryId =
    | Albania | Australia | Austria | Belgium | Brazil | Canada | France
    | Germany | Japan | Netherlands | Switzerland | UnitedKingdom | UnitedStates

  /** Every member of `CountryId`, in declaration order. */
  const AllCountries: seq<CountryId> :=
    [Albania, Australia, Austria, Belgium, Brazil, Canada, France,
     Germany, Japan, Netherlands, Switzerland, UnitedKingdom, UnitedStates]

  /** The member's name, which is what the enum's `ToString()` prints. */
  function CountryName(c: CountryId): string {
    match c
    case Albania => "Albania"
    case Australia => "Australia"
    case Austria => "Austria"
    case Belgium => "Belgium"
    case Brazil => "Brazil"
    case Canada => "Canada"
    case France => "France"
    case Germany => "Germany"
    case Japan => "Japan"
    case Netherlands => "Netherlands"
    case Switzerland => "Switzerland"
    case UnitedKingdom => "UnitedKingdom"
    case UnitedStates => "UnitedStates"
  }

  /** A member name holds no '{', so it cannot open a file-name
      placeholder. */
  lemma CountryNameHasNoBrace(c: CountryId)
    ensures '{' !in CountryName(c)
  {}

  /** No two members' names differ only in case. */
  lemma CountryNamesDistinct(a: CountryId, b: CountryId)
    ensures EqualsIgnoreCase(CountryName(a), CountryName(b)) ==> a == b
  {
    var x, y := CountryName(a), CountryName(b);
    if EqualsIgnoreCase(x, y) {
      EqualsIgnoreCaseAt(x, y);
      assert |x| == |y|;
      assert LowerChar(x[0]) == LowerChar(y[0]);
      assert LowerChar(x[1]) == LowerChar(y[1]);
    }
  }

  /** Tunnel protocols; the generator only ever asks for WireGuard. */
  datatype ProtocolId = Wireguard | OpenVpnUdp | OpenVpnTcp | IkeV2 | Proxy

  /** A technology's status on one endpoint (the `Pivot.Status` field). */
  datatype Status = Online | Offline | Maintenance

  /** One key/value entry of a technology's metadata; the value may be null. */
  datatype MetadataEntry = MetadataEntry(name: string, value: Option<string>)

  datatype Technology = Technology(id: ProtocolId, status: Status, metadata: seq<MetadataEntry>)

  datatype Group = Group(title: string)

  datatype Service = Service(name: string)

  datatype Country = Country(id: CountryId, name: string)

  datatype Location = Location(country: Country)

  /** A server of the directory. */
  datatype Endpoint = Endpoint(
    name: string,
    hostname: string,
    load: int,
    technologies: seq<Technology>,
    groups: seq<Group>,
    services: seq<Service>,
    locations: seq<Location>)
}
