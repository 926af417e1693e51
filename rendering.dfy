/** What one generated file holds (Program.cs, lines 105-133): the peer's
    public key, the configuration text, and the file name. */
module Rendering {
  import opened Linq
  import opened Text
  import opened Domain

  /** The settings that end up in every file, already read from the
      environment (lines 5, 31, 36-42). */
  datatype RenderSettings = RenderSettings(
    privateKey: string,
    interfaceAddress: string,
    interfaceDns: string,
    disableRoutes: bool,
    allowedIps: string,
    keepAlive: int,
    fileNameFormat: string)

  datatype ConfigFile = ConfigFile(name: string, content: string)

  // ---------------------------------------------------------------------
  // Lines 105-106: the public key.

  predicate IsWireguardTechnology(t: Technology) {
    t.id == Wireguard
  }

  predicate IsPublicKeyEntry(m: MetadataEntry) {
    m.name == "public_key"
  }

  /** `i` is the first position of `s` whose element satisfies `p`. */
  predicate FirstAt<T>(s: seq<T>, p: T -> bool, i: int) {
    0 <= i < |s| && p(s[i]) && forall j :: 0 <= j < i ==> !p(s[j])
  }

  /** Technology `i` is the endpoint's first WireGuard technology, entry `j`
      is that technology's first "public_key" entry, and its value is `k`. */
  predicate KeyAt(e: Endpoint, i: int, j: int, k: string) {
    && FirstAt(e.technologies, IsWireguardTechnology, i)
    && FirstAt(e.technologies[i].metadata, IsPublicKeyEntry, j)
    && e.technologies[i].metadata[j].value == Some(k)
  }

  lemma FirstWhereAt<T>(s: seq<T>, p: T -> bool, i: int)
    requires FirstAt(s, p, i)
    ensures FirstWhere(s, p) == Some(s[i])
  {}

  /** The value of the first "public_key" entry of the first WireGuard
      technology, when that technology, that entry and a non-empty value all
      exist; `None` is the `string.IsNullOrEmpty` case of line 108. */
  function PublicKey(e: Endpoint): Option<string> {
    match FirstWhere(e.technologies, IsWireguardTechnology)
    case None => None
    case Some(t) =>
      match FirstWhere(t.metadata, IsPublicKeyEntry)
      case None => None
      case Some(m) => if m.value == Some([]) then None else m.value
  }

  /** The key is `k` exactly when `k` is non-empty and is the value of the
      first "public_key" entry of the first WireGuard technology. */
  lemma PublicKeyIsFirstKey(e: Endpoint)
    ensures forall k :: PublicKey(e) == Some(k) <==> k != [] && exists i, j :: KeyAt(e, i, j, k)
  {
    var techs := e.technologies;
    var i := FirstIndex(techs, IsWireguardTechnology);
    if i < |techs| {
      var t := techs[i];
      var j := FirstIndex(t.metadata, IsPublicKeyEntry);
      assert forall k, i', j' :: KeyAt(e, i', j', k) ==> i' == i && j' == j;
      if j < |t.metadata| {
        assert forall k :: t.metadata[j].value == Some(k) ==> KeyAt(e, i, j, k);
      }
    }
  }

  /** An endpoint without a WireGuard technology has no key. */
  lemma NoWireguardNoKey(e: Endpoint)
    requires forall i :: 0 <= i < |e.technologies| ==> e.technologies[i].id != Wireguard
    ensures PublicKey(e) == None
  {
    PublicKeyIsFirstKey(e);
  }

  /** Only the first WireGuard technology is consulted: a key on a later one
      is never found. */
  lemma OnlyFirstWireguardConsulted(e: Endpoint, key: string)
    requires key != []
    requires e.technologies == [
      Technology(Wireguard, Online, []),
      Technology(Wireguard, Online, [MetadataEntry("public_key", Some(key))])]
    ensures PublicKey(e) == None
  {
    assert IsWireguardTechnology(e.technologies[0]);
  }

  // ---------------------------------------------------------------------
  // Lines 114-127: the configuration text.

  /** The lines of the interpolated template: it opens with a line break,
      ends with one, and uses LF line endings. */
  function ContentLines(settings: RenderSettings, publicKey: string, hostname: string): seq<string> {
    [ "",
      "[Interface]",
      "PrivateKey = " + settings.privateKey,
      "ListenPort = 51820",
      "Address = " + settings.interfaceAddress,
      "DNS = " + settings.interfaceDns,
      "Table = " + (if settings.disableRoutes then "off" else "on"),
      "",
      "[Peer]",
      "PublicKey = " + publicKey,
      "AllowedIPs = " + settings.allowedIps,
      "Endpoint = " + hostname + ":51820",
      "PersistentKeepalive = " + IntToString(settings.keepAlive),
      "" ]
  }

  /** The text written to the file: the template's lines, joined by LF. */
  function Content(settings: RenderSettings, publicKey: string, hostname: string): string {
    Join(ContentLines(settings, publicKey, hostname), '\n')
  }

  /** No value that ends up in the text holds a line break. */
  predicate SingleLineValues(settings: RenderSettings, publicKey: string, hostname: string) {
    && '\n' !in settings.privateKey
    && '\n' !in settings.interfaceAddress
    && '\n' !in settings.interfaceDns
    && '\n' !in settings.allowedIps
    && '\n' !in publicKey
    && '\n' !in hostname
  }

  /** Splitting the text at line breaks gives back the template's lines. */
  lemma ContentSplitsIntoLines(settings: RenderSettings, publicKey: string, hostname: string)
    requires SingleLineValues(settings, publicKey, hostname)
    ensures Split(Content(settings, publicKey, hostname), '\n') == ContentLines(settings, publicKey, hostname)
  {
    IntToStringOmits(settings.keepAlive, '\n');
    ContentLinesSingle(settings, publicKey, hostname);
    SplitJoin(ContentLines(settings, publicKey, hostname), '\n');
  }

  lemma ContentLinesSingle(settings: RenderSettings, publicKey: string, hostname: string)
    requires SingleLineValues(settings, publicKey, hostname)
    requires '\n' !in IntToString(settings.keepAlive)
    ensures forall i :: 0 <= i < |ContentLines(settings, publicKey, hostname)| ==>
      '\n' !in ContentLines(settings, publicKey, hostname)[i]
  {}

  lemma StripPrefix(p: string, x: string, y: string)
    requires p + x == p + y
    ensures x == y
  {
    assert x == (p + x)[|p|..];
    assert y == (p + y)[|p|..];
  }

  /** Under single-line values the text determines every value written into
      it: two files with the same text carry the same key, peer address and
      interface settings. */
  lemma ContentDeterminesValues(s1: RenderSettings, k1: string, h1: string,
                                s2: RenderSettings, k2: string, h2: string)
    requires SingleLineValues(s1, k1, h1) && SingleLineValues(s2, k2, h2)
    requires Content(s1, k1, h1) == Content(s2, k2, h2)
    ensures s1.privateKey == s2.privateKey
    ensures s1.interfaceAddress == s2.interfaceAddress
    ensures s1.interfaceDns == s2.interfaceDns
    ensures s1.disableRoutes == s2.disableRoutes
    ensures s1.allowedIps == s2.allowedIps
    ensures s1.keepAlive == s2.keepAlive
    ensures k1 == k2 && h1 == h2
  {
    ContentSplitsIntoLines(s1, k1, h1);
    ContentSplitsIntoLines(s2, k2, h2);
    var l1, l2 := ContentLines(s1, k1, h1), ContentLines(s2, k2, h2);
    assert l1 == l2;
    StripPrefix("PrivateKey = ", s1.privateKey, s2.privateKey);
    StripPrefix("Address = ", s1.interfaceAddress, s2.interfaceAddress);
    StripPrefix("DNS = ", s1.interfaceDns, s2.interfaceDns);
    StripPrefix("AllowedIPs = ", s1.allowedIps, s2.allowedIps);
    StripPrefix("PublicKey = ", k1, k2);
    StripPrefix("PersistentKeepalive = ", IntToString(s1.keepAlive), IntToString(s2.keepAlive));
    IntToStringInjective(s1.keepAlive, s2.keepAlive);
    assert |l1[6]| == |l2[6]|;
    assert ("Endpoint = " + h1 + ":51820")[11..|h1| + 11] == h1;
    assert ("Endpoint = " + h2 + ":51820")[11..|h2| + 11] == h2;
  }

  // ---------------------------------------------------------------------
  // Lines 128-133: the file name.

  /** Line 128: the host name with the provider's domain removed. */
  function EndpointId(hostname: string): string {
    Replace(hostname, ".nordvpn.com", "")
  }

  /** A host name of the form `<id>.nordvpn.com`, with no dot in `<id>`,
      yields `<id>`. */
  lemma EndpointIdOfHost(id: string)
    requires '.' !in id
    ensures EndpointId(id + ".nordvpn.com") == id
  {
    var pat := ".nordvpn.com";
    var h := id + pat;
    OccurrenceLead(h, pat);
    assert h[|id|..|id| + |pat|] == pat;
    forall j | 0 <= j < |id| ensures !OccursAt(h, pat, j) {
      assert h[j] == id[j];
    }
    ReplaceFirstOccurrence(h, pat, "", |id|);
    assert h[..|id|] == id;
    assert h[|id| + |pat|..] == [];
  }

  /** Line 131: the name of the first location's country, or "unknown" for
      an endpoint without locations. */
  function CountryText(e: Endpoint): string {
    if e.locations == [] then "unknown" else CountryName(e.locations[0].country.id)
  }

  /** Lines 130-133: each placeholder with its replacement, in the order
      the replacements are made. */
  function Placeholders(n: int, e: Endpoint): seq<(string, string)> {
    [ ("{n}", IntToString(n)),
      ("{country}", CountryText(e)),
      ("{endpointId}", EndpointId(e.hostname)),
      ("{load}", IntToString(e.load)) ]
  }

  /** Lines 129-133: the placeholders replaced one after the other, each
      replacement scanning the previous one's output. */
  function FileName(format: string, n: int, e: Endpoint): string {
    ReplaceChain(format, Placeholders(n, e))
  }

  /** A format without any '{' is used verbatim, so every file gets the same
      name. */
  lemma FileNameWithoutPlaceholders(format: string, n: int, e: Endpoint)
    requires '{' !in format
    ensures FileName(format, n, e) == format
  {
    ReplaceChainAbsentLeads(format, Placeholders(n, e));
  }

  /** A format `<pre>{n}<post>` with no other '{' names the file after the
      counter alone. */
  lemma NumberedFileName(pre: string, post: string, n: int, e: Endpoint)
    requires '{' !in pre && '{' !in post
    ensures FileName(pre + "{n}" + post, n, e) == pre + IntToString(n) + post
  {
    var t := IntToString(n);
    ReplaceLoneLead(pre, "{n}", post, t);
    assert forall c :: c in t ==> IsDigit(c) || c == '-';
    ReplaceChainAbsentLeads(pre + t + post, Placeholders(n, e)[1..]);
  }

  /** No placeholder's value brings in a '{' of its own, except a host name
      that holds one. */
  lemma PlaceholderValuesPlain(n: int, e: Endpoint)
    ensures '{' !in IntToString(n) && '{' !in IntToString(e.load) && '{' !in CountryText(e)
    ensures '{' !in e.hostname ==> '{' !in EndpointId(e.hostname)
  {
    IntToStringOmits(n, '{');
    IntToStringOmits(e.load, '{');
    if e.locations != [] {
      CountryNameHasNoBrace(e.locations[0].country.id);
    }
    if '{' !in e.hostname {
      ReplaceKeepsAbsent(e.hostname, ".nordvpn.com", "", '{');
    }
  }

  /** The placeholders all open with '{' and differ in their second
      character. */
  lemma PlaceholdersDistinct(n: int, e: Endpoint)
    ensures DistinctLeads(Placeholders(n, e), '{')
  {}

  /** A format whose only '{' opens placeholder `k` is that placeholder's
      value between the text around it. */
  lemma SinglePlaceholderFileName(pre: string, post: string, n: int, e: Endpoint, k: int)
    requires 0 <= k < 4 && '{' !in pre && '{' !in post && '{' !in Placeholders(n, e)[k].1
    ensures FileName(pre + Placeholders(n, e)[k].0 + post, n, e) == pre + Placeholders(n, e)[k].1 + post
  {
    PlaceholdersDistinct(n, e);
    ReplaceChainSingle(pre, post, Placeholders(n, e), k, '{');
  }

  /** A format `<pre>{country}<post>` with no other '{' names the file after
      the endpoint's first country. */
  lemma CountryFileName(pre: string, post: string, n: int, e: Endpoint)
    requires '{' !in pre && '{' !in post
    ensures FileName(pre + "{country}" + post, n, e) == pre + CountryText(e) + post
    ensures e.locations != [] ==>
      FileName(pre + "{country}" + post, n, e) == pre + CountryName(e.locations[0].country.id) + post
  {
    PlaceholderValuesPlain(n, e);
    SinglePlaceholderFileName(pre, post, n, e, 1);
  }

  /** An endpoint without locations fills `{country}` with "unknown". */
  lemma UnknownCountryFileName(pre: string, post: string, n: int, e: Endpoint)
    requires '{' !in pre && '{' !in post && e.locations == []
    ensures FileName(pre + "{country}" + post, n, e) == pre + "unknown" + post
  {
    CountryFileName(pre, post, n, e);
  }

  /** A format `<pre>{endpointId}<post>` with no other '{' names the file
      after the host name `<id>.nordvpn.com` without its domain. */
  lemma HostFileName(pre: string, post: string, n: int, e: Endpoint, id: string)
    requires '{' !in pre && '{' !in post
    requires e.hostname == id + ".nordvpn.com" && '.' !in id && '{' !in id
    ensures FileName(pre + "{endpointId}" + post, n, e) == pre + id + post
  {
    EndpointIdOfHost(id);
    SinglePlaceholderFileName(pre, post, n, e, 2);
  }

  /** A format `<pre>{load}<post>` with no other '{' names the file after the
      endpoint's load. */
  lemma LoadFileName(pre: string, post: string, n: int, e: Endpoint)
    requires '{' !in pre && '{' !in post
    ensures FileName(pre + "{load}" + post, n, e) == pre + IntToString(e.load) + post
  {
    PlaceholderValuesPlain(n, e);
    SinglePlaceholderFileName(pre, post, n, e, 3);
  }

  /** A format `<pre>{n}<mid>{country}<post>` with no other '{' gets the
      counter and the country, each in its place. */
  lemma NumberedCountryFileName(pre: string, mid: string, post: string, n: int, e: Endpoint)
    requires '{' !in pre && '{' !in mid && '{' !in post
    ensures FileName(pre + "{n}" + mid + "{country}" + post, n, e)
      == pre + IntToString(n) + mid + CountryText(e) + post
  {
    PlaceholderValuesPlain(n, e);
    PlaceholdersDistinct(n, e);
    ReplaceChainFirstTwo(pre, mid, post, Placeholders(n, e), '{');
  }

  /** "wg{n}-{country}.conf" for the third file, of a Canadian endpoint. */
  lemma CountryFileNameExample(e: Endpoint)
    requires e.locations != [] && e.locations[0].country.id == Canada
    ensures FileName("wg{n}-{country}.conf", 2, e) == "wg2-Canada.conf"
  {
    ExampleFormatPieces();
    NumberedCountryFileName("wg", "-", ".conf", 2, e);
    SingleDigitText(2);
  }

  /** The example's format and name, cut at the placeholders. */
  lemma ExampleFormatPieces()
    ensures "wg" + "{n}" + "-" + "{country}" + ".conf" == "wg{n}-{country}.conf"
    ensures "wg" + [DigitChar(2)] + "-" + CountryName(Canada) + ".conf" == "wg2-Canada.conf"
  {}

  /** The default format "wg{n}.conf". */
  lemma DefaultFileName(n: int, e: Endpoint)
    ensures FileName("wg{n}.conf", n, e) == "wg" + IntToString(n) + ".conf"
  {
    NumberedFileName("wg", ".conf", n, e);
    assert "wg" + "{n}" + ".conf" == "wg{n}.conf";
  }

  /** With such a format, distinct counters give distinct names, whatever
      the endpoints. */
  lemma NumberedFileNamesDistinct(pre: string, post: string, n1: int, e1: Endpoint, n2: int, e2: Endpoint)
    requires '{' !in pre && '{' !in post
    ensures FileName(pre + "{n}" + post, n1, e1) == FileName(pre + "{n}" + post, n2, e2) ==> n1 == n2
  {
    NumberedFileName(pre, post, n1, e1);
    NumberedFileName(pre, post, n2, e2);
    var t1, t2 := IntToString(n1), IntToString(n2);
    if pre + t1 + post == pre + t2 + post {
      assert |t1| == |t2|;
      assert t1 == (pre + t1 + post)[|pre|..|pre| + |t1|];
      assert t2 == (pre + t2 + post)[|pre|..|pre| + |t2|];
      IntToStringInjective(n1, n2);
    }
  }

  /** Line 136 of one loop pass: the file for endpoint `e`, holding `key`,
      as the `n`-th generated file. */
  function Render(e: Endpoint, key: string, n: int, settings: RenderSettings): ConfigFile {
    ConfigFile(FileName(settings.fileNameFormat, n, e), Content(settings, key, e.hostname))
  }
}
