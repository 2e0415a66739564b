/**
 The text of the URLs keys are asked for with: which OWIDs a URL is made for, and
 that the end point and the minute read back from one are those it was made of.
 */
module Requests {
  import opened Common
  import opened Base64
  import opened Endpoints
  import opened KeyStore
  import opened Wire

  /** The characters a domain name needs. */
  predicate NamesHost(c: char) {
    'a' <= c <= 'z' || 'A' <= c <= 'Z' || '0' <= c <= '9' || c == '.' || c == '-'
  }

  predicate UsableDomain(domain: string) {
    domain != "" && forall i :: 0 <= i < |domain| ==> NamesHost(domain[i])
  }

  method CheckDomain(domain: string) returns (ok: bool)
    ensures ok == UsableDomain(domain)
  {
    if domain == "" { return false; }
    var i := 0;
    while i < |domain|
      invariant 0 <= i <= |domain|
      invariant forall j :: 0 <= j < i ==> NamesHost(domain[j])
    {
      if !NamesHost(domain[i]) { return false; }
      i := i + 1;
    }
    return true;
  }

  function Lower(c: char): char {
    if 'A' <= c <= 'Z' then (c as int + 32) as char else c
  }

  function Lowered(s: string): (lowered: string)
    ensures |lowered| == |s| && forall i :: 0 <= i < |s| ==> lowered[i] == Lower(s[i])
  {
    seq(|s|, i requires 0 <= i < |s| => Lower(s[i]))
  }

  predicate AcceptedScheme(scheme: string) {
    var name := Lowered(StripRight(StripLeft(scheme)));
    name == "http" || name == "https"
  }

  function KeyPath(version: Version): string {
    "/owid/api/v" + [DigitOf(version.AsByte())] + "/public-key"
  }

  function HostText(domain: string, version: Version): string {
    "//" + domain + KeyPath(version)
  }

  function EndPointText(scheme: string, domain: string, version: Version): EndPoint {
    scheme + ":" + HostText(domain, version)
  }

  /** The end point asked about an OWID, or nothing where no URL is made for it. */
  function KeyEndPoint(scheme: string, owid: Owid): Option<EndPoint> {
    if AcceptedScheme(scheme) && UsableDomain(owid.domain)
    then Some(EndPointText(scheme, owid.domain, owid.version)) else None
  }

  // --------------------------------------------------------------- the date

  function DigitOf(n: nat): char
    requires n < 10
  {
    ('0' as int + n) as char
  }

  predicate IsDigit(c: char) {
    '0' <= c <= '9'
  }

  function Decimal(n: nat): (text: string)
    ensures text != "" && forall i :: 0 <= i < |text| ==> IsDigit(text[i])
  {
    if n < 10 then [DigitOf(n)] else Decimal(n / 10) + [DigitOf(n % 10)]
  }

  /** The number a text of digits stands for. */
  function ReadDecimal(text: string): Option<nat> {
    if text == "" || !IsDigit(text[|text| - 1]) then None
    else
      var digit, rest := text[|text| - 1] as int - '0' as int, text[..|text| - 1];
      if rest == "" then Some(digit)
      else if ReadDecimal(rest).None? then None
      else Some(10 * ReadDecimal(rest).value + digit)
  }

  lemma {:induction false} DecimalReadsBack(n: nat)
    ensures ReadDecimal(Decimal(n)) == Some(n)
  {
    if n >= 10 {
      DecimalReadsBack(n / 10);
      assert Decimal(n)[..|Decimal(n)| - 1] == Decimal(n / 10);
    } else {
      assert [DigitOf(n)][..0] == "";
    }
  }

  // ---------------------------------------------------------------- the text

  function UrlText(url: Url): string {
    url.endPoint + "?" + Query(url.date)
  }

  function Query(date: Option<Minute>): string {
    if date.Some? then "date" + "=" + Decimal(date.value) + "&" + ("format" + "=" + SPKI)
    else "format" + "=" + SPKI
  }

  /** The text in front of the first mark, or all of it where there is none. */
  function Before(text: string, mark: char): string {
    if text == "" || text[0] == mark then "" else [text[0]] + Before(text[1..], mark)
  }

  /** The text behind the first mark, or nothing where there is none. */
  function After(text: string, mark: char): (rest: string)
    ensures text != "" ==> |rest| < |text|
  {
    if text == "" then "" else if text[0] == mark then text[1..] else After(text[1..], mark)
  }

  /** The first value of the name among the pairs of a query, blank ones apart. */
  function ValueOf(query: string, name: string): Option<string>
    decreases |query|
  {
    if query == "" then None
    else
      var pair := Before(query, '&');
      if Before(pair, '=') == name && After(pair, '=') != "" then Some(After(pair, '='))
      else ValueOf(After(query, '&'), name)
  }

  function EndPointOf(text: string): EndPoint {
    Before(text, '?')
  }

  function MinuteNamed(text: string): Option<int> {
    var value := ValueOf(After(text, '?'), "date");
    if value.None? || ReadDecimal(value.value).None? then None else Some(ReadDecimal(value.value).value)
  }

  lemma {:induction false} SplitAtMark(front: string, mark: char, back: string)
    requires mark !in front
    ensures Before(front + [mark] + back, mark) == front && After(front + [mark] + back, mark) == back
  {
    var text := front + [mark] + back;
    if front == "" {
      assert text == [mark] + back;
    } else {
      SplitAtMark(front[1..], mark, back);
      assert text[1..] == front[1..] + [mark] + back;
    }
  }

  lemma {:induction false} NoMark(text: string, mark: char)
    requires mark !in text
    ensures Before(text, mark) == text && After(text, mark) == ""
  {
    if text != "" { NoMark(text[1..], mark); }
  }

  /** One pair in front of a query: found where the name is its own, or passed over. */
  lemma FirstPair(name: string, value: string, rest: string)
    requires '=' !in name && '&' !in name && '&' !in value && value != ""
    ensures ValueOf(name + "=" + value + "&" + rest, name) == Some(value)
  {
    var pair := name + "=" + value;
    SplitAtMark(pair, '&', rest);
    SplitAtMark(name, '=', value);
  }

  lemma OnlyPair(name: string, value: string, other: string)
    requires '=' !in name && '&' !in name && '&' !in value && other != name
    ensures ValueOf(name + "=" + value, other) == None
  {
    var pair := name + "=" + value;
    NoMark(pair, '&');
    SplitAtMark(name, '=', value);
  }

  /** The end point and the minute read back are the ones the text was made of. */
  lemma UrlReadsBack(url: Url)
    requires '?' !in url.endPoint
    ensures EndPointOf(UrlText(url)) == url.endPoint && MinuteNamed(UrlText(url)) == url.date
  {
    SplitAtMark(url.endPoint, '?', Query(url.date));
    if url.date.Some? {
      DecimalReadsBack(url.date.value);
      FirstPair("date", Decimal(url.date.value), "format" + "=" + SPKI);
    } else {
      OnlyPair("format", SPKI, "date");
    }
  }

  // ----------------------------------------------------- one creator, one end point

  lemma {:induction false} StrippingKeeps(s: string, c: char)
    requires c in s && !IsSpace(c)
    ensures c in StripLeft(s) && c in StripRight(s)
  {
    if IsSpace(s[0]) && c in s[1..] { StrippingKeeps(s[1..], c); }
    var n := |s| - 1;
    if IsSpace(s[n]) && c in s[..n] { StrippingKeeps(s[..n], c); }
  }

  lemma LoweringKeeps(s: string, c: char)
    requires c in s && Lower(c) == c
    ensures c in Lowered(s)
  {
    var i :| 0 <= i < |s| && s[i] == c;
    assert Lowered(s)[i] == c;
  }

  /** An accepted scheme holds none of the marks a URL is taken apart at. */
  lemma SchemeHoldsNoMark(scheme: string, mark: char)
    requires AcceptedScheme(scheme) && (mark == ':' || mark == '?' || mark == '/')
    ensures mark !in scheme
  {
    if mark in scheme {
      StrippingKeeps(scheme, mark);
      StrippingKeeps(StripLeft(scheme), mark);
      LoweringKeeps(StripRight(StripLeft(scheme)), mark);
    }
  }

  /** Nothing in an end point is taken for the start of a query. */
  lemma EndPointHoldsNoQuery(scheme: string, domain: string, version: Version)
    requires AcceptedScheme(scheme) && UsableDomain(domain)
    ensures '?' !in EndPointText(scheme, domain, version)
  {
    SchemeHoldsNoMark(scheme, '?');
  }

  /**
   So for every OWID a URL is made for: with an accepted scheme and a usable domain
   the request is looked up and held under its own end point and minute.
   */
  lemma KeyUrlReadsBack(scheme: string, domain: string, version: Version, date: Option<Minute>)
    requires AcceptedScheme(scheme) && UsableDomain(domain)
    ensures var text := UrlText(Url(EndPointText(scheme, domain, version), date));
      EndPointOf(text) == EndPointText(scheme, domain, version) && MinuteNamed(text) == date
  {
    EndPointHoldsNoQuery(scheme, domain, version);
    UrlReadsBack(Url(EndPointText(scheme, domain, version), date));
  }

  lemma HostReadsBack(domain: string, version: Version)
    requires UsableDomain(domain)
    ensures var text := HostText(domain, version);
      && |text| > 2 && Before(text[2..], '/') == domain
      && |text| > |domain| + 13 && text[|domain| + 13] == DigitOf(version.AsByte())
  {
    var path := KeyPath(version);
    var text := HostText(domain, version);
    assert text[2..] == domain + ['/'] + path[1..];
    SplitAtMark(domain, '/', path[1..]);
    assert text[|domain| + 13] == path[11];
  }

  /**
   Creators do not share end points: the text of one gives back the scheme, the
   domain and the version it was made of, so keys held under it are one creator's.
   */
  lemma EndPointsAreApart(scheme: string, domain: string, version: Version,
                          scheme': string, domain': string, version': Version)
    requires AcceptedScheme(scheme) && UsableDomain(domain)
    requires AcceptedScheme(scheme') && UsableDomain(domain')
    requires EndPointText(scheme, domain, version) == EndPointText(scheme', domain', version')
    ensures scheme == scheme' && domain == domain' && version == version'
  {
    SchemeHoldsNoMark(scheme, ':');
    SchemeHoldsNoMark(scheme', ':');
    SplitAtMark(scheme, ':', HostText(domain, version));
    SplitAtMark(scheme', ':', HostText(domain', version'));
    HostReadsBack(domain, version);
    HostReadsBack(domain', version');
  }

  lemma PathsAre()
    ensures KeyPath(Version1) == "/owid/api/v1/public-key"
    ensures KeyPath(Version2) == "/owid/api/v2/public-key"
    ensures KeyPath(Version3) == "/owid/api/v3/public-key"
  {
  }

  lemma DecimalsAre()
    ensures Decimal(1) == "1" && Decimal(12) == "12" && Decimal(120) == "120"
  {
  }

  lemma QueriesAre()
    ensures Query(None) == "format=spki" && Query(Some(120)) == "date=120&format=spki"
  {
    DecimalsAre();
    assert "format" + "=" + SPKI == "format=spki";
  }

  lemma PartsJoin(a: string, b: string, c: string)
    ensures a + ":" + ("//" + b + c) == a + "://" + b + c
  {
    var mark := "://";
    assert mark == ":" + "//";
  }

  /** The text of such a URL, part by part. */
  lemma KeyUrlIs(scheme: string, domain: string, version: Version, date: Option<Minute>)
    ensures UrlText(Url(EndPointText(scheme, domain, version), date))
            == scheme + "://" + domain + KeyPath(version) + "?" + Query(date)
    ensures KeyPath(Version3) == "/owid/api/v3/public-key"
    ensures Query(None) == "format=spki" && Query(Some(120)) == "date=120&format=spki"
  {
    PartsJoin(scheme, domain, KeyPath(version));
    PathsAre();
    QueriesAre();
  }

  /** The schemes accepted: http and https in any case, with white space around them. */
  lemma SchemesAccepted(scheme: string)
    ensures var s := StripRight(StripLeft(scheme));
      AcceptedScheme(scheme) <==>
        && (|s| == 4 || (|s| == 5 && s[4] in "sS"))
        && s[0] in "hH" && s[1] in "tT" && s[2] in "tT" && s[3] in "pP"
  {
    var s := StripRight(StripLeft(scheme));
    var name := Lowered(s);
    assert |name| == 4 ==> (name == "http" <==> name[0] == 'h' && name[1] == 't' && name[2] == 't' && name[3] == 'p');
    assert |name| == 5 ==>
      (name == "https" <==> name[0] == 'h' && name[1] == 't' && name[2] == 't' && name[3] == 'p' && name[4] == 's');
  }

  /** The characters from the first on, one after another. */
  ghost predicate IsRun(s: string, first: char, count: nat) {
    |s| == count && forall i :: 0 <= i < count ==> s[i] as int == first as int + i
  }

  lemma InRun(s: string, first: char, count: nat, c: char)
    requires IsRun(s, first, count)
    ensures c in s <==> first as int <= c as int < first as int + count
  {
    var i := c as int - first as int;
    if 0 <= i < count { assert s[i] == c; }
  }

  lemma AlphabetsAreRuns()
    ensures IsRun(CAPITALS, 'A', 26) && IsRun(SMALLS, 'a', 26) && IsRun(NUMERALS, '0', 10)
  {
    PartsOfAlphabet(0);
    forall i: nat | i < 26
      ensures CAPITALS[i] == 'A' + i as char && SMALLS[i] == 'a' + i as char
    {
      PartsOfAlphabet(i);
    }
    forall i: nat | i < 10
      ensures NUMERALS[i] == '0' + i as char
    {
      PartsOfAlphabet(i);
    }
  }

  lemma HostCharacters(c: char)
    ensures NamesHost(c) <==> c in CAPITALS || c in SMALLS || c in NUMERALS || c in ".-"
  {
    AlphabetsAreRuns();
    InRun(CAPITALS, 'A', 26, c);
    InRun(SMALLS, 'a', 26, c);
    InRun(NUMERALS, '0', 10, c);
  }

  /** The domains a URL is made for: not empty, of the characters of domain names alone. */
  lemma DomainsAccepted(domain: string)
    ensures UsableDomain(domain) <==>
      domain != "" && forall c <- domain :: c in CAPITALS || c in SMALLS || c in NUMERALS || c in ".-"
  {
    forall c | c in domain
      ensures NamesHost(c) <==> c in CAPITALS || c in SMALLS || c in NUMERALS || c in ".-"
    {
      HostCharacters(c);
    }
    assert (forall i :: 0 <= i < |domain| ==> NamesHost(domain[i])) <==> forall c <- domain :: NamesHost(c);
  }
}
