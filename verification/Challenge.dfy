// The WWW-Authenticate challenge (section 4.1 of RFC 7235) and the readers it must satisfy:
// the legacy SDK parser, which splits on spaces, and the domain checks of the SDKs.
module Challenge {
  import opened Wrappers
  import opened Text
  import opened Decimal

  // ---- printing ----

  predicate IsOctet(s: string) {
    && s != ""
    && (s[0] == '0' ==> |s| == 1)
    && Digits(s).Some? && Digits(s).value <= 255
  }

  /** net.ParseIP succeeds. The hosts asked about hold no colon, so only IPv4 can. */
  predicate IsIP(host: string) {
    var parts := Split(host, '.');
    |parts| == 4 && forall i :: 0 <= i < 4 ==> IsOctet(parts[i])
  }

  function Dotted(a: nat, b: nat, c: nat, d: nat): string {
    Numeral(a) + ['.'] + (Numeral(b) + ['.'] + (Numeral(c) + ['.'] + Numeral(d)))
  }

  lemma OctetIsNumeral(s: string)
    ensures IsOctet(s) <==> exists n: nat :: n <= 255 && s == Numeral(n)
  {
    if IsOctet(s) {
      NumeralOfDigits(s);
    }
    forall n: nat | n <= 255 && s == Numeral(n) ensures IsOctet(s) {
      DigitsOfNumeral(n);
      NoLeadingZero(n);
      assert n == 0 ==> Numeral(n) == "0";
    }
  }

  lemma DottedSplit(a: nat, b: nat, c: nat, d: nat)
    ensures Split(Dotted(a, b, c, d), '.') == [Numeral(a)] + ([Numeral(b)] + ([Numeral(c)] + [Numeral(d)]))
  {
    forall n: nat ensures '.' !in Numeral(n) {}
    FourParts(Numeral(a), Numeral(b), Numeral(c), Numeral(d));
  }

  lemma FourParts(a: string, b: string, c: string, d: string)
    requires '.' !in a && '.' !in b && '.' !in c && '.' !in d
    ensures Split(a + ['.'] + (b + ['.'] + (c + ['.'] + d)), '.') == [a] + ([b] + ([c] + [d]))
  {
    var from3 := c + ['.'] + d;
    SplitFirst(a, '.', b + ['.'] + from3);
    SplitFirst(b, '.', from3);
    LastTwo(c, d);
  }

  lemma LastTwo(c: string, d: string)
    requires '.' !in c && '.' !in d
    ensures Split(c + ['.'] + d, '.') == [c] + [d]
  {
    SplitFirst(c, '.', d);
    SplitWhole(d, '.');
  }

  lemma FourJoined(parts: seq<string>)
    requires |parts| == 4
    ensures Join(parts, ".") == parts[0] + ['.'] + (parts[1] + ['.'] + (parts[2] + ['.'] + parts[3]))
  {
    var two, three := [parts[2]] + [parts[3]], [parts[1]] + ([parts[2]] + [parts[3]]);
    assert parts == [parts[0]] + three;
    JoinFirst(parts[0], three, ".");
    JoinFirst(parts[1], two, ".");
    JoinFirst(parts[2], [parts[3]], ".");
  }

  /** An IP address is four printed numbers up to 255 joined by dots, and nothing else is. */
  lemma IsDotted(host: string)
    ensures IsIP(host) <==>
            exists a: nat, b: nat, c: nat, d: nat :: a <= 255 && b <= 255 && c <= 255 && d <= 255 && host == Dotted(a, b, c, d)
  {
    if IsIP(host) {
      var parts := Split(host, '.');
      forall i | 0 <= i < 4 ensures exists n: nat :: n <= 255 && parts[i] == Numeral(n) { OctetIsNumeral(parts[i]); }
      var a: nat :| a <= 255 && parts[0] == Numeral(a);
      var b: nat :| b <= 255 && parts[1] == Numeral(b);
      var c: nat :| c <= 255 && parts[2] == Numeral(c);
      var d: nat :| d <= 255 && parts[3] == Numeral(d);
      JoinSplit(host, '.');
      FourJoined(parts);
      assert host == Dotted(a, b, c, d);
    }
    forall a: nat, b: nat, c: nat, d: nat | a <= 255 && b <= 255 && c <= 255 && d <= 255 && host == Dotted(a, b, c, d)
      ensures IsIP(host)
    {
      DottedSplit(a, b, c, d);
      OctetIsNumeral(Numeral(a));
      OctetIsNumeral(Numeral(b));
      OctetIsNumeral(Numeral(c));
      OctetIsNumeral(Numeral(d));
    }
  }

  function ParentDomain(vaultHost: string): string {
    var host := Before(vaultHost, ':');
    var parts := Split(host, '.');
    if IsIP(host) || |parts| <= 2 then host else Join(parts[1..], ".")
  }

  function ChallengeResource(vaultHost: string): string {
    if ':' in vaultHost then ParentDomain(vaultHost) + ":" + After(vaultHost, ':') else ParentDomain(vaultHost)
  }

  function Authority(vaultHost: string, tenant: string): string {
    "https://" + vaultHost + "/" + tenant
  }

  function Resource(vaultHost: string): string {
    "https://" + ChallengeResource(vaultHost)
  }

  function BuildChallenge(vaultHost: string, tenant: string): string {
    "Bearer authorization=\"" + Authority(vaultHost, tenant) + "\", resource=\"" + Resource(vaultHost) + "\""
  }

  // ---- the legacy parser ----

  // unicode.IsSpace
  predicate IsSpace(c: char) {
    || '\t' <= c <= '\r'
    || c in {' ', '\U{85}', '\U{a0}', '\U{1680}', '\U{2028}', '\U{2029}', '\U{202f}', '\U{205f}', '\U{3000}'}
    || '\U{2000}' <= c <= '\U{200a}'
  }

  /** The characters a trim removes. */
  datatype Cut = Spaces | Commas | Quotes | QuotesAndCommas
  {
    predicate Has(c: char) {
      match this
      case Spaces => IsSpace(c)
      case Commas => c == ','
      case Quotes => c == '"'
      case QuotesAndCommas => c == '"' || c == ','
    }
  }

  function TrimRight(s: string, cut: Cut): (r: string)
    ensures r <= s
    ensures r != "" ==> !cut.Has(r[|r| - 1])
  {
    if s != "" && cut.Has(s[|s| - 1]) then TrimRight(s[..|s| - 1], cut) else s
  }

  function TrimLeft(s: string, cut: Cut): (r: string)
    ensures forall x :: x in r ==> x in s
  {
    if s != "" && cut.Has(s[0]) then TrimLeft(s[1..], cut) else s
  }

  function Trim(s: string, cut: Cut): string {
    TrimLeft(TrimRight(s, cut), cut)
  }

  /** strings.ReplaceAll(s, pattern, ""). */
  function RemoveAll(s: string, pattern: string): string
    requires pattern != ""
    decreases |s|
  {
    if |s| < |pattern| then s
    else if s[..|pattern|] == pattern then RemoveAll(s[|pattern|..], pattern)
    else [s[0]] + RemoveAll(s[1..], pattern)
  }

  /** One space-separated token: nothing, a pair, or the token without '=' that breaks the SDK. */
  datatype Token = Blank | Pair(key: string, value: string) | Broken

  function ReadPair(pair: string): Token {
    if pair == "" then Blank
    else if '=' !in pair then Broken
    else Pair(Trim(Before(pair, '='), Quotes), Trim(After(pair, '='), QuotesAndCommas))
  }

  function ReadToken(token: string): Token {
    ReadPair(TrimRight(Trim(token, Spaces), Commas))
  }

  /** What the tokens add to `out`; None when one of them is broken. */
  function ReadTokens(tokens: seq<string>, out: map<string, string>): Option<map<string, string>>
    decreases |tokens|
  {
    if tokens == [] then Some(out)
    else match ReadToken(tokens[0])
         case Blank => ReadTokens(tokens[1..], out)
         case Broken => None
         case Pair(k, v) => ReadTokens(tokens[1..], out[k := v])
  }

  function LegacyParse(header: string): Option<map<string, string>> {
    ReadTokens(Split(RemoveAll(RemoveAll(header, "Bearer "), "bearer "), ' '), map[])
  }

  /** legacySdkParse: the loop that fills the map. */
  method LegacySdkParse(header: string) returns (attributes: Option<map<string, string>>)
    ensures attributes == LegacyParse(header)
  {
    var h := RemoveAll(header, "Bearer ");
    h := RemoveAll(h, "bearer ");
    var tokens := Split(h, ' ');
    var out: map<string, string> := map[];
    for i := 0 to |tokens|
      invariant ReadTokens(tokens[i..], out) == LegacyParse(header)
    {
      assert tokens[i..][1..] == tokens[i + 1..];
      match ReadToken(tokens[i])
      case Blank =>
      case Broken => return None;
      case Pair(k, v) => out := out[k := v];
    }
    return Some(out);
  }

  // ---- what the parser reads from a printed challenge ----

  lemma {:induction false} RemoveAllAbsent(s: string, pattern: string)
    requires |pattern| == 7 && pattern[5] == 'r' && pattern[6] == ' '
    requires forall i :: 1 <= i < |s| && s[i] == ' ' ==> s[i - 1] != 'r'
    ensures RemoveAll(s, pattern) == s
  {
    if |s| >= |pattern| {
      assert s[..7][6] == s[6] && s[..7][5] == s[5];
      RemoveAllAbsent(s[1..], pattern);
    }
  }

  function Quoted(value: string): string { "\"" + value + "\"" }

  lemma TrimRightKeepsHead(head: char, value: string)
    requires value != "" && value[0] == 'h'
    ensures TrimRight([head] + value, QuotesAndCommas) == [head] + TrimRight(value, QuotesAndCommas)
    ensures TrimRight(value, QuotesAndCommas) != "" && TrimRight(value, QuotesAndCommas)[0] == 'h'
  {
    var s := [head] + value;
    var last := value[|value| - 1];
    assert s[|s| - 1] == last;
    if last == '"' || last == ',' {
      var shorter := value[..|value| - 1];
      assert s[..|s| - 1] == [head] + shorter;
      TrimRightKeepsHead(head, shorter);
    }
  }

  lemma TrimQuoted(value: string)
    requires value != "" && value[0] == 'h'
    ensures Trim(Quoted(value), QuotesAndCommas) == TrimRight(value, QuotesAndCommas)
  {
    var quoted := Quoted(value);
    assert quoted[..|quoted| - 1] == ['"'] + value;
    assert quoted[|quoted| - 1] == '"';
    TrimRightKeepsHead('"', value);
    var kept := TrimRight(value, QuotesAndCommas);
    assert (['"'] + kept)[1..] == kept;
    assert TrimRight(quoted, QuotesAndCommas) == ['"'] + kept;
    assert TrimLeft(['"'] + kept, QuotesAndCommas) == TrimLeft(kept, QuotesAndCommas) == kept;
  }

  lemma TrimNothing(s: string, cut: Cut)
    requires s != "" && !cut.Has(s[0]) && !cut.Has(s[|s| - 1])
    ensures Trim(s, cut) == s
  {
  }

  lemma ReadQuotedPair(key: string, value: string)
    requires key != "" && '=' !in key && '"' !in key
    requires value != "" && value[0] == 'h'
    ensures ReadPair(key + ['='] + Quoted(value)) == Pair(key, TrimRight(value, QuotesAndCommas))
  {
    var pair := key + ['='] + Quoted(value);
    IndexOfConcat(key, '=', Quoted(value));
    assert pair[|key|] == '=';
    assert Before(pair, '=') == key && After(pair, '=') == Quoted(value);
    assert key[0] in key && key[|key| - 1] in key;
    TrimNothing(key, Quotes);
    TrimQuoted(value);
  }

  // `key="value"` followed by nothing or by one comma.
  lemma QuotedPair(key: string, value: string, tail: string)
    requires key != "" && '=' !in key && '"' !in key && !IsSpace(key[0])
    requires tail == "" || tail == [',']
    requires value != "" && value[0] == 'h'
    ensures ReadToken(key + ['='] + Quoted(value) + tail) == Pair(key, TrimRight(value, QuotesAndCommas))
  {
    var pair := key + ['='] + Quoted(value);
    var token := pair + tail;
    assert pair[|pair| - 1] == '"';
    assert token[0] == key[0];
    assert token[|token| - 1] == '"' || token[|token| - 1] == ',';
    TrimNothing(token, Spaces);
    assert TrimRight(token, Commas) == pair by {
      assert TrimRight(pair, Commas) == pair;
      if tail == [','] {
        assert token[..|token| - 1] == pair;
      } else {
        assert token == pair;
      }
    }
    ReadQuotedPair(key, value);
  }

  function AuthorizationToken(host: string, tenant: string): string {
    "authorization" + ['='] + Quoted(Authority(host, tenant)) + [',']
  }

  function ResourceToken(host: string): string {
    "resource" + ['='] + Quoted(Resource(host)) + ""
  }

  lemma Literals()
    ensures "Bearer authorization=\"" == "Bearer " + ("authorization" + ['='] + "\"")
    ensures "\", resource=\"" == "\"" + [','] + [' '] + ("resource" + ['='] + "\"")
  {
  }

  lemma Reassociate(bearer: string, key: string, authority: string, key': string, resource: string)
    ensures bearer + (key + ['='] + "\"") + authority + ("\"" + [','] + [' '] + (key' + ['='] + "\"")) + resource + "\""
            == bearer + ((key + ['='] + Quoted(authority) + [',']) + [' '] + (key' + ['='] + Quoted(resource) + ""))
  {
  }

  lemma PrintedShape(host: string, tenant: string)
    ensures BuildChallenge(host, tenant) == "Bearer " + (AuthorizationToken(host, tenant) + [' '] + ResourceToken(host))
  {
    Literals();
    Reassociate("Bearer ", "authorization", Authority(host, tenant), "resource", Resource(host));
  }

  lemma RemoveHead(pattern: string, rest: string)
    requires pattern != ""
    ensures RemoveAll(pattern + rest, pattern) == RemoveAll(rest, pattern)
  {
  }

  lemma TokensFound(first: string, second: string)
    requires ' ' !in first && ' ' !in second && first != "" && first[|first| - 1] == ','
    ensures LegacyParse("Bearer " + (first + [' '] + second)) == ReadTokens([first, second], map[])
  {
    var rest := first + [' '] + second;
    var bearer, lower := "Bearer ", "bearer ";
    RemoveHead(bearer, rest);
    OneSpace(first, second);
    RemoveAllAbsent(rest, bearer);
    RemoveAllAbsent(rest, lower);
    SplitFirst(first, ' ', second);
    SplitWhole(second, ' ');
  }

  lemma AuthorizationRead(host: string, tenant: string)
    ensures ReadToken(AuthorizationToken(host, tenant)) ==
            Pair("authorization", TrimRight(Authority(host, tenant), QuotesAndCommas))
  {
    QuotedPair("authorization", Authority(host, tenant), [',']);
  }

  lemma ResourceRead(host: string)
    ensures ReadToken(ResourceToken(host)) == Pair("resource", TrimRight(Resource(host), QuotesAndCommas))
  {
    QuotedPair("resource", Resource(host), "");
  }

  lemma EndsInComma(host: string, tenant: string)
    ensures AuthorizationToken(host, tenant) != "" && AuthorizationToken(host, tenant)[|AuthorizationToken(host, tenant)| - 1] == ','
  {
  }

  /** With no space in host and tenant the parser never fails: it finds exactly the two
      attributes, each less the quotes and commas its value ends in. */
  lemma ParsesWithoutSpaces(host: string, tenant: string)
    requires ' ' !in host && ' ' !in tenant
    ensures LegacyParse(BuildChallenge(host, tenant)) ==
            Some(map["authorization" := TrimRight(Authority(host, tenant), QuotesAndCommas),
                     "resource" := TrimRight(Resource(host), QuotesAndCommas)])
  {
    var first, second := AuthorizationToken(host, tenant), ResourceToken(host);
    PrintedShape(host, tenant);
    TokensHaveNoSpace(host, tenant);
    AuthorizationRead(host, tenant);
    ResourceRead(host);
    EndsInComma(host, tenant);
    TokensFound(first, second);
    ReadTwo(first, second);
  }

  lemma QuotedHasNoSpace(key: string, value: string, tail: string)
    requires ' ' !in key && ' ' !in value && ' ' !in tail
    ensures ' ' !in key + ['='] + Quoted(value) + tail
  {
  }

  lemma TokensHaveNoSpace(host: string, tenant: string)
    requires ' ' !in host && ' ' !in tenant
    ensures ' ' !in AuthorizationToken(host, tenant) && ' ' !in ResourceToken(host)
  {
    ResourceIsSuffix(host);
    SuffixHas(host, ChallengeResource(host), ' ');
    assert ' ' !in Authority(host, tenant);
    QuotedHasNoSpace("authorization", Authority(host, tenant), [',']);
    QuotedHasNoSpace("resource", Resource(host), "");
  }

  lemma OneSpace(first: string, second: string)
    requires ' ' !in first && ' ' !in second && first != "" && first[|first| - 1] == ','
    ensures var rest := first + [' '] + second; forall i :: 1 <= i < |rest| && rest[i] == ' ' ==> rest[i - 1] != 'r'
  {
  }

  lemma ReadTwo(first: string, second: string)
    requires ReadToken(first).Pair? && ReadToken(second).Pair?
    ensures ReadTokens([first, second], map[]) ==
            Some(map[][ReadToken(first).key := ReadToken(first).value][ReadToken(second).key := ReadToken(second).value])
  {
    var f, g := ReadToken(first), ReadToken(second);
    assert [first, second][1..] == [second];
    assert ReadTokens([], map[][f.key := f.value][g.key := g.value]).Some?;
    assert ReadTokens([second], map[][f.key := f.value]) == ReadTokens([], map[][f.key := f.value][g.key := g.value]);
  }

  lemma ReadTokenHasNoSpace(token: string)
    requires ' ' !in token
    ensures ReadToken(token).Pair? ==> ' ' !in ReadToken(token).value
  {
    var pair := TrimRight(Trim(token, Spaces), Commas);
    assert forall x :: x in pair ==> x in token by {
      var t := TrimRight(token, Spaces);
      assert forall x :: x in t ==> x in token;
      assert forall x :: x in pair ==> x in Trim(token, Spaces);
    }
    if '=' in pair {
      var after := After(pair, '=');
      assert forall x :: x in after ==> x in pair;
      assert forall x :: x in TrimRight(after, QuotesAndCommas) ==> x in after;
    }
  }

  lemma {:induction false} ReadValuesHaveNoSpace(tokens: seq<string>, out: map<string, string>)
    requires forall i :: 0 <= i < |tokens| ==> ' ' !in tokens[i]
    requires forall k :: k in out ==> ' ' !in out[k]
    ensures var r := ReadTokens(tokens, out); r.Some? ==> forall k :: k in r.value ==> ' ' !in r.value[k]
    decreases |tokens|
  {
    if tokens != [] {
      ReadTokenHasNoSpace(tokens[0]);
      var t := ReadToken(tokens[0]);
      if t.Blank? {
        ReadValuesHaveNoSpace(tokens[1..], out);
      } else if t.Pair? {
        ReadValuesHaveNoSpace(tokens[1..], out[t.key := t.value]);
      }
    }
  }

  predicate EndsClean(s: string) {
    s != "" ==> !QuotesAndCommas.Has(s[|s| - 1])
  }

  lemma AuthorityHasSpace(host: string, tenant: string)
    requires ' ' in host || ' ' in tenant
    ensures ' ' in Authority(host, tenant)
  {
  }

  lemma ParsedValuesHaveNoSpace(header: string)
    ensures var r := LegacyParse(header); r.Some? ==> forall k :: k in r.value ==> ' ' !in r.value[k]
  {
    ReadValuesHaveNoSpace(Split(RemoveAll(RemoveAll(header, "Bearer "), "bearer "), ' '), map[]);
  }

  lemma CleanUnchanged(host: string, tenant: string)
    ensures TrimRight(Authority(host, tenant), QuotesAndCommas) == Authority(host, tenant) <==> EndsClean(tenant)
    ensures TrimRight(Resource(host), QuotesAndCommas) == Resource(host) <==> EndsClean(host)
  {
    ResourceIsSuffix(host);
    var authority, resource := Authority(host, tenant), Resource(host);
    assert authority[|authority| - 1] == if tenant == "" then '/' else tenant[|tenant| - 1];
    assert resource[|resource| - 1] == if host == "" then '/' else host[|host| - 1];
  }

  lemma SamePair(a: string, b: string, a': string, b': string)
    ensures map["authorization" := a, "resource" := b] == map["authorization" := a', "resource" := b'] <==> a == a' && b == b'
  {
    var m, m' := map["authorization" := a, "resource" := b], map["authorization" := a', "resource" := b'];
    assert m["authorization"] == a && m'["authorization"] == a' && m["resource"] == b && m'["resource"] == b';
  }

  /** The parser returns exactly the printed authority and resource if and only if host and
      tenant hold no space and neither ends in a quote or a comma. */
  lemma LegacyParserAgrees(host: string, tenant: string)
    ensures LegacyParse(BuildChallenge(host, tenant)) ==
            Some(map["authorization" := "https://" + host + "/" + tenant, "resource" := "https://" + ChallengeResource(host)])
            <==> ' ' !in host && ' ' !in tenant && EndsClean(host) && EndsClean(tenant)
  {
    var authority, resource := Authority(host, tenant), Resource(host);
    if ' ' in host || ' ' in tenant {
      AuthorityHasSpace(host, tenant);
      ParsedValuesHaveNoSpace(BuildChallenge(host, tenant));
      var printed := map["authorization" := authority, "resource" := resource];
      assert "authorization" in printed && printed["authorization"] == authority;
    } else {
      ParsesWithoutSpaces(host, tenant);
      CleanUnchanged(host, tenant);
      SamePair(TrimRight(authority, QuotesAndCommas), TrimRight(resource, QuotesAndCommas), authority, resource);
    }
  }

  // ---- what the SDKs compare ----

  /** The host, its port apart, has a parent domain of its own. */
  predicate HasParent(vaultHost: string) {
    var host := Before(vaultHost, ':');
    !IsIP(host) && |Split(host, '.')| > 2
  }

  lemma PortSplit(vaultHost: string)
    ensures ':' in vaultHost ==> vaultHost == Before(vaultHost, ':') + ":" + After(vaultHost, ':')
    ensures ':' !in vaultHost ==> Before(vaultHost, ':') == vaultHost
  {
  }

  /** The parent domain is the host less its first label, or the whole host. */
  lemma ParentIsSuffix(vaultHost: string)
    ensures var host := Before(vaultHost, ':');
            if HasParent(vaultHost)
            then host == Split(host, '.')[0] + "." + ParentDomain(vaultHost) && ParentDomain(vaultHost) != ""
            else ParentDomain(vaultHost) == host
  {
    if HasParent(vaultHost) {
      var host := Before(vaultHost, ':');
      if '.' !in host {
        SplitWhole(host, '.');
        assert false;
      }
      JoinTail(host, '.');
      assert Split(host, '.')[0] == Before(host, '.');
      assert Split(host, '.')[1..] == Split(After(host, '.'), '.');
      if After(host, '.') == "" {
        SplitWhole("", '.');
      }
    }
  }

  lemma PortStays(first: string, parent: string, port: string)
    ensures (first + "." + parent) + ":" + port == first + "." + (parent + ":" + port)
  {
  }

  /** So the resource is the vault host less its first label, or all of it. */
  lemma ResourceIsHostTail(vaultHost: string)
    ensures HasParent(vaultHost) ==>
              vaultHost == Split(Before(vaultHost, ':'), '.')[0] + "." + ChallengeResource(vaultHost)
    ensures !HasParent(vaultHost) ==> ChallengeResource(vaultHost) == vaultHost
    ensures vaultHost != "" ==> ChallengeResource(vaultHost) != ""
  {
    PortSplit(vaultHost);
    ParentIsSuffix(vaultHost);
    if HasParent(vaultHost) && ':' in vaultHost {
      PortStays(Split(Before(vaultHost, ':'), '.')[0], ParentDomain(vaultHost), After(vaultHost, ':'));
    }
  }

  lemma DottedSuffix(first: string, s: string)
    ensures HasSuffix(first + "." + s, "." + s) && HasSuffix(first + "." + s, s) && !HasSuffix(s, "." + s) && HasSuffix(s, s)
  {
  }

  lemma ResourceIsSuffix(vaultHost: string)
    ensures HasSuffix(vaultHost, ChallengeResource(vaultHost))
    ensures vaultHost != "" ==> ChallengeResource(vaultHost) != ""
  {
    ResourceIsHostTail(vaultHost);
    DottedSuffix(if HasParent(vaultHost) then Split(Before(vaultHost, ':'), '.')[0] else "", ChallengeResource(vaultHost));
  }

  /** Python: the netloc of the vault URL ends in "." + the netloc of the resource. */
  predicate PythonAccepts(vaultHost: string) {
    HasSuffix(vaultHost, "." + ChallengeResource(vaultHost))
  }

  /** Java: the same on the host names alone. */
  predicate JavaAccepts(vaultHost: string) {
    HasSuffix(Before(vaultHost, ':'), "." + ParentDomain(vaultHost))
  }

  /** Both SDK checks pass exactly for hosts that are no IP address and have three labels. */
  lemma SdkChecks(vaultHost: string)
    ensures PythonAccepts(vaultHost) <==> HasParent(vaultHost)
    ensures JavaAccepts(vaultHost) <==> HasParent(vaultHost)
  {
    ResourceIsHostTail(vaultHost);
    ParentIsSuffix(vaultHost);
    var first := if HasParent(vaultHost) then Split(Before(vaultHost, ':'), '.')[0] else "";
    DottedSuffix(first, ChallengeResource(vaultHost));
    DottedSuffix(first, ParentDomain(vaultHost));
  }
}
