// Vault names and the hosts built from them.
module VaultHost {
  import opened Wrappers
  import opened Text

  predicate IsAlnum(c: char) { 'a' <= c <= 'z' || '0' <= c <= '9' }

  /** VaultNamePattern: ^[a-z0-9]([a-z0-9-]{0,22}[a-z0-9])?$ */
  predicate IsValidName(name: string) {
    && 1 <= |name| <= 24
    && IsAlnum(name[0]) && IsAlnum(name[|name| - 1])
    && forall i :: 0 <= i < |name| ==> IsAlnum(name[i]) || name[i] == '-'
  }

  const LOWER: string := "abcdefghijklmnopqrstuvwxyz"
  const DIGITS: string := "0123456789"

  /** A valid name in words: one to 24 small letters, digits and hyphens, no hyphen at either end. */
  lemma ValidNames(name: string)
    ensures IsValidName(name) <==> 1 <= |name| <= 24 && (forall c :: c in name ==> c in LOWER || c in DIGITS || c == '-')
                                   && name[0] != '-' && name[|name| - 1] != '-'
  {
    forall c ensures IsAlnum(c) <==> c in LOWER || c in DIGITS { AlnumIs(c); }
    assert forall i :: 0 <= i < |name| ==> name[i] in name;
  }

  lemma AlnumIs(c: char)
    ensures IsAlnum(c) <==> c in LOWER || c in DIGITS
  {
    LowerIs(c);
    DigitIs(c);
  }

  lemma LowerIs(c: char)
    ensures c in LOWER <==> 'a' <= c <= 'z'
  {
    if 'a' <= c <= 'z' { assert LOWER[c as int - 'a' as int] == c; }
  }

  lemma DigitIs(c: char)
    ensures c in DIGITS <==> '0' <= c <= '9'
  {
    if '0' <= c <= '9' { assert DIGITS[c as int - '0' as int] == c; }
  }

  function BuildVaultHost(name: string, baseDomain: string, port: string): string {
    name + "." + baseDomain + ":" + port
  }

  /** The vault name a request host carries, "" when the host is not under the base domain. */
  function VaultNameFromHost(host: string, baseDomain: string): string {
    var h := Before(host, ':');
    var suffix := "." + baseDomain;
    if HasSuffix(h, suffix) then h[..|h| - |suffix|] else ""
  }

  lemma ValidNameHasNoColon(name: string)
    requires IsValidName(name)
    ensures ':' !in name
  {
  }

  /** Under a base domain with a colon no host carries a name: what precedes the port has none. */
  lemma ColonHidesName(host: string, baseDomain: string)
    requires ':' in baseDomain
    ensures VaultNameFromHost(host, baseDomain) == ""
  {
    var suffix := "." + baseDomain;
    assert suffix[1..] == baseDomain;
    assert ':' in suffix;
    SuffixHas(Before(host, ':'), suffix, ':');
  }

  /** Reading the name back from a built host works exactly when the base domain has no colon. */
  lemma NameInvertsHost(name: string, baseDomain: string, port: string)
    requires IsValidName(name)
    ensures VaultNameFromHost(BuildVaultHost(name, baseDomain, port), baseDomain) == name <==> ':' !in baseDomain
  {
    var host := BuildVaultHost(name, baseDomain, port);
    ValidNameHasNoColon(name);
    if ':' !in baseDomain {
      var front := name + "." + baseDomain;
      assert ':' !in front;
      assert host == front + [':'] + port;
      IndexOfConcat(front, ':', port);
      assert host[..|front|] == front;
      assert front[|name|..] == "." + baseDomain;
    } else {
      ColonHidesName(host, baseDomain);
    }
  }

  /** What precedes the colon of a built host is the name under the base domain, what follows it the port. */
  lemma HostParts(name: string, baseDomain: string, port: string)
    requires IsValidName(name) && ':' !in baseDomain
    ensures var host := BuildVaultHost(name, baseDomain, port);
            Before(host, ':') == name + "." + baseDomain && After(host, ':') == port
  {
    var front := name + "." + baseDomain;
    assert BuildVaultHost(name, baseDomain, port) == front + [':'] + port;
    assert ':' !in front;
    IndexOfConcat(front, ':', port);
  }

  /** Distinct names never share a host. */
  lemma HostsAreDistinct(a: string, b: string, baseDomain: string, port: string)
    ensures BuildVaultHost(a, baseDomain, port) == BuildVaultHost(b, baseDomain, port) <==> a == b
  {
    var ha, hb := BuildVaultHost(a, baseDomain, port), BuildVaultHost(b, baseDomain, port);
    var tail := "." + baseDomain + ":" + port;
    assert ha == a + tail && hb == b + tail;
    assert ha[..|ha| - |tail|] == a && hb[..|hb| - |tail|] == b;
  }
}
