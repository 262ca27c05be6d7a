/** Which origins are accepted and which RP ID they get (config/webauthn_config.go:19-84, 117-154;
    handlers/sms_handler.go:29-72).  A host is the Host field of the parsed origin, of any length. */
module RelyingParty {
  import opened Common

  const BASE_DOMAINS: seq<string> := [
    "app.authsec.dev", "stage.authsec.dev", "dev.authsec.dev", "app.authsec.ai", "stage.authsec.ai", "dev.authsec.ai"]

  // ---------- strings ----------

  predicate HasSuffix(s: string, suffix: string) {
    |suffix| <= |s| && s[|s| - |suffix|..] == suffix
  }

  predicate OccursAt(s: string, sub: string, i: int) {
    0 <= i <= |s| - |sub| && s[i..i + |sub|] == sub
  }

  /** strings.Contains */
  predicate Contains(s: string, sub: string) {
    exists i :: 0 <= i <= |s| - |sub| && OccursAt(s, sub, i)
  }

  function LowerChar(c: char): char {
    if 'A' <= c <= 'Z' then c - 'A' + 'a' else c
  }

  /** strings.ToLower on ASCII */
  function Lower(s: string): (r: string)
    ensures |r| == |s| && forall i :: 0 <= i < |s| ==> r[i] == LowerChar(s[i])
  {
    seq(|s|, i requires 0 <= i < |s| => LowerChar(s[i]))
  }

  /** Capitals are lowered, everything else stays. */
  lemma LowerCharIs(c: char, i: int)
    ensures c !in UPPER ==> LowerChar(c) == c
    ensures 0 <= i < 26 ==> LowerChar(UPPER[i]) == LOWER[i]
  {
    UpperIff(c);
    if 0 <= i < 26 {
      UpperAt(i);
      LowerAt(i);
    }
  }

  predicate LabelChar(c: char) {
    'a' <= c <= 'z' || 'A' <= c <= 'Z' || '0' <= c <= '9' || c == '-'
  }

  const LABEL_CHARS: string := LOWER + UPPER + DIGITS + "-"

  lemma LabelCharIff(c: char)
    ensures LabelChar(c) <==> c in LABEL_CHARS
  {
    LowerIff(c);
    UpperIff(c);
    DigitsIff(c);
  }

  predicate Label(s: string) {
    0 < |s| <= 63 && forall i :: 0 <= i < |s| ==> LabelChar(s[i])
  }

  // ---------- ValidateSubdomainOrigin ----------

  /** The host is the domain itself, or one label and the domain. */
  predicate UnderDomain(host: string, domain: string) {
    host == domain || (HasSuffix(host, "." + domain) && Label(host[..|host| - |domain| - 1]))
  }

  /** A host accepted through one of `domains`: the first one that is a suffix decides about bad characters. */
  predicate Accepted(host: string, domains: seq<string>) {
    domains != [] && (
      if host == domains[0] then true
      else if HasSuffix(host, "." + domains[0]) && 0 < |host| - |domains[0]| - 1 <= 63
      then Label(host[..|host| - |domains[0]| - 1])
      else Accepted(host, domains[1..]))
  }

  datatype Origin = Origin(scheme: string, host: string, hostname: string)

  /** The loop over the allowed domains, with its early returns. */
  method CheckHost(host: string, domains: seq<string>) returns (ok: bool)
    ensures ok == Accepted(host, domains)
  {
    for d := 0 to |domains|
      invariant Accepted(host, domains) == Accepted(host, domains[d..])
    {
      var domain := domains[d];
      assert domains[d..][1..] == domains[d + 1..];
      if host == domain {
        return true;
      }
      if HasSuffix(host, "." + domain) {
        var subdomain := host[..|host| - |domain| - 1];
        if 0 < |subdomain| <= 63 {
          for i := 0 to |subdomain|
            invariant forall j :: 0 <= j < i ==> LabelChar(subdomain[j])
          {
            if !LabelChar(subdomain[i]) {
              return false;
            }
          }
          return true;
        }
      }
    }
    return false;
  }

  /** The loop answers at this domain. */
  predicate Decides(host: string, domain: string) {
    host == domain || (HasSuffix(host, "." + domain) && 0 < |host| - |domain| - 1 <= 63)
  }

  lemma {:induction false} AcceptedFirst(host: string, domains: seq<string>, d: string)
    requires d in domains && Decides(host, d)
    requires forall e :: e in domains && Decides(host, e) ==> e == d
    ensures Accepted(host, domains) <==> UnderDomain(host, d)
  {
    assert domains[0] in domains;
    if domains[0] != d {
      AcceptedFirst(host, domains[1..], d);
    }
  }

  lemma {:induction false} AcceptedRest(host: string, domains: seq<string>, rest: seq<string>)
    requires forall e :: e in domains ==> !Decides(host, e)
    ensures Accepted(host, domains + rest) == Accepted(host, rest)
  {
    if domains == [] {
      assert domains + rest == rest;
    } else {
      assert domains[0] in domains;
      assert (domains + rest)[0] == domains[0] && (domains + rest)[1..] == domains[1..] + rest;
      AcceptedRest(host, domains[1..], rest);
    }
  }

  lemma {:induction false} AcceptedBefore(host: string, domains: seq<string>, rest: seq<string>, d: string)
    requires d in domains && Decides(host, d)
    ensures Accepted(host, domains + rest) == Accepted(host, domains)
  {
    assert (domains + rest)[0] == domains[0] && (domains + rest)[1..] == domains[1..] + rest;
    if domains[0] != d {
      AcceptedBefore(host, domains[1..], rest, d);
    }
  }

  /** At most one built-in domain decides about a host. */
  lemma DecidesAlone(host: string, d: string, e: string)
    requires d in BASE_DOMAINS && e in BASE_DOMAINS && Decides(host, d) && Decides(host, e)
    ensures d == e
  {
    if |d| < |e| {
      Nested(host, e, d);
      DomainInDomain(e, d, |e| - |d|);
    } else {
      Nested(host, d, e);
      DomainInDomain(d, e, |d| - |e|);
    }
  }

  lemma EndsIn(host: string, d: string)
    requires Decides(host, d)
    ensures |d| <= |host| && host[|host| - |d|..] == d
  {
    if host != d {
      assert host[|host| - |d|..] == host[|host| - |d| - 1..][1..];
    }
  }

  lemma Nested(host: string, d: string, e: string)
    requires Decides(host, d) && Decides(host, e) && |e| <= |d|
    ensures OccursAt(d, e, |d| - |e|)
  {
    EndsIn(host, d);
    EndsIn(host, e);
    assert d[|d| - |e|..] == host[|host| - |d|..][|d| - |e|..] == e;
  }

  predicate UnderBuiltIn(host: string) {
    exists d :: d in BASE_DOMAINS && UnderDomain(host, d)
  }

  predicate BuiltInDecides(host: string) {
    exists d :: d in BASE_DOMAINS && Decides(host, d)
  }

  /** A host is accepted exactly when it is a built-in domain or one label under one, or the same of the own domain,
      unless at most 63 characters make it a host below a built-in one. */
  lemma AcceptedIff(host: string, extra: seq<string>)
    requires |extra| <= 1
    ensures Accepted(host, BASE_DOMAINS + extra) <==>
              || UnderBuiltIn(host)
              || (extra != [] && UnderDomain(host, extra[0]) && !BuiltInDecides(host))
  {
    if d :| d in BASE_DOMAINS && Decides(host, d) {
      forall e | e in BASE_DOMAINS && Decides(host, e) ensures e == d { DecidesAlone(host, e, d); }
      AcceptedBefore(host, BASE_DOMAINS, extra, d);
      AcceptedFirst(host, BASE_DOMAINS, d);
      assert forall e :: e in BASE_DOMAINS && UnderDomain(host, e) ==> Decides(host, e);
    } else {
      AcceptedRest(host, BASE_DOMAINS, extra);
      assert forall e :: UnderDomain(host, e) ==> Decides(host, e);
    }
  }

  /** Below a built-in domain, of 1 to 63 characters exactly the letters, digits and hyphens will do. */
  lemma BuiltInHost(l: string, d: string, extra: seq<string>)
    requires d in BASE_DOMAINS && 0 < |l| <= 63 && |extra| <= 1
    ensures Accepted(d, BASE_DOMAINS + extra)
    ensures Accepted(l + "." + d, BASE_DOMAINS + extra) <==>
              forall i :: 0 <= i < |l| ==> l[i] in LABEL_CHARS
  {
    LabelledHost(l, d);
    AcceptedIff(d, extra);
    AcceptedIff(l + "." + d, extra);
    assert UnderDomain(d, d);
    UnderOne(l + "." + d, d);
  }

  lemma UnderOne(host: string, d: string)
    requires d in BASE_DOMAINS && Decides(host, d)
    ensures BuiltInDecides(host) && (UnderBuiltIn(host) <==> UnderDomain(host, d))
  {
    forall e | e in BASE_DOMAINS && UnderDomain(host, e) ensures e == d { DecidesAlone(host, e, d); }
  }

  lemma LabelledHost(l: string, d: string)
    requires 0 < |l| <= 63
    ensures Decides(l + "." + d, d)
    ensures UnderDomain(l + "." + d, d) <==> forall i :: 0 <= i < |l| ==> l[i] in LABEL_CHARS
  {
    var host := l + "." + d;
    assert host[|host| - |d| - 1..] == "." + d && host[..|host| - |d| - 1] == l;
    forall i | 0 <= i < |l| ensures LabelChar(l[i]) <==> l[i] in LABEL_CHARS { LabelCharIff(l[i]); }
  }

  /** ValidateSubdomainOrigin after url.Parse; `extra` is the deployment's own base domain, if any. */
  method ValidateSubdomainOrigin(origin: Origin, development: bool, extra: seq<string>) returns (ok: bool)
    requires |extra| <= 1
    ensures ok <==> (development && (origin.hostname == "localhost" || origin.hostname == "127.0.0.1"))
                    || (origin.scheme == "https" && Accepted(origin.host, BASE_DOMAINS + extra))
    ensures origin.scheme == "https" && origin.host in BASE_DOMAINS ==> ok
    ensures origin.scheme == "https" && !development ==>
              forall l, d :: d in BASE_DOMAINS && 0 < |l| <= 63 && origin.host == l + "." + d ==>
                (ok <==> forall i :: 0 <= i < |l| ==> l[i] in LABEL_CHARS)
  {
    if development && (origin.hostname == "localhost" || origin.hostname == "127.0.0.1") {
      return true;
    }
    if origin.scheme != "https" {
      return false;
    }
    ok := CheckHost(origin.host, BASE_DOMAINS + extra);
    if origin.host in BASE_DOMAINS {
      BuiltInHost("x", origin.host, extra);
    }
    forall l, d | d in BASE_DOMAINS && 0 < |l| <= 63 && origin.host == l + "." + d
      ensures ok <==> forall i :: 0 <= i < |l| ==> l[i] in LABEL_CHARS
    {
      BuiltInHost(l, d, extra);
    }
  }

  // ---------- the RP ID choices ----------

  /** The host up to its first colon. */
  function BeforeColon(s: string): string {
    if s == "" || s[0] == ':' then "" else [s[0]] + BeforeColon(s[1..])
  }

  const PICKS: seq<string> := ["app.authsec.dev", "stage.authsec.dev", "dev.authsec.dev", "app.authsec.ai"]

  function FirstContained(h: string, picks: seq<string>): string {
    if picks == [] then h else if Contains(h, picks[0]) then picks[0] else FirstContained(h, picks[1..])
  }

  /** SetupWebAuthn: the first listed domain that is a substring of the host, else the host. */
  function SetupRpId(host: string): string {
    FirstContained(BeforeColon(Lower(host)), PICKS)
  }

  lemma FirstOfFour(h: string, a: string, b: string, c: string, d: string)
    ensures FirstContained(h, [a, b, c, d])
            == if Contains(h, a) then a else if Contains(h, b) then b else if Contains(h, c) then c
               else if Contains(h, d) then d else h
  {
    assert [a, b, c, d][1..] == [b, c, d] && [b, c, d][1..] == [c, d] && [c, d][1..] == [d];
    assert FirstContained(h, [d]) == if Contains(h, d) then d else h;
    assert FirstContained(h, [c, d]) == if Contains(h, c) then c else FirstContained(h, [d]);
    assert FirstContained(h, [b, c, d]) == if Contains(h, b) then b else FirstContained(h, [c, d]);
  }

  /** The branch chain of SetupWebAuthn. */
  method PickRpId(host: string) returns (rpID: string)
    ensures rpID == SetupRpId(host)
  {
    var originHost := BeforeColon(Lower(host));
    FirstOfFour(originHost, "app.authsec.dev", "stage.authsec.dev", "dev.authsec.dev", "app.authsec.ai");
    if Contains(originHost, "app.authsec.dev") {
      rpID := "app.authsec.dev";
    } else if Contains(originHost, "stage.authsec.dev") {
      rpID := "stage.authsec.dev";
    } else if Contains(originHost, "dev.authsec.dev") {
      rpID := "dev.authsec.dev";
    } else if Contains(originHost, "app.authsec.ai") {
      rpID := "app.authsec.ai";
    } else {
      rpID := originHost;
    }
  }

  /** The position of the last colon, or -1. */
  function LastColon(s: string): int {
    if s == "" then -1 else if s[|s| - 1] == ':' then |s| - 1 else LastColon(s[..|s| - 1])
  }

  function WithoutPort(host: string): string {
    var i := LastColon(host);
    if 0 < i < |host| && !Contains(host[i..], "]") then host[..i] else host
  }

  function FirstBase(host: string, domains: seq<string>): string {
    if domains == [] then host
    else if host == domains[0] || HasSuffix(host, "." + domains[0]) then domains[0]
    else FirstBase(host, domains[1..])
  }

  /** extractRPIDFromOrigin */
  function ExtractRpId(host: string): string {
    FirstBase(Lower(WithoutPort(host)), BASE_DOMAINS)
  }

  // ---------- accepted hosts ----------

  lemma {:induction false} AcceptedUnder(host: string, domains: seq<string>) returns (domain: string)
    requires Accepted(host, domains)
    ensures domain in domains && UnderDomain(host, domain)
  {
    if host == domains[0] || (HasSuffix(host, "." + domains[0]) && 0 < |host| - |domains[0]| - 1 <= 63) {
      domain := domains[0];
    } else {
      domain := AcceptedUnder(host, domains[1..]);
    }
  }

  /** One name, a dot, "authsec" and a top-level part. */
  predicate Shape(d: string, f: nat) {
    && 3 <= f <= 5 && f + 11 <= |d| <= f + 12
    && (forall i :: 0 <= i < f ==> d[i] != '.')
    && d[f] == '.' && d[f + 1] == 'a' && d[f + 2] == 'u' && d[f + 8] == '.'
    && (forall i :: f < i < |d| && i != f + 8 ==> d[i] != '.')
    && d[1] != 'u'
  }

  lemma DomainShape(d: string) returns (f: nat)
    requires d in BASE_DOMAINS
    ensures Shape(d, f)
  {
    f := if d[3] == '.' then 3 else 5;
  }

  lemma CharAt(s: string, sub: string, i: int, k: int)
    requires OccursAt(s, sub, i) && 0 <= k < |sub|
    ensures s[i + k] == sub[k]
  {
    assert s[i..i + |sub|][k] == sub[k];
  }

  /** In a label followed by a dot and a base domain, a base domain can only occur inside the domain. */
  lemma OccursInDomain(l: string, d: string, g: nat, p: string, f: nat, i: int)
    requires Shape(d, g) && Shape(p, f) && (forall k :: 0 <= k < |l| ==> l[k] != '.')
    requires OccursAt(l + "." + d, p, i)
    ensures |l| < i && OccursAt(d, p, i - |l| - 1)
  {
    var h := l + "." + d;
    assert h[|l|] == '.';
    if i <= |l| {
      CharAt(h, p, i, f);
      CharAt(h, p, i, f + 2);
      if |l| < i + f {
        CharAt(h, p, i, |l| - i);
      }
    } else {
      assert h[i..i + |p|] == d[i - |l| - 1..i - |l| - 1 + |p|];
    }
  }

  /** No base domain occurs in another one. */
  lemma DomainInDomain(d: string, p: string, i: int)
    requires d in BASE_DOMAINS && p in BASE_DOMAINS && OccursAt(d, p, i)
    ensures d == p
  {
    CharAt(d, p, i, 0);
    CharAt(d, p, i, 1);
    CharAt(d, p, i, 2);
    CharAt(d, p, i, |p| - 1);
  }

  /** `d` is under no other domain `p`. */
  lemma UnderOnly(h: string, l: string, d: string, g: nat, p: string, f: nat, i: int)
    requires Shape(d, g) && Shape(p, f) && (forall k :: 0 <= k < |l| ==> l[k] != '.')
    requires (h == d || h == l + "." + d) && OccursAt(h, p, i)
    ensures OccursAt(d, p, if h == d then i else i - |l| - 1)
  {
    if h != d {
      OccursInDomain(l, d, g, p, f, i);
    }
  }

  lemma SuffixOccurs(h: string, p: string)
    requires HasSuffix(h, "." + p)
    ensures OccursAt(h, p, |h| - |p|)
  {
    assert h[|h| - |p|..] == h[|h| - |p| - 1..][1..] == p;
  }

  lemma OwnDomainOccurs(h: string, l: string, d: string)
    requires h == d || h == l + "." + d
    ensures Contains(h, d) && (h == d || HasSuffix(h, "." + d))
  {
    assert OccursAt(h, d, if h == d then 0 else |l| + 1);
    assert h == l + "." + d ==> h[|h| - |d| - 1..] == "." + d;
  }

  /** A host under base domain `d`, in lower case, contains just that base domain. */
  lemma ContainsIff(h: string, l: string, d: string, p: string)
    requires d in BASE_DOMAINS && p in BASE_DOMAINS && (forall k :: 0 <= k < |l| ==> l[k] != '.')
    requires h == d || h == l + "." + d
    ensures Contains(h, p) ==> d == p
    ensures h == p || HasSuffix(h, "." + p) ==> d == p
  {
    if h == p || HasSuffix(h, "." + p) {
      if h == p { assert OccursAt(h, p, 0); } else { SuffixOccurs(h, p); }
      assert Contains(h, p);
    }
    if Contains(h, p) {
      var g := DomainShape(d);
      var f := DomainShape(p);
      var i :| 0 <= i <= |h| - |p| && OccursAt(h, p, i);
      UnderOnly(h, l, d, g, p, f, i);
      DomainInDomain(d, p, if h == d then i else i - |l| - 1);
    }
  }

  lemma {:induction false} NoColon(s: string)
    requires forall i :: 0 <= i < |s| ==> s[i] != ':'
    ensures BeforeColon(s) == s && LastColon(s) == -1
  {
    if s != "" {
      NoColonBefore(s);
      NoColonLast(s);
    }
  }

  lemma {:induction false} NoColonBefore(s: string)
    requires forall i :: 0 <= i < |s| ==> s[i] != ':'
    ensures BeforeColon(s) == s
  {
    if s != "" {
      NoColonBefore(s[1..]);
    }
  }

  lemma {:induction false} NoColonLast(s: string)
    requires forall i :: 0 <= i < |s| ==> s[i] != ':'
    ensures LastColon(s) == -1
  {
    if s != "" {
      NoColonLast(s[..|s| - 1]);
    }
  }

  lemma {:induction false} BeforeColonAppend(a: string, b: string)
    requires forall i :: 0 <= i < |a| ==> a[i] != ':'
    ensures BeforeColon(a + b) == a + BeforeColon(b)
  {
    if a == "" {
      assert a + b == b;
    } else {
      assert (a + b)[1..] == a[1..] + b;
      BeforeColonAppend(a[1..], b);
    }
  }

  lemma {:induction false} LastColonAt(h: string, t: string)
    requires forall i :: 0 <= i < |t| ==> t[i] != ':'
    ensures LastColon(h + ":" + t) == |h|
    decreases |t|
  {
    var s := h + ":" + t;
    if t == "" {
      assert s[|s| - 1] == ':';
    } else {
      assert s[|s| - 1] == t[|t| - 1] && s[..|s| - 1] == h + ":" + t[..|t| - 1];
      LastColonAt(h, t[..|t| - 1]);
    }
  }

  /** What follows the last colon is dropped, unless it closes a bracket or nothing comes before. */
  lemma WithoutPortIs(h: string, t: string)
    requires forall i :: 0 <= i < |t| ==> t[i] != ':'
    ensures WithoutPort(h + ":" + t) == if h == "" || ']' in t then h + ":" + t else h
  {
    var s := h + ":" + t;
    LastColonAt(h, t);
    assert s[|h|..] == ":" + t && s[..|h|] == h;
    ContainsChar(":" + t, ']');
  }

  lemma ContainsChar(s: string, c: char)
    ensures Contains(s, [c]) <==> c in s
  {
    if c in s {
      var i :| 0 <= i < |s| && s[i] == c;
      assert s[i..i + 1] == [c];
      assert OccursAt(s, [c], i);
    }
    if Contains(s, [c]) {
      var i :| 0 <= i <= |s| - 1 && OccursAt(s, [c], i);
      assert s[i] == s[i..i + 1][0];
    }
  }

  lemma LowerAppend(a: string, b: string)
    ensures Lower(a + b) == Lower(a) + Lower(b)
  {
  }

  lemma ColonCuts(host: string, port: string)
    requires forall i :: 0 <= i < |host| ==> host[i] != ':'
    ensures BeforeColon(Lower(host + ":" + port)) == BeforeColon(Lower(host))
  {
    var l := Lower(host);
    assert forall i :: 0 <= i < |l| ==> l[i] != ':';
    NoColonBefore(l);
    LowerAppend(host + ":", port);
    LowerAppend(host, ":");
    var rest := Lower(":") + Lower(port);
    assert Lower(host + ":" + port) == l + rest;
    BeforeColonAppend(l, rest);
    assert rest[0] == ':';
  }

  /** Neither RP ID choice looks at the port. */
  lemma PortIgnored(host: string, port: string)
    requires host != "" && forall i :: 0 <= i < |host| ==> host[i] != ':'
    requires forall i :: 0 <= i < |port| ==> port[i] in DIGITS
    ensures SetupRpId(host + ":" + port) == SetupRpId(host) && ExtractRpId(host + ":" + port) == ExtractRpId(host)
  {
    forall i | 0 <= i < |port| ensures port[i] != ':' && port[i] != ']' { DigitsIff(port[i]); }
    WithoutPortIs(host, port);
    NoColonLast(host);
    ColonCuts(host, port);
  }

  /** What an accepted host looks like in lower case. */
  lemma AcceptedShape(host: string) returns (l: string, d: string)
    requires Accepted(host, BASE_DOMAINS)
    ensures d in BASE_DOMAINS && (forall k :: 0 <= k < |l| ==> l[k] != '.')
    ensures Lower(host) == d || Lower(host) == l + "." + d
    ensures (forall i :: 0 <= i < |host| ==> host[i] != ':') && (forall i :: 0 <= i < |host| ==> Lower(host)[i] != ':')
  {
    d := AcceptedUnder(host, BASE_DOMAINS);
    PlainDomain(d);
    l := LowerUnder(host, d);
  }

  lemma LowerUnder(host: string, d: string) returns (l: string)
    requires UnderDomain(host, d) && Lower(d) == d && forall i :: 0 <= i < |d| ==> d[i] != ':'
    ensures forall k :: 0 <= k < |l| ==> l[k] != '.'
    ensures Lower(host) == d || Lower(host) == l + "." + d
    ensures (forall i :: 0 <= i < |host| ==> host[i] != ':') && (forall i :: 0 <= i < |host| ==> Lower(host)[i] != ':')
  {
    if host == d {
      l := "";
      assert Lower(host) == d;
    } else {
      var sub := host[..|host| - |d| - 1];
      l := Lower(sub);
      assert host == sub + ("." + d);
      assert Lower(host) == l + "." + d;
    }
  }

  lemma PlainDomain(d: string)
    requires d in BASE_DOMAINS
    ensures Lower(d) == d && forall i :: 0 <= i < |d| ==> d[i] != ':'
  {
    assert forall i :: 0 <= i < |d| ==> LowerChar(d[i]) == d[i] && d[i] != ':';
  }

  lemma {:induction false} FirstBaseIs(h: string, domains: seq<string>, d: string)
    requires d in domains && (h == d || HasSuffix(h, "." + d))
    requires forall e :: e in domains && (h == e || HasSuffix(h, "." + e)) ==> e == d
    ensures FirstBase(h, domains) == d
  {
    if domains[0] != d {
      FirstBaseIs(h, domains[1..], d);
    }
  }

  lemma {:induction false} FirstContainedIs(h: string, picks: seq<string>, d: string)
    requires forall p :: p in picks ==> (Contains(h, p) <==> p == d)
    ensures FirstContained(h, picks) == if d in picks then d else h
  {
    if picks != [] {
      assert picks[0] in picks;
      FirstContainedIs(h, picks[1..], d);
    }
  }

  lemma {:induction false} FirstBaseElse(h: string, domains: seq<string>)
    ensures var id := FirstBase(h, domains);
            if exists d :: d in domains && (h == d || HasSuffix(h, "." + d))
            then id in domains && (h == id || HasSuffix(h, "." + id))
            else id == h
  {
    if domains != [] {
      FirstBaseElse(h, domains[1..]);
      assert forall d :: d in domains <==> d == domains[0] || d in domains[1..];
    }
  }

  /** On every host, accepted or not, extractRPIDFromOrigin gives a built-in domain it is or lies below, in lower case
      and without the port, if there is one, and else the host itself. */
  lemma ExtractRpIdIs(host: string)
    ensures var h, id := Lower(WithoutPort(host)), ExtractRpId(host);
            if exists d :: d in BASE_DOMAINS && (h == d || HasSuffix(h, "." + d))
            then id in BASE_DOMAINS && (h == id || HasSuffix(h, "." + id))
            else id == h
  {
    FirstBaseElse(Lower(WithoutPort(host)), BASE_DOMAINS);
  }

  lemma PicksAreBase(p: string)
    requires p in BASE_DOMAINS
    ensures p in PICKS <==> p != "stage.authsec.ai" && p != "dev.authsec.ai"
  {
    assert "stage.authsec.ai"[0] == 's' && "stage.authsec.ai"[14] == 'a';
  }

  lemma PickIsBase(p: string)
    requires p in PICKS
    ensures p in BASE_DOMAINS
  {
    assert PICKS == BASE_DOMAINS[..4];
  }

  /** The two choices on an accepted host: the base domain, except that SetupWebAuthn keeps the whole
      host when the base domain is not one of its four. */
  lemma RpIdsOf(host: string) returns (d: string)
    requires Accepted(host, BASE_DOMAINS)
    ensures d in BASE_DOMAINS && (Lower(host) == d || HasSuffix(Lower(host), "." + d))
    ensures ExtractRpId(host) == d
    ensures SetupRpId(host) == if d in PICKS then d else Lower(host)
    ensures forall p :: p in BASE_DOMAINS && HasSuffix(Lower(host), "." + p) ==> p == d
  {
    var l;
    l, d := AcceptedShape(host);
    var h := Lower(host);
    NoColon(h);
    NoColon(host);
    OwnDomainOccurs(h, l, d);
    forall p | p in BASE_DOMAINS
      ensures (Contains(h, p) <==> p == d) && (h == p || HasSuffix(h, "." + p) ==> p == d)
    {
      ContainsIff(h, l, d, p);
    }
    FirstBaseIs(h, BASE_DOMAINS, d);
    forall p | p in PICKS ensures Contains(h, p) <==> p == d { PickIsBase(p); }
    FirstContainedIs(h, PICKS, d);
  }

  // ---------- the results ----------

  /** Every origin accepted through the built-in domains gets an RP ID that is its host, in lower case,
      or a dot-delimited suffix of it, as WebAuthn demands. */
  lemma RpIdValid(host: string)
    requires Accepted(host, BASE_DOMAINS)
    ensures SetupRpId(host) == Lower(host) || HasSuffix(Lower(host), "." + SetupRpId(host))
  {
    var d := RpIdsOf(host);
  }

  /** The two RP ID choices agree exactly on the accepted hosts that are not below stage.authsec.ai or dev.authsec.ai.
      */
  lemma RpIdsAgreeIff(host: string)
    requires Accepted(host, BASE_DOMAINS)
    ensures SetupRpId(host) == ExtractRpId(host)
            <==> !HasSuffix(Lower(host), "." + "stage.authsec.ai") && !HasSuffix(Lower(host), "." + "dev.authsec.ai")
  {
    var d := RpIdsOf(host);
    PicksAreBase(d);
    assert BASE_DOMAINS[4] == "stage.authsec.ai" && BASE_DOMAINS[5] == "dev.authsec.ai";
  }
}
