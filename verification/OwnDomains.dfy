/** RP IDs of hosts accepted through the deployment's own base domain (config/webauthn_config.go:52-84, 129-153).

    SetupWebAuthn picks the first of its four domains that is a substring of the host, else the host itself.
    Under an arbitrary own domain that pick need not be a suffix of the host.  It is for every accepted host exactly
    when the first of the four that occurs in the own domain ends it, behind a dot, and no earlier one can arise
    where a label meets the own domain. */
module OwnDomains {
  import opened RelyingParty

  predicate NoDot(s: string) {
    forall i :: 0 <= i < |s| ==> s[i] != '.'
  }

  /** `f` is the first dot of `p`, and what comes before it can end a label. */
  predicate Dotted(p: string, f: nat) {
    f < |p| && p[f] == '.' && NoDot(p[..f]) && Label("x" + p[..f]) && Lower(p[..f]) == p[..f]
  }

  function FirstDot(p: string): nat {
    if p == "" || p[0] == '.' then 0 else 1 + FirstDot(p[1..])
  }

  /** Without its first label. */
  function Rest(p: string): string {
    if FirstDot(p) < |p| then p[FirstDot(p) + 1..] else ""
  }

  /** Valid as an RP ID: the host name itself, or what follows one of its dots. */
  predicate RpOk(name: string, id: string) {
    id == name || HasSuffix(name, "." + id)
  }

  /** The own domains whose hosts all get a valid RP ID. */
  predicate Sound(d: string, picks: seq<string>) {
    picks == [] ||
    if Contains(d, picks[0]) then RpOk(d, picks[0]) else !(Rest(picks[0]) <= d) && Sound(d, picks[1..])
  }

  // ---------- where a pick can occur in a host ----------

  lemma {:induction false} FirstDotIs(p: string, f: nat)
    requires f < |p| && p[f] == '.' && NoDot(p[..f])
    ensures FirstDot(p) == f
  {
    if f > 0 {
      assert p[0] == p[..f][0];
      forall i | 0 <= i < f - 1 ensures p[1..][i] != '.' { assert p[1..][i] == p[..f][i + 1]; }
      assert NoDot(p[1..][..f - 1]);
      FirstDotIs(p[1..], f - 1);
    }
  }

  lemma NoDotAt(p: string, f: nat, k: nat)
    requires k < f <= |p| && NoDot(p[..f])
    ensures p[k] != '.'
  {
    assert p[k] == p[..f][k];
  }

  /** In the own domain, or across the dot before it. */
  lemma OccursSplit(l: string, d: string, p: string, f: nat, i: int)
    requires NoDot(l) && Dotted(p, f) && OccursAt(l + "." + d, p, i)
    ensures (|l| < i && OccursAt(d, p, i - |l| - 1)) || (i + f == |l| && p[f + 1..] <= d)
  {
    var h := l + "." + d;
    assert h[|l|] == '.';
    CharAt(h, p, i, f);
    if i <= |l| {
      if |l| - i < f {
        CharAt(h, p, i, |l| - i);
        NoDotAt(p, f, |l| - i);
      }
      assert i + f == |l|;
      assert h[i..i + |p|][f + 1..] == d[..|p| - f - 1];
    } else {
      assert h[i..i + |p|] == d[i - |l| - 1..i - |l| - 1 + |p|];
    }
  }

  lemma InDomainInHost(l: string, d: string, p: string)
    requires Contains(d, p)
    ensures Contains(l + "." + d, p)
  {
    var i :| 0 <= i <= |d| - |p| && OccursAt(d, p, i);
    var h := l + "." + d;
    assert h[|l| + 1 + i..|l| + 1 + i + |p|] == d[i..i + |p|];
    assert OccursAt(h, p, |l| + 1 + i);
  }

  lemma NotInHost(l: string, d: string, p: string, f: nat)
    requires NoDot(l) && Dotted(p, f) && !Contains(d, p) && !(Rest(p) <= d)
    ensures !Contains(l + "." + d, p)
  {
    FirstDotIs(p, f);
    if i :| 0 <= i <= |l + "." + d| - |p| && OccursAt(l + "." + d, p, i) {
      OccursSplit(l, d, p, f, i);
    }
  }

  /** A label that ends like the pick begins. */
  function Forging(p: string, f: nat): string
    requires f <= |p|
  {
    "x" + p[..f]
  }

  lemma ForgedInHost(d: string, p: string, f: nat)
    requires Dotted(p, f) && Rest(p) <= d && !Contains(d, p)
    ensures var h := Forging(p, f) + "." + d; Contains(h, p) && !RpOk(h, p)
  {
    FirstDotIs(p, f);
    var l := Forging(p, f);
    var h := l + "." + d;
    assert p == p[..f] + "." + p[f + 1..];
    assert h[1..1 + |p|] == p;
    assert OccursAt(h, p, 1);
    assert NoDot(l) by {
      forall k | 0 <= k < |l| ensures l[k] != '.' { assert k > 0 ==> l[k] == p[..f][k - 1]; }
    }
    assert h[f] == l[f] != '.';
    NoSuffix(l, d, p, f);
  }

  lemma NoSuffix(l: string, d: string, p: string, f: nat)
    requires Dotted(p, f) && NoDot(l) && l != "" && !Contains(d, p)
    requires |l| == f + 1
    ensures !HasSuffix(l + "." + d, "." + p)
  {
    var h := l + "." + d;
    if HasSuffix(h, "." + p) {
      SuffixOccurs(h, p);
      OccursSplit(l, d, p, f, |h| - |p|);
      NoSuffixAtOne(h, p, d);
    }
  }

  lemma NoSuffixAtOne(h: string, p: string, d: string)
    requires HasSuffix(h, "." + p) && h[0] != '.' && !Contains(d, p)
    ensures |h| - |p| != 1
  {
    assert h[|h| - |p| - 1] == h[|h| - |p| - 1..][0] == '.';
  }

  // ---------- the choice on host names ----------

  ghost predicate IsPick(p: string) {
    exists f: nat :: Dotted(p, f)
  }

  ghost predicate Picks(picks: seq<string>) {
    forall i :: 0 <= i < |picks| ==> IsPick(picks[i])
  }

  lemma SuffixBelow(l: string, d: string, id: string)
    requires RpOk(d, id)
    ensures RpOk(l + "." + d, id)
  {
    var h := l + "." + d;
    if id == d {
      assert h[|h| - |d| - 1..] == "." + d;
    } else {
      assert h[|h| - |id| - 1..] == d[|d| - |id| - 1..];
    }
  }

  /** Under a sound own domain every choice is valid... */
  lemma {:induction false} SoundChoice(d: string, picks: seq<string>, l: string)
    requires Picks(picks) && Sound(d, picks) && NoDot(l)
    ensures RpOk(d, FirstContained(d, picks)) && RpOk(l + "." + d, FirstContained(l + "." + d, picks))
  {
    if picks != [] {
      var p := picks[0];
      assert IsPick(p);
      if Contains(d, p) {
        InDomainInHost(l, d, p);
        SuffixBelow(l, d, p);
      } else {
        var f: nat :| Dotted(p, f);
        NotInHost(l, d, p, f);
        SoundChoice(d, picks[1..], l);
      }
    }
  }

  /** ...and under any other one some choice is not: that of the own domain, or of a host one label below it. */
  lemma {:induction false} UnsoundChoice(d: string, picks: seq<string>) returns (own: bool, l: string)
    requires Picks(picks) && !Sound(d, picks)
    ensures own ==> !RpOk(d, FirstContained(d, picks))
    ensures !own ==> Label(l) && Lower(l) == l && !RpOk(l + "." + d, FirstContained(l + "." + d, picks))
  {
    var p := picks[0];
    assert IsPick(p);
    var f: nat :| Dotted(p, f);
    if Contains(d, p) {
      own, l := true, "";
    } else if Rest(p) <= d {
      own, l := false, Forging(p, f);
      ForgedInHost(d, p, f);
      assert forall i :: 0 < i < |l| ==> Lower(l)[i] == LowerChar(p[..f][i - 1]) == Lower(p[..f])[i - 1];
      assert Lower(l) == l;
    } else {
      own, l := UnsoundChoice(d, picks[1..]);
      if !own {
        assert NoDot(l) by { LabelNoDot(l); }
        NotInHost(l, d, p, f);
      }
    }
  }

  lemma LabelNoDot(l: string)
    requires Label(l)
    ensures NoDot(l) && forall i :: 0 <= i < |l| ==> l[i] != ':'
  {
    forall i | 0 <= i < |l| ensures l[i] != '.' && l[i] != ':' { assert LabelChar(l[i]); }
  }

  lemma LetterPick(p: string, f: nat)
    requires f < 63 && f < |p| && p[f] == '.' && forall k :: 0 <= k < f ==> 'a' <= p[k] <= 'z'
    ensures IsPick(p)
  {
    var name := p[..f];
    assert forall k :: 0 <= k < f ==> 'a' <= name[k] <= 'z';
    var l := "x" + name;
    assert Label(l) by {
      forall k | 0 <= k < |l| ensures LabelChar(l[k]) { assert k > 0 ==> l[k] == name[k - 1]; }
    }
    assert Lower(name) == name;
    assert Dotted(p, f);
  }

  lemma FourPicks()
    ensures Picks(PICKS)
  {
    LetterPick("app.authsec.dev", 3);
    LetterPick("stage.authsec.dev", 5);
    LetterPick("dev.authsec.dev", 3);
    LetterPick("app.authsec.ai", 3);
  }

  // ---------- hosts ----------

  /** What SetupWebAuthn makes of the host of an origin: lower case, without a port. */
  function Hostname(host: string): string {
    BeforeColon(Lower(host))
  }

  lemma HostnameUnder(l: string, own: string)
    requires Label(l)
    ensures Hostname(l + "." + own) == Lower(l) + "." + Hostname(own) && NoDot(Lower(l))
  {
    LabelNoDot(l);
    var head := Lower(l) + ".";
    assert Lower(l + "." + own) == head + Lower(own);
    BeforeColonAppend(head, Lower(own));
  }

  ghost predicate ValidUnder(host: string, own: string) {
    UnderDomain(host, own) ==> RpOk(Hostname(host), SetupRpId(host))
  }

  /** A host under the own domain is the own domain, or a label, a dot and the own domain. */
  lemma UnderIs(host: string, own: string) returns (l: string)
    requires UnderDomain(host, own) && host != own
    ensures Label(l) && host == l + "." + own
  {
    l := host[..|host| - |own| - 1];
  }

  lemma SoundIsValid(host: string, own: string)
    requires Sound(Hostname(own), PICKS)
    ensures ValidUnder(host, own)
  {
    FourPicks();
    if UnderDomain(host, own) {
      if host == own {
        SoundChoice(Hostname(own), PICKS, "");
      } else {
        var l := UnderIs(host, own);
        HostnameUnder(l, own);
        SoundChoice(Hostname(own), PICKS, Lower(l));
      }
    }
  }

  lemma UnsoundIsNot(own: string) returns (host: string)
    requires !Sound(Hostname(own), PICKS)
    ensures UnderDomain(host, own) && !RpOk(Hostname(host), SetupRpId(host))
  {
    FourPicks();
    var self, l := UnsoundChoice(Hostname(own), PICKS);
    if self {
      host := own;
    } else {
      host := l + "." + own;
      HostnameUnder(l, own);
      LabelUnder(l, own);
    }
  }

  lemma LabelUnder(l: string, own: string)
    requires Label(l)
    ensures UnderDomain(l + "." + own, own)
  {
    var host := l + "." + own;
    assert host[|host| - |own| - 1..] == "." + own && host[..|host| - |own| - 1] == l;
  }

  /** Every host at or one label below the own domain gets a valid RP ID exactly when the own domain is sound. */
  lemma OwnDomainIff(own: string)
    ensures (forall host :: ValidUnder(host, own)) <==> Sound(Hostname(own), PICKS)
  {
    if Sound(Hostname(own), PICKS) {
      forall host ensures ValidUnder(host, own) { SoundIsValid(host, own); }
    } else {
      var host := UnsoundIsNot(own);
      assert !ValidUnder(host, own);
    }
  }

  // ---------- with the built-in domains before it ----------

  /** The built-in domains are sound, so they need no condition. */
  lemma {:induction false} BaseIsSound(b: string, picks: seq<string>)
    requires b in BASE_DOMAINS && forall p :: p in picks ==> p in BASE_DOMAINS
    ensures Sound(b, picks)
  {
    if picks != [] {
      var p := picks[0];
      assert p in picks;
      if i :| 0 <= i <= |b| - |p| && OccursAt(b, p, i) {
        DomainInDomain(b, p, i);
      } else {
        NoRestPrefix(b, p);
        BaseIsSound(b, picks[1..]);
      }
    }
  }

  lemma NoRestPrefix(b: string, p: string)
    requires b in BASE_DOMAINS && p in BASE_DOMAINS
    ensures !(Rest(p) <= b)
  {
    var g := DomainShape(b);
    var f := DomainShape(p);
    assert NoDot(p[..f]);
    FirstDotIs(p, f);
    assert Rest(p)[1] == 'u' && b[1] != 'u';
  }

  /** With a sound own domain, every accepted host gets a valid RP ID. */
  lemma AcceptedIsValid(host: string, own: string)
    requires Sound(Hostname(own), PICKS) && Accepted(host, BASE_DOMAINS + [own])
    ensures RpOk(Hostname(host), SetupRpId(host))
  {
    var d := AcceptedUnder(host, BASE_DOMAINS + [own]);
    if d in BASE_DOMAINS {
      PlainDomain(d);
      NoColon(d);
      forall p | p in PICKS ensures p in BASE_DOMAINS { PickIsBase(p); }
      BaseIsSound(d, PICKS);
      SoundIsValid(host, d);
    } else {
      SoundIsValid(host, own);
    }
  }

  /** No built-in domain decides about a host under an own domain that is not below one. */
  lemma NotBelowBuiltIn(host: string, own: string, b: string)
    requires UnderDomain(host, own) && own != b && !HasSuffix(own, "." + b)
    ensures !HasSuffix(host, "." + b)
  {
    if host != own {
      var l := UnderIs(host, own);
      LabelNoDot(l);
      if HasSuffix(host, "." + b) {
        SuffixOfHost(l, own, b);
      }
    }
  }

  lemma SuffixOfHost(l: string, own: string, b: string)
    requires NoDot(l) && HasSuffix(l + "." + own, "." + b)
    ensures own == b || HasSuffix(own, "." + b)
  {
    var host := l + "." + own;
    var i := |host| - |b| - 1;
    assert host[i] == host[i..][0] == '.';
    assert i >= |l|;
    if i == |l| {
      assert host[i..] == "." + own;
      assert ("." + own)[1..] == ("." + b)[1..];
    } else {
      assert host[i..] == own[i - |l| - 1..];
    }
  }

  lemma {:induction false} AcceptedLast(host: string, domains: seq<string>, own: string)
    requires UnderDomain(host, own) && forall b :: b in domains ==> !HasSuffix(host, "." + b)
    ensures Accepted(host, domains + [own])
    decreases |domains|
  {
    if domains != [] {
      assert (domains + [own])[1..] == domains[1..] + [own] && domains[0] in domains;
      AcceptedLast(host, domains[1..], own);
    }
  }

  ghost predicate ValidIfAccepted(host: string, own: string) {
    Accepted(host, BASE_DOMAINS + [own]) ==> RpOk(Hostname(host), SetupRpId(host))
  }

  /** With an own domain that is no built-in one and not below one, every accepted host gets a valid RP ID exactly when
      the own domain is sound. */
  lemma OwnDomainAcceptedIff(own: string)
    requires forall b :: b in BASE_DOMAINS ==> own != b && !HasSuffix(own, "." + b)
    ensures (forall host :: ValidIfAccepted(host, own)) <==> Sound(Hostname(own), PICKS)
  {
    if Sound(Hostname(own), PICKS) {
      forall host ensures ValidIfAccepted(host, own) {
        if Accepted(host, BASE_DOMAINS + [own]) {
          AcceptedIsValid(host, own);
        }
      }
    } else {
      var host := UnsoundIsNot(own);
      forall b | b in BASE_DOMAINS ensures !HasSuffix(host, "." + b) { NotBelowBuiltIn(host, own, b); }
      AcceptedLast(host, BASE_DOMAINS, own);
      assert !ValidIfAccepted(host, own);
    }
  }
}
