/** User codes of the device flow: generation (database/device_auth_repository.go:430-448) and
    hyphen-insensitive lookup (database/device_auth_repository.go:84-97, 244). */
module UserCodes {
  import opened Common

  /** No 0, O, I, L or 1. */
  const CHARSET: string := "ABCDEFGHJKMNPQRSTUVWXYZ23456789"

  predicate InCharset(c: char) {
    c in CHARSET
  }

  /** Where a character stands in the charset. */
  function Rank(c: char): int {
    if c <= '9' then 23 + (c as int - '2' as int)
    else c as int - 'A' as int - (if c > 'O' then 3 else if c > 'L' then 2 else if c > 'I' then 1 else 0)
  }

  lemma CharsetAt(i: int)
    requires 0 <= i < |CHARSET|
    ensures Rank(CHARSET[i]) == i
    ensures 'A' <= CHARSET[i] <= 'Z' || '2' <= CHARSET[i] <= '9'
    ensures CHARSET[i] != 'I' && CHARSET[i] != 'L' && CHARSET[i] != 'O'
  {
  }

  lemma AtRank(c: char)
    requires ('A' <= c <= 'Z' && c != 'I' && c != 'L' && c != 'O') || '2' <= c <= '9'
    ensures 0 <= Rank(c) < |CHARSET| && CHARSET[Rank(c)] == c
  {
  }

  lemma CharsetRange(c: char)
    ensures InCharset(c) <==> ('A' <= c <= 'Z' && c != 'I' && c != 'L' && c != 'O') || '2' <= c <= '9'
  {
    if InCharset(c) {
      var k :| 0 <= k < |CHARSET| && CHARSET[k] == c;
      CharsetAt(k);
    }
    if ('A' <= c <= 'Z' && c != 'I' && c != 'L' && c != 'O') || '2' <= c <= '9' {
      AtRank(c);
    }
  }

  /** The charset is the capitals without I, L and O and the digits without 0 and 1... */
  lemma CharsetIff(c: char)
    ensures InCharset(c) <==> (c in UPPER || c in DIGITS) && c !in "ILO01"
  {
    CharsetRange(c);
    UpperIff(c);
    DigitsIff(c);
  }

  /** ...each once. */
  lemma CharsetDistinct(i: int, j: int)
    requires 0 <= i < j < |CHARSET|
    ensures CHARSET[i] != CHARSET[j] && |CHARSET| == 31
  {
    CharsetAt(i);
    CharsetAt(j);
  }

  /** Four characters, a hyphen, four characters. */
  predicate WellFormed(code: string) {
    && |code| == 9 && code[4] == '-'
    && forall i :: 0 <= i < 9 && i != 4 ==> InCharset(code[i])
  }

  /** GenerateUserCode, from the eight random bytes it draws. */
  method GenerateUserCode(b: seq<byte>) returns (code: string)
    requires |b| == 8
    ensures WellFormed(code)
    ensures |Strip(code)| == 8 && forall i :: 0 <= i < 8 ==> Strip(code)[i] == CHARSET[b[i] % 31]
  {
    assert |CHARSET| == 31;
    var chars := new char[9](_ => '-');
    for i := 0 to 4
      invariant forall j :: 0 <= j < i ==> chars[j] == CHARSET[b[j] % 31]
    {
      chars[i] := CHARSET[b[i] % |CHARSET|];
    }
    chars[4] := '-';
    for i := 5 to 9
      invariant chars[4] == '-'
      invariant forall j :: 0 <= j < 4 ==> chars[j] == CHARSET[b[j] % 31]
      invariant forall j :: 5 <= j < i ==> chars[j] == CHARSET[b[j - 1] % 31]
    {
      chars[i] := CHARSET[b[i - 1] % |CHARSET|];
    }
    code := chars[..];
    StripWellFormed(code);
  }

  /** REPLACE(code, '-', '') */
  function Strip(code: string): string {
    if code == "" then "" else (if code[0] == '-' then "" else [code[0]]) + Strip(code[1..])
  }

  lemma {:induction false} StripAppend(a: string, b: string)
    ensures Strip(a + b) == Strip(a) + Strip(b)
  {
    if a == "" {
      assert a + b == b;
    } else {
      var head := if a[0] == '-' then "" else [a[0]];
      assert (a + b)[0] == a[0] && (a + b)[1..] == a[1..] + b;
      calc {
        Strip(a + b);
        head + Strip(a[1..] + b);
        { StripAppend(a[1..], b); }
        head + (Strip(a[1..]) + Strip(b));
        (head + Strip(a[1..])) + Strip(b);
        Strip(a) + Strip(b);
      }
    }
  }

  lemma {:induction false} StripNothing(s: string)
    requires forall i :: 0 <= i < |s| ==> s[i] != '-'
    ensures Strip(s) == s
  {
    if s != "" {
      StripNothing(s[1..]);
    }
  }

  lemma StripOneHyphen(a: string, b: string)
    requires (forall i :: 0 <= i < |a| ==> a[i] != '-') && (forall i :: 0 <= i < |b| ==> b[i] != '-')
    ensures Strip(a + ("-" + b)) == a + b
  {
    StripAppend(a, "-" + b);
    StripHyphen(b);
    StripNothing(a);
    StripNothing(b);
  }

  lemma StripHyphen(b: string)
    ensures Strip("-" + b) == Strip(b)
  {
    var s := "-" + b;
    assert s[0] == '-' && s[1..] == b;
    assert Strip(s) == Strip(b);
  }

  lemma StripWellFormed(code: string)
    requires WellFormed(code)
    ensures Strip(code) == code[..4] + code[5..]
  {
    forall i | 0 <= i < 9 && i != 4 ensures code[i] != '-' { CharsetRange(code[i]); }
    assert code == code[..4] + ("-" + code[5..]);
    StripOneHyphen(code[..4], code[5..]);
  }

  /** Hyphen removal loses nothing on generated codes. */
  lemma StripInjective(a: string, b: string)
    requires WellFormed(a) && WellFormed(b) && Strip(a) == Strip(b)
    ensures a == b
  {
    StripWellFormed(a);
    StripWellFormed(b);
    forall i | 0 <= i < 9 ensures a[i] == b[i] {
      if i < 4 {
        assert a[i] == Strip(a)[i];
      } else if i > 4 {
        assert a[i] == Strip(a)[i - 1];
      }
    }
  }
}
