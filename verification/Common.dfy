/** Types and character classes that several modules share. */
module Common {
  datatype Option<T> = None | Some(value: T)

  type byte = x: int | 0 <= x < 256

  lemma MapSizes<K, V>(m: map<K, V>, k: K, v: V)
    ensures |m[k := v]| == |m| + if k in m then 0 else 1
    ensures |m - {k}| == |m| - if k in m then 1 else 0
  {
    var more, less := m[k := v], m - {k};
    assert more.Keys == m.Keys + {k} && less.Keys == m.Keys - {k};
    assert |more| == |more.Keys| && |less| == |less.Keys| && |m| == |m.Keys|;
  }

  const LOWER: string := "abcdefghijklmnopqrstuvwxyz"
  const UPPER: string := "ABCDEFGHIJKLMNOPQRSTUVWXYZ"
  const DIGITS: string := "0123456789"

  lemma LowerAt(i: int)
    requires 0 <= i < 26
    ensures LOWER[i] as int == 'a' as int + i
  {
  }

  lemma UpperAt(i: int)
    requires 0 <= i < 26
    ensures UPPER[i] as int == 'A' as int + i
  {
  }

  lemma LowerIff(c: char)
    ensures c in LOWER <==> 'a' <= c <= 'z'
  {
    if i :| 0 <= i < |LOWER| && LOWER[i] == c { LowerAt(i); }
    if 'a' <= c <= 'z' { LowerAt(c as int - 'a' as int); }
  }

  lemma UpperIff(c: char)
    ensures c in UPPER <==> 'A' <= c <= 'Z'
  {
    if i :| 0 <= i < |UPPER| && UPPER[i] == c { UpperAt(i); }
    if 'A' <= c <= 'Z' { UpperAt(c as int - 'A' as int); }
  }

  lemma DigitsIff(c: char)
    ensures c in DIGITS <==> '0' <= c <= '9'
  {
    assert forall i :: 0 <= i < 10 ==> DIGITS[i] as int == '0' as int + i;
    if '0' <= c <= '9' { assert DIGITS[c as int - '0' as int] == c; }
  }
}
