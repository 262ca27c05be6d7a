/** Single-use backup codes (handlers/totp_handler.go:482-507, 742-777; repository/mfa_repository.go:228-247).
    The codes are stored encrypted in one column; `decrypt` stands for the decryption, which can fail. */
module BackupCodes {
  import opened Common
  import U = UserCodes

  /** The column as a request loads it. */
  datatype Column = Absent | Malformed | Stored(codes: seq<string>)

  /** One presented code: compared exactly (VerifyTOTP) or normalised (verifyBackupCode), and
      whether the write-back of the shortened list will succeed. */
  datatype Attempt = Attempt(code: string, exact: bool, stores: bool)

  type Cipher = string -> Option<string>

  function UpperChar(c: char): char {
    if 'a' <= c <= 'z' then c - 'a' + 'A' else c
  }

  /** Upper case and without dashes. */
  function Normal(s: string): string {
    if s == "" then "" else (if s[0] == '-' then "" else [UpperChar(s[0])]) + Normal(s[1..])
  }

  /** The same letter or digit, in either case. */
  predicate SameLetter(c: char, d: char) {
    || c == d
    || ('a' <= c <= 'z' && c as int - d as int == 'a' as int - 'A' as int)
    || ('a' <= d <= 'z' && d as int - c as int == 'a' as int - 'A' as int)
  }

  /** Letter for letter the same, in either case, once the dashes are taken out. */
  predicate SameCode(a: string, b: string) {
    var x, y := U.Strip(a), U.Strip(b);
    |x| == |y| && forall i :: 0 <= i < |x| ==> SameLetter(x[i], y[i])
  }

  /** Normalising takes out the dashes and raises what is left. */
  lemma {:induction false} NormalRaises(s: string)
    ensures |Normal(s)| == |U.Strip(s)|
    ensures forall i :: 0 <= i < |Normal(s)| ==> Normal(s)[i] == UpperChar(U.Strip(s)[i])
  {
    if s != "" {
      NormalRaises(s[1..]);
    }
  }

  /** So two codes compare equal exactly when they differ in dashes and case only. */
  lemma NormalIff(a: string, b: string)
    ensures Normal(a) == Normal(b) <==> SameCode(a, b)
  {
    NormalRaises(a);
    NormalRaises(b);
    var x, y := U.Strip(a), U.Strip(b);
    assert forall c, d :: UpperChar(c) == UpperChar(d) <==> SameLetter(c, d);
    if Normal(a) == Normal(b) {
      forall i | 0 <= i < |x| ensures SameLetter(x[i], y[i]) { assert Normal(a)[i] == Normal(b)[i]; }
    }
  }

  /** FormatBackupCode */
  function Displayed(code: string): string {
    if |code| == 8 then code[..4] + "-" + code[4..] else code
  }

  /** The displayed form of a code is the code with at most a dash more; it is the code itself unless that has eight
      characters. */
  lemma DisplayedMatches(code: string)
    ensures SameCode(Displayed(code), code)
    ensures Displayed(code) == code <==> |code| != 8
  {
    if |code| == 8 {
      var a, b := code[..4], code[4..];
      U.StripAppend(a + "-", b);
      U.StripAppend(a, "-");
      U.StripHyphen("");
      U.StripAppend(a, b);
      assert a + b == code && "-" + "" == "-";
      assert |Displayed(code)| == 9;
    }
  }

  function Without(s: seq<string>, i: nat): seq<string>
    requires i < |s|
  {
    s[..i] + s[i + 1..]
  }

  /** The stored code is the presented one. */
  predicate Opens(decrypt: Cipher, stored: string, a: Attempt) {
    match decrypt(stored)
    case None => false
    case Some(plain) => if a.exact then plain == a.code else Normal(plain) == Normal(a.code)
  }

  /** verifyBackupCode compares up to dashes and case. */
  predicate Fits(decrypt: Cipher, stored: string, code: string) {
    decrypt(stored).Some? && SameCode(decrypt(stored).value, code)
  }

  lemma OpensIff(decrypt: Cipher, stored: string, a: Attempt)
    requires !a.exact
    ensures Opens(decrypt, stored, a) <==> Fits(decrypt, stored, a.code)
  {
    if decrypt(stored).Some? {
      NormalIff(decrypt(stored).value, a.code);
    }
  }

  predicate FirstOpenAt(decrypt: Cipher, codes: seq<string>, a: Attempt, i: nat) {
    && i <= |codes|
    && (i < |codes| ==> Opens(decrypt, codes[i], a))
    && forall j :: 0 <= j < i ==> !Opens(decrypt, codes[j], a)
  }

  /** The first matching position, or the length. */
  function FirstOpen(decrypt: Cipher, codes: seq<string>, a: Attempt): (i: nat)
    ensures FirstOpenAt(decrypt, codes, a, i)
  {
    if codes == [] || Opens(decrypt, codes[0], a) then 0 else 1 + FirstOpen(decrypt, codes[1..], a)
  }

  /** Whether a code is accepted against the list loaded, and what the column then holds. */
  function Outcome(decrypt: Cipher, row: seq<string>, loaded: seq<string>, a: Attempt): (bool, seq<string>) {
    var i := FirstOpen(decrypt, loaded, a);
    if i == |loaded| then (false, row)
    else if a.stores then (true, Without(loaded, i))
    else (a.exact, row)
  }

  lemma FirstOpenUnique(decrypt: Cipher, codes: seq<string>, a: Attempt, i: nat)
    requires FirstOpenAt(decrypt, codes, a, i)
    ensures i == FirstOpen(decrypt, codes, a)
  {
  }

  /** A code typed as it was displayed is accepted by verifyBackupCode; by VerifyTOTP exactly when it does not have
      eight characters, which every generated code has. */
  lemma DisplayedAcceptedIff(decrypt: Cipher, row: seq<string>, stored: string, code: string, exact: bool)
    requires decrypt(stored) == Some(code)
    ensures Outcome(decrypt, row, [stored], Attempt(Displayed(code), exact, true)).0 <==> !exact || |code| != 8
  {
    var a := Attempt(Displayed(code), exact, true);
    DisplayedMatches(code);
    NormalIff(Displayed(code), code);
    assert FirstOpen(decrypt, [stored], a) == if Opens(decrypt, stored, a) then 0 else 1;
  }

  class MFARepository {
    var backupCodes: seq<string>

    constructor (issued: seq<string>)
      ensures backupCodes == issued
    {
      backupCodes := issued;
    }

    method UpdateBackupCodes(codes: seq<string>, stores: bool) returns (ok: bool)
      modifies this
      ensures ok == stores && backupCodes == if stores then codes else old(backupCodes)
    {
      if stores {
        backupCodes := codes;
      }
      return stores;
    }
  }

  /** The index-skipping copy loop of verifyBackupCode. */
  method CopyExcept(backupCodes: seq<string>, i: nat) returns (newCodes: seq<string>)
    requires i < |backupCodes|
    ensures newCodes == Without(backupCodes, i)
  {
    newCodes := [];
    for j := 0 to |backupCodes|
      invariant newCodes == if j <= i then backupCodes[..j] else backupCodes[..i] + backupCodes[i + 1..j]
    {
      if j != i {
        newCodes := newCodes + [backupCodes[j]];
      }
    }
  }

  /** verifyBackupCode; `ok` is a nil error.  The code is accepted exactly when it is, up to dashes and case, one of
      the stored codes and the list without the first such code was stored. */
  method VerifyBackupCode(repo: MFARepository, decrypt: Cipher, code: string, column: Column, stores: bool)
    returns (ok: bool)
    modifies repo
    ensures column.Malformed? ==> !ok && repo.backupCodes == old(repo.backupCodes)
    ensures !column.Malformed? ==>
              (ok, repo.backupCodes)
              == Outcome(decrypt, old(repo.backupCodes), if column.Stored? then column.codes
                else [], Attempt(code, false, stores))
    ensures ok <==>
              column.Stored? && stores && exists i :: 0 <= i < |column.codes| && Fits(decrypt, column.codes[i], code)
    ensures ok ==> exists i :: 0 <= i < |column.codes| && repo.backupCodes == column.codes[..i] + column.codes[i + 1..]
                     && Fits(decrypt, column.codes[i], code)
                     && forall j :: 0 <= j < i ==> !Fits(decrypt, column.codes[j], code)
    ensures !ok ==> repo.backupCodes == old(repo.backupCodes)
  {
    if column.Malformed? {
      return false;
    }
    var backupCodes := if column.Stored? then column.codes else [];
    ghost var a := Attempt(code, false, stores);
    forall i | 0 <= i < |backupCodes|
      ensures Opens(decrypt, backupCodes[i], a) <==> Fits(decrypt, backupCodes[i], code)
    {
      OpensIff(decrypt, backupCodes[i], a);
    }
    for i := 0 to |backupCodes|
      invariant forall j :: 0 <= j < i ==> !Opens(decrypt, backupCodes[j], a)
      invariant repo.backupCodes == old(repo.backupCodes)
    {
      var decrypted := decrypt(backupCodes[i]);
      if decrypted.Some? {
        var normalizedInput := Normal(code);
        var normalizedStored := Normal(decrypted.value);
        if normalizedInput == normalizedStored {
          var newCodes := CopyExcept(backupCodes, i);
          FirstOpenUnique(decrypt, backupCodes, a, i);
          ok := repo.UpdateBackupCodes(newCodes, stores);
          return;
        }
      }
    }
    FirstOpenUnique(decrypt, backupCodes, a, |backupCodes|);
    return false;
  }

  /** The backup-code branch of VerifyTOTP: exact comparison, two slices joined, and a failed
      write-back is only logged. */
  method AcceptBackupCode(repo: MFARepository, decrypt: Cipher, code: string, column: Column, stores: bool)
    returns (ok: bool)
    modifies repo
    ensures column.Malformed? ==> !ok && repo.backupCodes == old(repo.backupCodes)
    ensures !column.Malformed? ==>
              (ok, repo.backupCodes)
              == Outcome(decrypt, old(repo.backupCodes), if column.Stored? then column.codes
                else [], Attempt(code, true, stores))
    ensures ok <==> column.Stored? && exists i :: 0 <= i < |column.codes| && decrypt(column.codes[i]) == Some(code)
    ensures ok && stores ==>
              exists i :: 0 <= i < |column.codes| && repo.backupCodes == column.codes[..i] + column.codes[i + 1..]
                && decrypt(column.codes[i]) == Some(code)
                && forall j :: 0 <= j < i ==> decrypt(column.codes[j]) != Some(code)
    ensures !ok || !stores ==> repo.backupCodes == old(repo.backupCodes)
  {
    if column.Malformed? {
      return false;
    }
    var encryptedCodes := if column.Stored? then column.codes else [];
    ghost var a := Attempt(code, true, stores);
    for i := 0 to |encryptedCodes|
      invariant forall j :: 0 <= j < i ==> !Opens(decrypt, encryptedCodes[j], a)
      invariant repo.backupCodes == old(repo.backupCodes)
    {
      var decrypted := decrypt(encryptedCodes[i]);
      if decrypted == Some(code) {
        FirstOpenUnique(decrypt, encryptedCodes, a, i);
        var stored := repo.UpdateBackupCodes(encryptedCodes[..i] + encryptedCodes[i + 1..], stores);
        return true;
      }
    }
    FirstOpenUnique(decrypt, encryptedCodes, a, |encryptedCodes|);
    return false;
  }

  // ---------- counting ----------

  predicate Reads(decrypt: Cipher, stored: string, c: string) {
    decrypt(stored).Some? && Normal(decrypt(stored).value) == c
  }

  /** How many stored codes read `c` once normalised. */
  function Issued(decrypt: Cipher, codes: seq<string>, c: string): nat {
    if codes == [] then 0 else (if Reads(decrypt, codes[0], c) then 1 else 0) + Issued(decrypt, codes[1..], c)
  }

  lemma {:induction false} IssuedWithout(decrypt: Cipher, codes: seq<string>, i: nat, c: string)
    requires i < |codes|
    ensures Issued(decrypt, codes, c)
            == Issued(decrypt, Without(codes, i), c) + if Reads(decrypt, codes[i], c) then 1 else 0
  {
    if i == 0 {
      assert Without(codes, 0) == codes[1..];
    } else {
      IssuedWithout(decrypt, codes[1..], i - 1, c);
      assert Without(codes, i)[1..] == Without(codes[1..], i - 1);
    }
  }

  // ---------- requests that may overlap ----------

  /** A request loads the column, and later decides and writes. */
  datatype Step = Load(p: nat) | Finish(p: nat, a: Attempt)

  datatype State = State(row: seq<string>, loaded: map<nat, seq<string>>)

  predicate Enabled(s: State, e: Step) {
    e.Finish? ==> e.p in s.loaded
  }

  function Next(decrypt: Cipher, s: State, e: Step): State
    requires Enabled(s, e)
  {
    match e
    case Load(p) => s.(loaded := s.loaded[p := s.row])
    case Finish(p, a) => State(Outcome(decrypt, s.row, s.loaded[p], a).1, s.loaded - {p})
  }

  predicate CanRun(decrypt: Cipher, s: State, steps: seq<Step>)
    decreases |steps|
  {
    steps == [] || (Enabled(s, steps[0]) && CanRun(decrypt, Next(decrypt, s, steps[0]), steps[1..]))
  }

  function Run(decrypt: Cipher, s: State, steps: seq<Step>): State
    requires CanRun(decrypt, s, steps)
    decreases |steps|
  {
    if steps == [] then s else Run(decrypt, Next(decrypt, s, steps[0]), steps[1..])
  }

  predicate Accepts(decrypt: Cipher, s: State, e: Step)
    requires Enabled(s, e)
  {
    e.Finish? && Outcome(decrypt, s.row, s.loaded[e.p], e.a).0
  }

  /** Accepted presentations of `c` in a run. */
  function Accepted(decrypt: Cipher, s: State, steps: seq<Step>, c: string): nat
    requires CanRun(decrypt, s, steps)
    decreases |steps|
  {
    if steps == [] then 0
    else
      (if Accepts(decrypt, s, steps[0]) && Normal(steps[0].a.code) == c then 1 else 0)
      + Accepted(decrypt, Next(decrypt, s, steps[0]), steps[1..], c)
  }

  /** Those whose write-back failed. */
  function Unrecorded(decrypt: Cipher, s: State, steps: seq<Step>, c: string): nat
    requires CanRun(decrypt, s, steps)
    decreases |steps|
  {
    if steps == [] then 0
    else
      (if Accepts(decrypt, s, steps[0]) && !steps[0].a.stores && Normal(steps[0].a.code) == c then 1 else 0)
      + Unrecorded(decrypt, Next(decrypt, s, steps[0]), steps[1..], c)
  }

  /** A recorded acceptance worked on a list with as many codes `c` as the column still has. */
  predicate Current(decrypt: Cipher, s: State, e: Step, c: string)
    requires Enabled(s, e)
  {
    Accepts(decrypt, s, e) && e.a.stores ==> Issued(decrypt, s.loaded[e.p], c) == Issued(decrypt, s.row, c)
  }

  predicate AllCurrent(decrypt: Cipher, s: State, steps: seq<Step>, c: string)
    requires CanRun(decrypt, s, steps)
    decreases |steps|
  {
    steps == [] || (Current(decrypt, s, steps[0], c) && AllCurrent(decrypt, Next(decrypt, s, steps[0]), steps[1..], c))
  }

  /** A current step keeps the balance of `c`. */
  lemma StepBalances(decrypt: Cipher, s: State, e: Step, c: string)
    requires Enabled(s, e) && Current(decrypt, s, e, c)
    ensures var used := Accepts(decrypt, s, e) && e.a.stores && Normal(e.a.code) == c;
            Issued(decrypt, s.row, c) == Issued(decrypt, Next(decrypt, s, e).row, c) + (if used then 1 else 0)
  {
    if Accepts(decrypt, s, e) && e.a.stores {
      var loaded := s.loaded[e.p];
      var i := FirstOpen(decrypt, loaded, e.a);
      IssuedWithout(decrypt, loaded, i, c);
    }
  }

  /** Conservation: codes issued, plus acceptances not recorded, are codes accepted plus codes left. */
  lemma {:induction false} Conserved(decrypt: Cipher, s: State, steps: seq<Step>, c: string)
    requires CanRun(decrypt, s, steps) && AllCurrent(decrypt, s, steps, c)
    ensures Issued(decrypt, s.row, c) + Unrecorded(decrypt, s, steps, c)
            == Accepted(decrypt, s, steps, c) + Issued(decrypt, Run(decrypt, s, steps).row, c)
    decreases |steps|
  {
    if steps != [] {
      StepBalances(decrypt, s, steps[0], c);
      Conserved(decrypt, Next(decrypt, s, steps[0]), steps[1..], c);
    }
  }

  // ---------- one request after another ----------

  function Serial(attempts: seq<Attempt>): seq<Step> {
    if attempts == [] then [] else [Load(0), Finish(0, attempts[0])] + Serial(attempts[1..])
  }

  function AcceptedInAll(decrypt: Cipher, s: State, steps: seq<Step>): nat
    requires CanRun(decrypt, s, steps)
    decreases |steps|
  {
    if steps == [] then 0
    else (if Accepts(decrypt, s, steps[0]) then 1 else 0) + AcceptedInAll(decrypt, Next(decrypt, s, steps[0]),
      steps[1..])
  }

  /** A run in which requests do not overlap is current for every code; and when every write-back
      succeeds, acceptances and codes left add up to the codes issued. */
  lemma {:induction false} SerialConserved(decrypt: Cipher, s: State, attempts: seq<Attempt>, c: string)
    ensures CanRun(decrypt, s, Serial(attempts)) && AllCurrent(decrypt, s, Serial(attempts), c)
    ensures (forall i :: 0 <= i < |attempts| ==> attempts[i].stores) ==>
              && AcceptedInAll(decrypt, s, Serial(attempts)) + |Run(decrypt, s, Serial(attempts)).row| == |s.row|
              && Unrecorded(decrypt, s, Serial(attempts), c) == 0
    decreases |attempts|
  {
    if attempts != [] {
      var load, finish := Load(0), Finish(0, attempts[0]);
      var mid := Next(decrypt, s, load);
      var end := Next(decrypt, mid, finish);
      var steps := Serial(attempts);
      assert steps[0] == load && steps[1..][0] == finish && steps[1..][1..] == Serial(attempts[1..]);
      SerialConserved(decrypt, end, attempts[1..], c);
    }
  }
}
