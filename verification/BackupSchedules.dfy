/** Which orders of concurrent backup-code requests keep the codes single-use
    (handlers/totp_handler.go:482-507, 742-777).

    A request loads the column, and later decides and writes the shortened list back.  A schedule is the
    order in which the requests do so.  A request compares exactly or normalised, and its write-back
    succeeds or fails; only one that compares exactly is accepted although its write-back failed.  Whatever
    is stored and presented, no code is accepted more often than it was issued exactly when no two requests
    clash: both can be accepted, and the later to finish had loaded before the other finished, or the
    other's write-back failed. */
module BackupSchedules {
  import opened Common
  import opened BackupCodes

  datatype Slot = Loads(p: nat) | Finishes(p: nat)

  /** How a request compares, and whether its write-back succeeds. */
  datatype Mode = Mode(exact: bool, stores: bool)

  type Modes = nat -> Mode
  type Codes = nat -> string

  /** Without either, the error of the write-back refuses the code. */
  predicate Effective(m: Mode) {
    m.exact || m.stores
  }

  predicate Differ(slots: seq<Slot>, i: int, j: int) {
    0 <= i < j < |slots| ==> slots[i] != slots[j]
  }

  /** No slot occurs twice. */
  ghost predicate Distinct(slots: seq<Slot>) {
    forall i, j :: Differ(slots, i, j)
  }

  lemma DistinctTail(slots: seq<Slot>)
    requires Distinct(slots) && slots != []
    ensures Distinct(slots[1..]) && forall j :: 0 < j < |slots| ==> slots[j] != slots[0]
  {
    forall i, j ensures Differ(slots[1..], i, j) { assert Differ(slots, i + 1, j + 1); }
    forall j | 0 < j < |slots| ensures slots[j] != slots[0] { assert Differ(slots, 0, j); }
  }

  /** Request `p` loads before position `j`. */
  predicate LoadsBefore(slots: seq<Slot>, p: nat, j: int) {
    exists i :: 0 <= i < j && i < |slots| && slots[i] == Loads(p)
  }

  /** Every request loads once and finishes at most once, after its load. */
  ghost predicate WellFormed(slots: seq<Slot>) {
    && Distinct(slots)
    && (forall j :: 0 <= j < |slots| && slots[j].Finishes? ==> LoadsBefore(slots, slots[j].p, j))
  }

  /** The requests that finish at `k` and at `j` can both be accepted on the same stored code. */
  predicate Clash(slots: seq<Slot>, modes: Modes, k: int, j: int) {
    && 0 <= k < j < |slots| && slots[k].Finishes? && slots[j].Finishes?
    && Effective(modes(slots[k].p)) && Effective(modes(slots[j].p))
    && (LoadsBefore(slots, slots[j].p, k) || !modes(slots[k].p).stores)
  }

  ghost predicate NoClash(slots: seq<Slot>, modes: Modes) {
    forall k, j :: !Clash(slots, modes, k, j)
  }

  function StepOf(slot: Slot, modes: Modes, codes: Codes): Step {
    if slot.Loads? then Load(slot.p) else Finish(slot.p, Attempt(codes(slot.p), modes(slot.p).exact,
      modes(slot.p).stores))
  }

  /** The run of a schedule in which request `p` presents `codes(p)`. */
  function Steps(slots: seq<Slot>, modes: Modes, codes: Codes): seq<Step> {
    if slots == [] then [] else [StepOf(slots[0], modes, codes)] + Steps(slots[1..], modes, codes)
  }

  lemma StepsTail(slots: seq<Slot>, modes: Modes, codes: Codes)
    requires slots != []
    ensures Steps(slots, modes, codes) != [] && Steps(slots, modes, codes)[0] == StepOf(slots[0], modes, codes)
    ensures Steps(slots, modes, codes)[1..] == Steps(slots[1..], modes, codes)
  {
  }

  // ---------- every schedule can run ----------

  /** What is left of a schedule when `open` requests have loaded. */
  ghost predicate Tail(slots: seq<Slot>, open: set<nat>) {
    && Distinct(slots)
    && (forall j :: 0 <= j < |slots| && slots[j].Finishes? ==> slots[j].p in open || LoadsBefore(slots, slots[j].p, j))
  }

  lemma LoadsBeforeTail(slots: seq<Slot>, p: nat, j: int)
    requires LoadsBefore(slots, p, j) && slots[0] != Loads(p)
    ensures LoadsBefore(slots[1..], p, j - 1)
  {
    var i :| 0 <= i < j && i < |slots| && slots[i] == Loads(p);
    assert slots[1..][i - 1] == Loads(p);
  }

  lemma TailNext(slots: seq<Slot>, open: set<nat>)
    requires Tail(slots, open) && slots != []
    ensures slots[0].Loads? ==> Tail(slots[1..], open + {slots[0].p})
    ensures slots[0].Finishes? ==> slots[0].p in open && Tail(slots[1..], open - {slots[0].p})
  {
    var rest := slots[1..];
    DistinctTail(slots);
    forall j | 0 <= j < |rest| && rest[j].Finishes?
      ensures rest[j].p in open || slots[0] == Loads(rest[j].p) || LoadsBefore(rest, rest[j].p, j)
      ensures slots[0].Finishes? ==> rest[j].p != slots[0].p
    {
      assert rest[j] == slots[j + 1];
      if LoadsBefore(slots, rest[j].p, j + 1) && slots[0] != Loads(rest[j].p) {
        LoadsBeforeTail(slots, rest[j].p, j + 1);
      }
    }
  }

  lemma {:induction false} Runs(decrypt: Cipher, s: State, slots: seq<Slot>, modes: Modes, codes: Codes)
    requires Tail(slots, s.loaded.Keys)
    ensures CanRun(decrypt, s, Steps(slots, modes, codes))
    decreases |slots|
  {
    if slots != [] {
      TailNext(slots, s.loaded.Keys);
      StepsTail(slots, modes, codes);
      var s' := Next(decrypt, s, StepOf(slots[0], modes, codes));
      assert s'.loaded.Keys == if slots[0].Loads? then s.loaded.Keys + {slots[0].p} else s.loaded.Keys - {slots[0].p};
      Runs(decrypt, s', slots[1..], modes, codes);
    }
  }

  /** The requests that have loaded after the first slot. */
  lemma StateNext(decrypt: Cipher, s: State, slots: seq<Slot>, modes: Modes, codes: Codes)
    requires Tail(slots, s.loaded.Keys) && slots != []
    ensures Enabled(s, StepOf(slots[0], modes, codes))
    ensures var s' := Next(decrypt, s, StepOf(slots[0], modes, codes));
            && s'.loaded.Keys == (if slots[0].Loads? then s.loaded.Keys + {slots[0].p}
              else s.loaded.Keys - {slots[0].p})
            && Tail(slots[1..], s'.loaded.Keys)
  {
    TailNext(slots, s.loaded.Keys);
    var s' := Next(decrypt, s, StepOf(slots[0], modes, codes));
    assert s'.loaded.Keys == if slots[0].Loads? then s.loaded.Keys + {slots[0].p} else s.loaded.Keys - {slots[0].p};
  }

  /** What the first slot adds to the acceptances of `c`. */
  lemma AcceptedTail(decrypt: Cipher, s: State, slots: seq<Slot>, modes: Modes, codes: Codes, c: string)
    requires slots != [] && CanRun(decrypt, s, Steps(slots, modes, codes))
    ensures var e := StepOf(slots[0], modes, codes);
            && Enabled(s, e) && CanRun(decrypt, Next(decrypt, s, e), Steps(slots[1..], modes, codes))
            && Accepted(decrypt, s, Steps(slots, modes, codes), c)
               == (if Accepts(decrypt, s, e) && Normal(e.a.code) == c then 1 else 0)
                  + Accepted(decrypt, Next(decrypt, s, e), Steps(slots[1..], modes, codes), c)
  {
    StepsTail(slots, modes, codes);
  }

  // ---------- without a clash ----------

  /** A request that has loaded and can be accepted works on the list the column holds, and no other such
      request finishes before it. */
  ghost predicate UpToDate(s: State, slots: seq<Slot>, modes: Modes) {
    forall j :: 0 <= j < |slots| && slots[j].Finishes? && slots[j].p in s.loaded && Effective(modes(slots[j].p)) ==>
      UpToDateAt(s, slots, modes, j)
  }

  ghost predicate UpToDateAt(s: State, slots: seq<Slot>, modes: Modes, j: nat)
    requires j < |slots| && slots[j].p in s.loaded
  {
    s.loaded[slots[j].p] == s.row && forall k :: 0 <= k < j ==> !EffectiveFinish(slots, modes, k)
  }

  predicate EffectiveFinish(slots: seq<Slot>, modes: Modes, k: int) {
    0 <= k < |slots| && slots[k].Finishes? && Effective(modes(slots[k].p))
  }

  lemma NoClashTail(slots: seq<Slot>, modes: Modes)
    requires NoClash(slots, modes) && slots != []
    ensures NoClash(slots[1..], modes)
  {
    var rest := slots[1..];
    forall k, j ensures !Clash(rest, modes, k, j) {
      assert !Clash(slots, modes, k + 1, j + 1);
      if 0 <= k < j < |rest| && rest[j].Finishes? && LoadsBefore(rest, rest[j].p, k) {
        var i :| 0 <= i < k && i < |rest| && rest[i] == Loads(rest[j].p);
        assert slots[i + 1] == Loads(slots[j + 1].p);
      }
    }
  }

  lemma UpToDateNext(decrypt: Cipher, s: State, slots: seq<Slot>, modes: Modes, codes: Codes)
    requires NoClash(slots, modes) && UpToDate(s, slots, modes) && slots != []
             && Enabled(s, StepOf(slots[0], modes, codes))
    ensures UpToDate(Next(decrypt, s, StepOf(slots[0], modes, codes)), slots[1..], modes)
  {
    var s', rest := Next(decrypt, s, StepOf(slots[0], modes, codes)), slots[1..];
    forall j | 0 <= j < |rest| && rest[j].Finishes? && rest[j].p in s'.loaded && Effective(modes(rest[j].p))
      ensures UpToDateAt(s', rest, modes, j)
    {
      assert rest[j] == slots[j + 1];
      if slots[0].Loads? && slots[0].p == rest[j].p {
        forall k | 0 <= k < j ensures !EffectiveFinish(rest, modes, k) {
          assert LoadsBefore(slots, rest[j].p, k + 1);
          assert !Clash(slots, modes, k + 1, j + 1);
        }
      } else {
        assert UpToDateAt(s, slots, modes, j + 1);
        assert !EffectiveFinish(slots, modes, 0);
        forall k | 0 <= k < j ensures !EffectiveFinish(rest, modes, k) {
          assert !EffectiveFinish(slots, modes, k + 1);
        }
      }
    }
  }

  /** Where nobody can be accepted any more, nobody is. */
  lemma {:induction false} NoneAccepted(decrypt: Cipher, s: State, slots: seq<Slot>, modes: Modes, codes: Codes,
                                        c: string)
    requires CanRun(decrypt, s, Steps(slots, modes, codes)) && forall k :: !EffectiveFinish(slots, modes, k)
    ensures Accepted(decrypt, s, Steps(slots, modes, codes), c) == 0
    decreases |slots|
  {
    if slots != [] {
      AcceptedTail(decrypt, s, slots, modes, codes, c);
      assert !EffectiveFinish(slots, modes, 0);
      forall k ensures !EffectiveFinish(slots[1..], modes, k) { assert !EffectiveFinish(slots, modes, k + 1); }
      NoneAccepted(decrypt, Next(decrypt, s, StepOf(slots[0], modes, codes)), slots[1..], modes, codes, c);
    }
  }

  /** A finish on the list the column holds uses up a stored code, or leaves it there. */
  lemma FinishBalances(decrypt: Cipher, s: State, e: Step, c: string)
    requires Enabled(s, e) && e.Finish? && s.loaded[e.p] == s.row && Accepts(decrypt, s, e)
    ensures Issued(decrypt, s.row, c)
            == Issued(decrypt, Next(decrypt, s, e).row, c) + (if e.a.stores && Normal(e.a.code) == c then 1 else 0)
    ensures Normal(e.a.code) == c ==> Issued(decrypt, s.row, c) >= 1
  {
    IssuedWithout(decrypt, s.row, FirstOpen(decrypt, s.row, e.a), c);
  }

  /** After a failed write-back that was accepted, nobody else can be. */
  lemma LastEffective(slots: seq<Slot>, modes: Modes)
    requires NoClash(slots, modes) && EffectiveFinish(slots, modes, 0) && !modes(slots[0].p).stores
    ensures forall k :: !EffectiveFinish(slots[1..], modes, k)
  {
    forall k ensures !EffectiveFinish(slots[1..], modes, k) {
      assert !Clash(slots, modes, 0, k + 1);
    }
  }

  lemma {:induction false} UpToDateIsFair(decrypt: Cipher, s: State, slots: seq<Slot>, modes: Modes, codes: Codes,
                                          c: string)
    requires Tail(slots, s.loaded.Keys) && NoClash(slots, modes) && UpToDate(s, slots, modes)
    ensures CanRun(decrypt, s, Steps(slots, modes, codes))
    ensures Accepted(decrypt, s, Steps(slots, modes, codes), c) <= Issued(decrypt, s.row, c)
    decreases |slots|
  {
    Runs(decrypt, s, slots, modes, codes);
    if slots != [] {
      StateNext(decrypt, s, slots, modes, codes);
      NoClashTail(slots, modes);
      UpToDateNext(decrypt, s, slots, modes, codes);
      var e := StepOf(slots[0], modes, codes);
      UpToDateIsFair(decrypt, Next(decrypt, s, e), slots[1..], modes, codes, c);
      FirstSlotFair(decrypt, s, slots, modes, codes, c);
    }
  }

  lemma FirstSlotFair(decrypt: Cipher, s: State, slots: seq<Slot>, modes: Modes, codes: Codes, c: string)
    requires slots != [] && CanRun(decrypt, s, Steps(slots, modes, codes)) && Enabled(s, StepOf(slots[0], modes, codes))
    requires NoClash(slots, modes) && UpToDate(s, slots, modes)
    requires var s' := Next(decrypt, s, StepOf(slots[0], modes, codes));
             && CanRun(decrypt, s', Steps(slots[1..], modes, codes))
             && Accepted(decrypt, s', Steps(slots[1..], modes, codes), c) <= Issued(decrypt, s'.row, c)
    ensures Accepted(decrypt, s, Steps(slots, modes, codes), c) <= Issued(decrypt, s.row, c)
  {
    var e := StepOf(slots[0], modes, codes);
    AcceptedTail(decrypt, s, slots, modes, codes, c);
    if EffectiveFinish(slots, modes, 0) {
      assert UpToDateAt(s, slots, modes, 0);
      if Accepts(decrypt, s, e) {
        FinishBalances(decrypt, s, e, c);
        if !e.a.stores {
          LastEffective(slots, modes);
          NoneAccepted(decrypt, Next(decrypt, s, e), slots[1..], modes, codes, c);
        }
      }
    }
  }

  // ---------- with a clash ----------

  /** Two requests present the one stored code, all others one that does not fit. */
  function TwoPresent(plain: string, p: nat, q: nat): Codes {
    (x: nat) => if x == p || x == q then plain else Other(plain)
  }

  function Other(plain: string): string {
    if Normal(plain) == "" then "0" else ""
  }

  lemma OtherDiffers(plain: string)
    ensures Normal(Other(plain)) != Normal(plain)
  {
    assert Normal("0") == ['0'] + Normal("0"[1..]);
  }

  lemma OneStored(decrypt: Cipher, stored: string, plain: string, row: seq<string>, m: Mode)
    requires decrypt(stored) == Some(plain)
    ensures Outcome(decrypt, row, [stored], Attempt(plain, m.exact, m.stores)) == if m.stores then (true, [])
            else (m.exact, row)
    ensures Outcome(decrypt, row, [stored], Attempt(Other(plain), m.exact, m.stores)) == (false, row)
  {
    var fits, other := Attempt(plain, m.exact, m.stores), Attempt(Other(plain), m.exact, m.stores);
    OtherDiffers(plain);
    assert Opens(decrypt, stored, fits) && !Opens(decrypt, stored, other);
    FirstOpenUnique(decrypt, [stored], fits, 0);
    FirstOpenUnique(decrypt, [stored], other, 1);
    assert Without([stored], 0) == [];
  }

  lemma LoadsBeforeAgain(slots: seq<Slot>, p: nat)
    requires !LoadsBefore(slots, p, |slots|) && slots != []
    ensures !LoadsBefore(slots[1..], p, |slots| - 1) && slots[0] != Loads(p)
  {
    forall i | 0 <= i < |slots| - 1 ensures slots[1..][i] != Loads(p) { assert slots[i + 1] != Loads(p); }
    assert slots[0] != Loads(p);
  }

  /** Request `p` still holds the list with the stored code, and finishes at `j`. */
  ghost predicate Holding(s: State, stored: string, slots: seq<Slot>, p: nat, j: nat) {
    && Tail(slots, s.loaded.Keys) && j < |slots| && slots[j] == Finishes(p)
    && p in s.loaded && s.loaded[p] == [stored] && !LoadsBefore(slots, p, |slots|)
  }

  lemma HoldingNext(decrypt: Cipher, stored: string, s: State, slots: seq<Slot>, modes: Modes, codes: Codes, p: nat,
                    j: nat)
    returns (s': State, rest: seq<Slot>)
    requires Holding(s, stored, slots, p, j) && 0 < j
    ensures rest == slots[1..] && Enabled(s, StepOf(slots[0], modes, codes))
    ensures s' == Next(decrypt, s, StepOf(slots[0], modes, codes)) && Holding(s', stored, rest, p, j - 1)
  {
    s', rest := Next(decrypt, s, StepOf(slots[0], modes, codes)), slots[1..];
    StateNext(decrypt, s, slots, modes, codes);
    DistinctTail(slots);
    assert rest[j - 1] == slots[j];
    LoadsBeforeAgain(slots, p);
  }

  lemma {:induction false} HolderAccepted(decrypt: Cipher, stored: string, plain: string, s: State, slots: seq<Slot>,
                                          modes: Modes,
                                          p: nat, q: nat, j: nat)
    requires decrypt(stored) == Some(plain) && Holding(s, stored, slots, p, j) && Effective(modes(p))
    ensures CanRun(decrypt, s, Steps(slots, modes, TwoPresent(plain, p, q)))
    ensures Accepted(decrypt, s, Steps(slots, modes, TwoPresent(plain, p, q)), Normal(plain)) >= 1
    decreases |slots|
  {
    var codes := TwoPresent(plain, p, q);
    Runs(decrypt, s, slots, modes, codes);
    AcceptedTail(decrypt, s, slots, modes, codes, Normal(plain));
    if j == 0 {
      OneStored(decrypt, stored, plain, s.row, modes(p));
    } else {
      var s', rest := HoldingNext(decrypt, stored, s, slots, modes, codes, p, j);
      HolderAccepted(decrypt, stored, plain, s', rest, modes, p, q, j - 1);
    }
  }

  ghost predicate AllHold(s: State, stored: string) {
    s.row == [stored] && forall x :: x in s.loaded ==> s.loaded[x] == [stored]
  }

  lemma AllHoldNext(decrypt: Cipher, stored: string, plain: string, s: State, e: Step)
    requires decrypt(stored) == Some(plain) && AllHold(s, stored) && Enabled(s, e)
    requires e.Finish? ==> e.a.code == Other(plain) || (e.a.code == plain && !e.a.stores)
    ensures AllHold(Next(decrypt, s, e), stored)
  {
    if e.Finish? {
      OneStored(decrypt, stored, plain, s.row, Mode(e.a.exact, e.a.stores));
    }
  }

  /** After an acceptance that was not written back the column is as before. */
  lemma {:induction false} AgainAccepted(decrypt: Cipher, stored: string, plain: string, s: State, slots: seq<Slot>,
                                         modes: Modes,
                                         p: nat, q: nat, j: nat)
    requires decrypt(stored) == Some(plain) && AllHold(s, stored) && Tail(slots, s.loaded.Keys)
    requires j < |slots| && slots[j] == Finishes(p) && Effective(modes(p))
    requires forall i :: 0 <= i < |slots| ==> slots[i] != Finishes(q)
    ensures CanRun(decrypt, s, Steps(slots, modes, TwoPresent(plain, p, q)))
    ensures Accepted(decrypt, s, Steps(slots, modes, TwoPresent(plain, p, q)), Normal(plain)) >= 1
    decreases |slots|
  {
    var codes := TwoPresent(plain, p, q);
    Runs(decrypt, s, slots, modes, codes);
    AcceptedTail(decrypt, s, slots, modes, codes, Normal(plain));
    StateNext(decrypt, s, slots, modes, codes);
    if j == 0 {
      OneStored(decrypt, stored, plain, s.row, modes(p));
    } else {
      DistinctTail(slots);
      assert slots[0] != slots[j] && slots[1..][j - 1] == slots[j];
      AllHoldNext(decrypt, stored, plain, s, StepOf(slots[0], modes, codes));
      AgainAccepted(decrypt, stored, plain, Next(decrypt, s, StepOf(slots[0], modes, codes)), slots[1..], modes, p, q,
        j - 1);
    }
  }

  /** Request `p` holds the list, or loads it before position `k`. */
  ghost predicate WillHold(s: State, slots: seq<Slot>, p: nat, k: nat) {
    if p in s.loaded then !LoadsBefore(slots, p, |slots|) else LoadsBefore(slots, p, k)
  }

  lemma WillHoldNext(s: State, s': State, slots: seq<Slot>, p: nat, k: nat)
    requires 0 < k < |slots| && WillHold(s, slots, p, k) && slots[0] != Finishes(p) && Distinct(slots)
    requires s'.loaded.Keys == if slots[0].Loads? then s.loaded.Keys + {slots[0].p} else s.loaded.Keys - {slots[0].p}
    ensures WillHold(s', slots[1..], p, k - 1)
  {
    var rest := slots[1..];
    DistinctTail(slots);
    if p in s.loaded {
      LoadsBeforeAgain(slots, p);
    } else if slots[0] == Loads(p) {
      forall i | 0 <= i < |rest| ensures rest[i] != Loads(p) { assert rest[i] == slots[i + 1]; }
    } else {
      LoadsBeforeTail(slots, p, k);
    }
  }

  /** Nothing has been accepted; `q` finishes at `k` and `p` at `j`, and then the stored code is still
      there for `p`. */
  ghost predicate Poised(s: State, stored: string, slots: seq<Slot>, modes: Modes, p: nat, q: nat, k: nat, j: nat) {
    && Tail(slots, s.loaded.Keys) && AllHold(s, stored) && p != q && Effective(modes(p)) && Effective(modes(q))
    && k < j < |slots| && slots[k] == Finishes(q) && slots[j] == Finishes(p)
    && (WillHold(s, slots, p, k) || !modes(q).stores)
  }

  /** A slot before the first of the two finishes changes nothing for them. */
  lemma PoisedNext(decrypt: Cipher, stored: string, plain: string, s: State, slots: seq<Slot>, modes: Modes,
                   p: nat, q: nat, k: nat, j: nat) returns (s': State, rest: seq<Slot>)
    requires decrypt(stored) == Some(plain) && 0 < k && Poised(s, stored, slots, modes, p, q, k, j)
    ensures rest == slots[1..] && Enabled(s, StepOf(slots[0], modes, TwoPresent(plain, p, q)))
    ensures s' == Next(decrypt, s, StepOf(slots[0], modes, TwoPresent(plain, p, q)))
    ensures Poised(s', stored, rest, modes, p, q, k - 1, j - 1)
  {
    var codes := TwoPresent(plain, p, q);
    s', rest := Next(decrypt, s, StepOf(slots[0], modes, codes)), slots[1..];
    StateNext(decrypt, s, slots, modes, codes);
    DistinctTail(slots);
    assert slots[0] != slots[k] && slots[0] != slots[j];
    AllHoldNext(decrypt, stored, plain, s, StepOf(slots[0], modes, codes));
    if WillHold(s, slots, p, k) {
      WillHoldNext(s, s', slots, p, k);
    }
  }

  lemma FirstAccepted(decrypt: Cipher, stored: string, plain: string, s: State, slots: seq<Slot>, modes: Modes,
                      p: nat, q: nat, j: nat)
    requires decrypt(stored) == Some(plain) && Poised(s, stored, slots, modes, p, q, 0, j)
    ensures CanRun(decrypt, s, Steps(slots, modes, TwoPresent(plain, p, q)))
    ensures Accepted(decrypt, s, Steps(slots, modes, TwoPresent(plain, p, q)), Normal(plain)) >= 2
  {
    var codes := TwoPresent(plain, p, q);
    Runs(decrypt, s, slots, modes, codes);
    AcceptedTail(decrypt, s, slots, modes, codes, Normal(plain));
    StateNext(decrypt, s, slots, modes, codes);
    OneStored(decrypt, stored, plain, s.row, modes(q));
    DistinctTail(slots);
    var rest, s' := slots[1..], Next(decrypt, s, StepOf(slots[0], modes, codes));
    assert rest[j - 1] == slots[j];
    if modes(q).stores {
      LoadsBeforeAgain(slots, p);
      HolderAccepted(decrypt, stored, plain, s', rest, modes, p, q, j - 1);
    } else {
      AllHoldNext(decrypt, stored, plain, s, StepOf(slots[0], modes, codes));
      AgainAccepted(decrypt, stored, plain, s', rest, modes, p, q, j - 1);
    }
  }

  /** Up to the first acceptance everybody loads the one stored code. */
  lemma {:induction false} BothAccepted(decrypt: Cipher, stored: string, plain: string, s: State, slots: seq<Slot>,
                                        modes: Modes,
                                        p: nat, q: nat, k: nat, j: nat)
    requires decrypt(stored) == Some(plain) && Poised(s, stored, slots, modes, p, q, k, j)
    ensures CanRun(decrypt, s, Steps(slots, modes, TwoPresent(plain, p, q)))
    ensures Accepted(decrypt, s, Steps(slots, modes, TwoPresent(plain, p, q)), Normal(plain)) >= 2
    decreases |slots|
  {
    if k == 0 {
      FirstAccepted(decrypt, stored, plain, s, slots, modes, p, q, j);
    } else {
      var s', rest := PoisedNext(decrypt, stored, plain, s, slots, modes, p, q, k, j);
      BothAccepted(decrypt, stored, plain, s', rest, modes, p, q, k - 1, j - 1);
      Runs(decrypt, s, slots, modes, TwoPresent(plain, p, q));
      AcceptedTail(decrypt, s, slots, modes, TwoPresent(plain, p, q), Normal(plain));
    }
  }

  // ---------- exactly the schedules without a clash ----------

  /** On this list and with these codes presented, `c` is accepted at most as often as it was issued. */
  ghost predicate Fair(decrypt: Cipher, slots: seq<Slot>, modes: Modes, row: seq<string>, codes: Codes, c: string) {
    && CanRun(decrypt, State(row, map[]), Steps(slots, modes, codes))
    && Accepted(decrypt, State(row, map[]), Steps(slots, modes, codes), c) <= Issued(decrypt, row, c)
  }

  lemma NoClashIsFair(decrypt: Cipher, slots: seq<Slot>, modes: Modes, row: seq<string>, codes: Codes, c: string)
    requires WellFormed(slots) && NoClash(slots, modes)
    ensures Fair(decrypt, slots, modes, row, codes, c)
  {
    UpToDateIsFair(decrypt, State(row, map[]), slots, modes, codes, c);
  }

  /** Whenever two requests clash, one stored code is accepted twice. */
  lemma ClashAcceptsTwice(decrypt: Cipher, stored: string, plain: string, slots: seq<Slot>, modes: Modes, k: int,
                          j: int)
    requires decrypt(stored) == Some(plain) && WellFormed(slots) && Clash(slots, modes, k, j)
    ensures !Fair(decrypt, slots, modes, [stored], TwoPresent(plain, slots[j].p, slots[k].p), Normal(plain))
  {
    var s, p, q := State([stored], map[]), slots[j].p, slots[k].p;
    assert p != q by { assert Differ(slots, k, j); }
    BothAccepted(decrypt, stored, plain, s, slots, modes, p, q, k, j);
    assert Issued(decrypt, [stored], Normal(plain)) == 1 + Issued(decrypt, [stored][1..], Normal(plain));
  }

  /** A finish between the load and the finish of another request, all written back. */
  lemma OverlapAcceptsTwice(decrypt: Cipher, stored: string, plain: string, slots: seq<Slot>, modes: Modes, i: int,
                            k: int, j: int)
    requires decrypt(stored) == Some(plain) && WellFormed(slots) && 0 <= i < k < j < |slots|
    requires slots[i].Loads? && slots[k].Finishes? && slots[j] == Finishes(slots[i].p)
    requires modes(slots[k].p).stores && modes(slots[j].p).stores
    ensures !Fair(decrypt, slots, modes, [stored], TwoPresent(plain, slots[j].p, slots[k].p), Normal(plain))
  {
    assert LoadsBefore(slots, slots[j].p, k);
    ClashAcceptsTwice(decrypt, stored, plain, slots, modes, k, j);
  }

  /** A failed write-back after an exact comparison, and one request after it: no overlap is needed. */
  lemma UnstoredAcceptsTwice(decrypt: Cipher, stored: string, plain: string, slots: seq<Slot>, modes: Modes, k: int,
                             j: int)
    requires decrypt(stored) == Some(plain) && WellFormed(slots) && 0 <= k < j < |slots| && slots[k].Finishes?
             && slots[j].Finishes?
    requires modes(slots[k].p) == Mode(true, false) && Effective(modes(slots[j].p))
    ensures !Fair(decrypt, slots, modes, [stored], TwoPresent(plain, slots[j].p, slots[k].p), Normal(plain))
  {
    ClashAcceptsTwice(decrypt, stored, plain, slots, modes, k, j);
  }

  /** A schedule accepts every code at most as often as it was issued, on every list and for every choice of
      presented codes, exactly when no two of its requests clash. */
  lemma FairIff(decrypt: Cipher, stored: string, plain: string, slots: seq<Slot>, modes: Modes)
    requires decrypt(stored) == Some(plain) && WellFormed(slots)
    ensures (forall row, codes, c :: Fair(decrypt, slots, modes, row, codes, c)) <==> NoClash(slots, modes)
  {
    if NoClash(slots, modes) {
      forall row, codes, c ensures Fair(decrypt, slots, modes, row, codes, c) {
        NoClashIsFair(decrypt, slots, modes, row, codes, c);
      }
    } else {
      var k, j :| Clash(slots, modes, k, j);
      ClashAcceptsTwice(decrypt, stored, plain, slots, modes, k, j);
    }
  }
}
