/**
 * The brute-force attack: decrypt with keys 2 to 5 in turn and compare each
 * decryption with the password list. An exact match is recorded and ends the
 * attack; fuzzy matches are recorded and the attack goes on; if nothing was
 * recorded the report is a single "not found" entry.
 */
module BruteForce {
  import opened Wrappers
  import opened RailFence
  import opened Passwords

  /** One entry of the report: `{key, decrypted, exactMatch: true}`, `{key, decrypted, similarMatches}` or `{notFound: true}`. */
  datatype Outcome =
    | ExactHit(key: int, decrypted: seq<char>)
    | NearHits(key: int, decrypted: seq<char>, similarMatches: seq<seq<char>>)
    | NotFound

  /** The keys the attack tries, from `FirstKey` to `LastKey`. */
  const FirstKey := 2
  const LastKey := 5

  /** JavaScript truthiness of `exactMatch`: `null` and the empty string are falsy. */
  predicate Truthy(m: Option<seq<char>>)
  {
    m.Some? && m.value != []
  }

  /** What trying one key produced: its decryption and the comparison with the list. */
  datatype Attempt = Attempt(key: int, decrypted: seq<char>, cmp: Comparison)

  function AttemptFor(cipher: seq<char>, list: seq<seq<char>>, key: int): (a: Attempt)
    ensures a.key == key && a.decrypted == Decrypted(cipher, key)
    ensures a.cmp == Compared(a.decrypted, list)
  {
    var d := Decrypted(cipher, key);
    Attempt(key, d, Compared(d, list))
  }

  /** The attempts for keys `FirstKey` to `LastKey`, in the order the loop makes them. */
  function Attempts(cipher: seq<char>, list: seq<seq<char>>): (attempts: seq<Attempt>)
    ensures |attempts| == LastKey - FirstKey + 1
  {
    Tries(key => AttemptFor(cipher, list, key), LastKey - FirstKey + 1)
  }

  /** The attempts `attempt(k)` for the first `n` keys `k` from `FirstKey` on. */
  function Tries(attempt: int -> Attempt, n: nat): (attempts: seq<Attempt>)
    ensures |attempts| == n
  {
    if n == 0 then [] else Tries(attempt, n - 1) + [attempt(FirstKey + n - 1)]
  }

  lemma {:induction false} TriesAt(attempt: int -> Attempt, n: nat, i: nat)
    requires i < n
    ensures Tries(attempt, n)[i] == attempt(FirstKey + i)
  {
    if i < n - 1 {
      TriesAt(attempt, n - 1, i);
    }
  }

  /** Attempt `i` is the attempt for key `FirstKey + i`. */
  lemma AttemptsAt(cipher: seq<char>, list: seq<seq<char>>, i: nat)
    requires i < LastKey - FirstKey + 1
    ensures Attempts(cipher, list)[i] == AttemptFor(cipher, list, FirstKey + i)
  {
    TriesAt(key => AttemptFor(cipher, list, key), LastKey - FirstKey + 1, i);
  }

  /** The attempts are numbered by key, and each holds the decryption under its key and its comparison. */
  lemma AttemptsShape(cipher: seq<char>, list: seq<seq<char>>)
    ensures Consecutive(Attempts(cipher, list), FirstKey)
    ensures forall i :: 0 <= i < |Attempts(cipher, list)| ==>
      var a := Attempts(cipher, list)[i];
      a.decrypted == Decrypted(cipher, a.key) && a.cmp == Compared(a.decrypted, list)
  {
    forall i | 0 <= i < |Attempts(cipher, list)|
      ensures Attempts(cipher, list)[i] == AttemptFor(cipher, list, FirstKey + i)
    {
      AttemptsAt(cipher, list, i);
    }
  }

  /** The attempt ends the attack: the decryption is a password of the list (and not `""`). */
  predicate Stops(a: Attempt)
  {
    Truthy(a.cmp.exactMatch)
  }

  /** The attempt is recorded if the attack reaches it. */
  predicate Hit(a: Attempt)
  {
    Stops(a) || |a.cmp.similarMatches| > 0
  }

  /** The entries the loop records from a run of attempts. */
  function Record(attempts: seq<Attempt>): seq<Outcome>
  {
    if attempts == [] then []
    else
      var a := attempts[0];
      if Truthy(a.cmp.exactMatch) then [ExactHit(a.key, a.decrypted)]
      else if |a.cmp.similarMatches| > 0 then [NearHits(a.key, a.decrypted, a.cmp.similarMatches)] + Record(attempts[1..])
      else Record(attempts[1..])
  }

  /** The whole report. */
  function Report(cipher: seq<char>, list: seq<seq<char>>): seq<Outcome>
  {
    var recorded := Record(Attempts(cipher, list));
    if recorded == [] then [NotFound] else recorded
  }

  /** The entry the attack records for an attempt that is a hit. */
  function EntryFor(a: Attempt): Outcome
  {
    if Stops(a) then ExactHit(a.key, a.decrypted) else NearHits(a.key, a.decrypted, a.cmp.similarMatches)
  }

  /** `e` is the entry of the attempt with its key among `attempts`, numbered from `k0`, and that attempt is a hit. */
  predicate EntryOf(attempts: seq<Attempt>, k0: int, e: Outcome)
  {
    && !e.NotFound?
    && k0 <= e.key < k0 + |attempts|
    && e == EntryFor(attempts[e.key - k0])
    && Hit(attempts[e.key - k0])
  }

  /** Attempts numbered with consecutive keys from `k0`. */
  predicate Consecutive(attempts: seq<Attempt>, k0: int)
  {
    forall i :: 0 <= i < |attempts| ==> attempts[i].key == k0 + i
  }

  /** Unfolding `Record` once: the entry of the first attempt, if any, then the rest. */
  lemma RecordUnfold(attempts: seq<Attempt>)
    requires attempts != []
    ensures var a, rs, tail := attempts[0], Record(attempts), Record(attempts[1..]);
      && (Stops(a) ==> rs == [EntryFor(a)])
      && (!Stops(a) && Hit(a) ==> rs == [EntryFor(a)] + tail)
      && (!Hit(a) ==> rs == tail)
  {
  }

  /**
   * Every entry recorded from attempts with consecutive keys is the entry of
   * the attempt with its key, and that attempt is a hit.
   */
  lemma {:induction false} RecordEntries(attempts: seq<Attempt>, k0: int)
    requires Consecutive(attempts, k0)
    ensures var rs := Record(attempts);
      && |rs| <= |attempts|
      && forall j :: 0 <= j < |rs| ==> EntryOf(attempts, k0, rs[j])
  {
    if attempts != [] {
      var a, rest := attempts[0], attempts[1..];
      assert Consecutive(rest, k0 + 1);
      RecordEntries(rest, k0 + 1);
      RecordUnfold(attempts);
      var rs, tail := Record(attempts), Record(rest);
      forall j | 0 <= j < |rs|
        ensures EntryOf(attempts, k0, rs[j])
      {
        if Stops(a) || (Hit(a) && j == 0) {
          assert rs[j] == EntryFor(attempts[0]);
        } else {
          var e := if Hit(a) then tail[j - 1] else tail[j];
          assert rs[j] == e && EntryOf(rest, k0 + 1, e);
          assert rest[e.key - (k0 + 1)] == attempts[e.key - k0];
        }
      }
    }
  }

  /** The attempt that recorded entry `j`. */
  lemma RecordedAttempt(attempts: seq<Attempt>, k0: int, j: nat) returns (i: nat)
    requires Consecutive(attempts, k0) && j < |Record(attempts)|
    ensures i < |attempts| && attempts[i].key == k0 + i
    ensures Hit(attempts[i]) && Record(attempts)[j] == EntryFor(attempts[i])
  {
    RecordEntries(attempts, k0);
    i := Record(attempts)[j].key - k0;
  }

  /** The recorded keys ascend, and an exact hit can only be the last entry. */
  lemma {:induction false} RecordOrder(attempts: seq<Attempt>, k0: int)
    requires Consecutive(attempts, k0)
    ensures var rs := Record(attempts);
      && (forall i, j :: 0 <= i < j < |rs| ==> !rs[i].NotFound? && !rs[j].NotFound? && rs[i].key < rs[j].key)
      && (forall j :: 0 <= j < |rs| && rs[j].ExactHit? ==> j == |rs| - 1)
  {
    if attempts != [] {
      var a, rest := attempts[0], attempts[1..];
      assert Consecutive(rest, k0 + 1);
      RecordOrder(rest, k0 + 1);
      RecordEntries(rest, k0 + 1);
      RecordUnfold(attempts);
      var rs, tail := Record(attempts), Record(rest);
      if !Stops(a) && Hit(a) {
        forall j | 1 <= j < |rs|
          ensures rs[j] == tail[j - 1]
        {
        }
      }
    }
  }

  /** None of the attempts before index `i` stops the attack. */
  predicate NoStopBefore(attempts: seq<Attempt>, i: nat)
    requires i <= |attempts|
  {
    forall i' :: 0 <= i' < i ==> !Stops(attempts[i'])
  }

  /** Stopping before index `i` means stopping at the first attempt or before index `i - 1` of the rest. */
  lemma NoStopBeforeShift(attempts: seq<Attempt>, i: nat)
    requires 0 < i <= |attempts|
    ensures NoStopBefore(attempts, i) <==> !Stops(attempts[0]) && NoStopBefore(attempts[1..], i - 1)
  {
    assert forall i' :: 0 < i' < i ==> attempts[1..][i' - 1] == attempts[i'];
  }

  /** Entries recorded from attempts numbered from `k0` never carry a key below `k0`. */
  lemma RecordedKeys(attempts: seq<Attempt>, k0: int, e: Outcome)
    requires Consecutive(attempts, k0) && e in Record(attempts)
    ensures !e.NotFound? && k0 <= e.key < k0 + |attempts|
  {
    RecordEntries(attempts, k0);
    var j :| 0 <= j < |Record(attempts)| && Record(attempts)[j] == e;
    assert EntryOf(attempts, k0, Record(attempts)[j]);
  }

  /** An attempt is recorded exactly when it is a hit and no earlier attempt stopped the attack. */
  lemma {:induction false} RecordedExactly(attempts: seq<Attempt>, k0: int, i: nat)
    requires Consecutive(attempts, k0) && i < |attempts|
    ensures EntryFor(attempts[i]) in Record(attempts) <==> Hit(attempts[i]) && NoStopBefore(attempts, i)
  {
    var a, rest := attempts[0], attempts[1..];
    var e := EntryFor(attempts[i]);
    assert Consecutive(rest, k0 + 1);
    RecordUnfold(attempts);
    var rs, tail := Record(attempts), Record(rest);
    if i == 0 {
      if e in tail {
        RecordedKeys(rest, k0 + 1, e);
      }
      assert e !in tail;
      if Stops(a) {
        assert rs == [e];
      } else if Hit(a) {
        assert rs == [e] + tail;
      } else {
        assert rs == tail;
      }
    } else {
      RecordedExactly(rest, k0 + 1, i - 1);
      NoStopBeforeShift(attempts, i);
      assert rest[i - 1] == attempts[i];
      assert e.key == k0 + i && EntryFor(a).key == k0;
      if Stops(a) {
        assert rs == [EntryFor(a)];
      } else if Hit(a) {
        assert rs == [EntryFor(a)] + tail;
        assert e in rs <==> e in tail;
      } else {
        assert rs == tail;
      }
    }
  }

  /** The records of any consecutive run of attempts, in the shape the report promises. */
  lemma RecordShape(attempts: seq<Attempt>, k0: int)
    requires Consecutive(attempts, k0)
    ensures var rs := Record(attempts);
      && |rs| <= |attempts|
      && (rs == [] <==> forall i :: 0 <= i < |attempts| ==> !Hit(attempts[i]))
      && (forall j :: 0 <= j < |rs| ==> !rs[j].NotFound? && k0 <= rs[j].key < k0 + |attempts|)
      && (forall i, j :: 0 <= i < j < |rs| ==> rs[i].key < rs[j].key)
      && (forall j :: 0 <= j < |rs| && rs[j].ExactHit? ==> j == |rs| - 1)
  {
    RecordEntries(attempts, k0);
    RecordOrder(attempts, k0);
    var rs := Record(attempts);
    if rs == [] {
      forall i | 0 <= i < |attempts|
        ensures !Hit(attempts[i])
      {
        if Hit(attempts[i]) {
          var first := FirstStop(attempts, i);
          RecordedExactly(attempts, k0, first);
        }
      }
    } else {
      assert EntryOf(attempts, k0, rs[0]);
    }
  }

  /** The report as the source promises it. */
  lemma ReportShape(cipher: seq<char>, list: seq<seq<char>>)
    ensures var r := Report(cipher, list);
      && 1 <= |r| <= LastKey - FirstKey + 1
      && (r == [NotFound] <==> forall i :: 0 <= i < |Attempts(cipher, list)| ==> !Hit(Attempts(cipher, list)[i]))
      && (r == [NotFound] || forall j :: 0 <= j < |r| ==> !r[j].NotFound? && FirstKey <= r[j].key <= LastKey)
      && (forall i, j :: 0 <= i < j < |r| ==> r[i].key < r[j].key)
      && (forall j :: 0 <= j < |r| && r[j].ExactHit? ==> j == |r| - 1)
  {
    AttemptsShape(cipher, list);
    RecordShape(Attempts(cipher, list), FirstKey);
  }

  /** The entry for a key is reported exactly when that key hits and no smaller key stopped the attack. */
  lemma ReportRecords(cipher: seq<char>, list: seq<seq<char>>, key: int)
    requires FirstKey <= key <= LastKey
    ensures var attempts := Attempts(cipher, list);
      EntryFor(attempts[key - FirstKey]) in Report(cipher, list) <==>
        Hit(attempts[key - FirstKey]) && NoStopBefore(attempts, key - FirstKey)
  {
    AttemptsShape(cipher, list);
    RecordedExactly(Attempts(cipher, list), FirstKey, key - FirstKey);
  }

  /** Some hit is recorded: either attempt `i`, or the first attempt before it that stops the attack. */
  lemma {:induction false} FirstStop(attempts: seq<Attempt>, i: nat) returns (first: nat)
    requires i < |attempts| && Hit(attempts[i])
    ensures first <= i && Hit(attempts[first]) && NoStopBefore(attempts, first)
    decreases i
  {
    if i' :| 0 <= i' < i && Stops(attempts[i']) {
      first := FirstStop(attempts, i');
    } else {
      first := i;
    }
  }

  /** Each recorded entry is the decryption under its key, with what the comparison found. */
  lemma ReportEntries(cipher: seq<char>, list: seq<seq<char>>, j: nat)
    requires j < |Report(cipher, list)| && Report(cipher, list) != [NotFound]
    ensures var e := Report(cipher, list)[j];
      && !e.NotFound?
      && e.decrypted == Decrypted(cipher, e.key)
      && (e.ExactHit? ==> e.decrypted in list && e.decrypted != [])
      && (e.NearHits? ==> e.decrypted !in list && e.similarMatches == SimilarIn(list, e.decrypted) && e.similarMatches != [])
  {
    var attempts := Attempts(cipher, list);
    AttemptsShape(cipher, list);
    var rs := Record(attempts);
    assert rs != [] && Report(cipher, list) == rs;
    var i := RecordedAttempt(attempts, FirstKey, j);
    var e, a := rs[j], attempts[i];
    var cmp := Compared(a.decrypted, list);
    assert a.decrypted == Decrypted(cipher, e.key) && a.cmp == cmp;
    if Stops(a) {
      assert e.decrypted == cmp.exactMatch.value;
    } else {
      assert cmp.exactMatch.None?;
    }
  }

  /** An empty cipher text never matches: `""` is falsy and has no common prefix. */
  lemma EmptyCipherNotFound(list: seq<seq<char>>)
    ensures Report([], list) == [NotFound]
  {
    var attempts := Attempts([], list);
    AttemptsShape([], list);
    forall i | 0 <= i < |attempts|
      ensures !Hit(attempts[i])
    {
      assert Decrypted([], FirstKey + i) == [];
      var sims := SimilarIn(list, []);
      if sims != [] {
        SimilarInMember(list, [], sims[0]);
      }
    }
    ReportShape([], list);
  }

  /**
   * The loop's own view of `Record`: the entries recorded so far are carried
   * in `acc`, and attempts from index `i` on are still to come.
   */
  function Loop(attempts: seq<Attempt>, i: nat, acc: seq<Outcome>): seq<Outcome>
    requires i <= |attempts|
    decreases |attempts| - i
  {
    if i == |attempts| then acc
    else
      var a := attempts[i];
      if Truthy(a.cmp.exactMatch) then acc + [ExactHit(a.key, a.decrypted)]
      else if |a.cmp.similarMatches| > 0 then Loop(attempts, i + 1, acc + [NearHits(a.key, a.decrypted, a.cmp.similarMatches)])
      else Loop(attempts, i + 1, acc)
  }

  /** Running the loop from attempt `i` appends to `acc` what `Record` makes of the remaining attempts. */
  lemma {:induction false} LoopRecord(attempts: seq<Attempt>, i: nat, acc: seq<Outcome>)
    requires i <= |attempts|
    ensures Loop(attempts, i, acc) == acc + Record(attempts[i..])
    decreases |attempts| - i
  {
    var rest := attempts[i..];
    if i == |attempts| {
      assert rest == [];
    } else {
      assert rest[0] == attempts[i];
      assert rest[1..] == attempts[i + 1..];
      RecordUnfold(rest);
      var a := attempts[i];
      if Stops(a) {
      } else if Hit(a) {
        var e := EntryFor(a);
        LoopRecord(attempts, i + 1, acc + [e]);
        assert (acc + [e]) + Record(attempts[i + 1..]) == acc + ([e] + Record(attempts[i + 1..]));
      } else {
        LoopRecord(attempts, i + 1, acc);
      }
    }
  }

  /** The report is what the loop records, or `NotFound` alone when it records nothing. */
  lemma ReportOfLoop(cipher: seq<char>, list: seq<seq<char>>)
    ensures var recorded := Loop(Attempts(cipher, list), 0, []);
      Report(cipher, list) == if recorded == [] then [NotFound] else recorded
  {
    var attempts := Attempts(cipher, list);
    LoopRecord(attempts, 0, []);
    assert attempts[0..] == attempts;
  }

  /** The first two steps of the loop body: decrypt under `key`, then compare the result with the list. */
  method TryKey(cipher: seq<char>, list: seq<seq<char>>, key: int) returns (decrypted: seq<char>, cmp: Comparison)
    requires FirstKey <= key <= LastKey
    ensures Attempt(key, decrypted, cmp) == Attempts(cipher, list)[key - FirstKey]
  {
    decrypted := DecryptRailFence(cipher, key);
    cmp := ComparePasswords(decrypted, list);
    AttemptsAt(cipher, list, key - FirstKey);
  }

  /** bruteForceRailFence as the source runs it. */
  method BruteForceRailFence(cipher: seq<char>, list: seq<seq<char>>) returns (results: seq<Outcome>)
    ensures results == Report(cipher, list)
  {
    ghost var attempts := Attempts(cipher, list);
    results := [];
    var passwordFound := false;
    var key := FirstKey;
    while key <= LastKey
      invariant FirstKey <= key <= LastKey + 1
      invariant Loop(attempts, key - FirstKey, results) == Loop(attempts, 0, [])
      invariant passwordFound <==> |results| > 0
    {
      var decrypted, cmp := TryKey(cipher, list, key);
      if Truthy(cmp.exactMatch) {
        results := results + [ExactHit(key, decrypted)];
        passwordFound := true;
        break;
      } else if |cmp.similarMatches| > 0 {
        results := results + [NearHits(key, decrypted, cmp.similarMatches)];
        passwordFound := true;
      }
      key := key + 1;
    }
    ReportOfLoop(cipher, list);
    if !passwordFound {
      results := results + [NotFound];
    }
  }
}
