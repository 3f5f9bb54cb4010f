/**
 * Unsupervised analysis: decrypt the cipher text with every key from 2 to
 * `min(10, length)`, score each result by how many pieces `split(' ')`
 * cuts it into, sort the candidates by score (highest first, stable) and
 * keep the first four.
 */
module Analysis {
  import opened RailFence

  /** One row of the analysis: the key tried, its decryption and its score. */
  datatype Candidate = Candidate(key: int, decrypted: seq<char>, score: int)

  function Min(a: int, b: int): int { if a <= b then a else b }

  function Max(a: int, b: int): int { if a >= b then a else b }

  /** `s.split(sep)`: the pieces of `s` between occurrences of `sep`. */
  function Split(s: seq<char>, sep: char): (parts: seq<seq<char>>)
    ensures |parts| >= 1
  {
    if s == [] then [[]]
    else
      var rest := Split(s[1..], sep);
      if s[0] == sep then [[]] + rest else [[s[0]] + rest[0]] + rest[1..]
  }

  /** `parts.join(sep)`. */
  function Join(parts: seq<seq<char>>, sep: char): seq<char>
  {
    if parts == [] then []
    else if |parts| == 1 then parts[0]
    else parts[0] + [sep] + Join(parts[1..], sep)
  }

  /** Splitting loses nothing: the pieces hold no separator and join back to the text. */
  lemma {:induction false} SplitJoin(s: seq<char>, sep: char)
    ensures Join(Split(s, sep), sep) == s
    ensures forall k :: 0 <= k < |Split(s, sep)| ==> sep !in Split(s, sep)[k]
  {
    if s != [] {
      SplitJoin(s[1..], sep);
      var rest := Split(s[1..], sep);
      if s[0] == sep {
        assert ([[]] + rest)[1..] == rest;
      } else if |rest| > 1 {
        assert ([[s[0]] + rest[0]] + rest[1..])[1..] == rest[1..];
        assert Join(rest, sep) == rest[0] + [sep] + Join(rest[1..], sep);
      }
    }
  }

  /** The number of pieces is one more than the number of separators. */
  lemma {:induction false} SplitCount(s: seq<char>, sep: char)
    ensures |Split(s, sep)| == multiset(s)[sep] + 1
  {
    if s != [] {
      SplitCount(s[1..], sep);
      assert s == [s[0]] + s[1..];
    }
  }

  /** The word-count score of a decryption. */
  function Score(text: seq<char>): int
  {
    |Split(text, ' ')|
  }

  /** Highest score first. */
  predicate SortedByScore(s: seq<Candidate>)
  {
    forall i, j :: 0 <= i < j < |s| ==> s[i].score >= s[j].score
  }

  /** The candidates of `s` with score `v`, in their order in `s`. */
  function WithScore(s: seq<Candidate>, v: int): seq<Candidate>
  {
    if s == [] then []
    else WithScore(s[..|s| - 1], v) + (if s[|s| - 1].score == v then [s[|s| - 1]] else [])
  }

  /** Put `x` after every candidate whose score is at least its own. */
  function Insert(x: Candidate, s: seq<Candidate>): seq<Candidate>
  {
    if s == [] || s[|s| - 1].score >= x.score then s + [x]
    else Insert(x, s[..|s| - 1]) + [s[|s| - 1]]
  }

  /**
   * `results.sort((a, b) => b.score - a.score)`: the stable sort of the
   * JavaScript library with a comparator that puts higher scores first,
   * written as an insertion sort.
   */
  function SortByScore(s: seq<Candidate>): seq<Candidate>
  {
    if s == [] then [] else Insert(s[|s| - 1], SortByScore(s[..|s| - 1]))
  }

  lemma {:induction false} InsertPermutation(x: Candidate, s: seq<Candidate>)
    ensures multiset(Insert(x, s)) == multiset(s) + multiset{x}
  {
    if s != [] && s[|s| - 1].score < x.score {
      var init, last := s[..|s| - 1], s[|s| - 1];
      assert s == init + [last];
      InsertPermutation(x, init);
    }
  }

  lemma {:induction false} InsertSorted(x: Candidate, s: seq<Candidate>)
    requires SortedByScore(s)
    ensures SortedByScore(Insert(x, s))
  {
    if s != [] && s[|s| - 1].score < x.score {
      var init, last := s[..|s| - 1], s[|s| - 1];
      InsertSorted(x, init);
      InsertPermutation(x, init);
      var r := Insert(x, init);
      forall k | 0 <= k < |r|
        ensures r[k].score >= last.score
      {
        assert r[k] in multiset(r);
        if r[k] != x {
          assert r[k] in multiset(init);
          var m :| 0 <= m < |init| && init[m] == r[k];
          assert s[m] == r[k];
        }
      }
      assert Insert(x, s) == r + [last];
    }
  }

  /** The sort is a permutation and puts the highest scores first. */
  lemma {:induction false} SortSorted(s: seq<Candidate>)
    ensures multiset(SortByScore(s)) == multiset(s)
    ensures SortedByScore(SortByScore(s))
  {
    if s != [] {
      var init := s[..|s| - 1];
      SortSorted(init);
      InsertSorted(s[|s| - 1], SortByScore(init));
      InsertPermutation(s[|s| - 1], SortByScore(init));
      assert s == init + [s[|s| - 1]];
    }
  }

  lemma {:induction false} InsertStable(x: Candidate, s: seq<Candidate>, v: int)
    ensures WithScore(Insert(x, s), v) == WithScore(s, v) + (if x.score == v then [x] else [])
  {
    if s == [] || s[|s| - 1].score >= x.score {
      assert (s + [x])[..|s|] == s;
    } else {
      var init, last := s[..|s| - 1], s[|s| - 1];
      InsertStable(x, init, v);
      var r := Insert(x, init);
      assert (r + [last])[..|r|] == r;
    }
  }

  /** The sort is stable: candidates of equal score keep their relative order. */
  lemma {:induction false} SortStable(s: seq<Candidate>, v: int)
    ensures WithScore(SortByScore(s), v) == WithScore(s, v)
  {
    if s != [] {
      var init := s[..|s| - 1];
      SortStable(init, v);
      InsertStable(s[|s| - 1], SortByScore(init), v);
    }
  }

  /** When every score is the same, the sort leaves the candidates where they are. */
  lemma {:induction false} SortEqualScores(s: seq<Candidate>, v: int)
    requires forall k :: 0 <= k < |s| ==> s[k].score == v
    ensures SortByScore(s) == s
  {
    if s != [] {
      var init := s[..|s| - 1];
      SortEqualScores(init, v);
      assert init + [s[|s| - 1]] == s;
    }
  }

  /** How many keys the analysis tries: 2 up to `min(10, |cipher|)`. */
  function KeysTried(cipher: seq<char>): nat
  {
    Max(0, Min(10, |cipher|) - 1)
  }

  /** The row the analysis builds for `key`. */
  function CandidateFor(cipher: seq<char>, key: int): Candidate
  {
    var d := Decrypted(cipher, key);
    Candidate(key, d, Score(d))
  }

  /** The rows in the order the loop pushes them: keys ascending from 2. */
  function Candidates(cipher: seq<char>): seq<Candidate>
  {
    seq(KeysTried(cipher), j => CandidateFor(cipher, j + 2))
  }

  /** The first four rows after sorting by score. */
  function Analysis(cipher: seq<char>): seq<Candidate>
  {
    var sorted := SortByScore(Candidates(cipher));
    sorted[..Min(4, |sorted|)]
  }

  /** Every decryption has as many spaces as the cipher text, so all scores agree. */
  lemma ScoreOfEveryKey(cipher: seq<char>, key: int)
    ensures CandidateFor(cipher, key).score == multiset(cipher)[' '] + 1
  {
    DecryptedPermutation(cipher, key);
    SplitCount(Decrypted(cipher, key), ' ');
  }

  /**
   * Since the scores all agree and the sort is stable, the analysis returns
   * the first `min(4, KeysTried)` keys in ascending order.
   */
  lemma AnalysisInKeyOrder(cipher: seq<char>)
    ensures |Analysis(cipher)| == Min(4, KeysTried(cipher))
    ensures forall j :: 0 <= j < |Analysis(cipher)| ==>
      Analysis(cipher)[j] == Candidate(j + 2, Decrypted(cipher, j + 2), multiset(cipher)[' '] + 1)
  {
    var cands := Candidates(cipher);
    var v := multiset(cipher)[' '] + 1;
    CandidatesInKeyOrder(cipher);
    SortEqualScores(cands, v);
    assert Analysis(cipher) == cands[..Min(4, |cands|)];
  }

  /** The rows before sorting: key `j + 2` at index `j`, all with the same score. */
  lemma CandidatesInKeyOrder(cipher: seq<char>)
    ensures |Candidates(cipher)| == KeysTried(cipher)
    ensures forall k :: 0 <= k < |Candidates(cipher)| ==>
      Candidates(cipher)[k] == Candidate(k + 2, Decrypted(cipher, k + 2), multiset(cipher)[' '] + 1)
  {
    forall k | 0 <= k < |Candidates(cipher)|
      ensures Candidates(cipher)[k] == Candidate(k + 2, Decrypted(cipher, k + 2), multiset(cipher)[' '] + 1)
    {
      assert Candidates(cipher)[k] == CandidateFor(cipher, k + 2);
      ScoreOfEveryKey(cipher, k + 2);
    }
  }

  /** At most four rows, highest score first, each the decryption under its own key. */
  lemma AnalysisShape(cipher: seq<char>)
    ensures |Analysis(cipher)| <= 4
    ensures |cipher| <= 1 ==> Analysis(cipher) == []
    ensures SortedByScore(Analysis(cipher))
    ensures forall j :: 0 <= j < |Analysis(cipher)| ==>
      var row := Analysis(cipher)[j];
      2 <= row.key <= Min(10, |cipher|) && row.decrypted == Decrypted(cipher, row.key)
  {
    AnalysisInKeyOrder(cipher);
  }

  /** The analysis as the source runs it: push one row per key, sort, keep four. */
  method AnalyzeRailFence(cipher: seq<char>) returns (top: seq<Candidate>)
    ensures top == Analysis(cipher)
  {
    var results: seq<Candidate> := [];
    var key := 2;
    while key <= Min(10, |cipher|)
      invariant 2 <= key <= Max(2, Min(10, |cipher|) + 1)
      invariant |results| == key - 2
      invariant forall j :: 0 <= j < |results| ==> results[j] == CandidateFor(cipher, j + 2)
    {
      var decrypted := DecryptRailFence(cipher, key);
      var score := |Split(decrypted, ' ')|;
      assert Candidate(key, decrypted, score) == CandidateFor(cipher, key);
      results := results + [Candidate(key, decrypted, score)];
      key := key + 1;
    }
    assert results == Candidates(cipher);
    results := SortByScore(results);
    top := results[..Min(4, |results|)];
  }
}
