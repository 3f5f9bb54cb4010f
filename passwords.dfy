/**
 * Comparing a candidate plain text with a list of known passwords: an
 * exact match wins outright; otherwise every password that agrees with the
 * text on at least 80% of the positions of their common prefix is reported,
 * in list order.
 */
module Passwords {
  import opened Wrappers

  /** `{ exactMatch, similarMatches }`; `None` stands for the source's `null`. */
  datatype Comparison = Comparison(exactMatch: Option<seq<char>>, similarMatches: seq<seq<char>>)

  /** `passwordList.filter(password => password === text)`. */
  function ExactIn(list: seq<seq<char>>, text: seq<char>): (r: seq<seq<char>>)
    ensures forall k :: 0 <= k < |r| ==> r[k] == text
    ensures |r| > 0 <==> text in list
  {
    if list == [] then []
    else (if list[0] == text then [list[0]] else []) + ExactIn(list[1..], text)
  }

  /** The `matchCount` loop: positions below `k` where the two strings agree. */
  function MatchCount(a: seq<char>, b: seq<char>, k: nat): (m: nat)
    requires k <= |a| && k <= |b|
    ensures m <= k
  {
    if k == 0 then 0 else MatchCount(a, b, k - 1) + (if a[k - 1] == b[k - 1] then 1 else 0)
  }

  function CommonLength(a: seq<char>, b: seq<char>): nat
  {
    if |a| <= |b| then |a| else |b|
  }

  /**
   * `matchCount / commonLength >= 0.8`, in integers. With no common
   * position the source divides 0 by 0, and NaN compares false.
   */
  predicate IsSimilar(password: seq<char>, text: seq<char>)
  {
    var n := CommonLength(password, text);
    n > 0 && 5 * MatchCount(password, text, n) >= 4 * n
  }

  /** The fuzzy filter over the list. */
  function SimilarIn(list: seq<seq<char>>, text: seq<char>): (r: seq<seq<char>>)
    ensures |r| <= |list|
  {
    if list == [] then []
    else (if IsSimilar(list[0], text) then [list[0]] else []) + SimilarIn(list[1..], text)
  }

  /** The fuzzy filter keeps exactly the similar passwords of the list. */
  lemma {:induction false} SimilarInMember(list: seq<seq<char>>, text: seq<char>, p: seq<char>)
    ensures p in SimilarIn(list, text) <==> p in list && IsSimilar(p, text)
  {
    if list != [] {
      SimilarInMember(list[1..], text, p);
      assert list == [list[0]] + list[1..];
    }
  }

  /**
   * What comparePasswords returns. The source takes the first element of
   * `ExactIn(list, text)`, which is there exactly when `text` is in the
   * list and is then `text` itself (the contract of `ExactIn`).
   */
  function Compared(text: seq<char>, list: seq<seq<char>>): (r: Comparison)
    ensures r.exactMatch.Some? <==> text in list
    ensures r.exactMatch.Some? ==> r.exactMatch.value == text && r.similarMatches == []
    ensures r.exactMatch.None? ==> r.similarMatches == SimilarIn(list, text)
  {
    if text in list then Comparison(Some(text), []) else Comparison(None, SimilarIn(list, text))
  }

  /** The fuzzy filter keeps list order: filtering a concatenation concatenates the filtered parts. */
  lemma {:induction false} SimilarInConcat(a: seq<seq<char>>, b: seq<seq<char>>, text: seq<char>)
    ensures SimilarIn(a + b, text) == SimilarIn(a, text) + SimilarIn(b, text)
  {
    if a != [] {
      assert (a + b)[1..] == a[1..] + b;
      SimilarInConcat(a[1..], b, text);
    } else {
      assert a + b == b;
    }
  }

  lemma {:induction false} ExactInConcat(a: seq<seq<char>>, b: seq<seq<char>>, text: seq<char>)
    ensures ExactIn(a + b, text) == ExactIn(a, text) + ExactIn(b, text)
  {
    if a != [] {
      assert (a + b)[1..] == a[1..] + b;
      ExactInConcat(a[1..], b, text);
    } else {
      assert a + b == b;
    }
  }

  /** The `for` loop of the filter callback: count the agreeing positions of the common prefix. */
  method CountMatches(password: seq<char>, text: seq<char>) returns (matchCount: nat)
    ensures matchCount == MatchCount(password, text, CommonLength(password, text))
  {
    var commonLength := if |password| <= |text| then |password| else |text|;
    matchCount := 0;
    var i := 0;
    while i < commonLength
      invariant 0 <= i <= commonLength
      invariant matchCount == MatchCount(password, text, i)
    {
      if password[i] == text[i] {
        matchCount := matchCount + 1;
      }
      i := i + 1;
    }
  }

  /** `passwordList.filter(password => password === text)`, one password at a time. */
  method FilterExact(list: seq<seq<char>>, text: seq<char>) returns (exactMatches: seq<seq<char>>)
    ensures exactMatches == ExactIn(list, text)
  {
    exactMatches := [];
    var i := 0;
    while i < |list|
      invariant 0 <= i <= |list|
      invariant exactMatches == ExactIn(list[..i], text)
    {
      ExactInConcat(list[..i], [list[i]], text);
      assert list[..i + 1] == list[..i] + [list[i]];
      if list[i] == text {
        exactMatches := exactMatches + [list[i]];
      }
      i := i + 1;
    }
    assert list[..i] == list;
  }

  /** The fuzzy filter, one password at a time, with the similarity test of the source's callback. */
  method FilterSimilar(list: seq<seq<char>>, text: seq<char>) returns (similarMatches: seq<seq<char>>)
    ensures similarMatches == SimilarIn(list, text)
  {
    similarMatches := [];
    var i := 0;
    while i < |list|
      invariant 0 <= i <= |list|
      invariant similarMatches == SimilarIn(list[..i], text)
    {
      var password := list[i];
      var commonLength := if |password| <= |text| then |password| else |text|;
      var matchCount := CountMatches(password, text);
      SimilarInConcat(list[..i], [password], text);
      assert list[..i + 1] == list[..i] + [password];
      if commonLength > 0 && 5 * matchCount >= 4 * commonLength {
        similarMatches := similarMatches + [password];
      }
      i := i + 1;
    }
    assert list[..i] == list;
  }

  /**
   * comparePasswords as the source runs it: the exact filter first, its
   * first element if there is one, the fuzzy filter otherwise.
   */
  method ComparePasswords(text: seq<char>, list: seq<seq<char>>) returns (r: Comparison)
    ensures r == Compared(text, list)
  {
    var exactMatches := FilterExact(list, text);
    if |exactMatches| > 0 {
      return Comparison(Some(exactMatches[0]), []);
    }
    var similarMatches := FilterSimilar(list, text);
    r := Comparison(None, similarMatches);
  }

  /** All positions agree exactly when the prefixes are equal. */
  lemma {:induction false} MatchCountFull(a: seq<char>, b: seq<char>, k: nat)
    requires k <= |a| && k <= |b|
    ensures MatchCount(a, b, k) == k <==> a[..k] == b[..k]
  {
    if k > 0 {
      MatchCountFull(a, b, k - 1);
      assert a[..k] == a[..k - 1] + [a[k - 1]];
      assert b[..k] == b[..k - 1] + [b[k - 1]];
      if a[..k] == b[..k] {
        assert a[..k][..k - 1] == a[..k - 1];
        assert b[..k][..k - 1] == b[..k - 1];
      }
    }
  }

  lemma {:induction false} MatchCountSymmetric(a: seq<char>, b: seq<char>, k: nat)
    requires k <= |a| && k <= |b|
    ensures MatchCount(a, b, k) == MatchCount(b, a, k)
  {
    if k > 0 {
      MatchCountSymmetric(a, b, k - 1);
    }
  }

  /** Similarity does not depend on which side is the password. */
  lemma SimilarSymmetric(a: seq<char>, b: seq<char>)
    ensures IsSimilar(a, b) == IsSimilar(b, a)
  {
    MatchCountSymmetric(a, b, CommonLength(a, b));
  }

  /** A non-empty string that is a prefix of the other is always similar to it. */
  lemma PrefixSimilar(a: seq<char>, b: seq<char>)
    requires 0 < |a| <= |b| && a == b[..|a|]
    ensures IsSimilar(a, b)
  {
    MatchCountFull(a, b, |a|);
  }

  /** Exactly 80% agreement (4 of 5) is enough; 15 of 19 positions (about 79%) is not. */
  lemma ThresholdBoundary()
    ensures IsSimilar("abcdX", "abcde")
    ensures !IsSimilar("abcdefghijklmnoWXYZ", "abcdefghijklmnopqrs")
  {
  }

  /** An exact match wins over a fuzzy one. */
  lemma ExactMatchPrecedence()
    ensures Compared("secret123", ["secret123", "secret124"]) == Comparison(Some("secret123"), [])
    ensures Compared("secret123", ["secret124"]) == Comparison(None, ["secret124"])
  {
    assert "secret123" in ["secret123", "secret124"];
    assert "secret123" != "secret124";
    assert IsSimilar("secret124", "secret123");
  }
}
