/**
 * The rail-fence cipher engine: encryption writes the text on `key` rails
 * in a zig-zag and reads the rails out one after the other; decryption
 * rebuilds the grid from the cipher text and reads it back in zig-zag order.
 * A key of 1 or less leaves the text as it is.
 */
module RailFence {
  import opened Wrappers
  import opened ZigZag

  /** The characters of `text` written on rail `r`, in writing order. */
  function RailText(text: seq<char>, key: int, r: int): (s: seq<char>)
    requires key >= 2
    ensures |s| == Count(|text|, key, r)
  {
    if text == [] then []
    else
      var last := |text| - 1;
      RailText(text[..last], key, r) + (if RailOf(last, key) == r then [text[last]] else [])
  }

  /** The `key` rails once the whole of `text` has been written. */
  function Rails(text: seq<char>, key: int): (rails: seq<seq<char>>)
    requires key >= 2
    ensures |rails| == key
  {
    seq(key, r requires 0 <= r < key => RailText(text, key, r))
  }

  /** The rails read out one after the other, rail 0 first. */
  function Concat(rails: seq<seq<char>>): seq<char>
  {
    if rails == [] then [] else Concat(rails[..|rails| - 1]) + rails[|rails| - 1]
  }

  /** The cipher text of `text` under `key`. */
  function Encrypted(text: seq<char>, key: int): seq<char>
  {
    if key <= 1 then text else Concat(Rails(text, key))
  }

  /**
   * The plain text of `text` under `key`: its `i`-th character is the
   * character that encryption puts at place `Pos(|text|, key, i)`.
   */
  function Decrypted(text: seq<char>, key: int): (plain: seq<char>)
    ensures |plain| == |text|
  {
    if key <= 1 then text else ReadOff(text, key, |text|)
  }

  /** The first `i` characters of the plain text, read off the cipher text in zig-zag order. */
  function ReadOff(text: seq<char>, key: int, i: nat): (s: seq<char>)
    requires key >= 2 && i <= |text|
    ensures |s| == i
  {
    if i == 0 then [] else ReadOff(text, key, i - 1) + [text[Pos(|text|, key, i - 1)]]
  }

  lemma {:induction false} ReadOffAt(text: seq<char>, key: int, i: nat, k: nat)
    requires key >= 2 && k < i <= |text|
    ensures ReadOff(text, key, i)[k] == text[Pos(|text|, key, k)]
  {
    if k < i - 1 {
      ReadOffAt(text, key, i - 1, k);
    }
  }

  /** Character `i` of the plain text is the cipher character at place `Pos(|text|, key, i)`. */
  lemma DecryptedAt(text: seq<char>, key: int, i: nat)
    requires key >= 2 && i < |text|
    ensures Decrypted(text, key)[i] == text[Pos(|text|, key, i)]
  {
    ReadOffAt(text, key, |text|, i);
  }

  /** The character written at position `i` is found on its rail after those written before it there. */
  lemma {:induction false} RailTextAt(text: seq<char>, key: int, i: nat)
    requires key >= 2 && i < |text|
    ensures Count(i, key, RailOf(i, key)) < |RailText(text, key, RailOf(i, key))|
    ensures RailText(text, key, RailOf(i, key))[Count(i, key, RailOf(i, key))] == text[i]
  {
    var last := |text| - 1;
    var r := RailOf(i, key);
    if i < last {
      CountMonotone(i, last, key, r);
      RailTextAt(text[..last], key, i);
    }
  }

  lemma {:induction false} ConcatAt(rails: seq<seq<char>>, r: nat, j: nat)
    requires r < |rails| && j < |rails[r]|
    ensures |Concat(rails[..r])| + j < |Concat(rails)|
    ensures Concat(rails)[|Concat(rails[..r])| + j] == rails[r][j]
  {
    var last := |rails| - 1;
    if r == last {
      assert rails[..last] == rails[..r];
    } else {
      assert rails[..last][..r] == rails[..r];
      ConcatAt(rails[..last], r, j);
    }
  }

  /** The rails above rail `r` hold exactly `Offset` characters. */
  lemma {:induction false} ConcatRailsLength(text: seq<char>, key: int, r: nat)
    requires key >= 2 && r <= key
    ensures |Concat(Rails(text, key)[..r])| == Offset(|text|, key, r)
  {
    if r > 0 {
      var rails := Rails(text, key);
      assert rails[..r][..r - 1] == rails[..r - 1];
      ConcatRailsLength(text, key, r - 1);
    }
  }

  /** Encryption neither drops nor adds characters. */
  lemma EncryptedLength(text: seq<char>, key: int)
    ensures |Encrypted(text, key)| == |text|
  {
    if key >= 2 {
      ConcatRailsLength(text, key, key);
      OffsetTotal(|text|, key);
      assert Rails(text, key)[..key] == Rails(text, key);
    }
  }

  /** Encryption sends the character at position `i` to place `Pos(|text|, key, i)`. */
  lemma EncryptedAt(text: seq<char>, key: int, i: nat)
    requires key >= 2 && i < |text|
    ensures |Encrypted(text, key)| == |text|
    ensures Encrypted(text, key)[Pos(|text|, key, i)] == text[i]
  {
    EncryptedLength(text, key);
    var r, c := RailOf(i, key), Count(i, key, RailOf(i, key));
    var rails := Rails(text, key);
    assert rails[r] == RailText(text, key, r);
    RailTextAt(text, key, i);
    ConcatRailsLength(text, key, r);
    ConcatAt(rails, r, c);
    assert Encrypted(text, key) == Concat(rails);
    assert Pos(|text|, key, i) == |Concat(rails[..r])| + c;
  }

  /** Decryption undoes encryption, for every key and every text. */
  lemma DecryptEncrypt(text: seq<char>, key: int)
    ensures Decrypted(Encrypted(text, key), key) == text
  {
    if key >= 2 {
      EncryptedLength(text, key);
      forall i | 0 <= i < |text|
        ensures Decrypted(Encrypted(text, key), key)[i] == text[i]
      {
        EncryptedAt(text, key, i);
        DecryptedAt(Encrypted(text, key), key, i);
      }
    }
  }

  /** Encryption undoes decryption: every cipher text is the encryption of its decryption. */
  lemma EncryptDecrypt(text: seq<char>, key: int)
    ensures Encrypted(Decrypted(text, key), key) == text
  {
    if key >= 2 {
      var n := |text|;
      var plain := Decrypted(text, key);
      EncryptedLength(plain, key);
      forall p | 0 <= p < n
        ensures Encrypted(plain, key)[p] == text[p]
      {
        var i := PosOnto(n, key, p);
        EncryptedAt(plain, key, i);
        DecryptedAt(text, key, i);
      }
    }
  }

  lemma {:induction false} ConcatAppend(rails: seq<seq<char>>, r: nat, x: char)
    requires r < |rails|
    ensures multiset(Concat(rails[r := rails[r] + [x]])) == multiset(Concat(rails)) + multiset{x}
  {
    var last := |rails| - 1;
    var grown := rails[r := rails[r] + [x]];
    assert Concat(rails) == Concat(rails[..last]) + rails[last];
    if r == last {
      assert grown[..last] == rails[..last];
      assert Concat(grown) == Concat(rails[..last]) + (rails[last] + [x]);
    } else {
      assert grown[..last] == rails[..last][r := rails[r] + [x]];
      ConcatAppend(rails[..last], r, x);
      assert Concat(grown) == Concat(grown[..last]) + rails[last];
    }
  }

  /** Writing one more character appends it to its rail and leaves the other rails alone. */
  lemma RailsGrow(text: seq<char>, key: int)
    requires key >= 2 && text != []
    ensures var last := |text| - 1; var r := RailOf(last, key);
      Rails(text, key) == Rails(text[..last], key)[r := Rails(text[..last], key)[r] + [text[last]]]
  {
    var last := |text| - 1;
    var r := RailOf(last, key);
    var before := Rails(text[..last], key);
    var grown := before[r := before[r] + [text[last]]];
    forall k | 0 <= k < key
      ensures Rails(text, key)[k] == grown[k]
    {
      assert Rails(text, key)[k] == RailText(text, key, k);
    }
  }

  /** Encryption is a permutation of the text. */
  lemma {:induction false} EncryptedPermutation(text: seq<char>, key: int)
    ensures multiset(Encrypted(text, key)) == multiset(text)
  {
    if key >= 2 && text != [] {
      var last := |text| - 1;
      var prefix, x, r := text[..last], text[last], RailOf(last, key);
      var before := Rails(prefix, key);
      calc {
        multiset(Encrypted(text, key));
        { RailsGrow(text, key); }
        multiset(Concat(before[r := before[r] + [x]]));
        { ConcatAppend(before, r, x); }
        multiset(Concat(before)) + multiset{x};
        { EncryptedPermutation(prefix, key); }
        multiset(prefix) + multiset{x};
        { assert text == prefix + [x]; }
        multiset(text);
      }
    } else if key >= 2 {
      EmptyRails(key, key);
      assert Rails(text, key)[..key] == Rails(text, key);
    }
  }

  lemma {:induction false} EmptyRails(key: int, r: nat)
    requires key >= 2 && r <= key
    ensures Concat(Rails([], key)[..r]) == []
  {
    if r > 0 {
      assert Rails([], key)[..r][..r - 1] == Rails([], key)[..r - 1];
      EmptyRails(key, r - 1);
    }
  }

  /** Decryption is a permutation of the cipher text. */
  lemma DecryptedPermutation(text: seq<char>, key: int)
    ensures multiset(Decrypted(text, key)) == multiset(text)
  {
    EncryptedPermutation(Decrypted(text, key), key);
    EncryptDecrypt(text, key);
  }

  /** Writing character `i` appends it to its own rail and to no other. */
  lemma RailTextGrow(text: seq<char>, key: int, i: nat)
    requires key >= 2 && i < |text|
    ensures forall r ::
      RailText(text[..i + 1], key, r) == RailText(text[..i], key, r) + (if RailOf(i, key) == r then [text[i]] else [])
  {
    assert text[..i + 1][..i] == text[..i];
  }

  /** Rail `r` of the text from position `i` on, scanning forward. */
  function RailFrom(text: seq<char>, key: int, r: int, i: nat): (s: seq<char>)
    requires key >= 2 && i <= |text|
    decreases |text| - i
  {
    if i == |text| then [] else (if RailOf(i, key) == r then [text[i]] else []) + RailFrom(text, key, r, i + 1)
  }

  /** Rail `r` is the forward scan of the text for the positions written on it. */
  lemma {:induction false} RailTextFrom(text: seq<char>, key: int, r: int, n: nat)
    requires key >= 2 && n <= |text|
    ensures RailText(text[..n], key, r) + RailFrom(text, key, r, n) == RailText(text, key, r)
    decreases |text| - n
  {
    if n == |text| {
      assert text[..n] == text;
      assert RailFrom(text, key, r, n) == [];
    } else {
      var before, x := RailText(text[..n], key, r), if RailOf(n, key) == r then [text[n]] else [];
      var after := RailFrom(text, key, r, n + 1);
      calc {
        before + RailFrom(text, key, r, n);
        before + (x + after);
        (before + x) + after;
        { assert text[..n + 1][..n] == text[..n]; }
        RailText(text[..n + 1], key, r) + after;
        { RailTextFrom(text, key, r, n + 1); }
        RailText(text, key, r);
      }
    }
  }

  /** Three rails read out one after the other. */
  lemma ConcatThree(rails: seq<seq<char>>)
    requires |rails| == 3
    ensures Concat(rails) == rails[0] + rails[1] + rails[2]
  {
    assert rails[..2][..1] == [rails[0]] && rails[..3][..2] == rails[..2] && rails[..3] == rails;
    assert [rails[0]][..0] == [];
    assert Concat([rails[0]]) == rails[0];
    assert Concat(rails[..2]) == rails[0] + rails[1];
  }

  /** Each rail is the forward scan of the text for the positions written on it. */
  lemma RailByScan(text: seq<char>, key: int, r: int)
    requires key >= 2 && 0 <= r < key
    ensures Rails(text, key)[r] == RailFrom(text, key, r, 0)
  {
    RailTextFrom(text, key, r, 0);
    assert text[..0] == [];
  }

  /** The rails of the example. */
  lemma ExampleRails()
    ensures Rails("WEARE", 3) == ["WE", "ER", "A"]
  {
    RailByScan("WEARE", 3, 0);
    RailByScan("WEARE", 3, 1);
    RailByScan("WEARE", 3, 2);
    assert RailFrom("WEARE", 3, 0, 0) == "WE";
    assert RailFrom("WEARE", 3, 1, 0) == "ER";
    assert RailFrom("WEARE", 3, 2, 0) == "A";
  }

  /**
   * The opening of the textbook example "WE ARE DISCOVERED, FLEE AT ONCE":
   * one full sweep down and up three rails, encrypted and decrypted.
   */
  lemma ClassicExample()
    ensures Encrypted("WEARE", 3) == "WEERA"
    ensures Decrypted("WEERA", 3) == "WEARE"
  {
    ExampleRails();
    ConcatThree(["WE", "ER", "A"]);
    assert ["WE", "ER", "A"][0] + ["WE", "ER", "A"][1] + ["WE", "ER", "A"][2] == "WEERA";
    DecryptEncrypt("WEARE", 3);
  }

  /**
   * Encryption as the source runs it: one growing array of characters per
   * rail, filled while `row` bounces between 0 and `key - 1`.
   */
  method EncryptRailFence(text: seq<char>, key: int) returns (cipher: seq<char>)
    ensures cipher == Encrypted(text, key)
    ensures key <= 1 ==> cipher == text
    ensures |cipher| == |text|
  {
    EncryptedLength(text, key);
    if key <= 1 {
      return text;
    }
    var rail := new seq<char>[key](_ => []);
    var dir, row := 1, 0;
    var i := 0;
    while i < |text|
      invariant 0 <= i <= |text|
      invariant row == RailOf(i, key) && dir == Dir(i, key)
      invariant forall r :: 0 <= r < key ==> rail[r] == RailText(text[..i], key, r)
    {
      RailTextGrow(text, key, i);
      rail[row] := rail[row] + [text[i]];
      Step(i, key);
      row := row + dir;
      if row == 0 || row == key - 1 {
        dir := -dir;
      }
      i := i + 1;
    }
    assert text[..i] == text;
    assert rail[..] == Rails(text, key);
    cipher := Concat(rail[..]);
  }

  /** The grid after the first pass: `'*'` on the zig-zag cells, `None` elsewhere. */
  ghost predicate Marked(rail: array2<Option<char>>, key: int)
    requires key >= 2
    reads rail
  {
    forall r, c :: 0 <= r < rail.Length0 && 0 <= c < rail.Length1 ==>
      rail[r, c] == if r == RailOf(c, key) then Some('*') else None
  }

  /**
   * The grid after the second pass over its first `rows` rails: each
   * zig-zag cell of those rails holds the cipher character that encryption
   * put in its place, the rest still hold their marks.
   */
  ghost predicate FilledUpTo(rail: array2<Option<char>>, text: seq<char>, key: int, rows: int, cols: int)
    requires key >= 2 && rail.Length1 == |text|
    reads rail
  {
    forall r, c :: 0 <= r < rail.Length0 && 0 <= c < rail.Length1 ==>
      rail[r, c] == if r != RailOf(c, key) then None
                    else if r < rows || (r == rows && c < cols) then Some(text[Pos(|text|, key, c)])
                    else Some('*')
  }

  /**
   * Decryption as the source runs it, over a `key` by `|text|` grid of
   * cells (`None` for the source's `null`): mark the zig-zag cells with
   * `'*'`, fill the marked cells row by row with the cipher text, then read
   * the grid back along the zig-zag.
   */
  method DecryptRailFence(text: seq<char>, key: int) returns (plain: seq<char>)
    ensures plain == Decrypted(text, key)
    ensures key <= 1 ==> plain == text
    ensures |plain| == |text|
  {
    if key <= 1 {
      return text;
    }
    var rail := new Option<char>[key, |text|]((_, _) => None);
    MarkPattern(rail, key);
    FillMarks(rail, text, key);
    plain := ReadZigZag(rail, text, key);
  }

  /** First pass: walk the zig-zag and mark each visited cell with `'*'`. */
  method MarkPattern(rail: array2<Option<char>>, key: int)
    requires key >= 2 && rail.Length0 == key
    requires forall r, c :: 0 <= r < rail.Length0 && 0 <= c < rail.Length1 ==> rail[r, c] == None
    modifies rail
    ensures Marked(rail, key)
  {
    var n := rail.Length1;
    var dir, row, col := 1, 0, 0;
    var i := 0;
    while i < n
      invariant 0 <= i <= n && col == i
      invariant row == RailOf(i, key) && dir == Dir(i, key)
      invariant forall r, c :: 0 <= r < key && 0 <= c < n ==>
        rail[r, c] == if c < i && r == RailOf(c, key) then Some('*') else None
    {
      rail[row, col] := Some('*');
      col := col + 1;
      Step(i, key);
      row := row + dir;
      if row == 0 || row == key - 1 {
        dir := -dir;
      }
      i := i + 1;
    }
  }

  /** Second pass: scan rail by rail and replace each mark with the next cipher character. */
  method FillMarks(rail: array2<Option<char>>, text: seq<char>, key: int)
    requires key >= 2 && rail.Length0 == key && rail.Length1 == |text|
    requires Marked(rail, key)
    modifies rail
    ensures FilledUpTo(rail, text, key, key, 0)
  {
    var n := |text|;
    var index := 0;
    var i := 0;
    while i < key
      invariant 0 <= i <= key
      invariant index == Offset(n, key, i)
      invariant FilledUpTo(rail, text, key, i, 0)
    {
      var j := 0;
      while j < n
        invariant 0 <= j <= n
        invariant index == Offset(n, key, i) + Count(j, key, i)
        invariant FilledUpTo(rail, text, key, i, j)
      {
        if rail[i, j] == Some('*') {
          assert i == RailOf(j, key);
          assert index == Pos(n, key, j);
          rail[i, j] := Some(text[index]);
          index := index + 1;
        } else {
          assert i != RailOf(j, key);
        }
        j := j + 1;
      }
      assert FilledUpTo(rail, text, key, i + 1, 0);
      i := i + 1;
    }
  }

  /** Third pass: walk the zig-zag again and read the filled cells. */
  method ReadZigZag(rail: array2<Option<char>>, text: seq<char>, key: int) returns (plain: seq<char>)
    requires key >= 2 && rail.Length0 == key && rail.Length1 == |text|
    requires FilledUpTo(rail, text, key, key, 0)
    ensures plain == Decrypted(text, key)
  {
    var n := |text|;
    plain := [];
    var dir, row := 1, 0;
    var i := 0;
    while i < n
      invariant 0 <= i <= n
      invariant row == RailOf(i, key) && dir == Dir(i, key)
      invariant plain == ReadOff(text, key, i)
    {
      plain := plain + [rail[row, i].value];
      Step(i, key);
      row := row + dir;
      if row == 0 || row == key - 1 {
        dir := -dir;
      }
      i := i + 1;
    }
  }
}
