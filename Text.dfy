/**
 * The few Python `str` operations the application relies on, over `seq<char>`:
 * `strip`, `lstrip(c)`, `lower`, `startswith`, `replace(c, "")`, `split(sep)`,
 * `sep in s` and the slices `s[:n]`, `s[n:]`, `s[i:j]` with Python's clamping.
 */
module Text {

  /** Python's `str.isspace` for one character (the code points Python treats as whitespace). */
  predicate IsSpace(c: char) {
    var n := c as int;
    (9 <= n <= 13) || (0x1C <= n <= 0x20) || n == 0x85 || n == 0xA0 || n == 0x1680 ||
    (0x2000 <= n <= 0x200A) || n == 0x2028 || n == 0x2029 || n == 0x202F || n == 0x205F ||
    n == 0x3000
  }

  /** No whitespace at either end. */
  predicate IsTrimmed(s: string) {
    s == [] || (!IsSpace(s[0]) && !IsSpace(s[|s| - 1]))
  }

  predicate AllSpace(s: string) {
    forall i :: 0 <= i < |s| ==> IsSpace(s[i])
  }

  /** `s.lstrip()`: drops the leading whitespace and nothing else. */
  function TrimStart(s: string): (r: string)
    ensures |r| <= |s| && r == s[|s| - |r|..]
    ensures forall i :: 0 <= i < |s| - |r| ==> IsSpace(s[i])
    ensures r == [] || !IsSpace(r[0])
    decreases |s|
  {
    if s != [] && IsSpace(s[0]) then TrimStart(s[1..]) else s
  }

  /** `s.rstrip()`: drops the trailing whitespace and nothing else. */
  function TrimEnd(s: string): (r: string)
    ensures |r| <= |s| && r == s[..|r|]
    ensures forall i :: |r| <= i < |s| ==> IsSpace(s[i])
    ensures r == [] || !IsSpace(r[|r| - 1])
    decreases |s|
  {
    if s != [] && IsSpace(s[|s| - 1]) then TrimEnd(s[..|s| - 1]) else s
  }

  /** `s.strip()`. */
  function Trim(s: string): (r: string)
    ensures IsTrimmed(r)
    ensures |r| <= |s|
    ensures r == [] <==> AllSpace(s)
    ensures IsTrimmed(s) ==> r == s
  {
    var t := TrimStart(s);
    var r := TrimEnd(t);
    assert r != [] ==> r[0] == t[0];
    assert r == [] ==> t == [];
    r
  }

  /** Stripping only removes characters. */
  lemma TrimKeepsChars(s: string)
    ensures forall c :: c in Trim(s) ==> c in s
  {
    var t := TrimStart(s);
    var r := TrimEnd(t);
    assert r == Trim(s);
    forall c | c in r ensures c in s {
      var i :| 0 <= i < |r| && r[i] == c;
      assert r[i] == t[i];
      assert t[i] == s[|s| - |t| + i];
    }
  }

  /** `s.lstrip(c)`: drops the leading run of the character `c`. */
  function LStripChar(s: string, c: char): (r: string)
    ensures |r| <= |s| && r == s[|s| - |r|..]
    ensures forall i :: 0 <= i < |s| - |r| ==> s[i] == c
    ensures r == [] || r[0] != c
    decreases |s|
  {
    if s != [] && s[0] == c then LStripChar(s[1..], c) else s
  }

  /**
   * The lower case of `c` for the capitals Vietnamese text uses: ASCII, the
   * Latin-1 capitals, the single capitals Ă Đ Ĩ Ũ Ơ Ư, and the accented capitals
   * from U+1EA0 to U+1EF8, each of which is followed by its small letter.
   */
  function LowerChar(c: char): (r: char)
    ensures c as int < r as int || r == c
  {
    var n := c as int;
    if 'A' <= c <= 'Z' || (0xC0 <= n <= 0xDE && n != 0xD7) then (n + 32) as char
    else if n == 0x102 || n == 0x110 || n == 0x128 || n == 0x168 || n == 0x1A0 || n == 0x1AF then (n + 1) as char
    else if 0x1EA0 <= n <= 0x1EF8 && n % 2 == 0 then (n + 1) as char
    else c
  }

  /** `s.lower()`, restricted to the capitals `LowerChar` knows. */
  function Lower(s: string): (r: string)
    ensures |r| == |s|
    decreases |s|
  {
    if s == [] then [] else [LowerChar(s[0])] + Lower(s[1..])
  }

  /** Lower-casing neither creates nor removes a character below `A`, such as punctuation and digits. */
  lemma {:induction false} LowerKeepsBelowCapitals(s: string)
    ensures forall c :: c < 'A' ==> (c in Lower(s) <==> c in s)
    decreases |s|
  {
    if s != [] {
      LowerKeepsBelowCapitals(s[1..]);
      assert s == [s[0]] + s[1..];
    }
  }

  /** `s.startswith(p)`. */
  predicate StartsWith(s: string, p: string) {
    |p| <= |s| && s[..|p|] == p
  }
  /**
   * Stripping a string that holds a trimmed, non-empty word cuts only inside what
   * comes before the word and inside what comes after it.
   */
  lemma TrimAroundWord(pre: string, word: string, rest: string) returns (j: nat, k: nat)
    requires IsTrimmed(word) && word != []
    ensures j <= |pre| && k <= |rest|
    ensures Trim(pre + word + rest) == pre[j..] + word + rest[..k]
  {
    var e;
    j, e := TrimBounds(pre, word, rest);
    k := e - |pre| - |word|;
    WordSlice(pre, word, rest, j, e);
  }

  /** The slice `strip()` keeps of `pre + word + rest` starts inside `pre` and ends inside `rest`. */
  lemma TrimBounds(pre: string, word: string, rest: string) returns (j: nat, e: nat)
    requires IsTrimmed(word) && word != []
    ensures j <= |pre| && |pre| + |word| <= e <= |pre| + |word| + |rest|
    ensures Trim(pre + word + rest) == (pre + word + rest)[j..e]
  {
    var s := pre + word + rest;
    j, e := TrimSlice(s);
    assert s[|pre|] == word[0];
    SpaceBefore(s, j, |pre|);
    assert s[|pre| + |word| - 1] == word[|word| - 1];
    SpaceAfter(s, e, |pre| + |word| - 1);
  }

  /** `strip()` keeps one slice of the string and cuts only whitespace on either side of it. */
  lemma TrimSlice(s: string) returns (j: nat, e: nat)
    ensures j <= e <= |s| && Trim(s) == s[j..e]
    ensures AllSpace(s[..j]) && AllSpace(s[e..])
  {
    var t := TrimStart(s);
    var r := TrimEnd(t);
    j, e := |s| - |t|, |s| - |t| + |r|;
    TrimStartSlice(s);
    TrimEndSlice(t);
    assert s[j..e] == r by {
      assert t == s[j..] && r == t[..|r|];
    }
    assert s[e..] == t[|r|..];
  }

  /** `lstrip()` cuts an all-whitespace prefix. */
  lemma TrimStartSlice(s: string)
    ensures AllSpace(s[..|s| - |TrimStart(s)|])
  {
    var n := |s| - |TrimStart(s)|;
    forall i | 0 <= i < n ensures IsSpace(s[..n][i]) {
      assert s[..n][i] == s[i];
    }
  }

  /** `rstrip()` cuts an all-whitespace suffix. */
  lemma TrimEndSlice(t: string)
    ensures AllSpace(t[|TrimEnd(t)|..])
  {
    var n := |TrimEnd(t)|;
    forall i | 0 <= i < |t| - n ensures IsSpace(t[n..][i]) {
      assert t[n..][i] == t[n + i];
    }
  }

  /** A character that is not whitespace lies after an all-whitespace prefix. */
  lemma SpaceBefore(s: string, j: nat, p: nat)
    requires j <= |s| && AllSpace(s[..j]) && p < |s| && !IsSpace(s[p])
    ensures j <= p
  {
  }

  /** A character that is not whitespace lies before an all-whitespace suffix. */
  lemma SpaceAfter(s: string, e: nat, p: nat)
    requires e <= |s| && AllSpace(s[e..]) && p < |s| && !IsSpace(s[p])
    ensures p < e
  {
  }

  /** A slice of `pre + word + rest` that covers the word. */
  lemma WordSlice(pre: string, word: string, rest: string, j: nat, e: nat)
    requires j <= |pre| && |pre| + |word| <= e <= |pre| + |word| + |rest|
    ensures (pre + word + rest)[j..e] == pre[j..] + word + rest[..e - |pre| - |word|]
  {
    var s, m := pre + word + rest, |pre| + |word|;
    assert s[j..e] == s[j..|pre|] + s[|pre|..m] + s[m..e];
    assert s[j..|pre|] == pre[j..];
    assert s[|pre|..m] == word;
    assert s[m..e] == rest[..e - m];
  }

  /** Stripping a string that starts with a trimmed, non-empty word leaves that word at its front. */
  lemma TrimKeepsLeadingWord(word: string, rest: string)
    requires IsTrimmed(word) && word != []
    ensures StartsWith(Trim(word + rest), word)
  {
    var s := word + rest;
    var t := TrimStart(s);
    assert s[0] == word[0];
    assert t == s;
    var r := TrimEnd(t);
    assert s[|word| - 1] == word[|word| - 1];
    assert |r| >= |word|;
    assert r[..|word|] == s[..|word|] == word;
  }

  /** Leading whitespace makes no difference to `strip()`. */
  lemma TrimDropsSpace(space: string, word: string, rest: string)
    requires AllSpace(space)
    ensures Trim(space + word + rest) == Trim(word + rest)
  {
    assert space + word + rest == space + (word + rest);
    TrimStartSpace(space, word + rest);
  }

  /** `lstrip()` skips a leading whitespace run whatever follows it. */
  lemma {:induction false} TrimStartSpace(space: string, t: string)
    requires AllSpace(space)
    ensures TrimStart(space + t) == TrimStart(t)
    decreases |space|
  {
    if space == [] {
      assert space + t == t;
    } else {
      assert (space + t)[0] == space[0] && (space + t)[1..] == space[1..] + t;
      TrimStartSpace(space[1..], t);
    }
  }

  /** Lower-casing works character by character, so it commutes with taking a prefix. */
  lemma {:induction false} LowerPrefix(s: string, n: nat)
    requires n <= |s|
    ensures Lower(s)[..n] == Lower(s[..n])
    decreases n
  {
    if n > 0 {
      LowerPrefix(s[1..], n - 1);
      assert s[..n][0] == s[0] && s[..n][1..] == s[1..][..n - 1];
    }
  }


  /** `s.replace(c, "")` for every character `c` of `cs`. */
  function RemoveChars(s: string, cs: set<char>): (r: string)
    ensures |r| <= |s|
    ensures (forall c :: c in s ==> c !in cs) ==> r == s
    decreases |s|
  {
    if s == [] then []
    else
      var rest := RemoveChars(s[1..], cs);
      if s[0] in cs then rest else [s[0]] + rest
  }

  /** What is left comes from the string and holds none of the removed characters. */
  lemma {:induction false} RemoveCharsMembers(s: string, cs: set<char>)
    ensures forall c :: c in RemoveChars(s, cs) ==> c in s && c !in cs
    decreases |s|
  {
    if s != [] {
      RemoveCharsMembers(s[1..], cs);
      assert forall c :: c in s[1..] ==> c in s;
    }
  }

  /** Removing characters works piece by piece. */
  lemma {:induction false} RemoveCharsConcat(a: string, b: string, cs: set<char>)
    ensures RemoveChars(a + b, cs) == RemoveChars(a, cs) + RemoveChars(b, cs)
    decreases |a|
  {
    if a == [] {
      assert a + b == b;
    } else {
      assert (a + b)[0] == a[0] && (a + b)[1..] == a[1..] + b;
      RemoveCharsConcat(a[1..], b, cs);
      if a[0] !in cs {
        var u, v := RemoveChars(a[1..], cs), RemoveChars(b, cs);
        assert [a[0]] + (u + v) == [a[0]] + u + v;
      }
    }
  }

  /** The position of the first occurrence of `c` (Python's `s.index(c)`). */
  function IndexOf(s: string, c: char): (i: nat)
    requires c in s
    ensures i < |s| && s[i] == c && c !in s[..i]
    decreases |s|
  {
    if s[0] == c then 0
    else
      var j := IndexOf(s[1..], c);
      assert s[..j + 1] == [s[0]] + s[1..][..j];
      j + 1
  }

  /** Joins non-empty `parts` with `sep` between neighbours (`sep.join(parts)`). */
  function Join(parts: seq<string>, sep: char): string
    requires |parts| >= 1
    decreases |parts|
  {
    if |parts| == 1 then parts[0] else parts[0] + [sep] + Join(parts[1..], sep)
  }

  /** `s.split(sep)`: the pieces between occurrences of `sep`, empty pieces included. */
  function Split(s: string, sep: char): (parts: seq<string>)
    ensures |parts| >= 1
    decreases |s|
  {
    if s == [] then [[]]
    else
      var rest := Split(s[1..], sep);
      if s[0] == sep then [[]] + rest else [[s[0]] + rest[0]] + rest[1..]
  }

  /** The pieces hold no separator, and joining them back gives the string. */
  lemma {:induction false} SplitPieces(s: string, sep: char)
    ensures forall i :: 0 <= i < |Split(s, sep)| ==> sep !in Split(s, sep)[i]
    ensures Join(Split(s, sep), sep) == s
    decreases |s|
  {
    if s != [] {
      var rest := Split(s[1..], sep);
      SplitPieces(s[1..], sep);
      if s[0] == sep {
        assert ([[]] + rest)[1..] == rest;
      } else {
        var parts := [[s[0]] + rest[0]] + rest[1..];
        assert parts[1..] == rest[1..];
        forall i | 0 <= i < |parts| ensures sep !in parts[i] {
          if i > 0 {
            assert parts[i] == rest[i];
          }
        }
        if |rest| > 1 {
          assert Join(rest, sep) == rest[0] + [sep] + Join(rest[1..], sep);
        }
      }
    }
  }

  /**
   * `s.split(sep, 1)[1]`: when `sep` occurs, the pieces after the first, joined
   * back, are everything after its first occurrence.
   */
  lemma {:induction false} SplitAfterFirst(s: string, sep: char)
    requires sep in s
    ensures |Split(s, sep)| >= 2
    ensures Join(Split(s, sep)[1..], sep) == s[IndexOf(s, sep) + 1..]
    decreases |s|
  {
    var rest := Split(s[1..], sep);
    if s[0] == sep {
      SplitPieces(s[1..], sep);
      assert ([[]] + rest)[1..] == rest;
    } else {
      assert s == [s[0]] + s[1..];
      assert sep in s[1..];
      SplitAfterFirst(s[1..], sep);
      assert ([[s[0]] + rest[0]] + rest[1..])[1..] == rest[1..];
      assert s[1..][IndexOf(s[1..], sep) + 1..] == s[IndexOf(s, sep) + 1..];
    }
  }

  /** A string without the separator is one piece. */
  lemma {:induction false} SplitNone(s: string, sep: char)
    requires sep !in s
    ensures Split(s, sep) == [s]
    decreases |s|
  {
    if s != [] {
      SplitNone(s[1..], sep);
      assert [s[0]] + s[1..] == s;
    }
  }

  /** One step of `Split`: the first character either ends a piece or extends the first one. */
  lemma SplitCons(c: char, t: string, sep: char)
    ensures var rest := Split(t, sep);
      Split([c] + t, sep) == if c == sep then [[]] + rest else [[c] + rest[0]] + rest[1..]
  {
    assert ([c] + t)[1..] == t;
  }

  /** The sequence algebra behind `SplitConcatStep`, kept apart from `Split` itself. */
  lemma ConsPieces(c: char, sep: char, pu: seq<string>, pb: seq<string>, x: seq<string>, y: seq<string>)
    requires |pu| >= 1
    requires x == if c == sep then [[]] + (pu + pb) else [[c] + (pu + pb)[0]] + (pu + pb)[1..]
    requires y == if c == sep then [[]] + pu else [[c] + pu[0]] + pu[1..]
    ensures x == y + pb
  {
    if c != sep {
      assert (pu + pb)[0] == pu[0] && (pu + pb)[1..] == pu[1..] + pb;
    }
  }

  lemma SplitConcatStep(c: char, u: string, b: string, sep: char)
    requires Split(u + [sep] + b, sep) == Split(u, sep) + Split(b, sep)
    ensures Split([c] + u + [sep] + b, sep) == Split([c] + u, sep) + Split(b, sep)
  {
    assert [c] + u + [sep] + b == [c] + (u + [sep] + b);
    SplitCons(c, u + [sep] + b, sep);
    SplitCons(c, u, sep);
    ConsPieces(c, sep, Split(u, sep), Split(b, sep), Split([c] + (u + [sep] + b), sep), Split([c] + u, sep));
  }

  /** Splitting `a + sep + b` splits `a` and `b` separately. */
  lemma {:induction false} SplitConcat(a: string, b: string, sep: char)
    ensures Split(a + [sep] + b, sep) == Split(a, sep) + Split(b, sep)
    decreases |a|
  {
    if a == [] {
      assert a + [sep] + b == [sep] + b;
      SplitCons(sep, b, sep);
    } else {
      assert a == [a[0]] + a[1..];
      SplitConcat(a[1..], b, sep);
      SplitConcatStep(a[0], a[1..], b, sep);
    }
  }

  /** `Split` inverts `Join` on pieces free of the separator. */
  lemma {:induction false} SplitJoin(parts: seq<string>, sep: char)
    requires |parts| >= 1
    requires forall i :: 0 <= i < |parts| ==> sep !in parts[i]
    ensures Split(Join(parts, sep), sep) == parts
    decreases |parts|
  {
    SplitNone(parts[0], sep);
    if |parts| > 1 {
      SplitJoin(parts[1..], sep);
      SplitConcat(parts[0], Join(parts[1..], sep), sep);
      assert parts == [parts[0]] + parts[1..];
    }
  }

  /** Python's `s[:n]` for `n >= 0`. */
  function Take(s: string, n: nat): string {
    if n <= |s| then s[..n] else s
  }

  /** Python's `s[n:]` for `n >= 0`. */
  function Drop(s: string, n: nat): string {
    if n <= |s| then s[n..] else []
  }

  /** Python's `s[i:j]` for `0 <= i <= j`. */
  function Slice(s: string, i: nat, j: nat): string {
    Drop(Take(s, j), i)
  }

  /**
   * Python's rule for `s[i:j]` with non-negative bounds: both bounds are cut down
   * to the length, and the slice is empty unless the lower one is below the upper.
   */
  lemma SliceClamped(s: string, i: nat, j: nat)
    ensures var lo := if i <= |s| then i else |s|;
            var hi := if j <= |s| then j else |s|;
            Slice(s, i, j) == if lo <= hi then s[lo..hi] else []
  {
    if j <= |s| {
      assert Take(s, j) == s[..j];
      if i <= j {
        assert s[..j][i..] == s[i..j];
      }
    }
  }

  /** The number of occurrences of `c` in `s` (`s.count(c)`). */
  function Count(s: string, c: char): nat
    decreases |s|
  {
    if s == [] then 0 else (if s[0] == c then 1 else 0) + Count(s[1..], c)
  }

  lemma {:induction false} CountConcat(a: string, b: string, c: char)
    ensures Count(a + b, c) == Count(a, c) + Count(b, c)
    decreases |a|
  {
    if a == [] {
      assert a + b == b;
    } else {
      assert (a + b)[1..] == a[1..] + b;
      CountConcat(a[1..], b, c);
    }
  }

  lemma {:induction false} CountAbsent(s: string, c: char)
    requires c !in s
    ensures Count(s, c) == 0
    decreases |s|
  {
    if s != [] {
      assert forall x :: x in s[1..] ==> x in s;
      CountAbsent(s[1..], c);
    }
  }
}
