/**
 * The string operations the renamer relies on, on `seq<char>`:
 * `str::split` by one character, `str::replace(c, "")`, lower-casing of
 * ASCII letters, and the last occurrence of a character (used to find a
 * file name's extension).
 */
module Text {
  import opened Wrappers

  /** Number of occurrences of `c` in `s`. */
  function Count(s: string, c: char): (n: nat)
    ensures n <= |s|
    ensures n == 0 <==> c !in s
  {
    if s == [] then 0 else (if s[0] == c then 1 else 0) + Count(s[1..], c)
  }

  lemma {:induction false} CountAppend(a: string, b: string, c: char)
    ensures Count(a + b, c) == Count(a, c) + Count(b, c)
  {
    if a == [] {
      assert a + b == b;
    } else {
      assert (a + b)[1..] == a[1..] + b;
      CountAppend(a[1..], b, c);
    }
  }

  /** The pieces joined back together with `sep` between neighbours. */
  function Join(parts: seq<string>, sep: char): string
  {
    if parts == [] then ""
    else if |parts| == 1 then parts[0]
    else parts[0] + [sep] + Join(parts[1..], sep)
  }

  /**
   * Rust's `s.split(sep).collect()`: the maximal pieces between
   * separators, empty pieces included, so there is always one piece more
   * than there are separators (JoinSplit: joining them gives `s` back).
   */
  function Split(s: string, sep: char): (parts: seq<string>)
    ensures |parts| == Count(s, sep) + 1
    ensures forall i :: 0 <= i < |parts| ==> sep !in parts[i]
  {
    if s == [] then [""]
    else
      var rest := Split(s[1..], sep);
      if s[0] == sep then
        [""] + rest
      else
        var parts := [[s[0]] + rest[0]] + rest[1..];
        assert forall i :: 1 <= i < |parts| ==> parts[i] == rest[i];
        parts
  }

  /** Joining the pieces with the separator gives the text back. */
  lemma {:induction false} JoinSplit(s: string, sep: char)
    ensures Join(Split(s, sep), sep) == s
  {
    if s != [] {
      var u := s[1..];
      assert s == [s[0]] + u;
      var rest := Split(u, sep);
      JoinSplit(u, sep);
      if s[0] == sep {
        SplitAfterSep(u, sep);
        JoinCons("", rest, sep);
      } else {
        SplitAfterChar(s[0], u, sep);
        JoinWidenFirst(s[0], rest, sep);
      }
    }
  }

  /** Joining a piece in front of non-empty pieces puts a separator between them. */
  lemma JoinCons(p: string, rest: seq<string>, sep: char)
    requires rest != []
    ensures Join([p] + rest, sep) == p + [sep] + Join(rest, sep)
  {
    assert ([p] + rest)[1..] == rest;
  }

  /** Widening the first piece by a character widens the joined text by it. */
  lemma JoinWidenFirst(c: char, rest: seq<string>, sep: char)
    requires rest != []
    ensures Join([[c] + rest[0]] + rest[1..], sep) == [c] + Join(rest, sep)
  {
    if |rest| > 1 {
      JoinCons([c] + rest[0], rest[1..], sep);
      JoinCons(rest[0], rest[1..], sep);
      assert [rest[0]] + rest[1..] == rest;
    }
  }

  /** Splitting text whose first piece `p` holds no separator. */
  lemma {:induction false} SplitAfterPiece(p: string, t: string, sep: char)
    requires sep !in p
    ensures Split(p + t, sep) == [p + Split(t, sep)[0]] + Split(t, sep)[1..]
  {
    var pieces := Split(t, sep);
    if p != [] {
      var u := p[1..] + t;
      assert p + t == [p[0]] + u;
      var rest := Split(u, sep);
      assert rest == [p[1..] + pieces[0]] + pieces[1..] by {
        assert sep !in p[1..];
        SplitAfterPiece(p[1..], t, sep);
      }
      assert Split(p + t, sep) == [[p[0]] + rest[0]] + rest[1..] by {
        SplitAfterChar(p[0], u, sep);
      }
      assert [p[0]] + (p[1..] + pieces[0]) == p + pieces[0];
    } else {
      assert p + t == t;
      assert p + pieces[0] == pieces[0];
      assert [pieces[0]] + pieces[1..] == pieces;
    }
  }

  /** A leading non-separator starts the first piece. */
  lemma SplitAfterChar(c: char, u: string, sep: char)
    requires c != sep
    ensures Split([c] + u, sep) == [[c] + Split(u, sep)[0]] + Split(u, sep)[1..]
  {
    assert ([c] + u)[1..] == u;
  }

  /** A leading separator closes an empty first piece. */
  lemma SplitAfterSep(t: string, sep: char)
    ensures Split([sep] + t, sep) == [""] + Split(t, sep)
  {
    assert ([sep] + t)[1..] == t;
  }

  /** Split undoes Join when no piece holds the separator. */
  lemma {:induction false} SplitJoin(parts: seq<string>, sep: char)
    requires |parts| > 0
    requires forall i :: 0 <= i < |parts| ==> sep !in parts[i]
    ensures Split(Join(parts, sep), sep) == parts
  {
    if |parts| == 1 {
      SplitAfterPiece(parts[0], "", sep);
      assert parts[0] + "" == parts[0];
    } else {
      var tail := Join(parts[1..], sep);
      assert Join(parts, sep) == parts[0] + ([sep] + tail);
      SplitJoin(parts[1..], sep);
      SplitAfterSep(tail, sep);
      SplitAfterPiece(parts[0], [sep] + tail, sep);
      assert parts[0] + "" == parts[0];
      assert [parts[0]] + parts[1..] == parts;
    }
  }

  /** Rust's `s.replace(c, "")`: `s` with every `c` taken out. */
  function RemoveAll(s: string, c: char): (r: string)
    ensures c !in r
    ensures |r| == |s| - Count(s, c)
  {
    if s == [] then []
    else
      var rest := RemoveAll(s[1..], c);
      if s[0] == c then rest
      else
        assert ([s[0]] + rest)[1..] == rest;
        [s[0]] + rest
  }

  /** Every other character occurs as often as before. */
  lemma {:induction false} RemoveAllCount(s: string, c: char, x: char)
    requires x != c
    ensures Count(RemoveAll(s, c), x) == Count(s, x)
  {
    if s != [] {
      RemoveAllCount(s[1..], c, x);
      if s[0] != c {
        assert ([s[0]] + RemoveAll(s[1..], c))[1..] == RemoveAll(s[1..], c);
      }
    }
  }

  /** Removal works piece by piece, so the kept characters keep their order. */
  lemma {:induction false} RemoveAllAppend(a: string, b: string, c: char)
    ensures RemoveAll(a + b, c) == RemoveAll(a, c) + RemoveAll(b, c)
  {
    if a == [] {
      assert a + b == b;
    } else {
      assert (a + b)[0] == a[0];
      assert (a + b)[1..] == a[1..] + b;
      RemoveAllAppend(a[1..], b, c);
    }
  }

  /** Text without `c` is left as it is. */
  lemma {:induction false} RemoveAllAbsent(s: string, c: char)
    requires c !in s
    ensures RemoveAll(s, c) == s
  {
    if s != [] {
      assert c !in s[1..];
      RemoveAllAbsent(s[1..], c);
    }
  }

  predicate IsUpper(c: char) { 'A' <= c <= 'Z' }

  /** ASCII lower-casing of one character; every other character is kept. */
  function LowerChar(c: char): char
  {
    if IsUpper(c) then (c as int + 32) as char else c
  }

  /** ASCII lower-casing of a string, character by character. */
  function AsciiLower(s: string): (r: string)
    ensures |r| == |s|
    ensures forall i :: 0 <= i < |r| ==> !IsUpper(r[i])
    ensures forall i :: 0 <= i < |r| ==> LowerChar(r[i]) == LowerChar(s[i])
  {
    seq(|s|, i requires 0 <= i < |s| => LowerChar(s[i]))
  }

  /** Lower-casing changes nothing the second time. */
  lemma AsciiLowerIdempotent(s: string)
    ensures AsciiLower(AsciiLower(s)) == AsciiLower(s)
  {
    var once := AsciiLower(s);
    assert forall i :: 0 <= i < |once| ==> LowerChar(once[i]) == once[i];
  }

  /** `word` is made of lower-case letters a-z only. */
  predicate IsLowerWord(word: string)
  {
    forall i :: 0 <= i < |word| ==> 'a' <= word[i] <= 'z'
  }

  /**
   * `s` spells `word` in any mixture of cases: each character is the
   * word's letter or that letter's upper-case form.
   */
  predicate SpellsIgnoringCase(s: string, word: string)
  {
    |s| == |word| &&
    forall i :: 0 <= i < |s| ==> s[i] == word[i] || s[i] as int == word[i] as int - 32
  }

  /** Comparing the lower-cased text with a lower-case word is a case-insensitive comparison. */
  lemma LowerEqualsIff(s: string, word: string)
    requires IsLowerWord(word)
    ensures AsciiLower(s) == word <==> SpellsIgnoringCase(s, word)
  {
    if SpellsIgnoringCase(s, word) {
      assert forall i :: 0 <= i < |s| ==> AsciiLower(s)[i] == word[i];
    }
    if AsciiLower(s) == word {
      forall i | 0 <= i < |s|
        ensures s[i] == word[i] || s[i] as int == word[i] as int - 32
      {
        assert LowerChar(s[i]) == word[i];
      }
    }
  }

  /** Index of the last `c` in `s`, if there is one. */
  function LastIndex(s: string, c: char): (k: Option<nat>)
    ensures k.None? <==> c !in s
    ensures k.Some? ==> k.value < |s| && s[k.value] == c && c !in s[k.value + 1..]
  {
    if s == [] then None
    else if s[|s| - 1] == c then Some(|s| - 1)
    else
      var k := LastIndex(s[..|s| - 1], c);
      assert k.Some? ==> s[k.value + 1..] == s[..|s| - 1][k.value + 1..] + [s[|s| - 1]];
      k
  }
}
