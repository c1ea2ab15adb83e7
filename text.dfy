/** Python's built-in string operations the event script relies on:
    `str.strip()`, `str.split(sep)` and `sep.join(parts)`. Strings are
    sequences of Unicode scalar values, so `|s|` is Python's `len(s)`. */
module Text {

  /** `c.isspace()` in Python: the characters that `str.strip()` removes. */
  predicate IsSpace(c: char) {
    ('\t' <= c <= '\r') || ('\U{1C}' <= c <= '\U{1F}') || c == ' '
    || c == '\U{85}' || c == '\U{A0}' || c == '\U{1680}'
    || ('\U{2000}' <= c <= '\U{200A}') || c == '\U{2028}' || c == '\U{2029}'
    || c == '\U{202F}' || c == '\U{205F}' || c == '\U{3000}'
  }

  predicate AllSpace(s: string) {
    forall i :: 0 <= i < |s| ==> IsSpace(s[i])
  }

  /** Neither end of `s` is whitespace. */
  predicate Unpadded(s: string) {
    s == [] || (!IsSpace(s[0]) && !IsSpace(s[|s| - 1]))
  }

  /** `s.strip()`: `s` without its leading and trailing whitespace. */
  function Strip(s: string): (r: string)
    ensures Unpadded(r)
    ensures |r| <= |s|
    ensures r == [] <==> AllSpace(s)
    decreases |s|
  {
    if s == [] then []
    else if IsSpace(s[0]) then
      assert AllSpace(s) <==> AllSpace(s[1..]) by {
        assert forall i :: 0 < i < |s| ==> s[i] == s[1..][i - 1];
      }
      Strip(s[1..])
    else if IsSpace(s[|s| - 1]) then
      assert AllSpace(s) <==> AllSpace(s[..|s| - 1]) by {
        assert forall i :: 0 <= i < |s| - 1 ==> s[i] == s[..|s| - 1][i];
      }
      Strip(s[..|s| - 1])
    else s
  }

  /** Stripping adds no character that was not there. */
  lemma {:induction false} StripKeepsOut(s: string, c: char)
    requires c !in s
    ensures c !in Strip(s)
    decreases |s|
  {
    if s != [] {
      if IsSpace(s[0]) {
        assert c !in s[1..];
        StripKeepsOut(s[1..], c);
      } else if IsSpace(s[|s| - 1]) {
        assert c !in s[..|s| - 1];
        StripKeepsOut(s[..|s| - 1], c);
      }
    }
  }

  /** Stripping what is already unpadded changes nothing, so `Strip` is idempotent. */
  lemma StripUnpadded(s: string)
    requires Unpadded(s)
    ensures Strip(s) == s
  {
  }

  /** `r` sits at offset `i` of `s` with only whitespace around it. */
  predicate StripsTo(s: string, r: string, i: nat) {
    i + |r| <= |s| && r == s[i..i + |r|] && AllSpace(s[..i]) && AllSpace(s[i + |r|..])
  }

  lemma StripsToFront(s: string, r: string, i: nat)
    requires s != [] && IsSpace(s[0]) && StripsTo(s[1..], r, i)
    ensures StripsTo(s, r, i + 1)
  {
    assert s[1..][i..i + |r|] == s[i + 1..i + 1 + |r|];
    assert s[..i + 1] == [s[0]] + s[1..][..i];
    assert s[i + 1 + |r|..] == s[1..][i + |r|..];
  }

  lemma StripsToBack(s: string, r: string, i: nat)
    requires s != [] && IsSpace(s[|s| - 1]) && StripsTo(s[..|s| - 1], r, i)
    ensures StripsTo(s, r, i)
  {
    var t := s[..|s| - 1];
    assert t[i..i + |r|] == s[i..i + |r|];
    assert s[..i] == t[..i];
    assert s[i + |r|..] == t[i + |r|..] + [s[|s| - 1]];
  }

  /** The stripped string is a contiguous piece of the original, and
      everything cut away on either side is whitespace. */
  lemma {:induction false} StripInfix(s: string)
    ensures exists i: nat :: StripsTo(s, Strip(s), i)
    decreases |s|
  {
    var r := Strip(s);
    if s == [] {
      assert StripsTo(s, r, 0);
    } else if IsSpace(s[0]) {
      StripInfix(s[1..]);
      var i: nat :| StripsTo(s[1..], r, i);
      StripsToFront(s, r, i);
    } else if IsSpace(s[|s| - 1]) {
      StripInfix(s[..|s| - 1]);
      var i: nat :| StripsTo(s[..|s| - 1], r, i);
      StripsToBack(s, r, i);
    } else {
      assert s[..0] == [] && s[|s|..] == [];
      assert StripsTo(s, r, 0);
    }
  }

  /** `s.split(sep)`: the pieces between occurrences of `sep`; there is
      always one more piece than there are separators. */
  function Split(s: string, sep: char): (parts: seq<string>)
    ensures |parts| >= 1
  {
    if s == [] then [[]]
    else
      var rest := Split(s[1..], sep);
      if s[0] == sep then [[]] + rest
      else [[s[0]] + rest[0]] + rest[1..]
  }

  /** `sep.join(parts)`. */
  function Join(parts: seq<string>, sep: char): (s: string)
    ensures |parts| >= 1 ==> parts[0] <= s
  {
    if |parts| == 0 then []
    else if |parts| == 1 then parts[0]
    else parts[0] + [sep] + Join(parts[1..], sep)
  }

  /** The pieces hold no separator, and there is one more piece than
      there are separators. */
  lemma {:induction false} SplitPieces(s: string, sep: char)
    ensures |Split(s, sep)| == multiset(s)[sep] + 1
    ensures forall k :: 0 <= k < |Split(s, sep)| ==> sep !in Split(s, sep)[k]
  {
    if s != [] {
      assert s == [s[0]] + s[1..];
      SplitPieces(s[1..], sep);
    }
  }

  /** A string without the separator splits into itself alone. */
  lemma {:induction false} SplitWithoutSep(w: string, sep: char)
    requires sep !in w
    ensures Split(w, sep) == [w]
  {
    if w != [] {
      assert w == [w[0]] + w[1..];
      assert sep !in w[1..];
      SplitWithoutSep(w[1..], sep);
    }
  }

  /** Splitting at a separator splits the two sides independently. */
  lemma {:induction false} SplitAppend(a: string, b: string, sep: char)
    ensures Split(a + [sep] + b, sep) == Split(a, sep) + Split(b, sep)
  {
    if a == [] {
      assert a + [sep] + b == [sep] + b;
      assert ([sep] + b)[1..] == b;
    } else {
      assert (a + [sep] + b)[1..] == a[1..] + [sep] + b;
      SplitAppend(a[1..], b, sep);
    }
  }

  lemma JoinPrepend(c: char, rest: seq<string>, sep: char)
    requires |rest| >= 1
    ensures Join([[c] + rest[0]] + rest[1..], sep) == [c] + Join(rest, sep)
  {
    var parts := [[c] + rest[0]] + rest[1..];
    assert parts[1..] == rest[1..];
  }

  /** Two words joined by the separator split back into the two words. */
  lemma SplitTwoWords(a: string, b: string, sep: char)
    requires sep !in a && sep !in b
    ensures Split(a + [sep] + b, sep) == [a, b]
  {
    SplitAppend(a, b, sep);
    SplitWithoutSep(a, sep);
    SplitWithoutSep(b, sep);
  }

  lemma SplitThreeWords(a: string, b: string, c: string, sep: char)
    requires sep !in a && sep !in b && sep !in c
    ensures Split(a + [sep] + b + [sep] + c, sep) == [a, b, c]
  {
    assert a + [sep] + b + [sep] + c == a + [sep] + (b + [sep] + c);
    SplitAppend(a, b + [sep] + c, sep);
    SplitTwoWords(b, c, sep);
    SplitWithoutSep(a, sep);
  }

  /** Joining the pieces of a split gives the string back. */
  lemma {:induction false} JoinSplit(s: string, sep: char)
    ensures Join(Split(s, sep), sep) == s
  {
    if s != [] {
      var rest := Split(s[1..], sep);
      JoinSplit(s[1..], sep);
      assert s == [s[0]] + s[1..];
      if s[0] == sep {
        assert ([[]] + rest)[1..] == rest;
      } else {
        JoinPrepend(s[0], rest, sep);
      }
    }
  }

  /** Splitting a join gives the pieces back, as long as no piece holds
      the separator. */
  lemma {:induction false} SplitJoin(parts: seq<string>, sep: char)
    requires |parts| >= 1
    requires forall k :: 0 <= k < |parts| ==> sep !in parts[k]
    ensures Split(Join(parts, sep), sep) == parts
  {
    SplitWithoutSep(parts[0], sep);
    if |parts| > 1 {
      SplitJoin(parts[1..], sep);
      SplitAppend(parts[0], Join(parts[1..], sep), sep);
      assert parts == [parts[0]] + parts[1..];
    }
  }
}
