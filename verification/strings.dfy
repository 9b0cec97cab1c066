/**
 The operations of Rust's `str` that the update resolver relies on, over
 `string` (a sequence of Unicode scalar values, which is what a Rust `char`
 is): `split`, `ends_with`, `replace`, `trim` and the ordering `<` of `String`.
 */
module Strings {

  /** Number of occurrences of `c` in `s`. */
  function CountOf(s: string, c: char): nat
  {
    if |s| == 0 then 0 else (if s[0] == c then 1 else 0) + CountOf(s[1..], c)
  }

  /** The inverse of `Split`: the pieces glued back together with `sep`. */
  function Join(parts: seq<string>, sep: char): string
    requires |parts| > 0
  {
    if |parts| == 1 then parts[0] else parts[0] + [sep] + Join(parts[1..], sep)
  }

  /**
   `s.split(sep).collect()`: the pieces between consecutive separators,
   empty pieces included, so there is always one piece more than there are
   separators.
   */
  function Split(s: string, sep: char): (parts: seq<string>)
    ensures |parts| == CountOf(s, sep) + 1
    ensures forall k :: 0 <= k < |parts| ==> sep !in parts[k]
    ensures Join(parts, sep) == s
    decreases |s|
  {
    if |s| == 0 then [""]
    else
      var rest := Split(s[1..], sep);
      if s[0] == sep then
        assert [sep] + s[1..] == s;
        [""] + rest
      else
        var parts := [[s[0]] + rest[0]] + rest[1..];
        assert [s[0]] + s[1..] == s;
        assert |rest| > 1 ==> Join(parts, sep) == [s[0]] + (rest[0] + [sep] + Join(rest[1..], sep)) by {
          if |rest| > 1 {
            assert parts[1..] == rest[1..];
          }
        }
        parts
  }

  /** A string without a separator splits into itself alone. */
  lemma {:induction false} SplitNoSep(s: string, sep: char)
    requires sep !in s
    ensures Split(s, sep) == [s]
  {
    if |s| > 0 {
      SplitNoSep(s[1..], sep);
      assert [s[0]] + s[1..] == s;
    }
  }

  /** The piece before the first separator is split off unchanged. */
  lemma {:induction false} SplitAfterSep(a: string, sep: char, b: string)
    requires sep !in a
    ensures Split(a + [sep] + b, sep) == [a] + Split(b, sep)
  {
    var s := a + [sep] + b;
    if |a| == 0 {
      assert s == [sep] + b;
      assert s[1..] == b;
    } else {
      assert s[1..] == a[1..] + [sep] + b;
      SplitAfterSep(a[1..], sep, b);
      assert [a[0]] + a[1..] == a;
    }
  }

  /** Round trip: pieces without separators come back from splitting their join. */
  lemma {:induction false} SplitJoin(parts: seq<string>, sep: char)
    requires |parts| > 0
    requires forall k :: 0 <= k < |parts| ==> sep !in parts[k]
    ensures Split(Join(parts, sep), sep) == parts
  {
    if |parts| == 1 {
      SplitNoSep(parts[0], sep);
    } else {
      SplitJoin(parts[1..], sep);
      SplitAfterSep(parts[0], sep, Join(parts[1..], sep));
      assert [parts[0]] + parts[1..] == parts;
    }
  }

  predicate StartsWith(s: string, prefix: string)
  {
    |prefix| <= |s| && s[..|prefix|] == prefix
  }

  /** `s.ends_with(suffix)`. */
  predicate EndsWith(s: string, suffix: string)
  {
    |suffix| <= |s| && s[|s| - |suffix|..] == suffix
  }

  /** `s.contains(p)`: `p` occurs at some position of `s`. */
  predicate Contains(s: string, p: string)
    decreases |s|
  {
    StartsWith(s, p) || (|s| > 0 && Contains(s[1..], p))
  }

  /** A pattern cannot occur in a text that lacks its first character. */
  lemma {:induction false} NotContainsWithoutFirst(s: string, p: string)
    requires |p| > 0 && p[0] !in s
    ensures !Contains(s, p)
  {
    if |s| > 0 {
      assert s[0] != p[0];
      NotContainsWithoutFirst(s[1..], p);
    }
  }

  /**
   `s.replace(from, to)` for a non-empty pattern: the occurrences of `from`
   are found left to right without overlapping, and each becomes `to`.
   */
  function Replace(s: string, from: string, to: string): string
    requires |from| > 0
    decreases |s|
  {
    if |s| == 0 then []
    else if StartsWith(s, from) then to + Replace(s[|from|..], from, to)
    else [s[0]] + Replace(s[1..], from, to)
  }

  /** Replacing a pattern that does not occur changes nothing. */
  lemma {:induction false} ReplaceNoMatch(s: string, from: string, to: string)
    requires |from| > 0 && !Contains(s, from)
    ensures Replace(s, from, to) == s
  {
    if |s| > 0 {
      ReplaceNoMatch(s[1..], from, to);
      assert [s[0]] + s[1..] == s;
    }
  }

  /**
   When the pattern's first character does not recur in it, a match at the
   start of `s + from` (for a non-empty `s`) lies within `s`: it cannot reach
   into the appended occurrence.
   */
  lemma StartsWithBeforePattern(s: string, from: string)
    requires |from| > 0 && from[0] !in from[1..] && |s| > 0
    ensures StartsWith(s + from, from) <==> StartsWith(s, from)
  {
    var t := s + from;
    if |s| < |from| {
      assert t[|s|] == from[0];
      assert from[|s|] == from[1..][|s| - 1];
      assert t[..|from|][|s|] == t[|s|];
    } else {
      assert t[..|from|] == s[..|from|];
    }
  }

  /** A text that starts with the pattern still does after anything is appended. */
  lemma StartsWithExtended(s: string, p: string, b: string)
    requires |p| <= |s|
    ensures StartsWith(s + b, p) <==> StartsWith(s, p)
  {
    assert (s + b)[..|p|] == s[..|p|];
  }

  /**
   When the pattern's first character does not recur in it, an occurrence in
   the middle of a text is replaced on its own: the text before it and the
   text after it are rewritten independently.
   */
  lemma {:induction false} ReplaceSplitAt(a: string, from: string, to: string, b: string)
    requires |from| > 0 && from[0] !in from[1..]
    ensures Replace(a + from + b, from, to) == Replace(a, from, to) + to + Replace(b, from, to)
    decreases |a|, 1
  {
    if |a| == 0 {
      assert a + from + b == from + b;
      assert (from + b)[..|from|] == from;
      assert (from + b)[|from|..] == b;
    } else if StartsWith(a, from) {
      ReplaceSplitAfterMatch(a, from, to, b);
    } else {
      ReplaceSplitAfterMiss(a, from, to, b);
    }
  }

  /** `ReplaceSplitAt` when `a` begins with a match. */
  lemma {:induction false} ReplaceSplitAfterMatch(a: string, from: string, to: string, b: string)
    requires |from| > 0 && from[0] !in from[1..] && |a| > 0 && StartsWith(a, from)
    ensures Replace(a + from + b, from, to) == Replace(a, from, to) + to + Replace(b, from, to)
    decreases |a|, 0
  {
    var s := a + from + b;
    var rest := a[|from|..];
    assert s == a + (from + b);
    StartsWithExtended(a, from, from + b);
    assert s[|from|..] == rest + from + b;
    calc {
      Replace(s, from, to);
      to + Replace(rest + from + b, from, to);
      { ReplaceSplitAt(rest, from, to, b); }
      to + (Replace(rest, from, to) + to + Replace(b, from, to));
      (to + Replace(rest, from, to)) + to + Replace(b, from, to);
      Replace(a, from, to) + to + Replace(b, from, to);
    }
  }

  /** `ReplaceSplitAt` when `a` does not begin with a match. */
  lemma {:induction false} ReplaceSplitAfterMiss(a: string, from: string, to: string, b: string)
    requires |from| > 0 && from[0] !in from[1..] && |a| > 0 && !StartsWith(a, from)
    ensures Replace(a + from + b, from, to) == Replace(a, from, to) + to + Replace(b, from, to)
    decreases |a|, 0
  {
    var s := a + from + b;
    var rest := a[1..];
    StartsWithBeforePattern(a, from);
    StartsWithExtended(a + from, from, b);
    assert s[1..] == rest + from + b;
    assert s[0] == a[0];
    calc {
      Replace(s, from, to);
      [a[0]] + Replace(rest + from + b, from, to);
      { ReplaceSplitAt(rest, from, to, b); }
      [a[0]] + (Replace(rest, from, to) + to + Replace(b, from, to));
      ([a[0]] + Replace(rest, from, to)) + to + Replace(b, from, to);
      Replace(a, from, to) + to + Replace(b, from, to);
    }
  }

  /**
   When the pattern's first character does not recur in it, an occurrence
   appended at the end is replaced on its own: no earlier match overlaps it.
   */
  lemma {:induction false} ReplaceAppendPattern(s: string, from: string, to: string)
    requires |from| > 0 && from[0] !in from[1..]
    ensures Replace(s + from, from, to) == Replace(s, from, to) + to
    decreases |s|, 1
  {
    if |s| == 0 {
      assert s + from == from;
      assert from[|from|..] == [];
    } else if StartsWith(s, from) {
      ReplaceAppendAfterMatch(s, from, to);
    } else {
      ReplaceAppendAfterMiss(s, from, to);
    }
  }

  /** `ReplaceAppendPattern` when `s` begins with a match. */
  lemma {:induction false} ReplaceAppendAfterMatch(s: string, from: string, to: string)
    requires |from| > 0 && from[0] !in from[1..] && |s| > 0 && StartsWith(s, from)
    ensures Replace(s + from, from, to) == Replace(s, from, to) + to
    decreases |s|, 0
  {
    StartsWithBeforePattern(s, from);
    var rest := s[|from|..];
    assert (s + from)[|from|..] == rest + from;
    calc {
      Replace(s + from, from, to);
      to + Replace(rest + from, from, to);
      { ReplaceAppendPattern(rest, from, to); }
      to + (Replace(rest, from, to) + to);
      (to + Replace(rest, from, to)) + to;
      Replace(s, from, to) + to;
    }
  }

  /** `ReplaceAppendPattern` when `s` does not begin with a match. */
  lemma {:induction false} ReplaceAppendAfterMiss(s: string, from: string, to: string)
    requires |from| > 0 && from[0] !in from[1..] && |s| > 0 && !StartsWith(s, from)
    ensures Replace(s + from, from, to) == Replace(s, from, to) + to
    decreases |s|, 0
  {
    StartsWithBeforePattern(s, from);
    var rest := s[1..];
    assert (s + from)[1..] == rest + from;
    assert (s + from)[0] == s[0];
    calc {
      Replace(s + from, from, to);
      [s[0]] + Replace(rest + from, from, to);
      { ReplaceAppendPattern(rest, from, to); }
      [s[0]] + (Replace(rest, from, to) + to);
      ([s[0]] + Replace(rest, from, to)) + to;
      Replace(s, from, to) + to;
    }
  }

  /** Rust's `char::is_whitespace`: the characters with the Unicode White_Space property. */
  predicate IsWhitespace(c: char)
  {
    || ('\t' <= c <= '\r')
    || c == ' '
    || c == '\U{85}'
    || c == '\U{A0}'
    || c == '\U{1680}'
    || ('\U{2000}' <= c <= '\U{200A}')
    || c == '\U{2028}'
    || c == '\U{2029}'
    || c == '\U{202F}'
    || c == '\U{205F}'
    || c == '\U{3000}'
  }

  /** `s.trim_start()`: the longest suffix of `s` that does not begin with whitespace. */
  function TrimStart(s: string): (r: string)
    ensures |r| <= |s| && r == s[|s| - |r|..]
    ensures forall i :: 0 <= i < |s| - |r| ==> IsWhitespace(s[i])
    ensures r == [] || !IsWhitespace(r[0])
  {
    if |s| > 0 && IsWhitespace(s[0]) then TrimStart(s[1..]) else s
  }

  /** `s.trim_end()`: the longest prefix of `s` that does not end with whitespace. */
  function TrimEnd(s: string): (r: string)
    ensures |r| <= |s| && r == s[..|r|]
    ensures forall i :: |r| <= i < |s| ==> IsWhitespace(s[i])
    ensures r == [] || !IsWhitespace(r[|r| - 1])
  {
    if |s| > 0 && IsWhitespace(s[|s| - 1]) then TrimEnd(s[..|s| - 1]) else s
  }

  /**
   `s.trim()`: `s` without its leading and trailing whitespace; what is left
   neither begins nor ends with whitespace, and is empty only when `s` is all
   whitespace.
   */
  function Trim(s: string): (r: string)
    ensures r == [] || (!IsWhitespace(r[0]) && !IsWhitespace(r[|r| - 1]))
    ensures r == [] <==> forall i :: 0 <= i < |s| ==> IsWhitespace(s[i])
    ensures |r| <= |s|
  {
    TrimEnd(TrimStart(s))
  }

  /** What `Trim` keeps is a contiguous part of the original text. */
  lemma TrimIsInfix(s: string)
    ensures Contains(s, Trim(s))
  {
    var t := TrimStart(s);
    var r := TrimEnd(t);
    assert StartsWith(t, r);
    ContainsInSuffix(s, |s| - |t|, r);
  }

  /** What occurs at the start of a suffix of `s` occurs in `s`. */
  lemma {:induction false} ContainsInSuffix(s: string, i: nat, p: string)
    requires i <= |s| && StartsWith(s[i..], p)
    ensures Contains(s, p)
    decreases i
  {
    if i > 0 {
      assert s[1..][i - 1..] == s[i..];
      ContainsInSuffix(s[1..], i - 1, p);
    }
  }

  /** Leading whitespace before a part that does not begin with whitespace is all `TrimStart` removes. */
  lemma {:induction false} TrimStartSkips(pre: string, rest: string)
    requires forall i :: 0 <= i < |pre| ==> IsWhitespace(pre[i])
    requires rest == [] || !IsWhitespace(rest[0])
    ensures TrimStart(pre + rest) == rest
  {
    if |pre| == 0 {
      assert pre + rest == rest;
    } else {
      assert (pre + rest)[0] == pre[0];
      assert (pre + rest)[1..] == pre[1..] + rest;
      TrimStartSkips(pre[1..], rest);
    }
  }

  /** Trailing whitespace after a part that does not end with whitespace is all `TrimEnd` removes. */
  lemma {:induction false} TrimEndSkips(rest: string, post: string)
    requires forall i :: 0 <= i < |post| ==> IsWhitespace(post[i])
    requires rest == [] || !IsWhitespace(rest[|rest| - 1])
    ensures TrimEnd(rest + post) == rest
  {
    if |post| == 0 {
      assert rest + post == rest;
    } else {
      var s := rest + post;
      assert s[|s| - 1] == post[|post| - 1];
      assert s[..|s| - 1] == rest + post[..|post| - 1];
      TrimEndSkips(rest, post[..|post| - 1]);
    }
  }

  /** Whatever whitespace surrounds a text that is already trimmed, `Trim` removes exactly that. */
  lemma TrimPadded(pre: string, core: string, post: string)
    requires forall i :: 0 <= i < |pre| ==> IsWhitespace(pre[i])
    requires forall i :: 0 <= i < |post| ==> IsWhitespace(post[i])
    requires core == [] || (!IsWhitespace(core[0]) && !IsWhitespace(core[|core| - 1]))
    ensures Trim(pre + core + post) == core
  {
    if core == [] {
      var blank := pre + post;
      assert forall i :: 0 <= i < |blank| ==> IsWhitespace(blank[i]) by {
        forall i | 0 <= i < |blank| ensures IsWhitespace(blank[i]) {
          if i < |pre| { assert blank[i] == pre[i]; } else { assert blank[i] == post[i - |pre|]; }
        }
      }
      assert pre + core + post == blank + [];
      TrimStartSkips(blank, []);
    } else {
      assert pre + core + post == pre + (core + post);
      TrimStartSkips(pre, core + post);
      TrimEndSkips(core, post);
    }
  }

  /** A text that neither begins nor ends with whitespace is left alone by `Trim`. */
  lemma TrimOfTrimmed(t: string)
    requires t == [] || (!IsWhitespace(t[0]) && !IsWhitespace(t[|t| - 1]))
    ensures Trim(t) == t
  {
    assert [] + t == t && t + [] == t;
    TrimStartSkips([], t);
    TrimEndSkips(t, []);
  }

  /** Trimming twice is trimming once. */
  lemma TrimIdempotent(s: string)
    ensures Trim(Trim(s)) == Trim(s)
  {
    TrimOfTrimmed(Trim(s));
  }

  /**
   The `<` of Rust's `String`: lexicographic, a proper prefix coming first.
   (Rust compares the UTF-8 bytes, which orders exactly as comparing the
   scalar values one by one.)
   */
  predicate LexLess(a: string, b: string)
    decreases |a|
  {
    if |b| == 0 then false
    else if |a| == 0 then true
    else if a[0] != b[0] then a[0] < b[0]
    else LexLess(a[1..], b[1..])
  }

  lemma {:induction false} LexLessIrreflexive(a: string)
    ensures !LexLess(a, a)
  {
    if |a| > 0 {
      LexLessIrreflexive(a[1..]);
    }
  }

  lemma {:induction false} LexLessTransitive(a: string, b: string, c: string)
    requires LexLess(a, b) && LexLess(b, c)
    ensures LexLess(a, c)
  {
    if |a| > 0 && a[0] == b[0] && b[0] == c[0] {
      LexLessTransitive(a[1..], b[1..], c[1..]);
    }
  }

  /** Any two strings are equal or one is less than the other, and never both ways. */
  lemma {:induction false} LexLessTrichotomy(a: string, b: string)
    ensures LexLess(a, b) || a == b || LexLess(b, a)
    ensures !(LexLess(a, b) && LexLess(b, a))
  {
    if |a| > 0 && |b| > 0 && a[0] == b[0] {
      LexLessTrichotomy(a[1..], b[1..]);
      assert a == [a[0]] + a[1..] && b == [b[0]] + b[1..];
    }
  }
}
