/**
 * The string operations of the .NET base library that the search engine relies on:
 * `string.IsNullOrWhiteSpace`, ordinal string order (the order Lucene's term ranges use),
 * `ToLowerInvariant`, `StartsWith(…, StringComparison.OrdinalIgnoreCase)` and `Split(' ')`.
 */
module Text {
  import opened Wrappers

  /** `char.IsWhiteSpace`: the Unicode space, line and paragraph separators, U+0009..U+000D and U+0085. */
  predicate IsWhiteSpace(c: char) {
    || ('\t' <= c <= '\r')
    || c == ' ' || c == '\U{85}' || c == '\U{A0}' || c == '\U{1680}'
    || ('\U{2000}' <= c <= '\U{200A}')
    || c == '\U{2028}' || c == '\U{2029}' || c == '\U{202F}' || c == '\U{205F}' || c == '\U{3000}'
  }

  /** `string.IsNullOrWhiteSpace`: null, empty, or white space only. */
  predicate IsNullOrWhiteSpace(s: Option<string>) {
    s.None? || forall i | 0 <= i < |s.value| :: IsWhiteSpace(s.value[i])
  }

  /**
   * Ordinal (code point by code point) order on strings, shorter prefix first. On the
   * ASCII strings this model compares it coincides with Lucene's unsigned UTF-8 byte order.
   */
  predicate LexLe(a: string, b: string)
    decreases |a|
  {
    if a == [] then true
    else if b == [] then false
    else if a[0] != b[0] then a[0] < b[0]
    else LexLe(a[1..], b[1..])
  }

  /** Comparing two strings that start with blocks of equal length compares the blocks first. */
  lemma {:induction false} LexAppend(p: string, q: string, p': string, q': string)
    requires |p| == |p'|
    ensures LexLe(p + q, p' + q') <==> (p != p' && LexLe(p, p')) || (p == p' && LexLe(q, q'))
  {
    if p == [] {
      assert p + q == q && p' + q' == q';
    } else {
      assert (p + q)[0] == p[0] && (p + q)[1..] == p[1..] + q;
      assert (p' + q')[0] == p'[0] && (p' + q')[1..] == p'[1..] + q';
      if p[0] == p'[0] {
        LexAppend(p[1..], q, p'[1..], q');
        assert p == p' <==> p[1..] == p'[1..] by {
          if p[1..] == p'[1..] { assert p == [p[0]] + p[1..] && p' == [p'[0]] + p'[1..]; }
        }
      }
    }
  }

  /** The simple case mapping of ASCII letters; other characters are left unchanged. */
  function ToUpperAscii(c: char): char {
    if 'a' <= c <= 'z' then (c as int - 32) as char else c
  }

  function ToLowerAscii(c: char): char {
    if 'A' <= c <= 'Z' then (c as int + 32) as char else c
  }

  /** `string.ToLowerInvariant`, restricted to the ASCII case mapping. */
  function ToLowerInvariant(s: string): (r: string)
    ensures |r| == |s|
    ensures forall i | 0 <= i < |s| :: r[i] == ToLowerAscii(s[i])
  {
    seq(|s|, i requires 0 <= i < |s| => ToLowerAscii(s[i]))
  }

  /** `s.StartsWith(prefix, StringComparison.OrdinalIgnoreCase)`. */
  predicate StartsWithIgnoreCase(s: string, prefix: string) {
    |prefix| <= |s| && forall i | 0 <= i < |prefix| :: ToUpperAscii(s[i]) == ToUpperAscii(prefix[i])
  }

  /** Number of occurrences of `c` in `s`. */
  function Occurrences(s: string, c: char): nat {
    if s == [] then 0 else (if s[0] == c then 1 else 0) + Occurrences(s[1..], c)
  }

  /**
   * `s.Split(sep)`: the pieces between separators, empty pieces included (two adjacent
   * separators, or one at either end, give an empty piece). There is one piece more than
   * there are separators, and no piece holds a separator.
   */
  function Split(s: string, sep: char): (words: seq<string>)
    ensures |words| == Occurrences(s, sep) + 1
    ensures forall k | 0 <= k < |words| :: sep !in words[k]
  {
    if s == [] then [""]
    else
      var rest := Split(s[1..], sep);
      if s[0] == sep then [""] + rest
      else [[s[0]] + rest[0]] + rest[1..]
  }

  /** `string.Join(sep, words)`. */
  function Join(words: seq<string>, sep: char): string
    requires |words| >= 1
  {
    if |words| == 1 then words[0] else words[0] + [sep] + Join(words[1..], sep)
  }

  /** Joining the pieces with the separator gives back the string that was split. */
  lemma {:induction false} JoinSplit(s: string, sep: char)
    ensures Join(Split(s, sep), sep) == s
  {
    if s != [] {
      var rest := Split(s[1..], sep);
      JoinSplit(s[1..], sep);
      if s[0] == sep {
        assert Split(s, sep) == [""] + rest;
        assert ([""] + rest)[1..] == rest;
        assert s == [sep] + s[1..];
      } else {
        var w := Split(s, sep);
        assert w == [[s[0]] + rest[0]] + rest[1..];
        if |rest| == 1 {
          assert s == [s[0]] + s[1..];
        } else {
          assert w[1..] == rest[1..];
          assert Join(rest, sep) == rest[0] + [sep] + Join(rest[1..], sep);
          assert s == [s[0]] + s[1..];
        }
      }
    }
  }

  lemma {:induction false} SplitWordThenSeparator(w: string, sep: char, r: string)
    requires sep !in w
    ensures Split(w + [sep] + r, sep) == [w] + Split(r, sep)
  {
    if w == [] {
      assert w + [sep] + r == [sep] + r;
      assert ([sep] + r)[1..] == r;
    } else {
      var s := w + [sep] + r;
      assert s[0] == w[0] && s[1..] == w[1..] + [sep] + r;
      SplitWordThenSeparator(w[1..], sep, r);
      assert [w[0]] + w[1..] == w;
    }
  }

  lemma {:induction false} SplitWord(w: string, sep: char)
    requires sep !in w
    ensures Split(w, sep) == [w]
  {
    if w != [] {
      SplitWord(w[1..], sep);
      assert [w[0]] + w[1..] == w;
    }
  }

  /** Splitting separator-free pieces joined by the separator gives back exactly those pieces. */
  lemma {:induction false} SplitJoin(words: seq<string>, sep: char)
    requires |words| >= 1
    requires forall k | 0 <= k < |words| :: sep !in words[k]
    ensures Split(Join(words, sep), sep) == words
  {
    if |words| == 1 {
      SplitWord(words[0], sep);
    } else {
      SplitJoin(words[1..], sep);
      SplitWordThenSeparator(words[0], sep, Join(words[1..], sep));
      assert [words[0]] + words[1..] == words;
    }
  }
}
