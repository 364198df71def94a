/**
 * The handful of Python `str` built-ins the scraper relies on, restricted to
 * ASCII text: `strip`, `lower`, `replace(c, '')`, `split()`, `split(sep)`,
 * `sep.join(parts)` and the prefix slice `s[:n]`.
 */
module PyStr {
  import opened Sequences

  /** ASCII whitespace as `str.isspace`, `str.strip`, `str.split` and the regex class `\s` see it. */
  predicate IsSpace(c: char) {
    var n := c as int;
    n == 32 || 9 <= n <= 13 || 28 <= n <= 31
  }

  predicate IsDigit(c: char) {
    '0' <= c <= '9'
  }

  predicate IsDigits(s: string) {
    forall k :: 0 <= k < |s| ==> IsDigit(s[k])
  }

  /** `[a-z0-9]` */
  predicate IsLowerAlnum(c: char) {
    'a' <= c <= 'z' || IsDigit(c)
  }

  predicate IsUpper(c: char) {
    'A' <= c <= 'Z'
  }

  // ---------------------------------------------------------------- lower()

  function LowerChar(c: char): (r: char)
    ensures !IsUpper(r)
    ensures IsSpace(r) <==> IsSpace(c)
    ensures !IsUpper(c) ==> r == c
  {
    if IsUpper(c) then (c as int + 32) as char else c
  }

  /** `s.lower()` for ASCII: maps `A`-`Z` to `a`-`z`, leaves every other character. */
  function Lower(s: string): (r: string)
    ensures |r| == |s|
    ensures forall k :: 0 <= k < |s| ==> r[k] == LowerChar(s[k])
  {
    if s == [] then [] else [LowerChar(s[0])] + Lower(s[1..])
  }

  // ---------------------------------------------------------------- strip()

  /** `s.lstrip()` */
  function TrimStart(s: string): (r: string)
    ensures |r| <= |s| && r == s[|s| - |r|..]
    ensures r == [] || !IsSpace(r[0])
  {
    if s != [] && IsSpace(s[0]) then TrimStart(s[1..]) else s
  }

  /** `s.rstrip()` */
  function TrimEnd(s: string): (r: string)
    ensures |r| <= |s| && r == s[..|r|]
    ensures forall k :: |r| <= k < |s| ==> IsSpace(s[k])
    ensures r == [] || !IsSpace(r[|r| - 1])
  {
    if s != [] && IsSpace(s[|s| - 1]) then TrimEnd(s[..|s| - 1]) else s
  }

  /** `s.strip()`: drop leading and trailing whitespace. */
  function Strip(s: string): (r: string)
    ensures |r| <= |s|
    ensures r == [] || (!IsSpace(r[0]) && !IsSpace(r[|r| - 1]))
  {
    TrimEnd(TrimStart(s))
  }

  /**
   * `strip` removes whitespace only: everything before the suffix `lstrip`
   * keeps and everything after the result within that suffix is whitespace.
   * (That the result is a slice of the text follows from the contracts of
   * `TrimStart` and `TrimEnd`.)
   */
  lemma StripDropsOnlySpace(s: string)
    ensures var i, r := |s| - |TrimStart(s)|, Strip(s);
      (forall k :: 0 <= k < i ==> IsSpace(s[k])) &&
      (forall k :: i + |r| <= k < |s| ==> IsSpace(s[k]))
  {
    var t := TrimStart(s);
    TrimStartDropsSpace(s);
    MiddleOf(s, t, TrimEnd(t));
  }

  /** What `lstrip` drops is whitespace. */
  lemma {:induction false} TrimStartDropsSpace(s: string)
    ensures forall k :: 0 <= k < |s| - |TrimStart(s)| ==> IsSpace(s[k])
  {
    if s != [] && IsSpace(s[0]) {
      TrimStartDropsSpace(s[1..]);
      forall k | 1 <= k < |s| - |TrimStart(s)| ensures IsSpace(s[k]) {
        assert s[1..][k - 1] == s[k];
      }
    }
  }

  /** `r`, a prefix of the suffix `t` of `s` followed only by whitespace in `t`, is a middle slice of `s` followed only by whitespace. */
  lemma MiddleOf(s: string, t: string, r: string)
    requires |t| <= |s| && t == s[|s| - |t|..] && |r| <= |t| && r == t[..|r|]
    requires forall k :: |r| <= k < |t| ==> IsSpace(t[k])
    ensures var i := |s| - |t|;
      0 <= i && i + |r| <= |s| && r == s[i..i + |r|] && forall k :: i + |r| <= k < |s| ==> IsSpace(s[k])
  {
    var i := |s| - |t|;
    SliceOfSuffix(s, i, |r|);
    forall k | i + |r| <= k < |s| ensures IsSpace(s[k]) {
      assert t[k - i] == s[k];
    }
  }

  /** Text made of whitespace only. */
  predicate IsBlank(s: string)
  {
    forall k :: 0 <= k < |s| ==> IsSpace(s[k])
  }

  /** `lstrip` drops whitespace in front of a text that does not itself start with whitespace. */
  lemma {:induction false} TrimStartOfPadded(a: string, x: string)
    requires IsBlank(a) && (x == [] || !IsSpace(x[0]))
    ensures TrimStart(a + x) == x
  {
    if a == [] {
      assert a + x == x;
    } else {
      assert (a + x)[0] == a[0];
      assert (a + x)[1..] == a[1..] + x;
      TrimStartOfPadded(a[1..], x);
    }
  }

  /** `rstrip` drops whitespace behind a text that does not itself end with whitespace. */
  lemma {:induction false} TrimEndOfPadded(x: string, b: string)
    requires IsBlank(b) && (x == [] || !IsSpace(x[|x| - 1]))
    ensures TrimEnd(x + b) == x
    decreases |b|
  {
    if b == [] {
      assert x + b == x;
    } else {
      var b' := b[..|b| - 1];
      assert (x + b)[|x + b| - 1] == b[|b| - 1];
      assert (x + b)[..|x + b| - 1] == x + b';
      TrimEndOfPadded(x, b');
    }
  }

  /**
   * Padding a text that has no whitespace at its ends with whitespace on
   * both sides, then stripping, gives the text back; blank text strips to
   * the empty string.
   */
  lemma StripOfPadded(a: string, m: string, b: string)
    requires IsBlank(a) && IsBlank(b)
    requires m == [] || (!IsSpace(m[0]) && !IsSpace(m[|m| - 1]))
    ensures Strip(a + m + b) == m
  {
    AppendAssoc(a, m, b);
    if m == [] {
      assert a + m + b == (a + b) + [];
      assert IsBlank(a + b) by {
        forall k | 0 <= k < |a + b| ensures IsSpace((a + b)[k]) {
          if k >= |a| { assert (a + b)[k] == b[k - |a|]; }
        }
      }
      TrimStartOfPadded(a + b, []);
    } else {
      assert (m + b)[0] == m[0];
      TrimStartOfPadded(a, m + b);
      TrimEndOfPadded(m, b);
    }
  }

  /** Text with no whitespace at either end is left alone by `strip`. */
  lemma StripUnpadded(s: string)
    requires s == [] || (!IsSpace(s[0]) && !IsSpace(s[|s| - 1]))
    ensures Strip(s) == s
  {
  }

  lemma StripIdempotent(s: string)
    ensures Strip(Strip(s)) == Strip(s)
  {
    StripUnpadded(Strip(s));
  }

  /** Text without uppercase letters is its own lowercase. */
  lemma LowerOfLowercase(s: string)
    requires forall k :: 0 <= k < |s| ==> !IsUpper(s[k])
    ensures Lower(s) == s
  {
  }

  lemma {:induction false} TrimStartLower(s: string)
    ensures TrimStart(Lower(s)) == Lower(TrimStart(s))
    decreases |s|
  {
    if s != [] {
      assert Lower(s)[1..] == Lower(s[1..]);
      if IsSpace(s[0]) {
        TrimStartLower(s[1..]);
      }
    }
  }

  lemma {:induction false} TrimEndLower(s: string)
    ensures TrimEnd(Lower(s)) == Lower(TrimEnd(s))
    decreases |s|
  {
    if s != [] {
      var n := |s| - 1;
      assert Lower(s)[..n] == Lower(s[..n]);
      if IsSpace(s[n]) {
        TrimEndLower(s[..n]);
      }
    }
  }

  /** `lower` never creates or removes whitespace, so it commutes with `strip`. */
  lemma LowerStripCommute(s: string)
    ensures Strip(Lower(s)) == Lower(Strip(s))
  {
    TrimStartLower(s);
    TrimEndLower(TrimStart(s));
  }

  // ---------------------------------------------------------------- replace(c, '')

  /** `s.replace(c, '')`: every occurrence of `c` removed, the rest kept in order. */
  function RemoveChar(s: string, c: char): (r: string)
    ensures |r| <= |s|
    ensures c !in r
    ensures c !in s ==> r == s
  {
    if s == [] then []
    else if s[0] == c then RemoveChar(s[1..], c)
    else [s[0]] + RemoveChar(s[1..], c)
  }

  /** Removing from a text that starts with `a`: `a` goes when it is `c` and stays otherwise. */
  lemma RemoveCharCons(a: char, x: string, c: char)
    ensures RemoveChar([a] + x, c) == if a == c then RemoveChar(x, c) else [a] + RemoveChar(x, c)
  {
    assert ([a] + x)[0] == a && ([a] + x)[1..] == x;
  }

  lemma {:induction false} RemoveCharAppend(a: string, b: string, c: char)
    ensures RemoveChar(a + b, c) == RemoveChar(a, c) + RemoveChar(b, c)
  {
    if a == [] {
      assert a + b == b;
    } else {
      assert (a + b)[0] == a[0] && (a + b)[1..] == a[1..] + b;
      RemoveCharAppend(a[1..], b, c);
      if a[0] != c {
        calc {
          RemoveChar(a + b, c);
          [a[0]] + RemoveChar(a[1..] + b, c);
          [a[0]] + (RemoveChar(a[1..], c) + RemoveChar(b, c));
          ([a[0]] + RemoveChar(a[1..], c)) + RemoveChar(b, c);
        }
      }
    }
  }

  /** Removing one character never brings in another. */
  lemma {:induction false} RemoveCharKeepsOut(s: string, c: char, d: char)
    requires c !in s
    ensures c !in RemoveChar(s, d)
  {
    if s != [] {
      RemoveCharKeepsOut(s[1..], c, d);
    }
  }

  lemma {:induction false} RemoveCharCommute(s: string, c: char, d: char)
    ensures RemoveChar(RemoveChar(s, c), d) == RemoveChar(RemoveChar(s, d), c)
  {
    if s != [] {
      RemoveCharCommute(s[1..], c, d);
    }
  }

  // ---------------------------------------------------------------- split()

  /** Length of the run of non-whitespace characters that starts `s`. */
  function WordEnd(s: string): (n: nat)
    ensures n <= |s|
    ensures forall k :: 0 <= k < n ==> !IsSpace(s[k])
    ensures n == |s| || IsSpace(s[n])
  {
    if s == [] || IsSpace(s[0]) then 0 else 1 + WordEnd(s[1..])
  }

  /** `s.split()`: the maximal runs of non-whitespace characters, in order. */
  function Words(s: string): (ws: seq<string>)
    ensures forall i :: 0 <= i < |ws| ==> ws[i] != []
    ensures forall i, k :: 0 <= i < |ws| && 0 <= k < |ws[i]| ==> ws[i][k] in s && !IsSpace(ws[i][k])
    decreases |s|
  {
    if s == [] then []
    else if IsSpace(s[0]) then Words(s[1..])
    else
      var n := WordEnd(s);
      [s[..n]] + Words(s[n..])
  }

  /** A word without whitespace ends where the first whitespace character after it starts. */
  lemma {:induction false} WordEndOfPrefix(w: string, rest: string)
    requires forall k :: 0 <= k < |w| ==> !IsSpace(w[k])
    requires rest == [] || IsSpace(rest[0])
    ensures WordEnd(w + rest) == |w|
  {
    if w != [] {
      assert (w + rest)[1..] == w[1..] + rest;
      WordEndOfPrefix(w[1..], rest);
    }
  }

  /** A leading space is skipped by `split()`. */
  lemma WordsAfterSpace(t: string)
    ensures Words(" " + t) == Words(t)
  {
    assert (" " + t)[1..] == t;
  }

  /** A non-empty run without whitespace is one word. */
  lemma WordsOfWord(w: string)
    requires w != [] && forall k :: 0 <= k < |w| ==> !IsSpace(w[k])
    ensures Words(w) == [w]
  {
    WordEndOfPrefix(w, []);
    assert w + [] == w;
  }

  /** Text made only of whitespace has no words. */
  lemma {:induction false} WordsOfBlank(s: string)
    requires IsBlank(s)
    ensures Words(s) == []
    decreases |s|
  {
    if s != [] {
      assert IsBlank(s[1..]) by {
        forall k | 0 <= k < |s| - 1 ensures IsSpace(s[1..][k]) { assert s[1..][k] == s[k + 1]; }
      }
      WordsOfBlank(s[1..]);
    }
  }

  /** A whitespace character separates: the words on either side of it are listed one after the other. */
  lemma {:induction false} WordsSplitAtSpace(a: string, c: char, b: string)
    requires IsSpace(c)
    ensures Words(a + [c] + b) == Words(a) + Words(b)
    decreases |a|
  {
    var t := [c] + b;
    AppendAssoc(a, [c], b);
    if a == [] {
      assert a + t == t && t[1..] == b;
    } else if IsSpace(a[0]) {
      SplitAt(a, t, 1);
      WordsSplitAtSpace(a[1..], c, b);
      AppendAssoc(a[1..], [c], b);
    } else {
      var n := WordEnd(a);
      SplitAt(a, t, n);
      WordStartsBefore(a, t, n);
      WordsSplitAtSpace(a[n..], c, b);
      AppendAssoc(a[n..], [c], b);
    }
  }

  /** The first word of `a + t`, when `t` starts with whitespace, is the first word of `a`. */
  lemma WordStartsBefore(a: string, t: string, n: nat)
    requires a != [] && !IsSpace(a[0]) && n == WordEnd(a)
    requires t != [] && IsSpace(t[0])
    ensures WordEnd(a + t) == n
  {
    var w, rest := a[..n], a[n..] + t;
    SplitAt(a, t, n);
    assert a[..n] + a[n..] == a;
    AppendAssoc(w, a[n..], t);
    if n < |a| {
      assert rest[0] == a[n];
    } else {
      assert rest == t;
    }
    WordEndOfPrefix(w, rest);
  }

  /** Non-empty words without whitespace: what `split()` returns. */
  predicate IsWordList(ws: seq<string>)
  {
    (forall i :: 0 <= i < |ws| ==> ws[i] != []) &&
    (forall i, k :: 0 <= i < |ws| && 0 <= k < |ws[i]| ==> !IsSpace(ws[i][k]))
  }

  lemma WordListTail(ws: seq<string>)
    requires IsWordList(ws) && ws != []
    ensures IsWordList(ws[1..])
    ensures ws[0] != [] && forall k :: 0 <= k < |ws[0]| ==> !IsSpace(ws[0][k])
  {
    forall i | 0 <= i < |ws[1..]| ensures ws[1..][i] == ws[i + 1] {}
  }

  /** Whitespace-free, non-empty words survive `" ".join` followed by `split()`. */
  lemma {:induction false} WordsOfJoin(ws: seq<string>)
    requires IsWordList(ws)
    ensures Words(JoinWith(ws, " ")) == ws
  {
    if |ws| >= 1 {
      WordListTail(ws);
    }
    if |ws| == 1 {
      WordEndOfPrefix(ws[0], []);
      assert ws[0] + [] == ws[0];
    } else if |ws| > 1 {
      var w, tail := ws[0], JoinWith(ws[1..], " ");
      var rest := " " + tail;
      AppendAssoc(w, " ", tail);
      WordEndOfPrefix(w, rest);
      AppendParts(w, rest);
      WordsAfterSpace(tail);
      WordsOfJoin(ws[1..]);
      HeadTail(ws);
    }
  }

  // ---------------------------------------------------------------- sep.join(parts)

  /** `sep.join(parts)` */
  function JoinWith(parts: seq<string>, sep: string): string
  {
    if |parts| == 0 then []
    else if |parts| == 1 then parts[0]
    else parts[0] + sep + JoinWith(parts[1..], sep)
  }

  lemma {:induction false} JoinSnoc(parts: seq<string>, last: string, sep: string)
    requires |parts| >= 1
    ensures JoinWith(parts + [last], sep) == JoinWith(parts, sep) + sep + last
  {
    if |parts| > 1 {
      assert (parts + [last])[1..] == parts[1..] + [last];
      JoinSnoc(parts[1..], last, sep);
    }
  }

  // ---------------------------------------------------------------- split(sep)

  /** Index of the last occurrence of `c` in `s`. */
  function LastIndexOf(s: string, c: char): (i: nat)
    requires c in s
    ensures i < |s| && s[i] == c && c !in s[i + 1..]
  {
    if s[|s| - 1] == c then |s| - 1 else LastIndexOf(s[..|s| - 1], c)
  }

  /** `s.split(sep)` for a one-character separator: the pieces between separators, empty pieces included. */
  function SplitOn(s: string, sep: char): (parts: seq<string>)
    ensures |parts| >= 1
    ensures sep in s ==> |parts| >= 2
    ensures forall i :: 0 <= i < |parts| ==> sep !in parts[i]
    decreases |s|
  {
    if sep in s then
      var i := LastIndexOf(s, sep);
      SplitOn(s[..i], sep) + [s[i + 1..]]
    else [s]
  }

  /** Joining the pieces back with the separator gives the original text. */
  lemma {:induction false} JoinSplitRoundTrip(s: string, sep: char)
    ensures JoinWith(SplitOn(s, sep), [sep]) == s
    decreases |s|
  {
    if sep in s {
      var i := LastIndexOf(s, sep);
      JoinSplitRoundTrip(s[..i], sep);
      JoinSnoc(SplitOn(s[..i], sep), s[i + 1..], [sep]);
      assert s == s[..i] + [sep] + s[i + 1..];
    }
  }

  /** A piece without separators appended after a separator becomes one more piece. */
  lemma SplitOnSnoc(s: string, sep: char, tail: string)
    requires sep !in tail
    ensures SplitOn(s + [sep] + tail, sep) == SplitOn(s, sep) + [tail]
  {
    var t := s + [sep] + tail;
    assert t[|s|] == sep;
    assert LastIndexOf(t, sep) == |s|;
    assert t[..|s|] == s && t[|s| + 1..] == tail;
  }

  /** Dropping the last piece and joining the rest gives the text before the last separator. */
  lemma SplitOnDropLast(s: string, sep: char, tail: string)
    requires sep !in tail
    ensures var parts := SplitOn(s + [sep] + tail, sep);
      JoinWith(parts[..|parts| - 1], [sep]) == s
  {
    SplitOnSnoc(s, sep, tail);
    var parts := SplitOn(s + [sep] + tail, sep);
    assert parts[..|parts| - 1] == SplitOn(s, sep);
    JoinSplitRoundTrip(s, sep);
  }

  // ---------------------------------------------------------------- s[:n]

  /** Python's prefix slice `s[:n]`, where a negative `n` counts from the end. */
  function PyPrefix<T>(s: seq<T>, n: int): (r: seq<T>)
    ensures |r| <= |s| && r == s[..|r|]
    ensures n >= 0 ==> |r| == if n <= |s| then n else |s|
    ensures n < 0 ==> |r| == if -n <= |s| then |s| + n else 0
  {
    if n >= 0 then (if n <= |s| then s[..n] else s)
    else if -n <= |s| then s[..|s| + n]
    else []
  }
}
