/**
 * Keyword extraction of the scraper (`extract_keywords`) and the common
 * product list (`extract_common_products`), over ASCII text.
 */
module Keywords {
  import opened Optional
  import opened PyStr
  import opened Sequences

  /** Default of the `max_keywords` parameter. */
  const DefaultMaxKeywords: int := 15

  /** `STOPWORDS`: common words never kept as keywords (the set, listed; only membership matters). */
  const Stopwords: seq<string> := [
    "the", "a", "an", "and", "or", "but", "in", "on", "at", "to", "for",
    "of", "with", "is", "are", "was", "were", "be", "been", "being",
    "this", "that", "these", "those", "it", "its", "as", "by", "from",
    "has", "have", "had", "will", "would", "can", "could", "should",
    "used", "use", "etc", "e.g", "i.e"
  ]

  /** `w` is one of `ws`, looked up entry by entry. */
  predicate Listed(ws: seq<string>, w: string)
  {
    ws != [] && (ws[0] == w || Listed(ws[1..], w))
  }

  /** `word in STOPWORDS` */
  predicate IsStopword(w: string)
  {
    Listed(Stopwords, w)
  }

  lemma {:induction false} ListedIsMember(ws: seq<string>, w: string)
    ensures Listed(ws, w) <==> w in ws
  {
    if ws != [] {
      ListedIsMember(ws[1..], w);
      assert ws == [ws[0]] + ws[1..];
    }
  }

  lemma StopwordsStartWithLetter()
    ensures forall i :: 0 <= i < |Stopwords| ==> Stopwords[i] != [] && 'a' <= Stopwords[i][0] <= 'z'
  {
  }

  /** A word starting with `n` is not a stopword. */
  lemma NoStopwordStartsWithN(w: string)
    requires w != [] && w[0] == 'n'
    ensures !IsStopword(w)
  {
    ListedIsMember(Stopwords, w);
    if w in Stopwords {
      var i :| 0 <= i < |Stopwords| && Stopwords[i] == w;
      StopwordInitials();
    }
  }

  /** No stopword starts with a letter from `j` to `n`. */
  lemma StopwordInitials()
    ensures forall i :: 0 <= i < |Stopwords| ==> Stopwords[i] != [] && (Stopwords[i][0] <= 'i' || 'o' <= Stopwords[i][0])
  {
  }

  /** Every stopword starts with a letter, so a word starting with a digit is never a stopword. */
  lemma DigitWordNotStopword(w: string)
    requires w != [] && IsDigit(w[0])
    ensures !IsStopword(w)
  {
    ListedIsMember(Stopwords, w);
    if w in Stopwords {
      var i :| 0 <= i < |Stopwords| && Stopwords[i] == w;
      StopwordsStartWithLetter();
    }
  }

  // ---------------------------------------------------------------- tokenising

  /** One character of `re.sub(r'[^a-z0-9\s]', ' ', text)`. */
  function SanitizeChar(c: char): (r: char)
    ensures IsLowerAlnum(r) || IsSpace(r)
    ensures IsLowerAlnum(c) || IsSpace(c) ==> r == c
    ensures IsSpace(r) <==> !IsLowerAlnum(c)
  {
    if IsLowerAlnum(c) || IsSpace(c) then c else ' '
  }

  /** `re.sub(r'[^a-z0-9\s]', ' ', text)`: everything but `[a-z0-9]` and whitespace becomes a space. */
  function Sanitize(s: string): (r: string)
    ensures |r| == |s|
    ensures forall k :: 0 <= k < |s| ==> r[k] == SanitizeChar(s[k])
  {
    if s == [] then [] else [SanitizeChar(s[0])] + Sanitize(s[1..])
  }

  /** Text of `[a-z0-9]` and whitespace only is left alone. */
  lemma SanitizeOfClean(s: string)
    requires forall k :: 0 <= k < |s| ==> IsLowerAlnum(s[k]) || IsSpace(s[k])
    ensures Sanitize(s) == s
  {
  }

  /** The words of the description once lowercased and stripped of punctuation. */
  function Tokens(text: string): seq<string>
  {
    Words(Sanitize(Lower(text)))
  }

  /** Every token is a non-empty run of `[a-z0-9]`. */
  lemma TokenChars(text: string)
    ensures forall i :: 0 <= i < |Tokens(text)| ==> Tokens(text)[i] != []
    ensures forall i, k :: 0 <= i < |Tokens(text)| && 0 <= k < |Tokens(text)[i]| ==> IsLowerAlnum(Tokens(text)[i][k])
  {
    var s := Sanitize(Lower(text));
    assert forall c :: c in s ==> IsLowerAlnum(c) || IsSpace(c);
  }

  /** The two dotted stopwords `e.g` and `i.e` can never match: the dot has already become a space. */
  lemma DottedStopwordsNeverMatch(text: string)
    ensures forall i :: 0 <= i < |Tokens(text)| ==> Tokens(text)[i] != "e.g" && Tokens(text)[i] != "i.e"
  {
    TokenChars(text);
    forall i | 0 <= i < |Tokens(text)| ensures Tokens(text)[i] != "e.g" && Tokens(text)[i] != "i.e" {
      var w := Tokens(text)[i];
      if |w| == 3 {
        assert IsLowerAlnum(w[1]);
      }
    }
  }

  // ---------------------------------------------------------------- filtering

  /** The filter condition of the list comprehension: not a stopword and at least 3 characters. */
  predicate IsKeyword(w: string)
  {
    !IsStopword(w) && |w| >= 3
  }

  /** `[word for word in words if word not in STOPWORDS and len(word) >= 3]` */
  function FilterKeywords(words: seq<string>): (r: seq<string>)
    ensures |r| <= |words|
    ensures forall i :: 0 <= i < |r| ==> IsKeyword(r[i])
  {
    if words == [] then []
    else (if IsKeyword(words[0]) then [words[0]] else []) + FilterKeywords(words[1..])
  }

  /** A word survives the filter exactly when it is one of the words and passes the condition. */
  lemma {:induction false} FilterKeywordsMembers(words: seq<string>)
    ensures forall w :: w in FilterKeywords(words) <==> w in words && IsKeyword(w)
  {
    if words != [] {
      FilterKeywordsMembers(words[1..]);
      assert words == [words[0]] + words[1..];
    }
  }

  /** A word the filter kept is one of its input words, and a keyword. */
  lemma FilteredWord(words: seq<string>, w: string)
    requires w in FilterKeywords(words)
    ensures w in words && IsKeyword(w)
  {
    FilterKeywordsMembers(words);
  }

  // ---------------------------------------------------------------- de-duplication

  predicate NoDuplicates<T(==)>(s: seq<T>)
  {
    forall i, j :: 0 <= i < j < |s| ==> s[i] != s[j]
  }

  /** The keywords in order with every repeat of an earlier one dropped, as the `seen` loop builds them. */
  function Dedup(ks: seq<string>): (u: seq<string>)
    ensures |u| <= |ks|
  {
    if ks == [] then []
    else
      var u, k := Dedup(ks[..|ks| - 1]), ks[|ks| - 1];
      if k in u then u else u + [k]
  }

  /** Position of the first occurrence of `x` in `s`. */
  function FirstIndex<T(==)>(s: seq<T>, x: T): (i: nat)
    requires x in s
    ensures i < |s| && s[i] == x && x !in s[..i]
  {
    if s[0] == x then 0 else 1 + FirstIndex(s[1..], x)
  }

  lemma {:induction false} FirstIndexOfPrefix<T>(s: seq<T>, t: seq<T>, x: T)
    requires x in s
    ensures FirstIndex(s + t, x) == FirstIndex(s, x)
  {
    if s[0] != x {
      assert (s + t)[1..] == s[1..] + t;
      FirstIndexOfPrefix(s[1..], t, x);
    }
  }

  /** The de-duplicated list has no repeats and holds exactly the words of the input. */
  lemma {:induction false} DedupMembers(ks: seq<string>)
    ensures NoDuplicates(Dedup(ks))
    ensures forall x :: x in Dedup(ks) <==> x in ks
  {
    if ks != [] {
      var init := ks[..|ks| - 1];
      DedupMembers(init);
      assert ks == init + [ks[|ks| - 1]];
    }
  }

  /** The de-duplicated list keeps the words in the order of their first occurrence. */
  lemma {:induction false} DedupFirstSeenOrder(ks: seq<string>)
    ensures forall i, j :: 0 <= i < j < |Dedup(ks)| ==>
      Dedup(ks)[i] in ks && Dedup(ks)[j] in ks && FirstIndex(ks, Dedup(ks)[i]) < FirstIndex(ks, Dedup(ks)[j])
  {
    DedupMembers(ks);
    if ks != [] {
      var n := |ks| - 1;
      var init, k := ks[..n], ks[n];
      var u0 := Dedup(init);
      DedupFirstSeenOrder(init);
      DedupMembers(init);
      assert ks == init + [k];
      forall x | x in init ensures FirstIndex(ks, x) == FirstIndex(init, x) < n {
        FirstIndexOfPrefix(init, [k], x);
      }
      if k !in u0 {
        assert FirstIndex(ks, k) == n;
        var u := u0 + [k];
        forall i, j | 0 <= i < j < |u|
          ensures u[i] in ks && u[j] in ks && FirstIndex(ks, u[i]) < FirstIndex(ks, u[j])
        {
          assert u[i] == u0[i] && u0[i] in init;
          assert FirstIndex(ks, u0[i]) == FirstIndex(init, u0[i]) < n;
          if j < |u0| {
            assert u[j] == u0[j] && u0[j] in init;
            assert FirstIndex(ks, u0[j]) == FirstIndex(init, u0[j]);
            assert FirstIndex(init, u0[i]) < FirstIndex(init, u0[j]);
          } else {
            assert u[j] == k;
          }
        }
      }
    }
  }

  /** Extending the scanned prefix by one word adds that word unless it was already seen. */
  lemma DedupStep(ks: seq<string>, i: int)
    requires 0 <= i < |ks|
    ensures Dedup(ks[..i + 1]) == if ks[i] in Dedup(ks[..i]) then Dedup(ks[..i]) else Dedup(ks[..i]) + [ks[i]]
  {
    assert ks[..i + 1][..i] == ks[..i];
  }

  /** A list that is already free of repeats is left as it is. */
  lemma {:induction false} DedupOfDistinct(ks: seq<string>)
    requires NoDuplicates(ks)
    ensures Dedup(ks) == ks
  {
    if ks != [] {
      var init := ks[..|ks| - 1];
      DedupOfDistinct(init);
      assert ks[|ks| - 1] !in init;
    }
  }

  // ---------------------------------------------------------------- extract_keywords

  /**
   * What `extract_keywords(description, max_keywords)` returns: nothing for a
   * missing (NaN) or empty description, otherwise the first `max_keywords`
   * (Python slice, so a negative bound counts from the end) of the
   * de-duplicated, filtered tokens.
   */
  function KeywordsOf(description: Option<string>, maxKeywords: int): seq<string>
  {
    if description.None? || description.value == [] then []
    else PyPrefix(Dedup(FilterKeywords(Tokens(description.value))), maxKeywords)
  }

  /** `extract_keywords(description, max_keywords)`, with its `seen`-set loop. */
  method ExtractKeywords(description: Option<string>, maxKeywords: int) returns (keywords: seq<string>)
    ensures keywords == KeywordsOf(description, maxKeywords)
  {
    if description.None? || description.value == [] {
      return [];
    }
    var text := Lower(description.value);
    text := Sanitize(text);
    var words := Words(text);
    var filtered := FilterKeywords(words);
    var unique := UniqueInOrder(filtered);
    keywords := PyPrefix(unique, maxKeywords);
  }

  /** The `seen`-set loop of `extract_keywords`: keeps each word at its first occurrence. */
  method UniqueInOrder(filtered: seq<string>) returns (unique: seq<string>)
    ensures unique == Dedup(filtered)
  {
    var seen: set<string> := {};
    unique := [];
    for i := 0 to |filtered|
      invariant unique == Dedup(filtered[..i])
      invariant forall w :: w in seen <==> w in unique
    {
      var keyword := filtered[i];
      DedupStep(filtered, i);
      if keyword !in seen {
        seen := seen + {keyword};
        unique := unique + [keyword];
      }
    }
    assert filtered[..|filtered|] == filtered;
  }

  /**
   * The extracted keywords are at most `maxKeywords` many, free of repeats,
   * each a token of the text of at least 3 characters drawn from `[a-z0-9]`
   * and not a stopword. Their order is `KeywordsFirstSeenOrder`; that none
   * is missing before the cut is `KeywordsComplete`.
   */
  lemma KeywordsProperties(description: Option<string>, maxKeywords: int)
    ensures var r := KeywordsOf(description, maxKeywords);
      (description.None? || description.value == [] ==> r == []) &&
      (maxKeywords >= 0 ==> |r| <= maxKeywords) &&
      NoDuplicates(r) &&
      forall i :: 0 <= i < |r| ==>
        r[i] in Tokens(description.value) && |r[i]| >= 3 && !IsStopword(r[i]) &&
        forall k :: 0 <= k < |r[i]| ==> IsLowerAlnum(r[i][k])
  {
    var r := KeywordsOf(description, maxKeywords);
    if description.Some? && description.value != [] {
      var ts := Tokens(description.value);
      var u := Dedup(FilterKeywords(ts));
      DedupMembers(FilterKeywords(ts));
      TokenChars(description.value);
      assert r == u[..|r|];
      forall i | 0 <= i < |r|
        ensures r[i] in ts && |r[i]| >= 3 && !IsStopword(r[i])
        ensures forall k :: 0 <= k < |r[i]| ==> IsLowerAlnum(r[i][k])
      {
        assert r[i] == u[i];
        FilteredWord(ts, u[i]);
        var j :| 0 <= j < |ts| && ts[j] == r[i];
      }
    }
  }

  /**
   * Nothing qualifying is lost while the bound allows every distinct keyword:
   * each token of at least 3 characters that is not a stopword is extracted.
   */
  lemma KeywordsComplete(description: string, maxKeywords: int)
    requires maxKeywords >= |Dedup(FilterKeywords(Tokens(description)))|
    ensures forall w :: w in Tokens(description) && IsKeyword(w) ==> w in KeywordsOf(Some(description), maxKeywords)
  {
    var ts := Tokens(description);
    var u := Dedup(FilterKeywords(ts));
    if description != [] {
      assert KeywordsOf(Some(description), maxKeywords) == u;
      FilterKeywordsMembers(ts);
      DedupMembers(FilterKeywords(ts));
    }
  }

  /** A lowercase alphanumeric word followed by a space is the first token of the text. */
  lemma TokensOfLeadingWord(w: string, x: string)
    requires w != [] && forall k :: 0 <= k < |w| ==> IsLowerAlnum(w[k])
    ensures Tokens(w + " " + x) == [w] + Tokens(x)
  {
    var y := Sanitize(Lower(x));
    SanitizedLeadingWord(w, x);
    forall k | 0 <= k < |w| ensures !IsSpace(w[k]) {
      assert IsLowerAlnum(w[k]);
    }
    WordsOfWord(w);
    WordsSplitAtSpace(w, ' ', y);
  }

  /** Lowercasing and sanitising leave a leading lowercase word and the space after it alone. */
  lemma SanitizedLeadingWord(w: string, x: string)
    requires forall k :: 0 <= k < |w| ==> IsLowerAlnum(w[k])
    ensures Sanitize(Lower(w + " " + x)) == w + [' '] + Sanitize(Lower(x))
  {
    var lx := Lower(x);
    LoweredLeadingWord(w, x);
    SanitizeLeadingWord(w, lx);
  }

  /** Lowercasing leaves a leading lowercase word and the space after it alone. */
  lemma LoweredLeadingWord(w: string, x: string)
    requires forall k :: 0 <= k < |w| ==> IsLowerAlnum(w[k])
    ensures Lower(w + " " + x) == w + [' '] + Lower(x)
  {
    LowerAppend(w + " ", x);
    LowerAppend(w, " ");
    forall k | 0 <= k < |w| ensures !IsUpper(w[k]) {
      assert IsLowerAlnum(w[k]);
    }
    LowerOfLowercase(w);
    assert Lower(" ") == [' '];
  }

  /** Sanitising leaves a leading `[a-z0-9]` word and the space after it alone. */
  lemma SanitizeLeadingWord(w: string, y: string)
    requires forall k :: 0 <= k < |w| ==> IsLowerAlnum(w[k])
    ensures Sanitize(w + [' '] + y) == w + [' '] + Sanitize(y)
  {
    SanitizeAppend(w + [' '], y);
    SanitizeAppend(w, [' ']);
    SanitizeOfClean(w);
    assert Sanitize([' ']) == [' '];
  }

  /** `lower()` works character by character, so it distributes over concatenation. */
  lemma {:induction false} LowerAppend(a: string, b: string)
    ensures Lower(a + b) == Lower(a) + Lower(b)
  {
    if a != [] {
      var h := [LowerChar(a[0])];
      assert (a + b)[1..] == a[1..] + b;
      calc {
        Lower(a + b);
        h + Lower(a[1..] + b);
        { LowerAppend(a[1..], b); }
        h + (Lower(a[1..]) + Lower(b));
        { AppendAssoc(h, Lower(a[1..]), Lower(b)); }
        Lower(a) + Lower(b);
      }
    } else {
      assert a + b == b;
    }
  }

  /** The substitution works character by character, so it distributes over concatenation. */
  lemma {:induction false} SanitizeAppend(a: string, b: string)
    ensures Sanitize(a + b) == Sanitize(a) + Sanitize(b)
  {
    if a != [] {
      var h := [SanitizeChar(a[0])];
      assert (a + b)[1..] == a[1..] + b;
      calc {
        Sanitize(a + b);
        h + Sanitize(a[1..] + b);
        { SanitizeAppend(a[1..], b); }
        h + (Sanitize(a[1..]) + Sanitize(b));
        { AppendAssoc(h, Sanitize(a[1..]), Sanitize(b)); }
        Sanitize(a) + Sanitize(b);
      }
    } else {
      assert a + b == b;
    }
  }

  /** A keyword at the head of the words stays at the head after filtering. */
  lemma FilterKeepsHead(w: string, ws: seq<string>)
    requires IsKeyword(w)
    ensures FilterKeywords([w] + ws) == [w] + FilterKeywords(ws)
  {
    assert ([w] + ws)[0] == w && ([w] + ws)[1..] == ws;
  }

  /** De-duplication keeps the first word first. */
  lemma {:induction false} DedupHead(ks: seq<string>)
    requires ks != []
    ensures Dedup(ks) != [] && Dedup(ks)[0] == ks[0]
  {
    if |ks| > 1 {
      var init := ks[..|ks| - 1];
      DedupHead(init);
      assert init[0] == ks[0];
    }
  }

  /** The first keyword of a text that starts with a keyword and a space is that keyword. */
  lemma KeywordsOfLeadingWord(w: string, x: string, maxKeywords: int)
    requires w != [] && IsKeyword(w) && forall k :: 0 <= k < |w| ==> IsLowerAlnum(w[k])
    requires maxKeywords >= 1
    ensures var r := KeywordsOf(Some(w + " " + x), maxKeywords); r != [] && r[0] == w
  {
    var ts := Tokens(x);
    TokensOfLeadingWord(w, x);
    FilterKeepsHead(w, ts);
    DedupHead([w] + FilterKeywords(ts));
  }

  /** The keywords appear in the order of their first occurrence among the tokens of the text. */
  lemma KeywordsFirstSeenOrder(description: string, maxKeywords: int)
    ensures forall i, j :: 0 <= i < j < |KeywordsOf(Some(description), maxKeywords)| ==>
      var r, ts := KeywordsOf(Some(description), maxKeywords), Tokens(description);
      r[i] in ts && r[j] in ts && FirstIndex(ts, r[i]) < FirstIndex(ts, r[j])
  {
    if description != [] {
      var r, ts := KeywordsOf(Some(description), maxKeywords), Tokens(description);
      var f := FilterKeywords(ts);
      var u := Dedup(f);
      assert r == u[..|r|];
      DedupFirstSeenOrder(f);
      DedupMembers(f);
      forall i, j | 0 <= i < j < |r|
        ensures r[i] in ts && r[j] in ts && FirstIndex(ts, r[i]) < FirstIndex(ts, r[j])
      {
        assert r[i] == u[i] && r[j] == u[j];
        FilterPreservesFirstOrder(ts, u[i], u[j]);
      }
    } else {
      assert KeywordsOf(Some(description), maxKeywords) == [];
    }
  }

  /** The filter keeps the relative order of first occurrences. */
  lemma {:induction false} FilterPreservesFirstOrder(ws: seq<string>, x: string, y: string)
    requires x in FilterKeywords(ws) && y in FilterKeywords(ws)
    requires FirstIndex(FilterKeywords(ws), x) < FirstIndex(FilterKeywords(ws), y)
    ensures x in ws && y in ws && FirstIndex(ws, x) < FirstIndex(ws, y)
  {
    FilterKeywordsMembers(ws);
    FilterKeywordsMembers(ws[1..]);
    var f, g := FilterKeywords(ws), FilterKeywords(ws[1..]);
    if ws[0] != x {
      assert ws[0] != y;
      if IsKeyword(ws[0]) {
        assert f == [ws[0]] + g;
        assert f[0] != x && f[0] != y && f[1..] == g;
      } else {
        assert f == g;
      }
      FilterPreservesFirstOrder(ws[1..], x, y);
    }
  }

  /** Numeric tokens of at least 3 digits, such as `123`, are kept: no stopword is numeric. */
  lemma NumericTokensKept(description: string, w: string)
    requires description != [] && w in Tokens(description) && |w| >= 3 && IsDigits(w)
    ensures w in Dedup(FilterKeywords(Tokens(description)))
  {
    DigitWordNotStopword(w);
    FilterKeywordsMembers(Tokens(description));
    DedupMembers(FilterKeywords(Tokens(description)));
  }

  /**
   * Joining keywords with spaces and extracting again gives them back, as
   * long as they are distinct valid keywords and the bound admits them all.
   */
  lemma KeywordsRoundTrip(ks: seq<string>, maxKeywords: int)
    requires NoDuplicates(ks) && |ks| <= maxKeywords
    requires forall i :: 0 <= i < |ks| ==> IsKeyword(ks[i])
    requires forall i, k :: 0 <= i < |ks| && 0 <= k < |ks[i]| ==> IsLowerAlnum(ks[i][k])
    ensures KeywordsOf(Some(JoinWith(ks, " ")), maxKeywords) == ks
  {
    if ks != [] {
      JoinLength(ks);
      TokensOfJoin(ks);
      FilterOfKeywords(ks);
      DedupOfDistinct(ks);
    }
  }

  /** Lowercase alphanumeric words joined by single spaces tokenize back into those words. */
  lemma TokensOfJoin(ks: seq<string>)
    requires forall i :: 0 <= i < |ks| ==> ks[i] != []
    requires forall i, k :: 0 <= i < |ks| && 0 <= k < |ks[i]| ==> IsLowerAlnum(ks[i][k])
    ensures Tokens(JoinWith(ks, " ")) == ks
  {
    var text := JoinWith(ks, " ");
    JoinChars(ks);
    LowerOfLowercase(text);
    SanitizeOfClean(text);
    assert IsWordList(ks);
    WordsOfJoin(ks);
  }

  lemma {:induction false} JoinLength(ks: seq<string>)
    requires ks != []
    ensures |JoinWith(ks, " ")| >= |ks[0]|
  {
  }

  /** Text made of `[a-z0-9]` words and single spaces holds nothing else. */
  lemma {:induction false} JoinChars(ks: seq<string>)
    requires forall i, k :: 0 <= i < |ks| && 0 <= k < |ks[i]| ==> IsLowerAlnum(ks[i][k])
    ensures forall k :: 0 <= k < |JoinWith(ks, " ")| ==> IsLowerAlnum(JoinWith(ks, " ")[k]) || JoinWith(ks, " ")[k] == ' '
  {
    if |ks| > 1 {
      JoinChars(ks[1..]);
      var t := JoinWith(ks[1..], " ");
      var s := ks[0] + " " + t;
      forall k | 0 <= k < |s| ensures IsLowerAlnum(s[k]) || s[k] == ' ' {
        if k < |ks[0]| {
          assert s[k] == ks[0][k];
        } else if k > |ks[0]| {
          assert s[k] == t[k - |ks[0]| - 1];
        }
      }
    }
  }

  lemma {:induction false} FilterOfKeywords(ks: seq<string>)
    requires forall i :: 0 <= i < |ks| ==> IsKeyword(ks[i])
    ensures FilterKeywords(ks) == ks
  {
    if ks != [] {
      FilterOfKeywords(ks[1..]);
      HeadTail(ks);
    }
  }

  // ---------------------------------------------------------------- extract_common_products

  /**
   * `extract_common_products(description, product_name)`: the lowercased,
   * stripped product name when there is a non-empty one, and nothing for a
   * missing (NaN) or empty name. The description plays no part.
   */
  function ExtractCommonProducts(description: string, productName: Option<string>): (r: seq<string>)
    ensures productName.Some? && productName.value != [] ==> r == [Lower(Strip(productName.value))]
    ensures productName.None? || productName.value == [] ==> r == []
  {
    if productName.Some? && productName.value != [] then
      LowerStripCommute(productName.value);
      [Strip(Lower(productName.value))]
    else []
  }
}
