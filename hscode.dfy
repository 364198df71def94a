/**
 * HS (Harmonized System) code handling of the scraper: the format check
 * `validate_hs_code`, the split into chapter / heading / subheading
 * `parse_hs_code`, and the one-level-up lookup `determine_parent_code`.
 */
module HsCode {
  import opened Optional
  import opened PyStr
  import opened Sequences

  // ================================================================ validate_hs_code

  /** `(\.\d{2})?` written `groups` times, followed by the end of the text. */
  predicate OptionalGroups(s: string, groups: nat)
  {
    s == [] || (groups > 0 && |s| >= 3 && s[0] == '.' && IsDigit(s[1]) && IsDigit(s[2]) && OptionalGroups(s[3..], groups - 1))
  }

  /** `re.match(r'^\d{4}(\.\d{2})?(\.\d{2})?(\.\d{2})?$', s)` */
  predicate MatchesHsPattern(s: string)
  {
    |s| >= 4 && IsDigits(s[..4]) && OptionalGroups(s[4..], 3)
  }

  /** What the validator matches: outer whitespace stripped, then every space removed. */
  function Cleaned(code: string): string
  {
    RemoveChar(Strip(code), ' ')
  }

  /** `validate_hs_code(code)` */
  function ValidateHsCode(code: string): bool
  {
    if code == [] then false else MatchesHsPattern(Cleaned(code))
  }

  /** A digit string of one of the four HS code lengths. */
  predicate IsCodeDigits(d: string)
  {
    IsDigits(d) && (|d| == 4 || |d| == 6 || |d| == 8 || |d| == 10)
  }

  /** The lengths a run of zero to three `DD` pairs can have. */
  predicate IsPairsLength(n: int)
  {
    n == 0 || n == 2 || n == 4 || n == 6
  }

  /** `.DD` for each pair of a digit tail of even length. */
  function DotPairs(d: string): (r: string)
    ensures |d| >= 2 ==> |r| >= 3
    ensures IsPairsLength(|d|) && |d| >= 2 ==> r[|r| - 1] == d[|d| - 1]
  {
    if |d| < 2 then [] else ['.', d[0], d[1]] + DotPairs(d[2..])
  }

  /** Canonical spelling of a code given by its digits: `DDDD`, `DDDD.DD`, `DDDD.DD.DD` or `DDDD.DD.DD.DD`. */
  function Canonical(d: string): (c: string)
    requires |d| >= 4
    ensures |c| >= 4 && c[..4] == d[..4]
    ensures IsCodeDigits(d) && |d| >= 6 ==> c[|c| - 1] == d[|d| - 1]
  {
    d[..4] + DotPairs(d[4..])
  }

  lemma {:induction false} DotPairsSnoc(d: string, a: char, b: char)
    requires IsPairsLength(|d|)
    ensures DotPairs(d + [a, b]) == DotPairs(d) + ['.', a, b]
  {
    var e := d + [a, b];
    if d == [] {
      assert e == [a, b] && e[2..] == [];
    } else {
      var tail := d[2..];
      assert e[0] == d[0] && e[1] == d[1] && e[2..] == tail + [a, b];
      DotPairsSnoc(tail, a, b);
      var h := ['.', d[0], d[1]];
      assert (h + DotPairs(tail)) + ['.', a, b] == h + (DotPairs(tail) + ['.', a, b]);
    }
  }

  /** Dropping the last digit pair drops the last `.DD` group. */
  lemma CanonicalSnoc(d: string)
    requires IsCodeDigits(d) && |d| >= 6
    ensures Canonical(d) == Canonical(d[..|d| - 2]) + ['.', d[|d| - 2], d[|d| - 1]]
  {
    var n := |d|;
    var e := d[..n - 2];
    assert d[4..] == e[4..] + [d[n - 2], d[n - 1]];
    DotPairsSnoc(e[4..], d[n - 2], d[n - 1]);
    assert e[..4] == d[..4];
  }

  lemma {:induction false} DotPairsMatch(d: string, groups: nat)
    requires IsDigits(d) && IsPairsLength(|d|) && |d| <= 2 * groups
    ensures OptionalGroups(DotPairs(d), groups)
  {
    if d != [] {
      DotPairsMatch(d[2..], groups - 1);
      var r := DotPairs(d);
      assert r[3..] == DotPairs(d[2..]);
    }
  }

  lemma {:induction false} DotPairsDigits(d: string)
    requires IsDigits(d) && IsPairsLength(|d|)
    ensures RemoveChar(DotPairs(d), '.') == d
  {
    if d != [] {
      var t := DotPairs(d[2..]);
      DotPairsDigits(d[2..]);
      assert DotPairs(d) == ['.'] + ([d[0]] + ([d[1]] + t));
      RemoveCharCons('.', [d[0]] + ([d[1]] + t), '.');
      RemoveCharCons(d[0], [d[1]] + t, '.');
      RemoveCharCons(d[1], t, '.');
      SplitPair(d);
    }
  }

  lemma {:induction false} GroupsAreDotPairs(t: string, groups: nat)
    requires OptionalGroups(t, groups) && groups <= 3
    ensures var d := RemoveChar(t, '.');
      IsDigits(d) && IsPairsLength(|d|) && |d| <= 2 * groups && t == DotPairs(d)
  {
    if t != [] {
      var tail := t[3..];
      GroupsAreDotPairs(tail, groups - 1);
      var rest := RemoveChar(tail, '.');
      SplitThree(t);
      RemoveCharAppend(['.', t[1], t[2]], tail, '.');
      RemoveDotPair(t[1], t[2]);
      var d := [t[1], t[2]] + rest;
      assert RemoveChar(t, '.') == d;
      PairParts(t[1], t[2], rest);
      forall k | 0 <= k < |d| ensures IsDigit(d[k]) {
        if k >= 2 {
          assert d[k] == rest[k - 2];
        }
      }
    }
  }

  /** Every digit string of an HS code length, dotted canonically, passes the pattern and gives its digits back. */
  lemma CanonicalMatches(d: string)
    requires IsCodeDigits(d)
    ensures MatchesHsPattern(Canonical(d))
    ensures RemoveChar(Canonical(d), '.') == d
  {
    var c := Canonical(d);
    DotPairsMatch(d[4..], 3);
    DotPairsDigits(d[4..]);
    assert c[4..] == DotPairs(d[4..]);
    RemoveCharAppend(d[..4], DotPairs(d[4..]), '.');
    assert RemoveChar(d[..4], '.') == d[..4];
    assert d == d[..4] + d[4..];
  }

  /** Every text the pattern accepts is the canonical dotting of its own 4, 6, 8 or 10 digits. */
  lemma PatternIsCanonical(s: string)
    requires MatchesHsPattern(s)
    ensures IsCodeDigits(RemoveChar(s, '.'))
    ensures s == Canonical(RemoveChar(s, '.'))
  {
    GroupsAreDotPairs(s[4..], 3);
    assert s == s[..4] + s[4..];
    RemoveCharAppend(s[..4], s[4..], '.');
    assert RemoveChar(s[..4], '.') == s[..4];
    var d := RemoveChar(s, '.');
    assert d[..4] == s[..4] && d[4..] == RemoveChar(s[4..], '.');
  }

  /**
   * The validator accepts exactly the non-empty codes whose stripped,
   * space-free form is 4 digits followed by zero to three `.DD` groups,
   * that is, 4, 6, 8 or 10 digits with dots right after digits 4, 6 and 8.
   */
  lemma ValidIffCanonical(code: string)
    ensures ValidateHsCode(code) <==>
      code != [] && IsCodeDigits(RemoveChar(Cleaned(code), '.')) &&
      Cleaned(code) == Canonical(RemoveChar(Cleaned(code), '.'))
  {
    var c := Cleaned(code);
    if MatchesHsPattern(c) {
      PatternIsCanonical(c);
    }
    if IsCodeDigits(RemoveChar(c, '.')) && c == Canonical(RemoveChar(c, '.')) {
      CanonicalMatches(RemoveChar(c, '.'));
    }
  }

  /** An accepted code carries 4, 6, 8 or 10 digits and nothing else besides dots. */
  lemma AcceptedDigitCount(code: string)
    requires ValidateHsCode(code)
    ensures var d := RemoveChar(Cleaned(code), '.');
      IsDigits(d) && (|d| == 4 || |d| == 6 || |d| == 8 || |d| == 10)
  {
    ValidIffCanonical(code);
  }

  lemma {:induction false} DotPairsChars(d: string)
    requires IsDigits(d)
    ensures forall k :: 0 <= k < |DotPairs(d)| ==> DotPairs(d)[k] == '.' || IsDigit(DotPairs(d)[k])
  {
    if |d| >= 2 {
      DotPairsChars(d[2..]);
      var r, head := DotPairs(d), "." + d[..2];
      assert r == head + DotPairs(d[2..]);
      forall k | 0 <= k < |r| ensures r[k] == '.' || IsDigit(r[k]) {
        if k >= 3 {
          assert r[k] == DotPairs(d[2..])[k - 3];
        }
      }
    }
  }

  /** Canonical codes hold only digits and dots. */
  lemma CanonicalChars(d: string)
    requires IsCodeDigits(d)
    ensures forall k :: 0 <= k < |Canonical(d)| ==> Canonical(d)[k] == '.' || IsDigit(Canonical(d)[k])
    ensures ' ' !in Canonical(d)
  {
    var c := Canonical(d);
    DotPairsChars(d[4..]);
    forall k | 0 <= k < |c| ensures c[k] == '.' || IsDigit(c[k]) {
      if k >= 4 {
        assert c[k] == DotPairs(d[4..])[k - 4];
      } else {
        assert c[k] == c[..4][k] == d[k];
      }
    }
  }

  /** A 4-digit heading is its own canonical spelling. */
  lemma CanonicalOfHeading(d: string)
    requires |d| == 4
    ensures Canonical(d) == d
  {
    assert d[..4] == d && d[4..] == [];
  }

  /** Canonical codes hold only digits and dots, with digits at both ends, so they validate as they are. */
  lemma CanonicalIsValid(d: string)
    requires IsCodeDigits(d)
    ensures ValidateHsCode(Canonical(d))
    ensures Strip(Canonical(d)) == Canonical(d)
    ensures Cleaned(Canonical(d)) == Canonical(d)
  {
    var c := Canonical(d);
    CanonicalChars(d);
    assert !IsSpace(c[0]) && !IsSpace(c[|c| - 1]);
    StripUnpadded(c);
    CanonicalMatches(d);
  }

  lemma {:induction false} DotPairsShape(d: string)
    requires IsDigits(d) && IsPairsLength(|d|)
    ensures 2 * |DotPairs(d)| == 3 * |d|
    ensures forall j :: 0 <= j < |DotPairs(d)| ==>
      (DotPairs(d)[j] == '.' <==> j == 0 || j == 3 || j == 6) &&
      (DotPairs(d)[j] != '.' ==> IsDigit(DotPairs(d)[j]))
  {
    if d != [] {
      var rest := DotPairs(d[2..]);
      DotPairsShape(d[2..]);
      var r := DotPairs(d);
      assert r == "." + d[..2] + rest;
      forall j | 3 <= j < |r|
        ensures (r[j] == '.' <==> j == 3 || j == 6) && (r[j] != '.' ==> IsDigit(r[j]))
      {
        assert r[j] == rest[j - 3];
      }
    }
  }

  /** The canonical spelling has its dots exactly at positions 4, 7 and 10, and digits everywhere else. */
  lemma CanonicalShape(d: string)
    requires IsCodeDigits(d)
    ensures var c := Canonical(d);
      (|c| == 4 || |c| == 7 || |c| == 10 || |c| == 13) && (|c| == 4 || c[4] == '.') &&
      forall k :: 0 <= k < |c| ==>
        (c[k] == '.' <==> k == 4 || k == 7 || k == 10) && (c[k] != '.' ==> IsDigit(c[k]))
  {
    var c := Canonical(d);
    DotPairsShape(d[4..]);
    forall k | 0 <= k < |c|
      ensures (c[k] == '.' <==> k == 4 || k == 7 || k == 10) && (c[k] != '.' ==> IsDigit(c[k]))
    {
      if k < 4 {
        assert c[k] == c[..4][k] == d[k];
      } else {
        assert c[k] == DotPairs(d[4..])[k - 4];
      }
    }
  }

  /** In an accepted code, once stripped and freed of spaces, dots stand exactly after digits 4, 6 and 8, and everything else is a digit. */
  lemma AcceptedShape(code: string)
    requires ValidateHsCode(code)
    ensures var c := Cleaned(code);
      (|c| == 4 || |c| == 7 || |c| == 10 || |c| == 13) && (|c| == 4 || c[4] == '.') &&
      forall k :: 0 <= k < |c| ==>
        (c[k] == '.' <==> k == 4 || k == 7 || k == 10) && (c[k] != '.' ==> IsDigit(c[k]))
  {
    var c := Cleaned(code);
    PatternIsCanonical(c);
    CanonicalShape(RemoveChar(c, '.'));
  }

  /** Without dots only a bare 4-digit heading is accepted; longer undotted codes such as `87083010` are refused. */
  lemma UndottedAcceptedOnlyAsHeading(code: string)
    requires code != [] && '.' !in Cleaned(code)
    ensures ValidateHsCode(code) <==> IsDigits(Cleaned(code)) && |Cleaned(code)| == 4
  {
    var c := Cleaned(code);
    if ValidateHsCode(code) {
      AcceptedShape(code);
    }
    if IsDigits(c) && |c| == 4 {
      assert c[4..] == [];
      assert c[..4] == c;
    }
  }

  // ================================================================ parse_hs_code

  /** Chapter (2 digits), heading (4 digits) and subheading (`DDDD.DD`, or the heading) of a code. */
  datatype CodeParts = CodeParts(chapter: string, heading: string, subheading: string)

  /** `code.replace('.', '').replace(' ', '')` */
  function ParseDigits(code: string): string
  {
    RemoveChar(RemoveChar(code, '.'), ' ')
  }

  /**
   * `parse_hs_code(code)`. Whatever the input, the chapter is a prefix of the
   * heading, the heading a prefix of the subheading's digits, and those a
   * prefix of the code's digits.
   */
  function ParseHsCode(code: string): (p: CodeParts)
    ensures p.chapter <= p.heading <= RemoveChar(p.subheading, '.') <= ParseDigits(code)
  {
    var clean := ParseDigits(code);
    RemoveCharKeepsOut(RemoveChar(code, '.'), '.', ' ');
    var chapter := if |clean| >= 2 then clean[..2] else clean;
    var heading := if |clean| >= 4 then clean[..4] else clean;
    var sub := if |clean| >= 6 then clean[..6] else heading;
    var subheading := if |sub| >= 6 then sub[..4] + ['.', sub[4], sub[5]] else sub;
    SubheadingDigits(sub);
    CodeParts(chapter, heading, subheading)
  }

  /** Removing the dot from one `.DD` group leaves its two digits. */
  lemma RemoveDotPair(x: char, y: char)
    requires x != '.' && y != '.'
    ensures RemoveChar(['.', x, y], '.') == [x, y]
  {
    assert ['.', x, y] == ['.'] + ([x] + ([y] + []));
    RemoveCharCons('.', [x] + ([y] + []), '.');
    RemoveCharCons(x, [y] + [], '.');
    RemoveCharCons(y, [], '.');
  }

  /** Removing the dot that `parse_hs_code` puts into a 6-digit subheading gives the digits back. */
  lemma SubheadingDigits(sub: string)
    requires '.' !in sub
    ensures |sub| >= 6 ==> RemoveChar(sub[..4] + ['.', sub[4], sub[5]], '.') == sub[..6]
    ensures |sub| < 6 ==> RemoveChar(sub, '.') == sub
  {
    if |sub| >= 6 {
      var a, x, y := sub[..4], sub[4], sub[5];
      NotInPrefix(sub, 4, '.');
      assert x in sub && y in sub;
      RemoveCharAppend(a, ['.', x, y], '.');
      RemoveDotPair(x, y);
      SplitSix(sub);
    }
  }

  /** For a stripped code, removing dots and then spaces gives the validator's cleaned text without its dots. */
  lemma ParseDigitsOfStripped(code: string)
    requires Strip(code) == code
    ensures ParseDigits(code) == RemoveChar(Cleaned(code), '.')
  {
    RemoveCharCommute(code, '.', ' ');
  }

  /**
   * For an accepted, already stripped code with digits `d`: the chapter is
   * `d[..2]`, the heading `d[..4]`, and the subheading the heading for a
   * 4-digit code, otherwise the heading, a dot and digits 5 and 6.
   */
  lemma ParseOfValid(code: string)
    requires ValidateHsCode(code) && Strip(code) == code
    ensures var d, p := RemoveChar(Cleaned(code), '.'), ParseHsCode(code);
      IsCodeDigits(d) &&
      p.chapter == d[..2] && p.heading == d[..4] && p.chapter == p.heading[..2] &&
      p.subheading == if |d| == 4 then p.heading else p.heading + ['.', d[4], d[5]]
  {
    AcceptedDigitCount(code);
    ParseDigitsOfStripped(code);
    PrefixFacts(RemoveChar(Cleaned(code), '.'));
  }

  // ================================================================ determine_parent_code

  /** `determine_parent_code(code)` */
  function DetermineParentCode(code: string): Option<string>
  {
    var clean := RemoveChar(code, ' ');
    if '.' in clean && |SplitOn(clean, '.')| > 1 then
      var parts := SplitOn(clean, '.');
      Some(JoinWith(parts[..|parts| - 1], "."))
    else
      var digits := RemoveChar(clean, '.');
      if |digits| <= 4 then None else Some(digits[..4])
  }

  /** A code with a dot loses its last dot-separated segment: the parent is everything before the last dot. */
  lemma ParentDropsLastSegment(code: string)
    requires '.' in RemoveChar(code, ' ')
    ensures var clean, parent := RemoveChar(code, ' '), DetermineParentCode(code);
      parent.Some? && |parent.value| < |clean| &&
      clean[..|parent.value|] == parent.value && clean[|parent.value|] == '.' &&
      '.' !in clean[|parent.value| + 1..]
  {
    var clean := RemoveChar(code, ' ');
    var i := LastIndexOf(clean, '.');
    var parts := SplitOn(clean, '.');
    assert parts[..|parts| - 1] == SplitOn(clean[..i], '.');
    JoinSplitRoundTrip(clean[..i], '.');
  }

  /** The parent lookup removes spaces first, so removing them beforehand changes nothing. */
  lemma ParentIgnoresSpaces(code: string)
    ensures DetermineParentCode(code) == DetermineParentCode(RemoveChar(code, ' '))
  {
    var clean := RemoveChar(code, ' ');
    assert RemoveChar(clean, ' ') == clean;
  }

  /** A space-free code `p.tail` whose last segment `tail` has no dot has `p` as parent. */
  lemma ParentOfDotted(p: string, tail: string)
    requires ' ' !in p + ['.'] + tail && '.' !in tail
    ensures DetermineParentCode(p + ['.'] + tail) == Some(p)
  {
    var code := p + ['.'] + tail;
    assert code[|p|] == '.';
    SplitOnDropLast(p, '.', tail);
  }

  /** A code without a dot has no parent up to 4 characters, and otherwise its first 4 characters as parent. */
  lemma ParentOfUndotted(code: string)
    requires '.' !in RemoveChar(code, ' ')
    ensures var clean := RemoveChar(code, ' ');
      DetermineParentCode(code) == if |clean| <= 4 then None else Some(clean[..4])
  {
  }

  /** `len(code.replace(' ', '').split('.'))`: how many dot-separated segments a code has. */
  function Segments(code: string): nat
  {
    |SplitOn(RemoveChar(code, ' '), '.')|
  }

  /** A canonical code longer than a heading is the shorter canonical code, a dot, and the last two digits. */
  lemma CanonicalAsSnoc(d: string)
    requires IsCodeDigits(d) && |d| >= 6
    ensures var e, tail := d[..|d| - 2], [d[|d| - 2], d[|d| - 1]];
      IsCodeDigits(e) && '.' !in tail && Canonical(d) == Canonical(e) + ['.'] + tail
  {
    CanonicalSnoc(d);
    var e, tail := d[..|d| - 2], [d[|d| - 2], d[|d| - 1]];
    assert IsDigit(d[|d| - 2]) && IsDigit(d[|d| - 1]);
    assert Canonical(e) + ['.', d[|d| - 2], d[|d| - 1]] == Canonical(e) + ['.'] + tail;
  }

  lemma {:induction false} SegmentsOfCanonical(d: string)
    requires IsCodeDigits(d)
    ensures 2 * |SplitOn(Canonical(d), '.')| == |d| - 2
    decreases |d|
  {
    if |d| == 4 {
      assert Canonical(d) == d[..4] + DotPairs(d[4..]);
      assert d[..4] == d && d[4..] == [];
      assert '.' !in d;
    } else {
      var e, tail := d[..|d| - 2], [d[|d| - 2], d[|d| - 1]];
      CanonicalAsSnoc(d);
      SegmentsOfCanonical(e);
      SplitOnSnoc(Canonical(e), '.', tail);
    }
  }

  /** One level up from a canonical code is the canonical code of its digits less the last pair. */
  lemma ParentOfCanonical(d: string)
    requires IsCodeDigits(d)
    ensures DetermineParentCode(Canonical(d)) == if |d| == 4 then None else Some(Canonical(d[..|d| - 2]))
  {
    var c := Canonical(d);
    CanonicalChars(d);
    if |d| == 4 {
      CanonicalOfHeading(d);
      assert '.' !in d;
    } else {
      var e, tail := d[..|d| - 2], [d[|d| - 2], d[|d| - 1]];
      CanonicalAsSnoc(d);
      ParentOfDotted(Canonical(e), tail);
    }
  }

  /**
   * For an accepted, stripped code the parent is either `None` (exactly when
   * the code has one segment) or again an accepted, stripped code with one
   * segment fewer; a code has at most 4 segments.
   */
  lemma ParentOfValid(code: string)
    requires ValidateHsCode(code) && Strip(code) == code
    ensures 1 <= Segments(code) <= 4
    ensures DetermineParentCode(code).None? <==> Segments(code) == 1
    ensures DetermineParentCode(code).Some? ==>
      var p := DetermineParentCode(code).value;
      ValidateHsCode(p) && Strip(p) == p && Segments(p) == Segments(code) - 1
  {
    var clean := RemoveChar(code, ' ');
    var d := RemoveChar(clean, '.');
    assert Cleaned(code) == clean;
    PatternIsCanonical(clean);
    ParentIgnoresSpaces(code);
    ParentOfCanonical(d);
    SegmentsOfCanonical(d);
    assert Segments(code) == |SplitOn(Canonical(d), '.')|;
    if |d| > 4 {
      var e := d[..|d| - 2];
      var p := Canonical(e);
      CanonicalAsSnoc(d);
      CanonicalIsValid(e);
      CanonicalChars(e);
      assert RemoveChar(p, ' ') == p;
      SegmentsOfCanonical(e);
      assert Segments(p) == |SplitOn(p, '.')|;
    }
  }

  /** Where following the parent link `steps` times leads; `None` stays `None`. */
  function Ancestor(code: Option<string>, steps: nat): Option<string>
    decreases steps
  {
    if steps == 0 || code.None? then code else Ancestor(DetermineParentCode(code.value), steps - 1)
  }

  /** One step up the chain: the ancestors of a code are those of its parent, one step sooner. */
  lemma AncestorStep(code: string, n: nat)
    requires n >= 1
    ensures Ancestor(Some(code), n) == Ancestor(DetermineParentCode(code), n - 1)
  {
  }

  /**
   * Following parents from an accepted, stripped code passes through one
   * code per segment and then reaches `None`: after at most 4 steps for a
   * 10-digit code, and never later.
   */
  lemma {:induction false} ParentChainEnds(code: string)
    requires ValidateHsCode(code) && Strip(code) == code
    ensures Segments(code) <= 4
    ensures Ancestor(Some(code), Segments(code) - 1).Some?
    ensures forall n :: n >= Segments(code) ==> Ancestor(Some(code), n) == None
    decreases Segments(code)
  {
    ParentOfValid(code);
    assert Segments(code) <= 4;
    var parent := DetermineParentCode(code);
    if parent.Some? {
      ParentChainEnds(parent.value);
      AncestorStep(code, Segments(code) - 1);
    }
    forall n | n >= Segments(code) ensures Ancestor(Some(code), n) == None {
      AncestorStep(code, n);
    }
  }

  // ================================================================ examples

  /** The docstring example of the parser: `8708.30.10` has chapter `87`, heading `8708`, subheading `8708.30`. */
  lemma ParseExample(s: string)
    requires s == "8708.30.10"
    ensures ParseHsCode(s) == CodeParts("87", "8708", "8708.30")
  {
    var d := "87083010";
    var t1, t2 := d[6..], d[4..];
    assert t1 == "10" && t1[2..] == [] && DotPairs(t1) == ".10";
    assert t2 == "3010" && t2[2..] == t1 && DotPairs(t2) == ".30.10";
    assert IsCodeDigits(d);
    assert s == Canonical(d);
    CanonicalIsValid(d);
    CanonicalMatches(d);
    assert RemoveChar(Cleaned(s), '.') == d;
    ParseOfValid(s);
    ExampleSlices(d);
  }

  lemma ExampleSlices(d: string)
    requires d == "87083010"
    ensures d[..2] == "87" && d[..4] == "8708" && d[..4] + ['.', d[4], d[5]] == "8708.30"
  {
  }

  /** The docstring examples of the parent lookup: `8708.30.10` to `8708.30` to `8708` to `None`. */
  lemma ParentExamples(a: string, b: string, c: string)
    requires a == "8708.30.10" && b == "8708.30" && c == "8708"
    ensures DetermineParentCode(a) == Some(b)
    ensures DetermineParentCode(b) == Some(c)
    ensures DetermineParentCode(c) == None
  {
    assert a == b + ['.'] + "10" && b == c + ['.'] + "30";
    ParentOfDotted(b, "10");
    ParentOfDotted(c, "30");
    assert ' ' !in c && '.' !in c;
  }

  /** An undotted code longer than a heading gets its first 4 digits as parent, even though the validator refuses it. */
  lemma ParentExampleUndotted(s: string)
    requires s == "87083010"
    ensures DetermineParentCode(s) == Some("8708")
    ensures !ValidateHsCode(s)
  {
    assert ' ' !in s && '.' !in s;
    assert s[..4] == "8708";
    ValidatorExample(s);
  }

  /** A run of 8 digits without dots is refused: the pattern wants the dots. */
  lemma ValidatorExample(s: string)
    requires s == "87083010"
    ensures !ValidateHsCode(s)
  {
    assert !IsSpace(s[0]) && !IsSpace(s[|s| - 1]);
    StripUnpadded(s);
    assert ' ' !in s;
    assert Cleaned(s) == s;
    assert s[4..][0] != '.';
  }

  /** A text of digits and dots is its own cleaned form. */
  lemma CleanedOfDigitsAndDots(s: string)
    requires forall k :: 0 <= k < |s| ==> IsDigit(s[k]) || s[k] == '.'
    ensures Cleaned(s) == s
  {
    UnpaddedDigitsAndDots(s);
    NoBlankAmongDigitsAndDots(s);
  }

  lemma UnpaddedDigitsAndDots(s: string)
    requires forall k :: 0 <= k < |s| ==> IsDigit(s[k]) || s[k] == '.'
    ensures Strip(s) == s
  {
    if s != [] {
      DigitOrDotNotSpace(s[0]);
      DigitOrDotNotSpace(s[|s| - 1]);
    }
    StripUnpadded(s);
  }

  lemma NoBlankAmongDigitsAndDots(s: string)
    requires forall k :: 0 <= k < |s| ==> IsDigit(s[k]) || s[k] == '.'
    ensures ' ' !in s
  {
    forall k | 0 <= k < |s| ensures s[k] != ' ' {
      DigitOrDotNotSpace(s[k]);
    }
  }

  lemma DigitOrDotNotSpace(c: char)
    requires IsDigit(c) || c == '.'
    ensures !IsSpace(c) && c != ' '
  {
  }

  /** A dot anywhere but after digits 4, 6 or 8 is refused, as the dot after `87` in `87.0830`. */
  lemma MisplacedDotRefused(s: string, k: int)
    requires forall j :: 0 <= j < |s| ==> IsDigit(s[j]) || s[j] == '.'
    requires 0 <= k < |s| && s[k] == '.' && k != 4 && k != 7 && k != 10
    ensures !ValidateHsCode(s)
  {
    CleanedOfDigitsAndDots(s);
    if ValidateHsCode(s) {
      AcceptedShape(s);
    }
  }
}
