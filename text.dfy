/** Text and key normalisation of search_catalog.py: `normalize_text`,
    `split_words`, `norm_bestell`, `digits_only`, `expand_synonyms`, and the
    Python string primitives they are built from (`strip`, `lower`, `split`,
    `in` on strings, `join`). */
module Text {

  // ----- Character classes -----

  /** The characters for which Python's `str.isspace()` holds, by code point;
      a `\s` in a str pattern matches the same set. */
  predicate IsSpace(c: char) {
    var n := c as int;
    (0x9 <= n <= 0xD) || (0x1C <= n <= 0x20) || n == 0x85 || n == 0xA0 || n == 0x1680
    || (0x2000 <= n <= 0x200A) || n == 0x2028 || n == 0x2029 || n == 0x202F || n == 0x205F
    || n == 0x3000
  }

  predicate IsDigit(c: char) {
    '0' <= c <= '9'
  }

  predicate IsLowerAscii(c: char) {
    'a' <= c <= 'z'
  }

  predicate AllSpace(s: string) {
    forall i :: 0 <= i < |s| ==> IsSpace(s[i])
  }

  /** No whitespace at either end, as `strip()` leaves a string. */
  predicate IsStripped(s: string) {
    s == [] || (!IsSpace(s[0]) && !IsSpace(s[|s| - 1]))
  }

  // ----- strip -----

  /** `s.lstrip()` */
  function StripLeft(s: string): (r: string)
    ensures |r| <= |s|
    ensures r != [] ==> !IsSpace(r[0])
  {
    if s != [] && IsSpace(s[0]) then StripLeft(s[1..]) else s
  }

  /** `s.lstrip()` drops a whitespace prefix and keeps the rest. */
  lemma {:induction false} StripLeftSpec(s: string)
    ensures StripLeft(s) == s[|s| - |StripLeft(s)|..]
    ensures AllSpace(s[..|s| - |StripLeft(s)|])
    decreases |s|
  {
    if s != [] && IsSpace(s[0]) {
      StripLeftSpec(s[1..]);
      var n := |s| - |StripLeft(s)|;
      assert s[..n] == [s[0]] + s[1..][..n - 1];
    }
  }

  /** `s.rstrip()` */
  function StripRight(s: string): (r: string)
    ensures |r| <= |s|
    ensures r != [] ==> !IsSpace(r[|r| - 1])
  {
    if s != [] && IsSpace(s[|s| - 1]) then StripRight(s[..|s| - 1]) else s
  }

  /** `s.rstrip()` keeps a prefix and drops a whitespace suffix. */
  lemma {:induction false} StripRightSpec(s: string)
    ensures StripRight(s) == s[..|StripRight(s)|]
    ensures AllSpace(s[|StripRight(s)|..])
    decreases |s|
  {
    if s != [] && IsSpace(s[|s| - 1]) {
      var init := s[..|s| - 1];
      StripRightSpec(init);
      var n := |StripRight(s)|;
      assert init[..n] == s[..n];
      assert s[n..] == init[n..] + [s[|s| - 1]];
    }
  }

  /** `s.strip()`: no whitespace at either end (see StripSpec for the rest). */
  function Strip(s: string): (r: string)
    ensures IsStripped(r)
    ensures |r| <= |s|
  {
    var left := StripLeft(s);
    StripRightSpec(left);
    StripRight(left)
  }

  /** `s.strip()` is `s` less runs of whitespace on either side. */
  lemma StripSpec(s: string)
    ensures exists k :: 0 <= k <= |s| - |Strip(s)| && Strip(s) == s[k..k + |Strip(s)|]
                        && AllSpace(s[..k]) && AllSpace(s[k + |Strip(s)|..])
    ensures forall c :: c in Strip(s) ==> c in s
  {
    var left := StripLeft(s);
    var r := StripRight(left);
    StripLeftSpec(s);
    StripRightSpec(left);
    assert r == Strip(s);
    var k := |s| - |left|;
    assert r == s[k..k + |r|];
    assert s[k + |r|..] == left[|r|..];
    assert AllSpace(s[..k]) && AllSpace(s[k + |r|..]);
    forall c | c in r ensures c in s {
      var i :| 0 <= i < |r| && r[i] == c;
      assert s[k + i] == c;
    }
  }

  lemma StripOfStripped(s: string)
    requires IsStripped(s)
    ensures Strip(s) == s
  {
  }

  // ----- lower() and NFKD -----

  /** `lower()` of one character: ASCII letters, the German umlauts and capital sharp s. */
  function LowerChar(c: char): char {
    if 'A' <= c <= 'Z' then (c as int + 32) as char
    else if c == 'Ä' then 'ä'
    else if c == 'Ö' then 'ö'
    else if c == 'Ü' then 'ü'
    else if c == '\U{1E9E}' then 'ß'
    else c
  }

  /** `s.lower()` */
  function Lower(s: string): (r: string)
    ensures |r| == |s|
  {
    if s == [] then [] else [LowerChar(s[0])] + Lower(s[1..])
  }

  const CombiningDiaeresis: char := '\U{308}'

  /** NFKD of one lower-case character: an umlaut becomes its base letter
      followed by U+0308; ß has no decomposition. */
  function DecomposeChar(c: char): string {
    if c == 'ä' then ['a', CombiningDiaeresis]
    else if c == 'ö' then ['o', CombiningDiaeresis]
    else if c == 'ü' then ['u', CombiningDiaeresis]
    else [c]
  }

  /** `unicodedata.normalize("NFKD", s)`; no precomposed umlaut survives it. */
  function Decompose(s: string): (r: string)
    ensures 'ä' !in r && 'ö' !in r && 'ü' !in r
  {
    if s == [] then [] else DecomposeChar(s[0]) + Decompose(s[1..])
  }

  // ----- normalize_text -----

  /** The characters `[a-z0-9äöüß\.\s-]` keeps. */
  predicate KeptByPattern(c: char) {
    IsLowerAscii(c) || IsDigit(c) || c == 'ä' || c == 'ö' || c == 'ü' || c == 'ß'
    || c == '.' || IsSpace(c) || c == '-'
  }

  /** `re.sub(r"[^a-z0-9äöüß\.\s-]", " ", s)` */
  function Mask(s: string): (r: string)
    ensures |r| == |s|
    ensures forall i :: 0 <= i < |s| ==> r[i] == (if KeptByPattern(s[i]) then s[i] else ' ')
  {
    seq(|s|, i requires 0 <= i < |s| => if KeptByPattern(s[i]) then s[i] else ' ')
  }

  /** `re.sub(r"\s+", " ", s)` */
  function CollapseSpaces(s: string): (r: string)
    ensures s != [] ==> r != [] && r[0] == (if IsSpace(s[0]) then ' ' else s[0])
    decreases |s|
  {
    if s == [] then []
    else if IsSpace(s[0]) then [' '] + CollapseSpaces(StripLeft(s[1..]))
    else [s[0]] + CollapseSpaces(s[1..])
  }

  /** Collapsing turns every whitespace run into one ' ' and keeps every other
      character: no two whitespace characters are adjacent afterwards, and each
      character is a ' ' or a non-whitespace character of the input. */
  lemma {:induction false} CollapseSpacesShape(s: string)
    ensures forall i :: 0 <= i < |CollapseSpaces(s)| ==>
      CollapseSpaces(s)[i] == ' ' || (CollapseSpaces(s)[i] in s && !IsSpace(CollapseSpaces(s)[i]))
    ensures forall i :: 0 <= i < |CollapseSpaces(s)| - 1 ==>
      !(IsSpace(CollapseSpaces(s)[i]) && IsSpace(CollapseSpaces(s)[i + 1]))
    decreases |s|
  {
    if s != [] {
      var tail := if IsSpace(s[0]) then StripLeft(s[1..]) else s[1..];
      StripLeftSpec(s[1..]);
      CollapseSpacesShape(tail);
      var ct := CollapseSpaces(tail);
      var r := CollapseSpaces(s);
      assert r == [r[0]] + ct;
      assert forall c :: c in tail ==> c in s;
      forall i | 0 <= i < |r| ensures r[i] == ' ' || (r[i] in s && !IsSpace(r[i])) {
        if i > 0 {
          assert r[i] == ct[i - 1];
        }
      }
      forall i | 0 <= i < |r| - 1 ensures !(IsSpace(r[i]) && IsSpace(r[i + 1])) {
        if i > 0 {
          assert r[i] == ct[i - 1] && r[i + 1] == ct[i];
        } else {
          assert r[1] == ct[0];
        }
      }
    }
  }

  /** `s.replace(old, new)` for single characters. */
  function ReplaceChar(s: string, from: char, to: char): (r: string)
    ensures |r| == |s|
    ensures forall i :: 0 <= i < |s| ==> r[i] == (if s[i] == from then to else s[i])
  {
    seq(|s|, i requires 0 <= i < |s| => if s[i] == from then to else s[i])
  }

  /** The characters `normalize_text` can produce. */
  predicate IsNormChar(c: char) {
    IsLowerAscii(c) || IsDigit(c) || c == 'ß' || c == '.' || c == ' '
  }

  /** `normalize_text(s)`: lower-case, decompose, blank out everything outside
      the pattern, collapse whitespace, strip, and turn hyphens into spaces. */
  function NormalizeText(s: string): (r: string)
    ensures s == "" ==> r == ""
  {
    if s == "" then ""
    else ReplaceChar(Strip(CollapseSpaces(Mask(Decompose(Lower(s))))), '-', ' ')
  }

  /** A character that can remain after collapsing and stripping: a ' ', or a
      non-whitespace character the pattern keeps that is not an umlaut. */
  predicate IsCollapsedChar(x: char) {
    x == ' ' || (KeptByPattern(x) && !IsSpace(x) && x != 'ä' && x != 'ö' && x != 'ü')
  }

  lemma MaskedChars(d: string)
    requires 'ä' !in d && 'ö' !in d && 'ü' !in d
    ensures forall x :: x in Mask(d) ==> x == ' ' || (KeptByPattern(x) && x != 'ä' && x != 'ö' && x != 'ü')
  {
    var m := Mask(d);
    forall x | x in m ensures x == ' ' || (KeptByPattern(x) && x != 'ä' && x != 'ö' && x != 'ü') {
      var k :| 0 <= k < |m| && m[k] == x;
      assert d[k] in d;
    }
  }

  lemma CollapsedChars(m: string)
    requires forall x :: x in m ==> x == ' ' || (KeptByPattern(x) && x != 'ä' && x != 'ö' && x != 'ü')
    ensures forall x :: x in CollapseSpaces(m) ==> IsCollapsedChar(x)
  {
    CollapseSpacesShape(m);
    var c := CollapseSpaces(m);
    forall x | x in c ensures IsCollapsedChar(x) {
      var j :| 0 <= j < |c| && c[j] == x;
    }
  }

  /** The output alphabet of `normalize_text`: ASCII lower-case letters, digits,
      ß, '.' and ' ' only. In particular no hyphen, no other whitespace, and no
      umlaut, since NFKD has split every umlaut before the pattern is applied. */
  lemma NormalizeTextAlphabet(s: string)
    ensures forall i :: 0 <= i < |NormalizeText(s)| ==> IsNormChar(NormalizeText(s)[i])
    ensures '-' !in NormalizeText(s) && 'ä' !in NormalizeText(s)
    ensures 'ö' !in NormalizeText(s) && 'ü' !in NormalizeText(s)
  {
    if s != "" {
      var d := Decompose(Lower(s));
      MaskedChars(d);
      CollapsedChars(Mask(d));
      var t := Strip(CollapseSpaces(Mask(d)));
      StripSpec(CollapseSpaces(Mask(d)));
      assert forall x :: x in t ==> IsCollapsedChar(x);
      var r := ReplaceChar(t, '-', ' ');
      assert r == NormalizeText(s);
      forall i | 0 <= i < |r| ensures IsNormChar(r[i]) {
        assert t[i] in t;
      }
    }
  }

  // ----- split_words -----

  /** A non-empty run of non-whitespace characters. */
  predicate IsWord(w: string) {
    w != [] && forall i :: 0 <= i < |w| ==> !IsSpace(w[i])
  }

  /** The longest prefix of `s` without whitespace. */
  function TakeWord(s: string): (w: string)
    ensures w <= s
    ensures forall i :: 0 <= i < |w| ==> !IsSpace(w[i])
    ensures |w| < |s| ==> IsSpace(s[|w|])
  {
    if s == [] || IsSpace(s[0]) then [] else [s[0]] + TakeWord(s[1..])
  }

  /** `split_words(s)`, that is `s.split()`: the maximal runs of non-whitespace. */
  function SplitWords(s: string): (ws: seq<string>)
    ensures forall k :: 0 <= k < |ws| ==> IsWord(ws[k])
    ensures ws == [] <==> AllSpace(s)
    decreases |s|
  {
    var t := StripLeft(s);
    StripLeftSpec(s);
    if t == [] then
      assert s[..|s|] == s;
      []
    else
      var w := TakeWord(t);
      assert !AllSpace(s) by { assert s[|s| - |t|] == t[0]; }
      [w] + SplitWords(t[|w|..])
  }

  /** The non-whitespace characters of `s`, in order. */
  function NonSpace(s: string): string {
    if s == [] then [] else (if IsSpace(s[0]) then [] else [s[0]]) + NonSpace(s[1..])
  }

  function Concat(ws: seq<string>): string {
    if ws == [] then [] else ws[0] + Concat(ws[1..])
  }

  lemma {:induction false} NonSpaceAppend(a: string, b: string)
    ensures NonSpace(a + b) == NonSpace(a) + NonSpace(b)
    decreases |a|
  {
    if a != [] {
      assert (a + b)[1..] == a[1..] + b;
      NonSpaceAppend(a[1..], b);
    } else {
      assert a + b == b;
    }
  }

  lemma {:induction false} NonSpaceOfSpaces(s: string)
    requires AllSpace(s)
    ensures NonSpace(s) == []
    decreases |s|
  {
    if s != [] {
      NonSpaceOfSpaces(s[1..]);
    }
  }

  lemma {:induction false} NonSpaceOfWord(w: string)
    requires forall i :: 0 <= i < |w| ==> !IsSpace(w[i])
    ensures NonSpace(w) == w
    decreases |w|
  {
    if w != [] {
      NonSpaceOfWord(w[1..]);
    }
  }

  lemma NonSpaceStripLeft(s: string)
    ensures NonSpace(StripLeft(s)) == NonSpace(s)
  {
    var t := StripLeft(s);
    var n := |s| - |t|;
    StripLeftSpec(s);
    assert s == s[..n] + t;
    NonSpaceAppend(s[..n], t);
    NonSpaceOfSpaces(s[..n]);
  }

  lemma NonSpaceWordThenRest(t: string)
    ensures NonSpace(t) == TakeWord(t) + NonSpace(t[|TakeWord(t)|..])
  {
    var w := TakeWord(t);
    assert t == w + t[|w|..];
    NonSpaceAppend(w, t[|w|..]);
    NonSpaceOfWord(w);
  }

  /** The words of `split_words(s)`, put back together, are exactly the
      non-whitespace characters of `s`: splitting loses only whitespace. */
  lemma {:induction false} SplitWordsKeepsText(s: string)
    ensures Concat(SplitWords(s)) == NonSpace(s)
    decreases |s|
  {
    var t := StripLeft(s);
    NonSpaceStripLeft(s);
    if t != [] {
      var w := TakeWord(t);
      var rest := t[|w|..];
      NonSpaceWordThenRest(t);
      SplitWordsKeepsText(rest);
      var ws := SplitWords(rest);
      assert SplitWords(s) == [w] + ws;
      assert ([w] + ws)[1..] == ws;
      assert Concat([w] + ws) == w + Concat(ws);
    }
  }

  /** `s.lstrip()` of whitespace followed by a string that does not start
      with whitespace is that string. */
  lemma {:induction false} StripLeftOverSpaces(sp: string, x: string)
    requires AllSpace(sp) && (x == [] || !IsSpace(x[0]))
    ensures StripLeft(sp + x) == x
    decreases |sp|
  {
    if sp == [] {
      assert sp + x == x;
    } else {
      assert (sp + x)[1..] == sp[1..] + x;
      StripLeftOverSpaces(sp[1..], x);
    }
  }

  /** Collapsing loses no non-whitespace character and adds none. */
  lemma {:induction false} CollapseSpacesKeepsText(s: string)
    ensures NonSpace(CollapseSpaces(s)) == NonSpace(s)
    decreases |s|
  {
    if s != [] {
      if IsSpace(s[0]) {
        var t := StripLeft(s[1..]);
        CollapseSpacesKeepsText(t);
        NonSpaceStripLeft(s[1..]);
        NonSpaceAppend([' '], CollapseSpaces(t));
      } else {
        NonSpaceAppend([s[0]], CollapseSpaces(s[1..]));
        CollapseSpacesKeepsText(s[1..]);
      }
    }
  }

  /** `re.sub(r"\s+", " ", s)` works run by run: a maximal whitespace run
      becomes one ' '. */
  lemma CollapseSpacesRun(sp: string, x: string)
    requires sp != [] && AllSpace(sp) && (x == [] || !IsSpace(x[0]))
    ensures CollapseSpaces(sp + x) == [' '] + CollapseSpaces(x)
  {
    assert (sp + x)[1..] == sp[1..] + x;
    StripLeftOverSpaces(sp[1..], x);
  }

  /** A non-whitespace character is kept in place, whatever follows it. */
  lemma CollapseSpacesKeep(c: char, x: string)
    requires !IsSpace(c)
    ensures CollapseSpaces([c] + x) == [c] + CollapseSpaces(x)
  {
    assert ([c] + x)[1..] == x;
  }

  /** The longest whitespace-free prefix of a word followed by whitespace (or
      nothing) is that word. */
  lemma {:induction false} TakeWordOf(w: string, rest: string)
    requires forall i :: 0 <= i < |w| ==> !IsSpace(w[i])
    requires rest == [] || IsSpace(rest[0])
    ensures TakeWord(w + rest) == w
    decreases |w|
  {
    if w == [] {
      assert w + rest == rest;
    } else {
      assert (w + rest)[1..] == w[1..] + rest;
      TakeWordOf(w[1..], rest);
    }
  }

  /** `s.split()` splits exactly at whitespace runs: leading whitespace is
      skipped, the word up to the next whitespace is the first word, and the
      rest is split the same way. */
  lemma SplitWordsRun(sp: string, w: string, rest: string)
    requires AllSpace(sp) && IsWord(w) && (rest == [] || IsSpace(rest[0]))
    ensures SplitWords(sp + w + rest) == [w] + SplitWords(rest)
  {
    var s := sp + w + rest;
    assert s == sp + (w + rest);
    assert (w + rest)[0] == w[0];
    StripLeftOverSpaces(sp, w + rest);
    TakeWordOf(w, rest);
    assert (w + rest)[|w|..] == rest;
  }

  // ----- norm_bestell and digits_only -----

  /** `s.replace(c, "")` */
  function RemoveChar(s: string, c: char): (r: string)
    ensures c !in r
    ensures forall x :: x in r ==> x in s
  {
    if s == [] then [] else (if s[0] == c then [] else [s[0]]) + RemoveChar(s[1..], c)
  }

  lemma {:induction false} RemoveAbsentChar(s: string, c: char)
    requires c !in s
    ensures RemoveChar(s, c) == s
    decreases |s|
  {
    if s != [] {
      RemoveAbsentChar(s[1..], c);
    }
  }

  /** `norm_bestell(s)`: drop every ' ', then strip; "" stays "". */
  function NormBestell(s: string): (r: string)
    ensures ' ' !in r
    ensures IsStripped(r)
    ensures s == "" ==> r == ""
  {
    if s == "" then "" else StripSpec(RemoveChar(s, ' ')); Strip(RemoveChar(s, ' '))
  }

  /** A normalised order number is its own normal form. */
  lemma NormBestellIdempotent(s: string)
    ensures NormBestell(NormBestell(s)) == NormBestell(s)
  {
    var r := NormBestell(s);
    if r != "" {
      RemoveAbsentChar(r, ' ');
      StripOfStripped(r);
    }
  }

  lemma {:induction false} RemoveSpaceKeepsText(s: string)
    ensures NonSpace(RemoveChar(s, ' ')) == NonSpace(s)
    decreases |s|
  {
    if s != [] {
      RemoveSpaceKeepsText(s[1..]);
      NonSpaceAppend(if s[0] == ' ' then [] else [s[0]], RemoveChar(s[1..], ' '));
    }
  }

  lemma NonSpaceStrip(s: string)
    ensures NonSpace(Strip(s)) == NonSpace(s)
  {
    var left := StripLeft(s);
    var r := StripRight(left);
    NonSpaceStripLeft(s);
    StripRightSpec(left);
    assert left == r + left[|r|..];
    NonSpaceAppend(r, left[|r|..]);
    NonSpaceOfSpaces(left[|r|..]);
  }

  /** `norm_bestell` drops only whitespace: every other character of the order
      number is kept, in order. */
  lemma NormBestellKeepsText(s: string)
    ensures NonSpace(NormBestell(s)) == NonSpace(s)
  {
    if s != "" {
      RemoveSpaceKeepsText(s);
      NonSpaceStrip(RemoveChar(s, ' '));
    }
  }

  /** `digits_only(s)`, that is `re.sub(r"\D", "", s or "")`. */
  function DigitsOnly(s: string): (r: string)
    ensures forall i :: 0 <= i < |r| ==> IsDigit(r[i])
    ensures |r| <= |s|
  {
    if s == [] then [] else (if IsDigit(s[0]) then [s[0]] else []) + DigitsOnly(s[1..])
  }

  /** `digits_only` works character by character and keeps the order:
      it distributes over concatenation. */
  lemma {:induction false} DigitsOnlyAppend(a: string, b: string)
    ensures DigitsOnly(a + b) == DigitsOnly(a) + DigitsOnly(b)
    decreases |a|
  {
    if a == [] {
      assert a + b == b;
    } else {
      assert (a + b)[1..] == a[1..] + b;
      DigitsOnlyAppend(a[1..], b);
    }
  }

  /** Every digit of `s` is kept, as often as it occurs; nothing else is. */
  lemma DigitsOnlyKeepsDigits(s: string)
    ensures forall c :: IsDigit(c) ==> multiset(DigitsOnly(s))[c] == multiset(s)[c]
    ensures DigitsOnly(s) == "" <==> forall i :: 0 <= i < |s| ==> !IsDigit(s[i])
  {
    DigitsOnlyCounts(s);
    DigitsOnlyEmptyIff(s);
  }

  lemma {:induction false} DigitsOnlyCounts(s: string)
    ensures forall c :: IsDigit(c) ==> multiset(DigitsOnly(s))[c] == multiset(s)[c]
    decreases |s|
  {
    if s != [] {
      DigitsOnlyCounts(s[1..]);
      assert s == [s[0]] + s[1..];
      assert multiset(s) == multiset([s[0]]) + multiset(s[1..]);
    }
  }

  lemma {:induction false} DigitsOnlyEmptyIff(s: string)
    ensures DigitsOnly(s) == "" <==> forall i :: 0 <= i < |s| ==> !IsDigit(s[i])
    decreases |s|
  {
    if s != [] {
      DigitsOnlyEmptyIff(s[1..]);
      assert forall i :: 1 <= i < |s| ==> s[i] == s[1..][i - 1];
    }
  }

  lemma {:induction false} DigitsOnlyOfDigits(s: string)
    requires forall i :: 0 <= i < |s| ==> IsDigit(s[i])
    ensures DigitsOnly(s) == s
    decreases |s|
  {
    if s != [] {
      DigitsOnlyOfDigits(s[1..]);
    }
  }

  lemma DigitsOnlyIdempotent(s: string)
    ensures DigitsOnly(DigitsOnly(s)) == DigitsOnly(s)
  {
    DigitsOnlyOfDigits(DigitsOnly(s));
  }

  // ----- substring test -----

  /** Python's `needle in hay` on strings. */
  function Contains(hay: string, needle: string): bool
    decreases |hay|
  {
    needle <= hay || (hay != [] && Contains(hay[1..], needle))
  }

  /** `needle in hay` holds exactly when `needle` starts at some position of `hay`. */
  lemma {:induction false} ContainsIff(hay: string, needle: string)
    ensures Contains(hay, needle) <==> exists i :: 0 <= i <= |hay| && needle <= hay[i..]
    decreases |hay|
  {
    if hay != [] {
      ContainsIff(hay[1..], needle);
      if exists i :: 0 <= i <= |hay| && needle <= hay[i..] {
        var i :| 0 <= i <= |hay| && needle <= hay[i..];
        if i > 0 {
          assert hay[1..][i - 1..] == hay[i..];
        }
      }
      if Contains(hay[1..], needle) {
        var i :| 0 <= i <= |hay| - 1 && needle <= hay[1..][i..];
        assert hay[1..][i..] == hay[i + 1..];
      }
    }
    assert hay[0..] == hay;
  }

  /** Every character of a contained string occurs in the container. */
  lemma {:induction false} ContainsChars(hay: string, needle: string, c: char)
    requires Contains(hay, needle) && c in needle
    ensures c in hay
    decreases |hay|
  {
    if !(needle <= hay) {
      ContainsChars(hay[1..], needle, c);
    } else {
      var i :| 0 <= i < |needle| && needle[i] == c;
      assert hay[i] == c;
    }
  }

  // ----- join -----

  /** `sep.join(parts)` */
  function Join(sep: string, parts: seq<string>): string {
    if parts == [] then ""
    else if |parts| == 1 then parts[0]
    else parts[0] + sep + Join(sep, parts[1..])
  }

  /** `[p for p in parts if p]`, also `filter(None, parts)` */
  function NonEmpty(parts: seq<string>): (r: seq<string>)
    ensures forall k :: 0 <= k < |r| ==> r[k] != ""
    ensures forall p :: p in r <==> p in parts && p != ""
  {
    if parts == [] then []
    else (if parts[0] == "" then [] else [parts[0]]) + NonEmpty(parts[1..])
  }

  /** The filter works part by part, keeping order and repetitions: it
      distributes over concatenation, drops "" and keeps every other part. */
  lemma {:induction false} NonEmptySpec(a: seq<string>, b: seq<string>, p: string)
    ensures NonEmpty(a + b) == NonEmpty(a) + NonEmpty(b)
    ensures NonEmpty([p]) == if p == "" then [] else [p]
    decreases |a|
  {
    if a == [] {
      assert a + b == b;
    } else {
      assert (a + b)[1..] == a[1..] + b;
      NonEmptySpec(a[1..], b, p);
    }
    assert [p][1..] == [];
  }

  /** `sep.join(p for p in parts if p)` */
  function JoinNonEmpty(sep: string, parts: seq<string>): string {
    Join(sep, NonEmpty(parts))
  }

  lemma {:induction false} JoinOfNonEmptyParts(sep: string, parts: seq<string>)
    requires forall k :: 0 <= k < |parts| ==> parts[k] != ""
    ensures Join(sep, parts) == "" <==> parts == []
    ensures parts != [] ==> parts[0] <= Join(sep, parts)
  {
  }

  /** The joined text is empty exactly when every part is, and otherwise it
      starts with the first non-empty part. */
  lemma JoinNonEmptyShape(sep: string, parts: seq<string>)
    ensures JoinNonEmpty(sep, parts) == "" <==> forall k :: 0 <= k < |parts| ==> parts[k] == ""
    ensures forall k :: 0 <= k < |parts| && parts[k] != "" && (forall j :: 0 <= j < k ==> parts[j] == "")
               ==> parts[k] <= JoinNonEmpty(sep, parts)
  {
    var ne := NonEmpty(parts);
    JoinOfNonEmptyParts(sep, ne);
    if ne != [] {
      assert ne[0] in ne;
      var k :| 0 <= k < |parts| && parts[k] == ne[0];
    }
    if ne == [] {
      forall k | 0 <= k < |parts| ensures parts[k] == "" {
        assert parts[k] in parts;
      }
    }
    forall k | 0 <= k < |parts| && parts[k] != "" && (forall j :: 0 <= j < k ==> parts[j] == "")
      ensures parts[k] <= JoinNonEmpty(sep, parts)
    {
      FirstNonEmpty(parts, k);
    }
  }

  lemma {:induction false} FirstNonEmpty(parts: seq<string>, k: nat)
    requires k < |parts| && parts[k] != ""
    requires forall j :: 0 <= j < k ==> parts[j] == ""
    ensures NonEmpty(parts) != [] && NonEmpty(parts)[0] == parts[k]
    decreases k
  {
    if k > 0 {
      FirstNonEmpty(parts[1..], k - 1);
    }
  }

  // ----- expand_synonyms -----

  /** The `SYNONYMS` table, in its declaration order. */
  const Synonyms: seq<(string, seq<string>)> := [
    ("herzgriffspachtel", ["herzspachtel", "herzform spachtel", "spachtel herzform"]),
    ("flächenspachtel", ["flachspachtel", "flächen spachtel"])
  ]

  /** The synonyms of every key that occurs in `norm`, in table order. */
  function MatchedSynonyms(norm: string, table: seq<(string, seq<string>)>): seq<string> {
    if table == [] then []
    else (if Contains(norm, table[0].0) then table[0].1 else []) + MatchedSynonyms(norm, table[1..])
  }

  /** `expand_synonyms(text)` */
  function ExpandSynonyms(text: string): string {
    ExpandNormalized(NormalizeText(text))
  }

  /** The part of `expand_synonyms` after `normalize_text`. */
  function ExpandNormalized(norm: string): string {
    Join(" ", [norm] + MatchedSynonyms(norm, Synonyms))
  }

  lemma NoUmlautKeyIn(norm: string)
    requires 'ä' !in norm
    ensures !Contains(norm, Synonyms[1].0)
  {
    assert Synonyms[1].0[2] == 'ä';
    if Contains(norm, Synonyms[1].0) {
      ContainsChars(norm, Synonyms[1].0, 'ä');
    }
  }

  /** The key "flächenspachtel" can never occur in normalised text, which holds
      no 'ä'. */
  lemma UmlautKeyNeverMatches(text: string)
    ensures !Contains(NormalizeText(text), Synonyms[1].0)
  {
    NormalizeTextAlphabet(text);
    NoUmlautKeyIn(NormalizeText(text));
  }

  lemma MatchedOfTwo(norm: string, table: seq<(string, seq<string>)>)
    requires |table| == 2 && !Contains(norm, table[1].0)
    ensures MatchedSynonyms(norm, table) == if Contains(norm, table[0].0) then table[0].1 else []
  {
    var t := table[1..];
    assert t[0] == table[1] && t[1..] == [];
    assert MatchedSynonyms(norm, t) == [];
  }

  lemma JoinCons(sep: string, a: string, xs: seq<string>)
    ensures Join(sep, [a] + xs) == a + (if xs == [] then "" else sep + Join(sep, xs))
  {
    assert ([a] + xs)[1..] == xs;
  }

  lemma ExpandNormalizedShape(norm: string)
    requires !Contains(norm, Synonyms[1].0)
    ensures ExpandNormalized(norm) ==
      norm + (if Contains(norm, Synonyms[0].0) then " " + Join(" ", Synonyms[0].1) else "")
  {
    MatchedOfTwo(norm, Synonyms);
    JoinCons(" ", norm, MatchedSynonyms(norm, Synonyms));
  }

  /** `expand_synonyms` is the normalised text, followed by the synonyms of
      "herzgriffspachtel", space-separated, exactly when that key occurs in it. */
  lemma ExpandSynonymsShape(text: string)
    ensures ExpandSynonyms(text) ==
      NormalizeText(text) +
      (if Contains(NormalizeText(text), Synonyms[0].0) then " " + Join(" ", Synonyms[0].1) else "")
  {
    UmlautKeyNeverMatches(text);
    ExpandNormalizedShape(NormalizeText(text));
  }

  /** The expansion leaves the normalised text unchanged exactly when no key of
      the table occurs in it; it always starts with the normalised text. */
  lemma ExpandSynonymsUnchangedIff(text: string)
    ensures NormalizeText(text) <= ExpandSynonyms(text)
    ensures ExpandSynonyms(text) == NormalizeText(text) <==>
      forall k :: 0 <= k < |Synonyms| ==> !Contains(NormalizeText(text), Synonyms[k].0)
  {
    ExpandSynonymsShape(text);
    UmlautKeyNeverMatches(text);
    assert Synonyms[0].0 == "herzgriffspachtel";
  }
}
