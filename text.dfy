/** Character classes and string operations of the Python standard library
    that the pipeline relies on: `str.isspace`, `str.isdigit`, `strip`,
    `split`, `re.sub(r"\s+", " ", ...)`, ASCII case mapping, decimal
    rendering of integers and UTF-8 byte length. */
module Text {
  import opened Seqs

  /** Python's `str.isspace()` (and the `\s` class of `re` on `str`). */
  predicate IsSpace(c: char) {
    c == ' ' || ('\t' <= c <= '\r') || ('\U{1c}' <= c <= '\U{1f}')
    || c == '\U{85}' || c == '\U{a0}' || c == '\U{1680}'
    || ('\U{2000}' <= c <= '\U{200a}') || c == '\U{2028}' || c == '\U{2029}'
    || c == '\U{202f}' || c == '\U{205f}' || c == '\U{3000}'
  }

  predicate IsAsciiDigit(c: char) {
    '0' <= c <= '9'
  }

  /** Python's `str.isdigit()` on the Latin-1 range (the source files are read
      as Latin-1): the ASCII digits and the superscripts one, two and three. */
  predicate IsDigit(c: char) {
    IsAsciiDigit(c) || c == '\U{b9}' || c == '\U{b2}' || c == '\U{b3}'
  }

  predicate IsAscii(c: char) {
    c < '\U{80}'
  }

  predicate IsAsciiString(s: string) {
    forall i :: 0 <= i < |s| ==> IsAscii(s[i])
  }

  predicate IsLowerAscii(c: char) {
    'a' <= c <= 'z'
  }

  predicate IsUpperAscii(c: char) {
    'A' <= c <= 'Z'
  }

  /** No ASCII lower-case letter anywhere in `s`. */
  predicate NoLowerCase(s: string) {
    forall i :: 0 <= i < |s| ==> !IsLowerAscii(s[i])
  }

  /** No upper-case letter of the Latin-1 range anywhere in `s`. */
  predicate NoUpperCase(s: string) {
    forall i :: 0 <= i < |s| ==> !IsUpper(s[i])
  }

  function UpperChar(c: char): (u: char)
    ensures IsSpace(u) <==> IsSpace(c)
    ensures IsAscii(u) <==> IsAscii(c)
    ensures !IsLowerAscii(u)
  {
    if IsLowerAscii(c) then (c as int - 32) as char else c
  }

  /** The Latin-1 capitals `À`..`Þ` other than `×`. */
  predicate IsUpperLatin1(c: char) {
    '\U{c0}' <= c <= '\U{de}' && c != '\U{d7}'
  }

  /** A capital `str.lower()` changes, within the Latin-1 range. */
  predicate IsUpper(c: char) {
    IsUpperAscii(c) || IsUpperLatin1(c)
  }

  /** `str.lower()` on one character of the Latin-1 range: each capital maps
      to the letter 32 code points above it, and every other character is
      kept. */
  function LowerChar(c: char): (l: char)
    ensures IsSpace(l) <==> IsSpace(c)
    ensures !IsUpper(l)
    ensures IsUpper(c) <==> l != c
  {
    if IsUpper(c) then (c as int + 32) as char else c
  }

  /** `str.upper()` restricted to ASCII letters. */
  function Upper(s: string): (r: string)
    ensures |r| == |s|
    ensures forall i :: 0 <= i < |s| ==> r[i] == UpperChar(s[i])
  {
    seq(|s|, i requires 0 <= i < |s| => UpperChar(s[i]))
  }

  /** `str.lower()` restricted to the Latin-1 range. */
  function Lower(s: string): (r: string)
    ensures |r| == |s|
    ensures forall i :: 0 <= i < |s| ==> r[i] == LowerChar(s[i])
  {
    seq(|s|, i requires 0 <= i < |s| => LowerChar(s[i]))
  }

  predicate AllSpace(s: string) {
    forall i :: 0 <= i < |s| ==> IsSpace(s[i])
  }

  predicate HasNoSpace(s: string) {
    forall i :: 0 <= i < |s| ==> !IsSpace(s[i])
  }

  /** `str.lstrip()`: drops the leading whitespace, keeping a suffix of `s`. */
  function TrimLeft(s: string): (r: string)
    ensures |r| <= |s| && r == s[|s| - |r|..]
    ensures r == [] || !IsSpace(r[0])
    ensures AllSpace(s[..|s| - |r|])
  {
    if s == [] || !IsSpace(s[0]) then s
    else
      var r := TrimLeft(s[1..]);
      TrimLeftStep(s, r);
      r
  }

  /** `str.rstrip()`: drops the trailing whitespace, keeping a prefix of `s`. */
  function TrimRight(s: string): (r: string)
    ensures |r| <= |s| && r == s[..|r|]
    ensures r == [] || !IsSpace(r[|r| - 1])
    ensures AllSpace(s[|r|..])
  {
    if s == [] || !IsSpace(s[|s| - 1]) then s
    else
      var r := TrimRight(s[..|s| - 1]);
      TrimRightStep(s, r);
      r
  }

  /** One step of `TrimLeft`: a leading space joins the dropped prefix. */
  lemma TrimLeftStep(s: string, r: string)
    requires s != [] && IsSpace(s[0])
    requires |r| <= |s| - 1 && r == s[1..][|s| - 1 - |r|..]
    requires AllSpace(s[1..][..|s| - 1 - |r|])
    ensures r == s[|s| - |r|..] && AllSpace(s[..|s| - |r|])
  {
    assert s[..|s| - |r|] == [s[0]] + s[1..][..|s| - 1 - |r|];
  }

  /** One step of `TrimRight`: a trailing space joins the dropped suffix. */
  lemma TrimRightStep(s: string, r: string)
    requires s != [] && IsSpace(s[|s| - 1])
    requires |r| <= |s| - 1 && r == s[..|s| - 1][..|r|]
    requires AllSpace(s[..|s| - 1][|r|..])
    ensures r == s[..|r|] && AllSpace(s[|r|..])
  {
    assert s[|r|..] == s[..|s| - 1][|r|..] + [s[|s| - 1]];
  }

  /** `str.strip()`. */
  function Strip(s: string): string {
    TrimRight(TrimLeft(s))
  }

  /** Neither the first nor the last character is whitespace. */
  predicate NoEdgeSpace(s: string) {
    |s| > 0 ==> !IsSpace(s[0]) && !IsSpace(s[|s| - 1])
  }

  /** Every whitespace character is a plain space and is followed by a
      non-whitespace character: no tabs, no newlines, no double spaces. */
  predicate SpacesCollapsed(s: string) {
    forall i :: 0 <= i < |s| && IsSpace(s[i]) ==> s[i] == ' ' && (i + 1 < |s| ==> !IsSpace(s[i + 1]))
  }

  /** `re.sub(r"\s+", " ", s)`: every maximal whitespace run becomes one space. */
  function Collapse(s: string): (r: string)
    ensures |r| <= |s|
    decreases |s|
  {
    if s == [] then []
    else if IsSpace(s[0]) then
      var t := TrimLeft(s);
      if t == [] then " " else " " + Collapse(t)
    else [s[0]] + Collapse(s[1..])
  }

  /** The longest prefix of `s` without whitespace. */
  function WordPrefix(s: string): (w: string)
    ensures |w| <= |s| && w == s[..|w|]
    ensures HasNoSpace(w)
    ensures |w| < |s| ==> IsSpace(s[|w|])
    ensures s != [] && !IsSpace(s[0]) ==> |w| > 0
  {
    if s == [] || IsSpace(s[0]) then [] else [s[0]] + WordPrefix(s[1..])
  }

  /** `str.split()` with no argument: the maximal runs of non-whitespace. */
  function Words(s: string): (ws: seq<string>)
    ensures forall k :: 0 <= k < |ws| ==> |ws[k]| > 0 && HasNoSpace(ws[k])
    decreases |s|
  {
    var t := TrimLeft(s);
    if t == [] then []
    else
      var w := WordPrefix(t);
      var rest := Words(t[|w|..]);
      WordsCons(w, rest);
      [w] + rest
  }

  lemma WordsCons(w: string, rest: seq<string>)
    requires |w| > 0 && HasNoSpace(w)
    requires forall k :: 0 <= k < |rest| ==> |rest[k]| > 0 && HasNoSpace(rest[k])
    ensures forall k :: 0 <= k < |[w] + rest| ==> |([w] + rest)[k]| > 0 && HasNoSpace(([w] + rest)[k])
  {
    forall k | 0 <= k < |[w] + rest|
      ensures |([w] + rest)[k]| > 0 && HasNoSpace(([w] + rest)[k])
    {
      if k > 0 { assert ([w] + rest)[k] == rest[k - 1]; }
    }
  }

  /** `" ".join(ws)`. */
  function JoinSpace(ws: seq<string>): string {
    if |ws| == 0 then ""
    else if |ws| == 1 then ws[0]
    else ws[0] + " " + JoinSpace(ws[1..])
  }

  /** `re.split` on a one-character separator class: the pieces between
      separators, empty pieces included, so there is always at least one. */
  function SplitOn(s: string, isSep: char -> bool): (parts: seq<string>)
    ensures |parts| >= 1
    ensures forall k, i :: 0 <= k < |parts| && 0 <= i < |parts[k]| ==> !isSep(parts[k][i])
  {
    if s == [] then [""]
    else
      var rest := SplitOn(s[1..], isSep);
      if isSep(s[0]) then [""] + rest else [[s[0]] + rest[0]] + rest[1..]
  }

  predicate StartsWith(s: string, prefix: string) {
    |prefix| <= |s| && s[..|prefix|] == prefix
  }

  /** The characters of `s` for which `str.isdigit()` holds, in order. */
  function Digits(s: string): (d: string)
    ensures |d| <= |s|
    ensures forall i :: 0 <= i < |d| ==> IsDigit(d[i])
  {
    if s == [] then []
    else if IsDigit(s[0]) then [s[0]] + Digits(s[1..])
    else Digits(s[1..])
  }

  function DigitChar(n: nat): (c: char)
    requires n < 10
    ensures IsAsciiDigit(c)
  {
    ('0' as int + n) as char
  }

  function DigitValue(c: char): nat
    requires IsAsciiDigit(c)
  {
    c as int - '0' as int
  }

  /** `str(n)` for a natural number. */
  function NatToString(n: nat): (r: string)
    ensures |r| >= 1
    ensures forall i :: 0 <= i < |r| ==> IsAsciiDigit(r[i])
  {
    if n < 10 then [DigitChar(n)] else NatToString(n / 10) + [DigitChar(n % 10)]
  }

  /** `int(s)` for a string of ASCII digits. */
  function DecimalValue(s: string): nat
    requires forall i :: 0 <= i < |s| ==> IsAsciiDigit(s[i])
  {
    if s == [] then 0 else DecimalValue(s[..|s| - 1]) * 10 + DigitValue(s[|s| - 1])
  }

  /** Number of bytes of the UTF-8 encoding of `c`. */
  function Utf8Width(c: char): (w: nat)
    ensures 1 <= w <= 4
    ensures w == 1 <==> IsAscii(c)
  {
    if c < '\U{80}' then 1 else if c < '\U{800}' then 2 else if c < '\U{10000}' then 3 else 4
  }

  /** Number of bytes of the UTF-8 encoding of `s` (Polars' `str.len_bytes`). */
  function Utf8Length(s: string): (n: nat)
    ensures n >= |s|
  {
    if s == [] then 0 else Utf8Width(s[0]) + Utf8Length(s[1..])
  }

  // ---------------------------------------------------------------------
  // Lemmas
  // ---------------------------------------------------------------------

  lemma {:induction false} TrimLeftAllSpace(s: string)
    ensures TrimLeft(s) == [] <==> AllSpace(s)
  {
    if s != [] && IsSpace(s[0]) {
      TrimLeftAllSpace(s[1..]);
      if AllSpace(s[1..]) {
        forall i | 0 <= i < |s| ensures IsSpace(s[i]) {
          if i > 0 { assert s[i] == s[1..][i - 1]; }
        }
      }
    }
  }

  lemma TrimLeftOfTrimmed(s: string)
    requires s == [] || !IsSpace(s[0])
    ensures TrimLeft(s) == s
  {
  }

  lemma TrimRightOfTrimmed(s: string)
    requires s == [] || !IsSpace(s[|s| - 1])
    ensures TrimRight(s) == s
  {
  }

  /** Removing trailing whitespace from `a + b` only touches `b` when `b`
      holds a non-whitespace character. */
  lemma {:induction false} TrimRightConcat(a: string, b: string)
    requires !AllSpace(b)
    ensures TrimRight(a + b) == a + TrimRight(b)
    decreases |b|
  {
    var n := |a + b|;
    if IsSpace(b[|b| - 1]) {
      var b' := b[..|b| - 1];
      assert (a + b)[..n - 1] == a + b';
      if AllSpace(b') {
        forall i | 0 <= i < |b| ensures IsSpace(b[i]) {
          if i < |b| - 1 { assert b[i] == b'[i]; }
        }
        assert false;
      }
      TrimRightConcat(a, b');
    }
  }

  /** Trailing whitespace after a word is removed entirely. */
  lemma {:induction false} TrimRightWordThenSpace(w: string, rest: string)
    requires |w| > 0 && !IsSpace(w[|w| - 1])
    requires AllSpace(rest)
    ensures TrimRight(w + rest) == w
    decreases |rest|
  {
    if rest == [] {
      assert w + rest == w;
    } else {
      var rest' := rest[..|rest| - 1];
      assert (w + rest)[..|w + rest| - 1] == w + rest';
      TrimRightWordThenSpace(w, rest');
    }
  }

  /** A single space on each side of a trimmed text is stripped away. */
  lemma StripPadded(t: string)
    requires t != [] && NoEdgeSpace(t)
    ensures Strip(" " + t + " ") == t
  {
    var s := " " + t + " ";
    assert s[1..] == t + " ";
    TrimLeftOfTrimmed(t + " ");
    assert TrimLeft(s) == t + " ";
    assert AllSpace(" ");
    TrimRightWordThenSpace(t, " ");
  }

  /** Trimming at the left and at the right commute. */
  lemma {:induction false} TrimsCommute(s: string)
    ensures TrimLeft(TrimRight(s)) == TrimRight(TrimLeft(s))
    decreases |s|
  {
    if s == [] {
    } else if IsSpace(s[0]) {
      if AllSpace(s) {
        TrimLeftAllSpace(s);
      } else {
        assert s == [s[0]] + s[1..];
        assert !AllSpace(s[1..]);
        TrimRightConcat([s[0]], s[1..]);
        TrimsCommute(s[1..]);
      }
    } else {
      var r := TrimRight(s);
      assert r[0] == s[0];
    }
  }

  /** `re.sub(r"\s+", " ", s)` keeps the first character, a leading
      whitespace run becoming a plain space. */
  lemma CollapseFirst(s: string)
    requires |s| > 0
    ensures |Collapse(s)| > 0 && Collapse(s)[0] == (if IsSpace(s[0]) then ' ' else s[0])
  {
  }

  /** Whether the last character is whitespace survives collapsing. */
  lemma {:induction false} CollapseLast(s: string)
    requires |s| > 0
    ensures |Collapse(s)| > 0
    ensures IsSpace(Collapse(s)[|Collapse(s)| - 1]) <==> IsSpace(s[|s| - 1])
    decreases |s|
  {
    var r := Collapse(s);
    if IsSpace(s[0]) {
      var t := TrimLeft(s);
      if t != [] {
        CollapseLast(t);
        assert t[|t| - 1] == s[|s| - 1];
        assert r[|r| - 1] == Collapse(t)[|Collapse(t)| - 1];
      } else {
        TrimLeftAllSpace(s);
      }
    } else if |s| > 1 {
      CollapseLast(s[1..]);
      assert r[|r| - 1] == Collapse(s[1..])[|Collapse(s[1..])| - 1];
    }
  }

  /** After collapsing, every whitespace character is a lone plain space. */
  lemma {:induction false} CollapseCollapses(s: string)
    ensures SpacesCollapsed(Collapse(s))
    decreases |s|
  {
    var r := Collapse(s);
    if s == [] {
    } else if IsSpace(s[0]) {
      var t := TrimLeft(s);
      if t != [] {
        CollapseCollapses(t);
        CollapseFirst(t);
        var c := Collapse(t);
        assert r == " " + c;
        forall i | 0 <= i < |r| && IsSpace(r[i])
          ensures r[i] == ' ' && (i + 1 < |r| ==> !IsSpace(r[i + 1]))
        {
          if i > 0 { assert r[i] == c[i - 1]; }
        }
      }
    } else {
      CollapseCollapses(s[1..]);
      var c := Collapse(s[1..]);
      assert r == [s[0]] + c;
      forall i | 0 <= i < |r| && IsSpace(r[i])
        ensures r[i] == ' ' && (i + 1 < |r| ==> !IsSpace(r[i + 1]))
      {
        assert i > 0;
        assert r[i] == c[i - 1];
      }
    }
  }

  /** Collapsing introduces no non-ASCII character. */
  lemma {:induction false} CollapseAscii(s: string)
    requires IsAsciiString(s)
    ensures IsAsciiString(Collapse(s))
    decreases |s|
  {
    var r := Collapse(s);
    if s == [] {
    } else if IsSpace(s[0]) {
      var t := TrimLeft(s);
      if t != [] {
        forall i | 0 <= i < |t| ensures IsAscii(t[i]) {
          assert t[i] == s[|s| - |t| + i];
        }
        CollapseAscii(t);
        var c := Collapse(t);
        forall i | 0 <= i < |r| ensures IsAscii(r[i]) {
          if i > 0 { assert r[i] == c[i - 1]; }
        }
      }
    } else {
      var t := s[1..];
      forall i | 0 <= i < |t| ensures IsAscii(t[i]) {
        assert t[i] == s[i + 1];
      }
      CollapseAscii(t);
      var c := Collapse(t);
      forall i | 0 <= i < |r| ensures IsAscii(r[i]) {
        if i > 0 { assert r[i] == c[i - 1]; }
      }
    }
  }

  /** Collapsing whitespace passes over a leading word unchanged. */
  lemma {:induction false} CollapseWord(w: string, x: string)
    requires HasNoSpace(w)
    ensures Collapse(w + x) == w + Collapse(x)
    decreases |w|
  {
    if w == [] {
      assert w + x == x;
    } else {
      ConsTail(w, x);
      CollapseWord(w[1..], x);
      assert w == [w[0]] + w[1..];
      Assoc([w[0]], w[1..], Collapse(x));
    }
  }

  lemma {:induction false} StripOfTrimmed(s: string)
    requires NoEdgeSpace(s)
    ensures Strip(s) == s
  {
    TrimLeftOfTrimmed(s);
    TrimRightOfTrimmed(s);
  }

  /** A string whose whitespace is already collapsed is left unchanged. */
  lemma {:induction false} CollapseOfCollapsed(s: string)
    requires SpacesCollapsed(s)
    ensures Collapse(s) == s
    decreases |s|
  {
    if s == [] {
    } else if IsSpace(s[0]) {
      assert s[0] == ' ';
      var t := TrimLeft(s);
      if |s| == 1 {
        assert t == [];
      } else {
        assert !IsSpace(s[1]);
        assert t == s[1..];
        assert SpacesCollapsed(s[1..]) by {
          forall i | 0 <= i < |s[1..]| && IsSpace(s[1..][i])
            ensures s[1..][i] == ' ' && (i + 1 < |s[1..]| ==> !IsSpace(s[1..][i + 1]))
          {
            assert s[1..][i] == s[i + 1];
          }
        }
        CollapseOfCollapsed(s[1..]);
      }
    } else {
      assert SpacesCollapsed(s[1..]) by {
        forall i | 0 <= i < |s[1..]| && IsSpace(s[1..][i])
          ensures s[1..][i] == ' ' && (i + 1 < |s[1..]| ==> !IsSpace(s[1..][i + 1]))
        {
          assert s[1..][i] == s[i + 1];
        }
      }
      CollapseOfCollapsed(s[1..]);
    }
  }

  lemma {:induction false} StripAll(s: string)
    ensures NoEdgeSpace(Strip(s))
    ensures |Strip(s)| <= |s|
  {
    var t := TrimLeft(s);
    var r := TrimRight(t);
    if |r| > 0 {
      assert r[0] == t[0];
    }
  }

  /** `s.strip()` is empty exactly when `s` is made only of whitespace. */
  lemma StripEmptyIff(s: string)
    ensures Strip(s) == [] <==> AllSpace(s)
  {
    TrimLeftAllSpace(s);
  }

  /** Python's `strip` is idempotent. */
  lemma {:induction false} StripIdempotent(s: string)
    ensures Strip(Strip(s)) == Strip(s)
  {
    StripAll(s);
    StripOfTrimmed(Strip(s));
  }

  lemma SliceAscii(s: string, i: nat, j: nat)
    requires IsAsciiString(s) && i <= j <= |s|
    ensures IsAsciiString(s[i..j])
  {
    forall k | 0 <= k < j - i ensures IsAscii(s[i..j][k]) {
      assert s[i..j][k] == s[i + k];
    }
  }

  /** Stripping an ASCII string leaves an ASCII string. */
  lemma {:induction false} StripAscii(s: string)
    requires IsAsciiString(s)
    ensures IsAsciiString(Strip(s))
  {
    var t := TrimLeft(s);
    SliceAscii(s, |s| - |t|, |s|);
    assert t == s[|s| - |t|..|s|];
    var r := TrimRight(t);
    SliceAscii(t, 0, |r|);
    assert r == t[0..|r|];
  }

  /** One step of `split`: a string that starts with a non-space character
      splits into its first word followed by the words of what remains. */
  lemma WordsStep(t: string)
    requires t != [] && !IsSpace(t[0])
    ensures Words(t) == [WordPrefix(t)] + Words(t[|WordPrefix(t)|..])
  {
    TrimLeftOfTrimmed(t);
  }

  /** Leading whitespace does not change the words. */
  lemma WordsTrimLeft(s: string)
    ensures Words(s) == Words(TrimLeft(s))
  {
    var t := TrimLeft(s);
    if t != [] {
      TrimLeftOfTrimmed(t);
    }
  }

  /** The remainder after a word, when it holds another word, trims to a
      space followed by the trimmed remainder's own core. */
  lemma {:induction false} TrimRightAfterWord(rest: string)
    requires rest != [] && IsSpace(rest[0]) && !AllSpace(rest)
    ensures TrimRight(rest) == [rest[0]] + TrimRight(rest[1..])
    ensures TrimLeft(rest) == TrimLeft(rest[1..])
    ensures TrimLeft(TrimRight(rest)) == TrimRight(TrimLeft(rest))
  {
    assert rest == [rest[0]] + rest[1..];
    assert !AllSpace(rest[1..]);
    TrimRightConcat([rest[0]], rest[1..]);
    TrimsCommute(rest);
  }

  /** Joining a word in front of a non-empty list of words inserts one space. */
  lemma JoinSpaceCons(w: string, ws: seq<string>)
    requires |ws| > 0
    ensures JoinSpace([w] + ws) == w + " " + JoinSpace(ws)
  {
    assert ([w] + ws)[1..] == ws;
  }

  /** A leading whitespace run that is followed by more text collapses to
      one space. */
  lemma CollapseLeadingSpace(x: string)
    requires x != [] && IsSpace(x[0]) && TrimLeft(x) != []
    ensures Collapse(x) == " " + Collapse(TrimLeft(x))
  {
  }

  /** The words of a string whose second word starts after a whitespace run. */
  lemma {:induction false} WordsAfterFirst(t: string)
    requires t != [] && !IsSpace(t[0])
    requires !AllSpace(t[|WordPrefix(t)|..])
    ensures Words(t) == [WordPrefix(t)] + Words(TrimLeft(t[|WordPrefix(t)|..]))
    ensures |Words(TrimLeft(t[|WordPrefix(t)|..]))| > 0
  {
    var rest := t[|WordPrefix(t)|..];
    WordsStep(t);
    WordsTrimLeft(rest);
    TrimLeftAllSpace(rest);
    var rest' := TrimLeft(rest);
    TrimLeftOfTrimmed(rest');
  }

  /** The inductive step of `WordsJoinTrimmed`, with the claim for the
      remainder after the first word taken as given. */
  lemma {:induction false} WordsJoinStep(t: string)
    requires t != [] && !IsSpace(t[0])
    requires !AllSpace(t[|WordPrefix(t)|..])
    requires JoinSpace(Words(TrimLeft(t[|WordPrefix(t)|..])))
          == Collapse(TrimRight(TrimLeft(t[|WordPrefix(t)|..])))
    ensures JoinSpace(Words(t)) == Collapse(TrimRight(t))
  {
    JoinSide(t);
    CollapseSide(t);
  }

  /** Joining: the first word, a space, then the rest joined. */
  lemma {:induction false} JoinSide(t: string)
    requires t != [] && !IsSpace(t[0])
    requires !AllSpace(t[|WordPrefix(t)|..])
    ensures JoinSpace(Words(t))
         == WordPrefix(t) + " " + JoinSpace(Words(TrimLeft(t[|WordPrefix(t)|..])))
  {
    var w := WordPrefix(t);
    WordsAfterFirst(t);
    JoinSpaceCons(w, Words(TrimLeft(t[|w|..])));
  }

  /** Collapsing: the first word, a space, then the rest collapsed. */
  lemma {:induction false} CollapseSide(t: string)
    requires t != [] && !IsSpace(t[0])
    requires !AllSpace(t[|WordPrefix(t)|..])
    ensures Collapse(TrimRight(t))
         == WordPrefix(t) + " " + Collapse(TrimRight(TrimLeft(t[|WordPrefix(t)|..])))
  {
    var w := WordPrefix(t);
    var rest := t[|w|..];
    var c := Collapse(TrimRight(TrimLeft(rest)));
    var x := TrimRight(rest);
    assert t == w + rest;
    TrimRightConcat(w, rest);
    CollapseWord(w, x);
    LeadingSpaceCollapse(rest);
    Assoc(w, " ", c);
  }

  /** After a word, a remainder that starts with whitespace and holds more
      text collapses, trimmed at the end, to a space and the collapsed
      trimmed text that follows. */
  lemma {:induction false} LeadingSpaceCollapse(rest: string)
    requires rest != [] && IsSpace(rest[0]) && !AllSpace(rest)
    ensures Collapse(TrimRight(rest)) == " " + Collapse(TrimRight(TrimLeft(rest)))
  {
    var x := TrimRight(rest);
    var rest' := TrimLeft(rest);
    TrimRightAfterWord(rest);
    TrimLeftAllSpace(rest);
    assert rest' != [] && !IsSpace(rest'[0]);
    assert TrimRight(rest') != [];
    assert x[0] == rest[0];
    CollapseLeadingSpace(x);
  }

  /** Joining the words of a string without leading whitespace with single
      spaces is the same as collapsing its whitespace and trimming the end. */
  lemma {:induction false} WordsJoinTrimmed(t: string)
    requires t == [] || !IsSpace(t[0])
    ensures JoinSpace(Words(t)) == Collapse(TrimRight(t))
    decreases |t|
  {
    if t != [] {
      var w := WordPrefix(t);
      var rest := t[|w|..];
      if AllSpace(rest) {
        assert t == w + rest;
        WordsStep(t);
        WordsTrimLeft(rest);
        TrimLeftAllSpace(rest);
        TrimRightWordThenSpace(w, rest);
        CollapseWord(w, []);
        assert w + [] == w;
      } else {
        var rest' := TrimLeft(rest);
        TrimLeftOfTrimmed(rest');
        WordsJoinTrimmed(rest');
        WordsJoinStep(t);
      }
    }
  }

  /** `" ".join(s.split())` equals `re.sub(r"\s+", " ", s.strip())`. */
  lemma {:induction false} WordsJoinIsCollapseStrip(s: string)
    ensures JoinSpace(Words(s)) == Collapse(Strip(s))
  {
    var t := TrimLeft(s);
    TrimLeftOfTrimmed(t);
    assert Words(s) == Words(t);
    WordsJoinTrimmed(t);
  }

  lemma {:induction false} UpperTrimLeft(s: string)
    ensures Upper(TrimLeft(s)) == TrimLeft(Upper(s))
    decreases |s|
  {
    if s != [] && IsSpace(s[0]) {
      assert Upper(s)[1..] == Upper(s[1..]);
      UpperTrimLeft(s[1..]);
    }
  }

  lemma {:induction false} UpperTrimRight(s: string)
    ensures Upper(TrimRight(s)) == TrimRight(Upper(s))
    decreases |s|
  {
    if s != [] && IsSpace(s[|s| - 1]) {
      assert Upper(s)[..|s| - 1] == Upper(s[..|s| - 1]);
      UpperTrimRight(s[..|s| - 1]);
    }
  }

  lemma UpperConcat(a: string, b: string)
    ensures Upper(a + b) == Upper(a) + Upper(b)
  {
  }

  lemma {:induction false} UpperCollapse(s: string)
    ensures Upper(Collapse(s)) == Collapse(Upper(s))
    decreases |s|
  {
    if s != [] {
      if IsSpace(s[0]) {
        if TrimLeft(s) != [] {
          UpperCollapse(TrimLeft(s));
        }
        UpperCollapseSpace(s);
      } else {
        UpperCollapse(s[1..]);
        UpperCollapseChar(s);
      }
    }
  }

  /** One step of `UpperCollapse` over a leading run of whitespace. */
  lemma UpperCollapseSpace(s: string)
    requires s != [] && IsSpace(s[0])
    requires TrimLeft(s) != [] ==> Upper(Collapse(TrimLeft(s))) == Collapse(Upper(TrimLeft(s)))
    ensures Upper(Collapse(s)) == Collapse(Upper(s))
  {
    var u := Upper(s);
    assert IsSpace(u[0]);
    var t := TrimLeft(s);
    UpperTrimLeft(s);
    if t == [] {
      assert TrimLeft(u) == [];
      assert Collapse(u) == " ";
    } else {
      UpperConcat(" ", Collapse(t));
      assert Collapse(u) == " " + Collapse(TrimLeft(u));
    }
  }

  /** One step of `UpperCollapse` over a leading non-space character. */
  lemma UpperCollapseChar(s: string)
    requires s != [] && !IsSpace(s[0])
    requires Upper(Collapse(s[1..])) == Collapse(Upper(s[1..]))
    ensures Upper(Collapse(s)) == Collapse(Upper(s))
  {
    var u := Upper(s);
    assert !IsSpace(u[0]);
    assert u[1..] == Upper(s[1..]);
    UpperConcat([s[0]], Collapse(s[1..]));
    assert Collapse(u) == [u[0]] + Collapse(u[1..]);
  }

  lemma {:induction false} UpperStrip(s: string)
    ensures Upper(Strip(s)) == Strip(Upper(s))
  {
    UpperTrimLeft(s);
    UpperTrimRight(TrimLeft(s));
  }

  lemma UpperIdempotent(s: string)
    ensures Upper(Upper(s)) == Upper(s)
  {
  }

  lemma LowerIdempotent(s: string)
    ensures Lower(Lower(s)) == Lower(s)
  {
  }

  /** A string without separators is split into itself. */
  lemma {:induction false} SplitOnNoSeparator(s: string, isSep: char -> bool)
    requires forall i :: 0 <= i < |s| ==> !isSep(s[i])
    ensures SplitOn(s, isSep) == [s]
  {
    if s != [] {
      SplitOnNoSeparator(s[1..], isSep);
      assert [s[0]] + s[1..] == s;
    }
  }

  /** Decimal rendering is one-to-one. */
  lemma {:induction false} NatToStringInjective(a: nat, b: nat)
    requires NatToString(a) == NatToString(b)
    ensures a == b
    decreases a
  {
    var sa, sb := NatToString(a), NatToString(b);
    if a < 10 && b < 10 {
      assert sa[0] == DigitChar(a) && sb[0] == DigitChar(b);
    } else if a >= 10 && b >= 10 {
      assert sa[|sa| - 1] == DigitChar(a % 10);
      assert sb[|sb| - 1] == DigitChar(b % 10);
      assert sa[..|sa| - 1] == NatToString(a / 10);
      assert sb[..|sb| - 1] == NatToString(b / 10);
      NatToStringInjective(a / 10, b / 10);
    }
  }

  /** Reading back the rendered digits gives the number: `int(str(n)) == n`. */
  lemma {:induction false} DecimalValueOfNatToString(n: nat)
    ensures DecimalValue(NatToString(n)) == n
    decreases n
  {
    var s := NatToString(n);
    if n >= 10 {
      assert s[..|s| - 1] == NatToString(n / 10);
      DecimalValueOfNatToString(n / 10);
    }
  }

  /** `Digits` keeps exactly the digit characters: it distributes over
      concatenation. */
  lemma {:induction false} DigitsConcat(a: string, b: string)
    ensures Digits(a + b) == Digits(a) + Digits(b)
    decreases |a|
  {
    if a == [] {
      assert a + b == b;
    } else {
      assert (a + b)[1..] == a[1..] + b;
      DigitsConcat(a[1..], b);
    }
  }

  /** A string of digits is its own digit filter, so `Digits` is idempotent. */
  lemma {:induction false} DigitsOfDigits(s: string)
    requires forall i :: 0 <= i < |s| ==> IsDigit(s[i])
    ensures Digits(s) == s
  {
    if s != [] {
      DigitsOfDigits(s[1..]);
      assert [s[0]] + s[1..] == s;
    }
  }

  /** For strings of ASCII characters the byte length is the character count. */
  lemma {:induction false} Utf8LengthAscii(s: string)
    requires IsAsciiString(s)
    ensures Utf8Length(s) == |s|
  {
    if s != [] {
      Utf8LengthAscii(s[1..]);
    }
  }
}
