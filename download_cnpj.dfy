/** The pure helpers of the CNPJ downloader (src/cnpj/download_cnpj.py).
    Prefix normalisation, the natural sort key of file names, the prefix
    filter of `list_files`, and the truncation and skip rules of
    `download_many`. The page listing is given as the list of `.zip` links
    found on it. Whether a destination file exists, and its size, is a
    parameter. */
module DownloadCnpj {
  import opened Seqs
  import opened Wrappers
  import opened Text
  import opened Order
  import opened Relational

  // ---------------------------------------------------------------------
  // Prefix normalisation
  // ---------------------------------------------------------------------

  /** The argument of `_normalize_prefixes`: `None`, a single string, or an
      iterable of strings. */
  datatype PrefixArg = NoPrefix | Single(text: string) | Many(items: seq<string>)

  /** The separator class `[;,]`. */
  predicate IsSeparator(c: char) {
    c == ';' || c == ','
  }

  /** A token that asks for every file. */
  predicate IsAllToken(t: string) {
    t == "all" || t == "todos" || t == "*"
  }

  /** An empty item is skipped. Otherwise the item contributes its pieces
      between separators. */
  function ItemParts(item: string): seq<string> {
    if item == [] then [] else SplitOn(item, IsSeparator)
  }

  /** The pieces of an iterable argument, item after item. */
  function SplitItems(items: seq<string>): seq<string> {
    if items == [] then []
    else SplitItems(items[..|items| - 1]) + ItemParts(items[|items| - 1])
  }

  /** The pieces before any cleaning (`raw_parts`). */
  function RawParts(p: PrefixArg): seq<string> {
    match p
    case NoPrefix => []
    case Single(s) => SplitOn(s, IsSeparator)
    case Many(items) => SplitItems(items)
  }

  /** What a piece contributes: nothing when it is blank, else its stripped,
      lower-cased form. */
  function TokenOf(part: string): seq<string> {
    if Strip(part) == [] then [] else [Lower(Strip(part))]
  }

  /** The stripped, lower-cased non-blank pieces, in order (`cleaned`). */
  function Tokens(parts: seq<string>): seq<string> {
    if parts == [] then []
    else Tokens(parts[..|parts| - 1]) + TokenOf(parts[|parts| - 1])
  }

  /** No piece asks for every file. */
  predicate NoAllToken(parts: seq<string>) {
    forall i :: 0 <= i < |parts| ==> !IsAllToken(Lower(Strip(parts[i])))
  }

  /** The result of `_normalize_prefixes`: `None` means every file. */
  function Normalize(p: PrefixArg): Option<seq<string>> {
    if p.NoPrefix? then None else Cleaned(RawParts(p))
  }

  /** The pieces of an iterable argument, gathered item by item. */
  method SplitAll(items: seq<string>) returns (raw: seq<string>)
    ensures raw == SplitItems(items)
  {
    raw := [];
    for i := 0 to |items|
      invariant raw == SplitItems(items[..i])
    {
      assert items[..i + 1][..i] == items[..i];
      if items[i] != [] {
        raw := raw + SplitOn(items[i], IsSeparator);
      }
    }
    assert items[..|items|] == items;
  }

  /** The cleaning loop: the tokens in order, or `None` as soon as one asks
      for every file, or when none is left. */
  function Cleaned(parts: seq<string>): Option<seq<string>> {
    if !NoAllToken(parts) || Tokens(parts) == [] then None else Some(Tokens(parts))
  }

  method CleanParts(raw: seq<string>) returns (r: Option<seq<string>>)
    ensures r == Cleaned(raw)
  {
    var cleaned: seq<string> := [];
    for k := 0 to |raw|
      invariant cleaned == Tokens(raw[..k])
      invariant NoAllToken(raw[..k])
    {
      var part := raw[k];
      if part != [] {
        var token := Strip(part);
        if token != [] {
          if IsAllToken(Lower(token)) {
            AllTokenFound(raw, k);
            return None;
          }
          cleaned := cleaned + [Lower(token)];
        }
      }
      CleanStep(raw, k);
    }
    assert raw[..|raw|] == raw;
    if cleaned == [] {
      return None;
    }
    return Some(cleaned);
  }

  lemma AllTokenFound(parts: seq<string>, k: nat)
    requires k < |parts| && IsAllToken(Lower(Strip(parts[k])))
    ensures Cleaned(parts) == None
  {
  }

  lemma CleanStep(parts: seq<string>, k: nat)
    requires k < |parts| && NoAllToken(parts[..k])
    requires !IsAllToken(Lower(Strip(parts[k])))
    ensures Tokens(parts[..k + 1]) == Tokens(parts[..k]) + TokenOf(parts[k])
    ensures NoAllToken(parts[..k + 1])
  {
    PrefixSnoc(parts, k);
    NoAllTokenSnoc(parts[..k], parts[k]);
    TokensSnoc(parts[..k], parts[k]);
  }

  lemma TokensSnoc(init: seq<string>, last: string)
    ensures Tokens(init + [last]) == Tokens(init) + TokenOf(last)
  {
    assert (init + [last])[..|init|] == init;
  }

  lemma NoAllTokenSnoc(init: seq<string>, last: string)
    requires NoAllToken(init) && !IsAllToken(Lower(Strip(last)))
    ensures NoAllToken(init + [last])
  {
    var q := init + [last];
    forall i | 0 <= i < |q| ensures !IsAllToken(Lower(Strip(q[i]))) {
      if i < |init| {
        assert q[i] == init[i];
      }
    }
  }

  /** `_normalize_prefixes`: splits, strips and lower-cases the pieces, gives
      up on filtering as soon as one piece asks for every file, and turns an
      empty result into `None`. */
  method NormalizePrefixes(prefixes: PrefixArg) returns (r: Option<seq<string>>)
    ensures r == Normalize(prefixes)
  {
    if prefixes.NoPrefix? {
      return None;
    }
    var raw: seq<string>;
    if prefixes.Single? {
      raw := SplitOn(prefixes.text, IsSeparator);
    } else {
      raw := SplitAll(prefixes.items);
    }
    r := CleanParts(raw);
  }

  /** What `download_many` passes on to `list_files`: the tuple it got back,
      or `None`. */
  function AsArg(n: Option<seq<string>>): PrefixArg {
    if n.None? then NoPrefix else Many(n.value)
  }

  /** A normalised prefix: non-empty, already stripped and lower-case, free
      of separators, and not a request for every file. */
  predicate IsNormalToken(t: string) {
    && t != []
    && Strip(t) == t
    && Lower(t) == t
    && (forall i :: 0 <= i < |t| ==> !IsSeparator(t[i]))
    && !IsAllToken(t)
  }

  lemma LowerKeepsEdges(s: string)
    requires NoEdgeSpace(s)
    ensures NoEdgeSpace(Lower(s))
  {
  }

  lemma LowerKeepsSeparators(s: string)
    requires forall i :: 0 <= i < |s| ==> !IsSeparator(s[i])
    ensures forall i :: 0 <= i < |Lower(s)| ==> !IsSeparator(Lower(s)[i])
  {
  }

  /** Stripping a separator-free string leaves it separator-free. */
  lemma StripNoSeparator(s: string)
    requires forall i :: 0 <= i < |s| ==> !IsSeparator(s[i])
    ensures forall i :: 0 <= i < |Strip(s)| ==> !IsSeparator(Strip(s)[i])
  {
    var t := TrimLeft(s);
    var r := TrimRight(t);
    forall i | 0 <= i < |r| ensures !IsSeparator(r[i]) {
      assert r[i] == t[i] == s[|s| - |t| + i];
    }
  }

  /** The token of a separator-free piece is a normalised prefix unless it
      asks for every file. */
  lemma TokenIsNormal(part: string)
    requires Strip(part) != []
    requires forall i :: 0 <= i < |part| ==> !IsSeparator(part[i])
    requires !IsAllToken(Lower(Strip(part)))
    ensures IsNormalToken(Lower(Strip(part)))
  {
    var s := Strip(part);
    StripAll(part);
    StripNoSeparator(part);
    LowerKeepsEdges(s);
    StripOfTrimmed(Lower(s));
    LowerIdempotent(s);
    LowerKeepsSeparators(s);
  }

  /** No piece of any part holds a separator. */
  predicate SeparatorFree(parts: seq<string>) {
    forall k, i :: 0 <= k < |parts| && 0 <= i < |parts[k]| ==> !IsSeparator(parts[k][i])
  }

  lemma {:induction false} SplitItemsNoSeparator(items: seq<string>)
    ensures SeparatorFree(SplitItems(items))
  {
    if items != [] {
      var init := items[..|items| - 1];
      SplitItemsNoSeparator(init);
      var a, b := SplitItems(init), ItemParts(items[|items| - 1]);
      assert SplitItems(items) == a + b;
      forall k, i | 0 <= k < |a + b| && 0 <= i < |(a + b)[k]| ensures !IsSeparator((a + b)[k][i]) {
        if k >= |a| {
          assert (a + b)[k] == b[k - |a|];
        }
      }
    }
  }

  lemma NoAllTokenInit(parts: seq<string>)
    requires parts != [] && NoAllToken(parts)
    ensures NoAllToken(parts[..|parts| - 1])
    ensures !IsAllToken(Lower(Strip(parts[|parts| - 1])))
  {
    var init := parts[..|parts| - 1];
    forall i | 0 <= i < |init| ensures !IsAllToken(Lower(Strip(init[i]))) {
      assert init[i] == parts[i];
    }
  }

  /** Every token of `ts` is a normalised prefix. */
  predicate AllNormal(ts: seq<string>) {
    forall k :: 0 <= k < |ts| ==> IsNormalToken(ts[k])
  }

  lemma AllNormalConcat(a: seq<string>, b: seq<string>)
    requires AllNormal(a) && AllNormal(b)
    ensures AllNormal(a + b)
  {
    forall k | 0 <= k < |a + b| ensures IsNormalToken((a + b)[k]) {
      if k >= |a| {
        assert (a + b)[k] == b[k - |a|];
      } else {
        assert (a + b)[k] == a[k];
      }
    }
  }

  lemma {:induction false} TokensNormal(parts: seq<string>)
    requires NoAllToken(parts) && SeparatorFree(parts)
    ensures AllNormal(Tokens(parts))
  {
    if parts != [] {
      var init := parts[..|parts| - 1];
      var last := parts[|parts| - 1];
      NoAllTokenInit(parts);
      SeparatorFreeInit(parts, last);
      TokensNormal(init);
      TokenOfSeparatorFree(last);
      AllNormalConcat(Tokens(init), TokenOf(last));
      assert Tokens(parts) == Tokens(init) + TokenOf(last);
    }
  }

  lemma TokenOfSeparatorFree(part: string)
    requires forall i :: 0 <= i < |part| ==> !IsSeparator(part[i])
    requires !IsAllToken(Lower(Strip(part)))
    ensures AllNormal(TokenOf(part))
  {
    if Strip(part) != [] {
      TokenIsNormal(part);
      AllNormalSingle(Lower(Strip(part)));
    }
  }

  lemma AllNormalSingle(t: string)
    requires IsNormalToken(t)
    ensures AllNormal([t])
  {
  }

  /** A non-`None` result of `_normalize_prefixes` is a non-empty list of
      normalised prefixes. */
  lemma NormalizeShape(p: PrefixArg)
    ensures Normalize(p).Some? ==> |Normalize(p).value| > 0
    ensures Normalize(p).Some? ==> forall k :: 0 <= k < |Normalize(p).value| ==> IsNormalToken(Normalize(p).value[k])
  {
    if Normalize(p).Some? {
      var parts := RawParts(p);
      if p.Many? {
        SplitItemsNoSeparator(p.items);
      }
      TokensNormal(parts);
    }
  }

  /** `None`, and any piece equal to all, todos or `*` after stripping and
      lower-casing, mean "every file". */
  lemma NormalizeAll(p: PrefixArg, i: nat)
    requires p.NoPrefix? || (i < |RawParts(p)| && IsAllToken(Lower(Strip(RawParts(p)[i]))))
    ensures Normalize(p) == None
  {
  }

  lemma SeparatorFreeInit(ts: seq<string>, last: string)
    requires ts != [] && SeparatorFree(ts) && last == ts[|ts| - 1]
    ensures SeparatorFree(ts[..|ts| - 1])
    ensures forall i :: 0 <= i < |last| ==> !IsSeparator(last[i])
  {
    var init := ts[..|ts| - 1];
    forall k, i | 0 <= k < |init| && 0 <= i < |init[k]| ensures !IsSeparator(init[k][i]) {
      assert init[k] == ts[k];
    }
  }

  lemma {:induction false} SplitItemsOfNormal(ts: seq<string>)
    requires forall k :: 0 <= k < |ts| ==> ts[k] != []
    requires SeparatorFree(ts)
    ensures SplitItems(ts) == ts
  {
    if ts != [] {
      var init := ts[..|ts| - 1];
      var last := ts[|ts| - 1];
      forall k | 0 <= k < |init| ensures init[k] != [] {
        assert init[k] == ts[k];
      }
      SeparatorFreeInit(ts, last);
      SplitItemsOfNormal(init);
      SplitOnNoSeparator(last, IsSeparator);
      assert ItemParts(last) == [last];
      assert SplitItems(ts) == SplitItems(init) + ItemParts(last);
      LastSplit(ts);
    }
  }

  lemma TokenOfNormal(t: string)
    requires IsNormalToken(t)
    ensures TokenOf(t) == [t]
  {
  }

  lemma {:induction false} TokensOfNormal(ts: seq<string>)
    requires forall k :: 0 <= k < |ts| ==> IsNormalToken(ts[k])
    ensures Tokens(ts) == ts
  {
    if ts != [] {
      var init := ts[..|ts| - 1];
      var last := ts[|ts| - 1];
      forall k | 0 <= k < |init| ensures IsNormalToken(init[k]) {
        assert init[k] == ts[k];
      }
      TokensOfNormal(init);
      TokenOfNormal(last);
      assert Tokens(ts) == Tokens(init) + TokenOf(last);
      LastSplit(ts);
    }
  }

  /** Normalising the output of `_normalize_prefixes` again changes nothing,
      so `download_many` and `list_files`, which both normalise, agree. */
  lemma NormalizeIdempotent(p: PrefixArg)
    ensures Normalize(AsArg(Normalize(p))) == Normalize(p)
  {
    NormalizeShape(p);
    var n := Normalize(p);
    if n.Some? {
      var ts := n.value;
      assert SeparatorFree(ts) by {
        forall k, i | 0 <= k < |ts| && 0 <= i < |ts[k]| ensures !IsSeparator(ts[k][i]) {
          assert IsNormalToken(ts[k]);
        }
      }
      SplitItemsOfNormal(ts);
      TokensOfNormal(ts);
      assert NoAllToken(ts);
    }
  }

  // ---------------------------------------------------------------------
  // Natural sort key
  // ---------------------------------------------------------------------

  /** One element of the key tuple: an `int` for a digit run, a lower-cased
      `str` otherwise. */
  datatype Piece = Num(n: nat) | Word(w: string)

  /** The length of the longest prefix of `s` whose characters are all
      digits, or all non-digits, like the first one. */
  function RunLength(s: string): (n: nat)
    requires s != []
    ensures 1 <= n <= |s|
    ensures forall i :: 0 <= i < n ==> (IsAsciiDigit(s[i]) <==> IsAsciiDigit(s[0]))
    ensures n < |s| ==> (IsAsciiDigit(s[n]) <==> !IsAsciiDigit(s[0]))
  {
    if |s| == 1 || (IsAsciiDigit(s[1]) <==> !IsAsciiDigit(s[0])) then 1 else 1 + RunLength(s[1..])
  }

  predicate IsDigitRun(r: string) {
    r != [] && IsAsciiDigit(r[0])
  }

  /** All characters are digits, or all are non-digits. */
  predicate Uniform(r: string) {
    forall i :: 0 <= i < |r| ==> (IsAsciiDigit(r[i]) <==> IsAsciiDigit(r[0]))
  }

  /** The maximal digit and non-digit runs of `s`, in order. */
  function Runs(s: string): (rs: seq<string>)
    ensures forall k :: 0 <= k < |rs| ==> rs[k] != [] && Uniform(rs[k])
    ensures s != [] <==> rs != []
    ensures s != [] ==> rs[0][0] == s[0]
    ensures forall k :: 0 <= k < |rs| - 1 ==> (IsDigitRun(rs[k]) <==> !IsDigitRun(rs[k + 1]))
    decreases |s|
  {
    if s == [] then []
    else
      var n := RunLength(s);
      var rest := Runs(s[n..]);
      assert rest != [] ==> rest[0][0] == s[n];
      [s[..n]] + rest
  }

  /** `re.split(r"(\d+)", s)`: the text between digit runs alternating with
      the runs themselves, so it starts and ends with a possibly empty
      non-digit piece. */
  function RegexSplit(s: string): seq<string> {
    var rs := Runs(s);
    (if rs == [] || IsDigitRun(rs[0]) then [""] else [])
    + rs
    + (if rs != [] && IsDigitRun(rs[|rs| - 1]) then [""] else [])
  }

  /** A piece of ASCII digits: what `\d+` matches and `int()` reads. */
  predicate IsDigitString(p: string) {
    p != [] && forall i :: 0 <= i < |p| ==> IsAsciiDigit(p[i])
  }

  /** `str.isdigit()` on a piece: non-empty, and every character a digit to
      Python, superscripts included. */
  predicate IsPyDigitString(p: string) {
    p != [] && forall i :: 0 <= i < |p| ==> IsDigit(p[i])
  }

  /** A piece that `str.isdigit()` accepts and `int()` rejects with
      `ValueError`: it has a superscript digit. */
  predicate RaisesValueError(p: string) {
    IsPyDigitString(p) && !IsDigitString(p)
  }

  /** Building the key of `name` raises `ValueError`: one of its runs is
      made of superscript digits only. */
  predicate KeyRaises(name: string) {
    exists k :: 0 <= k < |Runs(name)| && RaisesValueError(Runs(name)[k])
  }

  /** The key element of a piece that does not raise. */
  function ToPiece(p: string): Piece {
    if IsDigitString(p) then Num(DecimalValue(p)) else Word(Lower(p))
  }

  /** The key built from the pieces of a split, empty pieces skipped. */
  function KeyOfParts(parts: seq<string>): seq<Piece> {
    if parts == [] then []
    else
      var last := parts[|parts| - 1];
      KeyOfParts(parts[..|parts| - 1]) + (if last == [] then [] else [ToPiece(last)])
  }

  /** The natural sort key: one piece per maximal run. */
  function NaturalKey(name: string): (key: seq<Piece>)
    ensures |key| == |Runs(name)|
  {
    Map(Runs(name), ToPiece)
  }

  /** `_natural_key`: the key, or the `ValueError` that `int()` raises on a
      piece of superscript digits. */
  method NaturalKeyOf(name: string) returns (r: Result<seq<Piece>, ListError>)
    ensures r.Failure? <==> KeyRaises(name)
    ensures r.Failure? ==> r.error == KeyValueError
    ensures r.Success? ==> r.value == NaturalKey(name)
  {
    var parts := RegexSplit(name);
    var key := [];
    var i := 0;
    while i < |parts|
      invariant 0 <= i <= |parts|
      invariant key == KeyOfParts(parts[..i])
      invariant !SomeRaises(parts[..i])
    {
      KeyOfPartsStep(parts, i);
      SomeRaisesStep(parts, i);
      var part := parts[i];
      if part != [] {
        if IsPyDigitString(part) {
          if !IsDigitString(part) {
            SplitRaises(name);
            return Failure(KeyValueError);
          }
          PieceOfPart(part);
          key := key + [Num(DecimalValue(part))];
        } else {
          PieceOfPart(part);
          key := key + [Word(Lower(part))];
        }
      }
      i := i + 1;
    }
    assert parts[..|parts|] == parts;
    SplitRaises(name);
    KeyOfSplit(name);
    return Success(key);
  }

  /** One more part extends the key by that part's piece, if it has one. */
  lemma KeyOfPartsStep(parts: seq<string>, i: nat)
    requires i < |parts|
    ensures KeyOfParts(parts[..i + 1])
         == KeyOfParts(parts[..i]) + (if parts[i] == [] then [] else [ToPiece(parts[i])])
  {
    assert parts[..i + 1][..i] == parts[..i];
  }

  lemma {:induction false} KeyOfPartsConcat(a: seq<string>, b: seq<string>)
    ensures KeyOfParts(a + b) == KeyOfParts(a) + KeyOfParts(b)
    decreases |b|
  {
    if b != [] {
      assert (a + b)[..|a + b| - 1] == a + b[..|b| - 1];
      assert (a + b)[|a + b| - 1] == b[|b| - 1];
      KeyOfPartsConcat(a, b[..|b| - 1]);
      var last := b[|b| - 1];
      var x: seq<Piece> := if last == [] then [] else [ToPiece(last)];
      assert KeyOfParts(a + b) == KeyOfParts(a + b[..|b| - 1]) + x;
      assert KeyOfParts(b) == KeyOfParts(b[..|b| - 1]) + x;
    } else {
      assert a + b == a;
    }
  }

  lemma {:induction false} KeyOfRuns(rs: seq<string>)
    requires forall k :: 0 <= k < |rs| ==> rs[k] != []
    ensures KeyOfParts(rs) == Map(rs, ToPiece)
  {
    if rs != [] {
      var init := rs[..|rs| - 1];
      KeyOfRuns(init);
      MapSnoc(rs, ToPiece);
      assert rs[|rs| - 1] != [];
      assert KeyOfParts(rs) == KeyOfParts(init) + [ToPiece(rs[|rs| - 1])];
    }
  }

  lemma KeyOfPadding(pad: seq<string>)
    requires pad == [] || pad == [""]
    ensures KeyOfParts(pad) == []
  {
    if pad != [] {
      assert pad[..0] == [];
    }
  }

  lemma KeyOfPadded(head: seq<string>, rs: seq<string>, tail: seq<string>)
    requires head == [] || head == [""]
    requires tail == [] || tail == [""]
    requires forall k :: 0 <= k < |rs| ==> rs[k] != []
    ensures KeyOfParts(head + rs + tail) == Map(rs, ToPiece)
  {
    KeyOfPadding(head);
    KeyOfPadding(tail);
    KeyOfPartsConcat(head + rs, tail);
    KeyOfPartsConcat(head, rs);
    KeyOfRuns(rs);
  }

  /** Skipping the empty pieces of the split leaves the runs. */
  lemma KeyOfSplit(name: string)
    ensures KeyOfParts(RegexSplit(name)) == NaturalKey(name)
  {
    var rs := Runs(name);
    var head: seq<string> := if rs == [] || IsDigitRun(rs[0]) then [""] else [];
    var tail: seq<string> := if rs != [] && IsDigitRun(rs[|rs| - 1]) then [""] else [];
    assert RegexSplit(name) == head + rs + tail;
    KeyOfPadded(head, rs, tail);
  }

  /** A piece that does not raise: `str.isdigit()` picks the same branch
      as the key element, since digits `int()` reads are digits to
      `str.isdigit()` too. */
  lemma PieceOfPart(p: string)
    requires p != [] && !RaisesValueError(p)
    ensures ToPiece(p) == if IsPyDigitString(p) then Num(DecimalValue(p)) else Word(Lower(p))
  {
  }

  /** Some piece of `parts` raises `ValueError`. */
  predicate SomeRaises(parts: seq<string>) {
    exists k :: 0 <= k < |parts| && RaisesValueError(parts[k])
  }

  lemma SomeRaisesStep(parts: seq<string>, i: nat)
    requires i < |parts|
    ensures SomeRaises(parts[..i + 1]) <==> SomeRaises(parts[..i]) || RaisesValueError(parts[i])
  {
    var p := parts[..i + 1];
    if SomeRaises(p) {
      var k :| 0 <= k < |p| && RaisesValueError(p[k]);
      if k < i {
        assert parts[..i][k] == p[k];
      }
    }
    if SomeRaises(parts[..i]) {
      var k :| 0 <= k < i && RaisesValueError(parts[..i][k]);
      assert p[k] == parts[..i][k];
    }
    assert p[i] == parts[i];
  }

  /** A piece of the split raises exactly when a run of the name does: the
      padding pieces are empty. */
  lemma SplitRaises(name: string)
    ensures SomeRaises(RegexSplit(name)) <==> KeyRaises(name)
  {
    var rs := Runs(name);
    var head: seq<string> := if rs == [] || IsDigitRun(rs[0]) then [""] else [];
    var tail: seq<string> := if rs != [] && IsDigitRun(rs[|rs| - 1]) then [""] else [];
    var parts := RegexSplit(name);
    assert parts == head + rs + tail;
    if SomeRaises(parts) {
      var k :| 0 <= k < |parts| && RaisesValueError(parts[k]);
      assert parts[k] != [];
      assert |head| <= k < |head| + |rs| && parts[k] == rs[k - |head|];
    }
    if KeyRaises(name) {
      var k :| 0 <= k < |rs| && RaisesValueError(rs[k]);
      assert parts[k + |head|] == rs[k];
    }
  }

  /** The runs of a name, put back together, are the name. */
  lemma {:induction false} RunsPartition(s: string)
    ensures Flatten(Runs(s)) == s
    decreases |s|
  {
    if s != [] {
      var n := RunLength(s);
      RunsPartition(s[n..]);
      FlattenCons(s[..n], Runs(s[n..]));
      SplitAt(s, n);
    }
  }

  lemma DigitRunIsNum(r: string)
    requires r != [] && Uniform(r)
    ensures ToPiece(r).Num? <==> IsDigitRun(r)
  {
  }

  /** Key pieces alternate between numbers and words. */
  predicate Alternating(key: seq<Piece>) {
    forall i :: 0 <= i < |key| - 1 ==> (key[i].Num? <==> !key[i + 1].Num?)
  }

  /** The key of a name drops no character, alternates between numbers and
      lower-cased words, and starts with a number exactly when the name
      starts with a digit. */
  lemma NaturalKeyShape(name: string)
    ensures Flatten(Runs(name)) == name
    ensures Alternating(NaturalKey(name))
    ensures forall i :: 0 <= i < |NaturalKey(name)| && NaturalKey(name)[i].Word? ==> NaturalKey(name)[i].w == Lower(Runs(name)[i])
    ensures name != [] ==> (NaturalKey(name)[0].Num? <==> IsAsciiDigit(name[0]))
  {
    RunsPartition(name);
    var rs := Runs(name);
    var key := NaturalKey(name);
    forall i | 0 <= i < |key| - 1 ensures key[i].Num? <==> !key[i + 1].Num? {
      DigitRunIsNum(rs[i]);
      DigitRunIsNum(rs[i + 1]);
    }
    if name != [] {
      DigitRunIsNum(rs[0]);
    }
  }

  // ---------------------------------------------------------------------
  // Comparing keys
  // ---------------------------------------------------------------------

  /** Python's `<` on two key elements; `None` is the `TypeError` raised when
      an `int` meets a `str`. */
  function PyPieceLess(a: Piece, b: Piece): Option<bool> {
    match (a, b)
    case (Num(x), Num(y)) => Some(x < y)
    case (Word(x), Word(y)) => Some(StrLess(x, y))
    case _ => None
  }

  /** Python's `<` on tuples: the first unequal elements decide, and a proper
      prefix is smaller. */
  function PyLess(a: seq<Piece>, b: seq<Piece>): Option<bool>
    decreases |a|
  {
    if a == [] then Some(b != [])
    else if b == [] then Some(false)
    else if a[0] == b[0] then PyLess(a[1..], b[1..])
    else PyPieceLess(a[0], b[0])
  }

  /** A total order on key elements that agrees with Python's wherever
      Python's is defined. */
  predicate PieceLess(a: Piece, b: Piece) {
    match (a, b)
    case (Num(x), Num(y)) => x < y
    case (Word(x), Word(y)) => StrLess(x, y)
    case (Num(_), Word(_)) => true
    case (Word(_), Num(_)) => false
  }

  /** Lexicographic order on keys. */
  predicate NaturalLess(a: seq<Piece>, b: seq<Piece>)
    decreases |a|
  {
    if a == [] then b != []
    else if b == [] then false
    else if a[0] == b[0] then NaturalLess(a[1..], b[1..])
    else PieceLess(a[0], b[0])
  }

  lemma PieceLessIrreflexive(a: Piece)
    ensures !PieceLess(a, a)
  {
    if a.Word? { StrLessIrreflexive(a.w); }
  }

  lemma PieceLessTransitive(a: Piece, b: Piece, c: Piece)
    requires PieceLess(a, b) && PieceLess(b, c)
    ensures PieceLess(a, c)
  {
    if a.Word? { StrLessTransitive(a.w, b.w, c.w); }
  }

  lemma {:induction false} NaturalLessIrreflexive(a: seq<Piece>)
    ensures !NaturalLess(a, a)
    decreases |a|
  {
    if a != [] { NaturalLessIrreflexive(a[1..]); }
  }

  lemma {:induction false} NaturalLessTransitive(a: seq<Piece>, b: seq<Piece>, c: seq<Piece>)
    requires NaturalLess(a, b) && NaturalLess(b, c)
    ensures NaturalLess(a, c)
    decreases |a|
  {
    if a != [] && c != [] {
      if a[0] == b[0] && b[0] == c[0] {
        NaturalLessTransitive(a[1..], b[1..], c[1..]);
      } else if a[0] != b[0] && b[0] != c[0] {
        PieceLessTransitive(a[0], b[0], c[0]);
        if a[0] == c[0] {
          PieceLessIrreflexive(a[0]);
        }
      }
    }
  }

  /** Lexicographic key order is irreflexive and transitive, which is what a
      sort by key needs. */
  lemma NaturalLessIsOrder()
    ensures forall a :: !NaturalLess(a, a)
    ensures forall a, b, c :: NaturalLess(a, b) && NaturalLess(b, c) ==> NaturalLess(a, c)
  {
    forall a ensures !NaturalLess(a, a) {
      NaturalLessIrreflexive(a);
    }
    forall a, b, c | NaturalLess(a, b) && NaturalLess(b, c) ensures NaturalLess(a, c) {
      NaturalLessTransitive(a, b, c);
    }
  }

  lemma {:induction false} PyLessAlternating(a: seq<Piece>, b: seq<Piece>)
    requires Alternating(a) && Alternating(b)
    ensures a != [] && b != [] && (a[0].Num? <==> b[0].Num?) ==> PyLess(a, b) == Some(NaturalLess(a, b))
    ensures a != [] && b != [] && (a[0].Num? <==> !b[0].Num?) ==> PyLess(a, b) == None
    ensures a == [] || b == [] ==> PyLess(a, b) == Some(NaturalLess(a, b))
    decreases |a|
  {
    if a != [] && b != [] && a[0] == b[0] {
      assert Alternating(a[1..]) by {
        forall i | 0 <= i < |a[1..]| - 1 ensures a[1..][i].Num? <==> !a[1..][i + 1].Num? {
          assert a[1..][i] == a[i + 1] && a[1..][i + 1] == a[i + 2];
        }
      }
      assert Alternating(b[1..]) by {
        forall i | 0 <= i < |b[1..]| - 1 ensures b[1..][i].Num? <==> !b[1..][i + 1].Num? {
          assert b[1..][i] == b[i + 1] && b[1..][i + 1] == b[i + 2];
        }
      }
      PyLessAlternating(a[1..], b[1..]);
      if |a| > 1 && |b| > 1 {
        assert a[1..][0] == a[1] && b[1..][0] == b[1];
      }
    }
  }

  /** Two names are comparable when Python's `<` on their keys does not
      raise. */
  predicate Comparable(x: string, y: string) {
    PyLess(NaturalKey(x), NaturalKey(y)).Some?
  }

  /** Comparing two keys raises `TypeError` exactly when one name starts with
      a digit and the other does not. Otherwise Python's `<` is the
      lexicographic key order. */
  lemma ComparableIff(x: string, y: string)
    ensures Comparable(x, y) <==> (x == [] || y == [] || (IsAsciiDigit(x[0]) <==> IsAsciiDigit(y[0])))
    ensures Comparable(x, y) ==> PyLess(NaturalKey(x), NaturalKey(y)) == Some(NaturalLess(NaturalKey(x), NaturalKey(y)))
  {
    NaturalKeyShape(x);
    NaturalKeyShape(y);
    PyLessAlternating(NaturalKey(x), NaturalKey(y));
  }

  lemma {:induction false} RunLengthOfUniform(w: string, rest: string)
    requires w != [] && Uniform(w)
    requires rest == [] || (IsAsciiDigit(rest[0]) <==> !IsAsciiDigit(w[0]))
    ensures RunLength(w + rest) == |w|
    decreases |w|
  {
    if |w| > 1 {
      assert Uniform(w[1..]) by {
        forall i | 0 <= i < |w[1..]| ensures IsAsciiDigit(w[1..][i]) <==> IsAsciiDigit(w[1..][0]) {
          assert w[1..][i] == w[i + 1];
        }
      }
      RunLengthOfUniform(w[1..], rest);
      assert (w + rest)[1..] == w[1..] + rest;
    }
  }

  /** A uniform run followed by a character of the other kind is the first
      run. */
  lemma RunsOfUniform(w: string, rest: string)
    requires w != [] && Uniform(w)
    requires rest == [] || (IsAsciiDigit(rest[0]) <==> !IsAsciiDigit(w[0]))
    ensures Runs(w + rest) == [w] + Runs(rest)
  {
    RunLengthOfUniform(w, rest);
    assert (w + rest)[..|w|] == w && (w + rest)[|w|..] == rest;
  }

  lemma KeyOfThreeRuns(name: string, a: string, b: string, c: string)
    requires Runs(name) == [a, b, c]
    ensures NaturalKey(name) == [ToPiece(a), ToPiece(b), ToPiece(c)]
  {
  }

  /** A number followed by a non-digit suffix splits into those two runs. */
  lemma RunsOfNumberSuffix(d: string, z: string)
    requires IsDigitString(d)
    requires z != [] && Uniform(z) && !IsAsciiDigit(z[0])
    ensures Runs(d + z) == [d, z]
  {
    RunsOfUniform(z, []);
    AppendEmpty(z);
    assert Uniform(d);
    RunsOfUniform(d, z);
  }

  /** A name made of a non-digit run, a number and a non-digit suffix splits
      into exactly those three runs. */
  lemma RunsOfNumbered(w: string, d: string, z: string)
    requires w != [] && Uniform(w) && !IsAsciiDigit(w[0])
    requires IsDigitString(d)
    requires z != [] && Uniform(z) && !IsAsciiDigit(z[0])
    ensures Runs(w + d + z) == [w, d, z]
  {
    RunsOfNumberSuffix(d, z);
    RunsOfUniform(w, d + z);
    Assoc(w, d, z);
  }

  /** The key of such a name is its word, its number and its suffix. */
  lemma NumberedKey(w: string, d: string, z: string)
    requires w != [] && Uniform(w) && !IsAsciiDigit(w[0])
    requires IsDigitString(d)
    requires z != [] && Uniform(z) && !IsAsciiDigit(z[0])
    ensures NaturalKey(w + d + z) == [Word(Lower(w)), Num(DecimalValue(d)), Word(Lower(z))]
  {
    RunsOfNumbered(w, d, z);
    KeyOfThreeRuns(w + d + z, w, d, z);
    assert !IsDigitString(w) && !IsDigitString(z);
  }

  /** Names that differ only in their number are ordered by the number, both
      in the key order and by Python's `<` on the keys, whatever the digits
      look like as text. */
  lemma NumberedOrder(w: string, d1: string, d2: string, z: string)
    requires w != [] && Uniform(w) && !IsAsciiDigit(w[0])
    requires IsDigitString(d1) && IsDigitString(d2)
    requires z != [] && Uniform(z) && !IsAsciiDigit(z[0])
    requires DecimalValue(d1) < DecimalValue(d2)
    ensures NaturalLess(NaturalKey(w + d1 + z), NaturalKey(w + d2 + z))
    ensures PyLess(NaturalKey(w + d1 + z), NaturalKey(w + d2 + z)) == Some(true)
  {
    NumberedKey(w, d1, z);
    NumberedKey(w, d2, z);
    var a := [Word(Lower(w)), Num(DecimalValue(d1)), Word(Lower(z))];
    var b := [Word(Lower(w)), Num(DecimalValue(d2)), Word(Lower(z))];
    assert a[1..] == [Num(DecimalValue(d1)), Word(Lower(z))];
    assert b[1..] == [Num(DecimalValue(d2)), Word(Lower(z))];
  }

  lemma SocioParts()
    ensures "Socios" + "2" + ".zip" == "Socios2.zip"
    ensures "Socios" + "10" + ".zip" == "Socios10.zip"
    ensures Uniform("Socios") && Uniform(".zip")
    ensures IsDigitString("2") && IsDigitString("10")
    ensures DecimalValue("2") < DecimalValue("10")
  {
    assert DecimalValue("10") == 10 by {
      assert "10"[..1] == "1";
    }
  }

  lemma {:induction false} StrLessCommonPrefix(p: string, a: string, b: string)
    requires StrLess(a, b)
    ensures StrLess(p + a, p + b)
    decreases |p|
  {
    if p == [] {
      assert p + a == a && p + b == b;
    } else {
      StrLessCommonPrefix(p[1..], a, b);
      ConsTail(p, a);
      ConsTail(p, b);
    }
  }

  /** In code-point order the same names are ordered by the first digit of
      their numbers. */
  lemma CodePointByFirstDigit(w: string, d1: string, d2: string, z: string)
    requires d1 != [] && d2 != [] && d1[0] < d2[0]
    ensures StrLess(w + d1 + z, w + d2 + z)
  {
    ConsTail(d1, z);
    ConsTail(d2, z);
    StrLessByHead(d1 + z, d2 + z);
    StrLessCommonPrefix(w, d1 + z, d2 + z);
    Assoc(w, d1, z);
    Assoc(w, d2, z);
  }

  lemma StrLessByHead(a: string, b: string)
    requires a != [] && b != [] && a[0] < b[0]
    ensures StrLess(a, b)
  {
  }

  /** "Socios2.zip" comes before "Socios10.zip" in natural order, although it
      comes after it in code-point order. */
  lemma NaturalOrderExample()
    ensures NaturalLess(NaturalKey("Socios2.zip"), NaturalKey("Socios10.zip"))
    ensures PyLess(NaturalKey("Socios2.zip"), NaturalKey("Socios10.zip")) == Some(true)
    ensures StrLess("Socios10.zip", "Socios2.zip")
  {
    SocioParts();
    NumberedOrder("Socios", "2", "10", ".zip");
    CodePointByFirstDigit("Socios", "10", "2", ".zip");
  }

  /** A run of superscript digits before a number makes the key raise:
      `\d` does not match it, `str.isdigit()` accepts it and `int()` does
      not read it. */
  lemma SuperscriptKeyRaises(d: string, z: string)
    requires IsDigitString(d)
    ensures KeyRaises("\U{b2}" + d + z)
  {
    var sup := "\U{b2}";
    SuperscriptRun();
    assert (d + z)[0] == d[0];
    RunsOfUniform(sup, d + z);
    Assoc(sup, d, z);
    var rs := Runs(sup + d + z);
    assert rs[0] == sup;
  }

  /** `²` alone is a run that `str.isdigit()` accepts and `int()` rejects. */
  lemma SuperscriptRun()
    ensures Uniform("\U{b2}") && !IsAsciiDigit("\U{b2}"[0])
    ensures RaisesValueError("\U{b2}")
  {
  }

  // ---------------------------------------------------------------------
  // Listing and downloading
  // ---------------------------------------------------------------------

  /** Why a listing cannot be produced: a key cannot be built (`ValueError`)
      or two keys cannot be compared (`TypeError`). */
  datatype ListError = KeyValueError | KeyTypeError

  /** Every two names of the listing have comparable keys. */
  predicate AllComparable(names: seq<string>) {
    forall x, y :: x in names && y in names ==> Comparable(x, y)
  }

  /** `any(f.lower().startswith(p) for p in prefixes)`. */
  predicate MatchesAny(f: string, prefixes: seq<string>) {
    exists i :: 0 <= i < |prefixes| && StartsWith(Lower(f), prefixes[i])
  }

  /** `list_files`. The set of linked `.zip` names is sorted by natural key.
      The sort computes every key first, which raises `ValueError` on a run
      of superscript digits, and then raises `TypeError` when two keys
      cannot be compared. Then, if prefixes remain after normalisation, only
      the names starting with one of them (ignoring case) are kept. */
  function ListFiles(links: seq<string>, prefix: PrefixArg): Result<seq<string>, ListError> {
    var distinct := SortUnique(links, StrLess);
    if exists x :: x in distinct && KeyRaises(x) then Failure(KeyValueError)
    else if !AllComparable(distinct) then Failure(KeyTypeError)
    else
      var files := SortBy(distinct, NaturalKey, NaturalLess);
      var normalized := Normalize(prefix);
      if normalized.Some? then Success(Filter(files, f => MatchesAny(f, normalized.value)))
      else Success(files)
  }

  /** Names in order, without repeats, in natural key order. */
  predicate Listed(a: string, b: string) {
    a != b && !NaturalLess(NaturalKey(b), NaturalKey(a))
  }

  predicate InListOrder(s: seq<string>) {
    forall i, j :: 0 <= i < j < |s| ==> Listed(s[i], s[j])
  }

  lemma {:induction false} FilterKeepsOrder(s: seq<string>, p: string -> bool)
    requires InListOrder(s)
    ensures InListOrder(Filter(s, p))
    decreases |s|
  {
    if s != [] {
      assert InListOrder(s[1..]) by {
        forall i, j | 0 <= i < j < |s[1..]| ensures Listed(s[1..][i], s[1..][j]) {
          assert s[1..][i] == s[i + 1] && s[1..][j] == s[j + 1];
        }
      }
      FilterKeepsOrder(s[1..], p);
      var rest := Filter(s[1..], p);
      forall j | 0 <= j < |rest| ensures Listed(s[0], rest[j]) {
        assert rest[j] in s[1..];
        var k :| 0 <= k < |s[1..]| && s[1..][k] == rest[j];
        assert s[k + 1] == rest[j];
      }
    }
  }

  lemma SortedListOrder(files: seq<string>)
    requires SortedBy(files, NaturalKey, NaturalLess) && Distinct(files)
    ensures InListOrder(files)
  {
  }

  /** A single link whose key raises makes the listing raise. */
  lemma SingleLinkRaises(x: string, prefix: PrefixArg)
    requires KeyRaises(x)
    ensures ListFiles([x], prefix) == Failure(KeyValueError)
  {
    ListFilesCorrect([x], prefix);
    assert x in [x];
  }

  /** A listing whose only link is `²1.zip` fails with `ValueError`. */
  lemma ListFilesValueErrorExample()
    ensures ListFiles(["\U{b2}1.zip"], NoPrefix) == Failure(KeyValueError)
  {
    SuperscriptName();
    SuperscriptKeyRaises("1", ".zip");
    SingleLinkRaises("\U{b2}1.zip", NoPrefix);
  }

  lemma SuperscriptName()
    ensures IsDigitString("1") && Uniform(".zip") && !IsAsciiDigit(".zip"[0])
    ensures "\U{b2}" + "1" + ".zip" == "\U{b2}1.zip"
  {
  }

  /** A successful listing holds each linked name that matches a prefix
      exactly once, in natural key order. It fails with `ValueError` exactly
      when a linked name has a run of superscript digits, and otherwise with
      `TypeError` exactly when two linked names have keys Python cannot
      compare. */
  lemma ListFilesCorrect(links: seq<string>, prefix: PrefixArg)
    ensures ListFiles(links, prefix) == Failure(KeyValueError) <==> exists x :: x in links && KeyRaises(x)
    ensures ListFiles(links, prefix) == Failure(KeyTypeError) <==>
      (forall x :: x in links ==> !KeyRaises(x)) && exists x, y :: x in links && y in links && !Comparable(x, y)
    ensures ListFiles(links, prefix).Success? ==> InListOrder(ListFiles(links, prefix).value)
    ensures ListFiles(links, prefix).Success? ==> forall f :: f in ListFiles(links, prefix).value <==>
      (f in links && (Normalize(prefix).None? || MatchesAny(f, Normalize(prefix).value)))
  {
    StrLessIsOrder();
    SortUniqueCorrect(links, StrLess);
    var distinct := SortUnique(links, StrLess);
    if (forall x :: x in distinct ==> !KeyRaises(x)) && AllComparable(distinct) {
      SortedFiles(distinct);
      var files := SortBy(distinct, NaturalKey, NaturalLess);
      var normalized := Normalize(prefix);
      if normalized.Some? {
        FilterKeepsOrder(files, f => MatchesAny(f, normalized.value));
      }
    }
  }

  /** Sorting the distinct linked names by natural key keeps every name once
      and puts them in listing order. */
  lemma SortedFiles(distinct: seq<string>)
    requires StrictlySorted(distinct, StrLess) && AllComparable(distinct)
    ensures InListOrder(SortBy(distinct, NaturalKey, NaturalLess))
    ensures forall f :: f in SortBy(distinct, NaturalKey, NaturalLess) <==> f in distinct
  {
    StrLessIsOrder();
    assert Distinct(distinct);
    NaturalLessIsOrder();
    SortByCorrect(distinct, NaturalKey, NaturalLess);
    var files := SortBy(distinct, NaturalKey, NaturalLess);
    SortedListOrder(files);
    forall f ensures f in files <==> f in distinct {
      assert f in files <==> f in multiset(files);
      assert f in distinct <==> f in multiset(distinct);
    }
  }

  /** Listing with the prefixes `download_many` normalised gives the same
      result as listing with the raw prefixes. */
  lemma ListFilesNormalized(links: seq<string>, prefix: PrefixArg)
    ensures ListFiles(links, AsArg(Normalize(prefix))) == ListFiles(links, prefix)
  {
    NormalizeIdempotent(prefix);
  }

  /** `files[:max_files]` when `max_files` is given and not negative. */
  function Truncate(files: seq<string>, maxFiles: Option<int>): (r: seq<string>)
    ensures maxFiles.None? || maxFiles.value < 0 ==> r == files
    ensures maxFiles.Some? && maxFiles.value >= 0 ==>
      |r| == (if maxFiles.value < |files| then maxFiles.value else |files|) && r == files[..|r|]
  {
    if maxFiles.Some? && maxFiles.value >= 0 then
      (if maxFiles.value < |files| then files[..maxFiles.value] else files)
    else files
  }

  /** The destination already holds a non-empty file. `size` is `None` when
      the destination does not exist. */
  predicate AlreadyThere(size: Option<nat>) {
    size.Some? && size.value > 0
  }

  /** The names actually fetched, in order: those without a non-empty file at
      their destination. */
  function Pending(files: seq<string>, destSize: string -> Option<nat>): seq<string> {
    if files == [] then []
    else
      var last := files[|files| - 1];
      Pending(files[..|files| - 1], destSize) + (if AlreadyThere(destSize(last)) then [] else [last])
  }

  /** The download loop of `download_many`: skips each name whose
      destination already holds data and fetches the others. */
  method FetchAll(files: seq<string>, destSize: string -> Option<nat>) returns (fetched: seq<string>)
    ensures fetched == Pending(files, destSize)
  {
    fetched := [];
    for i := 0 to |files|
      invariant fetched == Pending(files[..i], destSize)
    {
      assert files[..i + 1][..i] == files[..i];
      var name := files[i];
      if AlreadyThere(destSize(name)) {
        continue;
      }
      fetched := fetched + [name];
    }
    assert files[..|files|] == files;
  }

  /** `download_many`: normalises the prefixes, lists the matching names,
      keeps the first `max_files` of them when that is not negative, and
      fetches those not already present. */
  method DownloadMany(links: seq<string>, prefix: PrefixArg, maxFiles: Option<int>, destSize: string -> Option<nat>)
    returns (r: Result<seq<string>, ListError>)
    ensures r.Failure? <==> ListFiles(links, prefix).Failure?
    ensures r.Success? ==> r.value == Pending(Truncate(ListFiles(links, prefix).value, maxFiles), destSize)
  {
    var normalized := NormalizePrefixes(prefix);
    ListFilesNormalized(links, prefix);
    var listing := ListFiles(links, AsArg(normalized));
    if listing.Failure? {
      return Failure(listing.error);
    }
    var files := Truncate(listing.value, maxFiles);
    var fetched := FetchAll(files, destSize);
    return Success(fetched);
  }

  /** Exactly the listed names without a non-empty destination are fetched,
      in listing order. */
  lemma {:induction false} PendingCorrect(files: seq<string>, destSize: string -> Option<nat>)
    ensures |Pending(files, destSize)| <= |files|
    ensures forall f :: f in Pending(files, destSize) <==> f in files && !AlreadyThere(destSize(f))
  {
    if files != [] {
      var init := files[..|files| - 1];
      PendingCorrect(init, destSize);
      assert files == init + [files[|files| - 1]];
    }
  }

  /** With `max_files = n >= 0` at most the first `n` listed names are
      fetched, and none that is already present. */
  lemma DownloadBound(files: seq<string>, maxFiles: Option<int>, destSize: string -> Option<nat>)
    ensures maxFiles.Some? && maxFiles.value >= 0 ==> |Pending(Truncate(files, maxFiles), destSize)| <= maxFiles.value
    ensures forall f :: f in Pending(Truncate(files, maxFiles), destSize) ==> f in files && !AlreadyThere(destSize(f))
    ensures forall f :: f in files && !AlreadyThere(destSize(f)) && (maxFiles.None? || maxFiles.value < 0) ==> f in Pending(Truncate(files, maxFiles), destSize)
  {
    var t := Truncate(files, maxFiles);
    PendingCorrect(t, destSize);
    forall f | f in t ensures f in files {
      var k :| 0 <= k < |t| && t[k] == f;
      assert files[k] == f;
    }
  }
}
