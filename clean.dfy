/** Name normalisation shared by the pipeline (src/utils/clean.py):
    transliterate to ASCII, strip, collapse whitespace runs to one space,
    upper-case. The transliteration library is a parameter. */
module Clean {
  import opened Wrappers
  import opened Text

  /** What the pipeline relies on from `unidecode`: its output is ASCII and
      ASCII text passes through unchanged. */
  ghost predicate Unidecode(translit: string -> string) {
    forall s :: IsAsciiString(translit(s)) && (IsAsciiString(s) ==> translit(s) == s)
  }

  /** `normalize_name(name)`; a missing name gives the empty string. */
  function NormalizeName(name: Option<string>, translit: string -> string): string {
    match name
    case None => ""
    case Some(s) => Upper(Collapse(Strip(translit(s))))
  }

  /** The shape every normalised name has. */
  predicate Normalised(r: string) {
    NoEdgeSpace(r) && SpacesCollapsed(r) && NoLowerCase(r)
  }

  // ---------------------------------------------------------------------
  // Lemmas
  // ---------------------------------------------------------------------

  /** Collapsing keeps a string free of edge whitespace. */
  lemma CollapseNoEdgeSpace(s: string)
    requires NoEdgeSpace(s)
    ensures NoEdgeSpace(Collapse(s))
  {
    if |s| > 0 {
      CollapseFirst(s);
      CollapseLast(s);
    }
  }

  /** Upper-casing changes no whitespace, so it keeps both the edges and the
      single-space runs as they are. */
  lemma UpperKeepsSpacing(s: string)
    requires NoEdgeSpace(s) && SpacesCollapsed(s)
    ensures NoEdgeSpace(Upper(s)) && SpacesCollapsed(Upper(s))
  {
  }

  /** Upper-casing keeps a string ASCII. */
  lemma UpperAscii(s: string)
    requires IsAsciiString(s)
    ensures IsAsciiString(Upper(s))
  {
  }

  /** The pipeline of `normalize_name` after transliteration produces a
      normalised string, and an ASCII one from ASCII input. */
  lemma NormalizeTextShape(t: string)
    ensures Normalised(Upper(Collapse(Strip(t))))
    ensures IsAsciiString(t) ==> IsAsciiString(Upper(Collapse(Strip(t))))
  {
    var st := Strip(t);
    StripAll(t);
    CollapseNoEdgeSpace(st);
    CollapseCollapses(st);
    var c := Collapse(st);
    UpperKeepsSpacing(c);
    if IsAsciiString(t) {
      StripAscii(t);
      CollapseAscii(st);
      UpperAscii(c);
    }
  }

  /** A normalised name has no surrounding whitespace, only single spaces
      between words, and no lower-case letter; after a transliteration into
      ASCII it is ASCII. */
  lemma NormalizeNameShape(name: Option<string>, translit: string -> string)
    ensures Normalised(NormalizeName(name, translit))
    ensures Unidecode(translit) ==> IsAsciiString(NormalizeName(name, translit))
  {
    if name.Some? {
      NormalizeTextShape(translit(name.value));
    }
  }

  /** The result is empty exactly for a missing name or one whose
      transliteration is only whitespace. */
  lemma NormalizeNameEmptyIff(name: Option<string>, translit: string -> string)
    ensures NormalizeName(name, translit) == "" <==> name.None? || AllSpace(translit(name.value))
  {
    if name.Some? {
      var t := translit(name.value);
      StripEmptyIff(t);
      if Strip(t) != [] {
        CollapseFirst(Strip(t));
      }
    }
  }

  /** Normalising an already normalised ASCII string changes nothing. */
  lemma NormalizeTextOfNormalised(r: string)
    requires Normalised(r)
    ensures Upper(Collapse(Strip(r))) == r
  {
    StripOfTrimmed(r);
    CollapseOfCollapsed(r);
  }

  /** Normalising a normalised name changes nothing. */
  lemma NormalizeNameIdempotent(name: Option<string>, translit: string -> string)
    requires Unidecode(translit)
    ensures NormalizeName(Some(NormalizeName(name, translit)), translit) == NormalizeName(name, translit)
  {
    var r := NormalizeName(name, translit);
    NormalizeNameShape(name, translit);
    assert translit(r) == r;
    NormalizeTextOfNormalised(r);
  }

  /** Names that differ only in case of ASCII letters, in surrounding
      whitespace or in the kind and length of whitespace runs normalise
      alike: the result depends only on the upper-cased, collapsed, stripped
      transliteration. */
  lemma NormalizeNameCaseInsensitive(a: string, translit: string -> string)
    ensures NormalizeName(Some(a), translit) == Collapse(Strip(Upper(translit(a))))
  {
    UpperCollapse(Strip(translit(a)));
    UpperStrip(translit(a));
  }
}
