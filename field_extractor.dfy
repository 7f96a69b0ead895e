/**
 * `extract_pdf_info`: the four fields read out of a charge filing's text. The
 * text is normalised first; each field is then found by an anchored regular
 * expression, modelled here as an explicit scan, and is absent (`None`) when
 * its expression does not match.
 */
module FieldExtractor {
  import opened Wrappers
  import opened Text
  import opened TextNormalizer
  import opened DateNormalizer

  /** The dictionary `extract_pdf_info` returns. */
  datatype ExtractedFields = ExtractedFields(
    companyName: Option<string>,
    briefDescription: Option<string>,
    monthInNum: Option<string>,
    personsEntitled: Option<string>)

  /** The start and end of a regex group in the text. */
  datatype Span = Span(start: nat, end: nat)

  const CompanyAnchor: string := "COMPANY NAME:"
  const CompanyTerminators: seq<string> := ["COMPANY NUMBER:"]

  const DescriptionAnchor: string := "BRIEF DESCRIPTION:"
  const DescriptionTerminators: seq<string> :=
    ["CONTAINS", "AUTHENTICATION OF FORM", "CERTIFIED BY:", "CERTIFICATION STATEMENT:"]

  /** The phrases the description is cut at once more, in this order. */
  const StopPhrases: seq<string> :=
    ["CONTAINS FIXED CHARGE", "CONTAINS NEGATIVE PLEDGE", "CONTAINS FLOATING CHARGE", "CONTAINS"]

  const DateAnchor: string := "DATE OF CREATION:"

  const EntitledAnchor: string := "PERSONS ENTITLED:"
  const EntitledTerminators: seq<string> :=
    ["CHARGE", "DATE OF CREATION", "BRIEF DESCRIPTION", "AUTHENTICATION", "CERTIFIED BY:", "CERTIFICATION STATEMENT:"]

  predicate NonEmptyPhrases(ps: seq<string>) {
    forall k :: 0 <= k < |ps| ==> ps[k] != []
  }

  // ---------------------------------------------------------------------
  // Anchored captures

  /** The bounds of the group of `re.search(ANCHOR + r'\s*(.*?)' + END, text)`,
      where END is a lookahead for, or a literal match of, one of `terms`
      (after `\s*`). The search begins at the leftmost anchor: when no
      terminator follows it, none follows a later anchor either. The lazy
      group ends at the earliest position where a terminator begins. The
      `\s*` on either side of the group only moves whitespace that `strip()`
      removes anyway, because every terminator begins with a letter. */
  function GroupBounds(text: string, anchor: string, terms: seq<string>): (r: Option<Span>)
    ensures r.Some? ==> r.value.start <= r.value.end <= |text|
    ensures r.Some? ==> forall h: nat :: r.value.start <= h < r.value.end ==> !OccursAnyAt(text, terms, h)
  {
    match Find(text, anchor, 0)
    case None => None
    case Some(i) =>
      match FindAny(text, terms, i + |anchor|)
      case None => None
      case Some(j) => Some(Span(i + |anchor|, j))
  }

  /** `re.search(...).group(1).strip()`, or `None` when the expression does not
      match. The regex's `.` does not cross a newline; the text scanned is
      normalised and has none. */
  function Capture(text: string, anchor: string, terms: seq<string>): Option<string>
    requires '\n' !in text
  {
    match GroupBounds(text, anchor, terms)
    case None => None
    case Some(Span(e, j)) => Some(Strip(text[e..j]))
  }

  /** A captured field is trimmed and contains none of the terminators: the
      lazy group stops at the earliest one. */
  lemma CaptureSound(text: string, anchor: string, terms: seq<string>)
    requires '\n' !in text
    requires NonEmptyPhrases(terms)
    ensures Capture(text, anchor, terms).Some? ==> Stripped(Capture(text, anchor, terms).value)
    ensures Capture(text, anchor, terms).Some? ==>
      forall k :: 0 <= k < |terms| ==> !Contains(Capture(text, anchor, terms).value, terms[k])
  {
    if GroupBounds(text, anchor, terms).Some? {
      var Span(e, j) := GroupBounds(text, anchor, terms).value;
      NoTerminatorBeforeFirst(text, terms, e, j);
    }
  }

  lemma NoTerminatorBeforeFirst(text: string, terms: seq<string>, e: nat, j: nat)
    requires NonEmptyPhrases(terms)
    requires e <= j <= |text|
    requires forall i: nat :: e <= i < j ==> !OccursAnyAt(text, terms, i)
    ensures forall k :: 0 <= k < |terms| ==> !Contains(Strip(text[e..j]), terms[k])
  {
    forall k | 0 <= k < |terms| ensures !Contains(Strip(text[e..j]), terms[k]) {
      forall i: nat | e <= i < j ensures !OccursAt(text, terms[k], i) {
        if OccursAt(text, terms[k], i) {
          assert OccursAnyAt(text, terms, i);
        }
      }
      NotContainsBeforeFirst(text, e, j, terms[k]);
    }
  }

  /** A field is present exactly when some anchor is followed, at or after its
      end, by a terminator. */
  lemma CapturePresent(text: string, anchor: string, terms: seq<string>)
    requires '\n' !in text
    requires NonEmptyPhrases(terms)
    ensures Capture(text, anchor, terms).Some? <==>
      exists i: nat, j: nat :: OccursAt(text, anchor, i) && i + |anchor| <= j && OccursAnyAt(text, terms, j)
  {
    if i: nat, j: nat :| OccursAt(text, anchor, i) && i + |anchor| <= j && OccursAnyAt(text, terms, j) {
      var first := Find(text, anchor, 0);
      assert first.Some?;
      assert first.value <= i;
      assert FindAny(text, terms, first.value + |anchor|).Some?;
    }
  }

  /** The captured text, characterised by occurrences alone: with the leftmost
      anchor at `i` and the earliest terminator after it at `j`, the field is
      the stripped text between them. */
  lemma CaptureBetween(text: string, anchor: string, terms: seq<string>, i: nat, j: nat)
    requires '\n' !in text
    requires NonEmptyPhrases(terms)
    requires OccursAt(text, anchor, i) && forall h: nat :: h < i ==> !OccursAt(text, anchor, h)
    requires i + |anchor| <= j && OccursAnyAt(text, terms, j)
    requires forall h: nat :: i + |anchor| <= h < j ==> !OccursAnyAt(text, terms, h)
    ensures Capture(text, anchor, terms) == Some(Strip(text[i + |anchor|..j]))
  {
    GroupBoundsBetween(text, anchor, terms, i, j);
    CaptureAt(text, anchor, terms, i, j);
  }

  lemma GroupBoundsBetween(text: string, anchor: string, terms: seq<string>, i: nat, j: nat)
    requires OccursAt(text, anchor, i) && forall h: nat :: h < i ==> !OccursAt(text, anchor, h)
    requires i + |anchor| <= j && OccursAnyAt(text, terms, j)
    requires forall h: nat :: i + |anchor| <= h < j ==> !OccursAnyAt(text, terms, h)
    ensures GroupBounds(text, anchor, terms).Some?
    ensures GroupBounds(text, anchor, terms).value.start == i + |anchor|
    ensures GroupBounds(text, anchor, terms).value.end == j
  {
    FindIsFirst(text, anchor, 0, i);
    FindAnyIsFirst(text, terms, i + |anchor|, j);
  }

  lemma CaptureAt(text: string, anchor: string, terms: seq<string>, i: nat, j: nat)
    requires '\n' !in text
    requires GroupBounds(text, anchor, terms).Some?
    requires GroupBounds(text, anchor, terms).value.start == i + |anchor|
    requires GroupBounds(text, anchor, terms).value.end == j
    ensures Capture(text, anchor, terms) == Some(Strip(text[i + |anchor|..j]))
  {
    var e := i + |anchor|;
    CaptureOfBounds(text, anchor, terms, e, j);
    assert Capture(text, anchor, terms).value == Strip(text[e..j]);
  }

  lemma CaptureOfBounds(text: string, anchor: string, terms: seq<string>, e: nat, j: nat)
    requires '\n' !in text
    requires GroupBounds(text, anchor, terms).Some?
    requires GroupBounds(text, anchor, terms).value.start == e
    requires GroupBounds(text, anchor, terms).value.end == j
    ensures Capture(text, anchor, terms).Some?
    ensures Capture(text, anchor, terms).value == Strip(text[e..j])
  {
  }

  /** A stripped slice of normalised text is itself normalised. */
  lemma CanonicalSlice(s: string, a: nat, b: nat)
    requires Canonical(s) && a <= b <= |s|
    requires Stripped(s[a..b])
    ensures Canonical(s[a..b])
  {
    var t := s[a..b];
    assert forall k :: 0 <= k < |t| ==> t[k] == s[a + k];
  }

  /** A captured field is a stretch of the normalised text: upper-case,
      single-spaced and trimmed. */
  lemma CaptureCanonical(text: string, anchor: string, terms: seq<string>)
    requires Canonical(text)
    requires NonEmptyPhrases(terms)
    ensures Capture(text, anchor, terms).Some? ==> Canonical(Capture(text, anchor, terms).value)
  {
    if GroupBounds(text, anchor, terms).Some? {
      var Span(e, j) := GroupBounds(text, anchor, terms).value;
      CaptureOfBounds(text, anchor, terms, e, j);
      StripSliceCanonical(text, e, j);
    }
  }

  lemma StripSliceCanonical(text: string, e: nat, j: nat)
    requires Canonical(text) && e <= j <= |text|
    ensures Canonical(Strip(text[e..j]))
  {
    var a, b := StripIsSlice(text[e..j]);
    SliceOfSlice(text, e, j, a, b);
    assert Strip(text[e..j]) == text[e + a..e + b];
    CanonicalSlice(text, e + a, e + b);
  }

  // ---------------------------------------------------------------------
  // The stop-phrase loop

  /** One step of the loop: `s.split(p)[0].strip()` when `p in s`. */
  function CutAt(s: string, p: string): (r: string)
    requires p != []
    ensures !Contains(r, p)
    ensures !Contains(s, p) ==> r == s
  {
    if Contains(s, p) then Strip(Before(s, p)) else s
  }

  /** With the first occurrence of `p` at `i`, the step leaves the stripped
      text before it. */
  lemma CutAtFirst(s: string, p: string, i: nat)
    requires p != []
    requires OccursAt(s, p, i) && forall h: nat :: h < i ==> !OccursAt(s, p, h)
    ensures CutAt(s, p) == Strip(s[..i])
  {
    assert Contains(s, p);
    BeforeFirst(s, p, i);
  }

  /** The stop-phrase loop as a function: each phrase, in order, cuts the text. */
  function CutAtAll(s: string, phrases: seq<string>): string
    requires NonEmptyPhrases(phrases)
    decreases |phrases|
  {
    if phrases == [] then s else CutAtAll(CutAt(s, phrases[0]), phrases[1..])
  }

  lemma StopPhrasesContainContains()
    ensures forall k :: 0 <= k < |StopPhrases| ==> Contains(StopPhrases[k], "CONTAINS")
  {
    forall k | 0 <= k < |StopPhrases| ensures Contains(StopPhrases[k], "CONTAINS") {
      assert OccursAt(StopPhrases[k], "CONTAINS", 0);
    }
  }

  /** A text without `"CONTAINS"` holds none of the stop phrases. */
  lemma NoStopPhraseWithoutContains(s: string)
    requires !Contains(s, "CONTAINS")
    ensures forall k :: 0 <= k < |StopPhrases| ==> !Contains(s, StopPhrases[k])
  {
    StopPhrasesContainContains();
    forall k | 0 <= k < |StopPhrases| ensures !Contains(s, StopPhrases[k]) {
      if Contains(s, StopPhrases[k]) {
        ContainsTransitive(s, StopPhrases[k], "CONTAINS");
      }
    }
  }

  /** What the loop guarantees: no `"CONTAINS"` is left, a trimmed text stays
      trimmed, and a text without `"CONTAINS"` is left as it is. */
  lemma {:induction false} CutAtAllSound(s: string, phrases: seq<string>)
    requires NonEmptyPhrases(phrases)
    requires forall k :: 0 <= k < |phrases| ==> Contains(phrases[k], "CONTAINS")
    requires phrases != [] && phrases[|phrases| - 1] == "CONTAINS"
    ensures !Contains(CutAtAll(s, phrases), "CONTAINS")
    ensures Stripped(s) ==> Stripped(CutAtAll(s, phrases))
    ensures !Contains(s, "CONTAINS") ==> CutAtAll(s, phrases) == s
    decreases |phrases|
  {
    var next := CutAt(s, phrases[0]);
    if !Contains(s, "CONTAINS") && Contains(s, phrases[0]) {
      ContainsTransitive(s, phrases[0], "CONTAINS");
    }
    if |phrases| == 1 {
      assert CutAtAll(s, phrases) == CutAtAll(next, []) == next;
    } else {
      CutAtAllSound(next, phrases[1..]);
    }
  }

  /** The `stop_phrases` loop of `extract_pdf_info`, reassigning the
      description once per phrase that occurs in it. */
  method CutAtStopPhrases(description: string) returns (trimmed: string)
    ensures trimmed == CutAtAll(description, StopPhrases)
    ensures forall k :: 0 <= k < |StopPhrases| ==> !Contains(trimmed, StopPhrases[k])
    ensures Stripped(description) ==> Stripped(trimmed)
    ensures !Contains(description, "CONTAINS") ==> trimmed == description
  {
    trimmed := description;
    for i := 0 to |StopPhrases|
      invariant CutAtAll(trimmed, StopPhrases[i..]) == CutAtAll(description, StopPhrases)
      invariant Stripped(description) ==> Stripped(trimmed)
      invariant !Contains(description, "CONTAINS") ==> trimmed == description
      invariant i == |StopPhrases| ==> !Contains(trimmed, "CONTAINS")
    {
      var phrase := StopPhrases[i];
      assert StopPhrases[i..][1..] == StopPhrases[i + 1..];
      if Contains(trimmed, phrase) {
        StopPhrasesContainContains();
        if !Contains(description, "CONTAINS") {
          ContainsTransitive(trimmed, phrase, "CONTAINS");
        }
        trimmed := Strip(Before(trimmed, phrase));
      }
    }
    NoStopPhraseWithoutContains(trimmed);
  }

  // ---------------------------------------------------------------------
  // The creation date

  /** A `DD/MM/YYYY` token begins at the first non-whitespace at or after `e`. */
  predicate DateFollows(text: string, e: nat)
    requires e <= |text|
  {
    var a := SkipSpaces(text, e);
    a + 10 <= |text| && IsNumericDate(text[a..a + 10])
  }

  /** The creation-date expression matches at `i`. */
  predicate DateAt(text: string, i: nat) {
    OccursAt(text, DateAnchor, i) && DateFollows(text, i + |DateAnchor|)
  }

  /** `re.search(r'DATE OF CREATION:\s*(\d{2}/\d{2}/\d{4})', text).group(1)`,
      trying the positions from `from` onwards in order: the date after the
      leftmost anchor that is followed by one. The `\s*` takes every
      whitespace character: giving one back would leave whitespace where a
      digit is needed. */
  function FindCreationDate(text: string, from: nat): (r: Option<string>)
    ensures r.Some? ==> IsNumericDate(r.value)
    decreases |text| - from
  {
    if from + |DateAnchor| > |text| then None
    else if DateAt(text, from) then
      var a := SkipSpaces(text, from + |DateAnchor|);
      Some(text[a..a + 10])
    else FindCreationDate(text, from + 1)
  }

  /** A date is found exactly when some anchor at or after `from` is followed
      by a `DD/MM/YYYY` token. */
  lemma {:induction false} FindCreationDatePresent(text: string, from: nat)
    ensures FindCreationDate(text, from).Some? <==> exists i: nat :: from <= i && DateAt(text, i)
    decreases |text| - from
  {
    if from + |DateAnchor| > |text| {
      forall i: nat | from <= i ensures !DateAt(text, i) {
      }
    } else if !DateAt(text, from) {
      FindCreationDatePresent(text, from + 1);
      if i: nat :| from <= i && DateAt(text, i) {
        assert i != from;
      }
    }
  }

  /** The date found is the token after the first anchor, at or after
      `from`, that is followed by one. */
  lemma {:induction false} FindCreationDateAt(text: string, from: nat, i: nat)
    requires from <= i && DateAt(text, i)
    requires forall h: nat :: from <= h < i ==> !DateAt(text, h)
    ensures var a := SkipSpaces(text, i + |DateAnchor|);
      FindCreationDate(text, from) == Some(text[a..a + 10])
    decreases i - from
  {
    if from < i {
      assert !DateAt(text, from);
      FindCreationDateAt(text, from + 1, i);
    }
  }

  // ---------------------------------------------------------------------
  // The whole extraction

  /** The description as `extract_pdf_info` leaves it: the capture, cut at the
      stop phrases when it is not empty. */
  function DescriptionOf(normalized: string): Option<string>
    requires '\n' !in normalized
  {
    var captured := Capture(normalized, DescriptionAnchor, DescriptionTerminators);
    if captured.Some? && captured.value != [] then Some(CutAtAll(captured.value, StopPhrases))
    else captured
  }

  /** The stop-phrase loop never changes the captured description: the capture
      already ends before the first `"CONTAINS"`. */
  lemma DescriptionIsCaptured(normalized: string)
    requires '\n' !in normalized
    ensures DescriptionOf(normalized) == Capture(normalized, DescriptionAnchor, DescriptionTerminators)
    ensures DescriptionOf(normalized).Some? ==> !Contains(DescriptionOf(normalized).value, "CONTAINS")
  {
    var captured := Capture(normalized, DescriptionAnchor, DescriptionTerminators);
    CaptureSound(normalized, DescriptionAnchor, DescriptionTerminators);
    if captured.Some? {
      assert !Contains(captured.value, DescriptionTerminators[0]);
      StopPhrasesContainContains();
      CutAtAllSound(captured.value, StopPhrases);
    }
  }

  /** The four fields of the text `extract_pdf_info` is given. */
  function ExtractInfo(pdfText: string): ExtractedFields {
    var normalized := Normalize(pdfText);
    ExtractedFields(
      Capture(normalized, CompanyAnchor, CompanyTerminators),
      DescriptionOf(normalized),
      FindCreationDate(normalized, 0),
      Capture(normalized, EntitledAnchor, EntitledTerminators))
  }

  /** What each present field is: trimmed text free of its terminators, and a
      `DD/MM/YYYY` date. */
  lemma ExtractInfoFields(pdfText: string)
    ensures var f := ExtractInfo(pdfText);
      && (f.companyName.Some? ==> Stripped(f.companyName.value) && !Contains(f.companyName.value, "COMPANY NUMBER:"))
      && (f.briefDescription.Some? ==> Stripped(f.briefDescription.value) && !Contains(f.briefDescription.value, "CONTAINS"))
      && (f.monthInNum.Some? ==> IsNumericDate(f.monthInNum.value))
      && (f.personsEntitled.Some? ==> Stripped(f.personsEntitled.value))
      && (f.personsEntitled.Some? ==>
            forall k :: 0 <= k < |EntitledTerminators| ==> !Contains(f.personsEntitled.value, EntitledTerminators[k]))
  {
    var normalized := Normalize(pdfText);
    CaptureSound(normalized, CompanyAnchor, CompanyTerminators);
    assert CompanyTerminators[0] == "COMPANY NUMBER:";
    DescriptionIsCaptured(normalized);
    CaptureSound(normalized, DescriptionAnchor, DescriptionTerminators);
    CaptureSound(normalized, EntitledAnchor, EntitledTerminators);
  }

  /** `extract_pdf_info` */
  method ExtractPdfInfo(pdfText: string) returns (fields: ExtractedFields)
    ensures fields == ExtractInfo(pdfText)
  {
    var normalized := Normalize(pdfText);
    var companyName := Capture(normalized, CompanyAnchor, CompanyTerminators);
    var briefDescription := ExtractDescription(normalized);
    var monthInNum := FindCreationDate(normalized, 0);
    var personsEntitled := Capture(normalized, EntitledAnchor, EntitledTerminators);
    fields := ExtractedFields(companyName, briefDescription, monthInNum, personsEntitled);
  }

  /** The description's capture, then the stop-phrase loop when the capture
      is not empty. */
  method ExtractDescription(normalized: string) returns (briefDescription: Option<string>)
    requires '\n' !in normalized
    ensures briefDescription == DescriptionOf(normalized)
  {
    briefDescription := Capture(normalized, DescriptionAnchor, DescriptionTerminators);
    if briefDescription.Some? && briefDescription.value != [] {
      var trimmed := CutAtStopPhrases(briefDescription.value);
      briefDescription := Some(trimmed);
    }
  }

  // ---------------------------------------------------------------------
  // Properties of the extraction

  /** The company name is absent exactly when no `COMPANY NAME:` in the
      normalised text is followed later by `COMPANY NUMBER:`. */
  lemma CompanyNamePresence(pdfText: string)
    ensures ExtractInfo(pdfText).companyName.None? <==>
      !exists i: nat, j: nat :: OccursAt(Normalize(pdfText), CompanyAnchor, i) && i + |CompanyAnchor| <= j && OccursAt(Normalize(pdfText), "COMPANY NUMBER:", j)
  {
    var n := Normalize(pdfText);
    CapturePresent(n, CompanyAnchor, CompanyTerminators);
    OccursAnySingleEverywhere(n, "COMPANY NUMBER:");
  }

  /** Every text field extracted is in normal form itself: upper-case,
      single-spaced and trimmed, so normalising it again changes nothing. */
  lemma ExtractedTextIsNormalized(pdfText: string)
    ensures var f := ExtractInfo(pdfText);
      && (f.companyName.Some? ==> Normalize(f.companyName.value) == f.companyName.value)
      && (f.briefDescription.Some? ==> Normalize(f.briefDescription.value) == f.briefDescription.value)
      && (f.personsEntitled.Some? ==> Normalize(f.personsEntitled.value) == f.personsEntitled.value)
  {
    var n := Normalize(pdfText);
    var f := ExtractInfo(pdfText);
    CaptureCanonical(n, CompanyAnchor, CompanyTerminators);
    CaptureCanonical(n, DescriptionAnchor, DescriptionTerminators);
    CaptureCanonical(n, EntitledAnchor, EntitledTerminators);
    DescriptionIsCaptured(n);
    if f.companyName.Some? { NormalizeCanonical(f.companyName.value); }
    if f.briefDescription.Some? { NormalizeCanonical(f.briefDescription.value); }
    if f.personsEntitled.Some? { NormalizeCanonical(f.personsEntitled.value); }
  }
}
