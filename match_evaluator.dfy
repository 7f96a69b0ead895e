/**
 * `check_pdf_conditions`: whether a filing's text matches the query the user
 * typed. The similarity ratio of `difflib.SequenceMatcher` is a parameter,
 * known only to lie between 0 and 1.
 */
module MatchEvaluator {
  import opened Wrappers
  import opened Text
  import opened DateNormalizer
  import opened FieldExtractor

  /** The exception the check raises: `SequenceMatcher` given `None`, the
      value of an absent extracted field, fails with a `TypeError`. */
  datatype EvalError = TypeError

  /** `similarity_ratio`: a function into [0, 1]. */
  ghost predicate IsRatio(ratio: (string, string) -> real) {
    forall a, b :: 0.0 <= ratio(a, b) <= 1.0
  }

  /** Python's `int(x)` on a float: the integer part, rounded toward zero. */
  function Truncate(x: real): (n: int)
    ensures x >= 0.0 ==> n >= 0 && n as real <= x < n as real + 1.0
    ensures x < 0.0 ==> n <= 0 && n as real - 1.0 < x <= n as real
  {
    if x >= 0.0 then x.Floor else -((-x).Floor)
  }

  /** `int(ratio) * 100`: the integer part of the ratio, not its percentage.
      A ratio in [0, 1] therefore scores 100 when it is exactly 1 and 0
      otherwise. */
  function Score(ratio: real): (score: int)
    ensures score % 100 == 0
    ensures 0.0 <= ratio <= 1.0 ==> (score == 100 <==> ratio == 1.0) && (score == 0 <==> ratio < 1.0)
    ensures 0.0 <= ratio <= 1.0 ==> (score >= 95 <==> ratio == 1.0)
  {
    Truncate(ratio) * 100
  }

  /** The verdict on extracted fields `f`, for the query's date, company name,
      persons entitled and description. */
  function Verdict(f: ExtractedFields, dateInfo: NormalizedDate, companyName: string, personsEntitled: string,
                   briefDescription: string, ratio: (string, string) -> real): Result<bool, EvalError>
  {
    if f.briefDescription.None? || f.personsEntitled.None? then Failure(TypeError)
    else
      var briefScore := Score(ratio(f.briefDescription.value, Upper(briefDescription)));
      var personsScore := Score(ratio(f.personsEntitled.value, Upper(personsEntitled)));
      Success(
        && Some(Upper(companyName)) == f.companyName
        && personsScore >= 95
        && briefScore >= 95
        && Some(dateInfo.monthInNum) == f.monthInNum)
  }

  /** The check fails exactly when the description or the persons entitled
      are absent, and it passes exactly when the company name is the
      upper-cased query, both free-text fields are rated exactly 1 against the
      upper-cased query and the creation date is the query's. */
  lemma VerdictMeaning(f: ExtractedFields, dateInfo: NormalizedDate, companyName: string, personsEntitled: string,
                       briefDescription: string, ratio: (string, string) -> real)
    requires IsRatio(ratio)
    ensures Verdict(f, dateInfo, companyName, personsEntitled, briefDescription, ratio).Failure? <==>
      f.briefDescription.None? || f.personsEntitled.None?
    ensures Verdict(f, dateInfo, companyName, personsEntitled, briefDescription, ratio) == Success(true) <==>
      && f.companyName == Some(Upper(companyName))
      && f.briefDescription.Some? && ratio(f.briefDescription.value, Upper(briefDescription)) == 1.0
      && f.personsEntitled.Some? && ratio(f.personsEntitled.value, Upper(personsEntitled)) == 1.0
      && f.monthInNum == Some(dateInfo.monthInNum)
    ensures f.companyName.None? || f.monthInNum.None? ==>
      Verdict(f, dateInfo, companyName, personsEntitled, briefDescription, ratio) != Success(true)
  {
    if f.briefDescription.Some? && f.personsEntitled.Some? {
      var b := ratio(f.briefDescription.value, Upper(briefDescription));
      var p := ratio(f.personsEntitled.value, Upper(personsEntitled));
      assert 0.0 <= b <= 1.0 && 0.0 <= p <= 1.0;
    }
  }

  /** `check_pdf_conditions`: extract the fields, then judge them. */
  method CheckPdfConditions(pdfText: string, dateInfo: NormalizedDate, companyName: string, personsEntitled: string,
                            briefDescription: string, ratio: (string, string) -> real)
    returns (result: Result<bool, EvalError>)
    ensures result == Verdict(ExtractInfo(pdfText), dateInfo, companyName, personsEntitled, briefDescription, ratio)
  {
    var fields := ExtractPdfInfo(pdfText);
    result := JudgeFields(fields, dateInfo, companyName, personsEntitled, briefDescription, ratio);
  }

  /** The body of `check_pdf_conditions` after extraction: score the two
      free-text fields, then clear `conditionsMet` for each check that fails. */
  method JudgeFields(fields: ExtractedFields, dateInfo: NormalizedDate, companyName: string, personsEntitled: string,
                     briefDescription: string, ratio: (string, string) -> real)
    returns (result: Result<bool, EvalError>)
    ensures result == Verdict(fields, dateInfo, companyName, personsEntitled, briefDescription, ratio)
  {
    if fields.briefDescription.None? {
      return Failure(TypeError);
    }
    var briefScore := Score(ratio(fields.briefDescription.value, Upper(briefDescription)));
    if fields.personsEntitled.None? {
      return Failure(TypeError);
    }
    var personsScore := Score(ratio(fields.personsEntitled.value, Upper(personsEntitled)));
    var conditionsMet := true;
    if Some(Upper(companyName)) != fields.companyName {
      conditionsMet := false;
    }
    if personsScore < 95 {
      conditionsMet := false;
    }
    if briefScore < 95 {
      conditionsMet := false;
    }
    if Some(dateInfo.monthInNum) != fields.monthInNum {
      conditionsMet := false;
    }
    return Success(conditionsMet);
  }

  /** The letter case of the query does not change the verdict. */
  lemma QueryCaseIgnored(f: ExtractedFields, dateInfo: NormalizedDate, companyName: string, personsEntitled: string,
                         briefDescription: string, ratio: (string, string) -> real)
    ensures Verdict(f, dateInfo, Upper(companyName), Upper(personsEntitled), Upper(briefDescription), ratio)
         == Verdict(f, dateInfo, companyName, personsEntitled, briefDescription, ratio)
  {
    UpperOfUpper(Upper(companyName));
    UpperOfUpper(Upper(personsEntitled));
    UpperOfUpper(Upper(briefDescription));
    SameUpperSameVerdict(f, dateInfo, Upper(companyName), Upper(personsEntitled), Upper(briefDescription),
                         companyName, personsEntitled, briefDescription, ratio);
  }

  lemma SameUpperSameVerdict(f: ExtractedFields, dateInfo: NormalizedDate, c1: string, p1: string, b1: string,
                             c2: string, p2: string, b2: string, ratio: (string, string) -> real)
    requires Upper(c1) == Upper(c2) && Upper(p1) == Upper(p2) && Upper(b1) == Upper(b2)
    ensures Verdict(f, dateInfo, c1, p1, b1, ratio) == Verdict(f, dateInfo, c2, p2, b2, ratio)
  {
  }

  /** A filing whose extracted fields are exactly the upper-cased query, with
      the query's date, matches: `SequenceMatcher` rates a text against itself
      at 1. */
  lemma ExactFieldsMatch(f: ExtractedFields, dateInfo: NormalizedDate, companyName: string, personsEntitled: string,
                         briefDescription: string, ratio: (string, string) -> real)
    requires forall a :: ratio(a, a) == 1.0
    requires f == ExtractedFields(Some(Upper(companyName)), Some(Upper(briefDescription)),
                                  Some(dateInfo.monthInNum), Some(Upper(personsEntitled)))
    ensures Verdict(f, dateInfo, companyName, personsEntitled, briefDescription, ratio) == Success(true)
  {
    assert ratio(Upper(briefDescription), Upper(briefDescription)) == 1.0;
    assert ratio(Upper(personsEntitled), Upper(personsEntitled)) == 1.0;
  }
}
