/**
 * The field validators of the request models in backend/app/models/request.py.
 * A validator either returns the value it stores (`Success`) or raises
 * `ValueError` (`Failure` with the message).
 */
module Requests {
  import opened Wrappers
  import opened Text
  import Validation

  const QuestionBlank := "Question cannot be empty or whitespace only"
  const QuestionTooShort := "Question must be at least 1 character long"
  const QuestionTooLong := "Question must be no more than 1000 characters"

  const SelectionBlank := "Selection cannot be empty or whitespace only"
  const SelectionTooShort := "Selection must be at least 1 character long"
  const SelectionTooLong := "Selection must be no more than 5000 characters"

  /**
   * `QuestionRequest.validate_question`: a blank question is refused, then one
   * longer than 1000 characters as given; an accepted question is stored
   * stripped. The "at least 1 character" error is never raised.
   */
  function ValidateQuestion(v: string): (r: Result<string, string>)
    ensures r.Success? <==> !IsBlank(v) && |v| <= 1000
    ensures IsBlank(v) ==> r == Failure(QuestionBlank)
    ensures !IsBlank(v) && |v| > 1000 ==> r == Failure(QuestionTooLong)
    ensures r != Failure(QuestionTooShort)
    ensures r.Success? ==> r.value == Strip(v) && r.value != [] && IsStripped(r.value) && |r.value| <= 1000
  {
    if v == [] || Strip(v) == [] then Failure(QuestionBlank)
    else if |Strip(v)| < 1 then Failure(QuestionTooShort)
    else if |v| > 1000 then Failure(QuestionTooLong)
    else Success(Strip(v))
  }

  /**
   * `SelectionRequest.validate_selection`: a blank selection is refused, then
   * one longer than 5000 characters as given; an accepted selection is stored
   * stripped. The "at least 1 character" error is never raised.
   */
  function ValidateSelection(v: string): (r: Result<string, string>)
    ensures r.Success? <==> !IsBlank(v) && |v| <= 5000
    ensures IsBlank(v) ==> r == Failure(SelectionBlank)
    ensures !IsBlank(v) && |v| > 5000 ==> r == Failure(SelectionTooLong)
    ensures r != Failure(SelectionTooShort)
    ensures r.Success? ==> r.value == Strip(v) && r.value != [] && IsStripped(r.value) && |r.value| <= 5000
  {
    if v == [] || Strip(v) == [] then Failure(SelectionBlank)
    else if |Strip(v)| < 1 then Failure(SelectionTooShort)
    else if |v| > 5000 then Failure(SelectionTooLong)
    else Success(Strip(v))
  }

  /**
   * `SelectionRequest.validate_question_optional`: an absent question stays
   * absent; a present one is stripped first and refused only when the
   * stripped text is longer than 1000 characters.
   */
  function ValidateQuestionOptional(v: Option<string>): (r: Result<Option<string>, string>)
    ensures v == None ==> r == Success(None)
    ensures v.Some? ==> (r.Success? <==> |Strip(v.value)| <= 1000)
    ensures v.Some? && r.Success? ==> r.value == Some(Strip(v.value))
    ensures r.Failure? ==> r.error == QuestionTooLong
  {
    match v
    case None => Success(None)
    case Some(q) =>
      var s := Strip(q);
      if |s| > 1000 then Failure(QuestionTooLong) else Success(Some(s))
  }

  /** Validating a stored question again stores the same question. */
  lemma QuestionIdempotent(v: string)
    requires ValidateQuestion(v).Success?
    ensures ValidateQuestion(ValidateQuestion(v).value) == ValidateQuestion(v)
  {
    StripStripped(Strip(v));
  }

  /** Validating a stored selection again stores the same selection. */
  lemma SelectionIdempotent(v: string)
    requires ValidateSelection(v).Success?
    ensures ValidateSelection(ValidateSelection(v).value) == ValidateSelection(v)
  {
    StripStripped(Strip(v));
  }

  /** Validating a stored optional question again stores the same value. */
  lemma QuestionOptionalIdempotent(v: Option<string>)
    requires ValidateQuestionOptional(v).Success?
    ensures ValidateQuestionOptional(ValidateQuestionOptional(v).value) == ValidateQuestionOptional(v)
  {
    if v.Some? {
      StripStripped(Strip(v.value));
    }
  }

  /**
   * The request model and `validate_question_text` accept the same
   * questions, and refuse them for the same reason.
   */
  lemma QuestionAgreesWithTextValidator(v: string)
    ensures ValidateQuestion(v).Success? <==> Validation.ValidateQuestionText(v) == Validation.Valid
    ensures ValidateQuestion(v) == Failure(QuestionBlank) <==>
            Validation.ValidateQuestionText(v) == Validation.Invalid(Validation.QuestionEmpty)
    ensures ValidateQuestion(v) == Failure(QuestionTooLong) <==>
            Validation.ValidateQuestionText(v) == Validation.Invalid(Validation.QuestionLong)
  {
  }

  /**
   * Every selection `validate_selection_text` accepts passes the request
   * model, and so does a short one it refuses: the request model has no
   * 10-character minimum.
   */
  lemma SelectionRequestIsLaxer(v: string)
    ensures Validation.ValidateSelectionText(v) == Validation.Valid ==> ValidateSelection(v).Success?
    ensures !IsBlank(v) && |Strip(v)| < 10 && |v| <= 5000 ==>
              ValidateSelection(v).Success? && Validation.ValidateSelectionText(v) == Validation.Invalid(Validation.SelectionShort)
  {
  }

  /**
   * The optional question of a selection request measures the stripped text,
   * the required question the text as given: a question padded past 1000
   * characters is accepted by the one and refused by the other.
   */
  lemma PaddedQuestion(q: string)
    requires !IsBlank(q) && |Strip(q)| <= 1000 < |q|
    ensures ValidateQuestionOptional(Some(q)) == Success(Some(Strip(q)))
    ensures ValidateQuestion(q) == Failure(QuestionTooLong)
  {
  }

  /** A blank optional question is accepted and stored as the empty string. */
  lemma BlankOptionalQuestion(q: string)
    requires IsBlank(q)
    ensures ValidateQuestionOptional(Some(q)) == Success(Some(""))
  {
  }
}
