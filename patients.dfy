/** The patient record, the primary sort keys, the checks the add and edit
    dialogs apply to each answer, and the update an edit performs. */
module Patients {
  import opened Text

  /** The text `str(score)` of a patient's score; the float behind it is
      not modelled. */
  type ScoreText = string

  datatype Patient = Patient(
    id: string,
    name: string,
    age: int,
    illness: string,
    score: ScoreText,
    logicExpr: string)

  // ---------------------------------------------------------------------
  // Primary sort key
  // ---------------------------------------------------------------------

  datatype SortKey = Id | Name | Age | Score

  /** The menu answer "1".."4" picks the key; any other answer means score. */
  function KeyFromChoice(choice: string): (k: SortKey)
    ensures k == Id <==> choice == "1"
    ensures k == Name <==> choice == "2"
    ensures k == Age <==> choice == "3"
    ensures k == Score <==> choice != "1" && choice != "2" && choice != "3"
  {
    if choice == "1" then Id
    else if choice == "2" then Name
    else if choice == "3" then Age
    else Score
  }

  /** `str(getattr(p, key))` */
  function KeyText(p: Patient, k: SortKey): string
  {
    match k
    case Id => p.id
    case Name => p.name
    case Age => IntToString(p.age)
    case Score => p.score
  }

  /** `str(getattr(p, key)).lower()`: what both sorts compare. It differs
      from the field's text only in the case of ASCII letters, holds no
      upper-case ASCII letter, and for the age is exactly the decimal
      numeral. */
  function SortKeyOf(p: Patient, k: SortKey): (r: string)
    ensures SameUpToCase(r, KeyText(p, k))
    ensures forall i :: 0 <= i < |r| ==> !IsUpper(r[i])
    ensures k == Age ==> r == IntToString(p.age)
  {
    var t := KeyText(p, k);
    assert k == Age ==> forall i :: 0 <= i < |t| ==> !IsUpper(t[i]);
    Lower(t)
  }

  /** The comparison key handed to both sorts for the field `k`. */
  function KeyOf(k: SortKey): Patient -> string
  {
    p => SortKeyOf(p, k)
  }

  /** Ages are compared as text, not as numbers: 100 sorts before 20. */
  lemma AgeOrderIsTextual(p: Patient, q: Patient)
    requires p.age == 100 && q.age == 20
    ensures LexLess(SortKeyOf(p, Age), SortKeyOf(q, Age))
    ensures !LexLe(SortKeyOf(q, Age), SortKeyOf(p, Age))
  {
    assert NatToString(1) == "1";
    assert NatToString(10) == "10";
    assert IntToString(100) == "100";
    assert NatToString(2) == "2";
    assert IntToString(20) == "20";
    assert Lower("100") == "100";
    assert Lower("20") == "20";
    assert "100"[1..] == "00" && "20"[1..] == "0";
  }

  // ---------------------------------------------------------------------
  // Answer checks
  // ---------------------------------------------------------------------

  /** Characters an ID may not contain. */
  const ID_FORBIDDEN: string := "@+*#$%^&()[]{}|\\:;\"'<>?/.,`~"

  const DIGITS: string := "0123456789"

  /** Characters a name or an illness may not contain. */
  const TEXT_FORBIDDEN: string := ID_FORBIDDEN + DIGITS

  /** `any(char in s for char in chars)` */
  predicate ContainsAny(s: string, chars: string)
  {
    exists i :: 0 <= i < |chars| && chars[i] in s
  }

  /** Some character of `s` is not whitespace. */
  predicate HasNonSpace(s: string)
  {
    exists i :: 0 <= i < |s| && !IsSpace(s[i])
  }

  /** No character of `s` occurs in `chars`. */
  predicate NoneOf(s: string, chars: string)
  {
    forall i :: 0 <= i < |s| ==> s[i] !in chars
  }

  lemma ContainsAnyIff(s: string, chars: string)
    ensures ContainsAny(s, chars) <==> !NoneOf(s, chars)
  {
    if !NoneOf(s, chars) {
      var i :| 0 <= i < |s| && s[i] in chars;
      var j :| 0 <= j < |chars| && chars[j] == s[i];
      assert chars[j] in s;
    }
  }

  lemma DigitForbidden(c: char)
    requires IsDigit(c)
    ensures c in TEXT_FORBIDDEN
  {
    assert DIGITS == ['0', '1', '2', '3', '4', '5', '6', '7', '8', '9'];
    assert c in DIGITS;
    assert TEXT_FORBIDDEN[|ID_FORBIDDEN|..] == DIGITS;
  }

  datatype FieldError =
    | BlankAnswer
    | ForbiddenCharacter
    | DuplicateId
    | AgeTooLong
    | AgeNotANumber
    | AgeOutOfRange

  /** The verdict on an answer that the dialog checks but does not convert:
      there is no value to carry, so a pass/fail type reads more plainly
      than `Result<(), FieldError>`. */
  datatype Check = Pass | Fail(error: FieldError)

  /** The ID answer of the add dialog, checked in the dialog's order:
      blank, forbidden character, already a key. */
  function CheckId(id: string, existing: set<string>): (r: Check)
    ensures r == Pass <==> HasNonSpace(id) && NoneOf(id, ID_FORBIDDEN) && id !in existing
    ensures r == Fail(BlankAnswer) <==> !HasNonSpace(id)
    ensures r == Fail(DuplicateId) ==> id in existing
  {
    ContainsAnyIff(id, ID_FORBIDDEN);
    if Strip(id) == [] then Fail(BlankAnswer)
    else if ContainsAny(id, ID_FORBIDDEN) then Fail(ForbiddenCharacter)
    else if id in existing then Fail(DuplicateId)
    else Pass
  }

  /** The name or illness answer of the add dialog: not blank, and free of
      the forbidden characters and of digits. */
  function CheckText(s: string): (r: Check)
    ensures r == Pass <==> HasNonSpace(s) && NoneOf(s, TEXT_FORBIDDEN)
    ensures r == Pass ==> forall i :: 0 <= i < |s| ==> !IsDigit(s[i])
  {
    ContainsAnyIff(s, TEXT_FORBIDDEN);
    if Strip(s) == [] then Fail(BlankAnswer)
    else if ContainsAny(s, TEXT_FORBIDDEN) then Fail(ForbiddenCharacter)
    else
      assert forall i :: 0 <= i < |s| && IsDigit(s[i]) ==> s[i] in TEXT_FORBIDDEN by {
        forall i | 0 <= i < |s| && IsDigit(s[i]) {
          DigitForbidden(s[i]);
        }
      }
      Pass
  }

  /** The age answer: at most three characters, `int()` accepts it, and the
      value lies in 0..999. An answer is accepted exactly when it is short
      and parses to a non-negative number: three characters cannot spell a
      number above 999, so only negative numbers are out of range. */
  function CheckAge(answer: string): (r: Result<int, FieldError>)
    ensures r.Ok? ==> 0 <= r.value <= 999 && ParseInt(answer) == Some(r.value)
    ensures r.Ok? <==> |answer| <= 3 && ParseInt(answer).Some? && ParseInt(answer).value >= 0
    ensures r == Err(AgeTooLong) <==> |answer| > 3
    ensures r == Err(AgeOutOfRange) ==> ParseInt(answer).Some? && ParseInt(answer).value < 0
  {
    if |answer| > 3 then Err(AgeTooLong)
    else
      ParseIntBound(answer, 3);
      assert Pow10(3) == 1000;
      match ParseInt(answer)
      case None => Err(AgeNotANumber)
      case Some(n) => if n < 0 || n > 999 then Err(AgeOutOfRange) else Ok(n)
  }

  /** `int()` does not skip the separator U+001C, although `strip()` does:
      an age answer that starts with it is refused as not a number, unless
      it is longer than 3 characters and so refused as too long first. */
  lemma AgeKeepsSeparator(answer: string)
    requires |answer| > 0 && answer[0] == '\U{1C}'
    ensures IsSpace('\U{1C}') && !IsIntSpace('\U{1C}')
    ensures CheckAge(answer) == if |answer| > 3 then Err(AgeTooLong) else Err(AgeNotANumber)
  {
    if |answer| <= 3 {
      var t := IntStrip(answer);
      assert !IsIntSpace(answer[0]);
      assert TrimStart(answer, IsIntSpace) == answer;
      assert t != [];
      assert t == answer[..|t|];
      assert t[0] == answer[0];
      assert !IsDigit(t[0]);
    }
  }

  /** Every age in range, written the way `str` writes it, is accepted with
      its own value. */
  lemma CheckAgeRoundTrip(n: int)
    requires 0 <= n <= 999
    ensures CheckAge(IntToString(n)) == Ok(n)
  {
    NatToStringShort(n);
    ParseIntRoundTrip(n);
  }

  /** The record the add dialog builds from one answer per prompt, checked
      in the dialog's order (ID, name, age, illness), or the first refusal.
      `score` is the already accepted score. */
  function NewRecord(id: string, existing: set<string>, name: string, ageAnswer: string,
                     illness: string, score: ScoreText, logicExpr: string): (r: Result<Patient, FieldError>)
    ensures r.Ok? <==>
      CheckId(id, existing) == Pass && CheckText(name) == Pass &&
      CheckAge(ageAnswer).Ok? && CheckText(illness) == Pass
    ensures r.Ok? ==> r.value == Patient(id, name, r.value.age, illness, score, logicExpr)
    ensures r.Ok? ==> CheckAge(ageAnswer) == Ok(r.value.age) && 0 <= r.value.age <= 999
    ensures r.Ok? ==> id !in existing
    ensures CheckId(id, existing).Fail? ==> r == Err(CheckId(id, existing).error)
  {
    match CheckId(id, existing)
    case Fail(e) => Err(e)
    case Pass =>
      match CheckText(name)
      case Fail(e) => Err(e)
      case Pass =>
        match CheckAge(ageAnswer)
        case Err(e) => Err(e)
        case Ok(age) =>
          match CheckText(illness)
          case Fail(e) => Err(e)
          case Pass => Ok(Patient(id, name, age, illness, score, logicExpr))
  }

  // ---------------------------------------------------------------------
  // Editing a record
  // ---------------------------------------------------------------------

  /** The answers of one pass through the edit dialog; an empty answer keeps
      the current value. `score` is the `str()` of the accepted float, or
      None for a blank answer. */
  datatype EditAnswers = EditAnswers(
    name: string,
    age: string,
    illness: string,
    score: Option<ScoreText>,
    logicExpr: string)

  /** The name or illness answer of the edit dialog. Only the empty answer
      keeps the old value; any other answer free of forbidden characters and
      digits replaces it. */
  function EditText(answer: string, current: string): (r: Result<string, FieldError>)
    ensures answer == [] ==> r == Ok(current)
    ensures answer != [] ==> (r.Ok? <==> NoneOf(answer, TEXT_FORBIDDEN))
    ensures answer != [] && r.Ok? ==> r.value == answer
  {
    ContainsAnyIff(answer, TEXT_FORBIDDEN);
    if answer == [] then Ok(current)
    else if ContainsAny(answer, TEXT_FORBIDDEN) then Err(ForbiddenCharacter)
    else Ok(answer)
  }

  /** The age answer of the edit dialog: only the empty answer keeps the
      current age; any other answer goes through the add dialog's checks. */
  function EditAge(answer: string, current: int): (r: Result<int, FieldError>)
    ensures answer == [] ==> r == Ok(current)
    ensures answer != [] ==> (r.Ok? <==> |answer| <= 3 && ParseInt(answer).Some? && ParseInt(answer).value >= 0)
    ensures answer != [] && r.Ok? ==> 0 <= r.value <= 999 && ParseInt(answer) == Some(r.value)
  {
    if answer == [] then Ok(current) else CheckAge(answer)
  }

  /** The record after an edit: blank answers keep the old field, the ID is
      never touched, and the first refused answer (name, age, illness, in the
      dialog's order) stops the update. */
  function ApplyEdit(p: Patient, a: EditAnswers): (r: Result<Patient, FieldError>)
    ensures r.Ok? ==> r.value.id == p.id
    ensures r.Ok? ==> r.value.name == (if a.name == [] then p.name else a.name)
    ensures r.Ok? ==> r.value.illness == (if a.illness == [] then p.illness else a.illness)
    ensures r.Ok? && a.age == [] ==> r.value.age == p.age
    ensures r.Ok? && a.age != [] ==> 0 <= r.value.age <= 999 && CheckAge(a.age) == Ok(r.value.age)
    ensures r.Ok? ==> r.value.score == (if a.score.None? then p.score else a.score.value)
    ensures r.Ok? ==> r.value.logicExpr == (if a.logicExpr == [] then p.logicExpr else a.logicExpr)
    ensures a.name == [] && a.age == [] && a.illness == [] && a.score.None? && a.logicExpr == []
      ==> r == Ok(p)
    ensures r.Err? <==>
      EditText(a.name, p.name).Err? || EditAge(a.age, p.age).Err? || EditText(a.illness, p.illness).Err?
  {
    match EditText(a.name, p.name)
    case Err(e) => Err(e)
    case Ok(name) =>
      match EditAge(a.age, p.age)
      case Err(e) => Err(e)
      case Ok(age) =>
        match EditText(a.illness, p.illness)
        case Err(e) => Err(e)
        case Ok(illness) =>
          var score := if a.score.None? then p.score else a.score.value;
          var logicExpr := if a.logicExpr == [] then p.logicExpr else a.logicExpr;
          Ok(p.(name := name, age := age, illness := illness, score := score, logicExpr := logicExpr))
  }

  /** The edit dialog accepts a whitespace-only name that the add dialog
      refuses: only the empty answer counts as blank there. */
  lemma EditAcceptsWhitespaceName(p: Patient)
    ensures CheckText("  ") == Fail(BlankAnswer)
    ensures EditText("  ", p.name) == Ok("  ")
  {
    assert IsSpace(' ');
    assert NoneOf("  ", TEXT_FORBIDDEN) by {
      assert ' ' !in ID_FORBIDDEN;
      assert ' ' !in DIGITS;
    }
  }
}
