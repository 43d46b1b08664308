/**
 * The input validators shared by every component (`Validate` in Utilities).
 * Each validator is side-effect free: it either returns or throws.
 * Lengths are counted in Dafny characters (Unicode code points); Java counts
 * UTF-16 code units, which differ only for characters outside the Basic
 * Multilingual Plane.
 */
module Validate {

  /**
   * What a validator call does: return normally, throw the checked
   * InvalidStudentException / InvalidCapacityException, or fail with
   * StringIndexOutOfBoundsException because `id.substring(0, 5)` was applied to
   * an id shorter than five characters.
   */
  datatype Verdict = Accepted | Rejected | IndexOutOfBounds

  predicate IsDigit(c: char)
  {
    '0' <= c <= '9'
  }

  predicate AllDigits(s: string)
  {
    forall k :: 0 <= k < |s| ==> IsDigit(s[k])
  }

  /** `validate_id`: the id must be nine characters, "aluno" followed by digits. */
  function ValidateId(id: string): (v: Verdict)
    ensures v == IndexOutOfBounds <==> |id| < 5
  {
    if |id| < 5 then IndexOutOfBounds
    else if |id| == 9 && id[..5] == "aluno" && AllDigits(id[5..]) then Accepted
    else Rejected
  }

  /** `validate_name`: between 3 and 30 characters, bounds included. */
  function ValidateName(name: string): (v: Verdict)
    ensures v != IndexOutOfBounds
    ensures v == Accepted <==> 3 <= |name| <= 30
  {
    if |name| < 3 || |name| > 30 then Rejected else Accepted
  }

  /**
   * `validate_enrollment`: the id rule and the name rule together. The id
   * length is inspected before `substring`, but the flag is only consulted at
   * the end, so a short id always fails with the index error, whatever the name.
   */
  function ValidateEnrollment(id: string, name: string): (v: Verdict)
    ensures v == IndexOutOfBounds <==> |id| < 5
    ensures v == Accepted <==> ValidateId(id) == Accepted && ValidateName(name) == Accepted
  {
    if |id| < 5 then IndexOutOfBounds
    else if |id| == 9 && id[..5] == "aluno" && AllDigits(id[5..]) && 3 <= |name| <= 30 then Accepted
    else Rejected
  }

  /** `validate_capacity`: only negative capacities are refused, so 0 passes. */
  predicate ValidCapacity(capacity: int)
  {
    capacity >= 0
  }

  /** The ids `validate_id` accepts are exactly "aluno" followed by four decimal digits. */
  lemma AcceptedIdShape(id: string)
    ensures ValidateId(id) == Accepted <==> exists d :: |d| == 4 && AllDigits(d) && id == "aluno" + d
  {
    if ValidateId(id) == Accepted {
      assert |id[5..]| == 4 && AllDigits(id[5..]) && id == "aluno" + id[5..];
    }
    if exists d :: |d| == 4 && AllDigits(d) && id == "aluno" + d {
      var d :| |d| == 4 && AllDigits(d) && id == "aluno" + d;
      assert id[..5] == "aluno" && id[5..] == d;
    }
  }

  /** Every accepted id is colon-free, so it survives the "id:name" write encoding. */
  lemma AcceptedIdHasNoColon(id: string)
    requires ValidateId(id) == Accepted
    ensures ':' !in id
  {
  }
}
