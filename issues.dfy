/** Issue classification shared by the tokenizer and the validators (include/utils/issues.hpp). */
module Issues {

  /** A non-fatal warning or a fatal error. */
  datatype IssueType = Warning | Error

  /** The four machine-readable issue codes, in declaration order. */
  datatype IssueCode =
    | MultibyteCharacterNotAllowed
    | UndefinedEscapeSequence
    | TrailingBackslash
    | ConsecutiveAsterisksMerged

  const AllIssueCodes: seq<IssueCode> :=
    [MultibyteCharacterNotAllowed, UndefinedEscapeSequence, TrailingBackslash, ConsecutiveAsterisksMerged]

  /** A classified diagnostic with its rendered message. */
  datatype Issue = Issue(issueType: IssueType, code: IssueCode, message: string)
  {
    /** A fatal error, as opposed to a warning. */
    predicate IsError()
    {
      issueType == Error
    }
  }

  /** The std::formatter<IssueType> specialisation: the name of each issue type. */
  function TypeName(t: IssueType): (name: string)
    ensures t == Error ==> name == "Error"
    ensures t == Warning ==> name == "Warning"
    ensures name != ""
  {
    match t
    case Error => "Error"
    case Warning => "Warning"
  }

  /** IsError holds exactly for Error issues, and the names of the two types differ. */
  lemma IsErrorExactly(issue: Issue)
    ensures issue.IsError() <==> issue.issueType == Error
    ensures !issue.IsError() <==> issue.issueType == Warning
    ensures TypeName(Error) != TypeName(Warning)
  {
  }

  /** The list of codes is complete and free of repetitions. */
  lemma ExactlyFourCodes(c: IssueCode)
    ensures c in AllIssueCodes
    ensures |AllIssueCodes| == 4
    ensures forall a, b :: 0 <= a < b < |AllIssueCodes| ==> AllIssueCodes[a] != AllIssueCodes[b]
  {
  }
}
