/**
 * The error codes of the calculator and their messages (include/errcode.h,
 * src/errcode.c).
 */
module ErrCode {

  const Retry := 1
  const Success := 0
  const UnknownChar := -1
  const UnknownFn := -2
  const DimentionMismatch := -3
  const IrregularMatrix := -4
  const NonSquareMatrix := -5
  const TypeMismatch := -6
  const FileNotFound := -7
  const BufferDepletion := -8
  const CursorOutOfRange := -9
  const CharNotFound := -10
  const AllocationFailure := -11
  const UnknownCommand := -12
  const ReachedUnreachable := -13
  const UnknownOption := -14

  /** The codes that have a message of their own, with that message. */
  const Messages: map<int, string> := map[
    Success := "success",
    UnknownChar := "Unknown character",
    UnknownFn := "Unknown function",
    DimentionMismatch := "Dimention mismatch",
    IrregularMatrix := "Irregular matrix",
    NonSquareMatrix := "Non-square matrix",
    TypeMismatch := "Type mismatch",
    FileNotFound := "File not found",
    BufferDepletion := "Buffer depletion",
    CursorOutOfRange := "Cursor out of range",
    CharNotFound := "Character not found",
    AllocationFailure := "Allocation failure",
    UnknownCommand := "Unknown command",
    UnknownOption := "Unknown option"
  ]

  /** The message printed for an error code; total over all ints. */
  function CodeToMsg(code: int): (msg: string)
    ensures code in Messages ==> msg == Messages[code]
    ensures code !in Messages ==> msg == ""
    ensures msg == "" <==> code !in Messages
  {
    if code == Success then "success"
    else if code == UnknownChar then "Unknown character"
    else if code == UnknownFn then "Unknown function"
    else if code == DimentionMismatch then "Dimention mismatch"
    else if code == IrregularMatrix then "Irregular matrix"
    else if code == NonSquareMatrix then "Non-square matrix"
    else if code == TypeMismatch then "Type mismatch"
    else if code == FileNotFound then "File not found"
    else if code == BufferDepletion then "Buffer depletion"
    else if code == CursorOutOfRange then "Cursor out of range"
    else if code == CharNotFound then "Character not found"
    else if code == AllocationFailure then "Allocation failure"
    else if code == UnknownCommand then "Unknown command"
    else if code == UnknownOption then "Unknown option"
    else ""
  }

  /** Codes with a message are exactly the declared codes other than retry and unreachable. */
  lemma ListedCodes(code: int)
    ensures code in Messages <==> -14 <= code <= 0 && code != ReachedUnreachable
  {
  }

  /** Different listed codes never share a message, so the message identifies the code. */
  lemma MessagesDistinct(c1: int, c2: int)
    requires CodeToMsg(c1) == CodeToMsg(c2) != ""
    ensures c1 == c2
  {
    assert c1 in Messages && c2 in Messages;
  }
}
