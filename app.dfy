/**
 * The chat handler of app.py: the "Use AI" toggle decides whether a question
 * goes to the direct resolver or to the routed, service-backed answer.
 */
module App {
  import opened Wrappers
  import opened QaEngine

  /** The reply to one question: Success(None) when the direct resolver finds
      nothing, Failure(m) when an exception with message m escapes. */
  function Reply(question: string, data: Data, useAi: bool, b: Backend): (r: Result<Option<string>, string>)
    ensures !useAi ==> r == Success(SimpleQA(question, data))
    ensures useAi ==> r.Failure? == AdvancedQA(question, data, b).Failure?
    ensures useAi && r.Failure? ==> r.error == AdvancedQA(question, data, b).error
    ensures useAi && r.Success? ==> r.value == Some(AdvancedQA(question, data, b).value)
  {
    if useAi then
      match AdvancedQA(question, data, b)
      case Success(answer) => Success(Some(answer))
      case Failure(m) => Failure(m)
    else Success(SimpleQA(question, data))
  }

  /** Data of another type gets no answer at all without the toggle, and the
      fixed apology with it. */
  lemma OtherDataReply(question: string, b: Backend)
    ensures Reply(question, Other, false, b) == Success(None)
    ensures Reply(question, Other, true, b) == Success(Some("Sorry, I couldn\U{2019}t process this type of data."))
  {
  }

  /** Without the toggle no service is consulted: any two backends give the
      same reply, and the reply never reports an exception. */
  lemma BasicModeIsDirect(question: string, data: Data, b1: Backend, b2: Backend)
    ensures Reply(question, data, false, b1) == Reply(question, data, false, b2)
    ensures Reply(question, data, false, b1).Success?
  {
  }
}
