/**
  What pressing "Get Recommendations" does with the two input fields: whitespace-only
  symptoms are turned away before any request is made; otherwise the prompt is sent
  to the completion service and its reply is sectioned, or the service's error is
  reported. The service is a parameter: it maps a prompt to a reply or an error.
 */
module Submit {
  import opened PyStr
  import opened Formatter
  import opened Prompt

  /** The message shown when the symptoms field is blank. */
  const EmptySymptomsMessage: string := "Please enter at least one symptom."

  /** Text put in front of a failure's description. */
  const ErrorPrefix: string := "An error occurred: "

  /** What the completion service answers for one prompt. */
  datatype Reply = Completed(text: string) | Failed(error: string)

  /** What the page ends up showing. */
  datatype Outcome =
    | Rejected(message: string)
    | Errored(message: string)
    | Shown(sections: seq<Section>)

  /** One press of the button. `complete` stands for the request to the service and
      `t` for the prompt template; the page always passes `Ayurvedic`. */
  function Submit(t: PromptTemplate, symptoms: string, disease: string, complete: string -> Reply): (o: Outcome)
    ensures o.Rejected? <==> AllSpace(symptoms)
    ensures o.Rejected? ==> o.message == EmptySymptomsMessage
    ensures !AllSpace(symptoms) ==>
      match complete(BuildPrompt(t, symptoms, disease))
      case Completed(text) => o == Shown(FormatResponse(text))
      case Failed(error) => o == Errored(ErrorPrefix + error)
    ensures o.Shown? ==>
      && |o.sections| == |SectionNames|
      && forall k :: 0 <= k < |o.sections| ==> o.sections[k].name == SectionNames[k]
  {
    if Strip(symptoms) == [] then
      Rejected(EmptySymptomsMessage)
    else
      match complete(BuildPrompt(t, symptoms, disease))
      case Completed(text) => Shown(FormatResponse(text))
      case Failed(error) => Errored(ErrorPrefix + error)
  }

  /** Blank symptoms never reach the service: the outcome is the same whatever the
      service would have answered. */
  lemma BlankSymptomsSkipService(t: PromptTemplate, symptoms: string, disease: string, c1: string -> Reply, c2: string -> Reply)
    requires AllSpace(symptoms)
    ensures Submit(t, symptoms, disease, c1) == Submit(t, symptoms, disease, c2) == Rejected(EmptySymptomsMessage)
  {
  }

  /** With non-blank symptoms, the outcome depends on the service only through its
      answer to this one prompt. */
  lemma OutcomeDependsOnlyOnReply(t: PromptTemplate, symptoms: string, disease: string, c1: string -> Reply, c2: string -> Reply)
    requires c1(BuildPrompt(t, symptoms, disease)) == c2(BuildPrompt(t, symptoms, disease))
    ensures Submit(t, symptoms, disease, c1) == Submit(t, symptoms, disease, c2)
  {
  }
}
