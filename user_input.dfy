/** The question chain of `BaseUserInput.ask`
    (src/user-input/BaseUserInput.ts) and the scripted answers of
    `TestUserInput` (src/user-input/test-helper/TestUserInput.ts). The
    prompts a subclass supplies are parameters; a promise is modelled by
    the value it settles to, or the message it rejects with. */
module UserInput {
  import opened Outcomes

  /** The question types; any other `type` text is `Other`. */
  datatype Kind = List | RawList | Input | Checkbox | Other(kind: string)

  /** A choice of a list question, which may lead to a further question, or
      a separator. */
  datatype Choice = Choice(name: string, next: Option<Question>) | Separator

  /** `QuestionChain`; questions without choices have none. */
  datatype Question = Question(kind: Kind, name: string, message: string, choices: seq<Choice>)

  /** `Answer`; `name` is absent where the source leaves it undefined. */
  datatype Answer =
    | Single(answer: string, name: Option<string>)
    | Multi(answers: seq<string>, name: Option<string>)
    | Abort

  /** `prompt`: the text entered, nothing, or a rejection. */
  type Prompt = Question -> Completion<Option<string>>
  /** `promptMulti`: the ticked names, or a rejection. */
  type PromptMulti = Question -> Completion<seq<string>>

  const Typeguard := "noop - typeguard"

  /** `choices.find(x => x.type === 'choice' && x.name === chosen)` */
  function FindChoice(choices: seq<Choice>, chosen: string): (r: Option<nat>)
    ensures r.Some? ==> r.value < |choices| && choices[r.value].Choice? && choices[r.value].name == chosen
    ensures r.Some? ==> forall j :: 0 <= j < r.value ==> !(choices[j].Choice? && choices[j].name == chosen)
    ensures r.None? ==> forall j :: 0 <= j < |choices| ==> !(choices[j].Choice? && choices[j].name == chosen)
  {
    if choices == [] then None
    else if choices[0].Choice? && choices[0].name == chosen then Some(0)
    else
      match FindChoice(choices[1..], chosen)
      case None => None
      case Some(i) => Some(i + 1)
  }

  /** The question is `q` or lies behind one of its choices. */
  predicate Contains(q: Question, name: string)
    decreases q
  {
    q.name == name ||
    exists i :: 0 <= i < |q.choices| && q.choices[i].Choice? && q.choices[i].next.Some? && Contains(q.choices[i].next.value, name)
  }

  /** `ask`: list questions follow the chosen choice to its next question;
      an answer that is not abort carries the name of a question of the
      chain. */
  function Ask(question: Question, prompt: Prompt, promptMulti: PromptMulti): (r: Completion<Answer>)
    ensures r.Returned? && !r.value.Abort? ==> r.value.name.Some? && Contains(question, r.value.name.value)
    decreases question
  {
    match question.kind
    case List => AskList(question, prompt, promptMulti)
    case RawList => AskList(question, prompt, promptMulti)
    case Input =>
      (match prompt(question)
       case Threw(message) => Threw(message)
       case Returned(result) =>
         if result.None? then Returned(Abort) else Returned(Single(result.value, Some(question.name))))
    case Checkbox =>
      (match promptMulti(question)
       case Threw(message) => Threw(message)
       case Returned(answer) => Returned(Multi(answer, Some(question.name))))
    case Other(_) => Returned(Abort)
  }

  /** The `list`/`rawlist` branch of `ask`. */
  function AskList(question: Question, prompt: Prompt, promptMulti: PromptMulti): (r: Completion<Answer>)
    ensures r.Returned? && !r.value.Abort? ==> r.value.name.Some? && Contains(question, r.value.name.value)
    decreases question, 0
  {
    match prompt(question)
    case Threw(message) => Threw(message)
    case Returned(chosen) =>
      if chosen.None? || chosen.value == "" then Returned(Abort)
      else
        match FindChoice(question.choices, chosen.value)
        case None => Threw(Typeguard)
        case Some(i) =>
          var choice := question.choices[i];
          if choice.next.Some? then
            var answer := Ask(choice.next.value, prompt, promptMulti);
            assert answer.Returned? && !answer.value.Abort? ==> Contains(question, answer.value.name.value) by {
              if answer.Returned? && !answer.value.Abort? {
                assert Contains(question.choices[i].next.value, answer.value.name.value);
              }
            }
            answer
          else Returned(Single(choice.name, Some(question.name)))
  }

  /** A list question left unanswered, or answered with nothing, aborts. */
  lemma EmptyChoiceAborts(question: Question, prompt: Prompt, promptMulti: PromptMulti)
    requires question.kind == List || question.kind == RawList
    requires prompt(question) == Returned(None) || prompt(question) == Returned(Some(""))
    ensures Ask(question, prompt, promptMulti) == Returned(Abort)
  {
  }

  /** A chosen choice with a next question answers exactly what that
      question answers. */
  lemma ChoiceLeadsOn(question: Question, prompt: Prompt, promptMulti: PromptMulti, i: nat)
    requires question.kind == List || question.kind == RawList
    requires i < |question.choices| && question.choices[i].Choice? && question.choices[i].next.Some?
    requires prompt(question) == Returned(Some(question.choices[i].name)) && question.choices[i].name != ""
    requires forall j :: 0 <= j < i ==> !(question.choices[j].Choice? && question.choices[j].name == question.choices[i].name)
    ensures Ask(question, prompt, promptMulti) == Ask(question.choices[i].next.value, prompt, promptMulti)
  {
    FindFirst(question.choices, i);
  }

  /** A chosen choice without a next question is the single answer, named
      after the question. */
  lemma ChoiceEnds(question: Question, prompt: Prompt, promptMulti: PromptMulti, i: nat)
    requires question.kind == List || question.kind == RawList
    requires i < |question.choices| && question.choices[i].Choice? && question.choices[i].next.None?
    requires prompt(question) == Returned(Some(question.choices[i].name)) && question.choices[i].name != ""
    requires forall j :: 0 <= j < i ==> !(question.choices[j].Choice? && question.choices[j].name == question.choices[i].name)
    ensures Ask(question, prompt, promptMulti) == Returned(Single(question.choices[i].name, Some(question.name)))
  {
    FindFirst(question.choices, i);
  }

  /** The first matching choice is the one found. */
  lemma FindFirst(choices: seq<Choice>, i: nat)
    requires i < |choices| && choices[i].Choice?
    requires forall j :: 0 <= j < i ==> !(choices[j].Choice? && choices[j].name == choices[i].name)
    ensures FindChoice(choices, choices[i].name) == Some(i)
  {
    var r := FindChoice(choices, choices[i].name);
    assert r.Some?;
  }

  /** A text that names no choice throws. */
  lemma UnknownChoiceThrows(question: Question, prompt: Prompt, promptMulti: PromptMulti, chosen: string)
    requires question.kind == List || question.kind == RawList
    requires prompt(question) == Returned(Some(chosen)) && chosen != ""
    requires forall j :: 0 <= j < |question.choices| ==> !(question.choices[j].Choice? && question.choices[j].name == chosen)
    ensures Ask(question, prompt, promptMulti) == Threw(Typeguard)
  {
  }

  /** An input question aborts only when nothing was entered; any text,
      the empty one included, is the answer. */
  lemma InputAnswers(question: Question, prompt: Prompt, promptMulti: PromptMulti)
    requires question.kind == Input && prompt(question).Returned?
    ensures Ask(question, prompt, promptMulti) ==
            if prompt(question).value.None? then Returned(Abort)
            else Returned(Single(prompt(question).value.value, Some(question.name)))
  {
  }

  /** A checkbox question answers the ticked names. */
  lemma CheckboxAnswers(question: Question, prompt: Prompt, promptMulti: PromptMulti)
    requires question.kind == Checkbox && promptMulti(question).Returned?
    ensures Ask(question, prompt, promptMulti) == Returned(Multi(promptMulti(question).value, Some(question.name)))
  {
  }

  /** Any other question type aborts without prompting. */
  lemma OtherKindAborts(question: Question, prompt1: Prompt, prompt2: Prompt, promptMulti: PromptMulti)
    requires question.kind.Other?
    ensures Ask(question, prompt1, promptMulti) == Returned(Abort)
    ensures Ask(question, prompt1, promptMulti) == Ask(question, prompt2, promptMulti)
  {
  }

  // ---------------------------------------------------------------------
  // TestUserInput

  const NotImplemented := "Method not implemented."

  /** Answers looked up by question name in a map fixed at construction. */
  class TestUserInput {
    const questionAnswerMap: map<string, Answer>

    constructor(questionAnswerMap: map<string, Answer>)
      ensures this.questionAnswerMap == questionAnswerMap
    {
      this.questionAnswerMap := questionAnswerMap;
    }

    /** `ask`: the mapped answer, or a rejection naming the question. Names
        inherited from `Object.prototype` are not modelled. */
    method Ask(questionChain: Question) returns (r: Completion<Answer>)
      ensures r.Returned? <==> questionChain.name in questionAnswerMap
      ensures r.Returned? ==> r.value == questionAnswerMap[questionChain.name]
      ensures r.Threw? ==> r.message == "Undefined TestUserInput question name: " + questionChain.name
    {
      if questionChain.name in questionAnswerMap {
        r := Returned(questionAnswerMap[questionChain.name]);
      } else {
        r := Threw("Undefined TestUserInput question name: " + questionChain.name);
      }
    }

    /** `close` always throws. */
    method Close() returns (r: Completion<()>)
      ensures r == Threw(NotImplemented)
    {
      r := Threw(NotImplemented);
    }
  }
}
