/**
 * CompositeQuestionDisplay: the leaf of a step's rendering tree that shows one question.
 * Only its state is modelled: the question it is bound to, its display node, its icon and
 * the responses it renders errors for. A Java null icon or display is None.
 */
module CompositeQuestion {
  import opened Entities

  /** The label of CompositeDisplayType.QUESTION; only its being non-empty matters here. */
  const QUESTION_TYPE_LABEL: string := "question"

  class CompositeQuestionDisplay {
    var question: Option<Question>
    var formDisplay: Option<FormDisplay>
    var iconName: Option<string>
    var responses: seq<Response>

    /** A display as instantiated: nothing bound, no responses. */
    constructor ()
      ensures question.None? && formDisplay.None? && iconName.None? && responses == []
    {
      question, formDisplay, iconName, responses := None, None, None, [];
    }

    /**
     * initComposite: bind the question the display node points at, and take the icon of
     * its entry type if it has one. The display node itself is not recorded.
     */
    method InitComposite(fd: FormDisplay, questions: map<int, Question>)
      requires fd.idComposite in questions
      modifies this`question, this`iconName
      ensures question == Some(questions[fd.idComposite])
      ensures question.value.entry.Some? && question.value.entry.value.entryType.Some? ==>
                iconName == Some(question.value.entry.value.entryType.value.iconName)
      ensures question.value.entry.None? || question.value.entry.value.entryType.None? ==>
                iconName == old(iconName)
    {
      question := Lookup(questions, fd.idComposite);
      var q := question.value;
      if q.entry.Some? && q.entry.value.entryType.Some? {
        iconName := Some(q.entry.value.entryType.value.iconName);
      }
    }

    /** setResponses: the bound question's responses, or none when the map has no entry for it. */
    method SetResponses(responsesByQuestion: map<int, seq<Response>>)
      requires question.Some?
      modifies this`responses
      ensures question.value.id in responsesByQuestion ==> responses == responsesByQuestion[question.value.id]
      ensures question.value.id !in responsesByQuestion ==> responses == []
    {
      var found := Lookup(responsesByQuestion, question.value.id);
      if found.Some? {
        responses := found.value;
      } else {
        responses := [];
      }
    }

    /** getCompositeList: a question display is a leaf, so its list is itself alone. */
    function CompositeList(): (r: seq<CompositeQuestionDisplay>)
      reads this
      ensures |r| == 1 && r[0] == this
    {
      [this]
    }

    /** getTitle: the bound question's title, or "" when no question is bound. */
    function Title(): (t: string)
      reads this
      ensures question.Some? ==> t == question.value.title
      ensures question.None? ==> t == ""
    {
      if question.Some? && question.value.title != "" then question.value.title else ""
    }

    /** getType: a non-empty label exactly when a question is bound. */
    function Type(): (t: string)
      reads this
      ensures t == QUESTION_TYPE_LABEL || t == ""
      ensures t != "" <==> question.Some?
    {
      if question.Some? then QUESTION_TYPE_LABEL else ""
    }

    function Icon(): Option<string>
      reads this
    {
      iconName
    }

    function GetFormDisplay(): Option<FormDisplay>
      reads this
    {
      formDisplay
    }

    /** setIcon: getIcon returns what was set. */
    method SetIcon(icon: Option<string>)
      modifies this`iconName
      ensures Icon() == icon
    {
      iconName := icon;
    }

    /** setFormDisplay: getFormDisplay returns what was set. */
    method SetFormDisplay(fd: Option<FormDisplay>)
      modifies this`formDisplay
      ensures GetFormDisplay() == fd
    {
      formDisplay := fd;
    }
  }
}
