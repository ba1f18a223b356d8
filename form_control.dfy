/**
 * FormControlJspBean: the admin controller that edits one control at a time. Between
 * requests it keeps a session "draft" (the control being edited and the transition,
 * question, group and step it was opened from); each handler below moves that draft on.
 * HTTP parameters arrive as plain ints and strings, an absent parameter as defaultId (for
 * ids) or "" (for strings). The validator registry is a function from an entry type to the
 * names of the validators that apply to it, in registration order.
 */
module FormControl {
  import opened Entities
  import opened Store

  /** The page template the control form is rendered with. */
  datatype ControlTemplate = QuestionControlTemplate | TransitionControlTemplate | ConditionControlTemplate

  /** The title of the condition form, built from the title of the question or group it guards. */
  datatype ConditionTitle = QuestionConditionTitle(questionTitle: string) | GroupConditionTitle(groupTitle: string)

  /** The list page a finished edit goes back to. */
  datatype ReturnPage = ManageTransitions | ManageQuestions

  /** What a handler answers with. */
  datatype Outcome =
    | ManageForm                                   // redirectToViewManageForm
    | ModifyControlView                            // redirectView to the modify-control view
    | ControlPage(template: Option<ControlTemplate>) // the control form itself
    | ConfirmRemoval(idControl: int)               // the removal confirmation for that control
    | ReturnTo(page: ReturnPage, idStep: int)      // getControlReturnUrl's target

  /** The verdict of populateAndValidateControl; each rejection names its error message. */
  datatype Verdict = Accepted | ValidatorNotApplicable | ValidatorMismatch | BeanRejected

  /** The validator names that apply to an entry type (EntryServiceManager's list). */
  type Registry = Option<EntryType> -> seq<string>

  /** The validators offered for a question id: none unless the question exists and has an entry. */
  function OfferedValidators(idQuestion: int, defaultId: int, questions: map<int, Question>, registry: Registry): seq<string>
  {
    if idQuestion != defaultId && idQuestion in questions && questions[idQuestion].entry.Some?
    then registry(questions[idQuestion].entry.value.entryType)
    else []
  }

  /** The draft as buildControlModel leaves it, case by case. */
  function ModelDraft(
      c: Control, validatorParam: string, idQuestionParam: int, defaultId: int,
      questions: map<int, Question>, registry: Registry): Control
  {
    var questionChanged := idQuestionParam != defaultId && c.idQuestion != idQuestionParam;
    var validatorChanged := validatorParam != "" && c.validatorName != validatorParam;
    var idQuestion := if questionChanged then idQuestionParam else c.idQuestion;
    var offered := OfferedValidators(idQuestion, defaultId, questions, registry);
    c.(idQuestion := idQuestion,
       validatorName :=
         if |offered| >= 1 then offered[0]
         else if questionChanged then ""
         else if validatorChanged then validatorParam
         else c.validatorName,
       value := if questionChanged || validatorChanged then "" else c.value)
  }

  /** The checks of populateAndValidateControl, then populate and bean validation. */
  function ValidateDraft(
      c: Control, idQuestionParam: int, validatorParam: string, questions: map<int, Question>,
      registry: Registry, populate: Control -> Control, validateBean: Control -> bool): (Verdict, Control)
    requires idQuestionParam > 0 && c.validatorName != "" ==> idQuestionParam in questions
  {
    if idQuestionParam > 0 && c.validatorName != "" then
      var relinked := c.(idQuestion := idQuestionParam);
      var q := questions[idQuestionParam];
      if q.entry.Some? && c.validatorName !in registry(q.entry.value.entryType) then
        (ValidatorNotApplicable, relinked.(validatorName := "", value := ""))
      else
        PopulateDraft(relinked, validatorParam, populate, validateBean)
    else
      PopulateDraft(c, validatorParam, populate, validateBean)
  }

  /** The second half of populateAndValidateControl: the validator must be the one posted. */
  function PopulateDraft(c: Control, validatorParam: string, populate: Control -> Control, validateBean: Control -> bool): (Verdict, Control)
  {
    if c.validatorName != "" && c.validatorName != validatorParam then
      (ValidatorMismatch, c.(value := ""))
    else
      var populated := populate(c);
      (if validateBean(populated) then Accepted else BeanRejected, populated)
  }

  /** The page and step getControlReturnUrl goes back to. */
  function ReturnTarget(t: Option<Transition>, q: Option<Question>, g: Option<Group>): Outcome
    requires t.Some? || q.Some? || g.Some?
  {
    if t.Some? then ReturnTo(ManageTransitions, t.value.fromStep)
    else if q.Some? then ReturnTo(ManageQuestions, q.value.idStep)
    else ReturnTo(ManageQuestions, g.value.idStep)
  }

  /** retrieveControlFromRequest's draft: reloaded unless it already is the requested control. */
  function Reloaded(c: Option<Control>, idControl: int, controls: map<int, Control>): Option<Control>
  {
    if c.None? || c.value.id != idControl then Lookup(controls, idControl) else c
  }

  /** buildControlModel never changes which control the draft is, nor its kind or target. */
  lemma ModelDraftKeepsIdentity(
      c: Control, validatorParam: string, idQuestionParam: int, defaultId: int,
      questions: map<int, Question>, registry: Registry)
    ensures var r := ModelDraft(c, validatorParam, idQuestionParam, defaultId, questions, registry);
            r.id == c.id && r.controlType == c.controlType && r.idTargetFormDisplay == c.idTargetFormDisplay
  {
  }

  /**
   * Choosing another question re-links the draft to it and clears its value; its validator
   * is cleared too, unless the new question offers one, which then becomes the validator.
   */
  lemma QuestionChangeResetsValidator(
      c: Control, validatorParam: string, idQuestionParam: int, defaultId: int,
      questions: map<int, Question>, registry: Registry)
    requires idQuestionParam != defaultId && idQuestionParam != c.idQuestion
    ensures var r := ModelDraft(c, validatorParam, idQuestionParam, defaultId, questions, registry);
            var offered := OfferedValidators(idQuestionParam, defaultId, questions, registry);
            && r.idQuestion == idQuestionParam
            && r.value == ""
            && r.validatorName == (if |offered| >= 1 then offered[0] else "")
  {
  }

  /** When the draft's question offers validators, the draft ends up with the first of them. */
  lemma FirstValidatorIsDefault(
      c: Control, validatorParam: string, idQuestionParam: int, defaultId: int,
      questions: map<int, Question>, registry: Registry)
    ensures var r := ModelDraft(c, validatorParam, idQuestionParam, defaultId, questions, registry);
            var offered := OfferedValidators(r.idQuestion, defaultId, questions, registry);
            |offered| >= 1 ==> r.validatorName == offered[0]
  {
  }

  /**
   * With the question unchanged and no validator offered for it, a posted validator name
   * that differs from the draft's replaces it and clears the value; otherwise the draft
   * keeps both.
   */
  lemma PostedValidatorSelects(
      c: Control, validatorParam: string, idQuestionParam: int, defaultId: int,
      questions: map<int, Question>, registry: Registry)
    requires idQuestionParam == defaultId || idQuestionParam == c.idQuestion
    requires |OfferedValidators(c.idQuestion, defaultId, questions, registry)| == 0
    ensures var r := ModelDraft(c, validatorParam, idQuestionParam, defaultId, questions, registry);
            && r.idQuestion == c.idQuestion
            && (validatorParam != "" && validatorParam != c.validatorName ==>
                  r.validatorName == validatorParam && r.value == "")
            && (validatorParam == "" || validatorParam == c.validatorName ==>
                  r.validatorName == c.validatorName && r.value == c.value)
  {
  }

  /**
   * A validator that does not apply to the posted question's entry type is rejected: the
   * draft is linked to that question and loses its validator and value.
   */
  lemma StaleValidatorRejected(
      c: Control, idQuestionParam: int, validatorParam: string, questions: map<int, Question>,
      registry: Registry, populate: Control -> Control, validateBean: Control -> bool)
    requires idQuestionParam > 0 && c.validatorName != "" && idQuestionParam in questions
    requires questions[idQuestionParam].entry.Some?
    requires c.validatorName !in registry(questions[idQuestionParam].entry.value.entryType)
    ensures var (v, r) := ValidateDraft(c, idQuestionParam, validatorParam, questions, registry, populate, validateBean);
            v == ValidatorNotApplicable && r == c.(idQuestion := idQuestionParam, validatorName := "", value := "")
  {
  }

  /**
   * What acceptance guarantees: the validator applies to the posted question's entry type,
   * it is the validator that was posted, and the saved draft is the populated one that
   * passed bean validation.
   */
  lemma AcceptedDraftIsConsistent(
      c: Control, idQuestionParam: int, validatorParam: string, questions: map<int, Question>,
      registry: Registry, populate: Control -> Control, validateBean: Control -> bool)
    requires idQuestionParam > 0 && c.validatorName != "" ==> idQuestionParam in questions
    requires ValidateDraft(c, idQuestionParam, validatorParam, questions, registry, populate, validateBean).0 == Accepted
    ensures idQuestionParam > 0 && c.validatorName != "" && questions[idQuestionParam].entry.Some? ==>
              c.validatorName in registry(questions[idQuestionParam].entry.value.entryType)
    ensures c.validatorName == "" || c.validatorName == validatorParam
    ensures var relinked := if idQuestionParam > 0 && c.validatorName != "" then c.(idQuestion := idQuestionParam) else c;
            var r := ValidateDraft(c, idQuestionParam, validatorParam, questions, registry, populate, validateBean).1;
            r == populate(relinked) && validateBean(r)
  {
  }

  /** A draft whose validator differs from the posted one is rejected and loses its value. */
  lemma MismatchedValidatorRejected(
      c: Control, idQuestionParam: int, validatorParam: string, questions: map<int, Question>,
      registry: Registry, populate: Control -> Control, validateBean: Control -> bool)
    requires idQuestionParam > 0 && c.validatorName != "" ==> idQuestionParam in questions
    requires c.validatorName != "" && c.validatorName != validatorParam
    ensures var (v, r) := ValidateDraft(c, idQuestionParam, validatorParam, questions, registry, populate, validateBean);
            && (v == ValidatorNotApplicable || v == ValidatorMismatch)
            && r.value == ""
            && r.id == c.id && r.controlType == c.controlType
  {
  }

  /** The controller's session state over the entity store. */
  class ControlEditor {
    const store: FormStore
    const registry: Registry
    const defaultId: int

    var transition: Option<Transition>
    var question: Option<Question>
    var group: Option<Group>
    var control: Option<Control>
    var step: Option<Step>
    var controlTemplate: Option<ControlTemplate>
    var controlTitle: Option<ConditionTitle>

    /** Every session field is null. */
    ghost predicate SessionCleared()
      reads this
    {
      && transition.None? && question.None? && group.None? && control.None?
      && step.None? && controlTemplate.None? && controlTitle.None?
    }

    constructor (store: FormStore, registry: Registry, defaultId: int)
      ensures this.store == store && this.registry == registry && this.defaultId == defaultId
      ensures SessionCleared()
    {
      this.store := store;
      this.registry := registry;
      this.defaultId := defaultId;
      transition, question, group, control := None, None, None, None;
      step, controlTemplate, controlTitle := None, None, None;
    }

    /** getModifyQuestionControl: open the VALIDATION control of a question, or a new one. */
    method GetModifyQuestionControl(idStep: int, idQuestion: int) returns (o: Outcome)
      requires store.Valid()
      modifies this
      ensures step == Lookup(store.steps, idStep)
      ensures transition == old(transition) && group == old(group) && controlTitle == old(controlTitle)
      ensures step.None? ==>
                o == ManageForm && question == old(question)
                && control == old(control) && controlTemplate == old(controlTemplate)
      ensures step.Some? ==> question == Lookup(store.questions, idQuestion)
      ensures step.Some? && question.None? ==>
                o == ManageForm && control == old(control) && controlTemplate == old(controlTemplate)
      ensures step.Some? && question.Some? ==>
                && o == ModifyControlView
                && controlTemplate == Some(QuestionControlTemplate)
                && control.Some? && IsValidationOf(control.value, idQuestion)
                && ((exists k :: k in store.controls && IsValidationOf(store.controls[k], idQuestion)) ==>
                      control.value.id in store.controls && store.controls[control.value.id] == control.value)
                && ((forall k :: k in store.controls ==> !IsValidationOf(store.controls[k], idQuestion)) ==>
                      control.value == NewControl(ValidationControl).(idQuestion := idQuestion))
    {
      step := Lookup(store.steps, idStep);
      if step.None? {
        return ManageForm;
      }
      question := Lookup(store.questions, idQuestion);
      if question.None? {
        return ManageForm;
      }
      var q := question.value;
      var found := store.FindControl(c => IsValidationOf(c, q.id));
      if found.Some? {
        control := found;
      } else {
        control := Some(NewControl(ValidationControl).(idQuestion := idQuestion));
      }
      controlTemplate := Some(QuestionControlTemplate);
      o := ModifyControlView;
    }

    /** getModifyTransitionControl: open the control a transition refers to, or a new one. */
    method GetModifyTransitionControl(idStep: int, idTransition: int) returns (o: Outcome)
      requires store.Valid()
      modifies this
      ensures step == Lookup(store.steps, idStep)
      ensures question == old(question) && group == old(group) && controlTitle == old(controlTitle)
      ensures step.None? ==>
                o == ManageForm && transition == old(transition)
                && control == old(control) && controlTemplate == old(controlTemplate)
      ensures step.Some? ==> transition == Lookup(store.transitions, idTransition)
      ensures step.Some? && transition.None? ==>
                o == ManageForm && control == old(control) && controlTemplate == old(controlTemplate)
      ensures step.Some? && transition.Some? ==>
                && o == ModifyControlView
                && controlTemplate == Some(TransitionControlTemplate)
                && control == (if transition.value.idControl in store.controls
                               then Some(store.controls[transition.value.idControl])
                               else Some(NewControl(TransitionControl)))
    {
      step := Lookup(store.steps, idStep);
      if step.None? {
        return ManageForm;
      }
      transition := Lookup(store.transitions, idTransition);
      if transition.None? {
        return ManageForm;
      }
      control := Lookup(store.controls, transition.value.idControl);
      if control.None? {
        control := Some(NewControl(TransitionControl));
      }
      controlTemplate := Some(TransitionControlTemplate);
      o := ModifyControlView;
    }

    /** getModifyConditionControl: open the CONDITIONAL control of a display, or a new one. */
    method GetModifyConditionControl(idStep: int, idDisplay: int) returns (o: Outcome)
      requires store.Valid()
      modifies this
      ensures step == Lookup(store.steps, idStep) && transition == old(transition)
      ensures step.None? || idDisplay !in store.displays ==>
                && o == ManageForm && question == old(question) && group == old(group)
                && controlTitle == old(controlTitle) && control == old(control)
                && controlTemplate == old(controlTemplate)
      ensures step.Some? && idDisplay in store.displays && store.displays[idDisplay].compositeType == QuestionComposite ==>
                && question == Lookup(store.questions, store.displays[idDisplay].idComposite)
                && group == old(group)
                && (question.Some? ==> controlTitle == Some(QuestionConditionTitle(question.value.title)))
      ensures step.Some? && idDisplay in store.displays && store.displays[idDisplay].compositeType == GroupComposite ==>
                && group == Lookup(store.groups, store.displays[idDisplay].idComposite)
                && question == old(question)
                && (group.Some? ==> controlTitle == Some(GroupConditionTitle(group.value.title)))
      ensures step.Some? && idDisplay in store.displays ==>
                var fd := store.displays[idDisplay];
                var found := if fd.compositeType == QuestionComposite then fd.idComposite in store.questions
                             else fd.idComposite in store.groups;
                && (!found ==>
                      && o == ManageForm && controlTitle == old(controlTitle)
                      && control == old(control) && controlTemplate == old(controlTemplate))
                && (found ==>
                      && o == ModifyControlView
                      && controlTemplate == Some(ConditionControlTemplate)
                      && control.Some? && IsConditionOf(control.value, idDisplay)
                      && ((exists k :: k in store.controls && IsConditionOf(store.controls[k], idDisplay)) ==>
                            control.value.id in store.controls && store.controls[control.value.id] == control.value)
                      && ((forall k :: k in store.controls ==> !IsConditionOf(store.controls[k], idDisplay)) ==>
                            control.value == NewControl(ConditionalControl).(idTargetFormDisplay := idDisplay)))
    {
      step := Lookup(store.steps, idStep);
      if step.None? {
        return ManageForm;
      }
      var display := Lookup(store.displays, idDisplay);
      if display.None? {
        return ManageForm;
      }
      var fd := display.value;
      if fd.compositeType == QuestionComposite {
        question := Lookup(store.questions, fd.idComposite);
        if question.None? {
          return ManageForm;
        }
        controlTitle := Some(QuestionConditionTitle(question.value.title));
      } else {
        group := Lookup(store.groups, fd.idComposite);
        if group.None? {
          return ManageForm;
        }
        controlTitle := Some(GroupConditionTitle(group.value.title));
      }
      var found := store.FindControl(c => IsConditionOf(c, idDisplay));
      if found.Some? {
        control := found;
      } else {
        control := Some(NewControl(ConditionalControl).(idTargetFormDisplay := idDisplay));
      }
      controlTemplate := Some(ConditionControlTemplate);
      o := ModifyControlView;
    }

    /** getModifyControl: make sure there is a draft, bring it up to date, show the form. */
    method GetModifyControl(idControlParam: int, validatorParam: string, idQuestionParam: int) returns (o: Outcome)
      requires control.Some? || (idControlParam != defaultId && idControlParam in store.controls) ==> step.Some?
      modifies this`control
      ensures old(control).None? && idControlParam == defaultId ==>
                o == ManageForm && control == Lookup(store.controls, idControlParam)
      ensures !(old(control).None? && idControlParam == defaultId) ==>
                var draft := if old(control).None? then Lookup(store.controls, idControlParam) else old(control);
                && o == ControlPage(controlTemplate)
                && control == (if draft.Some?
                               then Some(ModelDraft(draft.value, validatorParam, idQuestionParam, defaultId, store.questions, registry))
                               else None)
    {
      if control.None? {
        var ok := RetrieveControlFromRequest(idControlParam);
        if !ok {
          return ManageForm;
        }
      }
      if control.Some? {
        BuildControlModel(validatorParam, idQuestionParam);
      }
      o := ControlPage(controlTemplate);
    }

    /** buildControlModel, its updates of the draft (the page model it fills is not modelled). */
    method BuildControlModel(validatorParam: string, idQuestionParam: int)
      requires control.Some? && step.Some?
      modifies this`control
      ensures control == Some(ModelDraft(old(control).value, validatorParam, idQuestionParam, defaultId, store.questions, registry))
    {
      var c := control.value;
      if validatorParam != "" && c.validatorName != validatorParam {
        c := c.(validatorName := validatorParam, value := "");
      }
      if idQuestionParam != defaultId && c.idQuestion != idQuestionParam {
        c := c.(idQuestion := idQuestionParam, validatorName := "", value := "");
      }
      if c.idQuestion != defaultId {
        var q := Lookup(store.questions, c.idQuestion);
        if q.Some? && q.value.entry.Some? {
          var names := registry(q.value.entry.value.entryType);
          if |names| >= 1 {
            c := c.(validatorName := names[0]);
          }
        }
      }
      control := Some(c);
    }

    /** retrieveControlFromRequest: succeeds exactly when a control id was given. */
    method RetrieveControlFromRequest(idControlParam: int) returns (ok: bool)
      modifies this`control
      ensures ok <==> idControlParam != defaultId
      ensures control == Reloaded(old(control), idControlParam, store.controls)
    {
      ok := true;
      if idControlParam == defaultId {
        ok := false;
      }
      if control.None? || control.value.id != idControlParam {
        control := Lookup(store.controls, idControlParam);
      }
    }

    /** populateAndValidateControl. */
    method PopulateAndValidateControl(
        idQuestionParam: int, validatorParam: string,
        populate: Control -> Control, validateBean: Control -> bool) returns (v: Verdict)
      requires control.Some?
      requires idQuestionParam > 0 && control.value.validatorName != "" ==> idQuestionParam in store.questions
      modifies this`control
      ensures var r := ValidateDraft(old(control).value, idQuestionParam, validatorParam, store.questions, registry, populate, validateBean);
              v == r.0 && control == Some(r.1)
    {
      var c := control.value;
      if idQuestionParam > 0 && c.validatorName != "" {
        c := c.(idQuestion := idQuestionParam);
        var q := store.questions[c.idQuestion];
        if q.entry.Some? {
          var available := registry(q.entry.value.entryType);
          if c.validatorName !in available {
            c := c.(validatorName := "", value := "");
            control := Some(c);
            return ValidatorNotApplicable;
          }
        }
      }
      if c.validatorName != "" && c.validatorName != validatorParam {
        c := c.(value := "");
        control := Some(c);
        return ValidatorMismatch;
      }
      c := populate(c);
      control := Some(c);
      v := if validateBean(c) then Accepted else BeanRejected;
    }

    /** doModifyControl: validate the draft, then update it or create it and link it. */
    method DoModifyControl(
        idQuestionParam: int, validatorParam: string,
        populate: Control -> Control, validateBean: Control -> bool) returns (o: Outcome)
      requires store.Valid() && control.Some?
      requires idQuestionParam > 0 && control.value.validatorName != "" ==> idQuestionParam in store.questions
      requires ValidateDraft(control.value, idQuestionParam, validatorParam, store.questions, registry, populate, validateBean).0 == Accepted ==>
                 transition.Some? || question.Some? || group.Some?
      modifies this, store
      ensures store.Valid()
      ensures store.steps == old(store.steps) && store.displays == old(store.displays)
      ensures store.questions == old(store.questions) && store.groups == old(store.groups)
      ensures var (v, draft) := ValidateDraft(old(control).value, idQuestionParam, validatorParam, old(store.questions), registry, populate, validateBean);
              && (v != Accepted ==>
                    && o == ModifyControlView && control == Some(draft)
                    && store.controls == old(store.controls) && store.transitions == old(store.transitions)
                    && transition == old(transition) && question == old(question) && group == old(group)
                    && step == old(step) && controlTemplate == old(controlTemplate) && controlTitle == old(controlTitle))
              && (v == Accepted ==>
                    o == ReturnTarget(old(transition), old(question), old(group)) && SessionCleared())
              && (v == Accepted && draft.id > 0 ==>
                    && store.controls == Updated(old(store.controls), draft.id, draft)
                    && store.transitions == old(store.transitions))
              && (v == Accepted && draft.id <= 0 ==>
                    exists id :: id > 0 && id !in old(store.controls)
                      && store.controls == old(store.controls)[id := draft.(id := id)]
                      && store.transitions == (if old(transition).Some?
                                               then Updated(old(store.transitions), old(transition).value.id, old(transition).value.(idControl := id))
                                               else old(store.transitions)))
    {
      var v := PopulateAndValidateControl(idQuestionParam, validatorParam, populate, validateBean);
      if v != Accepted {
        return ModifyControlView;
      }
      var draft := control.value;
      if draft.id > 0 {
        store.UpdateControl(draft);
      } else {
        var id := store.CreateControl(draft);
        control := Some(draft.(id := id));
        if transition.Some? {
          transition := Some(transition.value.(idControl := id));
          store.UpdateTransition(transition.value);
        }
        assert id > 0 && id !in old(store.controls) && store.controls == old(store.controls)[id := draft.(id := id)];
      }
      o := GetControlReturnUrl();
    }

    /** getConfirmRemoveControl: which control the removal confirmation is about. */
    method GetConfirmRemoveControl(idControlParam: int, idTransitionParam: int) returns (o: Outcome)
      requires idControlParam == defaultId && idTransitionParam != defaultId ==> idTransitionParam in store.transitions
      modifies this`transition
      ensures idControlParam != defaultId ==> o == ConfirmRemoval(idControlParam) && transition == old(transition)
      ensures idControlParam == defaultId ==> transition == Lookup(store.transitions, idTransitionParam)
      ensures idControlParam == defaultId && idTransitionParam == defaultId ==> o == ManageForm
      ensures idControlParam == defaultId && idTransitionParam != defaultId ==>
                o == ConfirmRemoval(store.transitions[idTransitionParam].idControl)
    {
      var idControl := idControlParam;
      if idControl == defaultId {
        transition := Lookup(store.transitions, idTransitionParam);
        if idTransitionParam == defaultId {
          return ManageForm;
        }
        idControl := transition.value.idControl;
      }
      o := ConfirmRemoval(idControl);
    }

    /** doRemoveControl: delete the control and clear the session transition's link to it. */
    method DoRemoveControl(idControlParam: int) returns (o: Outcome)
      requires store.Valid()
      requires idControlParam != defaultId && idControlParam in store.controls ==>
                 transition.Some? || question.Some? || group.Some?
      modifies this, store
      ensures store.Valid()
      ensures store.steps == old(store.steps) && store.displays == old(store.displays)
      ensures store.questions == old(store.questions) && store.groups == old(store.groups)
      ensures idControlParam == defaultId || idControlParam !in old(store.controls) ==>
                && o == ManageForm
                && store.controls == old(store.controls) && store.transitions == old(store.transitions)
                && transition == old(transition) && question == old(question) && group == old(group)
                && step == old(step) && controlTemplate == old(controlTemplate) && controlTitle == old(controlTitle)
      ensures idControlParam == defaultId ==> control == Reloaded(old(control), idControlParam, old(store.controls))
      ensures idControlParam != defaultId && idControlParam !in old(store.controls) ==> control.None?
      ensures idControlParam != defaultId && idControlParam in old(store.controls) ==>
                && store.controls == old(store.controls) - {idControlParam}
                && store.transitions == (if old(transition).Some?
                                         then Updated(old(store.transitions), old(transition).value.id, old(transition).value.(idControl := 0))
                                         else old(store.transitions))
                && o == ReturnTarget(old(transition), old(question), old(group))
                && SessionCleared()
    {
      var ok := RetrieveControlFromRequest(idControlParam);
      if !ok {
        return ManageForm;
      }
      control := Lookup(store.controls, idControlParam);
      if control.Some? {
        store.RemoveControl(control.value.id);
        if transition.Some? {
          transition := Some(transition.value.(idControl := 0));
          store.UpdateTransition(transition.value);
        }
      } else {
        return ManageForm;
      }
      o := GetControlReturnUrl();
    }

    /** getControlReturnUrl: choose the step to return to, then clear the whole session. */
    method GetControlReturnUrl() returns (o: Outcome)
      requires transition.Some? || question.Some? || group.Some?
      modifies this
      ensures old(transition).Some? ==> o == ReturnTo(ManageTransitions, old(transition).value.fromStep)
      ensures old(transition).None? && old(question).Some? ==> o == ReturnTo(ManageQuestions, old(question).value.idStep)
      ensures old(transition).None? && old(question).None? ==> o == ReturnTo(ManageQuestions, old(group).value.idStep)
      ensures o == ReturnTarget(old(transition), old(question), old(group))
      ensures SessionCleared()
    {
      var idStep: int;
      var page: ReturnPage;
      if transition.Some? {
        page := ManageTransitions;
        idStep := transition.value.fromStep;
      } else {
        page := ManageQuestions;
        if question.Some? {
          idStep := question.value.idStep;
        } else {
          idStep := group.value.idStep;
        }
      }
      controlTemplate := None;
      step := None;
      control := None;
      transition := None;
      question := None;
      group := None;
      controlTitle := None;
      o := ReturnTo(page, idStep);
    }
  }
}
