# Forms plugin: step removal, the control editor and the question display

This project models three pieces of the Lutece forms plugin in Dafny and proves properties
about them:

- **Step removal** (`StepService.removeStep`). Removing a step deletes each of its root
  displays with all their descendants. It then deletes the control of every guarded
  transition leaving the step, then those transitions, then the step row.
  - The entity store is a class `FormStore`, with one `map` per table.
  - The removal is a method that updates those tables in place, with two loops, as the source does.
  - Which displays count as descendants is defined by parent chains (`DisplayTree.Descends`).
  - Deleting one display's subtree is a worklist method, proved equal to that definition.
- **The control editor** (`FormControlJspBean`). This is an admin controller. It keeps a
  session draft of one control, together with the transition, question, group and step it
  was opened from:
  - the `get…Control` handlers open a draft;
  - `getModifyControl` and `buildControlModel` bring the draft up to date with the request;
  - `doModifyControl` validates the draft, then saves it or creates it;
  - `doRemoveControl` deletes the control;
  - `getControlReturnUrl` picks the step page to return to and clears the session.

  The controller is a class `ControlEditor` with the seven session fields. Its handlers
  are methods whose postconditions give the new session and store in terms of
  specification functions: `ModelDraft`, `ValidateDraft` and `ReturnTarget`. Lemmas about
  those functions state what the controller promises.
- **The question display** (`CompositeQuestionDisplay`): the non-rendering state of a
  question leaf of the display tree. That is its bound question, icon, display node and
  responses.

How the source's inputs are represented:

- HTTP parameters are plain `int` and `string` arguments.
- An absent id parameter is the editor's `defaultId` constant. This is `DEFAULT_ID_VALUE`,
  whose value is not part of this model.
- An absent string parameter, or a Java `null` string, is `""`.
- A Java `null` reference is `None`.
- The validator registry is a function from an entry type to the names of its applicable
  validators, in registration order.
- Bean population (`populate`) and bean validation (`validateBean`) are function parameters.

## Model

| member | source | states |
|---|---|---|
| StepService.RemoveStep | src/java/fr/paris/lutece/plugins/forms/service/StepService.java:69-92 | The new display table is the old one minus every root display of the step and every descendant of one, always computed in the original table. Controls lose exactly those named by a positive `idControl` on a transition leaving the step (read before the transitions are dropped). Transitions lose exactly those leaving the step. Steps lose exactly the step. The store stays well keyed. |
| StepService.CascadeComplete | src/java/fr/paris/lutece/plugins/forms/service/StepService.java:73-90 | After the cascade the step is gone and every other step remains. A transition remains iff it does not leave the step. No control of a guarded outgoing transition remains. A display remains iff it descends from none of the step's roots. |
| StepService.RootsRemoved | src/java/fr/paris/lutece/plugins/forms/service/StepService.java:73-78 | Every root display of the step (parent id 0) is itself among the removed displays. |
| StepService.OnlyGuardedControlsRemoved | src/java/fr/paris/lutece/plugins/forms/service/StepService.java:80-86 | A removed control id is positive and is the `idControl` of some transition leaving the step. So a transition with control id 0 or less removes nothing. |
| StepService.ControlsMustBeReadFirst | src/java/fr/paris/lutece/plugins/forms/service/StepService.java:80-90 | Once the step's transitions are dropped, they name no control any more. Only reading the controls first lets the step's owned controls be removed at all. |
| StepService.OtherStepsDisplaysSurvive | src/java/fr/paris/lutece/plugins/forms/service/StepService.java:62-78 | In a display table where every non-root display has a parent display of the same step, removing a step removes no display of another step. |
| DisplayTree.CollectSubtree | src/java/fr/paris/lutece/plugins/forms/service/StepService.java:62-64 | The worklist collects exactly the displays that descend from the given display: the display itself and all its descendants. |
| DisplayTree.RemoveNextSubtree | src/java/fr/paris/lutece/plugins/forms/service/StepService.java:75-78 | Deleting subtrees one root at a time, each computed in the table left by the earlier deletions, removes the same displays as deleting all of them from the original table. |
| DisplayTree.ChainStaysInStep | src/java/fr/paris/lutece/plugins/forms/service/StepService.java:73 | In a step-coherent table, every display on a parent chain belongs to the step of the chain's first display. |
| Store.NextId | src/java/fr/paris/lutece/plugins/forms/web/admin/FormControlJspBean.java:394 | The id given to a created control is positive, unused, and larger than every id in use. |
| Store.FormStore.FindControl | src/java/fr/paris/lutece/plugins/forms/web/admin/FormControlJspBean.java:153 | The control found is stored under its id and satisfies the selection. None is found only when no stored control satisfies it. |
| Store.FormStore.CreateControl | src/java/fr/paris/lutece/plugins/forms/web/admin/FormControlJspBean.java:394 | The control is added under a fresh positive id, and that id is returned. No other row changes. |
| Store.FormStore.UpdateControl | src/java/fr/paris/lutece/plugins/forms/web/admin/FormControlJspBean.java:389 | The row with the control's id is rewritten if it exists. A missing row is not created. |
| Store.FormStore.RemoveControl | src/java/fr/paris/lutece/plugins/forms/service/StepService.java:84 | Exactly that control row is gone. |
| Store.FormStore.UpdateTransition | src/java/fr/paris/lutece/plugins/forms/web/admin/FormControlJspBean.java:399 | The row with the transition's id is rewritten if it exists. |
| Store.FormStore.RemoveTransitionsByStep | src/java/fr/paris/lutece/plugins/forms/service/StepService.java:88 | Exactly the transitions leaving the step are gone. |
| Store.FormStore.RemoveStepRow | src/java/fr/paris/lutece/plugins/forms/service/StepService.java:90 | Exactly the step row is gone. |
| Store.FormStore.DeleteDisplayAndDescendants | src/java/fr/paris/lutece/plugins/forms/service/StepService.java:62-64 | The display table loses exactly the display and its descendants. |
| FormControl.ControlEditor.GetModifyQuestionControl | src/java/fr/paris/lutece/plugins/forms/web/admin/FormControlJspBean.java:133-165 | If the step or the question is missing, the handler goes back to the form page without building a draft. Otherwise the draft is the question's stored VALIDATION control if there is one. Failing that, it is a new VALIDATION control for that question. The template is the question-control template. |
| FormControl.ControlEditor.GetModifyTransitionControl | src/java/fr/paris/lutece/plugins/forms/web/admin/FormControlJspBean.java:175-206 | If the step or the transition is missing, it goes back to the form page. Otherwise the draft is the control named by the transition's `idControl`, or a new TRANSITION control if that control does not exist. |
| FormControl.ControlEditor.GetModifyConditionControl | src/java/fr/paris/lutece/plugins/forms/web/admin/FormControlJspBean.java:216-279 | If the step, the display, or the display's question or group is missing, it goes back to the form page. Otherwise the title comes from that question or group. The draft is the display's CONDITIONAL control, or a new CONDITIONAL control targeting the display. |
| FormControl.ControlEditor.GetModifyControl | src/java/fr/paris/lutece/plugins/forms/web/admin/FormControlJspBean.java:289-308 | With no draft and no control id, it goes back to the form page. Otherwise it shows the control page. The draft shown is the session draft, or else the control reloaded by id, brought up to date by `ModelDraft`. |
| FormControl.ControlEditor.BuildControlModel | src/java/fr/paris/lutece/plugins/forms/web/admin/FormControlJspBean.java:318-353 | The draft becomes `ModelDraft` of the old draft. That function's closed form is justified by the lemmas below. |
| FormControl.ModelDraftKeepsIdentity | src/java/fr/paris/lutece/plugins/forms/web/admin/FormControlJspBean.java:318-353 | Updating the draft never changes its id, type or target display. |
| FormControl.QuestionChangeResetsValidator | src/java/fr/paris/lutece/plugins/forms/web/admin/FormControlJspBean.java:330-351 | A new question id other than the default re-links the draft and clears its value. If the new question offers validators, the validator becomes the first one offered; otherwise it is cleared. |
| FormControl.FirstValidatorIsDefault | src/java/fr/paris/lutece/plugins/forms/web/admin/FormControlJspBean.java:337-351 | Whenever the draft's question offers at least one validator, the draft ends with the first of them. |
| FormControl.PostedValidatorSelects | src/java/fr/paris/lutece/plugins/forms/web/admin/FormControlJspBean.java:320-326 | With the question unchanged and no validator offered, a posted validator that differs from the draft's replaces it and clears the value. An empty or equal one leaves name and value as they were. |
| FormControl.ControlEditor.RetrieveControlFromRequest | src/java/fr/paris/lutece/plugins/forms/web/admin/FormControlJspBean.java:504-519 | Succeeds iff a control id was given. The draft is reloaded by that id unless it already is that control, even when the call fails. |
| FormControl.ControlEditor.PopulateAndValidateControl | src/java/fr/paris/lutece/plugins/forms/web/admin/FormControlJspBean.java:527-561 | The verdict and the new draft are those of `ValidateDraft` on the old draft. |
| FormControl.StaleValidatorRejected | src/java/fr/paris/lutece/plugins/forms/web/admin/FormControlJspBean.java:531-547 | Take a positive question id, a named validator, and a question entry whose type does not offer that validator. Then the draft is rejected as not applicable, linked to that question, and loses its validator name and value. |
| FormControl.MismatchedValidatorRejected | src/java/fr/paris/lutece/plugins/forms/web/admin/FormControlJspBean.java:531-557 | A draft whose validator differs from the posted one is always rejected, either as not applicable or as a mismatch. It loses its value and keeps its id and type. |
| FormControl.AcceptedDraftIsConsistent | src/java/fr/paris/lutece/plugins/forms/web/admin/FormControlJspBean.java:527-561 | When validation succeeds, three things hold. The validator applies to the posted question's entry type. It is the validator that was posted. The result is the populated draft that passed bean validation. |
| FormControl.ControlEditor.DoModifyControl | src/java/fr/paris/lutece/plugins/forms/web/admin/FormControlJspBean.java:380-406 | On rejection the store and the session are unchanged apart from the draft, and the edit view is shown again. When the draft is accepted, three cases follow. A positive id updates that control row. Otherwise the control is created under a fresh id, and the session transition, if any, is updated to point to it. Either way the handler returns to `ReturnTarget` and clears the session. |
| FormControl.ControlEditor.GetConfirmRemoveControl | src/java/fr/paris/lutece/plugins/forms/web/admin/FormControlJspBean.java:416-440 | A given control id is confirmed as it is. Otherwise the transition is loaded into the session. With no transition id, the handler goes back to the form page; with one, it asks to confirm removal of that transition's control. |
| FormControl.ControlEditor.DoRemoveControl | src/java/fr/paris/lutece/plugins/forms/web/admin/FormControlJspBean.java:450-480 | With no control id, or a control that does not exist, nothing is removed and the handler goes back to the form page. Otherwise exactly that control row is deleted. The session transition, if any, gets `idControl` 0 in the store. The handler returns to `ReturnTarget` with the session cleared. |
| FormControl.ControlEditor.GetControlReturnUrl | src/java/fr/paris/lutece/plugins/forms/web/admin/FormControlJspBean.java:569-610 | The return target is the transitions page of the transition's from-step if a transition is set. Otherwise it is the questions page of the question's step, or else of the group's step. Afterwards all seven session fields are null. |
| CompositeQuestion.CompositeQuestionDisplay.InitComposite | src/java/fr/paris/lutece/plugins/forms/web/CompositeQuestionDisplay.java:71-79 | Binds the question the node points at. The icon becomes its entry type's icon when both entry and entry type are present, and is left unchanged otherwise. |
| CompositeQuestion.CompositeQuestionDisplay.SetResponses | src/java/fr/paris/lutece/plugins/forms/web/CompositeQuestionDisplay.java:110-121 | The stored responses are the map's list for the bound question's id, or empty when the map has no entry for it. |
| CompositeQuestion.CompositeQuestionDisplay.CompositeList | src/java/fr/paris/lutece/plugins/forms/web/CompositeQuestionDisplay.java:124-129 | The list has length 1, and its only element is the display itself. |
| CompositeQuestion.CompositeQuestionDisplay.Title | src/java/fr/paris/lutece/plugins/forms/web/CompositeQuestionDisplay.java:132-140 | The bound question's title (the emptiness test changes nothing), or "" without a question. |
| CompositeQuestion.CompositeQuestionDisplay.Type | src/java/fr/paris/lutece/plugins/forms/web/CompositeQuestionDisplay.java:143-146 | Non-empty iff a question is bound, and then the QUESTION label. |
| CompositeQuestion.CompositeQuestionDisplay.SetIcon | src/java/fr/paris/lutece/plugins/forms/web/CompositeQuestionDisplay.java:160-170 | `getIcon` returns the icon just set. |
| CompositeQuestion.CompositeQuestionDisplay.SetFormDisplay | src/java/fr/paris/lutece/plugins/forms/web/CompositeQuestionDisplay.java:148-158 | `getFormDisplay` returns the display just set. |

## Left out

- HTML rendering: `getCompositeHtml`, the validator's display HTML, templates, and the page model maps that `buildControlModel` fills.
- Localised messages, info and error keys, URL building and the redirect helpers. A handler's outcome names only the page and the step id.
- The routing and conditional-visibility engine. It is not in these files.
- Display order fields, and the `idForm` of a step beyond its presence.
- `getReturnUrl` (cancelAndReturn): it only forwards to `getControlReturnUrl`, which is modelled.
- FormDisplayService, ControlHome, TransitionHome, StepHome and CompositeDisplayType are not part of this model. Their operations are modelled on the store as their names and doc comments state:
  - `removeTransitionByStep` removes the transitions leaving the step.
  - An update of a missing row changes nothing.
  - The CONDITIONAL-control query selects by target display and by type.
- StepService.RemoveStep: leaves the question and group tables unconstrained. The doc comment at StepService.java:62-64 says the displays' responses, questions and groups are deleted too, but `deleteDisplayAndDescendants` is not part of this model. So only its effect on the display table is stated.
- FormControl.ControlEditor.GetModifyConditionControl: composite type strings other than the question and group labels are not representable. In the source such a display skips both branches.
- FormControl.ControlEditor.BuildControlModel: the reference comparison `!=` on strings at FormControlJspBean.java:322 is modelled as inequality of values.
- CompositeQuestion.CompositeQuestionDisplay.Type: the actual text of the QUESTION label is not part of this model. Only its being non-empty is meaningful.
- The preconditions below stand for latent null dereferences in the source. They are requirements on callers, not modelled behaviour:
  - GetConfirmRemoveControl: a transition id that is not found (FormControlJspBean.java:423-430).
  - PopulateAndValidateControl and DoModifyControl: a question id that is not found (534-535), and a null draft (531).
  - GetControlReturnUrl, DoModifyControl and DoRemoveControl: transition, question and group all null (588).
  - BuildControlModel and GetModifyControl: a null step (368).
  - SetResponses: no bound question (112).
  - InitComposite: a question that is not found (74).
- A Java `null` response list stored in the response map is treated as an absent key.
