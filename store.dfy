/**
 * The entity store: one table per record kind, keyed by id. The methods below stand for
 * the persistence calls the core makes (ControlHome.create/update/remove,
 * TransitionHome.update/removeTransitionByStep, StepHome.remove and
 * FormDisplayService.deleteDisplayAndDescendants); the functions stand for its queries.
 */
module Store {
  import opened Entities
  import DisplayTree

  /** The ids of the transitions leaving a step (TransitionHome.getTransitionsListFromStep). */
  function TransitionsFrom(transitions: map<int, Transition>, idStep: int): set<int>
  {
    set t | t in transitions.Keys && transitions[t].fromStep == idStep
  }

  /** The ids of a step's displays with a given parent (FormDisplayHome.getFormDisplayListByParent). */
  function DisplaysByParent(displays: map<int, FormDisplay>, idStep: int, idParent: int): set<int>
  {
    set d | d in displays.Keys && displays[d].idStep == idStep && displays[d].idParent == idParent
  }

  /** The VALIDATION control of a question, as ControlHome.getControlByQuestionAndType selects it. */
  predicate IsValidationOf(c: Control, idQuestion: int)
  {
    c.idQuestion == idQuestion && c.controlType == ValidationControl
  }

  /** The CONDITIONAL control of a display, as ControlHome.getConditionalDisplayControlByDisplay selects it. */
  predicate IsConditionOf(c: Control, idDisplay: int)
  {
    c.idTargetFormDisplay == idDisplay && c.controlType == ConditionalControl
  }

  /** A positive id that is larger than every id already in use, as an auto-increment key is. */
  method NextId(used: set<int>) returns (id: int)
    ensures id > 0 && id !in used
    ensures forall k :: k in used ==> k < id
  {
    id := 1;
    var rest := used;
    while rest != {}
      invariant rest <= used
      invariant id > 0
      invariant forall k :: k in used && k !in rest ==> k < id
      decreases rest
    {
      NonEmptyHasMember(rest);
      var k :| k in rest;
      if k >= id {
        id := k + 1;
      }
      rest := rest - {k};
    }
  }

  class FormStore {
    var steps: map<int, Step>
    var transitions: map<int, Transition>
    var controls: map<int, Control>
    var displays: map<int, FormDisplay>
    var questions: map<int, Question>
    var groups: map<int, Group>

    /** Every row is stored under its own id. */
    ghost predicate Valid()
      reads this
    {
      && (forall k :: k in steps ==> steps[k].id == k)
      && (forall k :: k in transitions ==> transitions[k].id == k)
      && (forall k :: k in controls ==> controls[k].id == k)
      && (forall k :: k in displays ==> displays[k].id == k)
      && (forall k :: k in questions ==> questions[k].id == k)
      && (forall k :: k in groups ==> groups[k].id == k)
    }

    constructor ()
      ensures Valid()
      ensures steps == map[] && transitions == map[] && controls == map[]
      ensures displays == map[] && questions == map[] && groups == map[]
    {
      steps, transitions, controls := map[], map[], map[];
      displays, questions, groups := map[], map[], map[];
    }

    /** The first control found that satisfies a selection, or None when there is none. */
    method FindControl(selects: Control -> bool) returns (r: Option<Control>)
      requires Valid()
      ensures r.Some? ==> r.value.id in controls && controls[r.value.id] == r.value && selects(r.value)
      ensures r.None? ==> forall k :: k in controls ==> !selects(controls[k])
    {
      if exists k :: k in controls && selects(controls[k]) {
        var k :| k in controls && selects(controls[k]);
        r := Some(controls[k]);
      } else {
        r := None;
      }
    }

    /** ControlHome.create: the control is stored under a new id, which is returned. */
    method CreateControl(c: Control) returns (id: int)
      requires Valid()
      modifies this`controls
      ensures Valid()
      ensures id > 0 && id !in old(controls)
      ensures controls == old(controls)[id := c.(id := id)]
    {
      id := NextId(controls.Keys);
      controls := controls[id := c.(id := id)];
    }

    /** ControlHome.update: rewrites the row with the control's id, if there is one. */
    method UpdateControl(c: Control)
      requires Valid()
      modifies this`controls
      ensures Valid()
      ensures controls == Updated(old(controls), c.id, c)
    {
      controls := Updated(controls, c.id, c);
    }

    /** ControlHome.remove. */
    method RemoveControl(id: int)
      requires Valid()
      modifies this`controls
      ensures Valid()
      ensures controls == old(controls) - {id}
    {
      controls := controls - {id};
    }

    /** TransitionHome.update: rewrites the row with the transition's id, if there is one. */
    method UpdateTransition(t: Transition)
      requires Valid()
      modifies this`transitions
      ensures Valid()
      ensures transitions == Updated(old(transitions), t.id, t)
    {
      transitions := Updated(transitions, t.id, t);
    }

    /** TransitionHome.removeTransitionByStep: drops every transition leaving the step. */
    method RemoveTransitionsByStep(idStep: int)
      requires Valid()
      modifies this`transitions
      ensures Valid()
      ensures transitions == old(transitions) - TransitionsFrom(old(transitions), idStep)
    {
      transitions := transitions - TransitionsFrom(transitions, idStep);
    }

    /** StepHome.remove. */
    method RemoveStepRow(idStep: int)
      requires Valid()
      modifies this`steps
      ensures Valid()
      ensures steps == old(steps) - {idStep}
    {
      steps := steps - {idStep};
    }

    /**
     * FormDisplayService.deleteDisplayAndDescendants. Its effect on the display table is
     * fixed; it may also delete the questions and groups of the removed displays, so those
     * tables are left unconstrained.
     */
    method DeleteDisplayAndDescendants(idDisplay: int)
      requires Valid()
      modifies this`displays, this`questions, this`groups
      ensures Valid()
      ensures displays == old(displays) - DisplayTree.Subtree(old(displays), idDisplay)
    {
      var sub := DisplayTree.CollectSubtree(displays, idDisplay);
      displays := displays - sub;
    }
  }
}
