/**
 * StepService.removeStep: removing a step cascades to its display trees, to the controls
 * of its guarded outgoing transitions, to those transitions, and finally to the step row.
 */
module StepService {
  import opened Entities
  import opened Store
  import opened DisplayTree

  /** The root displays of a step: its displays whose parent is the root sentinel. */
  function RootDisplays(displays: map<int, FormDisplay>, idStep: int): set<int>
  {
    DisplaysByParent(displays, idStep, DISPLAY_ROOT_PARENT_ID)
  }

  /** The controls referenced by the given transitions whose control id is positive. */
  function GuardControls(transitions: map<int, Transition>, ids: set<int>): set<int>
  {
    set t | t in ids && t in transitions && transitions[t].idControl > 0 :: transitions[t].idControl
  }

  /** The controls owned by a step: those of its guarded outgoing transitions. */
  function OwnedControls(transitions: map<int, Transition>, idStep: int): set<int>
  {
    GuardControls(transitions, TransitionsFrom(transitions, idStep))
  }

  /** Every display of the step's root trees: each root and all of its descendants. */
  ghost function RootSubtrees(displays: map<int, FormDisplay>, idStep: int): set<int>
  {
    SubtreesOf(displays, RootDisplays(displays, idStep))
  }

  /** removeStep, with the tables of the entity store updated in place. */
  method RemoveStep(store: FormStore, idStep: int)
    requires store.Valid()
    modifies store
    ensures store.Valid()
    ensures store.displays == old(store.displays) - RootSubtrees(old(store.displays), idStep)
    ensures store.controls == old(store.controls) - OwnedControls(old(store.transitions), idStep)
    ensures store.transitions == old(store.transitions) - TransitionsFrom(old(store.transitions), idStep)
    ensures store.steps == old(store.steps) - {idStep}
  {
    // Delete each root display of the step together with its descendants.
    var roots := RootDisplays(store.displays, idStep);
    ghost var initial := store.displays;
    var pending := roots;
    while pending != {}
      invariant pending <= roots
      invariant store.Valid()
      invariant store.displays == initial - SubtreesOf(initial, roots - pending)
      invariant store.controls == old(store.controls) && store.transitions == old(store.transitions)
      invariant store.steps == old(store.steps)
      decreases pending
    {
      NonEmptyHasMember(pending);
      var r :| r in pending;
      RemoveNextSubtree(initial, roots - pending, r);
      store.DeleteDisplayAndDescendants(r);
      assert (roots - pending) + {r} == roots - (pending - {r});
      pending := pending - {r};
    }
    assert roots - pending == roots;

    // Read the outgoing transitions, and remove the control of each guarded one.
    var table := store.transitions;
    var outgoing := TransitionsFrom(table, idStep);
    var rest := outgoing;
    while rest != {}
      invariant rest <= outgoing
      invariant store.Valid()
      invariant store.controls == old(store.controls) - GuardControls(table, outgoing - rest)
      invariant store.displays == old(store.displays) - RootSubtrees(old(store.displays), idStep)
      invariant store.transitions == table && store.steps == old(store.steps)
      decreases rest
    {
      NonEmptyHasMember(rest);
      var t :| t in rest;
      var done := outgoing - rest;
      var idControl := table[t].idControl;
      if idControl > 0 {
        store.RemoveControl(idControl);
        assert GuardControls(table, done + {t}) == GuardControls(table, done) + {idControl};
      } else {
        assert GuardControls(table, done + {t}) == GuardControls(table, done);
      }
      assert done + {t} == outgoing - (rest - {t});
      rest := rest - {t};
    }
    assert outgoing - rest == outgoing;

    // Only then drop the transitions, and the step itself.
    store.RemoveTransitionsByStep(idStep);
    store.RemoveStepRow(idStep);
  }

  /**
   * What RemoveStep leaves behind: the step is gone, no transition leaves it, no control of
   * its guarded transitions remains, none of its root displays or their descendants remain,
   * and every row outside the cascade survives.
   */
  lemma CascadeComplete(
      displays: map<int, FormDisplay>, transitions: map<int, Transition>, controls: map<int, Control>,
      steps: map<int, Step>, idStep: int)
    ensures idStep !in steps - {idStep}
    ensures forall k :: k in steps && k != idStep ==> k in steps - {idStep}
    ensures var left := transitions - TransitionsFrom(transitions, idStep);
            forall t :: t in transitions ==> (t in left <==> transitions[t].fromStep != idStep)
    ensures var left := controls - OwnedControls(transitions, idStep);
            forall t :: t in transitions && transitions[t].fromStep == idStep && transitions[t].idControl > 0 ==>
              transitions[t].idControl !in left
    ensures var left := displays - RootSubtrees(displays, idStep);
            forall r, d :: r in RootDisplays(displays, idStep) && d in displays ==>
              (Descends(displays, d, r) ==> d !in left)
    ensures var left := displays - RootSubtrees(displays, idStep);
            forall d :: d in displays ==>
              (d in left <==> forall r :: r in RootDisplays(displays, idStep) ==> !Descends(displays, d, r))
  {
  }

  /** Every root display of the step is itself removed. */
  lemma RootsRemoved(displays: map<int, FormDisplay>, idStep: int)
    ensures RootDisplays(displays, idStep) <= RootSubtrees(displays, idStep)
  {
    forall r | r in RootDisplays(displays, idStep)
      ensures r in RootSubtrees(displays, idStep)
    {
      DescendsFromItself(displays, r);
    }
  }

  /**
   * A control is removed only for a transition of the step whose control id is positive:
   * a transition with control id 0 (or less) removes nothing.
   */
  lemma OnlyGuardedControlsRemoved(transitions: map<int, Transition>, idStep: int, k: int)
    requires k in OwnedControls(transitions, idStep)
    ensures k > 0
    ensures exists t :: t in transitions && transitions[t].fromStep == idStep && transitions[t].idControl == k
  {
    var t :| t in TransitionsFrom(transitions, idStep) && t in transitions && transitions[t].idControl > 0
             && transitions[t].idControl == k;
    assert transitions[t].fromStep == idStep;
  }

  /**
   * Why the controls are read before the transitions are dropped: once the transitions of
   * the step are gone, they name no control any more, so every control they owned would be
   * left behind.
   */
  lemma ControlsMustBeReadFirst(transitions: map<int, Transition>, idStep: int)
    ensures OwnedControls(transitions - TransitionsFrom(transitions, idStep), idStep) == {}
  {
    var left := transitions - TransitionsFrom(transitions, idStep);
    forall t | t in left
      ensures left[t].fromStep != idStep
    {
    }
    assert TransitionsFrom(left, idStep) == {};
  }

  /**
   * In a form whose display trees respect their steps, removing a step removes no display
   * of another step.
   */
  lemma OtherStepsDisplaysSurvive(displays: map<int, FormDisplay>, idStep: int, d: int)
    requires StepCoherent(displays)
    requires d in displays && displays[d].idStep != idStep
    ensures d in displays - RootSubtrees(displays, idStep)
  {
    if d in RootSubtrees(displays, idStep) {
      var r :| r in RootDisplays(displays, idStep) && Descends(displays, d, r);
      var p :| IsChain(displays, p) && p[0] == d && p[|p| - 1] == r;
      ChainStaysInStep(displays, p, |p| - 1);
      assert false;
    }
  }
}
