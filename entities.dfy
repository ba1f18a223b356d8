/**
 * The records of the forms plugin that the step service, the control editor and the
 * question display work on. Every record is keyed by an integer id in the entity store.
 * A Java reference that may be null becomes an Option; a Java string that may be null
 * becomes "" (the code only ever tests such strings with StringUtils.isNotEmpty).
 */
module Entities {

  datatype Option<T> = None | Some(value: T)

  /** The three labels of ControlType. */
  datatype ControlType = ValidationControl | TransitionControl | ConditionalControl

  /** The two kinds of composite a FormDisplay can point at. */
  datatype CompositeType = QuestionComposite | GroupComposite

  datatype Step = Step(id: int, idForm: int)

  /** A directed edge between two steps; idControl is 0 when the transition is unguarded. */
  datatype Transition = Transition(id: int, fromStep: int, nextStep: int, idControl: int)

  /**
   * A guard or validator configuration. idQuestion is meaningful for VALIDATION controls,
   * idTargetFormDisplay for CONDITIONAL ones.
   */
  datatype Control = Control(
    id: int,
    idQuestion: int,
    idTargetFormDisplay: int,
    controlType: ControlType,
    validatorName: string,
    value: string)

  /** The answer type of a question's entry, with the icon the builder shows for it. */
  datatype EntryType = EntryType(idType: int, iconName: string)

  datatype Entry = Entry(entryType: Option<EntryType>)

  datatype Question = Question(id: int, idStep: int, title: string, entry: Option<Entry>)

  datatype Group = Group(id: int, idStep: int, title: string)

  /** A node of a step's display tree; idParent is DISPLAY_ROOT_PARENT_ID for a root. */
  datatype FormDisplay = FormDisplay(
    id: int,
    idStep: int,
    idParent: int,
    compositeType: CompositeType,
    idComposite: int)

  /** A submitted response; its content is carried along, never inspected. */
  datatype Response = Response(idEntry: int, responseValue: string)

  /** The parent id that marks a root display. */
  const DISPLAY_ROOT_PARENT_ID: int := 0

  /** A control built by `new Control()`: Java's default field values, then the type set. */
  function NewControl(controlType: ControlType): Control
  {
    Control(0, 0, 0, controlType, "", "")
  }

  /** findByPrimaryKey over a table: the row, or None (Java null) when the key is absent. */
  function Lookup<V>(table: map<int, V>, key: int): Option<V>
  {
    if key in table then Some(table[key]) else None
  }

  /** A set that is not empty has a member, witnessed for the `:|` choices over sets. */
  lemma NonEmptyHasMember(s: set<int>)
    requires s != {}
    ensures exists x :: x in s
  {
    if forall x :: x !in s {
      assert false;
    }
  }

  /** An SQL UPDATE by primary key: it rewrites an existing row and does nothing otherwise. */
  function Updated<V>(table: map<int, V>, key: int, row: V): map<int, V>
  {
    if key in table then table[key := row] else table
  }
}
