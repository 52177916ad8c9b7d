/** The sidebar's mode state machine (`THICKET_PT_model_properties.next_mode`).
    The panel is in one of five modes; an operator name moves it to the next
    one.  The current mode, a global in the add-on, is passed explicitly. */
module UiMode {
  import opened Wrappers

  datatype Mode = ADD | EDIT | SELECT | SELECT_ADD | VIEW

  /** The operators `next_mode` knows. */
  datatype Op = Add | Cancel | Change | Confirm | Delete | Edit | MakeUnique

  /** The operator an operator name denotes; None for a name outside the
      known list. */
  function ParseOp(name: string): (r: Option<Op>)
    ensures r.Some? ==> OpName(r.value) == name
  {
    if name == "ADD" then Some(Add)
    else if name == "CANCEL" then Some(Cancel)
    else if name == "CHANGE" then Some(Change)
    else if name == "CONFIRM" then Some(Confirm)
    else if name == "DELETE" then Some(Delete)
    else if name == "EDIT" then Some(Edit)
    else if name == "MAKE_UNIQUE" then Some(MakeUnique)
    else None
  }

  function OpName(op: Op): string {
    match op
    case Add => "ADD"
    case Cancel => "CANCEL"
    case Change => "CHANGE"
    case Confirm => "CONFIRM"
    case Delete => "DELETE"
    case Edit => "EDIT"
    case MakeUnique => "MAKE_UNIQUE"
  }

  /** Every known operator is recognised by its name. */
  lemma ParseOpName(op: Op)
    ensures ParseOp(OpName(op)) == Some(op)
  {
  }

  /** One explicit move of the state machine. */
  datatype Transition = Transition(from: Mode, op: Op, to: Mode)

  /** The moves `next_mode` makes (__init__.py:888-922); every other
      (mode, operator) pair stays put. */
  const Table: seq<Transition> := [
    Transition(ADD, Cancel, VIEW),
    Transition(ADD, Change, SELECT_ADD),
    Transition(ADD, Confirm, VIEW),
    Transition(ADD, Delete, VIEW),
    Transition(EDIT, Add, SELECT_ADD),
    Transition(EDIT, Cancel, VIEW),
    Transition(EDIT, Change, SELECT),
    Transition(EDIT, Confirm, VIEW),
    Transition(EDIT, Delete, VIEW),
    Transition(SELECT, Cancel, EDIT),
    Transition(SELECT, Confirm, EDIT),
    Transition(SELECT_ADD, Cancel, ADD),
    Transition(SELECT_ADD, Confirm, ADD),
    Transition(VIEW, Add, ADD),
    Transition(VIEW, Edit, EDIT)
  ]

  /** The table names at most one target per (mode, operator) pair. */
  lemma TableDeterministic(i: nat, j: nat)
    requires i < |Table| && j < |Table|
    requires Table[i].from == Table[j].from && Table[i].op == Table[j].op
    ensures Table[i].to == Table[j].to
  {
  }

  /** One move on a known operator, following the branches of `next_mode`; a pair
      no branch mentions leaves the mode as it is. */
  function Step(m: Mode, op: Op): (r: Mode)
    ensures r != m ==> Transition(m, op, r) in Table
    ensures forall t :: t in Table && t.from == m && t.op == op ==> r == t.to
  {
    match m
    case ADD =>
      if op == Cancel then VIEW
      else if op == Change then SELECT_ADD
      else if op == Confirm then VIEW
      else if op == Delete then VIEW
      else m
    case EDIT =>
      // Two separate `if` chains in `next_mode`; ADD matches only the first.
      if op == Add then SELECT_ADD
      else if op == Cancel then VIEW
      else if op == Change then SELECT
      else if op == Confirm then VIEW
      else if op == Delete then VIEW
      else m
    case SELECT =>
      if op == Cancel || op == Confirm then EDIT else m
    case SELECT_ADD =>
      if op == Cancel || op == Confirm then ADD else m
    case VIEW =>
      if op == Add then ADD
      else if op == Edit then EDIT
      else m
  }

  /** `next_mode`: an unknown operator name is reported and changes nothing. */
  function NextMode(m: Mode, name: string): (r: Mode)
    ensures ParseOp(name).None? ==> r == m
    ensures r != m ==> ParseOp(name).Some? && Transition(m, ParseOp(name).value, r) in Table
    ensures forall t :: t in Table && t.from == m && ParseOp(name) == Some(t.op) ==> r == t.to
  {
    match ParseOp(name)
    case None => m
    case Some(op) => Step(m, op)
  }

  /** A run of known operators, applied left to right. */
  function Run(m: Mode, ops: seq<Op>): Mode
    decreases |ops|
  {
    if |ops| == 0 then m else Run(Step(m, ops[0]), ops[1..])
  }

  /** MAKE_UNIQUE is a known operator but never changes the mode. */
  lemma MakeUniqueStays(m: Mode)
    ensures NextMode(m, "MAKE_UNIQUE") == m
  {
    assert ParseOp("MAKE_UNIQUE") == Some(MakeUnique);
  }

  /** Whatever the mode, cancelling twice returns the panel to VIEW. */
  lemma CancelTwiceReachesView(m: Mode)
    ensures Run(m, [Cancel, Cancel]) == VIEW
  {
    assert [Cancel, Cancel][1..] == [Cancel];
  }

  /** From VIEW the panel can reach every mode. */
  lemma EveryModeReachable(m: Mode)
    ensures exists ops: seq<Op> :: Run(VIEW, ops) == m
  {
    match m
    case VIEW =>
      assert Run(VIEW, []) == m;
    case ADD =>
      assert Run(VIEW, [Add]) == m;
    case EDIT =>
      assert Run(VIEW, [Edit]) == m;
    case SELECT =>
      assert [Edit, Change][1..] == [Change];
      assert Run(VIEW, [Edit, Change]) == m;
    case SELECT_ADD =>
      assert [Add, Change][1..] == [Change];
      assert Run(VIEW, [Add, Change]) == m;
  }
}
