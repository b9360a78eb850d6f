/** The names under which an owner finds the workspaces again. */
module WorkspaceNames {
  import opened Domain
  import opened Quota
  import opened Lifecycle
  import opened Effects
  import opened Runs

  /** No owner has two workspaces of one name. */
  ghost predicate NamesUnique(rows: map<string, Workspace>) {
    forall a, b :: a in rows && b in rows && a != b && rows[a].owner == rows[b].owner ==> rows[a].name != rows[b].name
  }

  lemma CreatedNameIsNew(c: Config, s: State, input: CreateInput, o: CreateOracle)
    requires CreateSpec(c, s, input, o).1
    ensures forall id :: id in s.rows && s.rows[id].owner == input.owner ==> s.rows[id].name != input.name
  {
    assert !NameTaken(s.rows, input.owner, input.name);
  }

  lemma CreateKeepsNames(c: Config, s: State, input: CreateInput, o: CreateOracle)
    requires NamesUnique(s.rows) && input.id !in s.rows
    ensures NamesUnique(CreateSpec(c, s, input, o).0.rows)
  {
    var after, ok, r := CreateEffect(c, s, input, o);
    if ok {
      CreatedNameIsNew(c, s, input, o);
    }
  }

  lemma StepKeepsNames(c: Config, sys: System, step: Step)
    requires Consistent(sys) && NamesUnique(sys.state.rows) && Enabled(sys, step)
    ensures NamesUnique(Apply(c, sys, step).state.rows)
  {
    if step.Create? {
      CreateKeepsNames(c, sys.state, step.input, step.create);
    } else {
      var after := StepTakes(c, sys, step);
      StepEvolvesRows(c, sys.state, step, after);
    }
  }

  /** In every state of every run an owner's workspace names differ. */
  lemma RunsKeepNamesUnique(c: Config, trace: seq<System>, steps: seq<Step>)
    requires Run(c, trace, steps) && Consistent(trace[0]) && NamesUnique(trace[0].state.rows)
    ensures forall i :: 0 <= i < |trace| ==> NamesUnique(trace[i].state.rows)
  {
    for i := 0 to |steps|
      invariant Consistent(trace[i])
      invariant forall k :: 0 <= k <= i ==> NamesUnique(trace[k].state.rows)
    {
      assert StepAt(c, trace, steps, i);
      StepKeepsConsistent(c, trace[i], steps[i]);
      StepKeepsNames(c, trace[i], steps[i]);
    }
  }
}
