/** The operation log: a LIFO list of the commands that ran successfully. */
module Invoker {

  import opened Wrappers
  import opened Commands

  class CommandInvoker {
    /** Oldest first; the last entry is the one the next undo reverses. */
    var history: seq<Command>

    constructor ()
      ensures history == []
    {
      history := [];
    }

    /** Runs the command first and logs it only if it returned normally. */
    method ExecuteCommand(command: Command) returns (r: Outcome)
      modifies this, command.Footprint()
      ensures ExecuteStep(old(command.State()), old(command.Repository().store))
           == if r.Pass? then Ok((command.State(), command.Repository().store)) else Err(r.error)
      ensures r.Fail? ==>
        command.State() == old(command.State()) && command.Repository().store == old(command.Repository().store)
      ensures history == if r.Pass? then old(history) + [command] else old(history)
    {
      r := Execute(command);
      if r.Pass? {
        history := history + [command];
      }
    }

    /**
     * Undoes the most recent entry and then drops it; on an empty log, does nothing. Only the
     * last command and its store can change.
     */
    method UndoLastCommand()
      modifies this, if history == [] then {} else history[|history| - 1].Footprint()
      ensures old(history) == [] ==> history == []
      ensures old(history) != [] ==>
        var last := old(history[|history| - 1]);
        && history == old(history[..|history| - 1])
        && (last.State(), last.Repository().store) == UndoStep(old(last.State()), old(last.Repository().store))
    {
      if history != [] {
        var last := history[|history| - 1];
        Undo(last);
        history := history[..|history| - 1];
      }
    }

    /** One description per logged command, oldest first. */
    method GetCommandHistory() returns (descriptions: seq<string>)
      ensures |descriptions| == |history|
      ensures forall i :: 0 <= i < |history| ==> descriptions[i] == history[i].Description()
    {
      descriptions := [];
      for i := 0 to |history|
        invariant |descriptions| == i
        invariant forall j :: 0 <= j < i ==> descriptions[j] == history[j].Description()
      {
        descriptions := descriptions + [history[i].Description()];
      }
    }

    /** Forgets every entry without undoing any of them. */
    method ClearHistory()
      modifies this
      ensures history == []
    {
      history := [];
    }

    function GetHistorySize(): (n: nat)
      reads this
      ensures n == |history|
    {
      |history|
    }

    function HasCommands(): (b: bool)
      reads this
      ensures b <==> GetHistorySize() > 0
    {
      history != []
    }
  }
}
