/** The chatbot's to-do list manager (`manage_todo_list`). The process-wide list
    becomes an explicit value: every operation takes the current list and returns
    the response it would display together with the list after the call. */
module Todo {
  import opened Wrappers
  import opened PyStr

  /** The to-do list: tasks in insertion order, duplicates allowed. */
  type TaskList = seq<string>

  const AddedPrefix: string := "Task added: "
  const NoTaskMessage: string := "No task provided."
  const EmptyListMessage: string := "To-do list is empty."
  const RemovedPrefix: string := "Task removed: "
  const NotFoundMessage: string := "Task not found."

  /** One call of the manager: the response (`None` when the call returns nothing)
      and the list after the call. */
  datatype Step = Step(response: Option<string>, tasks: TaskList)

  /** Python truthiness of the optional `task` argument: `None` and `""` are false. */
  predicate Truthy(task: Option<string>) {
    task.Some? && task.value != []
  }

  /** Python's `task in to_do_list`; `None` is never an element of the list. */
  predicate Listed(tasks: TaskList, task: Option<string>) {
    task.Some? && task.value in tasks
  }

  /** No task in the list is the empty string. */
  predicate AllNonEmpty(tasks: TaskList) {
    forall k :: 0 <= k < |tasks| ==> tasks[k] != []
  }

  /** No task in the list holds a line break. */
  predicate NoLineBreaks(tasks: TaskList) {
    forall k :: 0 <= k < |tasks| ==> '\n' !in tasks[k]
  }

  /** The position of the first occurrence of `t` (Python's `list.index`). */
  function IndexOf(tasks: TaskList, t: string): (i: nat)
    requires t in tasks
    ensures i < |tasks| && tasks[i] == t
    ensures forall k :: 0 <= k < i ==> tasks[k] != t
  {
    if tasks[0] == t then 0 else 1 + IndexOf(tasks[1..], t)
  }

  /** Python's `list.remove(t)`: the first occurrence of `t` is cut out and the
      other elements keep their order. */
  function RemoveFirst(tasks: TaskList, t: string): (r: TaskList)
    requires t in tasks
    ensures |r| == |tasks| - 1
    ensures forall k :: 0 <= k < IndexOf(tasks, t) ==> r[k] == tasks[k]
    ensures forall k :: IndexOf(tasks, t) <= k < |r| ==> r[k] == tasks[k + 1]
    ensures multiset(r) == multiset(tasks) - multiset{t}
  {
    var i := IndexOf(tasks, t);
    assert tasks == tasks[..i] + [t] + tasks[i + 1..];
    tasks[..i] + tasks[i + 1..]
  }

  /** `add`: a truthy task is appended at the end, everything before it stays as
      it was, and the confirmation names the task; otherwise nothing changes and
      the response says no task was given. No membership check is made, so a task
      can be listed more than once. */
  function Add(tasks: TaskList, task: Option<string>): (r: Step)
    ensures Truthy(task) ==>
              && |r.tasks| == |tasks| + 1
              && r.tasks[..|tasks|] == tasks
              && r.tasks[|tasks|] == task.value
              && r.response == Some(AddedPrefix + task.value)
    ensures !Truthy(task) ==> r == Step(Some(NoTaskMessage), tasks)
  {
    if Truthy(task) then Step(Some(AddedPrefix + task.value), tasks + [task.value])
    else Step(Some(NoTaskMessage), tasks)
  }

  /** `view`: the fixed empty message for an empty list, otherwise the tasks one
      per line in insertion order. Every task can be found in the text, and when
      no task holds a line break, splitting the text at line breaks gives the list
      back. */
  function View(tasks: TaskList): (r: string)
    ensures |tasks| == 0 ==> r == EmptyListMessage
    ensures forall k :: 0 <= k < |tasks| ==> Contains(r, tasks[k])
    ensures |tasks| > 0 && NoLineBreaks(tasks) ==> Split(r, '\n') == tasks
    ensures |tasks| > 0 ==> r == Join('\n', tasks)
  {
    if |tasks| == 0 then EmptyListMessage
    else
      JoinContainsAll('\n', tasks);
      if NoLineBreaks(tasks) then
        SplitJoin(tasks, '\n');
        Join('\n', tasks)
      else Join('\n', tasks)
  }

  /** Every piece can be found in the joined text. */
  lemma JoinContainsAll(sep: char, parts: seq<string>)
    ensures forall k :: 0 <= k < |parts| ==> Contains(Join(sep, parts), parts[k])
  {
    forall k | 0 <= k < |parts|
      ensures Contains(Join(sep, parts), parts[k])
    {
      JoinContainsParts(sep, parts, k);
    }
  }

  /** `remove`: a listed task loses its first occurrence only, the list shrinks by
      one and the others keep their order; an absent task (or none at all)
      changes nothing and is reported as not found. */
  function Remove(tasks: TaskList, task: Option<string>): (r: Step)
    ensures Listed(tasks, task) ==>
              var i := IndexOf(tasks, task.value);
              && |r.tasks| == |tasks| - 1
              && r.tasks == tasks[..i] + tasks[i + 1..]
              && r.response == Some(RemovedPrefix + task.value)
    ensures !Listed(tasks, task) ==> r == Step(Some(NotFoundMessage), tasks)
  {
    if Listed(tasks, task) then
      Step(Some(RemovedPrefix + task.value), RemoveFirst(tasks, task.value))
    else Step(Some(NotFoundMessage), tasks)
  }

  /** `manage_todo_list(action, task)`. Only `add`, `view` and `remove` respond;
      any other action returns nothing and leaves the list alone. The list changes
      by exactly the added or the removed task, and a list without empty tasks
      never gets one. */
  function Manage(action: string, task: Option<string>, tasks: TaskList): (r: Step)
    ensures r.response.None? <==> action != "add" && action != "view" && action != "remove"
    ensures r.response.None? ==> r.tasks == tasks
    ensures action == "view" ==> r.tasks == tasks
    ensures action == "add" && Truthy(task) ==> multiset(r.tasks) == multiset(tasks) + multiset{task.value}
    ensures action == "remove" && Listed(tasks, task) ==> multiset(r.tasks) == multiset(tasks) - multiset{task.value}
    ensures !(action == "add" && Truthy(task)) && !(action == "remove" && Listed(tasks, task)) ==> r.tasks == tasks
    ensures AllNonEmpty(tasks) ==> AllNonEmpty(r.tasks)
    ensures action == "add" ==> r == Add(tasks, task)
    ensures action == "view" ==> r == Step(Some(View(tasks)), tasks)
    ensures action == "remove" ==> r == Remove(tasks, task)
  {
    if action == "add" then
      var r := Add(tasks, task);
      assert Truthy(task) ==> r.tasks == tasks + [task.value];
      r
    else if action == "view" then Step(Some(View(tasks)), tasks)
    else if action == "remove" then
      var r := Remove(tasks, task);
      RemoveKeepsNonEmpty(tasks, task);
      r
    else Step(None, tasks)
  }

  /** Removal lists nothing new, so it cannot introduce an empty task. */
  lemma RemoveKeepsNonEmpty(tasks: TaskList, task: Option<string>)
    ensures multiset(Remove(tasks, task).tasks) <= multiset(tasks)
    ensures AllNonEmpty(tasks) ==> AllNonEmpty(Remove(tasks, task).tasks)
  {
    var r := Remove(tasks, task).tasks;
    if Listed(tasks, task) {
      assert r == RemoveFirst(tasks, task.value);
    }
    forall k | 0 <= k < |r|
      ensures r[k] in tasks
    {
      assert r[k] in multiset(r);
    }
  }

  /** Adding a task the list does not hold and then removing it restores the
      list. */
  lemma AddThenRemoveRestores(tasks: TaskList, t: string)
    requires t != [] && t !in tasks
    ensures Remove(Add(tasks, Some(t)).tasks, Some(t)) == Step(Some(RemovedPrefix + t), tasks)
  {
    var added := tasks + [t];
    assert Add(tasks, Some(t)).tasks == added;
    assert forall k :: 0 <= k < |tasks| ==> added[k] == tasks[k];
    var i := IndexOf(added, t);
    assert added[..|tasks|] == tasks;
  }

  /** After a task is added, viewing the list shows it. */
  lemma AddThenViewShowsTask(tasks: TaskList, t: string)
    requires t != []
    ensures Contains(View(Add(tasks, Some(t)).tasks), t)
  {
    var added := Add(tasks, Some(t)).tasks;
    assert added[|tasks|] == t;
  }

  /** Removal takes one occurrence only: the task is still listed afterwards
      exactly when it was listed more than once. */
  lemma RemoveLeavesDuplicates(tasks: TaskList, t: string)
    requires t in tasks
    ensures t in Remove(tasks, Some(t)).tasks <==> multiset(tasks)[t] > 1
  {
    var r := Remove(tasks, Some(t)).tasks;
    assert r == RemoveFirst(tasks, t);
    assert multiset(r)[t] == multiset(tasks)[t] - 1;
  }

  /** The view text does not tell an empty list from a list holding the single
      task "To-do list is empty.". */
  lemma ViewIsAmbiguous()
    ensures View([EmptyListMessage]) == View([])
  {
  }

  /** The manager's calls in sequence, each on the list the previous one left. */
  datatype Command = Command(action: string, task: Option<string>)

  /** The responses of a sequence of calls on the module-level list and the final
      list. Only `add` and `remove` calls change the list: without `add` calls
      nothing is gained, without `remove` calls nothing is lost, and with neither
      the list ends as it started. */
  function Run(commands: seq<Command>, tasks: TaskList): (r: (seq<Option<string>>, TaskList))
    ensures |r.0| == |commands|
    ensures (forall k :: 0 <= k < |commands| ==> commands[k].action != "add") ==>
              multiset(r.1) <= multiset(tasks)
    ensures (forall k :: 0 <= k < |commands| ==> commands[k].action != "remove") ==>
              multiset(tasks) <= multiset(r.1)
    ensures (forall k :: 0 <= k < |commands| ==> commands[k].action != "add" && commands[k].action != "remove") ==>
              r.1 == tasks
    decreases |commands|
  {
    if |commands| == 0 then ([], tasks)
    else
      var step := Manage(commands[0].action, commands[0].task, tasks);
      RunStep(commands[0], tasks);
      var rest := Run(commands[1..], step.tasks);
      assert forall k :: 1 <= k < |commands| ==> commands[1..][k - 1] == commands[k];
      ([step.response] + rest.0, rest.1)
  }

  /** How one call changes the list, in the terms of `Run`'s contract. */
  lemma RunStep(c: Command, tasks: TaskList)
    ensures c.action != "add" ==> multiset(Manage(c.action, c.task, tasks).tasks) <= multiset(tasks)
    ensures c.action != "remove" ==> multiset(tasks) <= multiset(Manage(c.action, c.task, tasks).tasks)
    ensures c.action != "add" && c.action != "remove" ==> Manage(c.action, c.task, tasks).tasks == tasks
  {
  }

  /** Starting from a list without empty tasks (the empty list, say), no sequence
      of calls ever lists an empty task. */
  lemma {:induction false} RunKeepsTasksNonEmpty(commands: seq<Command>, tasks: TaskList)
    requires AllNonEmpty(tasks)
    ensures AllNonEmpty(Run(commands, tasks).1)
    decreases |commands|
  {
    if |commands| > 0 {
      var step := Manage(commands[0].action, commands[0].task, tasks);
      RunKeepsTasksNonEmpty(commands[1..], step.tasks);
    }
  }

  /** Add "buy milk" to an empty list, view, remove it, view again: the view
      shows the task, and after the removal the list is empty again. */
  lemma BuyMilkScenario()
    ensures var s1 := Manage("add", Some("buy milk"), []);
            var s2 := Manage("view", None, s1.tasks);
            var s3 := Manage("remove", Some("buy milk"), s2.tasks);
            var s4 := Manage("view", None, s3.tasks);
            && s1.response == Some("Task added: buy milk")
            && s2.response == Some("buy milk")
            && s3.response == Some("Task removed: buy milk")
            && s4 == Step(Some(EmptyListMessage), [])
  {
    BuyMilkAdded();
    BuyMilkRemoved();
  }

  /** The first step of the scenario above. */
  lemma BuyMilkAdded()
    ensures Manage("add", Some("buy milk"), []) == Step(Some("Task added: buy milk"), ["buy milk"])
  {
    assert AddedPrefix + "buy milk" == "Task added: buy milk";
  }

  /** The third step of the scenario above. */
  lemma BuyMilkRemoved()
    ensures Manage("remove", Some("buy milk"), ["buy milk"]) == Step(Some("Task removed: buy milk"), [])
  {
    var l1: TaskList := ["buy milk"];
    assert RemovedPrefix + "buy milk" == "Task removed: buy milk";
    assert IndexOf(l1, "buy milk") == 0;
    assert RemoveFirst(l1, "buy milk") == [];
  }
}
