/** The `task <text>` command (minipraktomat/commands/TaskCommand.java):
    adds a task numbered one past the current count. */
module TaskCommands {
  import opened Validations
  import opened Data
  import opened Tasks
  import opened Registry
  import JavaStrings

  /** `expectedArguments`. */
  const ARGUMENTS: nat := 1

  /** The command's answer: the new task's id, or a failure for a text
      with a space. */
  function TaskResult(p: Praktomat, args: seq<string>): (r: Validation<string, string>)
    requires |args| == ARGUMENTS
    reads p
    ensures r.IsSuccess() <==> ' ' !in args[0]
    ensures r.IsFailure() ==> r.GetFailure() == "invalid text"
    ensures r.IsSuccess() ==> r.GetSuccess() == "task id(" + JavaStrings.IntToString(|p.tasks| + 1) + ")"
  {
    if ' ' in args[0] then Failure("invalid text")
    else Success("task id(" + JavaStrings.IntToString(|p.tasks| + 1) + ")")
  }

  /** `createTask`. */
  method CreateTask(p: Praktomat, text: string) returns (r: Validation<string, Task>)
    requires p.Valid()
    modifies p
    ensures r.IsSuccess() <==> ' ' !in text
    ensures r.IsFailure() ==> r == Failure("invalid text") && p.tasks == old(p.tasks)
    ensures r.IsSuccess() ==>
      && fresh(r.GetSuccess())
      && r.GetSuccess().text == text && r.GetSuccess().id == |old(p.tasks)| + 1
      && r.GetSuccess().solutions == {}
      && p.tasks == old(p.tasks) + {r.GetSuccess()}
    ensures p.selection == old(p.selection) && p.tutors == old(p.tutors) && p.students == old(p.students)
    ensures p.Valid()
  {
    if ' ' in text {
      return Fail("invalid text");
    }
    var all := p.GetTasks();
    var task := new Task(text, |all| + 1);
    p.AddTask(task);
    return Succeed(task);
  }

  /** `handleParameters`: on success one task is added, numbered one past
      the previous count, so the ids stay 1, 2, 3, ... */
  method Handle(p: Praktomat, args: seq<string>) returns (r: Validation<string, string>)
    requires |args| == ARGUMENTS
    requires p.Valid()
    modifies p
    ensures r == old(TaskResult(p, args))
    ensures r.IsFailure() ==> p.tasks == old(p.tasks)
    ensures r.IsSuccess() ==>
      exists t: Task :: fresh(t) && t.text == args[0] && t.id == |old(p.tasks)| + 1 && t.solutions == {}
        && p.tasks == old(p.tasks) + {t}
    ensures r.IsSuccess() ==> IdsOf(p.tasks) == IdsOf(old(p.tasks)) + {|old(p.tasks)| + 1}
    ensures p.selection == old(p.selection) && p.tutors == old(p.tutors) && p.students == old(p.students)
    ensures p.Valid()
    ensures old(p.Registered()) ==> p.Registered()
  {
    var task := CreateTask(p, args[0]);
    if task.IsFailure() {
      return Fail(task.GetFailure());
    }
    assert IdsOf(p.tasks) == IdsOf(old(p.tasks)) + {task.GetSuccess().id};
    return Succeed("task id(" + JavaStrings.IntToString(task.GetSuccess().id) + ")");
  }
}
