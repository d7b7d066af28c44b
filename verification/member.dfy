/** A team member: a name (the identity), a free-form role, the tasks
    assigned to them, and a flag raised when a new task's planned span
    overlaps one they already hold. */
module Members {
  import opened Options
  import opened Tasks
  import TaskSets

  datatype Member = Member(name: string, role: Option<string>, tasks: TaskSets.TaskSet, wasWarned: bool)

  /** A member as the constructor makes it: no tasks, no warning. */
  function NewMember(name: string, role: Option<string>): (m: Member)
    ensures m.name == name && m.role == role
    ensures |m.tasks| == 0 && !m.wasWarned
  {
    Member(name, role, [], false)
  }

  /** `__eq__`: members are the same when their names are. */
  predicate SameMember(a: Member, b: Member) {
    a.name == b.name
  }

  /** The warning loop of `add_task`: does any held task overlap `t`? */
  function OverlapsAny(held: seq<Task>, t: Task): (w: bool)
    ensures w <==> exists u :: u in held && IsOverlap(u, t)
    decreases |held|
  {
    if |held| == 0 then false
    else
      assert held == [held[0]] + held[1..];
      IsOverlap(held[0], t) || OverlapsAny(held[1..], t)
  }

  /** `add_task`: warn when some held task's planned span overlaps the new
      one, then add the task to the member's set (ignored if its name is
      already there). A raised flag is never lowered. */
  function AddTask(m: Member, t: Task): (r: Member)
    ensures r.name == m.name && r.role == m.role
    ensures r.tasks == TaskSets.Add(m.tasks, t)
    ensures r.wasWarned <==> m.wasWarned || exists u :: u in m.tasks && IsOverlap(u, t)
    ensures m.wasWarned ==> r.wasWarned
  {
    var warned := m.wasWarned || OverlapsAny(m.tasks, t);
    Member(m.name, m.role, TaskSets.Add(m.tasks, t), warned)
  }

  /** Adding a task the member already holds warns, because a task overlaps
      itself, yet leaves the task list as it was. */
  lemma ReAddWarns(m: Member, t: Task)
    requires t in m.tasks
    ensures AddTask(m, t).wasWarned
    ensures AddTask(m, t).tasks == m.tasks
  {
    IsOverlapSymmetric(t, t);
  }

  /** The first task given to a new member is held and raises no warning:
      there is nothing yet for it to overlap. */
  lemma FirstTaskNoWarning(name: string, role: Option<string>, t: Task)
    ensures AddTask(NewMember(name, role), t) == Member(name, role, [t], false)
  {
  }
}
