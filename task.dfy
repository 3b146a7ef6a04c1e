/** One entry of the task list: an identifier and a description fixed at
    construction, and a completion flag that can be overwritten. */
module Tasks {

  class Task {
    // `id` and `desc` have getters only, so they never change after construction.
    // The identifier is drawn from a UUID generator; here it is supplied by the caller.
    const id: string
    const desc: string
    var completed: bool

    /** A new task carries the given description and is not completed. */
    constructor (id: string, desc: string)
      ensures this.id == id && this.desc == desc && !completed
    {
      this.id := id;
      this.desc := desc;
      completed := false;
    }

    /** Reading the flag: a function, so it changes nothing. */
    function IsCompleted(): bool
      reads this
    {
      completed
    }

    /** The `completed` setter: afterwards `IsCompleted()` answers `completed`;
        `id` and `desc` are constants and so stay as they were. */
    method SetCompleted(completed: bool)
      modifies this
      ensures IsCompleted() == completed
    {
      this.completed := completed;
    }
  }

  /** The scenario of the task tests: a new task shows its description and is
      open; once its flag is set it reads as completed. */
  method CreateThenComplete(id: string) returns (desc: string, before: bool, after: bool)
    ensures desc == "Sample Task" && !before && after
  {
    var task := new Task(id, "Sample Task");
    desc, before := task.desc, task.IsCompleted();
    task.SetCompleted(true);
    after := task.IsCompleted();
  }
}
