/** The TODO application's own state machine: its model, its messages, `init` and
    `update`. Effects are described as values; running them (local storage) belongs
    to the runtime and is not part of this model. */
module TodoApp {
  import opened GleamList
  import opened Prelude

  datatype Model = Model(task: Option<string>, tasks: List<string>)

  datatype Msg =
    | UserUpdatedTask(input: string)
    | UserAddedTask
    /** The result of reading the saved task; the read fails with `Nil`. */
    | CacheUpdatedMessage(read: Result<string, ()>)

  /** The effects `update` and `init` can return: write or read the key in local
      storage, or nothing (`none()`). */
  datatype Effect = WriteLocalStorage(key: string, value: string) | ReadLocalStorage(key: string) | NoEffect

  /** `init`: no task typed, no tasks, and a read of the saved task. */
  function Init(): (r: (Model, Effect))
    ensures r.0.task == None && Elements(r.0.tasks) == []
    ensures r.1 == ReadLocalStorage("task")
  {
    (Model(None, Empty), ReadLocalStorage("task"))
  }

  /** `update`. Adding a task appends it with `concat([tasks, [task]])`; `Concat2` in
      `GleamList` is proved to build the list with these elements. */
  function Update(model: Model, msg: Msg): (r: (Model, Effect))
    ensures msg.UserUpdatedTask? ==>
      r.0 == model.(task := Some(msg.input)) && r.1 == WriteLocalStorage("task", msg.input)
    ensures msg.CacheUpdatedMessage? && msg.read.Ok? ==>
      r.0 == model.(task := Some(msg.read.value)) && r.1 == NoEffect
    ensures msg.CacheUpdatedMessage? && msg.read.Error? ==> r == (model, NoEffect)
    ensures msg.UserAddedTask? && model.task.Some? ==>
      r.0.task == None && Elements(r.0.tasks) == Elements(model.tasks) + [model.task.value]
      && r.1 == NoEffect
    ensures msg.UserAddedTask? && model.task.None? ==> r == (model, NoEffect)
  {
    match msg
    case UserUpdatedTask(input) =>
      (model.(task := Some(input)), WriteLocalStorage("task", input))
    case CacheUpdatedMessage(Ok(task)) =>
      (model.(task := Some(task)), NoEffect)
    case CacheUpdatedMessage(Error(_)) =>
      (model, NoEffect)
    case UserAddedTask =>
      match model.task
      case Some(task) =>
        var lists := [model.tasks, FromSeq([task])];
        assert lists[1..] == [FromSeq([task])] && lists[1..][1..] == [];
        assert Concat(lists[1..]) == [task] + Concat(lists[1..][1..]) == [task];
        (Model(None, FromSeq(Concat(lists))), NoEffect)
      case None =>
        (model, NoEffect)
  }

  /** Typing a task and then adding it appends exactly the typed text, clears the input,
      and writes the text to local storage on the way. */
  lemma TypeThenAdd(model: Model, text: string)
    ensures var (typed, effect) := Update(model, UserUpdatedTask(text));
            var (added, _) := Update(typed, UserAddedTask);
            effect == WriteLocalStorage("task", text)
            && added.task == None
            && Elements(added.tasks) == Elements(model.tasks) + [text]
  {
  }

  /** Adding is not repeated: a second add right after the first changes nothing, because
      the first one cleared the input. */
  lemma AddTwiceIsAddOnce(model: Model)
    ensures var once := Update(model, UserAddedTask).0;
            Update(once, UserAddedTask) == (once, NoEffect)
  {
  }

  /** The list of tasks only ever grows at its end: whatever the message, the old tasks
      are a prefix of the new ones, and at most one task is added. */
  lemma {:induction false} TasksOnlyGrow(model: Model, msgs: seq<Msg>)
    decreases |msgs|
    ensures var final := Run(model, msgs);
            Elements(model.tasks) <= Elements(final.tasks)
            && |Elements(final.tasks)| <= |Elements(model.tasks)| + |msgs|
  {
    if msgs != [] {
      var next := Update(model, msgs[0]).0;
      assert Elements(model.tasks) <= Elements(next.tasks);
      TasksOnlyGrow(next, msgs[1..]);
    }
  }

  /** The model after feeding `msgs` to `update` in order, as the runtime does. */
  function Run(model: Model, msgs: seq<Msg>): Model
    decreases |msgs|
  {
    if msgs == [] then model else Run(Update(model, msgs[0]).0, msgs[1..])
  }
}
