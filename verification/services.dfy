/** TodoService: the in-memory task registry. A table from integer id to
    task plus a next-id counter. The functions over `Registry` say what each
    operation does to that state; the class `TodoService` keeps the same two
    fields and updates them in place, and each of its methods is proved to
    match the corresponding function. */
module Services {
  import opened Wrappers
  import opened Strings
  import opened Models

  /** The service's state: `_tasks` and `_next_id`. */
  datatype Registry = Registry(tasks: map<int, Task>, nextId: int)

  /** The registry invariant: the counter is positive and above every key,
      every task is stored under its own id, and every stored task is well
      formed (non-empty trimmed title, trimmed description). */
  ghost predicate Inv(r: Registry) {
    && 1 <= r.nextId
    && forall k :: k in r.tasks ==> 1 <= k < r.nextId && r.tasks[k].id == k && WellFormed(r.tasks[k])
  }

  /** Every task is stored under its own id; part of the invariant. */
  ghost predicate Keyed(tasks: map<int, Task>) {
    forall k :: k in tasks ==> tasks[k].id == k
  }

  /** Storing a well-formed task under its own id, below the counter,
      keeps the invariant. */
  lemma InvStore(r: Registry, t: Task, next: int)
    requires Inv(r) && WellFormed(t) && 1 <= t.id < next && r.nextId <= next
    ensures Inv(Registry(r.tasks[t.id := t], next))
  {
    var r' := Registry(r.tasks[t.id := t], next);
    forall k | k in r'.tasks ensures 1 <= k < r'.nextId && r'.tasks[k].id == k && WellFormed(r'.tasks[k]) {
      if k != t.id { assert r'.tasks[k] == r.tasks[k]; }
    }
  }

  /** Replacing the task under a key that is present keeps the key set. */
  lemma KeysKept(tasks: map<int, Task>, id: int, t: Task)
    requires id in tasks
    ensures tasks[id := t].Keys == tasks.Keys
  {
    forall k | k in tasks[id := t].Keys ensures k in tasks.Keys {}
    forall k | k in tasks.Keys ensures k in tasks[id := t].Keys {}
    assert tasks[id := t].Keys <= tasks.Keys;
    assert tasks.Keys <= tasks[id := t].Keys;
  }

  /** The state of a freshly constructed service: no tasks, counter at 1. */
  function Init(): (r: Registry)
    ensures Inv(r) && |r.tasks| == 0 && r.nextId == 1
  {
    Registry(map[], 1)
  }

  /** The keys at or above `n`: what the skip loop may still step over. */
  function AtOrAbove(tasks: map<int, Task>, n: int): set<int> {
    set k | k in tasks && n <= k
  }

  /** The value `_get_next_id` returns when the counter is at `from`: the
      first id at or above `from` that is not in use. */
  function NextFreeId(tasks: map<int, Task>, from: int): (id: int)
    ensures from <= id && id !in tasks
    ensures forall k :: from <= k < id ==> k in tasks
    decreases |AtOrAbove(tasks, from)|
  {
    if from in tasks then
      assert AtOrAbove(tasks, from + 1) == AtOrAbove(tasks, from) - {from};
      NextFreeId(tasks, from + 1)
    else
      from
  }

  /** add_task(title, description): allocate an id, build the task, store
      it and move the counter past it. When the title is rejected the
      exception leaves only the skip loop's effect on the counter, which the
      invariant makes nil. */
  function Add(r: Registry, title: string, description: string): (out: (Registry, Result<int, ValidationError>))
    ensures out.1.Ok? <==> !AllSpace(title)
    ensures out.1.Ok? ==>
      var id := out.1.value;
      && r.nextId <= id && id !in r.tasks
      && out.0.tasks == r.tasks[id := Task(id, Trim(title), Trim(description), false)]
      && out.0.nextId == id + 1
    ensures out.1.Ok? ==> out.1.value == NextFreeId(r.tasks, r.nextId)
    ensures out.1.Err? ==> out.0.tasks == r.tasks && out.0.nextId == NextFreeId(r.tasks, r.nextId)
    ensures Inv(r) ==> Inv(out.0)
    ensures Inv(r) && out.1.Ok? ==> out.1.value == r.nextId
    ensures Inv(r) && out.1.Err? ==> out.0 == r
  {
    var id := NextFreeId(r.tasks, r.nextId);
    match NewTask(id, title, description, false)
    case Err(e) => (r.(nextId := id), Err(e))
    case Ok(t) => (Registry(r.tasks[id := t], id + 1), Ok(id))
  }

  /** Add as add_task performs it: first the next free id is taken, then
      the task is built; when the build fails the counter stays at that id. */
  lemma AddInSteps(r: Registry, title: string, description: string, id: int, made: Result<Task, ValidationError>)
    requires id == NextFreeId(r.tasks, r.nextId) && made == NewTask(id, title, description, false)
    ensures var (after, result) := Add(r, title, description);
      && (made.Err? ==> after.tasks == r.tasks && after.nextId == id && result == Err(made.error))
      && (made.Ok? ==> after.tasks == r.tasks[id := made.value] && after.nextId == id + 1 && result == Ok(id))
  {
  }

  /** get_task(task_id): the stored task, or None. */
  function Get(r: Registry, id: int): (t: Option<Task>)
    ensures t.Some? <==> id in r.tasks
    ensures Inv(r) && t.Some? ==> t.value.id == id && WellFormed(t.value)
  {
    if id in r.tasks then Some(r.tasks[id]) else None
  }

  /** Proof helper (a set fact, not part of the registry): a set with no
      member is empty. */
  lemma NoMemberEmpty(keys: set<int>)
    requires forall y :: y !in keys
    ensures keys == {}
  {
    assert forall y :: y in keys ==> y in {};
    assert keys <= {};
  }

  /** Proof helper (a set fact, not part of the registry): a set that is
      not empty has a member. */
  lemma PickKey(keys: set<int>) returns (x: int)
    requires keys != {}
    ensures x in keys
  {
    if forall y :: y !in keys {
      NoMemberEmpty(keys);
      assert false;
    }
    x :| x in keys;
  }

  lemma {:induction false} MinExists(keys: set<int>)
    requires keys != {}
    ensures exists m :: m in keys && forall k :: k in keys ==> m <= k
  {
    var x := PickKey(keys);
    var rest := keys - {x};
    if rest == {} {
      forall k | k in keys ensures x <= k {
        assert k !in rest;
      }
    } else {
      MinExists(rest);
      var m :| m in rest && forall k :: k in rest ==> m <= k;
      var least := if x < m then x else m;
      forall k | k in keys ensures least <= k {
        if k != x { assert k in rest; }
      }
      assert least in keys;
    }
  }

  /** The least key of a non-empty set of ids. */
  function MinKey(keys: set<int>): (m: int)
    requires keys != {}
    ensures m in keys && forall k :: k in keys ==> m <= k
  {
    MinExists(keys);
    var m :| m in keys && forall k :: k in keys ==> m <= k;
    m
  }

  /** The ids in ascending order, each once. */
  function SortedKeys(keys: set<int>): (s: seq<int>)
    ensures |s| == |keys|
    ensures forall i :: 0 <= i < |s| ==> s[i] in keys
    ensures forall k :: k in keys ==> k in s
    ensures forall i, j :: 0 <= i < j < |s| ==> s[i] < s[j]
    decreases keys
  {
    if keys == {} then []
    else
      var m := MinKey(keys);
      var rest := SortedKeys(keys - {m});
      SortedCons(keys, m, rest);
      [m] + rest
  }

  /** The least key followed by the rest in ascending order is all the
      keys in ascending order. */
  lemma SortedCons(keys: set<int>, m: int, rest: seq<int>)
    requires m in keys && forall k :: k in keys ==> m <= k
    requires |rest| == |keys - {m}|
    requires forall i :: 0 <= i < |rest| ==> rest[i] in keys - {m}
    requires forall k :: k in keys - {m} ==> k in rest
    requires forall i, j :: 0 <= i < j < |rest| ==> rest[i] < rest[j]
    ensures |[m] + rest| == |keys|
    ensures forall i :: 0 <= i < |[m] + rest| ==> ([m] + rest)[i] in keys
    ensures forall k :: k in keys ==> k in [m] + rest
    ensures forall i, j :: 0 <= i < j < |[m] + rest| ==> ([m] + rest)[i] < ([m] + rest)[j]
  {
    assert |keys - {m}| == |keys| - 1;
    forall i, j | 0 <= i < j < |[m] + rest| ensures ([m] + rest)[i] < ([m] + rest)[j] {
      assert ([m] + rest)[j] == rest[j - 1];
      if i > 0 { assert ([m] + rest)[i] == rest[i - 1]; }
    }
  }

  /** get_all_tasks(): every stored task, ordered by id. Python sorts by
      task.id; the invariant makes that the key, which this orders by. */
  function List(r: Registry): (ts: seq<Task>)
    ensures |ts| == |r.tasks|
    ensures forall k :: k in r.tasks ==> exists i :: 0 <= i < |ts| && ts[i] == r.tasks[k]
    ensures Keyed(r.tasks) ==> forall i :: 0 <= i < |ts| ==> ts[i].id in r.tasks && r.tasks[ts[i].id] == ts[i]
    ensures Keyed(r.tasks) ==> forall i, j :: 0 <= i < j < |ts| ==> ts[i].id < ts[j].id
  {
    var ks := SortedKeys(r.tasks.Keys);
    var ts := TasksAt(r.tasks, ks);
    assert |ts| == |r.tasks| by { assert |r.tasks.Keys| == |r.tasks|; }
    ListCovers(r.tasks, ks, ts);
    ListIds(r.tasks, ks, ts);
    ts
  }

  /** The tasks stored under the given keys, in the keys' order. */
  function TasksAt(tasks: map<int, Task>, ks: seq<int>): (ts: seq<Task>)
    requires forall i :: 0 <= i < |ks| ==> ks[i] in tasks
    ensures |ts| == |ks| && forall i :: 0 <= i < |ks| ==> ts[i] == tasks[ks[i]]
  {
    if ks == [] then [] else [tasks[ks[0]]] + TasksAt(tasks, ks[1..])
  }

  /** Listing the tasks under every key leaves none out. */
  lemma ListCovers(tasks: map<int, Task>, ks: seq<int>, ts: seq<Task>)
    requires forall k :: k in tasks ==> k in ks
    requires |ts| == |ks| && forall i :: 0 <= i < |ks| ==> ks[i] in tasks && ts[i] == tasks[ks[i]]
    ensures forall k :: k in tasks ==> exists i :: 0 <= i < |ts| && ts[i] == tasks[k]
  {
    forall k | k in tasks ensures exists i :: 0 <= i < |ts| && ts[i] == tasks[k] {
      var i :| 0 <= i < |ks| && ks[i] == k;
      assert ts[i] == tasks[k];
    }
  }

  /** When every task is stored under its own id, the listed tasks are the
      stored ones, in the order of the keys they were listed by. */
  lemma ListIds(tasks: map<int, Task>, ks: seq<int>, ts: seq<Task>)
    requires forall i, j :: 0 <= i < j < |ks| ==> ks[i] < ks[j]
    requires |ts| == |ks| && forall i :: 0 <= i < |ks| ==> ks[i] in tasks && ts[i] == tasks[ks[i]]
    ensures Keyed(tasks) ==> forall i :: 0 <= i < |ts| ==> ts[i].id in tasks && tasks[ts[i].id] == ts[i]
    ensures Keyed(tasks) ==> forall i, j :: 0 <= i < j < |ts| ==> ts[i].id < ts[j].id
  {
    if Keyed(tasks) {
      forall i | 0 <= i < |ts| ensures ts[i].id == ks[i] {
        assert ks[i] in tasks && ts[i] == tasks[ks[i]];
      }
    }
  }

  /** The title update_task leaves: the trimmed new title when one is given
      and it is not blank, the old title otherwise. */
  function UpdatedTitle(current: string, title: Option<string>): string {
    if title.Some? && title.value != [] && Trim(title.value) != [] then Trim(title.value) else current
  }

  /** The description update_task leaves: the trimmed new description when
      one is given (an empty one clears it), the old one otherwise. */
  function UpdatedDescription(current: string, description: Option<string>): string {
    if description.None? then current
    else if description.value != [] then Trim(description.value)
    else []
  }

  /** update_task(task_id, title=None, description=None). */
  function Update(r: Registry, id: int, title: Option<string>, description: Option<string>): (out: (Registry, bool))
    ensures out.1 <==> id in r.tasks
    ensures !out.1 ==> out.0 == r
    ensures out.0.nextId == r.nextId && out.0.tasks.Keys == r.tasks.Keys
    ensures forall k :: k in r.tasks && k != id ==> out.0.tasks[k] == r.tasks[k]
    ensures out.1 ==>
      var (was, now) := (r.tasks[id], out.0.tasks[id]);
      && now.id == was.id && now.completed == was.completed
      && now.title == (if title.Some? && !AllSpace(title.value) then Trim(title.value) else was.title)
      && now.description == (if description.Some? then Trim(description.value) else was.description)
    ensures Inv(r) ==> Inv(out.0)
  {
    if id !in r.tasks then (r, false)
    else
      var t := r.tasks[id];
      var t' := t.(title := UpdatedTitle(t.title, title), description := UpdatedDescription(t.description, description));
      assert description.Some? && description.value == [] ==> AllSpace(description.value);
      KeysKept(r.tasks, id, t');
      assert Inv(r) ==> Inv(r.(tasks := r.tasks[id := t'])) by {
        if Inv(r) { InvStore(r, t', r.nextId); }
      }
      (r.(tasks := r.tasks[id := t']), true)
  }

  /** delete_task(task_id). */
  function Delete(r: Registry, id: int): (out: (Registry, bool))
    ensures out.1 <==> id in r.tasks
    ensures out.0.tasks.Keys == r.tasks.Keys - {id}
    ensures forall k :: k in out.0.tasks ==> out.0.tasks[k] == r.tasks[k]
    ensures out.0.nextId == r.nextId
    ensures Inv(r) ==> Inv(out.0)
  {
    if id !in r.tasks then (r, false) else (r.(tasks := r.tasks - {id}), true)
  }

  /** mark_task_complete (done = true) and mark_task_incomplete
      (done = false). */
  function SetCompleted(r: Registry, id: int, done: bool): (out: (Registry, bool))
    ensures out.1 <==> id in r.tasks
    ensures !out.1 ==> out.0 == r
    ensures out.0.nextId == r.nextId && out.0.tasks.Keys == r.tasks.Keys
    ensures forall k :: k in r.tasks && k != id ==> out.0.tasks[k] == r.tasks[k]
    ensures out.1 ==> out.0.tasks[id].completed == done
    ensures out.1 ==>
      var (was, now) := (r.tasks[id], out.0.tasks[id]);
      now.id == was.id && now.title == was.title && now.description == was.description
    ensures Inv(r) ==> Inv(out.0)
  {
    if id !in r.tasks then (r, false)
    else
      var t := r.tasks[id].(completed := done);
      KeysKept(r.tasks, id, t);
      assert Inv(r) ==> Inv(r.(tasks := r.tasks[id := t])) by {
        if Inv(r) { InvStore(r, t, r.nextId); }
      }
      (r.(tasks := r.tasks[id := t]), true)
  }

  /** The service object. Its fields are updated in place, as Python's
      TodoService updates `_tasks` and `_next_id`. Tasks are values, so a
      field write on a stored task becomes a replacement of its map entry. */
  class TodoService {
    var tasks: map<int, Task>
    var nextId: int

    /** The two fields as a registry value. */
    function State(): Registry
      reads this
    {
      Registry(tasks, nextId)
    }

    ghost predicate Valid()
      reads this
    {
      Inv(State())
    }

    constructor ()
      ensures State() == Init()
      ensures Valid()
    {
      tasks := map[];
      nextId := 1;
    }

    /** _get_next_id(): step the counter past every id in use and return
        it. Under the invariant the loop body never runs. */
    method GetNextId() returns (id: int)
      modifies this`nextId
      ensures id == nextId == NextFreeId(tasks, old(nextId))
      ensures old(Valid()) ==> id == old(nextId) && Valid()
    {
      while nextId in tasks
        invariant NextFreeId(tasks, nextId) == NextFreeId(tasks, old(nextId))
        decreases |AtOrAbove(tasks, nextId)|
      {
        assert AtOrAbove(tasks, nextId + 1) == AtOrAbove(tasks, nextId) - {nextId};
        nextId := nextId + 1;
      }
      id := nextId;
    }

    /** add_task(title, description). */
    method AddTask(title: string, description: string) returns (res: Result<int, ValidationError>)
      modifies this
      ensures var (after, result) := Add(old(State()), title, description);
        tasks == after.tasks && nextId == after.nextId && res == result
      ensures old(Valid()) ==> Valid()
    {
      ghost var before := State();
      var id := GetNextId();
      var made := NewTask(id, title, description, false);
      AddInSteps(before, title, description, id, made);
      match made
      case Err(e) =>
        res := Err(e);
      case Ok(t) =>
        tasks := tasks[id := t];
        nextId := id + 1;
        res := Ok(id);
    }

    /** update_task(task_id, title, description). */
    method UpdateTask(id: int, title: Option<string>, description: Option<string>) returns (ok: bool)
      modifies this
      ensures var (after, succeeded) := Update(old(State()), id, title, description);
        tasks == after.tasks && nextId == after.nextId && ok == succeeded
      ensures old(Valid()) ==> Valid()
    {
      if id !in tasks {
        return false;
      }
      ghost var before := State();
      var task := tasks[id];
      if title.Some? {
        if title.value != [] && Trim(title.value) != [] {
          task := task.(title := Trim(title.value));
        }
      }
      if description.Some? {
        task := task.(description := if description.value != [] then Trim(description.value) else []);
      }
      assert task == before.tasks[id].(title := UpdatedTitle(before.tasks[id].title, title),
                                       description := UpdatedDescription(before.tasks[id].description, description));
      tasks := tasks[id := task];
      return true;
    }

    /** delete_task(task_id). */
    method DeleteTask(id: int) returns (ok: bool)
      modifies this
      ensures var (after, succeeded) := Delete(old(State()), id);
        tasks == after.tasks && nextId == after.nextId && ok == succeeded
      ensures old(Valid()) ==> Valid()
    {
      if id !in tasks {
        return false;
      }
      tasks := tasks - {id};
      return true;
    }

    /** mark_task_complete(task_id). */
    method MarkTaskComplete(id: int) returns (ok: bool)
      modifies this
      ensures var (after, succeeded) := SetCompleted(old(State()), id, true);
        tasks == after.tasks && nextId == after.nextId && ok == succeeded
      ensures old(Valid()) ==> Valid()
    {
      if id !in tasks {
        return false;
      }
      tasks := tasks[id := tasks[id].(completed := true)];
      return true;
    }

    /** mark_task_incomplete(task_id). */
    method MarkTaskIncomplete(id: int) returns (ok: bool)
      modifies this
      ensures var (after, succeeded) := SetCompleted(old(State()), id, false);
        tasks == after.tasks && nextId == after.nextId && ok == succeeded
      ensures old(Valid()) ==> Valid()
    {
      if id !in tasks {
        return false;
      }
      tasks := tasks[id := tasks[id].(completed := false)];
      return true;
    }
  }
}
