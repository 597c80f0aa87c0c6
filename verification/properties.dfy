/** Properties of the task registry over whole sequences of service calls:
    how ids are handed out, what a delete or a status change undoes, and
    a create/delete/list walk-through. */
module ServiceProperties {
  import opened Wrappers
  import opened Strings
  import opened Models
  import opened Services

  /** One call on the service's public interface. */
  datatype Command =
    | AddCmd(title: string, description: string)
    | UpdateCmd(id: int, newTitle: Option<string>, newDescription: Option<string>)
    | DeleteCmd(id: int)
    | CompleteCmd(id: int)
    | IncompleteCmd(id: int)

  /** The state after one call, and the ids the call handed out: [id] for
      an add that succeeded, [] otherwise. */
  function Step(r: Registry, c: Command): (Registry, seq<int>) {
    match c
    case AddCmd(t, d) =>
      var (r', res) := Add(r, t, d);
      (r', if res.Ok? then [res.value] else [])
    case UpdateCmd(id, t, d) => (Update(r, id, t, d).0, [])
    case DeleteCmd(id) => (Delete(r, id).0, [])
    case CompleteCmd(id) => (SetCompleted(r, id, true).0, [])
    case IncompleteCmd(id) => (SetCompleted(r, id, false).0, [])
  }

  /** The state after a sequence of calls, and every id handed out, in
      order. */
  function Run(r: Registry, cs: seq<Command>): (Registry, seq<int>)
    decreases |cs|
  {
    if cs == [] then (r, [])
    else
      var (r1, ids1) := Step(r, cs[0]);
      var (r2, ids2) := Run(r1, cs[1..]);
      (r2, ids1 + ids2)
  }

  /** One call keeps the invariant, and an add that succeeds hands out the
      counter's value and advances it by one. */
  lemma StepAllocates(r: Registry, c: Command)
    requires Inv(r)
    ensures Inv(Step(r, c).0)
    ensures Step(r, c).1 == [] ==> Step(r, c).0.nextId == r.nextId
    ensures Step(r, c).1 != [] ==> Step(r, c).1 == [r.nextId] && Step(r, c).0.nextId == r.nextId + 1
  {
    match c
    case AddCmd(t, d) =>
    case UpdateCmd(id, t, d) =>
    case DeleteCmd(id) =>
    case CompleteCmd(id) =>
    case IncompleteCmd(id) =>
  }

  /** The ids in `ids` are start, start + 1, start + 2, ... */
  ghost predicate ConsecutiveFrom(ids: seq<int>, start: int) {
    forall i :: 0 <= i < |ids| ==> ids[i] == start + i
  }

  lemma ConsecutiveConcat(a: seq<int>, b: seq<int>, start: int)
    requires ConsecutiveFrom(a, start) && ConsecutiveFrom(b, start + |a|)
    ensures ConsecutiveFrom(a + b, start)
  {
    forall i | 0 <= i < |a + b| ensures (a + b)[i] == start + i {
      if i >= |a| { assert (a + b)[i] == b[i - |a|]; }
    }
  }

  /** What one call and the calls after it hand out, put together. */
  lemma RunCons(r: Registry, cs: seq<Command>)
    requires cs != [] && Inv(r)
    requires var first := Step(r, cs[0]);
      && first.0.nextId == r.nextId + |first.1| && ConsecutiveFrom(first.1, r.nextId)
      && var rest := Run(first.0, cs[1..]);
      && Inv(rest.0) && rest.0.nextId == first.0.nextId + |rest.1| && ConsecutiveFrom(rest.1, first.0.nextId)
    ensures Inv(Run(r, cs).0)
    ensures Run(r, cs).0.nextId == r.nextId + |Run(r, cs).1|
    ensures ConsecutiveFrom(Run(r, cs).1, r.nextId)
  {
    var first := Step(r, cs[0]);
    var rest := Run(first.0, cs[1..]);
    assert Run(r, cs) == (rest.0, first.1 + rest.1);
    ConsecutiveConcat(first.1, rest.1, r.nextId);
  }

  /** Whatever the calls, the invariant holds throughout, and the ids handed
      out are the consecutive integers starting at the counter's value:
      strictly increasing, and each one above every id used before. */
  lemma {:induction false} RunAllocatesConsecutively(r: Registry, cs: seq<Command>)
    requires Inv(r)
    ensures Inv(Run(r, cs).0)
    ensures Run(r, cs).0.nextId == r.nextId + |Run(r, cs).1|
    ensures ConsecutiveFrom(Run(r, cs).1, r.nextId)
    decreases |cs|
  {
    if cs != [] {
      var first := Step(r, cs[0]);
      StepAllocates(r, cs[0]);
      assert ConsecutiveFrom(first.1, r.nextId);
      RunAllocatesConsecutively(first.0, cs[1..]);
      RunCons(r, cs);
    }
  }

  /** From a fresh service the ids handed out are 1, 2, 3, ... */
  lemma FreshServiceCountsFromOne(cs: seq<Command>)
    ensures forall i :: 0 <= i < |Run(Init(), cs).1| ==> Run(Init(), cs).1[i] == i + 1
  {
    RunAllocatesConsecutively(Init(), cs);
    assert ConsecutiveFrom(Run(Init(), cs).1, 1);
  }

  /** An id in use is never handed out again, whatever follows, deletion of
      that task included. */
  lemma UsedIdNeverReissued(r: Registry, id: int, cs: seq<Command>)
    requires Inv(r) && id in r.tasks
    ensures forall i :: 0 <= i < |Run(r, cs).1| ==> Run(r, cs).1[i] != id
  {
    RunAllocatesConsecutively(r, cs);
    assert ConsecutiveFrom(Run(r, cs).1, r.nextId);
  }

  /** Deleting removes the task; a second delete of the same id fails. */
  lemma DeleteTwice(r: Registry, id: int)
    requires id in r.tasks
    ensures Delete(r, id).1
    ensures Get(Delete(r, id).0, id) == None
    ensures !Delete(Delete(r, id).0, id).1
  {
  }

  /** Marking complete and then incomplete leaves the task incomplete, and
      when it was incomplete before, leaves the whole registry as it was. */
  lemma CompleteThenIncomplete(r: Registry, id: int)
    requires id in r.tasks
    ensures var r' := SetCompleted(SetCompleted(r, id, true).0, id, false).0;
      && !r'.tasks[id].completed
      && (!r.tasks[id].completed ==> r' == r)
  {
    var r' := SetCompleted(SetCompleted(r, id, true).0, id, false).0;
    if !r.tasks[id].completed {
      assert r'.tasks[id] == r.tasks[id];
      forall k | k in r.tasks ensures k in r'.tasks && r'.tasks[k] == r.tasks[k] {}
      assert r'.tasks == r.tasks;
    }
  }

  /** A task just added reads back with the trimmed title and description,
      not completed. */
  lemma AddThenGet(r: Registry, title: string, description: string)
    requires Inv(r) && !AllSpace(title)
    ensures var (r', res) := Add(r, title, description);
      && res == Ok(r.nextId)
      && Get(r', r.nextId) == Some(Task(r.nextId, Trim(title), Trim(description), false))
  {
  }

  /** An update whose title is blank keeps the title; an empty description
      clears the description. */
  lemma BlankTitleKeptEmptyDescriptionCleared(r: Registry, id: int, blank: string)
    requires id in r.tasks && AllSpace(blank)
    ensures Update(r, id, Some(blank), None).0.tasks[id].title == r.tasks[id].title
    ensures Update(r, id, None, Some("")).0.tasks[id].description == ""
  {
    assert AllSpace("");
  }

  /** The walk-through, on a fresh service and for any three titles that
      are not blank: add the first (id 1), add the second (id 2), delete 1,
      add the third (id 3, as 1 is not reused); the list then holds ids 2
      and 3 in that order. */
  lemma CreateDeleteListScenario(start: Registry, t1: string, d1: string, t2: string, d2: string, t3: string, d3: string)
    requires Inv(start) && start.nextId == 1
    requires !AllSpace(t1) && !AllSpace(t2) && !AllSpace(t3)
    ensures var s1 := Add(start, t1, d1);
      var s2 := Add(s1.0, t2, d2);
      var r3 := Delete(s2.0, 1).0;
      var s4 := Add(r3, t3, d3);
      && s1.1 == Ok(1) && s2.1 == Ok(2) && s4.1 == Ok(3)
      && |List(s4.0)| == 2 && List(s4.0)[0].id == 2 && List(s4.0)[1].id == 3
  {
    KeysAfterAdd(start, t1, d1);
    var s1 := Add(start, t1, d1);
    KeysAfterAdd(s1.0, t2, d2);
    var s2 := Add(s1.0, t2, d2);
    var r3 := Delete(s2.0, 1).0;
    KeysAfterAdd(r3, t3, d3);
    var s4 := Add(r3, t3, d3);
    ListOfTwo(s4.0);
  }

  /** A consistent registry holding exactly ids 2 and 3 lists them in that
      order. */
  lemma ListOfTwo(r: Registry)
    requires Inv(r) && forall k :: k in r.tasks <==> k == 2 || k == 3
    ensures |List(r)| == 2 && List(r)[0].id == 2 && List(r)[1].id == 3
  {
    KeysExactly(r.tasks.Keys, {2, 3});
    assert |r.tasks| == 2 by {
      assert |{2, 3}| == 2;
      assert |r.tasks| == |r.tasks.Keys|;
    }
    var ts := List(r);
    assert ts[0].id < ts[1].id;
    assert ts[0].id in r.tasks && ts[1].id in r.tasks;
  }

  /** The effect of an add that succeeds on a consistent registry, key by key. */
  lemma KeysAfterAdd(r: Registry, title: string, description: string)
    requires Inv(r) && !AllSpace(title)
    ensures Inv(Add(r, title, description).0)
    ensures Add(r, title, description).1 == Ok(r.nextId)
    ensures Add(r, title, description).0.nextId == r.nextId + 1
    ensures forall k :: k in Add(r, title, description).0.tasks <==> k in r.tasks || k == r.nextId
  {
  }

  /** Proof helper (a set fact, not part of the registry): two sets of ids
      with the same members are equal. */
  lemma KeysExactly(a: set<int>, b: set<int>)
    requires forall k :: k in a <==> k in b
    ensures a == b
  {
    forall k | k in a ensures k in b {}
    forall k | k in b ensures k in a {}
    assert a <= b;
    assert b <= a;
  }
}
