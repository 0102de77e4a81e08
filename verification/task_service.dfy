/** The in-memory task store of src/services/task_service.py: a map from id
    to task and a counter for the next id. Every operation returns the store
    after the call together with its outcome; a failed operation returns the
    store it was given. */
module TaskStore {
  import opened Results
  import opened Text
  import opened TaskModel

  datatype Store = Store(tasks: map<int, Task>, nextId: int)

  /** Why a service operation refused; each corresponds to an exception the
      service raises. */
  datatype ServiceError =
    | TitleRequired              // ValueError("Title is required")
    | NotFound(id: int)          // KeyError("Task with ID ... not found")
    | TaskRejected(e: TaskError) // a ValueError raised by the Task constructor

  /** The store after an operation, and what the operation returned or raised. */
  datatype Reply = Reply(store: Store, outcome: Result<Task, ServiceError>)

  /** The store invariant: every key is its task's id, lies below the counter
      and above zero, and every stored title is non-empty and stripped. */
  predicate Valid(s: Store) {
    && s.nextId >= 1
    && forall k :: k in s.tasks ==>
         && s.tasks[k].id == k
         && 1 <= k < s.nextId
         && s.tasks[k].title != []
         && IsStripped(s.tasks[k].title)
  }

  /** `TaskService()`: no tasks, the first id to issue is 1. */
  function Init(): (s: Store)
    ensures Valid(s)
    ensures |s.tasks| == 0 && s.nextId == 1
  {
    Store(map[], 1)
  }

  /** `add_task(title, description)`. A title that is empty or all whitespace
      is refused and consumes no id; otherwise the stripped title and the
      description as given are stored under the current counter, which then
      advances by one. */
  function AddTask(s: Store, title: string, description: string): (r: Reply)
    ensures r.outcome == Failure(TitleRequired) <==> AllWhitespace(title)
    ensures r.outcome.Failure? ==> r.store == s
    ensures s.nextId > 0 && !AllWhitespace(title) ==>
      && r.outcome == Success(Task(s.nextId, Strip(title), description, false))
      && r.store.tasks == s.tasks[s.nextId := r.outcome.value]
      && r.store.nextId == s.nextId + 1
    ensures s.nextId <= 0 && !AllWhitespace(title) ==> r.outcome == Failure(TaskRejected(NonPositiveId))
    ensures Valid(s) ==> Valid(r.store)
    ensures Valid(s) && r.outcome.Success? ==> s.nextId !in s.tasks
  {
    if title == [] || Strip(title) == [] then
      Reply(s, Failure(TitleRequired))
    else
      StripIdempotent(title);
      match NewTask(s.nextId, Strip(title), Some(description), false)
      case Failure(e) => Reply(s, Failure(TaskRejected(e)))
      case Success(t) => Reply(Store(s.tasks[s.nextId := t], s.nextId + 1), Success(t))
  }

  /** `get_task(task_id)`: the stored task, or not-found. */
  function GetTask(s: Store, id: int): (r: Result<Task, ServiceError>)
    ensures r.Success? <==> id in s.tasks
    ensures r.Success? ==> r.value == s.tasks[id]
    ensures r.Failure? ==> r.error == NotFound(id)
  {
    if id in s.tasks then Success(s.tasks[id]) else Failure(NotFound(id))
  }

  /** `update_task(task_id, title, description)`. `None` leaves a field
      alone; a title that is blank after stripping is ignored silently, any
      other is stored stripped; any description that is present, "" included,
      replaces the old one. */
  function UpdateTask(s: Store, id: int, title: Option<string>, description: Option<string>): (r: Reply)
    ensures r.outcome.Failure? <==> id !in s.tasks
    ensures r.outcome.Failure? ==> r.outcome.error == NotFound(id) && r.store == s
    ensures r.outcome.Success? ==>
      var before := s.tasks[id];
      var after := r.outcome.value;
      && after.id == before.id && after.completed == before.completed
      && ((title.None? || AllWhitespace(title.value)) ==> after.title == before.title)
      && ((title.Some? && !AllWhitespace(title.value)) ==> after.title == Strip(title.value))
      && (description.None? ==> after.description == before.description)
      && (description.Some? ==> after.description == description.value)
      && r.store.tasks == s.tasks[id := after]
      && r.store.nextId == s.nextId
    ensures Valid(s) ==> Valid(r.store)
  {
    if id !in s.tasks then
      Reply(s, Failure(NotFound(id)))
    else
      var t := s.tasks[id];
      var t1 := if title.Some? then t.(title := if Strip(title.value) != [] then Strip(title.value) else t.title) else t;
      var t2 := if description.Some? then t1.(description := description.value) else t1;
      Reply(s.(tasks := s.tasks[id := t2]), Success(t2))
  }

  /** `delete_task(task_id)`: removes exactly that key and returns the removed
      task; the counter is untouched, so the id is retired. */
  function DeleteTask(s: Store, id: int): (r: Reply)
    ensures r.outcome.Failure? <==> id !in s.tasks
    ensures r.outcome.Failure? ==> r.outcome.error == NotFound(id) && r.store == s
    ensures r.outcome.Success? ==>
      && r.outcome.value == s.tasks[id]
      && r.store.tasks.Keys == s.tasks.Keys - {id}
      && (forall k :: k in r.store.tasks ==> r.store.tasks[k] == s.tasks[k])
      && |r.store.tasks| == |s.tasks| - 1
      && r.store.nextId == s.nextId
    ensures Valid(s) ==> Valid(r.store)
  {
    if id !in s.tasks then
      Reply(s, Failure(NotFound(id)))
    else
      Reply(s.(tasks := s.tasks - {id}), Success(s.tasks[id]))
  }

  /** Shared body of `complete_task` and `incomplete_task`. */
  function SetCompleted(s: Store, id: int, value: bool): (r: Reply)
    ensures r.outcome.Failure? <==> id !in s.tasks
    ensures r.outcome.Failure? ==> r.outcome.error == NotFound(id) && r.store == s
    ensures r.outcome.Success? ==>
      && r.outcome.value == s.tasks[id].(completed := value)
      && r.store.tasks == s.tasks[id := r.outcome.value]
      && r.store.nextId == s.nextId
    ensures Valid(s) ==> Valid(r.store)
  {
    if id !in s.tasks then
      Reply(s, Failure(NotFound(id)))
    else
      var t := s.tasks[id].(completed := value);
      Reply(s.(tasks := s.tasks[id := t]), Success(t))
  }

  /** `complete_task(task_id)`: only the completion flag of that one task
      changes, to true. */
  function CompleteTask(s: Store, id: int): (r: Reply)
    ensures r.outcome.Failure? <==> id !in s.tasks
    ensures r.outcome.Failure? ==> r.outcome.error == NotFound(id) && r.store == s
    ensures r.outcome.Success? ==>
      && r.outcome.value.completed
      && r.outcome.value.(completed := s.tasks[id].completed) == s.tasks[id]
      && r.store.tasks == s.tasks[id := r.outcome.value]
      && r.store.nextId == s.nextId
    ensures Valid(s) ==> Valid(r.store)
  {
    SetCompleted(s, id, true)
  }

  /** `incomplete_task(task_id)`: only the completion flag of that one task
      changes, to false. */
  function IncompleteTask(s: Store, id: int): (r: Reply)
    ensures r.outcome.Failure? <==> id !in s.tasks
    ensures r.outcome.Failure? ==> r.outcome.error == NotFound(id) && r.store == s
    ensures r.outcome.Success? ==>
      && !r.outcome.value.completed
      && r.outcome.value.(completed := s.tasks[id].completed) == s.tasks[id]
      && r.store.tasks == s.tasks[id := r.outcome.value]
      && r.store.nextId == s.nextId
    ensures Valid(s) ==> Valid(r.store)
  {
    SetCompleted(s, id, false)
  }

  // ---------------------------------------------------------------------
  // Listing: `sorted(self.tasks.values(), key=lambda task: task.id)`.

  predicate IsLeast(k: int, keys: set<int>) {
    k in keys && forall j :: j in keys ==> k <= j
  }

  /** Every finite non-empty set of integers has a least element. */
  lemma {:induction false} HasLeast(keys: set<int>)
    requires |keys| > 0
    ensures exists k :: IsLeast(k, keys)
  {
    HasMember(keys);
    var x :| x in keys;
    HasLeastBelow(keys, x);
  }

  lemma HasMember(keys: set<int>)
    requires |keys| > 0
    ensures exists x :: x in keys
  {
    var none: set<int> := {};
    assert (forall x :: x in keys ==> x in none) ==> keys <= none;
    assert !(keys <= none);
  }

  /** A finite set of integers holding `x` has a least element. */
  lemma {:induction false} HasLeastBelow(keys: set<int>, x: int)
    requires x in keys
    ensures exists k :: IsLeast(k, keys)
    decreases |keys|
  {
    var rest := keys - {x};
    assert forall j :: j in keys ==> j == x || j in rest;
    if forall j :: j in rest ==> x <= j {
      assert IsLeast(x, keys);
    } else {
      var y :| y in rest && y < x;
      HasLeastBelow(rest, y);
      var m :| IsLeast(m, rest);
      assert IsLeast(m, keys);
    }
  }

  function Least(keys: set<int>): (k: int)
    requires |keys| > 0
    ensures IsLeast(k, keys)
  {
    HasLeast(keys);
    var k :| IsLeast(k, keys);
    k
  }

  /** The keys of a set in strictly ascending order. */
  function AscendingKeys(keys: set<int>): (r: seq<int>)
    ensures |r| == |keys|
    ensures forall k :: k in keys <==> k in r
    ensures forall i, j :: 0 <= i < j < |r| ==> r[i] < r[j]
    decreases |keys|
  {
    if |keys| == 0 then []
    else
      var k := Least(keys);
      [k] + AscendingKeys(keys - {k})
  }

  /** The values of a map, one per key, in ascending key order. (The
      dictionary's own iteration order is insertion order; it only shows in
      the listing when two keys hold tasks with equal ids.) */
  function ValuesByKey(m: map<int, Task>): (r: seq<Task>)
    ensures |r| == |m|
    ensures forall i :: 0 <= i < |r| ==> AscendingKeys(m.Keys)[i] in m && r[i] == m[AscendingKeys(m.Keys)[i]]
  {
    var ks := AscendingKeys(m.Keys);
    seq(|ks|, i requires 0 <= i < |ks| => m[ks[i]])
  }

  predicate SortedById(ts: seq<Task>) {
    forall i, j :: 0 <= i < j < |ts| ==> ts[i].id <= ts[j].id
  }

  predicate StrictlyAscendingIds(ts: seq<Task>) {
    forall i, j :: 0 <= i < j < |ts| ==> ts[i].id < ts[j].id
  }

  /** Inserts `t` into a list sorted by id, before the first task whose id is
      not smaller, keeping equal ids in their original order. */
  function Insert(t: Task, ts: seq<Task>): (r: seq<Task>)
    requires SortedById(ts)
    ensures SortedById(r)
    ensures multiset(r) == multiset(ts) + multiset{t}
    ensures r[0] == t || (ts != [] && r[0] == ts[0])
  {
    if ts == [] || t.id <= ts[0].id then
      SortedCons(t, ts);
      [t] + ts
    else
      var rest := Insert(t, ts[1..]);
      assert ts == [ts[0]] + ts[1..];
      SortedCons(ts[0], rest);
      [ts[0]] + rest
  }

  lemma SortedCons(x: Task, ts: seq<Task>)
    requires SortedById(ts) && (ts == [] || x.id <= ts[0].id)
    ensures SortedById([x] + ts)
  {
    var r := [x] + ts;
    forall i, j | 0 <= i < j < |r|
      ensures r[i].id <= r[j].id
    {
      if i == 0 && j > 1 {
        assert ts[0].id <= ts[j - 1].id;
      }
    }
  }

  /** A stable sort by id, as Python's `sorted(..., key=...)`: a
      permutation of its input in non-decreasing id order. */
  function SortById(ts: seq<Task>): (r: seq<Task>)
    ensures SortedById(r)
    ensures multiset(r) == multiset(ts)
  {
    if ts == [] then []
    else
      assert ts == [ts[0]] + ts[1..];
      Insert(ts[0], SortById(ts[1..]))
  }

  /** Sorting a list already strictly ascending by id leaves it as it is. */
  lemma {:induction false} SortKeepsAscending(ts: seq<Task>)
    requires StrictlyAscendingIds(ts)
    ensures SortById(ts) == ts
  {
    if ts != [] {
      SortKeepsAscending(ts[1..]);
      assert ts == [ts[0]] + ts[1..];
    }
  }

  /** `get_all_tasks()`: every stored task exactly once, sorted by id. When
      the invariant holds, ids are distinct and the list is strictly
      ascending and holds exactly the stored tasks; an empty store gives []. */
  function ListAll(s: Store): (r: seq<Task>)
    ensures |r| == |s.tasks|
    ensures SortedById(r)
    ensures forall i :: 0 <= i < |r| ==> r[i] in s.tasks.Values
    ensures forall k :: k in s.tasks ==> s.tasks[k] in r
    ensures Valid(s) ==> StrictlyAscendingIds(r)
    ensures Valid(s) ==> forall i :: 0 <= i < |r| ==> r[i].id in s.tasks && s.tasks[r[i].id] == r[i]
  {
    var vs := ValuesByKey(s.tasks);
    var r := SortById(vs);
    ListAllFacts(s, vs, r);
    r
  }

  lemma ListAllFacts(s: Store, vs: seq<Task>, r: seq<Task>)
    requires vs == ValuesByKey(s.tasks) && multiset(r) == multiset(vs) && r == SortById(vs)
    ensures forall i :: 0 <= i < |r| ==> r[i] in s.tasks.Values
    ensures forall k :: k in s.tasks ==> s.tasks[k] in r
    ensures Valid(s) ==> r == vs && StrictlyAscendingIds(r)
  {
    ListedAreStored(s, vs, r);
    StoredAreListed(s, vs, r);
    if Valid(s) {
      ValidValuesAscend(s);
      SortKeepsAscending(vs);
    }
  }

  /** Under the invariant each key is its task's id, so key order is id order. */
  lemma ValidValuesAscend(s: Store)
    requires Valid(s)
    ensures StrictlyAscendingIds(ValuesByKey(s.tasks))
  {
    var ks := AscendingKeys(s.tasks.Keys);
    var vs := ValuesByKey(s.tasks);
    forall i | 0 <= i < |vs|
      ensures vs[i].id == ks[i]
    {
      assert ks[i] in s.tasks;
    }
  }

  lemma ListedAreStored(s: Store, vs: seq<Task>, r: seq<Task>)
    requires vs == ValuesByKey(s.tasks) && multiset(r) == multiset(vs)
    ensures forall i :: 0 <= i < |r| ==> r[i] in s.tasks.Values
  {
    var ks := AscendingKeys(s.tasks.Keys);
    forall i | 0 <= i < |r|
      ensures r[i] in s.tasks.Values
    {
      assert r[i] in multiset(r);
      assert r[i] in vs;
      var j :| 0 <= j < |vs| && vs[j] == r[i];
      assert s.tasks[ks[j]] == r[i];
    }
  }

  lemma StoredAreListed(s: Store, vs: seq<Task>, r: seq<Task>)
    requires vs == ValuesByKey(s.tasks) && multiset(r) == multiset(vs)
    ensures forall k :: k in s.tasks ==> s.tasks[k] in r
  {
    var ks := AscendingKeys(s.tasks.Keys);
    forall k | k in s.tasks
      ensures s.tasks[k] in r
    {
      var j :| 0 <= j < |ks| && ks[j] == k;
      assert vs[j] == s.tasks[k];
      assert vs[j] in multiset(vs);
    }
  }

  // ---------------------------------------------------------------------
  // Sequences of operations.

  /** One call into the service that may change the store. */
  datatype Command =
    | Add(title: string, description: string)
    | Update(id: int, newTitle: Option<string>, newDescription: Option<string>)
    | Delete(id: int)
    | Complete(id: int)
    | Incomplete(id: int)

  function Apply(s: Store, c: Command): Store {
    match c
    case Add(t, d) => AddTask(s, t, d).store
    case Update(id, t, d) => UpdateTask(s, id, t, d).store
    case Delete(id) => DeleteTask(s, id).store
    case Complete(id) => CompleteTask(s, id).store
    case Incomplete(id) => IncompleteTask(s, id).store
  }

  /** The store after running the commands in order. */
  function Run(s: Store, cs: seq<Command>): Store
    decreases |cs|
  {
    if cs == [] then s else Run(Apply(s, cs[0]), cs[1..])
  }

  /** Every operation, hence every run, keeps the store invariant. */
  lemma {:induction false} RunKeepsValid(s: Store, cs: seq<Command>)
    requires Valid(s)
    ensures Valid(Run(s, cs))
    decreases |cs|
  {
    if cs != [] {
      RunKeepsValid(Apply(s, cs[0]), cs[1..]);
    }
  }

  /** The counter never decreases, and an id below the counter that is not
      in the store never comes back, whatever runs next. */
  lemma {:induction false} RetiredIdStaysAbsent(s: Store, cs: seq<Command>, id: int)
    requires id < s.nextId && id !in s.tasks
    ensures Run(s, cs).nextId >= s.nextId
    ensures id !in Run(s, cs).tasks
    decreases |cs|
  {
    if cs != [] {
      RetiredIdStaysAbsent(Apply(s, cs[0]), cs[1..], id);
    }
  }

  /** A deleted id is gone for good: no later run of commands puts it back,
      and no later `add_task` issues it again. */
  lemma DeletedIdNeverReissued(s: Store, id: int, cs: seq<Command>, title: string, description: string)
    requires Valid(s) && id in s.tasks
    ensures var later := Run(DeleteTask(s, id).store, cs);
      && id !in later.tasks
      && (AddTask(later, title, description).outcome.Success? ==>
            AddTask(later, title, description).outcome.value.id != id)
  {
    var s1 := DeleteTask(s, id).store;
    RetiredIdStaysAbsent(s1, cs, id);
    RunKeepsValid(s1, cs);
  }

  /** After a successful delete, looking the id up fails. */
  lemma GetAfterDelete(s: Store, id: int)
    requires id in s.tasks
    ensures GetTask(DeleteTask(s, id).store, id) == Failure(NotFound(id))
  {
  }

  /** Every stored task survives the dictionary round trip: the invariant
      gives it a positive id and a non-empty stripped title. */
  lemma StoredTaskRoundTrip(s: Store, k: int)
    requires Valid(s) && k in s.tasks
    ensures FromDict(ToDict(s.tasks[k])) == Success(s.tasks[k])
  {
    DictRoundTrip(s.tasks[k]);
  }

  /** A refused add does not consume an id: the next add behaves as if the
      refused one had never happened. */
  lemma RefusedAddConsumesNoId(s: Store, blank: string, d: string, title: string, description: string)
    requires AllWhitespace(blank)
    ensures AddTask(AddTask(s, blank, d).store, title, description) == AddTask(s, title, description)
  {
  }

  /** Marking complete, or incomplete, twice is the same as once. */
  lemma CompletionIdempotent(s: Store, id: int)
    ensures CompleteTask(CompleteTask(s, id).store, id) == CompleteTask(s, id)
    ensures IncompleteTask(IncompleteTask(s, id).store, id) == IncompleteTask(s, id)
  {
  }

  /** The commands `add_task(titles[i], descs[i])`, in order. */
  function AddCommands(titles: seq<string>, descs: seq<string>): (cs: seq<Command>)
    requires |titles| == |descs|
    ensures |cs| == |titles|
    ensures forall i :: 0 <= i < |cs| ==> cs[i] == Add(titles[i], descs[i])
  {
    seq(|titles|, i requires 0 <= i < |titles| => Add(titles[i], descs[i]))
  }

  /** Running `a` then `b` is running their concatenation. */
  lemma {:induction false} RunConcat(s: Store, a: seq<Command>, b: seq<Command>)
    ensures Run(s, a + b) == Run(Run(s, a), b)
    decreases |a|
  {
    if a != [] {
      assert (a + b)[0] == a[0];
      assert (a + b)[1..] == a[1..] + b;
      RunConcat(Apply(s, a[0]), a[1..], b);
    } else {
      assert a + b == b;
    }
  }

  /** Successive adds with non-blank titles issue consecutive ids starting at
      the counter, each storing its stripped title and its description, and
      leave the tasks already stored untouched. */
  lemma {:induction false} AddsIssueConsecutiveIds(s: Store, titles: seq<string>, descs: seq<string>)
    requires |titles| == |descs|
    requires s.nextId >= 1 && forall k :: k in s.tasks ==> k < s.nextId
    requires forall i :: 0 <= i < |titles| ==> !AllWhitespace(titles[i])
    ensures var after := Run(s, AddCommands(titles, descs));
      && after.nextId == s.nextId + |titles|
      && (forall k :: k in s.tasks ==> k in after.tasks && after.tasks[k] == s.tasks[k])
      && (forall i :: 0 <= i < |titles| ==>
            s.nextId + i in after.tasks && after.tasks[s.nextId + i] == Task(s.nextId + i, Strip(titles[i]), descs[i], false))
      && (forall k :: k in after.tasks <==> k in s.tasks || s.nextId <= k < s.nextId + |titles|)
    decreases |titles|
  {
    if titles == [] {
      assert Run(s, AddCommands(titles, descs)) == s;
    } else {
      var n := |titles| - 1;
      var init := titles[..n];
      var initD := descs[..n];
      var last := Add(titles[n], descs[n]);
      assert AddCommands(titles, descs) == AddCommands(init, initD) + [last];
      RunConcat(s, AddCommands(init, initD), [last]);
      AddsIssueConsecutiveIds(s, init, initD);
      var mid := Run(s, AddCommands(init, initD));
      var after := AddTask(mid, titles[n], descs[n]).store;
      assert Run(s, AddCommands(titles, descs)) == after by {
        assert Run(mid, [last]) == Run(Apply(mid, last), []);
      }
      assert after.tasks == mid.tasks[mid.nextId := Task(mid.nextId, Strip(titles[n]), descs[n], false)];
      assert after.nextId == mid.nextId + 1;
      OneMoreAdd(s, titles, descs, init, initD, mid, after);
    }
  }

  /** The inductive step of `AddsIssueConsecutiveIds`: one more add on top of
      the first `|titles| - 1`. */
  lemma OneMoreAdd(s: Store, titles: seq<string>, descs: seq<string>, init: seq<string>, initD: seq<string>, mid: Store, after: Store)
    requires |titles| > 0 && |descs| == |titles|
    requires init == titles[..|titles| - 1] && initD == descs[..|titles| - 1]
    requires forall k :: k in s.tasks ==> k < s.nextId
    requires mid.nextId == s.nextId + |titles| - 1
    requires forall k :: k in s.tasks ==> k in mid.tasks && mid.tasks[k] == s.tasks[k]
    requires forall i :: 0 <= i < |init| ==>
      s.nextId + i in mid.tasks && mid.tasks[s.nextId + i] == Task(s.nextId + i, Strip(init[i]), initD[i], false)
    requires forall k :: k in mid.tasks <==> k in s.tasks || s.nextId <= k < mid.nextId
    requires after.tasks == mid.tasks[mid.nextId := Task(mid.nextId, Strip(titles[|titles| - 1]), descs[|titles| - 1], false)]
    requires after.nextId == mid.nextId + 1
    ensures after.nextId == s.nextId + |titles|
    ensures forall k :: k in s.tasks ==> k in after.tasks && after.tasks[k] == s.tasks[k]
    ensures forall i :: 0 <= i < |titles| ==>
      s.nextId + i in after.tasks && after.tasks[s.nextId + i] == Task(s.nextId + i, Strip(titles[i]), descs[i], false)
    ensures forall k :: k in after.tasks <==> k in s.tasks || s.nextId <= k < s.nextId + |titles|
  {
    var n := |titles| - 1;
    forall i | 0 <= i < |titles|
      ensures s.nextId + i in after.tasks && after.tasks[s.nextId + i] == Task(s.nextId + i, Strip(titles[i]), descs[i], false)
    {
      if i < n {
        assert init[i] == titles[i] && initD[i] == descs[i];
      }
    }
  }

  /** From a fresh store, n non-blank adds give exactly the ids 1..n, the
      i-th add's task holding the i-th title stripped and the i-th
      description. */
  lemma FreshStoreNumbersFromOne(titles: seq<string>, descs: seq<string>)
    requires |titles| == |descs|
    requires forall i :: 0 <= i < |titles| ==> !AllWhitespace(titles[i])
    ensures var after := Run(Init(), AddCommands(titles, descs));
      && (forall k :: k in after.tasks <==> 1 <= k <= |titles|)
      && (forall i :: 0 <= i < |titles| ==> after.tasks[1 + i] == Task(1 + i, Strip(titles[i]), descs[i], false))
      && after.nextId == |titles| + 1
  {
    var s0 := Init();
    assert s0.nextId == 1 && s0.tasks == map[];
    AddsIssueConsecutiveIds(s0, titles, descs);
    var after := Run(s0, AddCommands(titles, descs));
    forall k
      ensures k in after.tasks <==> 1 <= k <= |titles|
    {
      assert k !in s0.tasks;
    }
  }
}
