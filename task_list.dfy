/**
 * The task store of the to-do window (`taskModel`): an ordered list of
 * tasks with a validated append, removal and completion by selected index,
 * a title search, and the start-up load of the saved list.
 */
module TaskStore {
  import opened Wrappers
  import opened JavaText
  import opened IsoDate
  import opened ToDo

  /** What an action on the selected row did: nothing was selected, it acted, or the index was out of range. */
  datatype Selection = NoSelection | Applied | OutOfRange

  /** The model the list widget shows after a search: the live store itself, or a fresh snapshot. */
  datatype Display = Live | Snapshot(items: seq<Task>)

  /**
   * How a selected index fares against a list of `size` rows: `-1` means no
   * selection; any other index outside the list makes `DefaultListModel`
   * throw, which leaves the list as it was.
   */
  function Classify(index: int, size: nat): (s: Selection)
    ensures s == NoSelection <==> index == -1
    ensures s == Applied <==> 0 <= index < size
    ensures s == OutOfRange <==> index != -1 && (index < 0 || size <= index)
  {
    if index == -1 then NoSelection else if 0 <= index < size then Applied else OutOfRange
  }

  // ---------------------------------------------------------------------
  // The search

  /** The test of `filterTasks`: the lower-cased title contains `query`, itself already lower-cased. */
  predicate Matches(query: string, t: Task)
    ensures Matches(query, t) <==> exists k :: OccursAt(ToLower(t.title), query, k)
  {
    ContainsIff(ToLower(t.title), query);
    assert Contains(ToLower(t.title), query) <==> exists k :: OccursAt(ToLower(t.title), query, k);
    Contains(ToLower(t.title), query)
  }

  /** The tasks of `ts` that match `query`, in store order. */
  function Filter(query: string, ts: seq<Task>): (r: seq<Task>)
    ensures |r| <= |ts|
  {
    if ts == [] then []
    else (if Matches(query, ts[0]) then [ts[0]] else []) + Filter(query, ts[1..])
  }

  /** Filtering a list one task longer adds that task at the end exactly when it matches. */
  lemma {:induction false} FilterSnoc(query: string, ts: seq<Task>, t: Task)
    ensures Filter(query, ts + [t]) == Filter(query, ts) + (if Matches(query, t) then [t] else [])
  {
    if ts != [] {
      assert (ts + [t])[1..] == ts[1..] + [t];
      FilterSnoc(query, ts[1..], t);
    } else {
      assert [t][1..] == [];
    }
  }

  /** A task is in the search result exactly when it is in the store and matches. */
  lemma {:induction false} FilterMembership(query: string, ts: seq<Task>, t: Task)
    ensures t in Filter(query, ts) <==> t in ts && Matches(query, t)
  {
    if ts != [] {
      FilterMembership(query, ts[1..], t);
      assert t in ts <==> t == ts[0] || t in ts[1..];
    }
  }

  /** The search returns the whole store exactly when every task matches. */
  lemma {:induction false} FilterWholeIff(query: string, ts: seq<Task>)
    ensures Filter(query, ts) == ts <==> forall i :: 0 <= i < |ts| ==> Matches(query, ts[i])
  {
    if ts != [] {
      var tail := ts[1..];
      FilterWholeIff(query, tail);
      assert forall i :: 1 <= i < |ts| ==> ts[i] == tail[i - 1];
      if Matches(query, ts[0]) {
        assert Filter(query, ts) == [ts[0]] + Filter(query, tail);
        assert ts == [ts[0]] + tail;
      } else {
        assert |Filter(query, ts)| < |ts|;
      }
    }
  }

  /** An empty search string matches every title, so the search returns the whole store. */
  lemma FilterEmptyQuery(ts: seq<Task>)
    ensures Filter([], ts) == ts
  {
    forall i | 0 <= i < |ts| ensures Matches([], ts[i]) {
      ContainsEmpty(ToLower(ts[i].title));
    }
    FilterWholeIff([], ts);
  }

  /** The position in the store of the `k`-th search result. */
  function StoreIndex(query: string, ts: seq<Task>, k: nat): (j: nat)
    requires k < |Filter(query, ts)|
    ensures j < |ts|
    decreases |ts|
  {
    if Matches(query, ts[0]) then (if k == 0 then 0 else 1 + StoreIndex(query, ts[1..], k - 1))
    else 1 + StoreIndex(query, ts[1..], k)
  }

  /** The `k`-th search result is the task at `StoreIndex` in the store. */
  lemma {:induction false} StoreIndexSound(query: string, ts: seq<Task>, k: nat)
    requires k < |Filter(query, ts)|
    ensures ts[StoreIndex(query, ts, k)] == Filter(query, ts)[k]
    decreases |ts|
  {
    var rest := Filter(query, ts[1..]);
    if Matches(query, ts[0]) {
      assert Filter(query, ts) == [ts[0]] + rest;
      if k > 0 {
        StoreIndexSound(query, ts[1..], k - 1);
      }
    } else {
      assert Filter(query, ts) == rest;
      StoreIndexSound(query, ts[1..], k);
    }
  }

  /** Search results keep store order: a later result sits later in the store. */
  lemma {:induction false} StoreIndexIncreasing(query: string, ts: seq<Task>, k1: nat, k2: nat)
    requires k1 < k2 < |Filter(query, ts)|
    ensures StoreIndex(query, ts, k1) < StoreIndex(query, ts, k2)
    decreases |ts|
  {
    var rest := Filter(query, ts[1..]);
    var head := if Matches(query, ts[0]) then 1 else 0;
    assert |Filter(query, ts)| == head + |rest|;
    var j2 := StoreIndex(query, ts, k2);
    assert j2 == 1 + StoreIndex(query, ts[1..], k2 - head);
    if head == 1 && k1 == 0 {
      assert StoreIndex(query, ts, k1) == 0 < j2;
    } else {
      StoreIndexIncreasing(query, ts[1..], k1 - head, k2 - head);
      assert StoreIndex(query, ts, k1) == 1 + StoreIndex(query, ts[1..], k1 - head) < j2;
    }
  }

  /** No match is skipped: every matching task of the store is some search result. */
  lemma {:induction false} StoreIndexComplete(query: string, ts: seq<Task>, j: nat)
    requires j < |ts| && Matches(query, ts[j])
    ensures exists k: nat :: k < |Filter(query, ts)| && StoreIndex(query, ts, k) == j
    decreases |ts|
  {
    if j == 0 {
      assert StoreIndex(query, ts, 0) == 0;
    } else {
      assert ts[1..][j - 1] == ts[j];
      StoreIndexComplete(query, ts[1..], j - 1);
      var k: nat :| k < |Filter(query, ts[1..])| && StoreIndex(query, ts[1..], k) == j - 1;
      if Matches(query, ts[0]) {
        assert StoreIndex(query, ts, k + 1) == j;
      } else {
        assert StoreIndex(query, ts, k) == j;
      }
    }
  }

  /** Where every task matches, the `k`-th row shown is the `k`-th task of the store. */
  lemma {:induction false} StoreIndexWhenAllMatch(query: string, ts: seq<Task>, k: nat)
    requires forall i :: 0 <= i < |ts| ==> Matches(query, ts[i])
    requires k < |Filter(query, ts)|
    ensures StoreIndex(query, ts, k) == k
    decreases |ts|
  {
    if k > 0 {
      assert forall i :: 0 <= i < |ts[1..]| ==> ts[1..][i] == ts[i + 1];
      StoreIndexWhenAllMatch(query, ts[1..], k - 1);
    }
  }

  // ---------------------------------------------------------------------
  // Changes at one position

  /** The store after `remove(i)`: the task at `i` is gone and the others close up in order. */
  function RemoveAt(ts: seq<Task>, i: nat): (r: seq<Task>)
    requires i < |ts|
    ensures |r| == |ts| - 1
    ensures forall j :: 0 <= j < i ==> r[j] == ts[j]
    ensures forall j :: i <= j < |r| ==> r[j] == ts[j + 1]
  {
    ts[..i] + ts[i + 1..]
  }

  /** Removal loses exactly one copy of the removed task and nothing else. */
  lemma RemoveAtMultiset(ts: seq<Task>, i: nat)
    requires i < |ts|
    ensures multiset(RemoveAt(ts, i)) + multiset{ts[i]} == multiset(ts)
  {
    assert ts == ts[..i] + [ts[i]] + ts[i + 1..];
  }

  /** The store after `get(i).completed = true`: only that task's flag changes. */
  function MarkDoneAt(ts: seq<Task>, i: nat): (r: seq<Task>)
    requires i < |ts|
    ensures |r| == |ts|
    ensures forall j :: 0 <= j < |ts| && j != i ==> r[j] == ts[j]
    ensures r[i].completed
    ensures r[i].title == ts[i].title && r[i].dueDate == ts[i].dueDate && r[i].priority == ts[i].priority
  {
    ts[i := ts[i].(completed := true)]
  }

  /** Marking the same task done twice is marking it once. */
  lemma MarkDoneIdempotent(ts: seq<Task>, i: nat)
    requires i < |ts|
    ensures MarkDoneAt(MarkDoneAt(ts, i), i) == MarkDoneAt(ts, i)
  {
  }

  /**
   * The selected index is that of the row shown, but is applied to the whole
   * store: with the search "o" showing only "Mom", selecting that row (0)
   * and deleting removes "Milk" and keeps "Mom"; marking it done completes "Milk".
   */
  lemma SelectionHitsWrongTask()
    ensures var milk, mom := Created("Milk", Date(2024, 3, 1), MEDIUM), Created("Mom", Date(2024, 3, 2), LOW);
      Filter("o", [milk, mom]) == [mom] &&
      RemoveAt([milk, mom], 0) == [mom] &&
      MarkDoneAt([milk, mom], 0)[1] == mom && MarkDoneAt([milk, mom], 0)[0] != milk
  {
    var milk, mom := Created("Milk", Date(2024, 3, 1), MEDIUM), Created("Mom", Date(2024, 3, 2), LOW);
    assert ToLower("Milk") == "milk" && ToLower("Mom") == "mom";
    ContainsIff("milk", "o");
    assert forall k :: 0 <= k < 4 ==> "milk"[k] != 'o';
    assert !Matches("o", milk);
    assert OccursAt("mom", "o", 1);
    ContainsIff("mom", "o");
    assert [milk, mom][1..] == [mom];
  }

  // ---------------------------------------------------------------------
  // The store

  class TaskList {
    /** The tasks in list order (`taskModel`). */
    var tasks: seq<Task>

    /** The window's start-up: an empty store, then `loadTasks` with the decoded file. */
    constructor (saved: Option<seq<Task>>)
      ensures tasks == if saved.Some? then saved.value else []
    {
      tasks := [];
      new;
      LoadTasks(saved);
    }

    /** `loadTasks`: append the decoded tasks in file order, or nothing when decoding failed. */
    method LoadTasks(decoded: Option<seq<Task>>)
      modifies this
      ensures tasks == if decoded.Some? then old(tasks) + decoded.value else old(tasks)
    {
      if decoded.Some? {
        var loaded := decoded.value;
        for i := 0 to |loaded|
          invariant tasks == old(tasks) + loaded[..i]
        {
          tasks := tasks + [loaded[i]];
          assert loaded[..i + 1] == loaded[..i] + [loaded[i]];
        }
        assert loaded[..|loaded|] == loaded;
      }
    }

    /**
     * `addTask`: validate the fields and, when they are accepted, append the
     * new task; a refused input leaves the store as it was.
     */
    method AddTask(titleText: string, dateText: string, priority: Priority) returns (r: Result<Task, AddError>)
      modifies this
      ensures r == NewTask(titleText, dateText, priority)
      ensures tasks == if r.Ok? then old(tasks) + [r.value] else old(tasks)
    {
      r := NewTask(titleText, dateText, priority);
      if r.Ok? {
        tasks := tasks + [r.value];
      }
    }

    /** `deleteSelected`: remove the task at the selected index of the store. */
    method DeleteSelected(index: int) returns (s: Selection)
      modifies this
      ensures s == Classify(index, |old(tasks)|)
      ensures tasks == if s == Applied then RemoveAt(old(tasks), index) else old(tasks)
    {
      s := Classify(index, |tasks|);
      if s == Applied {
        tasks := RemoveAt(tasks, index);
      }
    }

    /** `markSelectedDone`: complete the task at the selected index of the store. */
    method MarkSelectedDone(index: int) returns (s: Selection)
      modifies this
      ensures s == Classify(index, |old(tasks)|)
      ensures tasks == if s == Applied then MarkDoneAt(old(tasks), index) else old(tasks)
    {
      s := Classify(index, |tasks|);
      if s == Applied {
        tasks := MarkDoneAt(tasks, index);
      }
    }

    /**
     * `filterTasks`: collect the matching tasks in store order, then show the
     * live store when both the result and the query are empty, the result otherwise.
     */
    method FilterTasks(searchText: string) returns (filtered: seq<Task>, display: Display)
      ensures filtered == Filter(ToLower(searchText), tasks)
      ensures searchText == [] ==> filtered == tasks
      ensures display == (if filtered == [] && searchText == [] then Live else Snapshot(filtered))
      ensures display == Live <==> searchText == [] && tasks == []
    {
      var query := ToLower(searchText);
      filtered := [];
      var i := 0;
      while i < |tasks|
        invariant 0 <= i <= |tasks|
        invariant filtered == Filter(query, tasks[..i])
      {
        var t := tasks[i];
        FilterSnoc(query, tasks[..i], t);
        assert tasks[..i + 1] == tasks[..i] + [t];
        if Matches(query, t) {
          filtered := filtered + [t];
        }
        i := i + 1;
      }
      assert tasks[..i] == tasks;
      if searchText == [] {
        FilterEmptyQuery(tasks);
      }
      display := if filtered == [] && query == [] then Live else Snapshot(filtered);
    }

    /**
     * Deletion as the window evidently means it: `index` is a row of the
     * search result for `searchText`, and the task shown in that row is removed.
     */
    method DeleteShown(searchText: string, index: int) returns (s: Selection)
      modifies this
      ensures var shown := Filter(ToLower(searchText), old(tasks));
        s == Classify(index, |shown|) &&
        tasks == if s == Applied then RemoveAt(old(tasks), StoreIndex(ToLower(searchText), old(tasks), index)) else old(tasks)
      ensures s == Applied ==>
        old(tasks)[StoreIndex(ToLower(searchText), old(tasks), index)] == Filter(ToLower(searchText), old(tasks))[index]
    {
      var shown, _ := FilterTasks(searchText);
      s := Classify(index, |shown|);
      if s == Applied {
        StoreIndexSound(ToLower(searchText), tasks, index);
        tasks := RemoveAt(tasks, StoreIndex(ToLower(searchText), tasks, index));
      }
    }

    /**
     * Completion as the window evidently means it: the task shown in row
     * `index` of the search result for `searchText` is marked done.
     */
    method MarkShownDone(searchText: string, index: int) returns (s: Selection)
      modifies this
      ensures var shown := Filter(ToLower(searchText), old(tasks));
        s == Classify(index, |shown|) &&
        tasks == if s == Applied then MarkDoneAt(old(tasks), StoreIndex(ToLower(searchText), old(tasks), index)) else old(tasks)
      ensures s == Applied ==>
        old(tasks)[StoreIndex(ToLower(searchText), old(tasks), index)] == Filter(ToLower(searchText), old(tasks))[index]
    {
      var shown, _ := FilterTasks(searchText);
      s := Classify(index, |shown|);
      if s == Applied {
        StoreIndexSound(ToLower(searchText), tasks, index);
        tasks := MarkDoneAt(tasks, StoreIndex(ToLower(searchText), tasks, index));
      }
    }
  }
}
