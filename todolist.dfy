/**
 * The task collection behind the to-do list component: a map from a date
 * string (`YYYY-MM-DD`, the selected calendar day) to that day's ordered
 * list of tasks. Adding, deleting and toggling a task each rebuild the map
 * and replace the selected day's list; the progress bar is derived from the
 * selected day's list.
 */
module TodoList {
  import opened JsString

  /** One to-do item. The id is the creation timestamp in milliseconds. */
  datatype Task = Task(id: int, text: string, completed: bool)

  /** Date string to that day's tasks, in insertion (= display) order. */
  type Todos = map<string, seq<Task>>

  /** What `addTodo` reads and writes: the collection and the text field. */
  datatype State = State(todos: Todos, input: string)

  // ---------------------------------------------------------------------
  // Reading the selected day

  /** The selected day's tasks; a day with no entry reads as the empty
      list. */
  function CurrentTodos(todos: Todos, selectedDate: string): (ts: seq<Task>)
    ensures selectedDate !in todos ==> ts == []
    ensures selectedDate in todos ==> ts == todos[selectedDate]
  {
    if selectedDate in todos then todos[selectedDate] else []
  }

  /** Every date other than `selectedDate` is present in `after` exactly
      when it is in `before`, and holds the same list. */
  predicate OthersUnchanged(before: Todos, after: Todos, selectedDate: string) {
    && (forall d :: d in after && d != selectedDate ==> d in before && after[d] == before[d])
    && (forall d :: d in before && d != selectedDate ==> d in after)
  }

  /** Some task of the list has id `id`. */
  predicate HasId(ts: seq<Task>, id: int) {
    exists t :: t in ts && t.id == id
  }

  /** No two tasks of a list share an id. */
  predicate UniqueIds(ts: seq<Task>) {
    forall i, j :: 0 <= i < j < |ts| ==> ts[i].id != ts[j].id
  }

  /** Ids are unique within every day's list. */
  predicate Valid(todos: Todos) {
    forall d :: d in todos ==> UniqueIds(todos[d])
  }

  /** `a` is `b` with some elements left out, the rest in their order. */
  predicate IsSubsequence<T(==)>(a: seq<T>, b: seq<T>)
    decreases |b|
  {
    if b == [] then a == []
    else
      || (a != [] && a[0] == b[0] && IsSubsequence(a[1..], b[1..]))
      || IsSubsequence(a, b[1..])
  }

  // ---------------------------------------------------------------------
  // addTodo

  /** Adding a task (`addTodo`), with `now` standing for the clock reading
      that becomes its id. Blank input changes nothing; otherwise the selected day gets
      a new, uncompleted task carrying the untrimmed input, and the input
      field is cleared. */
  function AddTodo(s: State, selectedDate: string, now: int): (r: State)
    ensures IsBlank(s.input) ==> r == s
    ensures !IsBlank(s.input) ==>
      && r.input == ""
      && r.todos.Keys == s.todos.Keys + {selectedDate}
      && r.todos[selectedDate] == CurrentTodos(s.todos, selectedDate) + [Task(now, s.input, false)]
    ensures OthersUnchanged(s.todos, r.todos, selectedDate)
  {
    if Trim(s.input) != [] then
      var dateTodos := CurrentTodos(s.todos, selectedDate);
      State(s.todos[selectedDate := dateTodos + [Task(now, s.input, false)]], "")
    else
      s
  }

  // ---------------------------------------------------------------------
  // deleteTodo

  /** The tasks of `ts` whose id differs from `id`, in their order. */
  function Without(ts: seq<Task>, id: int): (r: seq<Task>)
    ensures IsSubsequence(r, ts)
    ensures forall t :: t in r <==> t in ts && t.id != id
  {
    if ts == [] then []
    else
      var rest := Without(ts[1..], id);
      assert ts == [ts[0]] + ts[1..];
      if ts[0].id != id then [ts[0]] + rest else rest
  }

  /** Deleting a task (`deleteTodo`): the selected day keeps, in order, exactly its tasks
      whose id differs from `id`; every other day is untouched, and a
      missing id changes nothing. The source reads the selected day without
      a default, so the day must be present. */
  function DeleteTodo(todos: Todos, selectedDate: string, id: int): (r: Todos)
    requires selectedDate in todos
    ensures r.Keys == todos.Keys
    ensures OthersUnchanged(todos, r, selectedDate)
    ensures IsSubsequence(r[selectedDate], todos[selectedDate])
    ensures forall t :: t in r[selectedDate] <==> t in todos[selectedDate] && t.id != id
    ensures forall t :: multiset(r[selectedDate])[t] == if t.id == id then 0 else multiset(todos[selectedDate])[t]
    ensures !HasId(todos[selectedDate], id) ==> r == todos
  {
    WithoutNoMatch(todos[selectedDate], id);
    WithoutMultiset(todos[selectedDate], id);
    var dateTodos := Without(todos[selectedDate], id);
    todos[selectedDate := dateTodos]
  }

  // ---------------------------------------------------------------------
  // toggleTodo

  /** One task after toggling `id`: the same task, with its completion
      negated when its id is `id`. */
  function Flip(t: Task, id: int): (r: Task)
    ensures r.id == t.id && r.text == t.text
    ensures r.completed == (t.completed != (t.id == id))
  {
    if t.id == id then t.(completed := !t.completed) else t
  }

  /** Every task of `ts` passed through `Flip`: same length, ids and texts,
      and `completed` negated exactly where the id matches. */
  function Toggled(ts: seq<Task>, id: int): (r: seq<Task>)
    ensures |r| == |ts|
    ensures forall i :: 0 <= i < |ts| ==>
      && r[i].id == ts[i].id
      && r[i].text == ts[i].text
      && r[i].completed == (if ts[i].id == id then !ts[i].completed else ts[i].completed)
  {
    if ts == [] then [] else [Flip(ts[0], id)] + Toggled(ts[1..], id)
  }

  /** Toggling a task (`toggleTodo`): the selected day keeps its length, order, ids and
      texts and has `completed` negated on exactly the tasks whose id is
      `id`; every other day is untouched, and a missing id changes nothing.
      As for deleting, the selected day must be present. */
  function ToggleTodo(todos: Todos, selectedDate: string, id: int): (r: Todos)
    requires selectedDate in todos
    ensures r.Keys == todos.Keys
    ensures OthersUnchanged(todos, r, selectedDate)
    ensures |r[selectedDate]| == |todos[selectedDate]|
    ensures forall i :: 0 <= i < |todos[selectedDate]| ==>
      var (before, after) := (todos[selectedDate][i], r[selectedDate][i]);
      after == Task(before.id, before.text, before.completed != (before.id == id))
    ensures !HasId(todos[selectedDate], id) ==> r == todos
  {
    var dateTodos := Toggled(todos[selectedDate], id);
    ToggledNoMatch(todos[selectedDate], id);
    todos[selectedDate := dateTodos]
  }

  // ---------------------------------------------------------------------
  // Progress

  /** How many tasks of `ts` are completed. */
  function CompletedCount(ts: seq<Task>): (n: nat)
    ensures n <= |ts|
    ensures n == |ts| <==> forall t :: t in ts ==> t.completed
    ensures n == 0 <==> forall t :: t in ts ==> !t.completed
  {
    if ts == [] then 0
    else
      assert ts == [ts[0]] + ts[1..];
      (if ts[0].completed then 1 else 0) + CompletedCount(ts[1..])
  }

  /** How many tasks the selected day has: never fewer than the completed
      ones, and 0 exactly when the day is absent or empty. */
  function TotalCount(todos: Todos, selectedDate: string): (n: nat)
    ensures CompletedCount(CurrentTodos(todos, selectedDate)) <= n
    ensures n == 0 <==> selectedDate !in todos || todos[selectedDate] == []
  {
    |CurrentTodos(todos, selectedDate)|
  }

  /** The completed share of the selected day's tasks as a percentage,
      computed in exact real arithmetic, and 0 when the day has no tasks:
      between 0 and 100, 0 for an absent or empty day or one with nothing
      completed, and 100 exactly when the day has tasks and all of them are
      completed. */
  function Progress(todos: Todos, selectedDate: string): (p: real)
    ensures 0.0 <= p <= 100.0
    ensures CurrentTodos(todos, selectedDate) == [] ==> p == 0.0
    ensures p == 0.0 <==> forall t :: t in CurrentTodos(todos, selectedDate) ==> !t.completed
    ensures p == 100.0 <==>
      CurrentTodos(todos, selectedDate) != [] &&
      forall t :: t in CurrentTodos(todos, selectedDate) ==> t.completed
  {
    var currentTodos := CurrentTodos(todos, selectedDate);
    var totalCount := TotalCount(todos, selectedDate);
    var completedCount := CompletedCount(currentTodos);
    if totalCount > 0 then
      RatioBounds(completedCount, totalCount);
      (completedCount as real / totalCount as real) * 100.0
    else
      0.0
  }

  // ---------------------------------------------------------------------
  // Lemmas

  /** Filtering keeps each task as often as the list has it, unless its id
      is the one removed. */
  lemma {:induction false} WithoutMultiset(ts: seq<Task>, id: int)
    ensures forall t :: multiset(Without(ts, id))[t] == if t.id == id then 0 else multiset(ts)[t]
  {
    if ts != [] {
      assert ts == [ts[0]] + ts[1..];
      WithoutMultiset(ts[1..], id);
    }
  }

  /** Filtering out an id no task has leaves the list as it was. */
  lemma {:induction false} WithoutNoMatch(ts: seq<Task>, id: int)
    ensures !HasId(ts, id) ==> Without(ts, id) == ts
  {
    if ts != [] && !HasId(ts, id) {
      assert ts[0] in ts;
      assert !HasId(ts[1..], id) by {
        forall t | t in ts[1..] ensures t.id != id { assert t in ts; }
      }
      WithoutNoMatch(ts[1..], id);
      assert ts == [ts[0]] + ts[1..];
    }
  }

  /** A subsequence of a list with unique ids has unique ids. */
  lemma {:induction false} SubsequenceKeepsUniqueIds(a: seq<Task>, b: seq<Task>)
    requires IsSubsequence(a, b) && UniqueIds(b)
    ensures UniqueIds(a)
    ensures forall t :: t in a ==> t in b
    decreases |b|
  {
    if b != [] {
      var head := a != [] && a[0] == b[0] && IsSubsequence(a[1..], b[1..]);
      SubsequenceKeepsUniqueIds(if head then a[1..] else a, b[1..]);
      if head {
        forall j | 0 < j < |a| ensures a[0].id != a[j].id {
          assert a[j] in a[1..];
          var k :| 0 <= k < |b[1..]| && b[1..][k] == a[j];
          assert b[k + 1] == a[j];
        }
        forall t | t in a ensures t in b {
          if t != a[0] { assert t in a[1..]; }
        }
      } else {
        forall t | t in a ensures t in b { assert t in b[1..]; }
      }
    }
  }

  /** Toggling with an id no task has leaves the list as it was. */
  lemma ToggledNoMatch(ts: seq<Task>, id: int)
    ensures !HasId(ts, id) ==> Toggled(ts, id) == ts
  {
    if !HasId(ts, id) {
      var r := Toggled(ts, id);
      forall i | 0 <= i < |ts| ensures r[i] == ts[i] {
        assert ts[i] in ts;
      }
    }
  }

  /** `(c / t) * 100` stays within 0..100 when `c <= t`, reaches 100 only
      when `c == t` and is 0 only when `c == 0`. */
  lemma RatioBounds(c: nat, t: nat)
    requires 0 < t && c <= t
    ensures 0.0 <= (c as real / t as real) * 100.0 <= 100.0
    ensures (c as real / t as real) * 100.0 == 100.0 <==> c == t
    ensures (c as real / t as real) * 100.0 == 0.0 <==> c == 0
  {
    var (cr, tr) := (c as real, t as real);
    var q := cr / tr;
    assert q * tr == cr;
    assert (q - 1.0) * tr == cr - tr;
    // Multiplying by the positive `tr` keeps the sign of `q` and of `q - 1`,
    // and `cr` is non-negative and at most `tr`.
    assert q < 0.0 ==> q * tr < 0.0;
    assert q == 0.0 <==> cr == 0.0;
    assert q - 1.0 > 0.0 ==> (q - 1.0) * tr > 0.0;
    assert q - 1.0 < 0.0 ==> (q - 1.0) * tr < 0.0;
  }

  /** Completed tasks of a list followed by one more task. */
  lemma {:induction false} CompletedCountAppend(ts: seq<Task>, t: Task)
    ensures CompletedCount(ts + [t]) == CompletedCount(ts) + (if t.completed then 1 else 0)
  {
    if ts != [] {
      assert (ts + [t])[1..] == ts[1..] + [t];
      CompletedCountAppend(ts[1..], t);
    }
  }

  /** Blank input is exactly the input `addTodo` rejects. */
  lemma AddTodoRejectsBlank(s: State, selectedDate: string, now: int)
    ensures AddTodo(s, selectedDate, now) == s <==> IsBlank(s.input)
  {
    if !IsBlank(s.input) {
      assert AddTodo(s, selectedDate, now).input == "";
    }
  }

  /** After a non-blank `addTodo` the selected day has one more task and the
      same number of completed ones. */
  lemma AddTodoCounts(s: State, selectedDate: string, now: int)
    requires !IsBlank(s.input)
    ensures TotalCount(AddTodo(s, selectedDate, now).todos, selectedDate) == TotalCount(s.todos, selectedDate) + 1
    ensures CompletedCount(CurrentTodos(AddTodo(s, selectedDate, now).todos, selectedDate))
         == CompletedCount(CurrentTodos(s.todos, selectedDate))
  {
    CompletedCountAppend(CurrentTodos(s.todos, selectedDate), Task(now, s.input, false));
  }

  /** Adding a task under a fresh id keeps ids unique. */
  lemma AddTodoKeepsValid(s: State, selectedDate: string, now: int)
    requires Valid(s.todos)
    requires !HasId(CurrentTodos(s.todos, selectedDate), now)
    ensures Valid(AddTodo(s, selectedDate, now).todos)
  {
    var r := AddTodo(s, selectedDate, now).todos;
    if !IsBlank(s.input) {
      var ts := CurrentTodos(s.todos, selectedDate);
      var ts' := r[selectedDate];
      forall i, j | 0 <= i < j < |ts'| ensures ts'[i].id != ts'[j].id {
        if j == |ts| {
          assert ts[i] in ts;
        }
      }
    }
  }

  /** Deleting keeps ids unique. */
  lemma DeleteTodoKeepsValid(todos: Todos, selectedDate: string, id: int)
    requires selectedDate in todos && Valid(todos)
    ensures Valid(DeleteTodo(todos, selectedDate, id))
  {
    var r := DeleteTodo(todos, selectedDate, id);
    SubsequenceKeepsUniqueIds(r[selectedDate], todos[selectedDate]);
  }

  /** Toggling keeps ids unique. */
  lemma ToggleTodoKeepsValid(todos: Todos, selectedDate: string, id: int)
    requires selectedDate in todos && Valid(todos)
    ensures Valid(ToggleTodo(todos, selectedDate, id))
  {
    var r := ToggleTodo(todos, selectedDate, id);
    assert UniqueIds(todos[selectedDate]);
  }

  /** With unique ids, deleting an id that is present removes exactly one
      task. */
  lemma {:induction false} WithoutUniqueRemovesOne(ts: seq<Task>, id: int)
    requires UniqueIds(ts) && HasId(ts, id)
    ensures |Without(ts, id)| == |ts| - 1
  {
    assert ts == [ts[0]] + ts[1..];
    if ts[0].id == id {
      assert !HasId(ts[1..], id) by {
        forall t | t in ts[1..] ensures t.id != id {
          var k :| 0 <= k < |ts[1..]| && ts[1..][k] == t;
          assert ts[k + 1] == t;
        }
      }
      WithoutNoMatch(ts[1..], id);
    } else {
      var t :| t in ts && t.id == id;
      assert t in ts[1..];
      WithoutUniqueRemovesOne(ts[1..], id);
    }
  }

  /** Toggling the same id twice restores the list. */
  lemma ToggleTwiceRestores(todos: Todos, selectedDate: string, id: int)
    requires selectedDate in todos
    ensures ToggleTodo(ToggleTodo(todos, selectedDate, id), selectedDate, id) == todos
  {
    var once := ToggleTodo(todos, selectedDate, id);
    var twice := ToggleTodo(once, selectedDate, id);
    assert twice[selectedDate] == todos[selectedDate];
  }

  /** Deleting the task just added under a fresh id gives the selected day
      back its old list. */
  lemma DeleteUndoesAdd(s: State, selectedDate: string, now: int)
    requires !IsBlank(s.input)
    requires !HasId(CurrentTodos(s.todos, selectedDate), now)
    ensures CurrentTodos(DeleteTodo(AddTodo(s, selectedDate, now).todos, selectedDate, now), selectedDate)
         == CurrentTodos(s.todos, selectedDate)
  {
    var ts := CurrentTodos(s.todos, selectedDate);
    var t := Task(now, s.input, false);
    var added := AddTodo(s, selectedDate, now).todos;
    assert added[selectedDate] == ts + [t];
    WithoutAppend(ts, t, now);
    WithoutNoMatch(ts, now);
    assert Without([t], now) == [];
  }

  /** Filtering distributes over appending one task. */
  lemma {:induction false} WithoutAppend(ts: seq<Task>, t: Task, id: int)
    ensures Without(ts + [t], id) == Without(ts, id) + Without([t], id)
  {
    if ts != [] {
      assert (ts + [t])[1..] == ts[1..] + [t];
      WithoutAppend(ts[1..], t, id);
    }
  }

  /** Example: an empty day, one task added, toggled, then deleted; the
      progress goes 0, 100, 0. */
  lemma AddToggleDeleteExample()
    ensures
      var day := "2024-01-01";
      var added := AddTodo(State(map[], "Grade exams"), day, 1).todos;
      var toggled := ToggleTodo(added, day, 1);
      var deleted := DeleteTodo(toggled, day, 1);
      && added[day] == [Task(1, "Grade exams", false)]
      && Progress(added, day) == 0.0
      && Progress(toggled, day) == 100.0
      && deleted[day] == [] && Progress(deleted, day) == 0.0
  {
    var day := "2024-01-01";
    assert "Grade exams"[0] == 'G';
    var added := AddTodo(State(map[], "Grade exams"), day, 1).todos;
    var toggled := ToggleTodo(added, day, 1);
    assert toggled[day][0] == Task(1, "Grade exams", true);
  }
}
