/** The in-memory todo store: an ordered list of todo records and a
    monotonically increasing id counter, with list / get / create / update /
    delete operations. Ids are Java `Long` values, modelled as unbounded
    integers; the counter is a natural number. */
module Todo {

  /** Stands for a Java reference that may be `null`. */
  datatype Option<T> = None | Some(value: T)

  /** One todo record; fields in the order of the seeding constructor call. */
  datatype TodoItem = TodoItem(id: int, title: string, description: string, completed: bool)

  // ---------------------------------------------------------------------------
  // Specification functions over the list of items
  // ---------------------------------------------------------------------------

  /** Some item of `s` carries `id`. */
  predicate HasId(s: seq<TodoItem>, id: int) {
    exists i :: 0 <= i < |s| && s[i].id == id
  }

  /** No two items of `s` share an id. */
  predicate UniqueIds(s: seq<TodoItem>) {
    forall i, j :: 0 <= i < j < |s| ==> s[i].id != s[j].id
  }

  /** The store's invariant: ids are unique and every id was handed out by the
      counter, i.e. lies in 1..counter. */
  predicate StoreInvariant(s: seq<TodoItem>, counter: nat) {
    UniqueIds(s) && forall i :: 0 <= i < |s| ==> 1 <= s[i].id <= counter
  }

  /** Position of the first item whose id is `id`, scanning from the front
      (the order of both the stream search and the indexed update loop). */
  function FirstIndex(s: seq<TodoItem>, id: int): (r: Option<nat>)
    ensures r.None? <==> !HasId(s, id)
    ensures r.Some? ==> r.value < |s| && s[r.value].id == id
    ensures r.Some? ==> forall j :: 0 <= j < r.value ==> s[j].id != id
  {
    if |s| == 0 then None
    else if s[0].id == id then Some(0)
    else match FirstIndex(s[1..], id)
      case None => None
      case Some(k) => Some(k + 1)
  }

  /** `s` without the items whose id is `id` (what `removeIf` leaves). */
  function RemoveAll(s: seq<TodoItem>, id: int): (r: seq<TodoItem>)
    ensures |r| <= |s|
    ensures forall k :: 0 <= k < |r| ==> r[k].id != id && r[k] in s
  {
    if |s| == 0 then []
    else (if s[0].id == id then [] else [s[0]]) + RemoveAll(s[1..], id)
  }

  // ---------------------------------------------------------------------------
  // Lemmas about the specification functions
  // ---------------------------------------------------------------------------

  /** Every item with a different id survives the removal. */
  lemma {:induction false} RemoveAllKeepsOthers(s: seq<TodoItem>, id: int, x: TodoItem)
    requires x in s && x.id != id
    ensures x in RemoveAll(s, id)
  {
    if s[0] != x {
      RemoveAllKeepsOthers(s[1..], id, x);
    }
  }

  /** Removal works piecewise, so the survivors keep their relative order. */
  lemma {:induction false} RemoveAllAppend(a: seq<TodoItem>, b: seq<TodoItem>, id: int)
    ensures RemoveAll(a + b, id) == RemoveAll(a, id) + RemoveAll(b, id)
  {
    if |a| == 0 {
      assert a + b == b;
    } else {
      assert (a + b)[1..] == a[1..] + b;
      RemoveAllAppend(a[1..], b, id);
    }
  }

  /** Removing an id nobody carries changes nothing. */
  lemma {:induction false} RemoveAllAbsent(s: seq<TodoItem>, id: int)
    requires !HasId(s, id)
    ensures RemoveAll(s, id) == s
  {
    if |s| > 0 {
      assert !HasId(s[1..], id) by {
        forall i | 0 <= i < |s[1..]| ensures s[1..][i].id != id {
          assert s[1..][i] == s[i + 1];
        }
      }
      RemoveAllAbsent(s[1..], id);
    }
  }

  /** Removal shrinks the list exactly when some item carries the id: this is
      the boolean that `removeIf` reports. */
  lemma {:induction false} RemoveAllShrinks(s: seq<TodoItem>, id: int)
    ensures |RemoveAll(s, id)| < |s| <==> HasId(s, id)
  {
    if |s| > 0 {
      RemoveAllShrinks(s[1..], id);
      if s[0].id != id {
        if HasId(s, id) {
          var i :| 0 <= i < |s| && s[i].id == id;
          assert s[1..][i - 1].id == id;
        }
      }
    }
  }

  /** With unique ids, a removal takes out at most one item. */
  lemma {:induction false} RemoveAllCount(s: seq<TodoItem>, id: int)
    requires UniqueIds(s)
    ensures |RemoveAll(s, id)| == if HasId(s, id) then |s| - 1 else |s|
  {
    if |s| > 0 {
      var t := s[1..];
      assert UniqueIds(t) by {
        forall i, j | 0 <= i < j < |t| ensures t[i].id != t[j].id {
          assert t[i] == s[i + 1] && t[j] == s[j + 1];
        }
      }
      if s[0].id == id {
        assert !HasId(t, id) by {
          forall i | 0 <= i < |t| ensures t[i].id != id {
            assert t[i] == s[i + 1];
          }
        }
        RemoveAllAbsent(t, id);
      } else {
        RemoveAllCount(t, id);
        if HasId(s, id) {
          var i :| 0 <= i < |s| && s[i].id == id;
          assert t[i - 1].id == id;
        }
      }
    }
  }

  /** Removal preserves the store invariant (the counter is not touched). */
  lemma {:induction false} RemoveAllInvariant(s: seq<TodoItem>, counter: nat, id: int)
    requires StoreInvariant(s, counter)
    ensures StoreInvariant(RemoveAll(s, id), counter)
  {
    if |s| > 0 {
      var t := s[1..];
      assert StoreInvariant(t, counter) by {
        forall i | 0 <= i < |t| ensures 1 <= t[i].id <= counter {
          assert t[i] == s[i + 1];
        }
        forall i, j | 0 <= i < j < |t| ensures t[i].id != t[j].id {
          assert t[i] == s[i + 1] && t[j] == s[j + 1];
        }
      }
      RemoveAllInvariant(t, counter, id);
      var rest := RemoveAll(t, id);
      if s[0].id != id {
        forall k | 0 <= k < |rest| ensures s[0].id != rest[k].id {
          var j :| 0 <= j < |t| && t[j] == rest[k];
          assert t[j] == s[j + 1];
        }
        var r := [s[0]] + rest;
        forall i, j | 0 <= i < j < |r| ensures r[i].id != r[j].id {
          if i > 0 {
            assert r[i] == rest[i - 1] && r[j] == rest[j - 1];
          } else {
            assert r[j] == rest[j - 1];
          }
        }
      }
    }
  }

  /** Appending an item under the next counter value keeps the invariant: the
      new id exceeds every id already stored. */
  lemma CreateInvariant(s: seq<TodoItem>, counter: nat, item: TodoItem)
    requires StoreInvariant(s, counter)
    ensures !HasId(s, counter + 1)
    ensures StoreInvariant(s + [item.(id := counter + 1)], counter + 1)
    ensures FirstIndex(s + [item.(id := counter + 1)], counter + 1) == Some(|s|)
  {
    var t := s + [item.(id := counter + 1)];
    assert t[|s|].id == counter + 1;
  }

  /** Replacing an item by one with the same id keeps the invariant, and the
      replacement is then what a lookup of that id finds. */
  lemma ReplaceInvariant(s: seq<TodoItem>, counter: nat, i: nat, item: TodoItem)
    requires StoreInvariant(s, counter)
    requires i < |s| && item.id == s[i].id
    ensures StoreInvariant(s[i := item], counter)
    ensures FirstIndex(s[i := item], item.id) == Some(i)
  {
    assert s[i := item][i].id == item.id;
  }

  // ---------------------------------------------------------------------------
  // The store
  // ---------------------------------------------------------------------------

  class TodoService {
    /** The stored items, in insertion order. */
    var todos: seq<TodoItem>
    /** The last id handed out. */
    var counter: nat

    ghost predicate Valid()
      reads this
    {
      StoreInvariant(todos, counter)
    }

    /** Seeds the store with three sample items, each taking the next counter
        value as its id. */
    constructor ()
      ensures Valid()
      ensures todos == [
        TodoItem(1, "Learn Spring Boot", "Complete Spring Boot tutorial", false),
        TodoItem(2, "Setup CI/CD", "Configure AWS CodePipeline", false),
        TodoItem(3, "Deploy to ECS", "Deploy application to Amazon ECS", false)]
      ensures counter == 3
    {
      todos := [];
      counter := 0;
      new;
      counter := counter + 1;
      todos := todos + [TodoItem(counter, "Learn Spring Boot", "Complete Spring Boot tutorial", false)];
      counter := counter + 1;
      todos := todos + [TodoItem(counter, "Setup CI/CD", "Configure AWS CodePipeline", false)];
      counter := counter + 1;
      todos := todos + [TodoItem(counter, "Deploy to ECS", "Deploy application to Amazon ECS", false)];
    }

    /** A snapshot of every item, element for element and in order. */
    function GetAllTodos(): (snapshot: seq<TodoItem>)
      reads this
      ensures |snapshot| == |todos|
      ensures forall i :: 0 <= i < |snapshot| ==> snapshot[i] == todos[i]
    {
      todos
    }

    /** The first item whose id is `id`, or `None` when no item has it. */
    function GetTodoById(id: int): (r: Option<TodoItem>)
      reads this
      ensures r.None? <==> !HasId(todos, id)
      ensures r.Some? ==> r.value.id == id
      ensures r.Some? ==> exists i :: 0 <= i < |todos| && todos[i] == r.value &&
                                      forall j :: 0 <= j < i ==> todos[j].id != id
    {
      match FirstIndex(todos, id)
      case None => None
      case Some(i) => Some(todos[i])
    }

    /** Stores `item` under the next counter value, whatever id it carried,
        at the end of the list. */
    method CreateTodo(item: TodoItem) returns (stored: TodoItem)
      requires Valid()
      modifies this
      ensures Valid()
      ensures counter == old(counter) + 1
      ensures stored == item.(id := counter)
      ensures todos == old(todos) + [stored]
      ensures forall i :: 0 <= i < |old(todos)| ==> old(todos)[i].id < stored.id
      ensures GetTodoById(stored.id) == Some(stored)
    {
      counter := counter + 1;
      stored := item.(id := counter);
      CreateInvariant(todos, counter - 1, item);
      todos := todos + [stored];
    }

    /** Replaces the first item whose id is `id` by `updated` with its id forced
        to `id`; `None` and no change when no item has that id. */
    method UpdateTodo(id: int, updated: TodoItem) returns (r: Option<TodoItem>)
      requires Valid()
      modifies this
      ensures Valid()
      ensures counter == old(counter)
      ensures r.None? <==> !HasId(old(todos), id)
      ensures r.None? ==> todos == old(todos)
      ensures r.Some? ==> r.value == updated.(id := id)
      ensures r.Some? ==> FirstIndex(old(todos), id).Some? &&
                          todos == old(todos)[FirstIndex(old(todos), id).value := r.value]
      ensures r.Some? ==> GetTodoById(id) == r
    {
      var i := 0;
      while i < |todos|
        invariant 0 <= i <= |todos|
        invariant todos == old(todos) && counter == old(counter)
        invariant forall j :: 0 <= j < i ==> todos[j].id != id
      {
        if todos[i].id == id {
          var stored := updated.(id := id);
          ReplaceInvariant(todos, counter, i, stored);
          todos := todos[i := stored];
          return Some(stored);
        }
        i := i + 1;
      }
      return None;
    }

    /** Removes every item whose id is `id`, keeping the others in order, and
        reports whether anything was removed. */
    method DeleteTodo(id: int) returns (removed: bool)
      requires Valid()
      modifies this
      ensures Valid()
      ensures counter == old(counter)
      ensures todos == RemoveAll(old(todos), id)
      ensures removed <==> HasId(old(todos), id)
      ensures |todos| == if removed then |old(todos)| - 1 else |old(todos)|
      ensures GetTodoById(id) == None
    {
      var kept := RemoveAll(todos, id);
      RemoveAllShrinks(todos, id);
      RemoveAllCount(todos, id);
      RemoveAllInvariant(todos, counter, id);
      removed := |kept| < |todos|;
      todos := kept;
    }
  }

  /** The seeded store driven through create, lookup, delete and update, as a
      client sees it through the contracts alone. */
  method Scenario() {
    var store := new TodoService();
    var x := store.CreateTodo(TodoItem(0, "X", "", false));
    assert x == TodoItem(4, "X", "", false);
    assert store.GetTodoById(4) == Some(x);
    var y := store.CreateTodo(TodoItem(0, "Z", "", false));
    assert x.id < y.id;
    assert store.todos[1].id == 2;
    var u := store.UpdateTodo(2, TodoItem(9, "Y", "", true));
    assert u == Some(TodoItem(2, "Y", "", true));
    assert store.GetTodoById(2) == u;
    assert store.todos[3] == x;
    var gone := store.DeleteTodo(4);
    assert gone && store.GetTodoById(4) == None;
    var again := store.DeleteTodo(4);
    assert !again;
    var missing := store.UpdateTodo(4, TodoItem(4, "W", "", false));
    assert missing == None;
  }
}
