/** The todo tables as in-memory maps from id to entity. */
module TodoRepositories {
  import opened Wrappers
  import opened Time
  import opened TodoEntities

  /** The ids in order of first occurrence, each once. */
  function Distinct(ids: seq<int>): (r: seq<int>)
    ensures forall x :: x in r <==> x in ids
    ensures forall i, j :: 0 <= i < j < |r| ==> r[i] != r[j]
    ensures |r| <= |ids|
  {
    if ids == [] then []
    else
      var rest := Distinct(ids[..|ids| - 1]);
      if ids[|ids| - 1] in rest then rest else rest + [ids[|ids| - 1]]
  }

  /** The ids, in order, that are keys of the table. */
  function Present(ids: seq<int>, keys: set<int>): (r: seq<int>)
    ensures forall x :: x in r <==> x in ids && x in keys
    ensures |r| <= |ids|
    ensures (forall i, j :: 0 <= i < j < |ids| ==> ids[i] != ids[j]) ==>
            (forall i, j :: 0 <= i < j < |r| ==> r[i] != r[j])
  {
    if ids == [] then []
    else
      var rest := Present(ids[..|ids| - 1], keys);
      if ids[|ids| - 1] in keys then rest + [ids[|ids| - 1]] else rest
  }

  /** Dropping an absent id makes the list strictly shorter. */
  lemma {:induction false} PresentShorter(ids: seq<int>, keys: set<int>, missing: int)
    requires missing in ids && missing !in keys
    ensures |Present(ids, keys)| < |ids|
  {
    var init := ids[..|ids| - 1];
    if ids[|ids| - 1] != missing {
      assert missing in init by {
        var i :| 0 <= i < |ids| && ids[i] == missing;
        assert init[i] == missing;
      }
      PresentShorter(init, keys, missing);
    }
  }

  /** Inserting under a new key adds exactly that value to the map's values. */
  lemma ValuesOfInsert<K, V>(m: map<K, V>, k: K, v: V)
    requires k !in m
    ensures m[k := v].Values == m.Values + {v}
  {
    forall x | x in m.Values ensures x in m[k := v].Values {
      var j :| j in m && m[j] == x;
      assert m[k := v][j] == x;
    }
    assert m[k := v][k] == v;
  }

  /** Removing a key whose value no other key shares removes exactly that
      value from the map's values. */
  lemma ValuesOfRemove<K, V>(m: map<K, V>, k: K)
    requires k in m
    requires forall j :: j in m && j != k ==> m[j] != m[k]
    ensures (m - {k}).Values == m.Values - {m[k]}
  {
    forall x | x in m.Values - {m[k]} ensures x in (m - {k}).Values {
      var j :| j in m && m[j] == x;
      assert (m - {k})[j] == x;
    }
  }

  /** A set whose elements a key tells apart, and whose keys are exactly
      the given ones, has one element per key. */
  lemma {:induction false} CountByKey<T>(items: set<T>, keys: set<int>, key: T -> int)
    requires forall x :: x in items ==> key(x) in keys
    requires forall k :: k in keys ==> exists x :: x in items && key(x) == k
    requires forall x, y :: x in items && y in items && key(x) == key(y) ==> x == y
    ensures |items| == |keys|
    decreases keys
  {
    if keys != {} {
      var k := Pick(keys);
      var x :| x in items && key(x) == k;
      CountByKey(items - {x}, keys - {k}, key);
    } else if items != {} {
      var x := Pick(items);
      assert false;
    }
  }

  /** Some element of a non-empty set. */
  lemma Pick<T>(s: set<T>) returns (x: T)
    requires s != {}
    ensures x in s
  {
    x :| x in s;
  }

  /** A key under which a value of the map is stored. */
  lemma KeyOf<K, V>(m: map<K, V>, v: V) returns (k: K)
    requires v in m.Values
    ensures k in m && m[k] == v
  {
    k :| k in m && m[k] == v;
  }

  class TodoRepository {
    var rows: map<int, Todo>

    ghost predicate Valid()
      reads this
    {
      forall id :: id in rows ==> rows[id].id == id
    }

    constructor ()
      ensures Valid() && rows == map[]
    {
      rows := map[];
    }

    function FindById(id: int): (r: Option<Todo>)
      reads this
      requires Valid()
      ensures r.Some? <==> id in rows
      ensures r.Some? ==> r.value == rows[id] && r.value.id == id
    {
      if id in rows then Some(rows[id]) else None
    }

    /** `save`: the row with the todo's id becomes this todo. */
    method Save(todo: Todo)
      requires Valid()
      modifies this
      ensures Valid() && rows == old(rows)[todo.id := todo]
    {
      rows := rows[todo.id := todo];
    }

    /** `delete`: the todo's row goes; every other row stays. */
    method Delete(todo: Todo)
      requires Valid()
      modifies this
      ensures Valid() && rows == old(rows) - {todo.id}
    {
      rows := rows - {todo.id};
    }

    /** The query's condition: owned by the user, and each filter that is
        given holds; a missing filter holds for every todo. */
    predicate Matches(todo: Todo, userId: int, date: Option<LocalDate>, groupId: Option<int>, done: Option<bool>)
      reads todo
    {
      todo.ownerId == Some(userId)
      && (date.None? || todo.date == date.value)
      && (groupId.None? || exists g :: g in todo.groups && g.id == groupId.value)
      && (done.None? || todo.isCompleted == done.value)
    }

    /** `findAllByUserIdAndDateAndGroupIdAndDone`. */
    function FindAllByUserIdAndDateAndGroupIdAndDone(
      userId: int, date: Option<LocalDate>, groupId: Option<int>, done: Option<bool>): (r: set<Todo>)
      reads this, rows.Values
      ensures forall t :: t in r ==> t in rows.Values && t.ownerId == Some(userId)
      ensures forall t :: t in r && date.Some? ==> t.date == date.value
      ensures forall t :: t in r && groupId.Some? ==> exists g :: g in t.groups && g.id == groupId.value
      ensures forall t :: t in r && done.Some? ==> t.isCompleted == done.value
      ensures forall t :: t in rows.Values && Matches(t, userId, date, groupId, done) ==> t in r
    {
      set t | t in rows.Values && Matches(t, userId, date, groupId, done)
    }

    /** With no filter given, the query returns all of the user's todos. */
    lemma UnfilteredIsAllOfUser(userId: int)
      ensures FindAllByUserIdAndDateAndGroupIdAndDone(userId, None, None, None)
           == set t | t in rows.Values && t.ownerId == Some(userId)
    {
    }

    /** Giving a filter can only narrow the result. */
    lemma FiltersNarrow(userId: int, date: Option<LocalDate>, groupId: Option<int>, done: Option<bool>)
      ensures FindAllByUserIdAndDateAndGroupIdAndDone(userId, date, groupId, done)
           <= FindAllByUserIdAndDateAndGroupIdAndDone(userId, None, groupId, done)
      ensures FindAllByUserIdAndDateAndGroupIdAndDone(userId, date, groupId, done)
           <= FindAllByUserIdAndDateAndGroupIdAndDone(userId, date, None, done)
      ensures FindAllByUserIdAndDateAndGroupIdAndDone(userId, date, groupId, done)
           <= FindAllByUserIdAndDateAndGroupIdAndDone(userId, date, groupId, None)
    {
    }
  }

  class TodoGroupRepository {
    var rows: map<int, TodoGroup>

    ghost predicate Valid()
      reads this
    {
      forall id :: id in rows ==> rows[id].id == id
    }

    constructor ()
      ensures Valid() && rows == map[]
    {
      rows := map[];
    }

    function FindById(id: int): (r: Option<TodoGroup>)
      reads this
      requires Valid()
      ensures r.Some? <==> id in rows
      ensures r.Some? ==> r.value == rows[id] && r.value.id == id
    {
      if id in rows then Some(rows[id]) else None
    }

    /** Every stored group sits under its own id. */
    lemma ValuesAreKeyed()
      requires Valid()
      ensures forall g :: g in rows.Values ==> g.id in rows && rows[g.id] == g
    {
      forall g | g in rows.Values ensures g.id in rows && rows[g.id] == g {
        var k := KeyOf(rows, g);
      }
    }

    /** `findAllById`: each stored group whose id is asked for, once, in
        order of first request. */
    function FindAllById(ids: seq<int>): (r: seq<TodoGroup>)
      reads this
      requires Valid()
      ensures |r| == |Present(Distinct(ids), rows.Keys)|
      ensures forall i :: 0 <= i < |r| ==> r[i] == rows[Present(Distinct(ids), rows.Keys)[i]]
      ensures forall i :: 0 <= i < |r| ==> r[i].id == Present(Distinct(ids), rows.Keys)[i]
    {
      RowsOf(Present(Distinct(ids), rows.Keys))
    }

    function RowsOf(keys: seq<int>): (r: seq<TodoGroup>)
      reads this
      requires forall i :: 0 <= i < |keys| ==> keys[i] in rows
      ensures |r| == |keys|
      ensures forall i :: 0 <= i < |keys| ==> r[i] == rows[keys[i]]
    {
      if keys == [] then [] else [rows[keys[0]]] + RowsOf(keys[1..])
    }

    /** `findAllByUserId`: the groups whose owner has that id. */
    function FindAllByUserId(userId: int): (r: set<TodoGroup>)
      reads this, rows.Values
      ensures forall g :: g in r ==> g in rows.Values && g.ownerId == Some(userId)
      ensures forall g :: g in rows.Values && g.ownerId == Some(userId) ==> g in r
    {
      set g | g in rows.Values && g.ownerId == Some(userId)
    }

    method Save(group: TodoGroup)
      requires Valid()
      modifies this
      ensures Valid() && rows == old(rows)[group.id := group]
    {
      rows := rows[group.id := group];
    }

    method Delete(group: TodoGroup)
      requires Valid()
      modifies this
      ensures Valid() && rows == old(rows) - {group.id}
    {
      rows := rows - {group.id};
    }
  }

  class SubTodoRepository {
    var rows: map<int, SubTodo>

    /** Every stored sub-todo carries the id it is stored under. */
    ghost predicate Valid()
      reads this
    {
      forall id :: id in rows ==> rows[id].id == Some(id)
    }

    constructor ()
      ensures Valid() && rows == map[]
    {
      rows := map[];
    }

    /** `findSubTodoById`: the sub-todo, or null. */
    function FindSubTodoById(id: int): (r: Option<SubTodo>)
      reads this
      requires Valid()
      ensures r.Some? <==> id in rows
      ensures r.Some? ==> r.value == rows[id] && r.value.id == Some(id)
    {
      if id in rows then Some(rows[id]) else None
    }

    method Save(subTodo: SubTodo)
      requires Valid() && subTodo.id.Some?
      modifies this
      ensures Valid() && rows == old(rows)[subTodo.id.value := subTodo]
    {
      rows := rows[subTodo.id.value := subTodo];
    }

    /** Stores each sub-todo under its id; the ids the table assigns are distinct. */
    method SaveAll(subTodos: seq<SubTodo>)
      requires Valid()
      requires forall s :: s in subTodos ==> s.id.Some?
      requires forall i, j :: 0 <= i < j < |subTodos| ==> subTodos[i].id != subTodos[j].id
      modifies this
      ensures Valid()
      ensures forall i :: 0 <= i < |subTodos| ==>
        subTodos[i].id.value in rows && rows[subTodos[i].id.value] == subTodos[i]
      ensures forall id :: id in old(rows) && (forall s :: s in subTodos ==> s.id != Some(id)) ==>
        id in rows && rows[id] == old(rows)[id]
      ensures forall id :: id in rows ==> id in old(rows) || exists s :: s in subTodos && s.id == Some(id)
    {
      for i := 0 to |subTodos|
        invariant Valid()
        invariant forall k :: 0 <= k < i ==> subTodos[k].id.value in rows && rows[subTodos[k].id.value] == subTodos[k]
        invariant forall id :: id in old(rows) && (forall s :: s in subTodos[..i] ==> s.id != Some(id)) ==>
          id in rows && rows[id] == old(rows)[id]
        invariant forall id :: id in rows ==> id in old(rows) || exists s :: s in subTodos[..i] && s.id == Some(id)
      {
        var subTodo := subTodos[i];
        assert subTodos[..i + 1] == subTodos[..i] + [subTodo];
        rows := rows[subTodo.id.value := subTodo];
      }
      assert subTodos[..|subTodos|] == subTodos;
    }

    /** Removes every sub-todo of the given todo. */
    method DeleteAllOf(todo: Todo)
      requires Valid()
      modifies this
      ensures Valid()
      ensures rows == map id | id in old(rows) && old(rows)[id].todo != todo :: old(rows)[id]
    {
      rows := map id | id in rows && rows[id].todo != todo :: rows[id];
    }
  }

  class TodoIconRepository {
    var rows: map<int, Icon>

    ghost predicate Valid()
      reads this
    {
      forall id :: id in rows ==> rows[id].id == id
    }

    constructor ()
      ensures Valid() && rows == map[]
    {
      rows := map[];
    }

    function FindById(id: int): (r: Option<Icon>)
      reads this
      requires Valid()
      ensures r.Some? <==> id in rows
      ensures r.Some? ==> r.value == rows[id] && r.value.id == id
    {
      if id in rows then Some(rows[id]) else None
    }

    method Save(icon: Icon)
      requires Valid()
      modifies this
      ensures Valid() && rows == old(rows)[icon.id := icon]
    {
      rows := rows[icon.id := icon];
    }
  }
}
