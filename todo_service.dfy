/** Creating, completing, deleting and editing todos over the in-memory
    tables, with the existence-then-ownership checks every change makes. */
module TodoService {
  import opened Wrappers
  import opened Errors
  import opened Text
  import opened TodoEntities
  import opened TodoDtos
  import opened TodoRepositories

  const IconNotFoundPrefix := "다음 아이콘 ID가 조회되지 않았습니다: "
  const GroupNotFoundPrefix := "다음 그룹 ID가 조회되지 않았습니다: "
  const TodoNotFoundPrefix := "다음 할 일 ID가 조회되지 않았습니다: "
  const DoneForbiddenPrefix := "다음 할 일 ID에 대한 수정 권한이 없습니다: "
  const DeleteForbiddenPrefix := "다음 할 일 ID에 대한 삭제 권한이 없습니다: "
  const SubTodoNotFoundPrefix := "다음 서브 할 일 ID가 조회되지 않았습니다: "
  const SubTodoForbiddenPrefix := "다음 서브 할 일 ID에 대한 수정 권한이 없습니다: "

  /** `groupIds.filterNot { foundIds.contains(it) }`. */
  function NotFoundIds(groupIds: seq<int>, foundIds: seq<int>): (r: seq<int>)
    ensures forall x :: x in r <==> x in groupIds && x !in foundIds
    ensures |r| <= |groupIds|
  {
    if groupIds == [] then []
    else if groupIds[0] in foundIds then NotFoundIds(groupIds[1..], foundIds)
    else [groupIds[0]] + NotFoundIds(groupIds[1..], foundIds)
  }

  /** The requested ids that have no row, in request order, repeats kept. */
  function MissingIds(groupIds: seq<int>, keys: set<int>): (r: seq<int>)
    ensures forall x :: x in r <==> x in groupIds && x !in keys
  {
    if groupIds == [] then []
    else if groupIds[0] in keys then MissingIds(groupIds[1..], keys)
    else [groupIds[0]] + MissingIds(groupIds[1..], keys)
  }

  /** Filtering against the found ids lists exactly the ids missing from the
      table, in request order. */
  lemma {:induction false} NotFoundIdsAreMissing(groupIds: seq<int>, foundIds: seq<int>, keys: set<int>)
    requires forall i :: 0 <= i < |groupIds| ==> (groupIds[i] in foundIds <==> groupIds[i] in keys)
    ensures NotFoundIds(groupIds, foundIds) == MissingIds(groupIds, keys)
  {
    if groupIds != [] {
      var rest := groupIds[1..];
      assert forall i :: 0 <= i < |rest| ==> rest[i] == groupIds[i + 1];
      NotFoundIdsAreMissing(rest, foundIds, keys);
    }
  }

  /** Filtering distributes over concatenation, so request order is kept. */
  lemma {:induction false} MissingIdsAppend(a: seq<int>, b: seq<int>, keys: set<int>)
    ensures MissingIds(a + b, keys) == MissingIds(a, keys) + MissingIds(b, keys)
  {
    if a == [] {
      assert a + b == b;
    } else {
      assert (a + b)[1..] == a[1..] + b;
      MissingIdsAppend(a[1..], b, keys);
    }
  }

  function IdsOf(groups: seq<TodoGroup>): (ids: seq<int>)
    ensures |ids| == |groups|
    ensures forall i :: 0 <= i < |groups| ==> ids[i] == groups[i].id
  {
    if groups == [] then [] else [groups[0].id] + IdsOf(groups[1..])
  }

  /** What the lookup needs about the found ids: filtering against them
      yields the missing ids, and a missing id makes the found list shorter
      than the request. */
  lemma FoundIdsFacts(groupIds: seq<int>, keys: set<int>)
    ensures NotFoundIds(groupIds, Present(Distinct(groupIds), keys)) == MissingIds(groupIds, keys)
    ensures (exists id :: id in groupIds && id !in keys) <==> MissingIds(groupIds, keys) != []
    ensures (exists id :: id in groupIds && id !in keys) ==> |Present(Distinct(groupIds), keys)| < |groupIds|
  {
    NotFoundIdsAreMissing(groupIds, Present(Distinct(groupIds), keys), keys);
    var missing := MissingIds(groupIds, keys);
    if missing != [] {
      assert missing[0] in groupIds && missing[0] !in keys;
    }
    if exists id :: id in groupIds && id !in keys {
      var id :| id in groupIds && id !in keys;
      assert id in MissingIds(groupIds, keys);
      PresentShorter(Distinct(groupIds), keys, id);
    }
  }

  /** The ids of the groups `findAllById` returns are the requested ids present. */
  lemma FoundGroupIds(repository: TodoGroupRepository, groupIds: seq<int>)
    requires repository.Valid()
    ensures IdsOf(repository.FindAllById(groupIds)) == Present(Distinct(groupIds), repository.rows.Keys)
  {
  }

  /** Every group `findAllById` returns is a stored row. */
  lemma FoundGroupsStored(repository: TodoGroupRepository, groupIds: seq<int>)
    requires repository.Valid()
    ensures forall g :: g in repository.FindAllById(groupIds) ==> g in repository.rows.Values
  {
    var groups := repository.FindAllById(groupIds);
    forall g | g in groups ensures g in repository.rows.Values {
      var i :| 0 <= i < |groups| && groups[i] == g;
      assert g == repository.rows[Present(Distinct(groupIds), repository.rows.Keys)[i]];
    }
  }

  /** `findTodoGroupsByIds`: an empty request looks nothing up; otherwise the
      lookup fails exactly when some requested id has no row, naming every
      such id in request order. Repeated ids that all exist do not fail. */
  function FindTodoGroupsByIds(repository: TodoGroupRepository, groupIds: seq<int>): (r: Outcome<seq<TodoGroup>>)
    reads repository
    requires repository.Valid()
    ensures groupIds == [] ==> r == Ok([])
    ensures r.Failure? <==> exists id :: id in groupIds && id !in repository.rows
    ensures r.Failure? ==>
      r.error == Err(TodoGroupNotFound, GroupNotFoundPrefix + LongListToString(MissingIds(groupIds, repository.rows.Keys)))
    ensures r.Ok? ==> r.value == repository.FindAllById(groupIds)
  {
    if groupIds == [] then Ok([])
    else
      var todoGroups := repository.FindAllById(groupIds);
      FoundGroupIds(repository, groupIds);
      FoundIdsFacts(groupIds, repository.rows.Keys);
      if |todoGroups| != |groupIds| then
        var foundIds := IdsOf(todoGroups);
        var notFoundIds := NotFoundIds(groupIds, foundIds);
        if notFoundIds != [] then
          Failure(Err(TodoGroupNotFound, GroupNotFoundPrefix + LongListToString(notFoundIds)))
        else Ok(todoGroups)
      else
        Ok(todoGroups)
  }

  /** The responses for the new sub-todos, whose ids the table assigns in order. */
  function SubTodoResponsesOf(requests: seq<CreateSubTodoRequest>, firstId: int): (r: seq<SubTodoResponse>)
    ensures |r| == |requests|
    ensures forall i :: 0 <= i < |requests| ==>
      r[i] == SubTodoResponse(firstId + i, requests[i].name, requests[i].startTime, requests[i].dueTime,
                              requests[i].isCompleted)
  {
    if requests == [] then []
    else
      [SubTodoResponse(firstId, requests[0].name, requests[0].startTime, requests[0].dueTime, requests[0].isCompleted)]
      + SubTodoResponsesOf(requests[1..], firstId + 1)
  }

  /** A todo that belongs to no group, and that no group lists, can join a
      consistent population without breaking it. */
  lemma LinkedWithUnlinked(todos: set<Todo>, groups: set<TodoGroup>, todo: Todo)
    requires Linked(todos, groups)
    requires todo.groups == {}
    requires forall g :: g in groups ==> todo !in g.todos
    ensures Linked(todos + {todo}, groups)
  {
  }

  /** What `done` does to a todo's fields. */
  function Completed(fields: TodoFields): (r: TodoFields)
    ensures r.isCompleted
    ensures r.(isCompleted := fields.isCompleted) == fields
  {
    fields.(isCompleted := true)
  }

  /** Completing a completed todo changes nothing, so `done` is idempotent. */
  lemma CompletedIsIdempotent(fields: TodoFields)
    ensures Completed(Completed(fields)) == Completed(fields)
    ensures fields.isCompleted ==> Completed(fields) == fields
  {
  }

  /** The sub-todos made for the requests: one per request, in order, each
      pointing at the todo, numbered from `firstId`, with the request's fields. */
  ghost predicate SubTodosOf(subTodos: seq<SubTodo>, requests: seq<CreateSubTodoRequest>, todo: Todo, firstId: int)
    reads set s | s in subTodos
  {
    |subTodos| == |requests|
    && forall i :: 0 <= i < |subTodos| ==>
      subTodos[i].todo == todo && subTodos[i].id == Some(firstId + i)
      && subTodos[i].Fields() == SubTodoFieldsOf(requests[i])
  }

  /** Every one of the sub-todos is the row under its own id. */
  predicate StoredIn(rows: map<int, SubTodo>, subTodos: seq<SubTodo>) {
    forall i :: 0 <= i < |subTodos| ==>
      subTodos[i].id.Some? && subTodos[i].id.value in rows && rows[subTodos[i].id.value] == subTodos[i]
  }

  class TodoService {
    const todoRepository: TodoRepository
    const todoGroupRepository: TodoGroupRepository
    const todoIconRepository: TodoIconRepository
    const subTodoRepository: SubTodoRepository

    ghost predicate Valid()
      reads this, todoRepository, todoGroupRepository, todoIconRepository, subTodoRepository
    {
      todoRepository.Valid() && todoGroupRepository.Valid() && todoIconRepository.Valid()
      && subTodoRepository.Valid()
    }

    /** The stored todos and groups agree on which belong together. */
    ghost predicate StoreLinked()
      reads this, todoRepository, todoGroupRepository
      reads todoRepository.rows.Values`groups, todoGroupRepository.rows.Values`todos
    {
      Linked(todoRepository.rows.Values, todoGroupRepository.rows.Values)
    }

    constructor (todoRepository: TodoRepository, todoGroupRepository: TodoGroupRepository,
                 todoIconRepository: TodoIconRepository, subTodoRepository: SubTodoRepository)
      ensures this.todoRepository == todoRepository && this.todoGroupRepository == todoGroupRepository
      ensures this.todoIconRepository == todoIconRepository && this.subTodoRepository == subTodoRepository
    {
      this.todoRepository := todoRepository;
      this.todoGroupRepository := todoGroupRepository;
      this.todoIconRepository := todoIconRepository;
      this.subTodoRepository := subTodoRepository;
    }

    /** `findIconById`: the icon, or ICON_NOT_FOUND naming the id. */
    function FindIconById(iconId: int): (r: Outcome<Icon>)
      reads this, todoIconRepository
      requires todoIconRepository.Valid()
      ensures r.Ok? <==> iconId in todoIconRepository.rows
      ensures r.Ok? ==> r.value == todoIconRepository.rows[iconId]
      ensures r.Failure? ==> r.error == Err(IconNotFound, IconNotFoundPrefix + IntToString(iconId))
    {
      match todoIconRepository.FindById(iconId)
      case Some(icon) => Ok(icon)
      case None => Failure(Err(IconNotFound, IconNotFoundPrefix + IntToString(iconId)))
    }

    /** `saveTodoAll`: attach the sub-todos, link the groups on both sides,
        then save the todo; saving cascades to the sub-todo rows. */
    method SaveTodoAll(todo: Todo, groups: seq<TodoGroup>, subTodos: seq<SubTodo>)
      requires Valid()
      requires todo.id !in todoRepository.rows
      requires forall g :: g in groups ==> g in todoGroupRepository.rows.Values
      requires forall s :: s in subTodos ==> s.id.Some?
      requires forall i, j :: 0 <= i < j < |subTodos| ==> subTodos[i].id != subTodos[j].id
      requires todo.groups == {} && forall g :: g in todoGroupRepository.rows.Values ==> todo !in g.todos
      modifies todo`subTodos, todo`groups, todoGroupRepository.rows.Values`todos
      modifies todoRepository, subTodoRepository
      ensures Valid()
      ensures todoRepository.rows == old(todoRepository.rows)[todo.id := todo]
      ensures forall s :: s in todo.subTodos <==> s in old(todo.subTodos) || s in subTodos
      ensures forall g :: g in todo.groups <==> g in groups
      ensures forall g :: g in todoGroupRepository.rows.Values ==>
        g.todos == if g in groups then old(g.todos) + {todo} else old(g.todos)
      ensures StoredIn(subTodoRepository.rows, subTodos)
      ensures forall id :: id in old(subTodoRepository.rows) && (forall s :: s in subTodos ==> s.id != Some(id)) ==>
        id in subTodoRepository.rows && subTodoRepository.rows[id] == old(subTodoRepository.rows)[id]
      ensures old(StoreLinked()) ==> StoreLinked()
    {
      ghost var population := todoRepository.rows.Values + {todo};
      ghost var groupTable := todoGroupRepository.rows.Values;
      ghost var wasLinked := StoreLinked();
      if wasLinked {
        LinkedWithUnlinked(todoRepository.rows.Values, groupTable, todo);
      }
      AttachAndLink(todo, groups, subTodos, population, groupTable);
      ghost var nowLinked := Linked(population, groupTable);
      assert wasLinked ==> nowLinked;
      Persist(todo, subTodos);
      ValuesOfInsert(old(todoRepository.rows), todo.id, todo);
      assert todoRepository.rows.Values == population;
      assert todoGroupRepository.rows.Values == groupTable;
      assert StoreLinked() == nowLinked;
    }

    /** The two writes of `saveTodoAll`: the todo's row, and by cascade the
        rows of its new sub-todos. */
    method Persist(todo: Todo, subTodos: seq<SubTodo>)
      requires Valid()
      requires forall s :: s in subTodos ==> s.id.Some?
      requires forall i, j :: 0 <= i < j < |subTodos| ==> subTodos[i].id != subTodos[j].id
      modifies todoRepository, subTodoRepository
      ensures Valid()
      ensures todoRepository.rows == old(todoRepository.rows)[todo.id := todo]
      ensures StoredIn(subTodoRepository.rows, subTodos)
      ensures forall id :: id in old(subTodoRepository.rows) && (forall s :: s in subTodos ==> s.id != Some(id)) ==>
        id in subTodoRepository.rows && subTodoRepository.rows[id] == old(subTodoRepository.rows)[id]
    {
      todoRepository.Save(todo);
      subTodoRepository.SaveAll(subTodos);
    }

    /** The two association steps of `saveTodoAll`, before anything is saved. */
    method AttachAndLink(todo: Todo, groups: seq<TodoGroup>, subTodos: seq<SubTodo>,
                         ghost population: set<Todo>, ghost groupTable: set<TodoGroup>)
      requires todo in population
      requires forall g :: g in groups ==> g in groupTable
      modifies todo`subTodos, todo`groups, groupTable`todos
      ensures forall s :: s in todo.subTodos <==> s in old(todo.subTodos) || s in subTodos
      ensures forall g :: g in todo.groups <==> g in old(todo.groups) || g in groups
      ensures forall g :: g in groupTable ==>
        g.todos == if g in groups then old(g.todos) + {todo} else old(g.todos)
      ensures old(Linked(population, groupTable)) ==> Linked(population, groupTable)
    {
      ghost var wasLinked := Linked(population, groupTable);
      AttachSubTodos(todo, subTodos);
      assert wasLinked ==> Linked(population, groupTable);
      LinkGroups(todo, groups, population, groupTable);
    }

    /** `subTodos.forEach(todo::addSubTodo)`. */
    method AttachSubTodos(todo: Todo, subTodos: seq<SubTodo>)
      modifies todo`subTodos
      ensures forall s :: s in todo.subTodos <==> s in old(todo.subTodos) || s in subTodos
    {
      for i := 0 to |subTodos|
        invariant forall s :: s in todo.subTodos <==> s in old(todo.subTodos) || s in subTodos[..i]
      {
        todo.AddSubTodo(subTodos[i]);
      }
      assert subTodos[..|subTodos|] == subTodos;
    }

    /** `todoGroups.forEach(todo::addGroup)`: each group is linked on both
        sides, and a consistent population stays consistent. */
    method LinkGroups(todo: Todo, groups: seq<TodoGroup>, ghost population: set<Todo>, ghost groupTable: set<TodoGroup>)
      requires todo in population
      requires forall g :: g in groups ==> g in groupTable
      modifies todo`groups, groupTable`todos
      ensures forall g :: g in todo.groups <==> g in old(todo.groups) || g in groups
      ensures forall g :: g in groupTable ==>
        g.todos == if g in groups then old(g.todos) + {todo} else old(g.todos)
      ensures old(Linked(population, groupTable)) ==> Linked(population, groupTable)
    {
      for i := 0 to |groups|
        invariant forall g :: g in todo.groups <==> g in old(todo.groups) || g in groups[..i]
        invariant forall g :: g in groupTable ==>
          g.todos == if g in groups[..i] then old(g.todos) + {todo} else old(g.todos)
        invariant old(Linked(population, groupTable)) ==> Linked(population, groupTable)
      {
        assert groups[..i + 1] == groups[..i] + [groups[i]];
        todo.AddGroup(groups[i], population, groupTable);
      }
      assert groups[..|groups|] == groups;
    }

    /** `createSubTodoEntities`: one new sub-todo per request, in order, each
        pointing at the todo; the table will number them from `firstId`. */
    method CreateSubTodoEntities(requests: seq<CreateSubTodoRequest>, todo: Todo, firstId: int)
      returns (subTodos: seq<SubTodo>)
      ensures |subTodos| == |requests| && forall i :: 0 <= i < |subTodos| ==> fresh(subTodos[i])
      ensures SubTodosOf(subTodos, requests, todo, firstId)
    {
      subTodos := [];
      for i := 0 to |requests|
        invariant |subTodos| == i
        invariant forall j :: 0 <= j < i ==>
          fresh(subTodos[j]) && subTodos[j].todo == todo && subTodos[j].id == Some(firstId + j)
          && subTodos[j].Fields() == SubTodoFieldsOf(requests[j])
      {
        var subTodo := new SubTodo(Some(firstId + i), todo, SubTodoFieldsOf(requests[i]));
        subTodos := subTodos + [subTodo];
      }
    }

    /** `create`: the icon is looked up first, then the groups; either failure
        leaves every table as it was. Otherwise the new todo carries the
        request's fields, its sub-todos and its groups, and is stored. */
    method Create(request: CreateTodoRequest, userId: int, todoId: int, firstSubTodoId: int)
      returns (r: Outcome<TodoResponse>, ghost todo: Todo?, ghost subTodos: seq<SubTodo>)
      requires Valid()
      requires todoId !in todoRepository.rows
      modifies todoRepository, subTodoRepository, todoGroupRepository.rows.Values`todos
      ensures Valid()
      ensures request.iconId.Some? && request.iconId.value !in todoIconRepository.rows ==>
        r == Failure(Err(IconNotFound, IconNotFoundPrefix + IntToString(request.iconId.value)))
      ensures (request.iconId.None? || request.iconId.value in todoIconRepository.rows) ==>
        (r.Failure? <==> exists id :: id in request.groups && id !in todoGroupRepository.rows)
      ensures (request.iconId.None? || request.iconId.value in todoIconRepository.rows) && r.Failure? ==>
        r.error == FindTodoGroupsByIds(todoGroupRepository, request.groups).error
      ensures r.Failure? ==>
        todoRepository.rows == old(todoRepository.rows) && subTodoRepository.rows == old(subTodoRepository.rows)
        && forall g :: g in todoGroupRepository.rows.Values ==> g.todos == old(g.todos)
      ensures r.Ok? ==> todo != null && fresh(todo) && todoRepository.rows == old(todoRepository.rows)[todoId := todo]
      ensures r.Ok? ==> todo.id == todoId && todo.ownerId == Some(userId)
      ensures r.Ok? ==>
        (todo.Fields() ==
         TodoFieldsOf(request, if request.iconId.Some? then Some(todoIconRepository.rows[request.iconId.value]) else None))
      ensures r.Ok? ==> forall g :: g in todo.groups <==> g in todoGroupRepository.FindAllById(request.groups)
      ensures r.Ok? ==> forall g :: g in todoGroupRepository.rows.Values ==>
        g.todos == if g in todo.groups then old(g.todos) + {todo} else old(g.todos)
      ensures r.Ok? ==> |subTodos| == |request.subTodos| && (forall s :: s in todo.subTodos <==> s in subTodos)
      ensures r.Ok? ==> (forall i :: 0 <= i < |subTodos| ==> fresh(subTodos[i]))
      ensures r.Ok? ==> SubTodosOf(subTodos, request.subTodos, todo, firstSubTodoId)
      ensures r.Ok? ==> StoredIn(subTodoRepository.rows, subTodos)
      ensures r.Ok? ==> r.value == TodoResponse(todoId, todo.Fields(),
        if request.iconId.Some? then Some(IconResponseOf(todoIconRepository.rows[request.iconId.value])) else None,
        SubTodoResponsesOf(request.subTodos, firstSubTodoId),
        GroupResponsesOf(todoGroupRepository.FindAllById(request.groups)))
      ensures old(StoreLinked()) ==> StoreLinked()
    {
      todo := null;
      subTodos := [];
      var icon: Option<Icon> := None;
      if request.iconId.Some? {
        var found := FindIconById(request.iconId.value);
        if found.Failure? {
          return Failure(found.error), todo, subTodos;
        }
        icon := Some(found.value);
      }
      var foundGroups := FindTodoGroupsByIds(todoGroupRepository, request.groups);
      if foundGroups.Failure? {
        return Failure(foundGroups.error), todo, subTodos;
      }
      var groups := foundGroups.value;
      FoundGroupsStored(todoGroupRepository, request.groups);
      var saved;
      saved, subTodos := CreateAndSave(request, userId, todoId, firstSubTodoId, icon, groups);
      todo := saved;
      r := Ok(TodoResponse(todoId, saved.Fields(), if icon.Some? then Some(IconResponseOf(icon.value)) else None,
                           SubTodoResponsesOf(request.subTodos, firstSubTodoId), GroupResponsesOf(groups)));
    }

    /** `createTodoEntity`, `createSubTodoEntities` and `saveTodoAll` in
        sequence, once the icon and the groups are found. */
    method CreateAndSave(request: CreateTodoRequest, userId: int, todoId: int, firstSubTodoId: int,
                         icon: Option<Icon>, groups: seq<TodoGroup>)
      returns (todo: Todo, ghost subTodos: seq<SubTodo>)
      requires Valid()
      requires todoId !in todoRepository.rows
      requires forall g :: g in groups ==> g in todoGroupRepository.rows.Values
      modifies todoRepository, subTodoRepository, todoGroupRepository.rows.Values`todos
      ensures Valid()
      ensures fresh(todo) && todoRepository.rows == old(todoRepository.rows)[todoId := todo]
      ensures todo.id == todoId && todo.ownerId == Some(userId) && todo.Fields() == TodoFieldsOf(request, icon)
      ensures forall g :: g in todo.groups <==> g in groups
      ensures forall g :: g in todoGroupRepository.rows.Values ==>
        g.todos == if g in groups then old(g.todos) + {todo} else old(g.todos)
      ensures |subTodos| == |request.subTodos| && (forall s :: s in todo.subTodos <==> s in subTodos)
      ensures forall i :: 0 <= i < |subTodos| ==> fresh(subTodos[i])
      ensures SubTodosOf(subTodos, request.subTodos, todo, firstSubTodoId)
      ensures StoredIn(subTodoRepository.rows, subTodos)
      ensures old(StoreLinked()) ==> StoreLinked()
    {
      var created;
      todo, created := NewTodo(request, userId, todoId, firstSubTodoId, icon);
      assert todoRepository.rows == old(todoRepository.rows) && subTodoRepository.rows == old(subTodoRepository.rows);
      SaveTodoAll(todo, groups, created);
      subTodos := created;
    }

    /** `createTodoEntity` and `createSubTodoEntities`: the new todo, in no
        group yet, and its new sub-todos; nothing stored is touched. */
    method NewTodo(request: CreateTodoRequest, userId: int, todoId: int, firstSubTodoId: int, icon: Option<Icon>)
      returns (todo: Todo, subTodos: seq<SubTodo>)
      requires Valid()
      ensures fresh(todo) && todo.id == todoId && todo.ownerId == Some(userId)
      ensures todo.Fields() == TodoFieldsOf(request, icon) && todo.groups == {} && todo.subTodos == {}
      ensures todo !in todoRepository.rows.Values
      ensures forall g :: g in todoGroupRepository.rows.Values ==> todo !in g.todos
      ensures |subTodos| == |request.subTodos| && forall i :: 0 <= i < |subTodos| ==> fresh(subTodos[i])
      ensures SubTodosOf(subTodos, request.subTodos, todo, firstSubTodoId)
    {
      todo := new Todo(todoId, Some(userId), TodoFieldsOf(request, icon));
      subTodos := CreateSubTodoEntities(request.subTodos, todo, firstSubTodoId);
    }

    /** `done`: existence first, then ownership; on success the todo is
        marked completed and nothing else changes. */
    method Done(id: int, userId: int) returns (r: Outcome<()>)
      requires Valid()
      modifies todoRepository, todoRepository.rows.Values`isCompleted
      ensures Valid() && todoRepository.rows == old(todoRepository.rows)
      ensures id !in todoRepository.rows ==> r == Failure(Err(TodoNotFound, TodoNotFoundPrefix + IntToString(id)))
      ensures id in todoRepository.rows && todoRepository.rows[id].ownerId != Some(userId) ==>
        r == Failure(Err(Forbidden, DoneForbiddenPrefix + IntToString(id)))
      ensures r.Ok? <==> id in todoRepository.rows && todoRepository.rows[id].ownerId == Some(userId)
      ensures r.Ok? ==> todoRepository.rows[id].Fields() == Completed(old(todoRepository.rows[id].Fields()))
      ensures forall t :: t in todoRepository.rows.Values && (r.Failure? || t != todoRepository.rows[id]) ==>
        t.isCompleted == old(t.isCompleted)
    {
      var found := todoRepository.FindById(id);
      if found.None? {
        return Failure(Err(TodoNotFound, TodoNotFoundPrefix + IntToString(id)));
      }
      var todo := found.value;
      if todo.ownerId != Some(userId) {
        return Failure(Err(Forbidden, DoneForbiddenPrefix + IntToString(id)));
      }
      todo.isCompleted := true;
      todoRepository.Save(todo);
      r := Ok(());
    }

    /** `delete`: existence first, then ownership; on success only that
        todo's row goes, and with it what the store removes alongside: its
        sub-todo rows (cascade with orphan removal) and its rows in the
        todo/group join table. */
    method Delete(id: int, userId: int) returns (r: Outcome<()>)
      requires Valid()
      modifies todoRepository, subTodoRepository
      modifies (set t, g | t in todoRepository.rows.Values && g in t.groups :: g)`todos
      ensures Valid()
      ensures id !in old(todoRepository.rows) ==> r == Failure(Err(TodoNotFound, TodoNotFoundPrefix + IntToString(id)))
      ensures id in old(todoRepository.rows) && old(todoRepository.rows[id].ownerId) != Some(userId) ==>
        r == Failure(Err(Forbidden, DeleteForbiddenPrefix + IntToString(id)))
      ensures r.Ok? <==> id in old(todoRepository.rows) && old(todoRepository.rows[id].ownerId) == Some(userId)
      ensures r.Failure? ==>
        todoRepository.rows == old(todoRepository.rows) && subTodoRepository.rows == old(subTodoRepository.rows)
      ensures r.Ok? ==> todoRepository.rows == old(todoRepository.rows) - {id}
      ensures r.Ok? ==> (subTodoRepository.rows ==
        map k | k in old(subTodoRepository.rows) && old(subTodoRepository.rows)[k].todo != old(todoRepository.rows[id]) ::
          old(subTodoRepository.rows)[k])
      ensures r.Ok? ==> forall g :: g in old(todoRepository.rows[id].groups) ==>
        g.todos == old(g.todos) - {old(todoRepository.rows[id])}
      ensures forall t, g :: (t in old(todoRepository.rows.Values) && g in t.groups &&
        (r.Failure? || g !in old(todoRepository.rows[id].groups))) ==> g.todos == old(g.todos)
      ensures old(StoreLinked()) ==> StoreLinked()
    {
      var found := todoRepository.FindById(id);
      if found.None? {
        return Failure(Err(TodoNotFound, TodoNotFoundPrefix + IntToString(id)));
      }
      var todo := found.value;
      if todo.ownerId != Some(userId) {
        return Failure(Err(Forbidden, DeleteForbiddenPrefix + IntToString(id)));
      }
      ghost var population := todoRepository.rows.Values;
      ghost var groupTable := todoGroupRepository.rows.Values;
      assert forall k :: k in todoRepository.rows && k != id ==> todoRepository.rows[k].id != id;
      ValuesOfRemove(todoRepository.rows, id);
      DropGroupLinks(todo, population, groupTable);
      subTodoRepository.DeleteAllOf(todo);
      todoRepository.Delete(todo);
      r := Ok(());
    }

    /** The join-table rows of one todo: every group it belongs to stops
        listing it; the todo's own set is left as it is. */
    method DropGroupLinks(todo: Todo, ghost population: set<Todo>, ghost groupTable: set<TodoGroup>)
      requires todo in population
      modifies todo.groups`todos
      ensures forall g :: g in old(todo.groups) ==> g.todos == old(g.todos) - {todo}
      ensures old(Linked(population, groupTable)) ==> Linked(population - {todo}, groupTable)
    {
      var remaining := todo.groups;
      while remaining != {}
        invariant remaining <= todo.groups
        invariant forall g :: g in remaining ==> g.todos == old(g.todos)
        invariant forall g :: g in todo.groups && g !in remaining ==> g.todos == old(g.todos) - {todo}
        decreases |remaining|
      {
        var group :| group in remaining;
        group.RemoveTodoWithoutBackReference(todo);
        remaining := remaining - {group};
      }
    }

    /** `updateSubTodo`: existence first, then ownership through the parent
        todo's owner; on success exactly the four editable fields take the
        request's values. */
    method UpdateSubTodo(id: int, request: CreateSubTodoRequest, userId: int) returns (r: Outcome<SubTodoResponse>)
      requires Valid()
      modifies subTodoRepository
      modifies subTodoRepository.rows.Values`name, subTodoRepository.rows.Values`startTime
      modifies subTodoRepository.rows.Values`dueTime, subTodoRepository.rows.Values`isCompleted
      ensures Valid() && subTodoRepository.rows == old(subTodoRepository.rows)
      ensures id !in subTodoRepository.rows ==>
        r == Failure(Err(SubTodoNotFound, SubTodoNotFoundPrefix + IntToString(id)))
      ensures id in subTodoRepository.rows && subTodoRepository.rows[id].todo.ownerId != Some(userId) ==>
        r == Failure(Err(Forbidden, SubTodoForbiddenPrefix + IntToString(id)))
      ensures r.Ok? <==> id in subTodoRepository.rows && subTodoRepository.rows[id].todo.ownerId == Some(userId)
      ensures r.Ok? ==> subTodoRepository.rows[id].Fields() == SubTodoFieldsOf(request)
      ensures r.Ok? ==>
        r.value == SubTodoResponse(id, request.name, request.startTime, request.dueTime, request.isCompleted)
      ensures forall s :: s in subTodoRepository.rows.Values && (r.Failure? || s != subTodoRepository.rows[id]) ==>
        s.Fields() == old(s.Fields())
    {
      var found := subTodoRepository.FindSubTodoById(id);
      if found.None? {
        return Failure(Err(SubTodoNotFound, SubTodoNotFoundPrefix + IntToString(id)));
      }
      var subTodo := found.value;
      if subTodo.todo.ownerId != Some(userId) {
        return Failure(Err(Forbidden, SubTodoForbiddenPrefix + IntToString(id)));
      }
      subTodo.name := request.name;
      subTodo.startTime := request.startTime;
      subTodo.dueTime := request.dueTime;
      subTodo.isCompleted := request.isCompleted;
      subTodoRepository.Save(subTodo);
      r := Ok(SubTodoResponse(subTodo.id.value, subTodo.name, subTodo.startTime, subTodo.dueTime, subTodo.isCompleted));
    }
  }
}
