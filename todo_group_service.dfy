/** Groups of todos: each belongs to one user, and only that user may read,
    edit or delete it. */
module TodoGroupService {
  import opened Wrappers
  import opened Errors
  import opened Text
  import opened TodoEntities
  import opened TodoDtos
  import opened TodoRepositories

  const GroupForbiddenMessage := "해당 TodoGroup에 대한 권한이 없습니다."

  /** The message of a missing group: the id, then " is not found". */
  function GroupNotFound(id: int): Failure {
    Err(TodoGroupNotFound, IntToString(id) + " is not found")
  }

  /** `checkUserAuthorization`: only the owner passes; a group without an
      owner, or whose owner has no id, is forbidden to everybody. */
  function CheckUserAuthorization(group: TodoGroup, userId: int): (r: Outcome<()>)
    reads group`ownerId
    ensures r.Ok? <==> group.ownerId == Some(userId)
    ensures group.ownerId.None? ==> r.Failure?
    ensures r.Failure? ==> r.error == Err(Forbidden, GroupForbiddenMessage)
  {
    if group.ownerId != Some(userId) then Failure(Err(Forbidden, GroupForbiddenMessage)) else Ok(())
  }

  class TodoGroupService {
    const todoGroupRepository: TodoGroupRepository

    constructor (todoGroupRepository: TodoGroupRepository)
      ensures this.todoGroupRepository == todoGroupRepository
    {
      this.todoGroupRepository := todoGroupRepository;
    }

    /** `create`: a new group owned by the caller, under the id the
        generator gives it. */
    method Create(name: string, color: string, ownerId: Option<int>, newId: int)
      returns (r: TodoGroupResponse, ghost group: TodoGroup)
      requires todoGroupRepository.Valid() && newId !in todoGroupRepository.rows
      modifies todoGroupRepository
      ensures todoGroupRepository.Valid()
      ensures fresh(group) && todoGroupRepository.rows == old(todoGroupRepository.rows)[newId := group]
      ensures group.id == newId && group.name == name && group.color == color && group.ownerId == ownerId
      ensures group.todos == {}
      ensures r == TodoGroupResponse(newId, name, Some(color))
    {
      var todoGroup := new TodoGroup(newId, name, color, ownerId);
      todoGroupRepository.Save(todoGroup);
      group := todoGroup;
      r := GroupResponseOf(todoGroup);
    }

    /** `getAll`: the responses of exactly the user's groups. */
    function GetAll(userId: int): (r: set<TodoGroupResponse>)
      reads this, todoGroupRepository, todoGroupRepository.rows.Values
      requires todoGroupRepository.Valid()
      ensures forall g :: g in todoGroupRepository.rows.Values && g.ownerId == Some(userId) ==> GroupResponseOf(g) in r
      ensures forall x :: x in r ==> (x.id in todoGroupRepository.rows
        && todoGroupRepository.rows[x.id].ownerId == Some(userId) && x == GroupResponseOf(todoGroupRepository.rows[x.id]))
    {
      todoGroupRepository.ValuesAreKeyed();
      set g | g in todoGroupRepository.FindAllByUserId(userId) :: GroupResponseOf(g)
    }

    /** One response per group of the user: responses are told apart by id. */
    lemma GetAllOnePerGroup(userId: int)
      requires todoGroupRepository.Valid()
      ensures |GetAll(userId)| == |set id | id in todoGroupRepository.rows && todoGroupRepository.rows[id].ownerId == Some(userId)|
    {
      var keys := set id | id in todoGroupRepository.rows && todoGroupRepository.rows[id].ownerId == Some(userId);
      forall id | id in keys ensures exists x :: x in GetAll(userId) && x.id == id {
        var g := todoGroupRepository.rows[id];
        assert GroupResponseOf(g) in GetAll(userId);
      }
      CountByKey(GetAll(userId), keys, (x: TodoGroupResponse) => x.id);
    }

    /** `getById`: existence first, then ownership. */
    function GetById(id: int, userId: int): (r: Outcome<TodoGroupResponse>)
      reads this, todoGroupRepository, todoGroupRepository.rows.Values
      requires todoGroupRepository.Valid()
      ensures id !in todoGroupRepository.rows ==> r == Failure(GroupNotFound(id))
      ensures id in todoGroupRepository.rows && todoGroupRepository.rows[id].ownerId != Some(userId) ==>
        r == Failure(Err(Forbidden, GroupForbiddenMessage))
      ensures r.Ok? <==> id in todoGroupRepository.rows && todoGroupRepository.rows[id].ownerId == Some(userId)
      ensures r.Ok? ==> r.value == GroupResponseOf(todoGroupRepository.rows[id]) && r.value.id == id
    {
      match todoGroupRepository.FindById(id)
      case None => Failure(GroupNotFound(id))
      case Some(todoGroup) =>
        var _ :- CheckUserAuthorization(todoGroup, userId);
        Ok(GroupResponseOf(todoGroup))
    }

    /** `update`: existence first, then ownership; on success only the name
        and the colour change. */
    method Update(id: int, request: CreateTodoGroupRequest, userId: int) returns (r: Outcome<TodoGroupResponse>)
      requires todoGroupRepository.Valid()
      modifies todoGroupRepository.rows.Values`name, todoGroupRepository.rows.Values`color
      ensures id !in todoGroupRepository.rows ==> r == Failure(GroupNotFound(id))
      ensures id in todoGroupRepository.rows && todoGroupRepository.rows[id].ownerId != Some(userId) ==>
        r == Failure(Err(Forbidden, GroupForbiddenMessage))
      ensures r.Ok? <==> id in todoGroupRepository.rows && todoGroupRepository.rows[id].ownerId == Some(userId)
      ensures r.Ok? ==> todoGroupRepository.rows[id].name == request.name && todoGroupRepository.rows[id].color == request.color
      ensures r.Ok? ==> r.value == TodoGroupResponse(id, request.name, Some(request.color))
      ensures forall g :: g in todoGroupRepository.rows.Values && (r.Failure? || g != todoGroupRepository.rows[id]) ==>
        g.name == old(g.name) && g.color == old(g.color)
    {
      var found := todoGroupRepository.FindById(id);
      if found.None? {
        return Failure(GroupNotFound(id));
      }
      var todoGroup := found.value;
      var authorized := CheckUserAuthorization(todoGroup, userId);
      if authorized.Failure? {
        return Failure(authorized.error);
      }
      todoGroup.name := request.name;
      todoGroup.color := request.color;
      r := Ok(GroupResponseOf(todoGroup));
    }

    /** `delete`: existence first, then ownership; on success the removal
        hook unlinks the group from its todos and exactly that group's row
        goes. A consistent todo/group population stays consistent. */
    method Delete(id: int, userId: int, ghost todos: set<Todo>) returns (r: Outcome<()>)
      requires todoGroupRepository.Valid()
      modifies todoGroupRepository, todoGroupRepository.rows.Values`todos
      modifies (set g, t | g in todoGroupRepository.rows.Values && t in g.todos :: t)`groups
      ensures todoGroupRepository.Valid()
      ensures id !in old(todoGroupRepository.rows) ==> r == Failure(GroupNotFound(id))
      ensures id in old(todoGroupRepository.rows) && old(todoGroupRepository.rows[id].ownerId) != Some(userId) ==>
        r == Failure(Err(Forbidden, GroupForbiddenMessage))
      ensures r.Ok? <==> id in old(todoGroupRepository.rows) && old(todoGroupRepository.rows[id].ownerId) == Some(userId)
      ensures r.Failure? ==> todoGroupRepository.rows == old(todoGroupRepository.rows)
      ensures r.Ok? ==> todoGroupRepository.rows == old(todoGroupRepository.rows) - {id}
      ensures r.Ok? ==> forall t :: t in old(todoGroupRepository.rows[id].todos) ==>
        t.groups == old(t.groups) - {old(todoGroupRepository.rows[id])}
      ensures r.Ok? ==> old(todoGroupRepository.rows[id]).todos == {}
      ensures forall g :: g in old(todoGroupRepository.rows.Values) && (r.Failure? || g != old(todoGroupRepository.rows[id])) ==>
        g.todos == old(g.todos)
      ensures forall g, t ::
        (g in old(todoGroupRepository.rows.Values) && t in old(g.todos)
         && (r.Failure? || t !in old(todoGroupRepository.rows[id].todos)))
        ==> t.groups == old(t.groups)
      ensures old(Linked(todos, todoGroupRepository.rows.Values)) ==> Linked(todos, todoGroupRepository.rows.Values)
    {
      var found := todoGroupRepository.FindById(id);
      if found.None? {
        return Failure(GroupNotFound(id));
      }
      var todoGroup := found.value;
      var authorized := CheckUserAuthorization(todoGroup, userId);
      if authorized.Failure? {
        return Failure(authorized.error);
      }
      ghost var groupTable := todoGroupRepository.rows.Values;
      ghost var wasLinked := Linked(todos, groupTable);
      assert forall k :: k in todoGroupRepository.rows && k != id ==> todoGroupRepository.rows[k].id != id;
      ValuesOfRemove(todoGroupRepository.rows, id);
      ghost var visited := todoGroup.RemoveGroupsFromTodos(todos, groupTable);
      if wasLinked {
        assert Linked(todos, groupTable);
        forall t | t in todos ensures todoGroup !in t.groups {
          assert t !in todoGroup.todos;
        }
        assert Linked(todos, groupTable - {todoGroup});
      }
      todoGroupRepository.Delete(todoGroup);
      r := Ok(());
    }
  }
}
