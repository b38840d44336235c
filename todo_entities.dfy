/** The todo entities as objects: a todo owns its sub-todos, and todos and
    groups point at each other through two sets that must agree. */
module TodoEntities {
  import opened Wrappers
  import opened Time
  import opened DataResponse

  /** An uploaded icon; nothing changes an icon once it is saved. */
  datatype Icon = Icon(id: int, name: string, data: seq<Byte>, contentType: string)

  /** The plain fields of a todo, gathered into one value. */
  datatype TodoFields = TodoFields(
    name: string,
    date: LocalDate,
    startTime: Option<LocalTime>,
    dueTime: Option<LocalTime>,
    color: Option<string>,
    alarmDateTime: Option<LocalDateTime>,
    isImportant: bool,
    isCompleted: bool,
    icon: Option<Icon>)

  /** The plain fields of a sub-todo. */
  datatype SubTodoFields = SubTodoFields(
    name: string,
    startTime: Option<LocalTime>,
    dueTime: Option<LocalTime>,
    isCompleted: bool)

  /** A step of a todo. Its id is the one the `sub_todo` table assigns. */
  class SubTodo {
    const id: Option<int>
    const todo: Todo
    var name: string
    var startTime: Option<LocalTime>
    var dueTime: Option<LocalTime>
    var isCompleted: bool

    constructor (id: Option<int>, todo: Todo, fields: SubTodoFields)
      ensures this.id == id && this.todo == todo && Fields() == fields
    {
      this.id := id;
      this.todo := todo;
      name := fields.name;
      startTime := fields.startTime;
      dueTime := fields.dueTime;
      isCompleted := fields.isCompleted;
    }

    function Fields(): SubTodoFields
      reads this
    {
      SubTodoFields(name, startTime, dueTime, isCompleted)
    }
  }

  class Todo {
    const id: int
    /** The id of the owning user; the owner never changes. */
    const ownerId: Option<int>
    var name: string
    var date: LocalDate
    var startTime: Option<LocalTime>
    var dueTime: Option<LocalTime>
    var color: Option<string>
    var alarmDateTime: Option<LocalDateTime>
    var isImportant: bool
    var isCompleted: bool
    var icon: Option<Icon>
    var subTodos: set<SubTodo>
    var groups: set<TodoGroup>

    /** A new todo has no sub-todos and belongs to no group. */
    constructor (id: int, ownerId: Option<int>, fields: TodoFields)
      ensures this.id == id && this.ownerId == ownerId && Fields() == fields
      ensures subTodos == {} && groups == {}
    {
      this.id := id;
      this.ownerId := ownerId;
      name := fields.name;
      date := fields.date;
      startTime := fields.startTime;
      dueTime := fields.dueTime;
      color := fields.color;
      alarmDateTime := fields.alarmDateTime;
      isImportant := fields.isImportant;
      isCompleted := fields.isCompleted;
      icon := fields.icon;
      subTodos := {};
      groups := {};
    }

    function Fields(): TodoFields
      reads this`name, this`date, this`startTime, this`dueTime, this`color, this`alarmDateTime
      reads this`isImportant, this`isCompleted, this`icon
    {
      TodoFields(name, date, startTime, dueTime, color, alarmDateTime, isImportant, isCompleted, icon)
    }

    /** `addSubTodo`: a set insertion, so adding a sub-todo twice is adding it once. */
    method AddSubTodo(subTodo: SubTodo)
      modifies this`subTodos
      ensures subTodos == old(subTodos) + {subTodo}
    {
      subTodos := subTodos + {subTodo};
    }

    /** `removeSubTodo`: only the given sub-todo leaves the set. */
    method RemoveSubTodo(subTodo: SubTodo)
      modifies this`subTodos
      ensures subTodos == old(subTodos) - {subTodo}
    {
      subTodos := subTodos - {subTodo};
    }

    /** `addGroup`: the link is recorded on both sides, which keeps any
        consistent population consistent. */
    method AddGroup(group: TodoGroup, ghost todos: set<Todo>, ghost groups: set<TodoGroup>)
      requires this in todos && group in groups
      modifies this`groups, group`todos
      ensures this.groups == old(this.groups) + {group}
      ensures group.todos == old(group.todos) + {this}
      ensures old(Linked(todos, groups)) ==> Linked(todos, groups)
    {
      this.groups := this.groups + {group};
      group.todos := group.todos + {this};
    }

    /** `removeGroup`: the link is removed from both sides. */
    method RemoveGroup(group: TodoGroup, ghost todos: set<Todo>, ghost groups: set<TodoGroup>)
      modifies this`groups, group`todos
      ensures this.groups == old(this.groups) - {group}
      ensures group.todos == old(group.todos) - {this}
      ensures old(Linked(todos, groups)) ==> Linked(todos, groups)
    {
      this.groups := this.groups - {group};
      group.todos := group.todos - {this};
    }

    /** The todo's half of an unlink, used by the group's removal hook. */
    method RemoveGroupWithoutBackReference(group: TodoGroup)
      modifies this`groups
      ensures groups == old(groups) - {group}
    {
      groups := groups - {group};
    }
  }

  /** A named, coloured group of todos. The owner may be missing, in which
      case no user may touch the group. */
  class TodoGroup {
    const id: int
    var name: string
    var color: string
    var ownerId: Option<int>
    var todos: set<Todo>

    constructor (id: int, name: string, color: string, ownerId: Option<int>)
      ensures this.id == id && this.name == name && this.color == color && this.ownerId == ownerId
      ensures todos == {}
    {
      this.id := id;
      this.name := name;
      this.color := color;
      this.ownerId := ownerId;
      todos := {};
    }

    /** `removeTodoWithoutBackReference`: the group's half of an unlink; the
        todo itself is not touched. */
    method RemoveTodoWithoutBackReference(todo: Todo)
      modifies this`todos
      ensures todos == old(todos) - {todo}
    {
      todos := todos - {todo};
    }

    /** `removeGroupsFromTodos`, run before the group is deleted: every todo
        linked at the start drops the group, each visited exactly once, and
        then the group's own set is cleared. */
    method RemoveGroupsFromTodos(ghost population: set<Todo>, ghost groups: set<TodoGroup>)
      returns (ghost visited: seq<Todo>)
      modifies this`todos, todos`groups
      ensures todos == {}
      ensures forall t :: t in old(todos) ==> t.groups == old(t.groups) - {this}
      ensures multiset(visited) == multiset(old(todos))
      ensures old(Linked(population, groups)) ==> Linked(population, groups)
    {
      var snapshot := todos;
      var remaining := snapshot;
      visited := [];
      while remaining != {}
        invariant remaining <= snapshot && todos == snapshot
        invariant forall t :: t in remaining ==> t.groups == old(t.groups)
        invariant forall t :: t in snapshot && t !in remaining ==> t.groups == old(t.groups) - {this}
        invariant multiset(visited) + multiset(remaining) == multiset(snapshot)
        decreases |remaining|
      {
        var todo :| todo in remaining;
        todo.RemoveGroupWithoutBackReference(this);
        assert multiset(remaining) == multiset(remaining - {todo}) + multiset{todo};
        visited := visited + [todo];
        remaining := remaining - {todo};
      }
      todos := {};
    }
  }

  /** The two sides of the todo/group association agree, and neither side
      points outside the population. */
  ghost predicate Linked(todos: set<Todo>, groups: set<TodoGroup>)
    reads todos`groups, groups`todos
  {
    (forall t, g :: t in todos && g in groups ==> (g in t.groups <==> t in g.todos))
    && (forall t :: t in todos ==> t.groups <= groups)
    && (forall g :: g in groups ==> g.todos <= todos)
  }
}
