/** Requests the todo endpoints accept and the responses they return. */
module TodoDtos {
  import opened Wrappers
  import opened Time
  import opened TodoEntities

  datatype CreateSubTodoRequest = CreateSubTodoRequest(
    name: string,
    startTime: Option<LocalTime>,
    dueTime: Option<LocalTime>,
    isCompleted: bool)

  datatype CreateTodoRequest = CreateTodoRequest(
    name: string,
    iconId: Option<int>,
    isImportant: bool,
    isCompleted: bool,
    date: LocalDate,
    startTime: Option<LocalTime>,
    dueTime: Option<LocalTime>,
    alarmDateTime: Option<LocalDateTime>,
    groups: seq<int>,
    color: Option<string>,
    subTodos: seq<CreateSubTodoRequest>)

  datatype CreateTodoGroupRequest = CreateTodoGroupRequest(name: string, color: string)

  datatype TodoIconResponse = TodoIconResponse(id: int, name: string, contentType: string)

  datatype TodoGroupResponse = TodoGroupResponse(id: int, name: string, color: Option<string>)

  datatype SubTodoResponse = SubTodoResponse(
    id: int,
    name: string,
    startTime: Option<LocalTime>,
    dueTime: Option<LocalTime>,
    isCompleted: bool)

  datatype TodoResponse = TodoResponse(
    id: int,
    fields: TodoFields,
    icon: Option<TodoIconResponse>,
    subTodos: seq<SubTodoResponse>,
    groups: seq<TodoGroupResponse>)

  /** The sub-todo fields a request carries. */
  function SubTodoFieldsOf(request: CreateSubTodoRequest): SubTodoFields {
    SubTodoFields(request.name, request.startTime, request.dueTime, request.isCompleted)
  }

  /** The todo fields a request carries, with the icon it names once found. */
  function TodoFieldsOf(request: CreateTodoRequest, icon: Option<Icon>): TodoFields {
    TodoFields(request.name, request.date, request.startTime, request.dueTime, request.color,
               request.alarmDateTime, request.isImportant, request.isCompleted, icon)
  }

  function IconResponseOf(icon: Icon): TodoIconResponse {
    TodoIconResponse(icon.id, icon.name, icon.contentType)
  }

  function GroupResponseOf(group: TodoGroup): TodoGroupResponse
    reads group`name, group`color
  {
    TodoGroupResponse(group.id, group.name, Some(group.color))
  }

  function GroupResponsesOf(groups: seq<TodoGroup>): (r: seq<TodoGroupResponse>)
    reads groups`name, groups`color
    ensures |r| == |groups|
    ensures forall i :: 0 <= i < |groups| ==> r[i] == GroupResponseOf(groups[i])
  {
    if groups == [] then [] else [GroupResponseOf(groups[0])] + GroupResponsesOf(groups[1..])
  }
}
