/** Icons: uploaded images stored as raw bytes with their content type. */
module TodoIconService {
  import opened Wrappers
  import opened Errors
  import opened Text
  import opened DataResponse
  import opened TodoEntities
  import opened TodoDtos
  import opened TodoRepositories

  const FileIsEmptyMessage := "업로드된 파일이 비어있습니다."
  const DefaultContentType := "application/octet-stream"

  /** A multipart upload: the file's bytes and the content type the client
      sent, if any. */
  datatype Upload = Upload(bytes: seq<Byte>, contentType: Option<string>)

  /** A file part is empty when it has no content. */
  predicate IsEmpty(file: Upload) {
    |file.bytes| == 0
  }

  /** The content type to store: the client's, or the generic binary type. */
  function ContentTypeOf(file: Upload): (r: string)
    ensures file.contentType.Some? ==> r == file.contentType.value
    ensures file.contentType.None? ==> r == DefaultContentType
  {
    file.contentType.GetOr(DefaultContentType)
  }

  /** The failure for an id with no icon. */
  function IconNotFoundError(id: int): Failure {
    Err(IconNotFound, "Icon id: " + IntToString(id) + " 를 찾을 수 없습니다.")
  }

  class TodoIconService {
    const todoIconRepository: TodoIconRepository

    constructor (todoIconRepository: TodoIconRepository)
      ensures this.todoIconRepository == todoIconRepository
    {
      this.todoIconRepository := todoIconRepository;
    }

    /** `create`: an empty file is refused and nothing is stored; otherwise
        an icon holding exactly the uploaded bytes is stored under the id the
        generator gives it. */
    method Create(name: string, file: Upload, newId: int) returns (r: Outcome<TodoIconResponse>)
      requires todoIconRepository.Valid() && newId !in todoIconRepository.rows
      modifies todoIconRepository
      ensures todoIconRepository.Valid()
      ensures IsEmpty(file) ==>
        r == Failure(Err(FileIsEmpty, FileIsEmptyMessage)) && todoIconRepository.rows == old(todoIconRepository.rows)
      ensures !IsEmpty(file) ==>
        todoIconRepository.rows == old(todoIconRepository.rows)[newId := Icon(newId, name, file.bytes, ContentTypeOf(file))]
        && r == Ok(TodoIconResponse(newId, name, ContentTypeOf(file)))
      ensures r.Ok? ==> GetIconDataById(newId) == Ok(DataResponse(file.bytes, ContentTypeOf(file)))
    {
      if IsEmpty(file) {
        return Failure(Err(FileIsEmpty, FileIsEmptyMessage));
      }
      var icon := Icon(newId, name, file.bytes, ContentTypeOf(file));
      todoIconRepository.Save(icon);
      r := Ok(IconResponseOf(icon));
    }

    /** `getById`: the icon's response, or ICON_NOT_FOUND. */
    function GetById(id: int): (r: Outcome<TodoIconResponse>)
      reads this, todoIconRepository
      requires todoIconRepository.Valid()
      ensures r.Ok? <==> id in todoIconRepository.rows
      ensures r.Failure? ==> r.error == IconNotFoundError(id)
      ensures r.Ok? ==> r.value == IconResponseOf(todoIconRepository.rows[id]) && r.value.id == id
    {
      match todoIconRepository.FindById(id)
      case None => Failure(IconNotFoundError(id))
      case Some(icon) => Ok(IconResponseOf(icon))
    }

    /** `getAll`: the responses of the stored icons. */
    function GetAll(): (r: set<TodoIconResponse>)
      reads this, todoIconRepository
      requires todoIconRepository.Valid()
      ensures forall id :: id in todoIconRepository.rows ==> IconResponseOf(todoIconRepository.rows[id]) in r
      ensures forall x :: x in r ==> x.id in todoIconRepository.rows && x == IconResponseOf(todoIconRepository.rows[x.id])
    {
      set id | id in todoIconRepository.rows :: IconResponseOf(todoIconRepository.rows[id])
    }

    /** One response per stored icon. */
    lemma GetAllOnePerIcon()
      requires todoIconRepository.Valid()
      ensures |GetAll()| == |todoIconRepository.rows|
    {
      forall id | id in todoIconRepository.rows ensures exists x :: x in GetAll() && x.id == id {
        assert IconResponseOf(todoIconRepository.rows[id]) in GetAll();
      }
      CountByKey(GetAll(), todoIconRepository.rows.Keys, (x: TodoIconResponse) => x.id);
    }

    /** `getIconDataById`: the stored bytes and content type, unchanged, or
        ICON_NOT_FOUND. */
    function GetIconDataById(id: int): (r: Outcome<DataResponse>)
      reads this, todoIconRepository
      requires todoIconRepository.Valid()
      ensures r.Ok? <==> id in todoIconRepository.rows
      ensures r.Failure? ==> r.error == IconNotFoundError(id)
      ensures r.Ok? ==> (r.value.data == todoIconRepository.rows[id].data
        && r.value.contentType == todoIconRepository.rows[id].contentType)
    {
      match todoIconRepository.FindById(id)
      case None => Failure(IconNotFoundError(id))
      case Some(icon) => Ok(DataResponse(icon.data, icon.contentType))
    }

    /** Both lookups fail on the same ids, with the same error, and agree on
        the content type. */
    lemma LookupsAgree(id: int)
      requires todoIconRepository.Valid()
      ensures GetById(id).Failure? <==> GetIconDataById(id).Failure?
      ensures GetById(id).Failure? ==> GetById(id).error == GetIconDataById(id).error
      ensures GetById(id).Ok? ==> GetById(id).value.contentType == GetIconDataById(id).value.contentType
    {
    }
  }
}
