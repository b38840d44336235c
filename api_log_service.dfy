/** Request logs are queued in memory and written to the `api_logs` table in
    batches: at once when the queue reaches the threshold, otherwise when the
    periodic flush runs. */
module ApiLogService {
  import opened Wrappers

  datatype ApiLog = ApiLog(
    requestUri: string,
    httpMethod: string,
    requestParam: string,
    status: int,
    timestamp: int,
    executionTime: int,
    userId: Option<int>,
    clientIp: string,
    userAgent: string,
    errorMessage: Option<string>)

  /** A row of `api_logs`; the id is assigned by the database. */
  datatype ApiLogEntity = ApiLogEntity(
    id: Option<int>,
    requestUri: string,
    httpMethod: string,
    requestParam: string,
    status: int,
    timestamp: int,
    executionTime: int,
    userId: Option<int>,
    clientIp: Option<string>,
    userAgent: Option<string>,
    errorMessage: Option<string>)

  /** `toEntity`: every field copied, the id left for the database. */
  function ToEntity(log: ApiLog): (e: ApiLogEntity)
    ensures e.id.None?
  {
    ApiLogEntity(None, log.requestUri, log.httpMethod, log.requestParam, log.status, log.timestamp,
                 log.executionTime, log.userId, Some(log.clientIp), Some(log.userAgent), log.errorMessage)
  }

  /** Reads a row back as a log, when it has the client fields a log always has. */
  function FromEntity(e: ApiLogEntity): Option<ApiLog> {
    if e.clientIp.Some? && e.userAgent.Some? then
      Some(ApiLog(e.requestUri, e.httpMethod, e.requestParam, e.status, e.timestamp, e.executionTime,
                  e.userId, e.clientIp.value, e.userAgent.value, e.errorMessage))
    else None
  }

  /** The conversion loses nothing. */
  lemma EntityRoundTrip(log: ApiLog)
    ensures FromEntity(ToEntity(log)) == Some(log)
  {
  }

  function ToEntities(logs: seq<ApiLog>): (r: seq<ApiLogEntity>)
    ensures |r| == |logs|
    ensures forall i :: 0 <= i < |logs| ==> r[i] == ToEntity(logs[i])
  {
    if logs == [] then [] else [ToEntity(logs[0])] + ToEntities(logs[1..])
  }

  lemma ToEntitiesAppend(a: seq<ApiLog>, b: seq<ApiLog>)
    ensures ToEntities(a + b) == ToEntities(a) + ToEntities(b)
  {
    assert forall i :: 0 <= i < |a + b| ==> ToEntities(a + b)[i] == (ToEntities(a) + ToEntities(b))[i];
  }

  /** The `api_logs` table, in insertion order. */
  class ApiLogRepository {
    var rows: seq<ApiLogEntity>

    constructor ()
      ensures rows == []
    {
      rows := [];
    }

    method SaveAll(entities: seq<ApiLogEntity>)
      modifies this
      ensures rows == old(rows) + entities
    {
      rows := rows + entities;
    }
  }

  const BatchThreshold := 100

  class ApiLogService {
    const repository: ApiLogRepository
    var queue: seq<ApiLog>
    /** Every log ever enqueued, in order. */
    ghost var enqueued: seq<ApiLog>
    /** The prefix of `enqueued` already written to the table. */
    ghost var flushed: seq<ApiLog>

    /** No log is lost or reordered: the table holds the flushed logs and the
        queue the rest. */
    ghost predicate Consistent()
      reads this, repository
    {
      enqueued == flushed + queue && repository.rows == ToEntities(flushed)
    }

    /** Between calls the queue also stays below the batch threshold. */
    ghost predicate Valid()
      reads this, repository
    {
      Consistent() && |queue| < BatchThreshold
    }

    constructor ()
      ensures Valid() && fresh(repository) && queue == [] && enqueued == []
    {
      repository := new ApiLogRepository();
      queue := [];
      enqueued := [];
      flushed := [];
    }

    /** `flushLogsToDb`: the whole queue, in order, becomes table rows. */
    method FlushLogsToDb()
      requires Consistent()
      modifies this, repository
      ensures Valid()
      ensures queue == [] && enqueued == old(enqueued)
      ensures repository.rows == old(repository.rows) + ToEntities(old(queue))
    {
      if queue == [] {
        return;
      }
      var logsToInsert := queue;
      queue := [];
      repository.SaveAll(ToEntities(logsToInsert));
      ToEntitiesAppend(flushed, logsToInsert);
      flushed := flushed + logsToInsert;
    }

    /** `enqueueLog`: the log joins the queue; reaching the threshold flushes it. */
    method EnqueueLog(log: ApiLog)
      requires Valid()
      modifies this, repository
      ensures Valid()
      ensures enqueued == old(enqueued) + [log]
      ensures |old(queue)| + 1 >= BatchThreshold ==>
        (queue == [] && repository.rows == old(repository.rows) + ToEntities(old(queue) + [log]))
      ensures |old(queue)| + 1 < BatchThreshold ==>
        (queue == old(queue) + [log] && repository.rows == old(repository.rows))
    {
      queue := queue + [log];
      enqueued := enqueued + [log];
      if |queue| >= BatchThreshold {
        FlushLogsToDb();
      }
    }
  }
}
