/**
 Running a pre-registered Chainbase analytics query and decoding its first
 result row.

 The service is not part of this model: what it answers enters as inputs.
 Whether submitting the query returned an execution id, the replies to the
 successive status checks, and the reply to the results request. The
 request for results is made at most once, after polling stops.
 */
module Query {
  import opened Wrappers

  // ---------------------------------------------------------------------
  // Rows and the decoded record
  // ---------------------------------------------------------------------

  /** One value of a result row: the service returns numbers and strings. */
  datatype Cell = NumberCell(number: int) | StringCell(text: string)

  type Row = seq<Cell>

  /** The fields a decoded result can set. */
  datatype Field =
    | TxCount | FromAddress | ToAddress | Hash | BlockTimestamp
    | Address | IsErc20 | IsErc721 | LastTxTimestamp | Gas | Value

  /** The decoded result; every field is optional, and a field the decoder does not set is absent. */
  datatype QueryResult = QueryResult(
    txCount: Option<Cell>,
    fromAddress: Option<Cell>,
    toAddress: Option<Cell>,
    hash: Option<Cell>,
    blockTimestamp: Option<Cell>,
    address: Option<Cell>,
    isErc20: Option<Cell>,
    isErc721: Option<Cell>,
    lastTxTimestamp: Option<Cell>,
    gas: Option<Cell>,
    value: Option<Cell>)

  const NoFields: QueryResult := QueryResult(None, None, None, None, None, None, None, None, None, None, None)

  function Get(q: QueryResult, f: Field): Option<Cell> {
    match f
    case TxCount => q.txCount
    case FromAddress => q.fromAddress
    case ToAddress => q.toAddress
    case Hash => q.hash
    case BlockTimestamp => q.blockTimestamp
    case Address => q.address
    case IsErc20 => q.isErc20
    case IsErc721 => q.isErc721
    case LastTxTimestamp => q.lastTxTimestamp
    case Gas => q.gas
    case Value => q.value
  }

  /** Two results are equal when they agree on every field. */
  lemma SameFieldsSameResult(a: QueryResult, b: QueryResult)
    requires forall f :: Get(a, f) == Get(b, f)
    ensures a == b
  {
    assert Get(a, TxCount) == Get(b, TxCount);
    assert Get(a, FromAddress) == Get(b, FromAddress);
    assert Get(a, ToAddress) == Get(b, ToAddress);
    assert Get(a, Hash) == Get(b, Hash);
    assert Get(a, BlockTimestamp) == Get(b, BlockTimestamp);
    assert Get(a, Address) == Get(b, Address);
    assert Get(a, IsErc20) == Get(b, IsErc20);
    assert Get(a, IsErc721) == Get(b, IsErc721);
    assert Get(a, LastTxTimestamp) == Get(b, LastTxTimestamp);
    assert Get(a, Gas) == Get(b, Gas);
    assert Get(a, Value) == Get(b, Value);
  }

  /** Column `k` of a row; reading past the end gives `undefined`, modelled as an absent value. */
  function Column(row: Row, k: nat): (c: Option<Cell>)
    ensures c.Some? <==> k < |row|
    ensures c.Some? ==> c.value == row[k]
  {
    if k < |row| then Some(row[k]) else None
  }

  const AccountActivityQuery: string := "690032"
  const ContractQuery: string := "690033"
  const TransactionQuery: string := "690035"

  predicate IsKnownQuery(queryId: string) {
    queryId == AccountActivityQuery || queryId == ContractQuery || queryId == TransactionQuery
  }

  /**
   The decoder's `switch`: the record built from a row for each query id, or
   null for any other id. There is no length check, so a short row leaves
   the fields of its missing columns absent.
   */
  function Decode(queryId: string, row: Row): (r: Option<QueryResult>)
    ensures r.Some? <==> IsKnownQuery(queryId)
  {
    if queryId == AccountActivityQuery then
      Some(NoFields.(txCount := Column(row, 0), lastTxTimestamp := Column(row, 1)))
    else if queryId == ContractQuery then
      Some(NoFields.(
        address := Column(row, 0),
        fromAddress := Column(row, 1),
        hash := Column(row, 2),
        blockTimestamp := Column(row, 3),
        isErc20 := Column(row, 4),
        isErc721 := Column(row, 5),
        txCount := Column(row, 6)))
    else if queryId == TransactionQuery then
      Some(NoFields.(
        hash := Column(row, 0),
        fromAddress := Column(row, 1),
        toAddress := Column(row, 2),
        gas := Column(row, 3),
        value := Column(row, 4),
        blockTimestamp := Column(row, 5)))
    else None
  }

  // ---------------------------------------------------------------------
  // The column layout of each query, as an independent table
  // ---------------------------------------------------------------------

  /** Which field each column of a query's rows holds, column 0 first; empty for an unknown id. */
  function Schema(queryId: string): (fields: seq<Field>)
    ensures |fields| > 0 <==> IsKnownQuery(queryId)
    ensures forall i, j :: 0 <= i < j < |fields| ==> fields[i] != fields[j]
  {
    if queryId == AccountActivityQuery then [TxCount, LastTxTimestamp]
    else if queryId == ContractQuery then
      [Address, FromAddress, Hash, BlockTimestamp, IsErc20, IsErc721, TxCount]
    else if queryId == TransactionQuery then
      [Hash, FromAddress, ToAddress, Gas, Value, BlockTimestamp]
    else []
  }

  /** `q` sets exactly the fields of `schema`, each taken from its column of `row`. */
  ghost predicate FollowsSchema(q: QueryResult, schema: seq<Field>, row: Row) {
    && (forall k :: 0 <= k < |schema| ==> Get(q, schema[k]) == Column(row, k))
    && (forall f :: f !in schema ==> Get(q, f).None?)
  }

  /**
   For a known query the decoded record sets exactly the fields of its
   schema, field `k` from column `k` of the row, and leaves every other
   field absent.
   */
  lemma DecodeFollowsSchema(queryId: string, row: Row)
    requires IsKnownQuery(queryId)
    ensures FollowsSchema(Decode(queryId, row).value, Schema(queryId), row)
  {
    var q := Decode(queryId, row).value;
    var schema := Schema(queryId);
    forall k | 0 <= k < |schema|
      ensures Get(q, schema[k]) == Column(row, k)
    {
      if queryId == AccountActivityQuery {
        assert k == 0 || k == 1;
      } else if queryId == ContractQuery {
        assert k in {0, 1, 2, 3, 4, 5, 6};
      } else {
        assert k in {0, 1, 2, 3, 4, 5};
      }
    }
    forall f | f !in schema
      ensures Get(q, f).None?
    {
    }
  }

  /** `q` has a value for every field of the schema and for no other. */
  ghost predicate FitsSchema(q: QueryResult, schema: seq<Field>) {
    && (forall k :: 0 <= k < |schema| ==> Get(q, schema[k]).Some?)
    && (forall f :: f !in schema ==> Get(q, f).None?)
  }

  /** The row a query would have to return for its decoder to produce `q`. */
  function Encode(queryId: string, q: QueryResult): (row: Row)
    requires FitsSchema(q, Schema(queryId))
    ensures |row| == |Schema(queryId)|
  {
    var schema := Schema(queryId);
    seq(|schema|, k requires 0 <= k < |schema| => Get(q, schema[k]).value)
  }

  /** Decoding the row built from a record that fits its schema gives the record back. */
  lemma DecodeEncode(queryId: string, q: QueryResult)
    requires IsKnownQuery(queryId) && FitsSchema(q, Schema(queryId))
    ensures Decode(queryId, Encode(queryId, q)) == Some(q)
  {
    var schema := Schema(queryId);
    var row := Encode(queryId, q);
    var d := Decode(queryId, row).value;
    DecodeFollowsSchema(queryId, row);
    forall f
      ensures Get(d, f) == Get(q, f)
    {
      if f in schema {
        var k :| 0 <= k < |schema| && schema[k] == f;
        assert Get(d, f) == Column(row, k);
      }
    }
    SameFieldsSameResult(d, q);
  }

  /** A decoded record, written back as a row, gives the row's first columns back. */
  lemma EncodeDecode(queryId: string, row: Row)
    requires IsKnownQuery(queryId) && |row| >= |Schema(queryId)|
    ensures FitsSchema(Decode(queryId, row).value, Schema(queryId))
    ensures Encode(queryId, Decode(queryId, row).value) == row[..|Schema(queryId)|]
  {
    DecodeFollowsSchema(queryId, row);
  }

  // ---------------------------------------------------------------------
  // Polling
  // ---------------------------------------------------------------------

  /** The reply to one status check: a status string, or an exception. */
  datatype PollReply = StatusReply(status: string) | PollThrew

  const Finished: string := "FINISHED"
  const Failed: string := "FAILED"

  predicate IsTerminal(status: string) {
    status == Finished || status == Failed
  }

  /** A reply after which the do-while loop does not check again. */
  predicate StopsPolling(reply: PollReply) {
    reply.PollThrew? || IsTerminal(reply.status)
  }

  /** The index of the first reply in `polls[from..]` that stops the loop, if any. */
  function FirstStop(polls: seq<PollReply>, from: nat): (r: Option<nat>)
    requires from <= |polls|
    ensures r.Some? ==> from <= r.value < |polls| && StopsPolling(polls[r.value])
    ensures r.Some? ==> forall k :: from <= k < r.value ==> !StopsPolling(polls[k])
    ensures r.None? <==> forall k :: from <= k < |polls| ==> !StopsPolling(polls[k])
    decreases |polls| - from
  {
    if from == |polls| then None
    else if StopsPolling(polls[from]) then Some(from)
    else FirstStop(polls, from + 1)
  }

  /**
   The do-while loop over the successive replies: it checks at least once
   and stops at the first terminal status (or exception). It returns how
   many checks were made and the reply that stopped it.
   */
  method PollUntilDone(polls: seq<PollReply>) returns (checks: nat, last: PollReply)
    requires exists k :: 0 <= k < |polls| && StopsPolling(polls[k])
    ensures 1 <= checks <= |polls| && last == polls[checks - 1] && StopsPolling(last)
    ensures forall k :: 0 <= k < checks - 1 ==> !StopsPolling(polls[k])
    ensures FirstStop(polls, 0) == Some(checks - 1)
  {
    checks := 1;
    last := polls[0];
    while !StopsPolling(last)
      invariant 1 <= checks <= |polls| && last == polls[checks - 1]
      invariant forall k :: 0 <= k < checks - 1 ==> !StopsPolling(polls[k])
      invariant exists k :: checks - 1 <= k < |polls| && StopsPolling(polls[k])
      decreases |polls| - checks
    {
      last := polls[checks];
      checks := checks + 1;
    }
  }

  // ---------------------------------------------------------------------
  // The whole query
  // ---------------------------------------------------------------------

  /** The reply to the results request: a code and the rows, which may be missing, or an exception. */
  datatype ResultsReply = ResultsReply(code: int, rows: Option<seq<Row>>) | ResultsThrew

  /** What the service answers to one query execution. */
  datatype Service = Service(submitted: bool, polls: seq<PollReply>, results: ResultsReply)

  /** How the call ends: it returns a result or null, or it is still polling when the given replies run out. */
  datatype Outcome = Returns(result: Option<QueryResult>) | StillPolling

  /** The results reply passes the guard: code 200 and at least one row. */
  predicate UsableResults(results: ResultsReply) {
    results.ResultsReply? && results.code == 200 && results.rows.Some? && |results.rows.value| > 0
  }

  /** Polling stops at index `k`, and the reply there is the status FINISHED. */
  ghost predicate FinishedAt(polls: seq<PollReply>, k: nat) {
    && k < |polls|
    && polls[k] == StatusReply(Finished)
    && forall j :: 0 <= j < k ==> !StopsPolling(polls[j])
  }

  /**
   The decision logic of one query run. A result comes back exactly when
   the query was submitted, polling stopped on FINISHED, the results reply
   has code 200 and a row, and the query id is known; it is then the decode
   of row 0. Every exception, FAILED, a failed guard and an unknown id give
   null.
   */
  function GetQueryResults(queryId: string, svc: Service): (r: Outcome)
    ensures r.StillPolling? <==> svc.submitted && forall k :: 0 <= k < |svc.polls| ==> !StopsPolling(svc.polls[k])
    ensures (r.Returns? && r.result.Some?)
            <==> svc.submitted && (exists k :: FinishedAt(svc.polls, k))
                 && UsableResults(svc.results) && IsKnownQuery(queryId)
    ensures r.Returns? && r.result.Some? ==> r.result == Decode(queryId, svc.results.rows.value[0])
  {
    if !svc.submitted then Returns(None)
    else
      match FirstStop(svc.polls, 0)
      case None => StillPolling
      case Some(k) =>
        var reply := svc.polls[k];
        if reply.PollThrew? || reply.status == Failed then Returns(None)
        else if UsableResults(svc.results) then
          assert FinishedAt(svc.polls, k);
          Returns(Decode(queryId, svc.results.rows.value[0]))
        else Returns(None)
  }

  /** A run stopped by FAILED returns null, and the results reply plays no part. */
  lemma FailedNeverFetches(queryId: string, svc: Service, k: nat, other: ResultsReply)
    requires k < |svc.polls| && svc.polls[k] == StatusReply(Failed)
    requires forall j :: 0 <= j < k ==> !StopsPolling(svc.polls[j])
    ensures GetQueryResults(queryId, svc) == Returns(None)
    ensures GetQueryResults(queryId, svc.(results := other)) == Returns(None)
  {
    assert FirstStop(svc.polls, 0) == Some(k);
  }

  /** Replies after the one that stops polling are never read. */
  lemma LaterRepliesIgnored(queryId: string, svc: Service, k: nat, tail: seq<PollReply>)
    requires k < |svc.polls| && StopsPolling(svc.polls[k])
    requires forall j :: 0 <= j < k ==> !StopsPolling(svc.polls[j])
    ensures GetQueryResults(queryId, svc.(polls := svc.polls[..k + 1] + tail)) == GetQueryResults(queryId, svc)
  {
    var polls' := svc.polls[..k + 1] + tail;
    assert polls'[k] == svc.polls[k];
    assert forall j :: 0 <= j < k ==> polls'[j] == svc.polls[j];
    assert FirstStop(svc.polls, 0) == Some(k);
    assert FirstStop(polls', 0) == Some(k);
  }

  /** Only row 0 is decoded: rows after it never change the outcome. */
  lemma OnlyFirstRowDecoded(queryId: string, svc: Service, rows: seq<Row>)
    requires svc.results.ResultsReply? && svc.results.rows.Some? && |svc.results.rows.value| > 0
    requires |rows| > 0 && rows[0] == svc.results.rows.value[0]
    ensures GetQueryResults(queryId, svc.(results := svc.results.(rows := Some(rows)))) == GetQueryResults(queryId, svc)
  {
  }
}
