/**
 * The four record lookups of the bot's service layer. Each asks the store
 * for rows and then either passes the store's error through, reports that
 * nothing matched, or hands back one row or all of them. The query itself
 * is not modelled: a lookup receives what the store returned.
 */
module Lookup {
  import opened Wrappers

  /** Go `error` values the lookups return. */
  datatype Error =
    | ErrNoRows              // sql.ErrNoRows: the query succeeded but matched nothing
    | Failure(message: string) // any other error, from the store or the random source

  /**
   * What the store's `Find` left behind: an error together with whatever it
   * wrote into the result slice, or the rows it found.
   */
  datatype QueryResult<T> = QueryErr(err: Error, partial: seq<T>) | Rows(rows: seq<T>)

  /**
   * What `intnCrypt(n)` returned: an index, which lies in [0, n), and the
   * error of the entropy source, if any.
   */
  datatype Draw = Draw(index: nat, err: Option<Error>)

  /** A returned record (never absent: a zero value stands in when the store fails or finds nothing) and an error. */
  datatype Reply<T> = Reply(value: T, err: Option<Error>)

  /** The precondition the callers of `intnCrypt` keep: the index is a position of a row. */
  predicate DrawFits<T>(q: QueryResult<T>, draw: Draw)
  {
    q.Rows? && q.rows != [] ==> draw.index < |q.rows|
  }

  /**
   * GetChallenge: one of the active challenges of the level and topic,
   * picked at random; `zero` is the empty Challenge returned on a store
   * error or an empty result. A failed draw still returns the drawn row.
   */
  function GetChallenge<T>(q: QueryResult<T>, zero: T, draw: Draw): (r: Reply<T>)
    requires DrawFits(q, draw)
    ensures q.QueryErr? ==> r == Reply(zero, Some(q.err))
    ensures q.Rows? && q.rows == [] ==> r == Reply(zero, Some(ErrNoRows))
    ensures q.Rows? && q.rows != [] ==> r.value in q.rows && r.err == draw.err
    ensures q.Rows? && q.rows != [] ==> r.value == q.rows[draw.index]
  {
    match q
    case QueryErr(e, _) => Reply(zero, Some(e))
    case Rows(res) =>
      if |res| == 0 then Reply(zero, Some(ErrNoRows))
      else Reply(res[draw.index], draw.err)
  }

  /** GetFact: one fact picked at random among all facts. */
  function GetFact<T>(q: QueryResult<T>, zero: T, draw: Draw): (r: Reply<T>)
    requires DrawFits(q, draw)
    ensures q.QueryErr? ==> r == Reply(zero, Some(q.err))
    ensures q.Rows? && q.rows == [] ==> r == Reply(zero, Some(ErrNoRows))
    ensures q.Rows? && q.rows != [] ==> r.value in q.rows && r.err == draw.err
    ensures q.Rows? && q.rows != [] ==> r.value == q.rows[draw.index]
  {
    match q
    case QueryErr(e, _) => Reply(zero, Some(e))
    case Rows(res) =>
      if |res| == 0 then Reply(zero, Some(ErrNoRows))
      else Reply(res[draw.index], draw.err)
  }

  /**
   * GetEvents: all events, in the store's order. Unlike the other lookups
   * it returns its own result slice in every case, with no placeholder.
   */
  function GetEvents<T>(q: QueryResult<T>): (r: Reply<seq<T>>)
    ensures q.QueryErr? ==> r == Reply(q.partial, Some(q.err))
    ensures q.Rows? ==> r.value == q.rows
    ensures q.Rows? ==> (r.err == None <==> q.rows != [])
    ensures q.Rows? && r.err != None ==> r.err == Some(ErrNoRows)
  {
    match q
    case QueryErr(e, res) => Reply(res, Some(e))
    case Rows(res) =>
      if |res| == 0 then Reply(res, Some(ErrNoRows))
      else Reply(res, None)
  }

  /** GetCommand: the first row whose key matches, never a random one. */
  function GetCommand<T>(q: QueryResult<T>, zero: T): (r: Reply<T>)
    ensures q.QueryErr? ==> r == Reply(zero, Some(q.err))
    ensures q.Rows? && q.rows == [] ==> r == Reply(zero, Some(ErrNoRows))
    ensures q.Rows? && q.rows != [] ==> r == Reply(q.rows[0], None)
  {
    match q
    case QueryErr(e, _) => Reply(zero, Some(e))
    case Rows(res) =>
      if |res| == 0 then Reply(zero, Some(ErrNoRows))
      else Reply(res[0], None)
  }

  /**
   * A nil error from a random lookup means the store succeeded, found rows,
   * and the entropy source succeeded; the value is then one of the rows.
   */
  lemma RandomLookupSucceeds<T>(q: QueryResult<T>, zero: T, draw: Draw)
    requires DrawFits(q, draw)
    ensures GetChallenge(q, zero, draw).err == None <==> q.Rows? && q.rows != [] && draw.err == None
    ensures GetFact(q, zero, draw).err == None <==> q.Rows? && q.rows != [] && draw.err == None
  {
  }

  /** With exactly one row there is nothing to choose: every valid draw returns it. */
  lemma SingleRowIsDeterministic<T>(q: QueryResult<T>, zero: T, d1: Draw, d2: Draw)
    requires q.Rows? && |q.rows| == 1
    requires DrawFits(q, d1) && DrawFits(q, d2)
    ensures GetChallenge(q, zero, d1).value == GetChallenge(q, zero, d2).value == q.rows[0]
    ensures GetFact(q, zero, d1).value == GetFact(q, zero, d2).value == q.rows[0]
  {
  }

  /** GetCommand depends on nothing but the first row: later duplicates never show. */
  lemma CommandIgnoresLaterRows<T>(q1: QueryResult<T>, q2: QueryResult<T>, zero: T)
    requires q1.Rows? && q2.Rows? && q1.rows != [] && q2.rows != []
    requires q1.rows[0] == q2.rows[0]
    ensures GetCommand(q1, zero) == GetCommand(q2, zero)
  {
  }

  /** On a store error or an empty result the random and keyed lookups return the zero value. */
  lemma FailureReturnsPlaceholder<T>(q: QueryResult<T>, zero: T, draw: Draw)
    requires DrawFits(q, draw)
    requires !(q.Rows? && q.rows != [])
    ensures GetChallenge(q, zero, draw).value == zero && GetChallenge(q, zero, draw).err != None
    ensures GetFact(q, zero, draw).value == zero && GetFact(q, zero, draw).err != None
    ensures GetCommand(q, zero).value == zero && GetCommand(q, zero).err != None
  {
  }
}
