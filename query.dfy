/**
  The query builder the table drives in query mode, reduced to what the
  table observes: the calls it issues (kept as an append-only log), which
  fields are aliases, and the row count a cloned query reports.
 */
module QueryBuilder {

  datatype QueryOp =
    | OrderBy(field: string, direction: string)
    /** `and_where_group` holding one `or_where_like(field, term)` per field. */
    | WhereGroupLike(fields: seq<string>, term: string)

  class Query {
    var log: seq<QueryOp>
    const aliases: set<string>
    /** What `count('*')` on a clone of the query returns, given the calls issued so far. */
    const countRows: seq<QueryOp> -> nat

    constructor (aliases: set<string>, countRows: seq<QueryOp> -> nat)
      ensures log == [] && this.aliases == aliases && this.countRows == countRows
    {
      log := [];
      this.aliases := aliases;
      this.countRows := countRows;
    }

    predicate IsFieldAlias(field: string)
    {
      field in aliases
    }

    method OrderBy(field: string, direction: string)
      modifies this
      ensures log == old(log) + [QueryOp.OrderBy(field, direction)]
    {
      log := log + [QueryOp.OrderBy(field, direction)];
    }

    method AndWhereGroupLike(fields: seq<string>, term: string)
      modifies this
      ensures log == old(log) + [WhereGroupLike(fields, term)]
    {
      log := log + [WhereGroupLike(fields, term)];
    }

    /** Counting runs on a clone, so the query itself is left as it was. */
    method CountOnClone() returns (n: nat)
      ensures n == countRows(log)
    {
      n := countRows(log);
    }
  }
}
