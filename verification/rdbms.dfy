/** The database systems the source distinguishes, and the row limit each accepts. */
module Rdbms {

  datatype Database =
    | Unknown | Oracle | Mssql6 | Mssql7 | SqlAny | Sybase | Access | Ingres | SqlBase | Adabas | Informix
    | Db2 | MySql | Postgres | Firebird | Cache | Otterro | Pervasive | Azure | MariaDb
    | Firebird3 | Firebird4 | Firebird5 | Cubrid

  datatype Limit = Unlimited | Top(rows: nat) | First(rows: nat) | LimitTo(rows: nat) | FetchFirst(rows: nat)

  /** The limit text put into a statement: one row more than asked for, in multiple-row queries. */
  function SetResultSetLimit(db: Database, rows: nat): (limit: Limit)
    ensures limit.Unlimited? || limit.rows == rows + (if rows > 1 then 1 else 0)
    ensures limit.Top? <==> db in {Mssql7, Cache, Sybase}
    ensures limit.First? <==> db in {Firebird, Firebird3, Firebird4, Firebird5, Informix}
    ensures limit.LimitTo? <==> db in {Postgres, MySql, MariaDb, Cubrid}
    ensures limit.FetchFirst? <==> db == Db2
  {
    var n := if rows > 1 then rows + 1 else rows;
    match db
    case Mssql7 | Cache | Sybase => Top(n)
    case Firebird | Firebird3 | Firebird4 | Firebird5 | Informix => First(n)
    case Postgres | MySql | MariaDb | Cubrid => LimitTo(n)
    case Db2 => FetchFirst(n)
    case _ => Unlimited
  }

  /** How the database applies the limit to an ordered result. */
  function Limited<T>(limit: Limit, rows: seq<T>): (r: seq<T>)
    ensures r <= rows
    ensures limit.Unlimited? || |rows| <= limit.rows ==> r == rows
    ensures !limit.Unlimited? && limit.rows <= |rows| ==> |r| == limit.rows
  {
    if limit.Unlimited? || |rows| <= limit.rows then rows else rows[..limit.rows]
  }
}
