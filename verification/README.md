# SQLRDD++ cursor, queries, seek, ring cache and text codecs: a Dafny model

SQLRDD++ lets xBase programs navigate SQL tables as if they were DBF files. This project models the
parts of it where state, branching and arithmetic meet, and proves what they are for.

| file | what it models |
|---|---|
| `common.dfy` | shared types |
| `keys.dfy`, `query.dfy`, `statement.dfy`, `rdbms.dfy` | index keys and their order; WHERE clauses as token lists with a parser, an evaluator and placeholders; building and binding the skip and seek statements; the row limits |
| `cursor.dfy`, `workarea.dfy` | the SQLEX record-list cursor: as functions of its state, and as the class whose methods update the fields in place and are proved equal to those functions |
| `cursorpages.dfy`, `window.dfy`, `steps.dfy`, `runs.dfy`, `refinement.dfy` | the cursor against the sorted table: one page, one window, one step, every run, and the refinement of a plain position |
| `emptyorder.dfy` | the cursor over an order with no record |
| `keyorder.dfy` | what the movements mean for the keys themselves |
| `seek.dfy`, `seekclause.dfy` | cutting a character key over the index columns, the lower-bound query, the prefix comparison; the generated seek clause means the lower-bound query |
| `bufferpool.dfy` | the row cache, its column list and the reading of a field |
| `ring.dfy`, `filterwalk.dfy` | the SQLRDD ring cache searches; the recursion of GoTop, GoBottom and SkipFilter |
| `escape.dfy`, `decimal.dfy`, `hex.dfy`, `lexer.dfy` | quoted literals, the in-place decimal shift, hexadecimal text, the SQL lexer |

`dafny verify dfyconfig.toml` checks the whole project.

## Assumptions

* One user; the table and the filters do not change during a run; no ODBC call fails.
* `bReverseIndex` is constant and equals `s_bOldReverseIndex`. `Table.rows` holds the keys of the rows that
  pass the filters, ascending, the record number last; an order of one column is the natural order.
  `Table.stored` holds every record number in the table, filtered out or not, all positive and at most the record count.
* The database evaluates a statement as: keep the rows that satisfy the clause, sort, cut at the limit. An
  IN-list query returns the existing records of the list once each, in any order.
* The cursor is read with SET DELETED off and no client-side filter, so that the SKIPFILTER calls inside skips and
  movements to either end do nothing; a client-side filter is the subject of `filterwalk.dfy`, on the SQLRDD driver.
* Seek: character columns blank-padded to their widths, bytes at or above the blank, binary collation, comparison
  that pads with blanks.
* A '?' inside a filter text would add a placeholder of its own; filter texts are taken to have none.

## What turned out to be conditional

* **Window sense and crowding** (`CursorRefinement.RunsRefineExactly`). Over a non-empty order, all runs of GoTop,
  GoBottom, GoTo and Skip(+1/-1) are where a position in the sorted table would be if and only if the table does not have
  exactly 25 rows and no record with a successor is crowded. With 25 rows (`RECORD_LIST_SIZE / 10`) a full end page leaves
  the far end unmarked, a later fetch turns `recordListDirection` but keeps the list, and
  `CursorRefinement.AstrayRunFails` gives the run that moves the wrong way. A record is crowded when the limited result of
  the level-1 statement, the only one ever executed, has 250 or more rows before it; `CursorRefinement.StrandedRunFails`
  gives the run that stops there.
* **End marks** (`CursorRuns.RunsAreSound`). The end marks and the window stay sound over every run if and only if no
  record with a successor is crowded; a single skip spoils them exactly when the current record is the last of its limited
  result without being the last of the order (`CursorRuns.SkipKeeps`).
* **Empty order** (`EmptyOrder.EmptyRuns`, `EmptyOrder.GoToSticks`). Over an order with no record the flags are those of the
  last call: both after GoTop and GoBottom, but one alone after a skip. After GoTo a record that the filters hide, GoTop
  stays on it with both flags down: the flags are raised if and only if nothing is listed or remembered
  (`EmptyOrder.EndOfNothingExact`).
* **Reused statements** (`Query.ReusedClauseExact`). A skip that reuses its prepared statements rebuilds them for a new
  NULL but not for a NULL that is gone: they mean the level of the current record if and only if none of the level's
  columns went from NULL to a value.
* **Key length in one byte** (`Seek.SeekExact`, `Seek.LongKeyExact`). `sqlKeyCompareEx` keeps both lengths in one byte: a
  key under 256 bytes is found if and only if some record starts with it and it is no longer than the index width modulo
  256; of a longer key only the length modulo 256 counts, so that a 256-byte key is found in whatever row the query has.
* **Exponent without a point** (`Decimal.ShiftIsExact`). A mantissa without a decimal point loses its exponent; one
  with a point is shifted exactly as long as the exponent does not exceed the number of decimals plus 33.
* **`RIGHT(`** (`Lexer.WordsAreWhole`, `Lexer.RightIsHidden`). `RIGHT` is the one keyword that must be followed by a
  parenthesis and by no word character after it: `RIGHT JOIN` and `RIGHT(x` start with an identifier. Every other keyword
  is read exactly where it is the whole word, with its parenthesis if it has one.
* **Lone `!`** (`Lexer.EndsUnlessLoneBang`, `Lexer.EndsWithoutLoneBang`). The lexer returns NOT for `!` without `=` but
  does not advance: it reaches the end of a query, or an error, if and only if no call starts at such a character - so
  always, in a text where every `!` has its `=`.
* **Escaped quote** (`Lexer.StringEndIsTrue`). Inside a string, `\'` takes one character more than itself. The lexer ends a
  string where a reader to whom a backslash takes one character would end it if and only if no escaped quote of the string
  is followed by a quote, directly or behind backslashes; `Lexer.StringsRead` is the instance of a string that ends in an
  escaped quote and swallows its closing quote.
* **Empty full ring** (`Ring.FullEmptyRingNeverEnds`). With a window over the whole ring and no live slot the searches never end.
* **Stale buffer** (`BufferPool.BufferArea.UpdateRecordBuffer`). The read of a page succeeds when any record of the
  page exists; if the current one does not, the buffer keeps its old contents.

## Model

| member | source | states |
|---|---|---|
| Keys.LevelIsInterval | source/sqlex1.c:1444-1560 | the rows of every level are one contiguous interval of the index order around the current row, in both scan directions |
| Keys.LevelsNest | source/sqlex1.c:2345-2355 | deeper levels are sub-intervals; from the current row on they are initial segments; the deepest starts at the current row and level 1 reaches the end |
| Keys.LevelConvex | source/sqlex1.c:1493-1550 | a row between two rows of a level is in the level |
| Keys.FullLevelStartsHere | source/sqlex1.c:1493-1550 | no row before the current one satisfies the full-depth level |
| Query.JoinParses | source/sqlex1.c:1511-1551 | an assembled clause has one leading WHERE, the rest joined by AND, and reads back as the conjuncts it was built from |
| Query.WhereMeaning | source/sqlex1.c:1493-1551 | with its parameters bound, the clause holds of a row exactly when every column condition and every active filter does, for any NULL pattern |
| Query.WhereIsLevel | source/sqlex1.c:1444-1560 | without NULLs the clause of a level is the level predicate restricted to the filtered rows |
| Query.PlaceholdersAreNonNullColumns | source/sqlex1.c:1493-1550 | the placeholders are the columns that are not NULL, in index order, and nothing else |
| Query.RestrictionsMeaning | source/sqlex1.c:1158-1265 | the filter part means that every active filter holds |
| Statement.AlignedIff | source/sqlex1.c:991-1069 | every '?' is bound to the column that produced it, counts included, if and only if every column with a '?' is a character, double, timestamp, date or bit column or, in a skip, a short one |
| Statement.SeekAligned | source/sqlex3.c:136-182 | the seek text, with "AND ROWNUM <= 1" or not, is a well-formed conjunction and its parameters line up if and only if the columns are of the types of the seek's own switch, which has no short |
| Statement.ColumnAtomsNotEmpty | source/sqlex3.c:95-99 | with the last argument not NULL the clause is not empty, so the ROWNUM condition always has a WHERE to follow |
| Statement.StatementArea.SkipAtomsMeaning | source/sqlex1.c:1434-1560 | with no NULL, a level's statement selects the rows equal to the current one before the last column and in it at or after the current value when skipping forward over a plain index or backward over a reversed one, else at or before it; filters included |
| Statement.StatementArea.SeekAtomsMeaning | source/sqlex3.c:110-185 | the same for a seek |
| Statement.StatementArea.AddCondition | source/sqlex1.c:1511-1517 | one condition appended to a clause: WHERE first, AND afterwards |
| Statement.StatementArea.SolveFilters | source/sqlex1.c:1158-1265 | the active filters are appended as conjuncts, in order |
| Statement.StatementArea.GetWhereExpression | source/sqlex1.c:1425-1576 | the clause of a skip at the current level or of the filters alone, the direction, and the NULL status of the one column that is last |
| Statement.StatementArea.CreateSkipStmt | source/sqlex1.c:2285-2362 | rebuilds exactly when stale; then one statement per level of this direction, none of the other, and every column's NULL status refreshed |
| Statement.StatementArea.BindColumns | source/sqlex1.c:991-1069 | the k-th parameter is the k-th non-NULL column, except that a type the switch leaves out leaves its number unbound |
| Statement.StatementArea.BindAllIndexStmts | source/sqlex1.c:962-1073 | the same for every level |
| Statement.StatementArea.FeedCurrentRecordToBindings | source/sqlex1.c:1075-1154 | prepared statements are rebuilt for the current record exactly when it has a NULL they were built to compare |
| Statement.StatementArea.PrepareSkip | source/sqlex1.c:3012-3023 | built again or fed, every level has its statement for the NULL columns on record, its parameters aligned if and only if every column with a '?' is of one of the six types named |
| Statement.StatementArea.PreparedMeansCurrent | source/sqlex1.c:1120-1146 | that statement selects the level of the current record if and only if no column of the level went from NULL to a value |
| Query.ReusedClauseExact | source/sqlex1.c:1120-1146 | the same of the clauses: equal on every row if and only if no column went from NULL to a value |
| Statement.StatementArea.GetSeekWhereExpression | source/sqlex3.c:110-185 | the clause of a seek over the first columns; hints survive exactly when no argument is NULL |
| Statement.StatementArea.PrepareSeek | source/sqlex3.c:305-358 | the seek statement parses to its conditions, ROWNUM included when hinted, and is aligned under the same condition |
| Rdbms.SetResultSetLimit | source/sqlex1.c:204-254 | the form of the limit each database takes, if any, and one row more than asked for in multiple-row queries |
| CursorPages.LevelOneIsSuffix | source/sqlex1.c:1618-1660 | the executed statement returns the limited suffix of the order that starts at the first row sharing the current first column |
| CursorPages.PageFetch | source/sqlex1.c:1618-1729 | an uncrowded fetch loads exactly the records after the current one: min(250, remaining) in natural order, at least one in any order, with the right end mark |
| CursorPages.LimitIsJustEnough | source/sqlex1.c:204-254 | a smaller limit than the page size plus one gives the same page if and only if it cuts nothing off |
| CursorPages.CrowdedFetch | source/sqlex1.c:1664-1700 | with 250 or more rows before the current one the limited result gives no page |
| CursorPages.JustCrowdedPage | source/sqlex1.c:1674-1692 | with exactly 250, the record is marked as the end |
| CursorPages.LostPage | source/sqlex1.c:1655-1668 | with more, the fetch gives up and changes nothing |
| Window.RunIsUnique | source/sqlex1.c:1720-1726 | a window of two or more records has one sense and one place in the order |
| Window.CacheMoveExact | source/sqlex1.c:2189-2244 | a move inside the window lands on the true neighbour if and only if its sense is the recorded direction, else on the other neighbour |
| Window.CacheEndExact | source/sqlex1.c:2198-2240 | a remembered end is raised only at that end |
| CursorSteps.NaturalTableIsUncrowded | source/sqlex1.c:2989-3007 | natural order is never crowded |
| CursorSteps.MissExact | source/sqlex1.c:2974-3066 | a skip that misses lands on the next record if and only if the order is not crowded there |
| CursorSteps.MissRaisesEnd | source/sqlex1.c:3030-3060 | a miss at the last record of the direction raises that end there, crowded or not |
| CursorSteps.GoEndIs | source/sqlex1.c:2583-2656 | on a non-empty order, GoTop and GoBottom end on the first or last record, flags down, end mark set, whether or not the end was remembered |
| KeyOrder.TopIsFirstRow | source/sqlex1.c:2583-2656 | GoTop ends on the row whose key comes before all others, ascending over a plain index and descending over a reversed one |
| KeyOrder.BottomIsLastRow | source/sqlex1.c:2427-2497 | GoBottom ends on the row whose key comes after all others |
| EmptyOrder.EndOfNothingExact | source/sqlex1.c:2427-2497 | on an empty one they raise both flags if and only if nothing is listed and no record is remembered there; else neither |
| CursorSteps.GoToIs | source/sqlex1.c:2502-2555 | GoTo is on the record asked for, in the old list or a list of one, or on the phantom record if it does not exist; record 0 is the phantom record |
| CursorSteps.MissForeign | source/sqlex1.c:3030-3060 | from a record outside the order a skip ends at EOF, or at the top with BOF raised |
| CursorRuns.SkipExact | source/sqlex1.c:2834-2884 | Skip(+1/-1) from a record lands on the true neighbour or raises the right end if and only if the window serves it in its recorded direction, or cannot serve it and the record is the last or not crowded |
| CursorRuns.RunsAreSound | source/sqlex1.c:1674-1692 | over a non-empty order, every run of GoTop, GoBottom, GoTo and Skip(+1/-1) keeps each end mark 0 or right and the window a contiguous run of the order (or the one foreign record GoTo asked for), if and only if no record with a successor is crowded |
| CursorRuns.GoEndKeeps | source/sqlex1.c:2427-2497 | GoTop and GoBottom keep that invariant |
| CursorRuns.GoToKeeps | source/sqlex1.c:2525-2549 | GoTo any record number keeps it |
| CursorRuns.SkipKeeps | source/sqlex1.c:2974-3066 | Skip(+1/-1), from a record, the phantom record or a foreign record, keeps that if and only if the record is not taken for an end it is not |
| CursorRefinement.AstrayRunFails | source/sqlex1.c:3053-3061 | with 25 rows, GoTop, GoTo(last), Skip(1), GoTo(first), Skip(-1), Skip(-1) does not end at the first record with BOF |
| CursorRefinement.StrandedRunFails | source/sqlex1.c:3030-3060 | from every crowded record with a successor, GoTo and one step end at a raised flag instead of the successor |
| CursorRefinement.RunsRefineExactly | source/sqlex1.c:3009-3061 | over a non-empty order, all runs refine the position if and only if it does not have exactly 25 rows and no record with a successor is crowded |
| KeyOrder.StepIsNeighbour | source/sqlex1.c:2834-2884 | after any run over a table that is uncrowded and has not 25 rows, Skip(+1/-1) lands on the row with the next key in its direction, or raises EOF or BOF there when no key follows |
| CursorRuns.SkipManyInside | source/sqlex1.c:2866-2878 | Skip(n) that stays inside the window lands n records further |
| EmptyOrder.EmptyRuns | source/sqlex1.c:2834-2884 | over an empty order, every run that asks for no record leaves nothing listed or remembered and the flags of its last call |
| EmptyOrder.GoToSticks | source/sqlex1.c:2583-2656 | over an empty order, GoTop after GoTo any record stays on that record with both flags down |
| WorkArea.SqlExArea.constructor | source/sqlex1.c:3795-3845 | a work area just opened: empty list, no marks, no statements |
| CursorRuns.CurrentNumber | source/sqlex1.c:145-152 | between calls, the current record number is that of the record at the cursor's place in the order, in the order exactly when the cursor is on a record of it, and past every stored record at EOF |
| WorkArea.SqlExArea.GetCleanBuffer | source/sqlex1.c:182-200 | moves to the phantom record |
| WorkArea.SqlExArea.ReadRecordList | source/sqlex1.c:1660-1729 | the fetch loops over a result: read past the current record, load, mark; the whole new state and the code |
| WorkArea.SqlExArea.GetPreparedRecordList | source/sqlex1.c:1618-1729 | executes the statement of slot 0 whatever the level |
| WorkArea.SqlExArea.GetRecordList | source/sqlex1.c:1733-1801 | loads the first page of an end, marking the far end when short |
| WorkArea.SqlExArea.TrySkippingOnCache | source/sqlex1.c:2189-2244 | serves the skip from the window or a remembered end, or changes nothing |
| WorkArea.SqlExArea.CreateSkipStmt | source/sqlex1.c:2285-2362 | rebuilt statements forget both ends |
| WorkArea.SqlExArea.GoTo | source/sqlex1.c:2502-2555 | whole new state of GoTo |
| WorkArea.SqlExArea.GoTop | source/sqlex1.c:2583-2656 | whole new state of GoTop |
| WorkArea.SqlExArea.GoBottom | source/sqlex1.c:2427-2497 | whole new state of GoBottom |
| WorkArea.SqlExArea.FetchByLevels | source/sqlex1.c:3030-3045 | the level loop computes the fetch by levels |
| WorkArea.SqlExArea.SkipRaw | source/sqlex1.c:2974-3066 | whole new state of a single raw skip, and when it fails |
| WorkArea.StepsTakenAreSteps | source/sqlex1.c:2866-2878 | a loop in which no step failed took the steps of the cursor function |
| WorkArea.SkipTakenIsSkip | source/sqlex1.c:2834-2884 | a skip that succeeds is the skip of the cursor function; on a non-empty order with sound marks a skip by one record always succeeds |
| WorkArea.StepNeverFails | source/sqlex1.c:2974-3000 | with sound end marks on a non-empty order, no step fails |
| WorkArea.SqlExArea.SkipLoop | source/sqlex1.c:2866-2878 | repeated single skips, stopping at either end or at the first that fails: state and success |
| WorkArea.SqlExArea.Skip | source/sqlex1.c:2834-2884 | whole new state of a skip by any distance, and when it fails |
| Seek.ColumnOrderIsKeyOrder | source/sqlex1.c:350-380 | ordering by fixed-width columns is ordering the concatenated keys byte by byte |
| Seek.PiecesPartition | source/sqlex3.c:414-543 | the pieces concatenate to the key or its prefix of the total width, and every piece before the last fills its column |
| Seek.LevelIsLeast | source/sqlex3.c:414-543 | the query level is the least whose cumulative width reaches the key, else the last |
| Seek.PrefixMatches | source/sqlex3.c:110-185 | every row whose key starts with the search key satisfies the seek clause |
| Seek.BetweenIsPrefix | source/sqlex3.c:110-185 | a matching row at or before such a row starts with the search key itself |
| SeekClause.GeneratedClauseMatches | source/sqlex3.c:110-185 | the clause generated for a forward seek with no NULL argument, its pieces bound, selects exactly the rows of the seek's matching rule that pass the filters |
| SeekClause.RankOrder | source/sqlex1.c:350-380 | ranks order texts of one width as the binary collation does |
| Seek.CompareIsPrefix | source/sqlex1.c:4791-4810 | for keys of any length, the comparison is the prefix test on the key's length modulo 256, against the low byte of the record key's length |
| Seek.SeekFinds | source/sqlex1.c:2703-2795 | for a key of any length: success if and only if the query has a row that starts with the first length-modulo-256 bytes of the key and they fit the low byte of the width; if some record starts with the key, that row is the first such in index order |
| Seek.SeekExact | source/sqlex1.c:2703-2795 | for a key under 256 bytes: success if and only if some record starts with the key and the key fits the low byte of the width; the seek is then on the first such record in index order |
| Seek.LongKeyExact | source/sqlex1.c:4791-4810 | for a longer key: exactly when success means that some record starts with it; a multiple of 256 bytes is found in whatever row the query has |
| Seek.SeekArea.Trim | source/sqlex3.c:414-450 | the length without trailing blanks |
| Seek.SeekArea.FeedSeekKeyToBindings | source/sqlex3.c:363-595 | the query level, what every column is bound to, its NULL status, and when the query must be rebuilt |
| Seek.SeekArea.Seek | source/sqlex1.c:2661-2830 | record, fFound, fBof and fEof after a forward seek, soft or hard |
| BufferPool.CounterAgrees | source/sqlex1.c:2141-2157 | the column counter of the reading loop is at the field the SELECT list names there |
| BufferPool.AddedFacts | source/sqlex1.c:2084-2170 | a fetched page adds at most its own rows, and every pooled field is NIL or the table's value |
| BufferPool.BufferArea.BuildFields | source/sqlex1.c:1876-1907 | the list: record number, deleted mark, then all fields or those read so far |
| BufferPool.BufferArea.GetColumnList | source/sqlex1.c:1841-1952 | when the list is rebuilt, and the status it leaves |
| BufferPool.BufferArea.ReadRow | source/sqlex1.c:2105-2160 | each listed field gets its own value, every other NIL |
| BufferPool.BufferArea.BindPage | source/sqlex1.c:2067-2071 | the page asked for: the records from the current one on, and zeros behind the end of the list |
| BufferPool.BufferArea.UpdateRecordBuffer | source/sqlex1.c:1959-2180 | pool bounded by bufferPoolSize + pageReadSize; exact new pool and buffer; the current record's deleted mark stored as fetched, an empty one as a blank; success if and only if the pool or the page has a record; stale buffer otherwise |
| BufferPool.BufferArea.SuccessIsExistence | source/sqlex1.c:2174-2180 | for a record not in the pool, success is its existence if and only if it exists or no record of the page does |
| BufferPool.BufferArea.GetValue | source/sqlex1.c:3233-3293 | the value read is the table's, whatever was pooled and with whatever list; the field joins the list |
| Ring.RangeIsArc | source/sqlrdd1.c:157-166 | the window test is membership in the arc from begin to end |
| Ring.FirstLiveIsNearest | source/sqlrdd1.c:170-224 | a search returns the nearest live slot of those it may visit, or 0 if and only if there is none |
| Ring.SearchesAreInverse | source/sqlrdd1.c:170-224 | in a proper arc, searching one way from a live slot and back returns to it |
| Ring.FoundIsNearest | source/sqlrdd1.c:170-224 | by slot numbers: what a search finds, from the pointer itself or from the slot after it, is the nearest live slot in its direction inside the window |
| Ring.FullEmptyRingNeverEnds | source/sqlrdd1.c:170-224 | in a full window with no live slot every step stays inside and finds nothing |
| Ring.FixIsExact | source/sqlrdd1.c:137-144 | the corrected pointer is congruent to the pointer modulo the ring, and on the ring - then the only such slot - exactly for pointers above -n and up to 2n |
| Ring.RingCache.SearchCacheFWD | source/sqlrdd1.c:170-195 | ends, with the nearest live slot ahead inside the window or 0 |
| Ring.RingCache.SearchCacheBWD | source/sqlrdd1.c:199-224 | ends, with the nearest live slot behind inside the window or 0 |
| FilterWalk.FilteredArea.SkipFilter | source/sqlrdd1.c:755-811 | ends on the nearest shown record in its direction; forward with none at EOF; backward with none on the first shown record with BOF, or at EOF with BOF |
| FilterWalk.FilteredArea.GoTop | source/sqlrdd1.c:516-550 | on the first shown record, or at EOF |
| FilterWalk.FilteredArea.GoBottom | source/sqlrdd1.c:417-453 | on the last shown record, or at EOF with BOF when nothing is shown |
| Escape.KeptIsStorable | source/sqlact.c:368-533 | what a database keeps of a text - NULs kept, blanked or dropped by the database - escapes to the same bytes as the text and holds nothing its dialect cannot store |
| Escape.TrimEscaped | source/sqlact.c:602-663 | trimming after escaping is escaping the trimmed text, so no escape pair is cut |
| Escape.ReadEscaped | source/sqlact.c:368-533 | a database reads the escaped body up to the closing quote as the bytes it keeps; a backslash escapes in MySQL, MariaDB and PostgreSQL only |
| Escape.LiteralRoundTrip | source/sqlact.c:602-663 | for every byte string and every database of the switch, one literal of at most 2n content bytes that this database reads as the text it keeps, right-trimmed when asked |
| Escape.EscapeByte | source/sqlact.c:368-533 | the switches write what one byte becomes, and nothing else |
| Escape.EscapeInto | source/sqlact.c:368-533 | the loops write the escaped text and its terminator, and nothing else |
| Escape.QuoteTrimEscapeString | source/sqlact.c:602-663 | the buffer holds the quoted, trimmed literal and its terminator, within its allocation, and the database reads it back as the text it keeps |
| Decimal.ShiftIsExact | source/sqlact.c:801-856 | the rewritten text stands for the mantissa times ten to the number its exponent digits spell if and only if the number or the exponent is zero, or the mantissa has a point and the exponent fits the room |
| Decimal.LeadingIsDigits | source/sqlact.c:820-836 | the exponent read is the decimal number its digits spell |
| Decimal.NegativeIsDropped | source/sqlact.c:857-859 | with a negative exponent the text stands for the mantissa unshifted |
| Decimal.NoTrailingPoint | source/sqlact.c:836-855 | within the room the result ends in a digit, and keeps a point exactly when decimals remain |
| Decimal.MovePoint | source/sqlact.c:840-855 | the in-place loop stays in the buffer and leaves the text with its point moved |
| Decimal.CopyMantissa | source/sqlact.c:801-836 | the copied mantissa, the last point, where the exponent starts and its value |
| Decimal.EscapeNumber | source/sqlact.c:781-860 | the text handed to the number reader, its length, and whether it is an integer |
| Hex.DecodeEncode | source/sqlact.c:248-295 | decoding the encoding gives back every byte string |
| Hex.EncodedText | source/sqlact.c:266-292 | byte i is written as the two digits of 0123456789ABCDEF of its value in base 16, the high one first |
| Hex.EncodeDecode | source/sqlact.c:297-349 | encoding the decoding of a valid text gives its upper-case form |
| Hex.NibblesSurvive | source/sqlact.c:267-292 | sign extension to 16 bits does not reach the two nibbles printed |
| Hex.StrToHex | source/sqlact.c:248-295 | the buffer holds the encoding and its terminator |
| Hex.Hex2Str | source/sqlact.c:297-349 | the buffer holds the decoding and its terminator |
| Lexer.LexMoves | source/sqllex.c:78-744 | a token is taken strictly forward within the query unless it is an error or a lone '!' |
| Lexer.LexKeepsMarker | source/sqllex.c:78-744 | only the end marker takes the terminating NUL |
| Lexer.LexSpells | source/sqllex.c:109-744 | the characters between the two positions spell the token returned |
| Lexer.WordsAreWhole | source/sqllex.c:334-744 | a word is taken to where it ends, or with the parenthesis of its keyword; it is an identifier if and only if no keyword of the table is the whole word, and otherwise that keyword |
| Lexer.NumbersAreWhole | source/sqllex.c:109-156 | an integer is taken to its last digit, and only when no point or exponent follows |
| Lexer.OperatorsAreWhole | source/sqllex.c:222-329 | no operator is spelled by more of the text than was taken |
| Lexer.PiecesCover | source/sqllex.c:85-106 | over any number of calls, blanks and lexemes are together the text consumed |
| Lexer.ParamsCountUp | source/sqllex.c:320-329 | '?' tokens are numbered 0, 1, 2, ... in order |
| Lexer.StuckForever | source/sqllex.c:309-318 | a call that does not move is repeated by every later call |
| Lexer.EndsUnlessLoneBang | source/sqllex.c:309-318 | the lexer reaches the end or an error within the query's length in calls if and only if no call starts at a '!' without '=' |
| Lexer.EndsWithoutLoneBang | source/sqllex.c:309-318 | so it does when every '!' of the text is followed by '=' |
| Lexer.StringEndIsTrue | source/sqllex.c:160-192 | for every text, a string ends where a reader to whom a backslash takes one character ends it if and only if no escaped quote of it is followed by a quote, directly or behind backslashes |
| Lexer.StringsRead | source/sqllex.c:160-192 | instances: plain strings are read as they are; one that ends in an escaped quote is an error when no other quote follows |
| Lexer.SqlStmt.NextToken | source/sqllex.c:78-744 | one call returns the token and leaves the position and parameter count the position function says |

## Left out

- ODBC calls, statement handles, error reporting, memory release and Harbour VM messages: plumbing.
- Insert, update and delete, and what they do to marks, pool and masks; the PRG methods (READPAGE, SQLGOTOP, STABILIZE, NORMALIZE).
- WorkArea.SqlExArea.UpdateRecordBuffer: only whether the current record exists; the rows themselves are in `bufferpool.dfy`, apart from the cursor.
- WorkArea.SqlExArea.Skip: for more than one record inside the window `CursorRuns.SkipManyInside` says where it lands; no theorem is stated about leaving the window on the way, because the saved current record is then out of date.
- CursorPages.LevelOneIsSuffix: the cursor runs over keys without NULLs; NULL patterns are covered for the clauses and bindings only.
- The deeper level statements are built and bound but never executed by the code, so their rows are described by the level lemmas alone.
- CursorRuns.RunsAreSound: `Inv` is about a non-empty order; `EmptyOrder` covers the empty one. Natural order is never crowded (`CursorSteps.NaturalTableIsUncrowded`).
- Seek.SeekArea.Seek: forward searches over character columns that take no NULL, with no filter and SET DELETED off; find-last, other key types and code pages are not part of this model.
- Seek.SeekArea.FetchFirst: the database's answer to the lower-bound query, by a search of the ordered rows.
- BufferPool.BufferArea.UpdateRecordBuffer: runs with seeks, which may consume the column-list status, are not modelled.
- BufferPool.BufferArea.GetValue: values are opaque; deserialising a stored array or picking a language from a hash is not part of this model.
- Seek.SeekArea.FeedSeekKeyToBindings: a string key over character columns; date, number and logical columns, and the reset of the bindings when the order changes, are not part of this model.
- FilterWalk.FilteredArea.SkipRaw: the raw step is modelled by its contract, one record or BOF/EOF.
- Ring.RingCache.Search: termination is shown for a proper arc or a ring with a live slot; without either the code does not end.
- Escape.QuoteTrimEscapeString: databases with no case in the switch are not modelled.
- Decimal.EscapeNumber: negative exponents, which the code does not implement, are dropped (`Decimal.NegativeIsDropped`); an exponent field with a point in it is read up to the point; the final conversion to a double is not part of this model.
- Lexer.SqlStmt.LexNumber: what `sscanf` accepts as a real is a parameter; the error branches before it cannot be reached from a character that starts a number.
- Lexer.SqlStmt.LexWord: the keyword switch is a table in the order of its cases.
- The bison grammar and the pCode builders, headers and registration tables.
