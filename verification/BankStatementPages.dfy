/** Paged reading of the clearing history while other commands keep committing. */
module BankStatementPages {
  import opened Wrappers
  import opened Orders
  import opened BankStatements
  import opened BankStatementBalance
  import opened BankStatementHistory

  /** Bound to a statement, to the version pinned by the first page, and to the last row delivered. */
  datatype Cursor = Cursor(statement: nat, version: nat, after: HistoryRow)

  datatype Page = Page(items: seq<HistoryRow>, next: Option<Cursor>)

  datatype PageError = InvalidPage | NoStatement

  /** An order by version and, within a version, by history identity. */
  ghost predicate VersionMajor(lt: (HistoryRow, HistoryRow) -> bool) {
    StrictTotal(lt) && forall a: HistoryRow, b: HistoryRow :: a.version < b.version ==> lt(a, b)
  }

  ghost function Wanted(st: State, s: nat, version: nat, cursor: Option<Cursor>,
                        lt: (HistoryRow, HistoryRow) -> bool): set<HistoryRow>
  {
    set r | r in st.history && r.statement == s && r.version <= version && (cursor.Some? ==> lt(cursor.value.after, r))
  }

  predicate CursorOk(cursor: Cursor, s: nat, current: nat) {
    cursor.statement == s && 1 <= cursor.version <= current && 1 <= cursor.after.version <= cursor.version
  }

  /** One page: the wanted rows in order, cut at the limit, and a cursor when there are more. */
  ghost function HistoryPage(st: State, s: nat, limit: nat, cursor: Option<Cursor>,
                             lt: (HistoryRow, HistoryRow) -> bool)
    : Result<Page, PageError>
    requires VersionMajor(lt)
  {
    if limit < 1 || limit > 500 then Err(InvalidPage)
    else if s !in st.statements then Err(NoStatement)
    else if cursor.Some? && !CursorOk(cursor.value, s, st.statements[s].version) then Err(InvalidPage)
    else
      var version := if cursor.Some? then cursor.value.version else st.statements[s].version;
      var rows := Listing(Wanted(st, s, version, cursor, lt), lt);
      if |rows| <= limit then Ok(Page(rows, None))
      else Ok(Page(rows[..limit], Some(Cursor(s, version, rows[limit - 1]))))
  }

  /** The database states that a reader meets: the events of each gap commit between two of its pages. */
  ghost function Observed(st: State, gaps: seq<seq<Event>>): (r: seq<State>)
    ensures |r| == |gaps| + 1 && r[0] == st
    decreases gaps
  {
    if gaps == [] then [st] else [st] + Observed(Run(st, gaps[0]), gaps[1..])
  }

  /** All items delivered by following cursors to the end; None when a page is refused or the end is not reached. */
  ghost function Follow(states: seq<State>, s: nat, limits: seq<nat>, cursor: Option<Cursor>,
                        lt: (HistoryRow, HistoryRow) -> bool)
    : Option<seq<HistoryRow>>
    requires VersionMajor(lt) && |limits| == |states|
    decreases states
  {
    if states == [] then None
    else
      match HistoryPage(states[0], s, limits[0], cursor, lt)
      case Err(_) => None
      case Ok(p) =>
        if p.next.None? then Some(p.items)
        else
          match Follow(states[1..], s, limits[1..], p.next, lt)
          case None => None
          case Some(rest) => Some(p.items + rest)
  }

  /** Later commands never add rows at or below a version already reached. */
  lemma PinnedRowsStay(a: State, b: State, s: nat, version: nat, cursor: Option<Cursor>,
                       lt: (HistoryRow, HistoryRow) -> bool)
    requires Extends(a, b) && version <= VersionOf(a, s)
    ensures Wanted(a, s, version, cursor, lt) == Wanted(b, s, version, cursor, lt)
  {
  }

  lemma MajorIsTotal(lt: (HistoryRow, HistoryRow) -> bool)
    requires VersionMajor(lt)
    ensures StrictTotal(lt)
  {
  }

  /** The rows after the last one delivered, read in the same state. */
  lemma RowsAfter(st: State, s: nat, version: nat, cursor: Option<Cursor>, limit: nat,
                  lt: (HistoryRow, HistoryRow) -> bool)
    requires StrictTotal(lt)
    requires 1 <= limit < |Listing(Wanted(st, s, version, cursor, lt), lt)|
    ensures var rows := Listing(Wanted(st, s, version, cursor, lt), lt);
            var next := Some(Cursor(s, version, rows[limit - 1]));
            && rows[limit - 1] in Wanted(st, s, version, cursor, lt)
            && Listing(Wanted(st, s, version, next, lt), lt) == rows[limit..]
            && |Wanted(st, s, version, next, lt)| == |rows| - limit
  {
    hide StrictTotal;
    var all := Wanted(st, s, version, cursor, lt);
    var rows := Listing(all, lt);
    var last := rows[limit - 1];
    assert last in rows;
    var tail := Wanted(st, s, version, Some(Cursor(s, version, last)), lt);
    forall r
      ensures r in tail <==> r in all && lt(last, r)
    {
      if r in tail && cursor.Some? { Transitive(lt, cursor.value.after, last, r); }
    }
    ListingTail(all, lt, limit, tail);
  }

  /** After a full page the next cursor is accepted later on, and asks for exactly the rows that remain. */
  lemma NextCursor(st: State, gap: seq<Event>, s: nat, limit: nat, cursor: Option<Cursor>, version: nat,
                   lt: (HistoryRow, HistoryRow) -> bool)
    requires StrictTotal(lt) && Valid(st) && HistoryOk(st) && s in st.statements
    requires version <= st.statements[s].version
    requires 1 <= limit < |Listing(Wanted(st, s, version, cursor, lt), lt)|
    ensures var rows := Listing(Wanted(st, s, version, cursor, lt), lt);
            var next := Cursor(s, version, rows[limit - 1]);
            var later := Run(st, gap);
            && Valid(later) && HistoryOk(later) && s in later.statements
            && CursorOk(next, s, later.statements[s].version)
            && Listing(Wanted(later, s, version, Some(next), lt), lt) == rows[limit..]
            && |Wanted(later, s, version, Some(next), lt)| == |rows| - limit
  {
    hide Valid, Fold, Selection, StrictTotal;
    RowsAfter(st, s, version, cursor, limit, lt);
    var rows := Listing(Wanted(st, s, version, cursor, lt), lt);
    var next := Cursor(s, version, rows[limit - 1]);
    RunExtends(st, gap);
    assert VersionOf(st, s) <= VersionOf(Run(st, gap), s);
    PinnedRowsStay(st, Run(st, gap), s, version, Some(next), lt);
  }

  /** The version a page reads up to: pinned by its cursor, or the current one on the first page. */
  ghost function Pinned(st: State, s: nat, cursor: Option<Cursor>): nat
    requires s in st.statements
  {
    if cursor.Some? then cursor.value.version else st.statements[s].version
  }

  ghost predicate Readable(st: State, s: nat, cursor: Option<Cursor>) {
    s in st.statements && (cursor.Some? ==> CursorOk(cursor.value, s, st.statements[s].version))
  }

  /** A page that holds everything, or that is followed by a complete rest, delivers all wanted rows. */
  lemma FollowStep(st: State, later: seq<State>, s: nat, limits: seq<nat>, cursor: Option<Cursor>,
                   lt: (HistoryRow, HistoryRow) -> bool)
    requires VersionMajor(lt) && StrictTotal(lt) && |limits| == |later| + 1 && 1 <= limits[0] <= 500
    requires Readable(st, s, cursor)
    requires var rows := Listing(Wanted(st, s, Pinned(st, s, cursor), cursor, lt), lt);
             |rows| > limits[0] ==>
               Follow(later, s, limits[1..], Some(Cursor(s, Pinned(st, s, cursor), rows[limits[0] - 1])), lt)
               == Some(rows[limits[0]..])
    ensures Follow([st] + later, s, limits, cursor, lt)
            == Some(Listing(Wanted(st, s, Pinned(st, s, cursor), cursor, lt), lt))
  {
    hide VersionMajor, StrictTotal, Wanted, Listing;
    var rows := Listing(Wanted(st, s, Pinned(st, s, cursor), cursor, lt), lt);
    assert ([st] + later)[1..] == later;
    if |rows| > limits[0] { assert rows == rows[..limits[0]] + rows[limits[0]..]; }
  }

  lemma {:induction false} FollowFromCursor(st: State, gaps: seq<seq<Event>>, s: nat, limits: seq<nat>,
                                            cursor: Option<Cursor>, lt: (HistoryRow, HistoryRow) -> bool)
    requires VersionMajor(lt) && StrictTotal(lt) && Valid(st) && HistoryOk(st)
    requires Readable(st, s, cursor)
    requires |limits| == |gaps| + 1 && forall i | 0 <= i < |limits| :: 1 <= limits[i] <= 500
    requires |Wanted(st, s, Pinned(st, s, cursor), cursor, lt)| <= |gaps| + 1
    ensures Follow(Observed(st, gaps), s, limits, cursor, lt)
            == Some(Listing(Wanted(st, s, Pinned(st, s, cursor), cursor, lt), lt))
    decreases gaps
  {
    hide Valid, HistoryOk, VersionMajor, StrictTotal, Wanted, Listing, Run, Follow;
    var version := Pinned(st, s, cursor);
    var rows := Listing(Wanted(st, s, version, cursor, lt), lt);
    var later := Observed(st, gaps)[1..];
    if |rows| > limits[0] {
      NextCursor(st, gaps[0], s, limits[0], cursor, version, lt);
      var next := Cursor(s, version, rows[limits[0] - 1]);
      assert later == Observed(Run(st, gaps[0]), gaps[1..]);
      FollowFromCursor(Run(st, gaps[0]), gaps[1..], s, limits[1..], Some(next), lt);
    }
    FollowStep(st, later, s, limits, cursor, lt);
    assert [st] + later == Observed(st, gaps);
  }

  /** Following cursors while other commands keep committing delivers every clearing change up to the version that the
      first page pinned, exactly once and in order. It ends within as many pages as there are rows. */
  lemma CursorsDeliverPinnedHistory(before: seq<Event>, gaps: seq<seq<Event>>, s: nat, limits: seq<nat>,
                                    lt: (HistoryRow, HistoryRow) -> bool)
    requires VersionMajor(lt)
    requires s in Run(EMPTY, before).statements
    requires |limits| == |gaps| + 1 && forall i | 0 <= i < |limits| :: 1 <= limits[i] <= 500
    requires |set r | r in Run(EMPTY, before).history && r.statement == s| <= |gaps| + 1
    ensures var all := set r | r in Run(EMPTY, before).history && r.statement == s;
            StrictTotal(lt) && Follow(Observed(Run(EMPTY, before), gaps), s, limits, None, lt) == Some(Listing(all, lt))
  {
    assert Valid(EMPTY) && HistoryOk(EMPTY);
    hide Valid, Fold, Selection;
    RunExtends(EMPTY, before);
    MajorIsTotal(lt);
    hide VersionMajor, StrictTotal, Listing, Run, Follow, HistoryOk;
    var st := Run(EMPTY, before);
    AllWanted(st, s, lt);
    FollowFromCursor(st, gaps, s, limits, None, lt);
  }

  lemma AllWanted(st: State, s: nat, lt: (HistoryRow, HistoryRow) -> bool)
    requires HistoryOk(st) && s in st.statements
    ensures Wanted(st, s, st.statements[s].version, None, lt) == set r | r in st.history && r.statement == s
  {
    hide Fold, Selection;
  }

  // ---- one page ----

  /** The history row lies behind the cursor, up to the version the page reads. */
  ghost predicate Due(st: State, s: nat, cursor: Option<Cursor>, lt: (HistoryRow, HistoryRow) -> bool, r: HistoryRow)
    requires s in st.statements
  {
    && r in st.history && r.statement == s
    && r.version <= (if cursor.Some? then cursor.value.version else st.statements[s].version)
    && (cursor.Some? ==> lt(cursor.value.after, r))
  }

  /** A page is given exactly for a limit of 1 to 500, a known statement, and a cursor of that statement at a version it
      has reached. It has at most the limit of due rows, in order and before every other due row, and a next cursor,
      after its last row at the same version, exactly when due rows are left over. */
  lemma PagesAnsweredIff(st: State, s: nat, limit: nat, cursor: Option<Cursor>, lt: (HistoryRow, HistoryRow) -> bool)
    requires VersionMajor(lt)
    ensures var page := HistoryPage(st, s, limit, cursor, lt);
            && (page.Ok? <==>
                  && 1 <= limit <= 500 && s in st.statements
                  && (cursor.Some? ==>
                        var c := cursor.value;
                        c.statement == s && 1 <= c.after.version <= c.version <= st.statements[s].version))
            && (page.Ok? ==>
                  var (items, next) := (page.value.items, page.value.next);
                  && |items| <= limit
                  && (forall r | r in items :: Due(st, s, cursor, lt, r))
                  && (forall i, j | 0 <= i < j < |items| :: lt(items[i], items[j]))
                  && (forall r, x | Due(st, s, cursor, lt, r) && r !in items && x in items :: lt(x, r))
                  && (next.Some? <==> exists r :: Due(st, s, cursor, lt, r) && r !in items)
                  && (next.Some? ==>
                        && |items| == limit && next.value.statement == s && next.value.after == items[limit - 1]
                        && next.value.version == if cursor.Some? then cursor.value.version
                                                 else st.statements[s].version))
  {
    hide StrictTotal, Listing;
    if HistoryPage(st, s, limit, cursor, lt).Ok? {
      MajorIsTotal(lt);
      var version := Pinned(st, s, cursor);
      var all := Wanted(st, s, version, cursor, lt);
      var rows := Listing(all, lt);
      assert forall r :: Due(st, s, cursor, lt, r) <==> r in rows;
      Prefix(rows, if |rows| <= limit then |rows| else limit, lt);
      assert rows[..|rows|] == rows;
    }
  }

  lemma Prefix(rows: seq<HistoryRow>, n: nat, lt: (HistoryRow, HistoryRow) -> bool)
    requires StrictTotal(lt) && n <= |rows| && forall i, j | 0 <= i < j < |rows| :: lt(rows[i], rows[j])
    ensures forall r | r in rows[..n] :: r in rows
    ensures forall r, x | r in rows && r !in rows[..n] && x in rows[..n] :: lt(x, r)
    ensures n < |rows| <==> exists r :: r in rows && r !in rows[..n]
  {
    assert forall m | 0 <= m < n :: rows[..n][m] == rows[m] && rows[m] in rows[..n];
    forall r, x | r in rows && r !in rows[..n] && x in rows[..n] ensures lt(x, r) {
      var i :| 0 <= i < |rows| && rows[i] == r;
      var j :| 0 <= j < n && rows[j] == x;
      assert j < n <= i;
    }
    if n < |rows| {
      assert rows[n] !in rows[..n] by {
        forall j | 0 <= j < n ensures rows[j] != rows[n] { assert lt(rows[j], rows[n]); }
      }
      assert rows[n] in rows;
    } else {
      assert rows[..n] == rows;
    }
  }
}
