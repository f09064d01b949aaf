/** The immutable clearing history reproduces the selection a statement held at every version. */
module BankStatementHistory {
  import opened BankStatements
  import opened BankStatementBalance

  /** A statement's selection as posting and amount pairs. */
  ghost function Selection(clearings: map<nat, Clearing>, s: nat): set<(nat, int)> {
    set p | p in clearings && clearings[p].statement == s :: (p, clearings[p].amount)
  }

  ghost function RowsAt(history: set<HistoryRow>, s: nat, version: nat, change: Change): set<(nat, int)> {
    set r | r in history && r.statement == s && r.version == version && r.change == change :: (r.posting, r.amount)
  }

  /** Replaying a statement's history rows up to a version: removals, then additions, version by version. */
  ghost function Fold(history: set<HistoryRow>, s: nat, version: nat): set<(nat, int)> {
    if version == 0 then {}
    else (Fold(history, s, version - 1) - RowsAt(history, s, version, Removed)) + RowsAt(history, s, version, Added)
  }

  ghost predicate HistoryRowsOk(st: State) {
    forall r | r in st.history ::
      r.statement in st.statements && 1 <= r.version <= st.statements[r.statement].version
  }

  ghost predicate HistoryOk(st: State) {
    && HistoryRowsOk(st)
    && forall s | s in st.statements :: Fold(st.history, s, st.statements[s].version) == Selection(st.clearings, s)
  }

  /** Rows of other statements or of later versions do not matter to a fold. */
  lemma {:induction false} FoldAgrees(a: set<HistoryRow>, b: set<HistoryRow>, s: nat, version: nat)
    requires forall r: HistoryRow | r.statement == s && r.version <= version :: r in a <==> r in b
    ensures Fold(a, s, version) == Fold(b, s, version)
  {
    if version > 0 {
      FoldAgrees(a, b, s, version - 1);
      assert RowsAt(a, s, version, Removed) == RowsAt(b, s, version, Removed);
      assert RowsAt(a, s, version, Added) == RowsAt(b, s, version, Added);
    }
  }

  /** The version a statement is at, or zero before it exists. */
  ghost function VersionOf(st: State, s: nat): nat {
    if s in st.statements then st.statements[s].version else 0
  }

  /** Between two states, only rows of versions beyond the earlier ones are new. */
  ghost predicate Extends(a: State, b: State) {
    && (forall s | s in a.statements :: s in b.statements)
    && (forall s :: VersionOf(a, s) <= VersionOf(b, s))
    && (forall r | r in a.history :: r in b.history)
    && (forall r | r in b.history :: r in a.history || r.version > VersionOf(a, r.statement))
  }

  ghost function Gone(e: Effect, clearings: map<nat, Clearing>): set<(nat, int)>
    requires e.removed <= clearings.Keys
  {
    set p | p in e.removed :: (p, clearings[p].amount)
  }

  ghost function Come(e: Effect): set<(nat, int)> {
    set p | p in e.added :: (p, e.added[p].amount)
  }

  /** The rows of an effect: of its statement and version, one for each change. */
  lemma RowsFacts(c: Command, e: Effect, clearings: map<nat, Clearing>)
    requires e.removed <= clearings.Keys
    ensures forall r | r in Rows(c, e, clearings) :: r.statement == c.statement && r.version == e.row.version
    ensures RowsAt(Rows(c, e, clearings), c.statement, e.row.version, Removed) == Gone(e, clearings)
    ensures RowsAt(Rows(c, e, clearings), c.statement, e.row.version, Added) == Come(e)
  {
    var x, v, rows := c.statement, e.row.version, Rows(c, e, clearings);
    forall p | p in e.removed ensures (p, clearings[p].amount) in RowsAt(rows, x, v, Removed) {
      assert HistoryRow(x, v, Removed, p, clearings[p].amount, c.key) in rows;
    }
    forall p | p in e.added ensures (p, e.added[p].amount) in RowsAt(rows, x, v, Added) {
      assert HistoryRow(x, v, Added, p, e.added[p].amount, c.key) in rows;
    }
  }

  lemma NextVersion(st: State, c: Command, e: Effect)
    requires GoodEffect(st, c, e)
    ensures e.row.version == VersionOf(st, c.statement) + 1
  {
    hide SelectedAmount, SelectedIds;
  }

  lemma CommitExtends(st: State, c: Command, e: Effect)
    requires GoodEffect(st, c, e) && e.removed <= st.clearings.Keys
    ensures Extends(st, Commit(st, c, e).0)
    ensures VersionOf(Commit(st, c, e).0, c.statement) == VersionOf(st, c.statement) + 1
  {
    hide Project, GoodEffect, Rows;
    NextVersion(st, c, e);
    RowsFacts(c, e, st.clearings);
  }

  lemma FoldUpToNow(st: State, c: Command, e: Effect)
    requires Valid(st) && GoodEffect(st, c, e) && e.removed <= st.clearings.Keys && HistoryOk(st)
    ensures Fold(st.history + Rows(c, e, st.clearings), c.statement, VersionOf(st, c.statement))
            == Selection(st.clearings, c.statement)
  {
    hide Project, GoodEffect, Rows, Chained, Balanced, RowsOk;
    NextVersion(st, c, e);
    RowsFacts(c, e, st.clearings);
    FoldAgrees(st.history + Rows(c, e, st.clearings), st.history, c.statement, VersionOf(st, c.statement));
  }

  lemma RowsAtVersion(st: State, c: Command, e: Effect, change: Change)
    requires HistoryRowsOk(st) && GoodEffect(st, c, e) && e.removed <= st.clearings.Keys
    ensures RowsAt(st.history + Rows(c, e, st.clearings), c.statement, e.row.version, change)
            == if change.Removed? then Gone(e, st.clearings) else Come(e)
  {
    hide GoodEffect, Rows;
    NextVersion(st, c, e);
    RowsFacts(c, e, st.clearings);
    var rows := Rows(c, e, st.clearings);
    assert RowsAt(st.history + rows, c.statement, e.row.version, change)
           == RowsAt(rows, c.statement, e.row.version, change);
  }

  lemma SelectionChanges(clearings: map<nat, Clearing>, e: Effect, s: nat)
    requires e.removed <= SelectedIds(clearings, s)
    requires forall p | p in e.added :: p !in clearings && e.added[p].statement == s
    ensures Selection((clearings - e.removed) + e.added, s) == (Selection(clearings, s) - Gone(e, clearings)) + Come(e)
  {
  }

  lemma SelectionAfter(st: State, c: Command, e: Effect)
    requires Valid(st) && GoodEffect(st, c, e) && e.removed <= st.clearings.Keys && HistoryOk(st)
    ensures var after := Commit(st, c, e).0;
            Fold(after.history, c.statement, e.row.version) == Selection(after.clearings, c.statement)
  {
    hide Project, Rows, Valid, HistoryOk, Selection, Gone, Come;
    NextVersion(st, c, e);
    FoldUpToNow(st, c, e);
    assert HistoryRowsOk(st) by { HistoryOkRows(st); }
    RowsAtVersion(st, c, e, Removed);
    RowsAtVersion(st, c, e, Added);
    SelectionChanges(st.clearings, e, c.statement);
  }

  lemma HistoryOkRows(st: State)
    requires HistoryOk(st)
    ensures HistoryRowsOk(st)
  {
  }

  lemma OtherSelection(st: State, c: Command, e: Effect, s: nat)
    requires GoodEffect(st, c, e) && e.removed <= st.clearings.Keys && s != c.statement
    ensures Selection(Commit(st, c, e).0.clearings, s) == Selection(st.clearings, s)
  {
    hide Project, StartsDraft;
  }

  lemma CommitKeepsHistory(st: State, c: Command, e: Effect)
    requires Valid(st) && GoodEffect(st, c, e) && e.removed <= st.clearings.Keys && HistoryOk(st)
    ensures HistoryOk(Commit(st, c, e).0)
  {
    hide Project, GoodEffect, Rows, Valid, Selection, Fold;
    var x, after := c.statement, Commit(st, c, e).0;
    SelectionAfter(st, c, e);
    NextVersion(st, c, e);
    RowsFacts(c, e, st.clearings);
    forall s | s in after.statements
      ensures Fold(after.history, s, after.statements[s].version) == Selection(after.clearings, s)
    {
      if s != x {
        FoldAgrees(after.history, st.history, s, after.statements[s].version);
        OtherSelection(st, c, e, s);
      }
    }
  }

  /** One step extends the history, and moves no statement by more than one version. */
  lemma NextExtends(st: State, ev: Event)
    requires Valid(st)
    ensures Extends(st, Next(st, ev))
    ensures forall s :: VersionOf(Next(st, ev), s) <= VersionOf(st, s) + 1
    ensures HistoryOk(st) ==> HistoryOk(Next(st, ev))
  {
    hide Valid, EffectOf, Commit, Project, HistoryOk, GoodEffect;
    if ev.Do? {
      EffectWithinClearings(st, ev.command, ev.facts);
      if EffectOf(st, ev.command, ev.facts).Ok? && !Contradictory(ev.command) {
        var e := EffectOf(st, ev.command, ev.facts).value;
        EffectsAreGood(st, ev.command, ev.facts);
        CommitExtends(st, ev.command, e);
        OthersKeepVersion(st, ev.command, e);
        if HistoryOk(st) { CommitKeepsHistory(st, ev.command, e); }
      }
    } else if HistoryOk(st) {
      ReceiptsAsideHistory(st, Next(st, ev));
    }
  }

  lemma ReceiptsAsideHistory(a: State, b: State)
    requires HistoryOk(a) && a.statements == b.statements && a.clearings == b.clearings && a.history == b.history
    ensures HistoryOk(b)
  {
  }

  lemma OthersKeepVersion(st: State, c: Command, e: Effect)
    requires e.removed <= st.clearings.Keys
    ensures forall s | s != c.statement :: VersionOf(Commit(st, c, e).0, s) == VersionOf(st, s)
  {
  }

  lemma {:induction false} RunExtends(st: State, evs: seq<Event>)
    requires Valid(st) && HistoryOk(st)
    ensures Extends(st, Run(st, evs)) && Valid(Run(st, evs)) && HistoryOk(Run(st, evs))
    decreases evs
  {
    hide Valid, Next, HistoryOk;
    if evs != [] {
      NextExtends(st, evs[0]);
      NextKeepsValid(st, evs[0]);
      RunExtends(Next(st, evs[0]), evs[1..]);
      ExtendsTransitive(st, Next(st, evs[0]), Run(st, evs));
    }
  }

  lemma ExtendsTransitive(a: State, b: State, c: State)
    requires Extends(a, b) && Extends(b, c)
    ensures Extends(a, c)
  {
    forall r | r in c.history ensures r in a.history || r.version > VersionOf(a, r.statement) {
      assert r in b.history || r.version > VersionOf(b, r.statement);
    }
  }

  lemma EmptyHistory()
    ensures Valid(EMPTY) && HistoryOk(EMPTY)
  {
  }

  lemma FoldOfCurrent(st: State, s: nat)
    requires HistoryOk(st) && s in st.statements
    ensures Fold(st.history, s, st.statements[s].version) == Selection(st.clearings, s)
  {
  }

  lemma OldRows(a: State, b: State, s: nat)
    requires Extends(a, b) && s in a.statements
    ensures forall r: HistoryRow | r.statement == s && r.version <= a.statements[s].version ::
              r in b.history <==> r in a.history
  {
  }

  /** Whatever commands follow, folding a statement's history up to a version it has passed through
      yields exactly the selection it held while at that version. */
  lemma HistoryReproducesEveryVersion(before: seq<Event>, after: seq<Event>, s: nat)
    requires s in Run(EMPTY, before).statements
    ensures var then_ := Run(EMPTY, before);
            var now := Run(then_, after);
            Fold(now.history, s, then_.statements[s].version) == Selection(then_.clearings, s)
  {
    hide Valid, HistoryOk, Run, Fold, Selection, Extends;
    EmptyHistory();
    RunExtends(EMPTY, before);
    var then_ := Run(EMPTY, before);
    RunExtends(then_, after);
    var now := Run(then_, after);
    FoldOfCurrent(then_, s);
    OldRows(then_, now, s);
    FoldAgrees(now.history, then_.history, s, then_.statements[s].version);
  }
}
