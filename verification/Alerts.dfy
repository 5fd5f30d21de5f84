/** `AlertsHandler`: alerts deduplicated by an identifier, stored by id. */
module Alerts {
  import opened Wrappers
  import opened Text

  /** MD5 digests in hex: any non-empty texts will do. */
  type Digest = s: string | s != "" witness "0"

  datatype Status = New | Open | Closed | Reopened

  datatype Error = ValueError | NotFound

  /** What a caller reports. `traceback` is None for every falsy traceback. */
  datatype Report = Report(appname: string, message: string, publicMessage: string, category: string,
                           kind: string, level: int, at: int, traceback: Option<string>)

  /** An alert; id 0 is an alert not saved yet. */
  datatype Alert = Alert(id: int, appname: string, message: string, publicMessage: string, category: string,
                         kind: string, level: int, count: nat, status: Option<Status>,
                         firstOccurrence: int, lastOccurrence: int, tracebacks: seq<Option<string>>)

  const BLANK := Alert(0, "", "", "", "", "", 0, 0, None, 0, 0, [])

  /** The alerts hash, the identifier hash and the id counter. */
  datatype AlertDb = AlertDb(alerts: map<int, Alert>, ids: map<string, int>, last: nat)

  const EMPTY := AlertDb(map[], map[], 0)

  /** `_get_identifier`. */
  function Identifier(texts: seq<string>, md5: string -> Digest): Digest { md5(JoinWith(texts, ':')) }

  /** What identifies a report. */
  function Texts(r: Report): (texts: seq<string>)
    ensures |texts| == 5
  {
    [r.appname, r.message, r.publicMessage, r.category, r.kind]
  }

  function IdentifierOf(a: Alert, md5: string -> Digest): Digest {
    Identifier([a.appname, a.message, a.publicMessage, a.category, a.kind], md5)
  }

  function ReportIdentifier(r: Report, md5: string -> Digest): Digest {
    Identifier(Texts(r), md5)
  }

  // ---------------------------------------------------------------------------------------
  // Which reports share an identifier
  // ---------------------------------------------------------------------------------------

  ghost predicate Injective(md5: string -> Digest) {
    forall s, t :: md5(s) == md5(t) ==> s == t
  }

  /** Two reports share an identifier exactly when their texts, cut at colons, give the same parts. */
  lemma SharedIdentifier(r: Report, q: Report, md5: string -> Digest)
    requires Injective(md5)
    ensures ReportIdentifier(r, md5) == ReportIdentifier(q, md5) <==> Pieces(Texts(r), ':') == Pieces(Texts(q), ':')
  {
    SplitJoined(Texts(r), ':');
    SplitJoined(Texts(q), ':');
    JoinSplit(JoinWith(Texts(r), ':'), ':');
    JoinSplit(JoinWith(Texts(q), ':'), ':');
  }

  predicate ColonFree(texts: seq<string>) { forall s :: s in texts ==> ':' !in s }

  /** A report is kept apart from all others with other texts exactly when no text has a colon. */
  lemma KeptApart(r: Report, md5: string -> Digest)
    requires Injective(md5)
    ensures (forall q :: ReportIdentifier(q, md5) == ReportIdentifier(r, md5) ==> Texts(q) == Texts(r))
       <==> ColonFree(Texts(r))
  {
    if ColonFree(Texts(r)) {
      forall q | ReportIdentifier(q, md5) == ReportIdentifier(r, md5) ensures Texts(q) == Texts(r) {
        SharedIdentifier(q, r, md5);
        PiecesCount(Texts(r), ':');
        PiecesCount(Texts(q), ':');
      }
    } else {
      var q := Merged(r, md5);
    }
  }

  /** A report with a colon in a text has the identifier of another one, whatever the digest. */
  lemma Merged(r: Report, md5: string -> Digest) returns (q: Report)
    requires !ColonFree(Texts(r))
    ensures ReportIdentifier(q, md5) == ReportIdentifier(r, md5) && Texts(q) != Texts(r)
  {
    JoinFive(r);
    if ':' in r.appname {
      var x, y := AtColon(r.appname);
      q := r.(appname := x, message := y + ":" + r.message);
      Regroup(x, y, r.message, ":" + (r.publicMessage + (":" + (r.category + (":" + r.kind)))));
      assert Texts(q)[0] != Texts(r)[0];
    } else if ':' in r.message {
      var x, y := AtColon(r.message);
      q := r.(message := x, publicMessage := y + ":" + r.publicMessage);
      Regroup(x, y, r.publicMessage, ":" + (r.category + (":" + r.kind)));
      assert Texts(q)[1] != Texts(r)[1];
    } else if ':' in r.publicMessage {
      var x, y := AtColon(r.publicMessage);
      q := r.(publicMessage := x, category := y + ":" + r.category);
      Regroup(x, y, r.category, ":" + r.kind);
      assert Texts(q)[2] != Texts(r)[2];
    } else if ':' in r.category {
      var x, y := AtColon(r.category);
      q := r.(category := x, kind := y + ":" + r.kind);
      Regroup(x, y, r.kind, "");
      assert Texts(q)[3] != Texts(r)[3];
    } else {
      var x, y := AtColon(r.kind);
      q := r.(category := r.category + ":" + x, kind := y);
      Regroup(r.category, x, y, "");
      assert Texts(q)[4] != Texts(r)[4];
    }
    JoinFive(q);
  }

  lemma Regroup(x: string, y: string, z: string, rest: string)
    ensures (x + ":" + y) + (":" + (z + rest)) == x + (":" + ((y + ":" + z) + rest))
    ensures x + (":" + (y + ":" + z)) == (x + ":" + y) + (":" + z)
    ensures z + "" == z && (y + ":" + z) + "" == y + ":" + z
  {}

  lemma AtColon(s: string) returns (x: string, y: string)
    requires ':' in s
    ensures s == x + ":" + y
    ensures |x| < |s| && |y| < |s|
  {
    var i :| 0 <= i < |s| && s[i] == ':';
    x, y := s[..i], s[i + 1..];
  }

  lemma JoinFive(r: Report)
    ensures JoinWith(Texts(r), ':')
         == r.appname + (":" + (r.message + (":" + (r.publicMessage + (":" + (r.category + (":" + r.kind)))))))
  {
    var texts := Texts(r);
    assert JoinWith(texts[4..], ':') == r.kind;
    assert JoinWith(texts[3..], ':') == r.category + (":" + r.kind) by { assert texts[3..][1..] == texts[4..]; }
    assert JoinWith(texts[2..], ':') == r.publicMessage + (":" + JoinWith(texts[3..], ':')) by {
      assert texts[2..][1..] == texts[3..];
    }
    assert JoinWith(texts[1..], ':') == r.message + (":" + JoinWith(texts[2..], ':')) by {
      assert texts[1..][1..] == texts[2..];
    }
  }

  // ---------------------------------------------------------------------------------------
  // The operations as functions on the stored hashes
  // ---------------------------------------------------------------------------------------

  /** `get` with an id (when it is not 0) or an identifier, without raising. */
  function Lookup(db: AlertDb, alertId: int, identifier: string): Option<Alert> {
    var id := if alertId != 0 then alertId else if identifier in db.ids then db.ids[identifier] else 0;
    if id != 0 && id in db.alerts then Some(db.alerts[id]) else None
  }

  /** The traceback list after one more raise: only a raise that carries a traceback drops an old entry. */
  function Pushed(tracebacks: seq<Option<string>>, t: Option<string>): seq<Option<string>> {
    (if t.Some? && |tracebacks| > 5 then tracebacks[1..] else tracebacks) + [t]
  }

  /** An alert after it is raised (again). */
  function Updated(a: Alert, r: Report): Alert {
    var status :=
      if a.id == 0 then Some(New)
      else if a.status == Some(New) then Some(Open)
      else if a.status == Some(Closed) then Some(Reopened)
      else a.status;
    Alert(a.id, r.appname, r.message, r.publicMessage, r.category, r.kind, r.level, a.count + 1, status,
          if a.id == 0 then r.at else a.firstOccurrence, r.at, Pushed(a.tracebacks, r.traceback))
  }

  function Saved(db: AlertDb, a: Alert, md5: string -> Digest): AlertDb {
    var last := if a.id == 0 then db.last + 1 else db.last;
    var alert := if a.id == 0 then a.(id := last) else a;
    AlertDb(db.alerts[alert.id := alert], db.ids[IdentifierOf(alert, md5) := alert.id], last)
  }

  function Existing(db: AlertDb, r: Report, md5: string -> Digest): Alert {
    var found := Lookup(db, 0, ReportIdentifier(r, md5));
    if found.Some? then found.value else BLANK
  }

  function Raised(db: AlertDb, r: Report, md5: string -> Digest): AlertDb {
    Saved(db, Updated(Existing(db, r, md5), r), md5)
  }

  function Deleted(db: AlertDb, alertId: int, identifier: string): AlertDb {
    var id := if alertId != 0 then alertId else if identifier in db.ids then db.ids[identifier] else 0;
    if id != 0 then db.(alerts := db.alerts - {id}) else db
  }

  function Cleared(db: AlertDb): AlertDb { AlertDb(map[], map[], db.last) }

  class AlertsHandler {
    const md5: string -> Digest
    var alerts: map<int, Alert>
    var ids: map<string, int>
    var last: nat

    constructor (md5: string -> Digest)
      ensures this.md5 == md5 && Db() == EMPTY
    {
      this.md5 := md5;
      alerts, ids, last := map[], map[], 0;
    }

    ghost function Db(): AlertDb
      reads this
    {
      AlertDb(alerts, ids, last)
    }

    /** `get`. */
    method Get(alertId: int, identifier: string, die: bool) returns (r: Result<Option<Alert>, Error>)
      ensures alertId == 0 && identifier == "" ==> r == Err(ValueError)
      ensures !(alertId == 0 && identifier == "") ==>
        var found := Lookup(Db(), alertId, identifier);
        r == if found.None? && die then Err(NotFound) else Ok(found)
    {
      if alertId == 0 && identifier == "" {
        return Err(ValueError);
      }
      var id := alertId;
      if id == 0 && identifier in ids {
        id := ids[identifier];
      }
      if id != 0 {
        if id in alerts {
          return Ok(Some(alerts[id]));
        }
      }
      return if die then Err(NotFound) else Ok(None);
    }

    /** `alert_raise`. */
    method AlertRaise(r: Report) returns (alert: Alert)
      modifies this
      ensures Db() == Raised(old(Db()), r, md5)
      ensures alert.id in Db().alerts && Db().alerts[alert.id] == alert
    {
      var identifier := ReportIdentifier(r, md5);
      var found := Get(0, identifier, false);
      alert := if found.Ok? && found.value.Some? then found.value.value else BLANK;
      if alert.id != 0 {
        if alert.status == Some(New) {
          alert := alert.(status := Some(Open));
        } else if alert.status == Some(Closed) {
          alert := alert.(status := Some(Reopened));
        }
      } else {
        alert := alert.(status := Some(New), firstOccurrence := r.at);
      }
      alert := alert.(appname := r.appname, category := r.category, message := r.message,
                      publicMessage := r.publicMessage, level := r.level, kind := r.kind);
      alert := alert.(count := alert.count + 1, lastOccurrence := r.at);
      if r.traceback.Some? {
        if |alert.tracebacks| > 5 {
          alert := alert.(tracebacks := alert.tracebacks[1..]);
        }
      }
      alert := alert.(tracebacks := alert.tracebacks + [r.traceback]);
      alert := Save(alert);
    }

    /** `_save`: a new alert gets the next id; returns the alert as stored. */
    method Save(a: Alert) returns (alert: Alert)
      modifies this
      ensures Db() == Saved(old(Db()), a, md5)
      ensures alert.id in Db().alerts && Db().alerts[alert.id] == alert
    {
      alert := a;
      if alert.id == 0 {
        last := last + 1;
        alert := alert.(id := last);
      }
      alerts := alerts[alert.id := alert];
      ids := ids[IdentifierOf(alert, md5) := alert.id];
    }

    /** `delete`. */
    method Delete(alertId: int, identifier: string) returns (r: Result<(), Error>)
      modifies this
      ensures alertId == 0 && identifier == "" ==> r == Err(ValueError) && Db() == old(Db())
      ensures !(alertId == 0 && identifier == "") ==> r == Ok(()) && Db() == Deleted(old(Db()), alertId, identifier)
    {
      if alertId == 0 && identifier == "" {
        return Err(ValueError);
      }
      var id := alertId;
      if id == 0 && identifier in ids {
        id := ids[identifier];
      }
      if id != 0 {
        alerts := alerts - {id};
      }
      return Ok(());
    }

    /** `count`. */
    method Count() returns (n: nat)
      ensures n == |Db().alerts|
    {
      n := |alerts|;
    }

    /** `delete_all`. */
    method DeleteAll()
      modifies this
      ensures Db() == Cleared(old(Db()))
    {
      alerts, ids := map[], map[];
    }

    /** `reset`. */
    method Reset()
      modifies this
      ensures Db() == EMPTY
    {
      DeleteAll();
      last := 0;
    }
  }

  // ---------------------------------------------------------------------------------------
  // Runs, with a ledger of what was raised and removed
  // ---------------------------------------------------------------------------------------

  datatype Op = Raise(report: Report) | Delete(alertId: int, identifier: string) | DeleteAll | Reset

  /** Reports by identifier, oldest first. */
  type History = map<string, seq<Report>>

  /** The database together with a ledger kept beside it: by identifier the reports made since the
      alert was last removed, and the numbers of raises made and of raises that went away. */
  datatype Ledger = Ledger(db: AlertDb, history: History, raises: nat, removed: nat)

  /** Sum of the counts of the alerts with ids up to n. */
  function TotalCount(alerts: map<int, Alert>, n: nat): nat {
    if n == 0 then 0 else TotalCount(alerts, n - 1) + CountOf(alerts, n)
  }

  function CountOf(alerts: map<int, Alert>, i: int): nat {
    if i in alerts then alerts[i].count else 0
  }

  function Apply(l: Ledger, op: Op, md5: string -> Digest): Ledger {
    match op
    case Raise(r) =>
      var s := ReportIdentifier(r, md5);
      Ledger(Raised(l.db, r, md5), l.history[s := ReportsOf(l.history, s) + [r]], l.raises + 1, l.removed)
    case Delete(alertId, identifier) =>
      var gone := Lookup(l.db, alertId, identifier);
      Ledger(Deleted(l.db, alertId, identifier),
             if gone.Some? then l.history - {IdentifierOf(gone.value, md5)} else l.history,
             l.raises,
             l.removed + (if gone.Some? then gone.value.count else 0))
    case DeleteAll => Ledger(Cleared(l.db), map[], l.raises, l.removed + TotalCount(l.db.alerts, l.db.last))
    case Reset => Ledger(EMPTY, map[], l.raises, l.removed + TotalCount(l.db.alerts, l.db.last))
  }

  function Run(ops: seq<Op>, md5: string -> Digest): Ledger {
    if ops == [] then Ledger(EMPTY, map[], 0, 0)
    else Apply(Run(ops[..|ops| - 1], md5), ops[|ops| - 1], md5)
  }

  /** The hashes agree: an alert is stored under its id, which the counter has reached; its
      identifier leads to it; and an identifier entry whose alert is gone leads nowhere. */
  ghost predicate Consistent(db: AlertDb, md5: string -> Digest) {
    && (forall i :: i in db.alerts ==>
          1 <= i <= db.last && db.alerts[i].id == i &&
          IdentifierOf(db.alerts[i], md5) in db.ids && db.ids[IdentifierOf(db.alerts[i], md5)] == i)
    && (forall s :: s in db.ids ==>
          1 <= db.ids[s] <= db.last &&
          (db.ids[s] in db.alerts ==> IdentifierOf(db.alerts[db.ids[s]], md5) == s))
  }

  function ReportsOf(history: History, s: string): seq<Report> {
    if s in history then history[s] else []
  }

  /** The alert a history of reports stands for: first seen with the first report, otherwise as the
      last one says. */
  function Summary(id: int, history: seq<Report>): Alert
    requires history != []
  {
    var last := history[|history| - 1];
    Alert(id, last.appname, last.message, last.publicMessage, last.category, last.kind, last.level, |history|,
          Some(if |history| == 1 then New else Open), history[0].at, last.at, Window(Tracebacks(history)))
  }

  function Tracebacks(history: seq<Report>): seq<Option<string>> {
    seq(|history|, k requires 0 <= k < |history| => history[k].traceback)
  }

  /** A history is made of reports with its identifier. */
  ghost predicate Under(history: seq<Report>, s: string, md5: string -> Digest) {
    history != [] && forall r :: r in history ==> ReportIdentifier(r, md5) == s
  }

  ghost predicate Recorded(a: Alert, history: History, md5: string -> Digest) {
    var s := IdentifierOf(a, md5);
    s in history && history[s] != [] && a == Summary(a.id, history[s])
  }

  /** The stored alerts are the summaries of the histories, one for each. */
  ghost predicate AllRecorded(db: AlertDb, history: History, md5: string -> Digest) {
    && (forall i :: i in db.alerts ==> Recorded(db.alerts[i], history, md5))
    && (forall s :: s in history ==> Under(history[s], s, md5) && s in db.ids && db.ids[s] in db.alerts)
  }

  ghost predicate Balanced(l: Ledger, md5: string -> Digest) {
    && Consistent(l.db, md5)
    && AllRecorded(l.db, l.history, md5)
    && l.raises == l.removed + TotalCount(l.db.alerts, l.db.last)
  }

  /** The traceback list after the raises of a history. */
  function Window(history: seq<Option<string>>): seq<Option<string>> {
    if history == [] then [] else Pushed(Window(history[..|history| - 1]), history[|history| - 1])
  }

  lemma {:induction false} TotalOutside(alerts: map<int, Alert>, other: map<int, Alert>, n: nat, i: int)
    requires forall k :: k != i ==> (k in alerts <==> k in other) && (k in alerts ==> alerts[k] == other[k])
    ensures !(1 <= i <= n) ==> TotalCount(alerts, n) == TotalCount(other, n)
    ensures 1 <= i <= n ==> TotalCount(alerts, n) - CountOf(alerts, i) == TotalCount(other, n) - CountOf(other, i)
  {
    if n > 0 { TotalOutside(alerts, other, n - 1, i); }
  }

  lemma {:induction false} TotalOfNone(n: nat)
    ensures TotalCount(map[], n) == 0
  {
    if n > 0 { TotalOfNone(n - 1); }
  }

  lemma RaiseConsistent(db: AlertDb, r: Report, md5: string -> Digest)
    requires Consistent(db, md5)
    ensures Consistent(Raised(db, r, md5), md5)
  {
    var a := Existing(db, r, md5);
    var s := ReportIdentifier(r, md5);
    var after := Raised(db, r, md5);
    var id := if a.id == 0 then db.last + 1 else a.id;
    assert IdentifierOf(after.alerts[id], md5) == s && after.ids == db.ids[s := id];
    forall i | i in after.alerts
      ensures 1 <= i <= after.last && after.alerts[i].id == i
      ensures IdentifierOf(after.alerts[i], md5) in after.ids && after.ids[IdentifierOf(after.alerts[i], md5)] == i
    {
      if i != id { assert i in db.alerts; }
    }
    forall t | t in after.ids
      ensures 1 <= after.ids[t] <= after.last
      ensures after.ids[t] in after.alerts ==> IdentifierOf(after.alerts[after.ids[t]], md5) == t
    {
      if t != s { assert t in db.ids; }
    }
  }

  /** The id an alert is saved under. */
  function SavedId(db: AlertDb, a: Alert): int { if a.id == 0 then db.last + 1 else a.id }

  lemma RaisedAlert(db: AlertDb, r: Report, md5: string -> Digest)
    requires Consistent(db, md5)
    ensures var a, after := Existing(db, r, md5), Raised(db, r, md5);
      && after.alerts == db.alerts[SavedId(db, a) := Updated(a, r).(id := SavedId(db, a))]
      && after.last == (if a.id == 0 then db.last + 1 else db.last)
      && (a.id == 0 ==> a == BLANK && SavedId(db, a) !in db.alerts)
      && (a.id != 0 ==> a.id in db.alerts && db.alerts[a.id] == a)
  {}

  lemma RaiseTotal(db: AlertDb, r: Report, md5: string -> Digest)
    requires Consistent(db, md5)
    ensures TotalCount(Raised(db, r, md5).alerts, Raised(db, r, md5).last) == TotalCount(db.alerts, db.last) + 1
  {
    var a, after := Existing(db, r, md5), Raised(db, r, md5);
    RaisedAlert(db, r, md5);
    TotalOutside(db.alerts, after.alerts, db.last, SavedId(db, a));
  }

  /** What a raise finds is the summary of the reports made before. */
  lemma ExistingRecorded(l: Ledger, r: Report, md5: string -> Digest)
    requires Balanced(l, md5)
    ensures var a, before := Existing(l.db, r, md5), ReportsOf(l.history, ReportIdentifier(r, md5));
      if a.id == 0 then a == BLANK && before == [] else before != [] && a == Summary(a.id, before)
  {
    RaisedAlert(l.db, r, md5);
    var a := Existing(l.db, r, md5);
    if a.id != 0 { assert Recorded(l.db.alerts[a.id], l.history, md5); }
  }

  /** One more report turns the summary of the reports before into that of all. */
  lemma RecordedStep(a: Alert, r: Report, before: seq<Report>, id: int)
    requires if a.id == 0 then a == BLANK && before == [] else before != [] && a == Summary(a.id, before)
    ensures Updated(a, r).(id := id) == Summary(id, before + [r])
  {
    var ts := Tracebacks(before + [r]);
    assert ts[..|before|] == Tracebacks(before) && ts[|before|] == r.traceback;
    assert Window(ts) == Pushed(Window(Tracebacks(before)), r.traceback);
    assert a.tracebacks == Window(Tracebacks(before)) by { if before == [] { assert Tracebacks(before) == []; } }
  }

  lemma RaiseHistory(l: Ledger, r: Report, md5: string -> Digest)
    requires Balanced(l, md5)
    ensures AllRecorded(Apply(l, Raise(r), md5).db, Apply(l, Raise(r), md5).history, md5)
  {
    var a, s := Existing(l.db, r, md5), ReportIdentifier(r, md5);
    var id, before, after := SavedId(l.db, a), ReportsOf(l.history, s), Apply(l, Raise(r), md5);
    RaisedAlert(l.db, r, md5);
    RaiseConsistent(l.db, r, md5);
    ExistingRecorded(l, r, md5);
    RecordedStep(a, r, before, id);
    forall i | i in after.db.alerts ensures Recorded(after.db.alerts[i], after.history, md5) {
      if i != id {
        assert after.db.alerts[i] == l.db.alerts[i] && Recorded(l.db.alerts[i], l.history, md5);
        assert after.db.ids[IdentifierOf(l.db.alerts[i], md5)] == i;
      }
    }
    forall x | x in after.history
      ensures Under(after.history[x], x, md5) && x in after.db.ids && after.db.ids[x] in after.db.alerts
    {
      if x != s { assert Under(l.history[x], x, md5); } else { UnderMore(before, r, s, md5); }
    }
  }

  lemma UnderMore(before: seq<Report>, r: Report, s: string, md5: string -> Digest)
    requires before != [] ==> Under(before, s, md5)
    requires ReportIdentifier(r, md5) == s
    ensures Under(before + [r], s, md5)
  {}

  lemma RaiseBalanced(l: Ledger, r: Report, md5: string -> Digest)
    requires Balanced(l, md5)
    ensures Balanced(Apply(l, Raise(r), md5), md5)
  {
    RaiseConsistent(l.db, r, md5);
    RaiseTotal(l.db, r, md5);
    RaiseHistory(l, r, md5);
  }

  lemma DeleteBalanced(l: Ledger, alertId: int, identifier: string, md5: string -> Digest)
    requires Balanced(l, md5)
    ensures Balanced(Apply(l, Delete(alertId, identifier), md5), md5)
  {
    var after := Apply(l, Delete(alertId, identifier), md5);
    var id := if alertId != 0 then alertId else if identifier in l.db.ids then l.db.ids[identifier] else 0;
    if id != 0 {
      DeletedTotal(l.db, id);
      assert after.db.alerts == l.db.alerts - {id};
      if id !in l.db.alerts { assert after.db.alerts == l.db.alerts; }
    }
    DeleteHistory(l, alertId, identifier, md5);
  }

  lemma DeleteHistory(l: Ledger, alertId: int, identifier: string, md5: string -> Digest)
    requires Balanced(l, md5)
    ensures var after := Apply(l, Delete(alertId, identifier), md5); AllRecorded(after.db, after.history, md5)
  {
    var after := Apply(l, Delete(alertId, identifier), md5);
    var gone := Lookup(l.db, alertId, identifier);
    if gone.Some? {
      assert after.db.alerts == l.db.alerts - {gone.value.id};
      forall i | i in after.db.alerts ensures Recorded(after.db.alerts[i], after.history, md5) {
        assert Recorded(l.db.alerts[i], l.history, md5);
        assert l.db.ids[IdentifierOf(l.db.alerts[i], md5)] == i;
      }
      forall s | s in after.history
        ensures Under(after.history[s], s, md5) && s in after.db.ids && after.db.ids[s] in after.db.alerts
      {
        assert IdentifierOf(l.db.alerts[l.db.ids[s]], md5) == s;
      }
    } else {
      assert after.db.alerts == l.db.alerts;
    }
  }

  lemma DeletedTotal(db: AlertDb, id: int)
    requires id in db.alerts ==> 1 <= id <= db.last
    ensures TotalCount(db.alerts, db.last) == TotalCount(db.alerts - {id}, db.last) + CountOf(db.alerts, id)
  {
    TotalOutside(db.alerts, db.alerts - {id}, db.last, id);
    if id !in db.alerts { assert db.alerts - {id} == db.alerts; }
  }

  lemma ApplyBalanced(l: Ledger, op: Op, md5: string -> Digest)
    requires Balanced(l, md5)
    ensures Balanced(Apply(l, op, md5), md5)
  {
    match op
    case Raise(r) => RaiseBalanced(l, r, md5);
    case Delete(alertId, identifier) => DeleteBalanced(l, alertId, identifier, md5);
    case DeleteAll => TotalOfNone(l.db.last);
    case Reset =>
  }

  /** Every run keeps the books balanced. */
  lemma {:induction false} RunBalanced(ops: seq<Op>, md5: string -> Digest)
    ensures Balanced(Run(ops, md5), md5)
  {
    if ops != [] {
      RunBalanced(ops[..|ops| - 1], md5);
      ApplyBalanced(Run(ops[..|ops| - 1], md5), ops[|ops| - 1], md5);
    }
  }

  /** In every reachable state an identifier finds exactly the stored alert that has it: stored alerts
      have distinct identifiers, and an entry left behind by a deletion never leads to another alert. */
  lemma FoundByIdentifier(ops: seq<Op>, md5: string -> Digest, s: string, a: Alert)
    ensures var db := Run(ops, md5).db;
      Lookup(db, 0, s) == Some(a) <==> exists i :: i in db.alerts && db.alerts[i] == a && IdentifierOf(a, md5) == s
  {
    RunBalanced(ops, md5);
    FoundInConsistent(Run(ops, md5).db, md5, s, a);
  }

  lemma FoundInConsistent(db: AlertDb, md5: string -> Digest, s: string, a: Alert)
    requires Consistent(db, md5)
    ensures Lookup(db, 0, s) == Some(a)
       <==> exists i :: i in db.alerts && db.alerts[i] == a && IdentifierOf(a, md5) == s
  {
    if i :| i in db.alerts && db.alerts[i] == a && IdentifierOf(a, md5) == s {
      assert db.ids[s] == i;
    }
    if Lookup(db, 0, s) == Some(a) {
      assert db.ids[s] in db.alerts && db.alerts[db.ids[s]] == a;
    }
  }

  /** A non-zero id finds exactly the alert stored under it, whatever the identifier given beside it. */
  lemma FoundById(ops: seq<Op>, md5: string -> Digest, i: int, s: string, a: Alert)
    requires i != 0
    ensures var db := Run(ops, md5).db;
      Lookup(db, i, s) == Some(a) <==> i in db.alerts && db.alerts[i] == a && a.id == i
  {
    RunBalanced(ops, md5);
  }

  /** From one state to a later one the counter has not gone down, and if the id is in use it was, for
      the same identifier. */
  ghost predicate Continues(before: AlertDb, after: AlertDb, i: int, md5: string -> Digest) {
    before.last <= after.last &&
    (i in after.alerts ==>
      i in before.alerts && IdentifierOf(after.alerts[i], md5) == IdentifierOf(before.alerts[i], md5))
  }

  /** Without a reset an id handed out stands for one identifier and is not used again once its alert
      is gone; deleting all alerts does not change that. */
  lemma {:induction false} IdsNotReused(ops: seq<Op>, n: nat, md5: string -> Digest, i: int)
    requires n <= |ops| && Reset !in ops[n..] && i <= Run(ops[..n], md5).db.last
    ensures Continues(Run(ops[..n], md5).db, Run(ops, md5).db, i, md5)
  {
    if n == |ops| {
      assert ops[..n] == ops;
    } else {
      var front, op := ops[..|ops| - 1], ops[|ops| - 1];
      assert front[..n] == ops[..n] && front[n..] == ops[n..][..|ops| - 1 - n] && op == ops[n..][|ops| - 1 - n];
      IdsNotReused(front, n, md5, i);
      RunBalanced(front, md5);
      ApplyKeepsIds(Run(front, md5), op, md5, i);
      ContinuesOn(Run(ops[..n], md5).db, Run(front, md5).db, Run(ops, md5).db, i, md5);
    }
  }

  lemma ContinuesOn(a: AlertDb, b: AlertDb, c: AlertDb, i: int, md5: string -> Digest)
    requires Continues(a, b, i, md5) && Continues(b, c, i, md5)
    ensures Continues(a, c, i, md5)
  {}

  lemma ApplyKeepsIds(l: Ledger, op: Op, md5: string -> Digest, i: int)
    requires Balanced(l, md5) && op != Reset && i <= l.db.last
    ensures Continues(l.db, Apply(l, op, md5).db, i, md5)
  {
    if op.Raise? {
      RaisedAlert(l.db, op.report, md5);
      var a := Existing(l.db, op.report, md5);
      if a.id != 0 { assert IdentifierOf(a, md5) == ReportIdentifier(op.report, md5); }
    }
  }

  /** A new alert takes the next id, deleting keeps the counter, and only `reset` starts it again. */
  lemma CounterAfter(l: Ledger, op: Op, md5: string -> Digest)
    requires Balanced(l, md5)
    ensures op == Reset ==> Apply(l, op, md5).db.last == 0
    ensures op.Delete? || op == DeleteAll ==> Apply(l, op, md5).db.last == l.db.last
    ensures op.Raise? ==>
      var known := Lookup(l.db, 0, ReportIdentifier(op.report, md5)).Some?;
      Apply(l, op, md5).db.last == l.db.last + (if known then 0 else 1)
  {
    if op.Raise? { RaiseCounter(l.db, op.report, md5); }
  }

  lemma RaiseCounter(db: AlertDb, r: Report, md5: string -> Digest)
    requires Consistent(db, md5)
    ensures Raised(db, r, md5).last == db.last + (if Lookup(db, 0, ReportIdentifier(r, md5)).Some? then 0 else 1)
  {
    RaisedAlert(db, r, md5);
  }

  lemma DistinctIdentifiers(ops: seq<Op>, md5: string -> Digest, i: int, j: int)
    requires i in Run(ops, md5).db.alerts && j in Run(ops, md5).db.alerts && i != j
    ensures IdentifierOf(Run(ops, md5).db.alerts[i], md5) != IdentifierOf(Run(ops, md5).db.alerts[j], md5)
    ensures Run(ops, md5).db.alerts[i].id == i && 1 <= i <= Run(ops, md5).db.last
  {
    RunBalanced(ops, md5);
  }

  /** The counts of the stored alerts plus the raises removed with deleted ones are all raises made. */
  lemma EveryRaiseCounted(ops: seq<Op>, md5: string -> Digest)
    ensures var l := Run(ops, md5);
      l.raises == TotalCount(l.db.alerts, l.db.last) + l.removed && l.raises == RaiseCount(ops)
  {
    RunBalanced(ops, md5);
    RaisesAreCounted(ops, md5);
  }

  function RaiseCount(ops: seq<Op>): nat {
    if ops == [] then 0 else RaiseCount(ops[..|ops| - 1]) + (if ops[|ops| - 1].Raise? then 1 else 0)
  }

  lemma {:induction false} RaisesAreCounted(ops: seq<Op>, md5: string -> Digest)
    ensures Run(ops, md5).raises == RaiseCount(ops)
  {
    if ops != [] { RaisesAreCounted(ops[..|ops| - 1], md5); }
  }

  /** In every reachable state an identifier finds the summary of the reports made under it since its
      alert was last removed, and nothing when there are none. */
  lemma AlertIsItsReports(ops: seq<Op>, md5: string -> Digest, s: string)
    ensures var l, found := Run(ops, md5), Lookup(Run(ops, md5).db, 0, s);
      if s in l.history then
        Under(l.history[s], s, md5) && found.Some? && found.value == Summary(found.value.id, l.history[s])
      else found.None?
  {
    RunBalanced(ops, md5);
    FoundIsSummary(Run(ops, md5), md5, s);
  }

  lemma FoundIsSummary(l: Ledger, md5: string -> Digest, s: string)
    requires Balanced(l, md5)
    ensures var found := Lookup(l.db, 0, s);
      found.Some? <==> s in l.history
    ensures s in l.history ==> Under(l.history[s], s, md5)
    ensures s in l.history ==> Lookup(l.db, 0, s).value == Summary(l.db.ids[s], l.history[s])
  {
    var found := Lookup(l.db, 0, s);
    if found.Some? { assert Recorded(found.value, l.history, md5); }
  }

  /** A stored alert is new exactly when it was raised once, and open otherwise. */
  lemma StatusFollowsCount(ops: seq<Op>, md5: string -> Digest, i: int)
    requires i in Run(ops, md5).db.alerts
    ensures var a := Run(ops, md5).db.alerts[i];
      a.count >= 1 && (a.status == Some(New) <==> a.count == 1) && (a.status == Some(Open) <==> a.count > 1)
  {
    RunBalanced(ops, md5);
    assert Recorded(Run(ops, md5).db.alerts[i], Run(ops, md5).history, md5);
  }

  function Falsy(history: seq<Option<string>>): nat {
    if history == [] then 0 else Falsy(history[..|history| - 1]) + (if history[|history| - 1].None? then 1 else 0)
  }

  function Late(history: seq<Option<string>>): seq<Option<string>> {
    if |history| <= 6 then [] else history[6..]
  }

  /** How many entries the list keeps: a raise after the sixth that carries a traceback adds none. */
  function Kept(history: seq<Option<string>>): nat {
    if history == [] then 0
    else
      var front, t := history[..|history| - 1], history[|history| - 1];
      Kept(front) + (if |front| >= 6 && t.Some? then 0 else 1)
  }

  /** That is six, and one more for every raise after the sixth that came without a traceback. */
  lemma {:induction false} KeptCount(history: seq<Option<string>>)
    ensures Kept(history) == (if |history| < 6 then |history| else 6) + Falsy(Late(history))
  {
    if history != [] {
      var front, t := history[..|history| - 1], history[|history| - 1];
      KeptCount(front);
      LateStep(front, t);
      assert history == front + [t];
    }
  }

  lemma LateStep(front: seq<Option<string>>, t: Option<string>)
    ensures Falsy(Late(front + [t])) == Falsy(Late(front)) + (if |front| >= 6 && t.None? then 1 else 0)
  {
    var history := front + [t];
    if |front| < 6 {
      assert Late(front) == [] && Late(history) == [];
    } else {
      assert Late(history) == Late(front) + [t];
      assert Late(history)[..|Late(front)|] == Late(front);
    }
  }

  lemma {:induction false} KeptBounds(history: seq<Option<string>>)
    ensures Kept(history) <= |history| && (|history| >= 6 <==> Kept(history) >= 6)
    ensures |history| <= 6 ==> Kept(history) == |history|
  {
    if history != [] { KeptBounds(history[..|history| - 1]); }
  }

  /** The list kept is the end of the history. */
  lemma {:induction false} WindowIsSuffix(history: seq<Option<string>>)
    ensures Kept(history) <= |history| && Window(history) == history[|history| - Kept(history)..]
  {
    if history != [] {
      var front, t := history[..|history| - 1], history[|history| - 1];
      WindowIsSuffix(front);
      KeptBounds(front);
      WindowStep(front, t, Kept(front), Kept(history));
      assert history == front + [t];
    }
  }

  lemma WindowStep(front: seq<Option<string>>, t: Option<string>, k: nat, next: nat)
    requires k <= |front| && Window(front) == front[|front| - k..]
    requires |front| >= 6 <==> k >= 6
    requires next == k + (if |front| >= 6 && t.Some? then 0 else 1)
    ensures next <= |front + [t]| && Window(front + [t]) == (front + [t])[|front + [t]| - next..]
  {
    assert (front + [t])[..|front|] == front;
    PushedSuffix(front, k, t);
  }

  lemma PushedSuffix(front: seq<Option<string>>, k: nat, t: Option<string>)
    requires k <= |front|
    ensures t.Some? && k > 5 ==> Pushed(front[|front| - k..], t) == (front + [t])[|front| - k + 1..]
    ensures !(t.Some? && k > 5) ==> Pushed(front[|front| - k..], t) == (front + [t])[|front| - k..]
  {
    var tail := front[|front| - k..];
    if t.Some? && k > 5 {
      assert tail[1..] == front[|front| - k + 1..];
    }
  }

  lemma {:induction false} FalsyNone(history: seq<Option<string>>)
    ensures Falsy(history) == 0 <==> forall k :: 0 <= k < |history| ==> history[k].Some?
  {
    if history != [] {
      var front := history[..|history| - 1];
      FalsyNone(front);
      assert forall k :: 0 <= k < |front| ==> front[k] == history[k];
    }
  }

  function LastSix(history: seq<Option<string>>): seq<Option<string>> {
    if |history| <= 6 then history else history[|history| - 6..]
  }

  /** The kept tracebacks are the last six exactly when every raise after the sixth carried one. */
  lemma LastSixKept(ops: seq<Op>, md5: string -> Digest, i: int)
    requires i in Run(ops, md5).db.alerts
    ensures var l, a := Run(ops, md5), Run(ops, md5).db.alerts[i];
      var history := ReportsOf(l.history, IdentifierOf(a, md5));
      a.count == |history| &&
      (a.tracebacks == LastSix(Tracebacks(history)) <==> forall k :: 6 <= k < |history| ==> history[k].traceback.Some?)
  {
    RunBalanced(ops, md5);
    var l, a := Run(ops, md5), Run(ops, md5).db.alerts[i];
    assert Recorded(a, l.history, md5);
    var history := ReportsOf(l.history, IdentifierOf(a, md5));
    LastSixExactly(Tracebacks(history));
    assert forall k :: 0 <= k < |history| ==> Tracebacks(history)[k] == history[k].traceback;
  }

  lemma LastSixExactly(history: seq<Option<string>>)
    ensures Window(history) == LastSix(history) <==> forall k :: 6 <= k < |history| ==> history[k].Some?
  {
    WindowIsSuffix(history);
    KeptCount(history);
    FalsyNone(Late(history));
    assert |Window(history)| == Kept(history);
    LateAt(history);
  }

  lemma LateAt(history: seq<Option<string>>)
    ensures (forall k :: 6 <= k < |history| ==> history[k].Some?)
       <==> forall k :: 0 <= k < |Late(history)| ==> Late(history)[k].Some?
  {
    if |history| > 6 {
      assert forall k :: 0 <= k < |Late(history)| ==> Late(history)[k] == history[k + 6];
      assert forall k :: 6 <= k < |history| ==> history[k] == Late(history)[k - 6];
    }
  }

  /** There is one stored alert for each identifier reported since its alert was last removed. */
  lemma OneAlertEach(ops: seq<Op>, md5: string -> Digest)
    ensures |Run(ops, md5).db.alerts| == |Run(ops, md5).history|
  {
    var l := Run(ops, md5);
    RunBalanced(ops, md5);
    var ident: map<int, string> := map i | i in l.db.alerts :: IdentifierOf(l.db.alerts[i], md5);
    forall i | i in ident ensures ident[i] in l.history {
      assert Recorded(l.db.alerts[i], l.history, md5);
    }
    forall s | s in l.history ensures s in Image(ident) {
      assert ident[l.db.ids[s]] == s;
    }
    assert Image(ident) == l.history.Keys && ident.Keys == l.db.alerts.Keys;
    SameSize(ident);
  }

  ghost function Image(m: map<int, string>): set<string> { set i | i in m :: m[i] }

  lemma {:induction false} SameSize(m: map<int, string>)
    requires forall i, j :: i in m && j in m && i != j ==> m[i] != m[j]
    ensures |m.Keys| == |Image(m)|
  {
    if m.Keys != {} {
      SomeKey(m.Keys);
      var i :| i in m.Keys;
      var rest := m - {i};
      SameSize(rest);
      assert rest.Keys == m.Keys - {i};
      forall s | s in Image(m) - {m[i]} ensures s in Image(rest) {
        var j :| j in m && m[j] == s;
        assert j in rest && rest[j] == s;
      }
      forall s | s in Image(rest) ensures s in Image(m) - {m[i]} {
        var j :| j in rest && rest[j] == s;
        assert j in m && m[j] == s;
      }
      assert Image(rest) == Image(m) - {m[i]};
    } else {
      assert Image(m) == {};
    }
  }

  lemma SomeKey(s: set<int>)
    requires s != {}
    ensures exists i :: i in s
  {
    assert (forall i :: i !in s) ==> s == {};
  }
}
