/**
 Quarantined downloads: staging, scanning, review and retention of rows that may share the same staged bytes,
 stored once under their hash.
 */
module Quarantine {
  import opened Wrappers
  import opened PolicyEngine

  type FileId = nat
  type SessionRef = nat
  type UserRef = nat
  type Hash = nat
  type Time = int

  datatype FileStatus = PENDING_SCAN | QUARANTINED | RELEASED | REJECTED | DELETED

  datatype ScannerStatus = PENDING | SCANNING | CLEAN | INFECTED | ERROR

  /** `stored` tells whether a storage id is set; the bytes are then under the row's hash. */
  datatype FileRow = FileRow(
    session: SessionRef,
    hash: Hash,
    stored: bool,
    scanner: ScannerStatus,
    action: Option<FileAction>,
    status: FileStatus,
    createdAt: Time,
    reviewedAt: Option<Time>,
    reviewer: Option<UserRef>)

  /** `open` are the files some open incident refers to. */
  datatype Vault = Vault(files: map<FileId, FileRow>, disk: set<Hash>, open: set<FileId>)

  const EMPTY: Vault := Vault(map[], {}, {})

  datatype ScanOutcome = ScanFailed | Infected | Clean

  datatype Windows = Windows(released: Time, quarantined: Time)

  datatype Event =
    | StageOversized(f: FileId, session: SessionRef, hash: Hash, now: Time)
    | Stage(f: FileId, session: SessionRef, hash: Hash, rules: seq<LiveRule>, input: FileInput, scan: ScanOutcome, now: Time)
    | Release(f: FileId, reviewer: UserRef, now: Time)
    | Reject(f: FileId, reviewer: UserRef, now: Time)
    | OpenIncident(f: FileId)
    | CloseIncidents(f: FileId)
    | Retain(order: seq<FileId>, windows: Windows, now: Time, failing: set<Hash>)

  predicate Live(r: FileRow) {
    r.status != DELETED
  }

  // -- Staging and scanning ----------------------------------------------------------------------------

  predicate SeenBefore(v: Vault, session: SessionRef, hash: Hash) {
    exists f <- v.files :: v.files[f].session == session && v.files[f].hash == hash
  }

  /** The final status of a scanned row; every doubtful outcome stays in quarantine. */
  function Finalized(r: FileRow, scan: ScanOutcome): FileRow {
    match scan
    case ScanFailed => r.(scanner := ERROR, status := QUARANTINED)
    case Infected => r.(scanner := INFECTED, status := QUARANTINED)
    case Clean =>
      r.(scanner := CLEAN,
         status := if r.action == Some(DENY) then REJECTED else if r.action == Some(AUTO_RELEASE) then RELEASED else QUARANTINED)
  }

  function OversizedRow(session: SessionRef, hash: Hash, now: Time): FileRow {
    FileRow(session, hash, false, ERROR, None, QUARANTINED, now, None, None)
  }

  function StagedRow(session: SessionRef, hash: Hash, action: FileAction, now: Time): FileRow {
    FileRow(session, hash, true, PENDING, Some(action), PENDING_SCAN, now, None, None)
  }

  function Staged(v: Vault, f: FileId, row: FileRow, scan: ScanOutcome): Vault {
    Vault(v.files[f := Finalized(row, scan)], v.disk + {row.hash}, if scan == Infected then v.open + {f} else v.open)
  }

  function Reviewed(v: Vault, f: FileId, status: FileStatus, reviewer: UserRef, now: Time): Vault {
    if f in v.files && v.files[f].status == QUARANTINED
    then v.(files := v.files[f := v.files[f].(status := status, reviewedAt := Some(now), reviewer := Some(reviewer))])
    else v
  }

  // -- Retention ---------------------------------------------------------------------------------------

  function EffectiveAt(r: FileRow): Time {
    if r.reviewedAt.Some? then r.reviewedAt.value else r.createdAt
  }

  predicate Expired(r: FileRow, windows: Windows, now: Time) {
    || (r.status == RELEASED && EffectiveAt(r) < now - windows.released)
    || (r.status in {QUARANTINED, REJECTED} && EffectiveAt(r) < now - windows.quarantined)
  }

  predicate OtherLiveRow(files: map<FileId, FileRow>, hash: Hash, f: FileId) {
    exists g <- files :: g != f && files[g].hash == hash && Live(files[g])
  }

  /** The outcome of one deletion: nothing, or the row is finished and perhaps its bytes are removed. */
  predicate MayDelete(v: Vault, f: FileId, failing: set<Hash>)
    requires f in v.files
  {
    f !in v.open && (v.files[f].stored && !OtherLiveRow(v.files, v.files[f].hash, f) ==> v.files[f].hash !in failing)
  }

  function DeleteOne(v: Vault, f: FileId, failing: set<Hash>): Vault
    requires f in v.files
  {
    if !MayDelete(v, f, failing) then v
    else
      var r := v.files[f];
      Vault(v.files[f := r.(status := DELETED, stored := false)],
            if r.stored && !OtherLiveRow(v.files, r.hash, f) then v.disk - {r.hash} else v.disk,
            v.open)
  }

  /** The retention loop over the rows found expired, each deletion seeing the ones before it. */
  function DeleteEach(v: Vault, order: seq<FileId>, failing: set<Hash>): (w: Vault)
    requires forall f <- order :: f in v.files
    ensures w.files.Keys == v.files.Keys
  {
    if order == [] then v
    else DeleteOne(DeleteEach(v, order[..|order| - 1], failing), order[|order| - 1], failing)
  }

  /** The order lists exactly the expired rows, once each. */
  ghost predicate IsExpiredQuery(v: Vault, order: seq<FileId>, windows: Windows, now: Time) {
    && (forall f :: f in order <==> f in v.files && Expired(v.files[f], windows, now))
    && Distinct(order)
  }

  // -- Runs --------------------------------------------------------------------------------------------

  ghost function Apply(v: Vault, e: Event, urlHost: string -> string): Vault {
    match e
    case StageOversized(f, session, hash, now) =>
      if f in v.files then v else v.(files := v.files[f := OversizedRow(session, hash, now)])
    case Stage(f, session, hash, rules, input, scan, now) =>
      if f in v.files || SeenBefore(v, session, hash) then v
      else Staged(v, f, StagedRow(session, hash, DecidedAction(Listed(rules), input, urlHost), now), scan)
    case Release(f, reviewer, now) => Reviewed(v, f, RELEASED, reviewer, now)
    case Reject(f, reviewer, now) => Reviewed(v, f, REJECTED, reviewer, now)
    case OpenIncident(f) => v.(open := v.open + {f})
    case CloseIncidents(f) => v.(open := v.open - {f})
    case Retain(order, windows, now, failing) =>
      if IsExpiredQuery(v, order, windows, now) then DeleteEach(v, order, failing) else v
  }

  ghost function Run(events: seq<Event>, urlHost: string -> string): Vault {
    if events == [] then EMPTY else Apply(Run(events[..|events| - 1], urlHost), events[|events| - 1], urlHost)
  }

  // -- The store agrees with the rows ------------------------------------------------------------------

  predicate Refers(r: FileRow, h: Hash) {
    Live(r) && r.stored && r.hash == h
  }

  /** Bytes are on disk exactly when some live row refers to them. */
  ghost predicate Agrees(v: Vault) {
    forall h :: h in v.disk <==> exists f <- v.files :: Refers(v.files[f], h)
  }

  /** `isLabel` tells the hashes of size-rejection labels from those of contents. */
  ghost predicate Kept(v: Vault, isLabel: Hash -> bool) {
    && (forall f <- v.files :: v.files[f].action.None? <==> isLabel(v.files[f].hash))
    && (forall f <- v.files :: v.files[f].stored <==> Live(v.files[f]) && v.files[f].action.Some?)
    && (forall f, g | f in v.files && g in v.files && v.files[f].action.Some? && v.files[g].action.Some?
                      && v.files[f].session == v.files[g].session && v.files[f].hash == v.files[g].hash :: f == g)
  }

  /** No content hashes like a label. */
  predicate Apart(e: Event, isLabel: Hash -> bool) {
    (e.StageOversized? ==> isLabel(e.hash)) && (e.Stage? ==> !isLabel(e.hash))
  }

  lemma StageKeeps(v: Vault, f: FileId, row: FileRow, scan: ScanOutcome, isLabel: Hash -> bool)
    requires Kept(v, isLabel) && Agrees(v)
    requires f !in v.files && !SeenBefore(v, row.session, row.hash)
    requires row.stored && Live(row) && row.action.Some? && !isLabel(row.hash)
    ensures Kept(Staged(v, f, row, scan), isLabel) && Agrees(Staged(v, f, row, scan))
  {
    var w := Staged(v, f, row, scan);
    assert Refers(w.files[f], row.hash);
    forall h ensures h in w.disk <==> exists g <- w.files :: Refers(w.files[g], h) {
      if h in v.disk {
        var g :| g in v.files && Refers(v.files[g], h);
        assert g in w.files && Refers(w.files[g], h);
      }
    }
  }

  lemma DeleteOneKeeps(v: Vault, f: FileId, failing: set<Hash>, isLabel: Hash -> bool)
    requires Kept(v, isLabel) && Agrees(v) && f in v.files
    ensures Kept(DeleteOne(v, f, failing), isLabel) && Agrees(DeleteOne(v, f, failing))
  {
    var w := DeleteOne(v, f, failing);
    if MayDelete(v, f, failing) {
      var r := v.files[f];
      forall h ensures h in w.disk <==> exists g <- w.files :: Refers(w.files[g], h) {
        if g :| g in v.files && g != f && Refers(v.files[g], h) {
          assert g in w.files && Refers(w.files[g], h);
        }
        if r.stored && h == r.hash && OtherLiveRow(v.files, h, f) {
          var g :| g in v.files && g != f && v.files[g].hash == h && Live(v.files[g]);
          assert Refers(v.files[g], h) && Refers(w.files[g], h);
        }
      }
    }
  }

  lemma {:induction false} DeleteEachKeeps(v: Vault, order: seq<FileId>, failing: set<Hash>, isLabel: Hash -> bool)
    requires Kept(v, isLabel) && Agrees(v) && forall f <- order :: f in v.files
    ensures Kept(DeleteEach(v, order, failing), isLabel) && Agrees(DeleteEach(v, order, failing))
  {
    if order != [] {
      DeleteEachKeeps(v, order[..|order| - 1], failing, isLabel);
      DeleteOneKeeps(DeleteEach(v, order[..|order| - 1], failing), order[|order| - 1], failing, isLabel);
    }
  }

  lemma ReviewKeeps(v: Vault, f: FileId, status: FileStatus, reviewer: UserRef, now: Time, isLabel: Hash -> bool)
    requires Kept(v, isLabel) && Agrees(v) && status != DELETED
    ensures Kept(Reviewed(v, f, status, reviewer, now), isLabel) && Agrees(Reviewed(v, f, status, reviewer, now))
  {
    SameReferences(v, Reviewed(v, f, status, reviewer, now));
  }

  lemma SameReferences(v: Vault, w: Vault)
    requires Agrees(v) && v.disk == w.disk && v.files.Keys <= w.files.Keys
    requires forall f <- v.files, h :: Refers(v.files[f], h) <==> Refers(w.files[f], h)
    requires forall f <- w.files :: f !in v.files ==> !w.files[f].stored
    ensures Agrees(w)
  {
    forall h ensures h in w.disk <==> exists f <- w.files :: Refers(w.files[f], h) {
      if f :| f in v.files && Refers(v.files[f], h) {
        assert f in w.files && Refers(w.files[f], h);
      }
      if f :| f in w.files && Refers(w.files[f], h) {
        assert f in v.files && Refers(v.files[f], h);
      }
    }
  }

  lemma StepKeeps(v: Vault, e: Event, urlHost: string -> string, isLabel: Hash -> bool)
    requires Kept(v, isLabel) && Agrees(v) && Apart(e, isLabel)
    ensures Kept(Apply(v, e, urlHost), isLabel) && Agrees(Apply(v, e, urlHost))
  {
    var w := Apply(v, e, urlHost);
    match e
    case StageOversized(f, session, hash, now) =>
      SameReferences(v, w);
    case Stage(f, session, hash, rules, input, scan, now) =>
      if f !in v.files && !SeenBefore(v, session, hash) {
        StageKeeps(v, f, StagedRow(session, hash, DecidedAction(Listed(rules), input, urlHost), now), scan, isLabel);
      }
    case Release(f, reviewer, now) =>
      ReviewKeeps(v, f, RELEASED, reviewer, now, isLabel);
    case Reject(f, reviewer, now) =>
      ReviewKeeps(v, f, REJECTED, reviewer, now, isLabel);
    case OpenIncident(f) =>
      SameReferences(v, w);
    case CloseIncidents(f) =>
      SameReferences(v, w);
    case Retain(order, windows, now, failing) =>
      if IsExpiredQuery(v, order, windows, now) {
        DeleteEachKeeps(v, order, failing, isLabel);
      }
  }

  /**
   After any sequence of staging, scanning, review, incident and retention steps, removals allowed to fail,
   a staged file exists exactly when some live row with a storage id carries its hash.
   */
  lemma {:induction false} StoreAgreesWithRows(events: seq<Event>, urlHost: string -> string, isLabel: Hash -> bool)
    requires forall e <- events :: Apart(e, isLabel)
    ensures Kept(Run(events, urlHost), isLabel) && Agrees(Run(events, urlHost))
  {
    if events != [] {
      StoreAgreesWithRows(events[..|events| - 1], urlHost, isLabel);
      StepKeeps(Run(events[..|events| - 1], urlHost), events[|events| - 1], urlHost, isLabel);
    }
  }

  /** A released row's bytes are there to fetch, unless the file was never fetched for being too large. */
  lemma ReleasedIsServable(events: seq<Event>, urlHost: string -> string, isLabel: Hash -> bool, f: FileId)
    requires forall e <- events :: Apart(e, isLabel)
    requires var v := Run(events, urlHost); f in v.files && v.files[f].status == RELEASED
    ensures var v := Run(events, urlHost);
            v.files[f].stored && v.files[f].hash in v.disk <==> v.files[f].action.Some?
  {
    StoreAgreesWithRows(events, urlHost, isLabel);
    var v := Run(events, urlHost);
    assert v.files[f].stored ==> Refers(v.files[f], v.files[f].hash);
  }

  /** A file refused for its size and released by a reviewer all the same. */
  lemma ReleasedWithoutBytes(urlHost: string -> string)
    ensures var v := Run([StageOversized(1, 7, 5, 0), Release(1, 9, 1)], urlHost);
            1 in v.files && v.files[1].status == RELEASED && !v.files[1].stored && v.disk == {}
  {
    var a, b := [StageOversized(1, 7, 5, 0)], [StageOversized(1, 7, 5, 0), Release(1, 9, 1)];
    assert a[..0] == [] && b[..1] == a;
    assert Run(a, urlHost) == Apply(EMPTY, a[0], urlHost);
  }

  // -- Without the assumption on hashes ----------------------------------------------------------------

  ghost predicate BytesThere(v: Vault) {
    forall f <- v.files :: v.files[f].stored ==> Live(v.files[f]) && v.files[f].hash in v.disk
  }

  lemma DeleteOneKeepsBytes(v: Vault, f: FileId, failing: set<Hash>)
    requires BytesThere(v) && f in v.files
    ensures BytesThere(DeleteOne(v, f, failing))
  {
    var w := DeleteOne(v, f, failing);
    forall g <- w.files | w.files[g].stored ensures w.files[g].hash in w.disk {
      assert g != f && MayDelete(v, f, failing) ==> v.files[g].hash == v.files[f].hash ==> OtherLiveRow(v.files, v.files[f].hash, f);
    }
  }

  lemma {:induction false} DeleteEachKeepsBytes(v: Vault, order: seq<FileId>, failing: set<Hash>)
    requires BytesThere(v) && forall f <- order :: f in v.files
    ensures BytesThere(DeleteEach(v, order, failing))
  {
    if order != [] {
      DeleteEachKeepsBytes(v, order[..|order| - 1], failing);
      DeleteOneKeepsBytes(DeleteEach(v, order[..|order| - 1], failing), order[|order| - 1], failing);
    }
  }

  /** Whatever hashes collide, no step removes bytes that a row still refers to. */
  lemma {:induction false} BytesOutliveRows(events: seq<Event>, urlHost: string -> string)
    ensures BytesThere(Run(events, urlHost))
  {
    if events != [] {
      var e := events[|events| - 1];
      var v := Run(events[..|events| - 1], urlHost);
      BytesOutliveRows(events[..|events| - 1], urlHost);
      if e.Retain? && IsExpiredQuery(v, e.order, e.windows, e.now) {
        DeleteEachKeepsBytes(v, e.order, e.failing);
      }
    }
  }

  // -- One retention cycle -----------------------------------------------------------------------------

  /** Rows under an open incident, and rows not listed, are left as they are. */
  lemma {:induction false} DeleteEachSpares(v: Vault, order: seq<FileId>, failing: set<Hash>, f: FileId)
    requires (forall g <- order :: g in v.files) && f in v.files
    ensures var w := DeleteEach(v, order, failing);
            && w.open == v.open
            && (f in v.open || f !in order ==> w.files[f] == v.files[f])
            && (w.files[f] == v.files[f] || w.files[f] == v.files[f].(status := DELETED, stored := false))
  {
    if order != [] {
      DeleteEachSpares(v, order[..|order| - 1], failing, f);
      assert order == order[..|order| - 1] + [order[|order| - 1]];
    }
  }

  /** A file with an open incident keeps its row and its bytes through any retention cycle. */
  lemma IncidentKeepsBytes(v: Vault, order: seq<FileId>, windows: Windows, now: Time, failing: set<Hash>,
                           urlHost: string -> string, f: FileId)
    requires BytesThere(v) && f in v.files && f in v.open
    ensures var w := Apply(v, Retain(order, windows, now, failing), urlHost);
            && f in w.files && w.files[f] == v.files[f]
            && (v.files[f].stored ==> v.files[f].hash in w.disk)
  {
    if IsExpiredQuery(v, order, windows, now) {
      DeleteEachSpares(v, order, failing, f);
      DeleteEachKeepsBytes(v, order, failing);
    }
  }

  /** Another live row with the same bytes that the loop has not reached, or will not delete, by turn `n`. */
  ghost predicate Sharer(v: Vault, order: seq<FileId>, n: nat, f: FileId, g: FileId)
    requires n <= |order| && f in v.files
  {
    && g in v.files && g != f && v.files[g].hash == v.files[f].hash && Live(v.files[g])
    && (g !in order[..n] || g in v.open)
  }

  /** What one cycle does to the row at turn `n`, in terms of the state before the cycle. */
  ghost predicate IsDeletedAt(v: Vault, order: seq<FileId>, n: nat, failing: set<Hash>)
    requires n < |order| && order[n] in v.files
  {
    var f := order[n];
    f !in v.open && (v.files[f].hash in failing && v.files[f].stored ==> exists g :: Sharer(v, order, n, f, g))
  }

  lemma TurnSeesSharers(v: Vault, order: seq<FileId>, n: nat, failing: set<Hash>)
    requires n < |order| && Distinct(order) && forall f <- order :: f in v.files
    requires BytesThere(v) && v.files[order[n]].stored && v.files[order[n]].hash in failing
    ensures var f := order[n];
            OtherLiveRow(DeleteEach(v, order[..n], failing).files, v.files[f].hash, f) <==> exists g :: Sharer(v, order, n, f, g)
    decreases n, 0
  {
    var f := order[n];
    var h := v.files[f].hash;
    var w := DeleteEach(v, order[..n], failing);
    if g :| Sharer(v, order, n, f, g) {
      DeleteEachSpares(v, order[..n], failing, g);
      assert g in w.files && w.files[g] == v.files[g];
    }
    if OtherLiveRow(w.files, h, f) {
      var g :| g in w.files && g != f && w.files[g].hash == h && Live(w.files[g]);
      DeleteEachSpares(v, order[..n], failing, g);
      if g in order[..n] && g !in v.open {
        var m: nat :| m < n && order[m] == g;
        assert Sharer(v, order, m, g, f);
        RetentionDeletes(v, order, failing, m);
        DeletedStays(v, order, failing, m + 1, n, g);
        assert false;
      } else {
        assert Sharer(v, order, n, f, g);
      }
    }
  }

  lemma {:induction false} DeletedStays(v: Vault, order: seq<FileId>, failing: set<Hash>, m: nat, n: nat, g: FileId)
    requires m <= n <= |order| && (forall f <- order :: f in v.files) && g in v.files
    requires DeleteEach(v, order[..m], failing).files[g].status == DELETED
    ensures DeleteEach(v, order[..n], failing).files[g].status == DELETED
    decreases n
  {
    if m < n {
      DeletedStays(v, order, failing, m, n - 1, g);
      assert order[..n][..n - 1] == order[..n - 1];
    }
  }

  /** After its turn a row is deleted exactly when the state before the cycle says so. */
  lemma {:induction false} RetentionDeletes(v: Vault, order: seq<FileId>, failing: set<Hash>, n: nat)
    requires n < |order| && Distinct(order) && forall f <- order :: f in v.files
    requires BytesThere(v) && Live(v.files[order[n]])
    ensures DeleteEach(v, order[..n + 1], failing).files[order[n]].status == DELETED <==> IsDeletedAt(v, order, n, failing)
    decreases n, 1
  {
    var f := order[n];
    var w := DeleteEach(v, order[..n], failing);
    assert order[..n + 1][..n] == order[..n];
    assert f !in order[..n];
    DeleteEachSpares(v, order[..n], failing, f);
    if v.files[f].stored && v.files[f].hash in failing {
      TurnSeesSharers(v, order, n, failing);
    }
  }

  lemma {:induction false} LaterTurnsSpare(v: Vault, order: seq<FileId>, failing: set<Hash>, m: nat, n: nat)
    requires m < n <= |order| && Distinct(order) && forall f <- order :: f in v.files
    ensures DeleteEach(v, order[..n], failing).files[order[m]] == DeleteEach(v, order[..m + 1], failing).files[order[m]]
    decreases n
  {
    if m + 1 < n {
      LaterTurnsSpare(v, order, failing, m, n - 1);
      assert order[..n][..n - 1] == order[..n - 1] && order[n - 1] != order[m];
    }
  }

  /**
   One cycle deletes exactly the expired rows without an open incident, except that of the rows sharing bytes
   that cannot be removed the last one listed stays, so the bytes keep a row and are tried again.
   */
  lemma RetentionExactly(v: Vault, order: seq<FileId>, windows: Windows, now: Time, failing: set<Hash>,
                         urlHost: string -> string, n: nat)
    requires BytesThere(v) && IsExpiredQuery(v, order, windows, now) && n < |order|
    ensures var w := Apply(v, Retain(order, windows, now, failing), urlHost);
            && order[n] in w.files
            && (w.files[order[n]].status == DELETED <==> IsDeletedAt(v, order, n, failing))
            && (w.files[order[n]].status != DELETED ==> w.files[order[n]] == v.files[order[n]])
  {
    assert order[n] in order;
    assert order[..|order|] == order;
    LaterTurnsSpare(v, order, failing, n, |order|);
    RetentionDeletes(v, order, failing, n);
    DeleteEachSpares(v, order, failing, order[n]);
  }

  // -- Release safety ----------------------------------------------------------------------------------

  /** How a row may move: from quarantine by review, from a reviewed or released state only to deletion. */
  predicate Follows(before: FileRow, after: FileRow) {
    || after == before
    || (before.status == QUARANTINED && after.status in {RELEASED, REJECTED} && after.reviewer.Some?
        && after.scanner == before.scanner && after.action == before.action)
    || (before.status in {QUARANTINED, RELEASED, REJECTED} && after.status == DELETED)
  }

  /** No row is left between staging and its final status. */
  ghost predicate Settled(v: Vault) {
    forall f <- v.files :: v.files[f].status != PENDING_SCAN
  }

  lemma StepFollows(v: Vault, e: Event, urlHost: string -> string, f: FileId)
    requires f in v.files && Settled(v)
    ensures var w := Apply(v, e, urlHost); f in w.files && Follows(v.files[f], w.files[f])
  {
    if e.Retain? && IsExpiredQuery(v, e.order, e.windows, e.now) {
      DeleteEachSpares(v, e.order, e.failing, f);
    }
  }

  lemma StepKeepsSettled(v: Vault, e: Event, urlHost: string -> string)
    requires Settled(v)
    ensures Settled(Apply(v, e, urlHost))
  {
    forall f <- v.files ensures var w := Apply(v, e, urlHost); f in w.files && Follows(v.files[f], w.files[f]) {
      StepFollows(v, e, urlHost, f);
    }
  }

  lemma {:induction false} RunIsSettled(events: seq<Event>, urlHost: string -> string)
    ensures Settled(Run(events, urlHost))
  {
    if events != [] {
      RunIsSettled(events[..|events| - 1], urlHost);
      StepKeepsSettled(Run(events[..|events| - 1], urlHost), events[|events| - 1], urlHost);
    }
  }

  /** A rejected file is never released later, a deleted one never anything else, a released one only deleted. */
  lemma {:induction false} RejectedStaysRejected(events: seq<Event>, n: nat, urlHost: string -> string, f: FileId)
    requires n <= |events| && f in Run(events[..n], urlHost).files
    ensures var before := Run(events[..n], urlHost).files[f].status;
            var w := Run(events, urlHost);
            && f in w.files
            && (before in {RELEASED, REJECTED, DELETED} ==> w.files[f].status in {before, DELETED})
    decreases |events|
  {
    if n < |events| {
      var last := |events| - 1;
      assert events[..last][..n] == events[..n];
      RejectedStaysRejected(events[..last], n, urlHost, f);
      RunIsSettled(events[..last], urlHost);
      StepFollows(Run(events[..last], urlHost), events[last], urlHost, f);
    } else {
      assert events[..n] == events;
    }
  }

  /** The step released the file: a clean scan of one the live rules release, or a reviewer's decision. */
  ghost predicate Releases(v: Vault, e: Event, urlHost: string -> string, f: FileId) {
    || (e.Stage? && e.f == f && f !in v.files && e.scan == Clean
        && DecidedAction(Listed(e.rules), e.input, urlHost) == AUTO_RELEASE)
    || (e.Release? && e.f == f && f in v.files && v.files[f].status == QUARANTINED)
  }

  lemma NewRelease(v: Vault, e: Event, urlHost: string -> string, f: FileId)
    requires Settled(v) && f in Apply(v, e, urlHost).files && Apply(v, e, urlHost).files[f].status == RELEASED
    ensures (f in v.files && v.files[f].status == RELEASED) || Releases(v, e, urlHost, f)
  {
    if f in v.files {
      StepFollows(v, e, urlHost, f);
    }
    if e.Retain? && IsExpiredQuery(v, e.order, e.windows, e.now) && f in v.files {
      DeleteEachSpares(v, e.order, e.failing, f);
    }
  }

  /** A file is released only by such a step, over any run. */
  lemma {:induction false} ReleasedHow(events: seq<Event>, urlHost: string -> string, f: FileId) returns (n: nat)
    requires f in Run(events, urlHost).files && Run(events, urlHost).files[f].status == RELEASED
    ensures n < |events| && Releases(Run(events[..n], urlHost), events[n], urlHost, f)
  {
    var last := |events| - 1;
    var v := Run(events[..last], urlHost);
    RunIsSettled(events[..last], urlHost);
    NewRelease(v, events[last], urlHost, f);
    if Releases(v, events[last], urlHost, f) {
      n := last;
    } else {
      n := ReleasedHow(events[..last], urlHost, f);
      assert events[..last][..n] == events[..n];
    }
  }

  /** Without a reviewer, a released file had a clean scan, a live rule that released it and none that objected. */
  lemma UnreviewedRelease(events: seq<Event>, urlHost: string -> string, f: FileId) returns (n: nat)
    requires f in Run(events, urlHost).files && Run(events, urlHost).files[f].status == RELEASED
    requires forall e <- events :: e.Release? ==> e.f != f
    ensures n < |events| && events[n].Stage? && events[n].f == f && events[n].scan == Clean
    ensures exists r <- events[n].rules :: r.rule.action == AUTO_RELEASE && Matches(r.rule, events[n].input, urlHost)
    ensures forall r <- events[n].rules :: Matches(r.rule, events[n].input, urlHost) ==> r.rule.action == AUTO_RELEASE
  {
    n := ReleasedHow(events, urlHost, f);
    AutoReleaseExactly(Listed(events[n].rules), events[n].input, urlHost);
  }

  /** Content that is polled again, its deletion from the sandbox having failed, makes no second row. */
  lemma RestagingDoesNothing(v: Vault, f: FileId, g: FileId, session: SessionRef, hash: Hash, rules: seq<LiveRule>,
                             rules': seq<LiveRule>, input: FileInput, input': FileInput, scan: ScanOutcome,
                             scan': ScanOutcome, now: Time, now': Time, urlHost: string -> string)
    requires f !in v.files
    ensures var w := Apply(v, Stage(f, session, hash, rules, input, scan, now), urlHost);
            Apply(w, Stage(g, session, hash, rules', input', scan', now'), urlHost) == w
  {
    var w := Apply(v, Stage(f, session, hash, rules, input, scan, now), urlHost);
    if !SeenBefore(v, session, hash) {
      assert w.files[f].session == session && w.files[f].hash == hash;
    }
  }
}
