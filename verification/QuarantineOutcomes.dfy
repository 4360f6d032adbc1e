/**
 What becomes of a quarantined file, in statuses and times alone: the row each step leaves, what a row's status
 says about its history, and when retention deletes it.
 */
module QuarantineOutcomes {
  import opened Wrappers
  import opened PolicyEngine
  import opened Quarantine

  // -- The row each step leaves ------------------------------------------------------------------------

  /**
   Staging: content seen before in the session changes nothing.  Otherwise the bytes are on disk and the new row
   is released only if the scan was clean and the rules say so, rejected only if it was clean and they deny it;
   a virus opens an incident.
   */
  lemma StageExactly(v: Vault, f: FileId, session: SessionRef, hash: Hash, rules: seq<LiveRule>, input: FileInput,
                     scan: ScanOutcome, now: Time, urlHost: string -> string)
    requires f !in v.files
    ensures var w := Apply(v, Stage(f, session, hash, rules, input, scan, now), urlHost);
            var decided := DecidedAction(Listed(rules), input, urlHost);
            if exists g :: g in v.files && v.files[g].session == session && v.files[g].hash == hash then w == v
            else
              && w.files.Keys == v.files.Keys + {f} && (forall g <- v.files :: w.files[g] == v.files[g])
              && w.disk == v.disk + {hash} && w.open == v.open + (if scan == Infected then {f} else {})
              && w.files[f] ==
                   match (scan, decided)
                   case (Clean, AUTO_RELEASE) =>
                     FileRow(session, hash, true, CLEAN, Some(decided), RELEASED, now, None, None)
                   case (Clean, DENY) =>
                     FileRow(session, hash, true, CLEAN, Some(decided), REJECTED, now, None, None)
                   case (Clean, QUARANTINE) =>
                     FileRow(session, hash, true, CLEAN, Some(decided), FileStatus.QUARANTINED, now, None, None)
                   case (Infected, _) =>
                     FileRow(session, hash, true, INFECTED, Some(decided), FileStatus.QUARANTINED, now, None, None)
                   case (ScanFailed, _) =>
                     FileRow(session, hash, true, ERROR, Some(decided), FileStatus.QUARANTINED, now, None, None)
  {
  }

  /** A file too large to fetch is a quarantined row without bytes or decision. */
  lemma OversizedExactly(v: Vault, f: FileId, session: SessionRef, hash: Hash, now: Time, urlHost: string -> string)
    requires f !in v.files
    ensures var w := Apply(v, StageOversized(f, session, hash, now), urlHost);
            && w.files == v.files[f := FileRow(session, hash, false, ERROR, None, FileStatus.QUARANTINED, now, None, None)]
            && w.disk == v.disk && w.open == v.open
  {
  }

  /** A review moves a quarantined row, records who and when, and touches neither bytes nor incidents. */
  lemma ReviewExactly(v: Vault, f: FileId, reviewer: UserRef, now: Time, urlHost: string -> string)
    requires f in v.files
    ensures var r := v.files[f];
            var released := FileRow(r.session, r.hash, r.stored, r.scanner, r.action, RELEASED, r.createdAt, Some(now), Some(reviewer));
            var rejected := FileRow(r.session, r.hash, r.stored, r.scanner, r.action, REJECTED, r.createdAt, Some(now), Some(reviewer));
            var reviewable := r.status == FileStatus.QUARANTINED;
            && Apply(v, Release(f, reviewer, now), urlHost) ==
                 Vault(if reviewable then v.files[f := released] else v.files, v.disk, v.open)
            && Apply(v, Reject(f, reviewer, now), urlHost) ==
                 Vault(if reviewable then v.files[f := rejected] else v.files, v.disk, v.open)
  {
  }

  // -- Retention ---------------------------------------------------------------------------------------

  /** Older than its window, counted from the review if there was one: what a query by hand would compute. */
  predicate PastWindow(r: FileRow, windows: Windows, now: Time) {
    var since := match r.reviewedAt case Some(t) => t case None => r.createdAt;
    match r.status
    case RELEASED => since + windows.released < now
    case QUARANTINED | REJECTED => since + windows.quarantined < now
    case PENDING_SCAN | DELETED => false
  }

  lemma ExpiredIsPastWindow(r: FileRow, windows: Windows, now: Time)
    ensures Expired(r, windows, now) <==> PastWindow(r, windows, now)
  {
  }

  /** Only a live row past its window and under no open incident is deleted, and it loses its storage id with it. */
  lemma DeletedOnlyWhenPast(v: Vault, e: Event, urlHost: string -> string, f: FileId)
    requires f in v.files
    ensures var w := Apply(v, e, urlHost);
            && f in w.files
            && (w.files[f].status == DELETED && v.files[f].status != DELETED ==>
                  && e.Retain? && PastWindow(v.files[f], e.windows, e.now) && f !in v.open
                  && w.files[f] == v.files[f].(status := DELETED, stored := false))
  {
    if e.Retain? && IsExpiredQuery(v, e.order, e.windows, e.now) {
      DeleteEachSpares(v, e.order, e.failing, f);
      ExpiredIsPastWindow(v.files[f], e.windows, e.now);
    }
  }

  /** If no removal fails, a cycle deletes exactly the rows past their window and under no open incident. */
  lemma CleanCycleExactly(v: Vault, order: seq<FileId>, windows: Windows, now: Time, urlHost: string -> string, f: FileId)
    requires BytesThere(v) && IsExpiredQuery(v, order, windows, now) && f in v.files
    ensures var w := Apply(v, Retain(order, windows, now, {}), urlHost);
            && f in w.files
            && w.files[f] == if PastWindow(v.files[f], windows, now) && f !in v.open
                             then v.files[f].(status := DELETED, stored := false) else v.files[f]
  {
    ExpiredIsPastWindow(v.files[f], windows, now);
    DeleteEachSpares(v, order, {}, f);
    if f in order {
      var n :| 0 <= n < |order| && order[n] == f;
      RetentionExactly(v, order, windows, now, {}, urlHost, n);
    }
  }

  /** Over any run: a deleted row was deleted by a retention cycle, past its window and under no open incident. */
  lemma {:induction false} DeletedHow(events: seq<Event>, urlHost: string -> string, f: FileId) returns (n: nat)
    requires f in Run(events, urlHost).files && Run(events, urlHost).files[f].status == DELETED
    ensures n < |events| && events[n].Retain?
    ensures var v := Run(events[..n], urlHost);
            f in v.files && f !in v.open && PastWindow(v.files[f], events[n].windows, events[n].now)
  {
    var last := |events| - 1;
    var v := Run(events[..last], urlHost);
    if f in v.files && v.files[f].status == DELETED {
      n := DeletedHow(events[..last], urlHost, f);
      assert events[..last][..n] == events[..n];
    } else {
      if f !in v.files {
        NewRowIsLive(v, events[last], urlHost, f);
      } else {
        DeletedOnlyWhenPast(v, events[last], urlHost, f);
      }
      n := last;
    }
  }

  lemma NewRowIsLive(v: Vault, e: Event, urlHost: string -> string, f: FileId)
    requires f !in v.files && f in Apply(v, e, urlHost).files
    ensures Apply(v, e, urlHost).files[f].status != DELETED
    ensures e.Stage? || e.StageOversized?
  {
  }

  // -- What a status says about the past ---------------------------------------------------------------

  /** A row nobody reviewed, unless deleted, has the status its scan and its rules gave it. */
  predicate Explained(r: FileRow) {
    && (r.reviewer.None? && r.status != DELETED ==>
          match (r.scanner, r.action)
          case (CLEAN, Some(DENY)) => r.status == REJECTED
          case (CLEAN, Some(AUTO_RELEASE)) => r.status == RELEASED
          case (CLEAN, Some(QUARANTINE)) => r.status == FileStatus.QUARANTINED
          case (INFECTED, Some(_)) => r.status == FileStatus.QUARANTINED
          case (ERROR, _) => r.status == FileStatus.QUARANTINED
          case _ => false)
    && (r.reviewer.Some? ==> r.reviewedAt.Some? && r.status in {RELEASED, REJECTED, DELETED})
    && (r.reviewer.None? ==> r.reviewedAt == None)
  }

  lemma StepKeepsExplained(v: Vault, e: Event, urlHost: string -> string, f: FileId)
    requires f in v.files ==> Explained(v.files[f])
    requires f in Apply(v, e, urlHost).files
    ensures Explained(Apply(v, e, urlHost).files[f])
  {
    if e.Retain? && IsExpiredQuery(v, e.order, e.windows, e.now) {
      DeleteEachSpares(v, e.order, e.failing, f);
    } else if e.Stage? && e.f == f && f !in v.files && !SeenBefore(v, e.session, e.hash) {
      StageExactly(v, f, e.session, e.hash, e.rules, e.input, e.scan, e.now, urlHost);
    } else if e.StageOversized? && e.f == f && f !in v.files {
      OversizedExactly(v, f, e.session, e.hash, e.now, urlHost);
    }
  }

  /**
   Over any run: without a reviewer, a clean file the rules deny is rejected, one they release is released, and
   everything else, infected or unscannable files above all, is in quarantine until retention deletes it.
   */
  lemma {:induction false} StatusIsExplained(events: seq<Event>, urlHost: string -> string, f: FileId)
    requires f in Run(events, urlHost).files
    ensures Explained(Run(events, urlHost).files[f])
  {
    var last := |events| - 1;
    var v := Run(events[..last], urlHost);
    if f in v.files {
      StatusIsExplained(events[..last], urlHost, f);
    }
    StepKeepsExplained(v, events[last], urlHost, f);
  }

  /** The reviewer and the time on a row are those of the review that decided it. */
  lemma {:induction false} ReviewedHow(events: seq<Event>, urlHost: string -> string, f: FileId) returns (n: nat)
    requires f in Run(events, urlHost).files && Run(events, urlHost).files[f].reviewer.Some?
    ensures var r := Run(events, urlHost).files[f];
            && n < |events| && r.reviewedAt.Some?
            && (events[n] == Release(f, r.reviewer.value, r.reviewedAt.value) || events[n] == Reject(f, r.reviewer.value, r.reviewedAt.value))
            && (r.status == RELEASED ==> events[n].Release?) && (r.status == REJECTED ==> events[n].Reject?)
            && f in Run(events[..n], urlHost).files && Run(events[..n], urlHost).files[f].status == FileStatus.QUARANTINED
  {
    var last := |events| - 1;
    var v, e := Run(events[..last], urlHost), events[last];
    if f in v.files && v.files[f].reviewer.Some? {
      n := ReviewedHow(events[..last], urlHost, f);
      assert events[..last][..n] == events[..n];
      StatusIsExplained(events[..last], urlHost, f);
      if e.Retain? && IsExpiredQuery(v, e.order, e.windows, e.now) {
        DeleteEachSpares(v, e.order, e.failing, f);
      }
    } else {
      NewReviewer(v, e, urlHost, f);
      n := last;
    }
  }

  lemma NewReviewer(v: Vault, e: Event, urlHost: string -> string, f: FileId)
    requires f in Apply(v, e, urlHost).files && Apply(v, e, urlHost).files[f].reviewer.Some?
    requires f in v.files ==> v.files[f].reviewer.None?
    ensures var r := Apply(v, e, urlHost).files[f];
            && f in v.files && v.files[f].status == FileStatus.QUARANTINED && r.reviewedAt.Some?
            && ((e == Release(f, r.reviewer.value, r.reviewedAt.value) && r.status == RELEASED)
                || (e == Reject(f, r.reviewer.value, r.reviewedAt.value) && r.status == REJECTED))
  {
    if e.Retain? && IsExpiredQuery(v, e.order, e.windows, e.now) && f in v.files {
      DeleteEachSpares(v, e.order, e.failing, f);
    }
  }
}
