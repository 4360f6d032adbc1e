/** The download and retention services as they run: loops over downloads and expired rows that update rows and disk. */
module QuarantineStore {
  import opened Wrappers
  import opened PolicyEngine
  import opened Quarantine

  /** One file the sandbox lists: too large to fetch, not fetchable now, or fetched. */
  datatype Download =
    | Oversized(id: FileId, digest: Hash)
    | Unfetchable
    | Fetched(id: FileId, hash: Hash, rules: seq<LiveRule>, input: FileInput, scan: ScanOutcome)

  predicate HasId(d: Download, id: FileId) {
    !d.Unfetchable? && d.id == id
  }

  /** The ids of new rows are new. */
  ghost predicate FreshIds(files: map<FileId, FileRow>, downloads: seq<Download>) {
    && (forall d <- downloads :: !d.Unfetchable? ==> d.id !in files)
    && (forall i, j | 0 <= i < j < |downloads| && !downloads[i].Unfetchable? :: !HasId(downloads[j], downloads[i].id))
  }

  ghost function AfterDownload(v: Vault, session: SessionRef, d: Download, now: Time, urlHost: string -> string): Vault {
    match d
    case Oversized(id, digest) => Apply(v, StageOversized(id, session, digest, now), urlHost)
    case Unfetchable => v
    case Fetched(id, hash, rules, input, scan) => Apply(v, Stage(id, session, hash, rules, input, scan, now), urlHost)
  }

  ghost function AfterDownloads(v: Vault, session: SessionRef, downloads: seq<Download>, now: Time, urlHost: string -> string): Vault {
    if downloads == [] then v
    else AfterDownload(AfterDownloads(v, session, downloads[..|downloads| - 1], now, urlHost), session, downloads[|downloads| - 1], now, urlHost)
  }

  class QuarantineStore {
    var files: map<FileId, FileRow>
    var disk: set<Hash>
    var open: set<FileId>

    function State(): Vault
      reads this
    {
      Vault(files, disk, open)
    }

    constructor ()
      ensures State() == EMPTY
    {
      files, disk, open := map[], {}, {};
    }

    method StageFile(hash: Hash)
      modifies this`disk
      ensures disk == old(disk) + {hash}
    {
      if hash !in disk {
        disk := disk + {hash};
      }
    }

    method ScanAndFinalize(f: FileId, scan: ScanOutcome)
      requires f in files
      modifies this`files, this`open
      ensures files == old(files)[f := Finalized(old(files)[f], scan)]
      ensures open == if scan == Infected then old(open) + {f} else old(open)
    {
      files := files[f := files[f].(scanner := SCANNING)];
      if scan == ScanFailed {
        files := files[f := files[f].(scanner := ERROR)];
        files := files[f := files[f].(status := QUARANTINED)];
        return;
      }
      if scan == Infected {
        files := files[f := files[f].(scanner := INFECTED)];
        files := files[f := files[f].(status := QUARANTINED)];
        open := open + {f};
        return;
      }
      files := files[f := files[f].(scanner := CLEAN)];
      if files[f].action == Some(DENY) {
        files := files[f := files[f].(status := REJECTED)];
      } else if files[f].action == Some(AUTO_RELEASE) {
        files := files[f := files[f].(status := RELEASED)];
      } else {
        files := files[f := files[f].(status := QUARANTINED)];
      }
    }

    /** A file that is new to the session: staged, given a row and scanned. */
    method StageDownload(id: FileId, session: SessionRef, hash: Hash, action: FileAction, scan: ScanOutcome, now: Time)
      requires id !in files
      modifies this
      ensures State() == Staged(old(State()), id, StagedRow(session, hash, action, now), scan)
    {
      ghost var was := files;
      StageFile(hash);
      files := files[id := FileRow(session, hash, true, PENDING, Some(action), PENDING_SCAN, now, None, None)];
      ScanAndFinalize(id, scan);
      assert files == was[id := Finalized(StagedRow(session, hash, action, now), scan)];
    }

    /** One listed file: size check, fetch, duplicate check, decision, staging, row, scan. */
    method ProcessDownload(session: SessionRef, d: Download, now: Time, urlHost: string -> string) returns (created: bool)
      requires d.Unfetchable? || d.id !in files
      modifies this
      ensures State() == AfterDownload(old(State()), session, d, now, urlHost)
      ensures created <==> !d.Unfetchable? && d.id in files
      ensures files.Keys == old(files).Keys + if created then {d.id} else {}
    {
      match d
      case Oversized(id, digest) =>
        files := files[id := FileRow(session, digest, false, ERROR, None, QUARANTINED, now, None, None)];
        created := true;
      case Unfetchable =>
        created := false;
      case Fetched(id, hash, rules, input, scan) =>
        if exists f <- files :: files[f].session == session && files[f].hash == hash {
          assert SeenBefore(State(), session, hash);
          return false;
        }
        assert !SeenBefore(State(), session, hash);
        var decision := EvaluateFileAction(rules, input, urlHost);
        StageDownload(id, session, hash, decision.action, scan, now);
        created := true;
    }

    method ProcessNewDownloads(session: SessionRef, downloads: seq<Download>, now: Time, urlHost: string -> string)
        returns (created: seq<FileId>)
      requires FreshIds(files, downloads)
      modifies this
      ensures State() == AfterDownloads(old(State()), session, downloads, now, urlHost)
      ensures forall f :: f in created <==> f in files && f !in old(files)
    {
      created := [];
      for i := 0 to |downloads|
        invariant State() == AfterDownloads(old(State()), session, downloads[..i], now, urlHost)
        invariant forall d <- downloads[i..] :: !d.Unfetchable? ==> d.id !in files
        invariant old(files).Keys <= files.Keys
        invariant forall f :: f in created <==> f in files && f !in old(files)
      {
        assert downloads[..i + 1][..i] == downloads[..i];
        var d := downloads[i];
        assert d in downloads[i..];
        var isNew := ProcessDownload(session, d, now, urlHost);
        if isNew {
          created := created + [d.id];
        }
        forall e <- downloads[i + 1..] | !e.Unfetchable? ensures e.id !in files {
          assert e in downloads[i..];
        }
      }
      assert downloads[..|downloads|] == downloads;
    }

    method ReleaseFile(f: FileId, reviewer: UserRef, now: Time) returns (ok: bool)
      modifies this`files
      ensures forall urlHost :: State() == Apply(old(State()), Release(f, reviewer, now), urlHost)
      ensures ok <==> f in old(files) && old(files)[f].status == QUARANTINED
    {
      if f !in files || files[f].status != QUARANTINED {
        return false;
      }
      files := files[f := files[f].(status := RELEASED)];
      files := files[f := files[f].(reviewedAt := Some(now))];
      files := files[f := files[f].(reviewer := Some(reviewer))];
      assert files == old(files)[f := old(files)[f].(status := RELEASED, reviewedAt := Some(now), reviewer := Some(reviewer))];
      return true;
    }

    method RejectFile(f: FileId, reviewer: UserRef, now: Time) returns (ok: bool)
      modifies this`files
      ensures forall urlHost :: State() == Apply(old(State()), Reject(f, reviewer, now), urlHost)
      ensures ok <==> f in old(files) && old(files)[f].status == QUARANTINED
    {
      if f !in files || files[f].status != QUARANTINED {
        return false;
      }
      files := files[f := files[f].(status := REJECTED)];
      files := files[f := files[f].(reviewedAt := Some(now))];
      files := files[f := files[f].(reviewer := Some(reviewer))];
      assert files == old(files)[f := old(files)[f].(status := REJECTED, reviewedAt := Some(now), reviewer := Some(reviewer))];
      return true;
    }

    /** `os.remove` raises for the hashes in `failing`; a missing file is no error. */
    method DeleteOne(f: FileId, failing: set<Hash>)
      requires f in files
      modifies this`files, this`disk
      ensures State() == Quarantine.DeleteOne(old(State()), f, failing)
    {
      if f in open {
        return;
      }
      var r := files[f];
      if r.stored && !(exists g <- files :: g != f && files[g].hash == r.hash && Live(files[g])) {
        if r.hash in failing {
          return;
        }
        disk := disk - {r.hash};
      }
      files := files[f := files[f].(status := DELETED)];
      files := files[f := files[f].(stored := false)];
    }

    method SelectExpired(windows: Windows, now: Time) returns (expired: seq<FileId>)
      ensures IsExpiredQuery(State(), expired, windows, now)
    {
      expired := [];
      var todo := files.Keys;
      while todo != {}
        invariant todo <= files.Keys
        invariant forall f :: f in expired <==> f in files && f !in todo && Expired(files[f], windows, now)
        invariant Distinct(expired)
        decreases |todo|
      {
        var f :| f in todo;
        todo := todo - {f};
        var r := files[f];
        if (r.status == RELEASED && EffectiveAt(r) < now - windows.released)
          || (r.status in {QUARANTINED, REJECTED} && EffectiveAt(r) < now - windows.quarantined)
        {
          expired := expired + [f];
        }
      }
    }

    method ReconcileOnce(windows: Windows, now: Time, failing: set<Hash>) returns (expired: seq<FileId>)
      modifies this`files, this`disk
      ensures IsExpiredQuery(old(State()), expired, windows, now)
      ensures State() == DeleteEach(old(State()), expired, failing)
    {
      expired := SelectExpired(windows, now);
      ghost var was := State();
      assert forall f <- expired :: f in was.files;
      for i := 0 to |expired|
        invariant State() == DeleteEach(was, expired[..i], failing)
      {
        assert expired[..i + 1][..i] == expired[..i];
        DeleteOne(expired[i], failing);
      }
      assert expired[..|expired|] == expired;
    }
  }
}
