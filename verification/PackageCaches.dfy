/** The content-addressed package cache: fetching into a temporary directory,
    publishing with rollback, and the session's memory of what it returned. */
module PackageCaches {
  import opened Outcomes

  /** A directory's contents: what the source-tree hash covers, and the manifest
      when one can be read. */
  datatype Contents = Contents(tree: nat, manifest: Option<nat>)

  /** Temporary directories get names that were never used before. */
  datatype Location = Checkout(source: nat, digest: nat) | Temporary(serial: nat)

  datatype CacheError =
    | Lock
    | Metadata
    | CreateDir
    | FetchFailed
    | UnreadablePackage
    | IngestionPolicy
    | CacheIntegrity(expected: nat, actual: nat)
    | Rename(from: Location, to: Location)
    | CacheRollback(destination: Location, preserved: Location)

  datatype Materialized = Materialized(digest: nat, manifest: nat)

  /** How an attempt to read a directory goes: its kind is not known, it exceeds
      the ingestion budget, something in it cannot be read, or all of it is. */
  datatype Access = Unknown | OverBudget | Unreadable | Readable

  /** Which steps of publishing work: telling whether the destination exists,
      making a backup directory, and each of the three moves. */
  datatype Moves = Moves(known: bool, backup: bool, aside: bool, publish: bool, restore: bool)

  /** What happens outside the program during one call: whether the lock is
      obtained, whether a temporary directory can be made, what a fetch yields,
      how the directories can be read, and which moves work. */
  datatype Circumstances = Circumstances(
    locks: bool,
    temporary: bool,
    remote: Option<Contents>,
    trusted: Access,
    fetched: Access,
    stored: Access,
    moves: Moves)

  /** Publishing works, for a destination that is occupied or free. */
  predicate Publishes(occupied: bool, m: Moves) {
    m.known && m.publish && (occupied ==> m.backup && m.aside)
  }

  /** The step that `e` reports did not work. */
  predicate PublishFails(occupied: bool, m: Moves, temporary: Location, destination: Location, e: CacheError) {
    match e
    case Metadata => !m.known
    case CreateDir => m.known && occupied && !m.backup
    case Rename(from, to) =>
      || (from == destination && to.Temporary? && m.known && occupied && m.backup && !m.aside)
      || (from == temporary && to == destination && m.known && !m.publish
          && (occupied ==> m.backup && m.aside && m.restore))
    case CacheRollback(place, _) =>
      place == destination && m.known && occupied && m.backup && m.aside && !m.publish && !m.restore
    case _ => false
  }

  /** The cache directory. Its operations work or fail as they are told. */
  class CacheDirectory {
    var files: map<Location, Contents>
    var serial: nat

    constructor (files: map<Location, Contents>, serial: nat)
      requires forall n: nat :: Temporary(n) in files ==> n < serial
      ensures this.files == files && this.serial == serial && Valid()
    {
      this.files, this.serial := files, serial;
    }

    ghost predicate Valid()
      reads this
    {
      forall n: nat :: Temporary(n) in files ==> n < serial
    }

    /** A new temporary directory, not yet holding anything. */
    method CreateTemporary(works: bool) returns (r: Option<Location>)
      requires Valid()
      modifies this
      ensures Valid() && files == old(files) && (r.Some? <==> works)
      ensures r.Some? ==> r.value.Temporary? && r.value !in files && r.value.serial < serial
    {
      if !works {
        return None;
      }
      r := Some(Temporary(serial));
      serial := serial + 1;
    }

    method Store(location: Location, contents: Contents)
      requires Valid() && location.Temporary? && location.serial < serial
      modifies this
      ensures Valid() && files == old(files)[location := contents] && serial == old(serial)
    {
      files := files[location := contents];
    }

    /** Move a directory to a free place, or change nothing. */
    method Move(from: Location, to: Location, works: bool)
      requires Valid() && (to.Temporary? ==> to.serial < serial) && from in files && to !in files
      modifies this
      ensures Valid() && serial == old(serial)
      ensures files == if works then old(files)[to := old(files)[from]] - {from} else old(files)
    {
      if works {
        files := files[to := files[from]] - {from};
      }
    }

    /** Dropping a temporary directory deletes what it still holds. */
    method Drop(location: Location)
      requires Valid() && location.Temporary?
      modifies this
      ensures Valid() && files == old(files) - {location} && serial == old(serial)
    {
      files := files - {location};
    }

    /** Move the fetched checkout to its destination. Whatever moves fail, the
        checkout that was there survives, in place or in the reported backup,
        unless the new one took its place. */
    method Publish(temporary: Location, destination: Location, m: Moves) returns (error: Option<CacheError>)
      requires Valid() && temporary.Temporary? && temporary in files && destination.Checkout?
      modifies this
      ensures Valid()
      ensures error.None? <==> Publishes(old(destination in files), m)
      ensures error.None? ==> files == old(files)[destination := old(files)[temporary]] - {temporary}
      ensures error.Some? ==> PublishFails(old(destination in files), m, temporary, destination, error.value)
      ensures error.Some? && destination in old(files) ==>
        || (destination in files && files[destination] == old(files)[destination])
        || (&& error.value.CacheRollback? && error.value.destination == destination && destination !in files
            && error.value.preserved != temporary
            && error.value.preserved in files && files[error.value.preserved] == old(files)[destination])
      ensures error.Some? && destination !in old(files) ==> destination !in files
      ensures error.Some? && error.value.CacheRollback? ==>
              error.value.preserved != temporary && destination in old(files)
      ensures error.Some? ==> !error.value.CacheIntegrity?
      ensures forall l: Location :: l.Checkout? && l != destination ==>
                (l in files <==> l in old(files)) && (l in files ==> files[l] == old(files)[l])
      ensures forall l: Location ::
              l.Temporary? && l != temporary && l in old(files) ==> l in files && files[l] == old(files)[l]
    {
      if !m.known {
        return Some(Metadata);
      }
      if destination !in files {
        Move(temporary, destination, m.publish);
        return if m.publish then None else Some(Rename(temporary, destination));
      }
      var backup := CreateTemporary(m.backup);
      if backup.None? {
        return Some(CreateDir);
      }
      Move(destination, backup.value, m.aside);
      if !m.aside {
        Drop(backup.value);
        return Some(Rename(destination, backup.value));
      }
      Move(temporary, destination, m.publish);
      if m.publish {
        Drop(backup.value);
        return None;
      }
      Move(backup.value, destination, m.restore);
      if m.restore {
        Drop(backup.value);
        return Some(Rename(temporary, destination));
      }
      return Some(CacheRollback(destination, backup.value));
    }
  }

  /** What the files say about a checkout: its hash and its manifest. */
  ghost predicate Holds(files: map<Location, Contents>, sha: nat -> nat, location: Location, m: Materialized) {
    location in files && sha(files[location].tree) == m.digest && files[location].manifest == Some(m.manifest)
  }

  /** A session result is backed by the checkout stored under its digest, and
      matches the digest that is trusted for its source. */
  ghost predicate Backed(files: map<Location, Contents>, sha: nat -> nat, trusted: map<nat, nat>, source: nat,
                         m: Materialized)
  {
    Holds(files, sha, Checkout(source, m.digest), m) && (source in trusted ==> m.digest == trusted[source])
  }

  /** The checkout of `before` at `l` is still there, replaced by the published
      one, or kept in the backup that the error names. */
  ghost predicate Survives(before: map<Location, Contents>, after: map<Location, Contents>, source: nat, l: Location,
                           r: Result<Materialized, CacheError>)
    requires l in before
  {
    || (l in after && after[l] == before[l])
    || (r.Ok? && l == Checkout(source, r.value.digest))
    || (r.Err? && r.error.CacheRollback? && r.error.destination == l
        && r.error.preserved in after && after[r.error.preserved] == before[l])
  }

  /** The checkouts of other sources are not touched. */
  ghost predicate OthersKept(before: map<Location, Contents>, after: map<Location, Contents>, source: nat) {
    forall l: Location :: l.Checkout? && l.source != source ==>
      (l in after <==> l in before) && (l in after ==> after[l] == before[l])
  }

  /** Everything survives but a given temporary directory. */
  ghost predicate AllSurvive(before: map<Location, Contents>, after: map<Location, Contents>, source: nat,
                             r: Result<Materialized, CacheError>, temporary: Option<Location>)
  {
    forall l: Location :: l in before && Some(l) != temporary ==> Survives(before, after, source, l, r)
  }

  /** What a checkout holds, unless there is none that can be read. */
  function Existing(files: map<Location, Contents>, sha: nat -> nat, location: Location, access: Access)
    : (r: Result<Option<Materialized>, CacheError>)
    ensures r.Ok? && r.value.Some? ==> access == Readable && Holds(files, sha, location, r.value.value)
    ensures access == Readable && location in files && files[location].manifest.Some? ==> r.Ok? && r.value.Some?
    ensures r == Err(Metadata) <==> access == Unknown
    ensures r == Err(IngestionPolicy) <==> access == OverBudget && location in files
    ensures r.Err? ==> r.error == Metadata || r.error == IngestionPolicy
  {
    match access
    case Unknown => Err(Metadata)
    case OverBudget => if location in files then Err(IngestionPolicy) else Ok(None)
    case Unreadable => Ok(None)
    case Readable =>
      if location !in files || files[location].manifest.None? then Ok(None)
      else Ok(Some(Materialized(sha(files[location].tree), files[location].manifest.value)))
  }

  function Fetched(contents: Contents, sha: nat -> nat, access: Access): Result<Materialized, CacheError> {
    if access == OverBudget then Err(IngestionPolicy)
    else if access != Readable || contents.manifest.None? then Err(UnreadablePackage)
    else Ok(Materialized(sha(contents.tree), contents.manifest.value))
  }

  /** The checkout stored under a digest, when it can be read and hashes to it. */
  function Reusable(files: map<Location, Contents>, sha: nat -> nat, source: nat, digest: nat, access: Access)
    : Option<Materialized>
  {
    match Existing(files, sha, Checkout(source, digest), access)
    case Ok(Some(m)) => if m.digest == digest then Some(m) else None
    case _ => None
  }

  /** Without a trusted digest, an intact checkout of the fetched digest is
      reused. */
  function Reused(files: map<Location, Contents>, sha: nat -> nat, trusted: map<nat, nat>, source: nat, digest: nat,
                  access: Access): Option<Materialized>
  {
    if source in trusted then None else Reusable(files, sha, source, digest, access)
  }

  /** The fetched contents can be read, carry the trusted digest if there is
      one, and are stored already or can be published. */
  ghost predicate Settles(files: map<Location, Contents>, sha: nat -> nat, trusted: map<nat, nat>, source: nat,
                          contents: Contents, c: Circumstances)
  {
    var digest := sha(contents.tree);
    && c.fetched == Readable && contents.manifest.Some?
    && (source in trusted ==> digest == trusted[source])
    && (source !in trusted ==> Existing(files, sha, Checkout(source, digest), c.stored).Ok?)
    && (|| Reused(files, sha, trusted, source, digest, c.stored).Some?
        || Publishes(Checkout(source, digest) in files, c.moves))
  }

  /** Every session result is backed. */
  ghost predicate AllBacked(files: map<Location, Contents>, sha: nat -> nat, trusted: map<nat, nat>,
                            session: map<nat, Materialized>)
  {
    forall s :: s in session ==> Backed(files, sha, trusted, s, session[s])
  }

  /** A temporary directory does not matter to what can be reused, and what
      survives while it exists survives its removal. */
  lemma TemporaryAside(before: map<Location, Contents>, stored: map<Location, Contents>,
                       settled: map<Location, Contents>,
                       temporary: Location, contents: Contents, source: nat, r: Result<Materialized, CacheError>)
    requires temporary.Temporary? && temporary !in before && stored == before[temporary := contents]
    requires AllSurvive(stored, settled, source, r, Some(temporary)) && OthersKept(stored, settled, source)
    requires r.Err? && r.error.CacheRollback? ==> r.error.preserved != temporary
    ensures AllSurvive(before, settled - {temporary}, source, r, None)
    ensures OthersKept(before, settled - {temporary}, source)
    ensures settled == stored ==> settled - {temporary} == before
  {
    forall l: Location | l in before
      ensures Survives(before, settled - {temporary}, source, l, r)
    {
      assert Survives(stored, settled, source, l, r);
    }
  }

  /** Temporary directories do not matter to what is checked out. */
  lemma CheckoutsOnly(before: map<Location, Contents>, after: map<Location, Contents>, sha: nat -> nat,
                      trusted: map<nat, nat>, session: map<nat, Materialized>)
    requires forall l: Location :: l.Checkout? ==>
               (l in after <==> l in before) && (l in after ==> after[l] == before[l])
    ensures AllBacked(after, sha, trusted, session) <==> AllBacked(before, sha, trusted, session)
    ensures forall s: nat, m: Materialized ::
              Backed(after, sha, trusted, s, m) <==> Backed(before, sha, trusted, s, m)
    ensures forall s: nat, contents: Contents, c: Circumstances ::
              Settles(after, sha, trusted, s, contents, c) <==> Settles(before, sha, trusted, s, contents, c)
    ensures forall s: nat, digest: nat, access: Access ::
              Reused(after, sha, trusted, s, digest, access) == Reused(before, sha, trusted, s, digest, access)
  {
  }

  lemma UnchangedSurvives(files: map<Location, Contents>, source: nat, r: Result<Materialized, CacheError>)
    ensures AllSurvive(files, files, source, r, None) && OthersKept(files, files, source)
  {
  }

  /** Nothing outside the program stands in the way. */
  predicate Smooth(c: Circumstances) {
    && c.locks && c.temporary && c.remote.Some? && c.remote.value.manifest.Some?
    && c.trusted == c.fetched == c.stored == Readable
    && c.moves == Moves(true, true, true, true, true)
  }

  /** The source has been fetched. */
  predicate Arrives(c: Circumstances) {
    c.locks && c.temporary && c.remote.Some?
  }

  /** What has been fetched can be used as a package. */
  predicate Usable(c: Circumstances) {
    Arrives(c) && c.fetched == Readable && c.remote.value.manifest.Some?
  }

  /** Something outside the program accounts for the error, and the steps before
      the reported one worked; only a digest that is not the trusted one is
      refused otherwise. */
  predicate Blames(c: Circumstances, hasTrusted: bool, e: CacheError) {
    match e
    case Lock => !c.locks
    case Metadata =>
      || (c.locks && hasTrusted && c.trusted == Unknown)
      || (Usable(c) && ((!hasTrusted && c.stored == Unknown) || !c.moves.known))
    case CreateDir => c.locks && (c.temporary ==> Usable(c) && c.moves.known && !c.moves.backup)
    case FetchFailed => c.locks && c.temporary && c.remote.None?
    case UnreadablePackage =>
      Arrives(c) && c.fetched != OverBudget && (c.fetched == Readable ==> c.remote.value.manifest.None?)
    case IngestionPolicy =>
      || (c.locks && hasTrusted && c.trusted == OverBudget)
      || (Arrives(c) && c.fetched == OverBudget)
      || (Usable(c) && !hasTrusted && c.stored == OverBudget)
    case CacheIntegrity(_, _) => Usable(c) && hasTrusted
    case Rename(_, _) => Usable(c) && c.moves.known && (c.moves.aside ==> !c.moves.publish)
    case CacheRollback(_, _) =>
      Usable(c) && c.moves.known && c.moves.backup && c.moves.aside && !c.moves.publish && !c.moves.restore
  }

  class PackageCache {
    const disk: CacheDirectory
    const sha: nat -> nat
    const trusted: map<nat, nat>
    var session: map<nat, Materialized>
    ghost var fetches: nat

    constructor (disk: CacheDirectory, sha: nat -> nat, trusted: map<nat, nat>)
      requires disk.Valid()
      ensures this.disk == disk && this.sha == sha && this.trusted == trusted && session == map[] && Valid()
    {
      this.disk, this.sha, this.trusted, session, fetches := disk, sha, trusted, map[], 0;
    }

    ghost predicate Valid()
      reads this, disk
    {
      disk.Valid() && AllBacked(disk.files, sha, trusted, session)
    }

    /** The checkout stored under the trusted digest, when it is intact. */
    function Intact(source: nat, access: Access): Option<Materialized>
      reads disk
    {
      if source in trusted then Reusable(disk.files, sha, source, trusted[source], access) else None
    }

    /** A fetch is made, works, and settles. */
    ghost predicate Refetches(source: nat, c: Circumstances)
      reads disk
    {
      c.temporary && c.remote.Some? && Settles(disk.files, sha, trusted, source, c.remote.value, c)
    }

    /** What it takes to get a checkout. */
    ghost predicate Succeeds(source: nat, c: Circumstances)
      reads this, disk
    {
      || source in session
      || (&& c.locks
          && (|| Intact(source, c.trusted).Some?
              || (&& (source in trusted ==> Existing(disk.files, sha, Checkout(source, trusted[source]), c.trusted).Ok?)
                  && Refetches(source, c))))
    }

    /** A fetch fills the temporary directory, or fails. */
    method Fetch(temporary: Location, remote: Option<Contents>) returns (ok: bool)
      requires disk.Valid() && temporary.Temporary? && temporary.serial < disk.serial
      modifies this`fetches, disk
      ensures disk.Valid() && fetches == old(fetches) + 1 && ok == remote.Some?
      ensures disk.files == if ok then old(disk.files)[temporary := remote.value] else old(disk.files)
    {
      fetches := fetches + 1;
      if remote.Some? {
        disk.Store(temporary, remote.value);
      }
      ok := remote.Some?;
    }

    /** The checkout of a source. */
    method MaterializeWith(source: nat, c: Circumstances) returns (r: Result<Materialized, CacheError>)
      requires Valid()
      modifies this, disk
      ensures Valid()
      ensures source in old(session) ==>
        r == Ok(old(session)[source]) && session == old(session) && disk.files == old(disk.files)
        && fetches == old(fetches)
      ensures source !in old(session) && c.locks && old(Intact(source, c.trusted)).Some? ==>
        r == Ok(old(Intact(source, c.trusted)).value) && disk.files == old(disk.files) && fetches == old(fetches)
      ensures r.Ok? ==> session == old(session)[source := r.value] && Backed(disk.files, sha, trusted, source, r.value)
      ensures r.Ok? && source !in old(session) && old(Intact(source, c.trusted)).None? ==>
        fetches == old(fetches) + 1 && c.remote.Some? && r.value.digest == sha(c.remote.value.tree)
      ensures r.Ok? && source !in old(session) && old(Intact(source, c.trusted)).None? ==>
        match Reused(old(disk.files), sha, trusted, source, sha(c.remote.value.tree), c.stored)
        case Some(m) => r.value == m && disk.files == old(disk.files)
        case None =>
          && c.remote.value.manifest == Some(r.value.manifest)
          && disk.files == old(disk.files)[Checkout(source, r.value.digest) := c.remote.value]
      ensures r.Ok? <==> old(Succeeds(source, c))
      ensures r.Err? ==> Blames(c, source in trusted, r.error)
      ensures source !in old(session) && Smooth(c) && Passes(source, sha(c.remote.value.tree)) ==>
        && r.Ok? && r.value.digest == sha(c.remote.value.tree)
        && (Checkout(source, r.value.digest) !in old(disk.files) ==>
              && r.value.manifest == c.remote.value.manifest.value
              && disk.files == old(disk.files)[Checkout(source, r.value.digest) := c.remote.value])
      ensures r.Err? ==> session == old(session)
      ensures r.Err? && r.error.CacheIntegrity? ==>
        && source in trusted && r.error.expected == trusted[source] != r.error.actual
        && c.remote.Some? && r.error.actual == sha(c.remote.value.tree)
      ensures OthersKept(old(disk.files), disk.files, source)
      ensures AllSurvive(old(disk.files), disk.files, source, r, None)
    {
      if source in session {
        return Ok(session[source]);
      }
      if !c.locks {
        return Err(Lock);
      }
      var trustedCheckout: Option<Materialized> := None;
      if source in trusted {
        var existing := Existing(disk.files, sha, Checkout(source, trusted[source]), c.trusted);
        if existing.Err? {
          return Err(existing.error);
        }
        if existing.value.Some? && existing.value.value.digest == trusted[source] {
          session := session[source := existing.value.value];
          return Ok(existing.value.value);
        }
        trustedCheckout := existing.value;
      }
      r := Refetch(source, trustedCheckout, c);
    }

    /** Fetch the source and settle which checkout is stored for it. */
    method Refetch(source: nat, trustedCheckout: Option<Materialized>, c: Circumstances)
      returns (r: Result<Materialized, CacheError>)
      requires Valid() && source !in session && c.locks
      requires trustedCheckout.Some? ==>
        && source in trusted && trustedCheckout.value.digest != trusted[source]
        && Holds(disk.files, sha, Checkout(source, trusted[source]), trustedCheckout.value)
      modifies this, disk
      ensures Valid()
      ensures r.Ok? ==> session == old(session)[source := r.value] && Backed(disk.files, sha, trusted, source, r.value)
      ensures r.Ok? ==> fetches == old(fetches) + 1 && c.remote.Some? && r.value.digest == sha(c.remote.value.tree)
      ensures r.Ok? ==>
        match Reused(old(disk.files), sha, trusted, source, sha(c.remote.value.tree), c.stored)
        case Some(m) => r.value == m && disk.files == old(disk.files)
        case None =>
          && c.remote.value.manifest == Some(r.value.manifest)
          && disk.files == old(disk.files)[Checkout(source, r.value.digest) := c.remote.value]
      ensures r.Ok? <==> old(Refetches(source, c))
      ensures r.Err? ==> Blames(c, source in trusted, r.error)
      ensures r.Err? ==> session == old(session)
      ensures r.Err? && r.error.CacheIntegrity? ==>
        && source in trusted && r.error.expected == trusted[source] != r.error.actual
        && c.remote.Some? && r.error.actual == sha(c.remote.value.tree)
      ensures OthersKept(old(disk.files), disk.files, source)
      ensures AllSurvive(old(disk.files), disk.files, source, r, None)
    {
      hide AllSurvive, OthersKept, AllBacked, Backed, Settles, Reused;
      ghost var before := disk.files;
      var temporary := disk.CreateTemporary(c.temporary);
      UnchangedSurvives(before, source, Err(CreateDir));
      if temporary.None? {
        return Err(CreateDir);
      }
      UnchangedSurvives(before, source, Err(FetchFailed));
      var ok := Fetch(temporary.value, c.remote);
      if !ok {
        disk.Drop(temporary.value);
        assert disk.files == before;
        return Err(FetchFailed);
      }
      ghost var stored := disk.files;
      CheckoutsOnly(before, stored, sha, trusted, session);
      r := Settle(source, temporary.value, trustedCheckout, c);
      ghost var settled := disk.files;
      TemporaryAside(before, stored, settled, temporary.value, c.remote.value, source, r);
      disk.Drop(temporary.value);
      CheckoutsOnly(settled, disk.files, sha, trusted, session);
    }

    /** Check the fetched checkout and settle which one is stored. */
    method Settle(source: nat, temporary: Location, trustedCheckout: Option<Materialized>, c: Circumstances)
      returns (r: Result<Materialized, CacheError>)
      requires Valid() && source !in session && temporary.Temporary? && temporary in disk.files
      requires Arrives(c) && c.remote.value == disk.files[temporary]
      requires trustedCheckout.Some? ==>
        && source in trusted && trustedCheckout.value.digest != trusted[source]
        && Holds(disk.files, sha, Checkout(source, trusted[source]), trustedCheckout.value)
      modifies this`session, disk
      ensures Valid()
      ensures r.Ok? ==> session == old(session)[source := r.value] && Backed(disk.files, sha, trusted, source, r.value)
      ensures r.Ok? ==> r.value.digest == sha(old(disk.files)[temporary].tree)
      ensures r.Ok? ==>
        var contents := old(disk.files)[temporary];
        match Reused(old(disk.files), sha, trusted, source, sha(contents.tree), c.stored)
        case Some(m) => r.value == m && disk.files == old(disk.files)
        case None =>
          && contents.manifest == Some(r.value.manifest)
          && disk.files == old(disk.files)[Checkout(source, r.value.digest) := contents] - {temporary}
      ensures r.Ok? <==> old(Settles(disk.files, sha, trusted, source, disk.files[temporary], c))
      ensures r.Err? ==> Blames(c, source in trusted, r.error)
      ensures r.Err? ==> session == old(session)
      ensures r.Err? && r.error.CacheIntegrity? ==>
        && source in trusted && r.error.expected == trusted[source] != r.error.actual
        && r.error.actual == sha(old(disk.files)[temporary].tree)
      ensures OthersKept(old(disk.files), disk.files, source)
      ensures AllSurvive(old(disk.files), disk.files, source, r, Some(temporary))
      ensures r.Err? && r.error.CacheRollback? ==> r.error.preserved != temporary
    {
      var fetched := Fetched(disk.files[temporary], sha, c.fetched);
      if fetched.Err? {
        return fetched;
      }
      var m := fetched.value;
      if !Passes(source, m.digest) {
        return Err(CacheIntegrity(trusted[source], m.digest));
      }
      var path := Checkout(source, m.digest);
      var stored := trustedCheckout;
      if !(source in trusted && trusted[source] == m.digest) {
        var existing := Existing(disk.files, sha, path, c.stored);
        if existing.Err? {
          return Err(existing.error);
        }
        stored := existing.value;
      }
      if stored.Some? && stored.value.digest == m.digest {
        m := stored.value;
      } else {
        var error := disk.Publish(temporary, path, c.moves);
        if error.Some? {
          return Err(error.value);
        }
      }
      session := session[source := m];
      r := Ok(m);
    }

    /** A trusted digest, when there is one, must be matched. */
    predicate Passes(source: nat, digest: nat) {
      source in trusted ==> digest == trusted[source]
    }
  }
}
