/** The two-layer job cache (`LocalCache`): a local archive, its ETag sidecar and an S3 object
    that change in separate steps, with a possible crash between any two. */
module JobCache {
  import opened Bytes
  import opened Options

  type Content = seq<byte>
  type ETag = nat

  datatype Object = Object(content: Content, etag: ETag)

  /** The sidecar file. A torn write leaves an unfinished quoted string, which no ETag equals. */
  datatype Sidecar = Absent | Torn | Tag(etag: ETag)

  /** Everything there is under one key, on this host and in S3. */
  datatype World = World(
    archive: Option<Content>,
    sidecar: Sidecar,
    stored: Option<Object>,
    /** Every object S3 has had; an ETag is never used twice. */
    history: map<ETag, Content>,
    /** Archives this host saved, and the ETag its sidecar held at that moment. */
    ownSaves: set<(Content, ETag)>)

  /** S3 has had this object and has it no more; with fresh ETags, for ever. */
  predicate Dead(w: World, e: ETag) {
    e in w.history && !(w.stored.Some? && w.stored.value.etag == e)
  }

  predicate Recorded(w: World, o: Object) {
    o.etag in w.history && w.history[o.etag] == o.content
  }

  /** What a restore may extract when S3 has `o`: its content, or this host's own save made
      on top of exactly that object. */
  predicate StandsFor(w: World, a: Content, o: Object) {
    a == o.content || (a, o.etag) in w.ownSaves
  }

  /** The invariant: an archive with a sidecar may stand for the object the sidecar names, or
      S3 does not have that object any more. */
  predicate Agrees(w: World) {
    && (w.stored.Some? ==> Recorded(w, w.stored.value))
    && (w.sidecar.Tag? ==> w.sidecar.etag in w.history)
    && (w.archive.Some? && w.sidecar.Tag? && !Dead(w, w.sidecar.etag) ==>
          StandsFor(w, w.archive.value, Object(w.history[w.sidecar.etag], w.sidecar.etag)))
  }

  /** Time passes in S3: objects are recorded for ever, and never come back. */
  predicate MovesOn(w: World, v: World) {
    && w.ownSaves <= v.ownSaves
    && (forall e | e in w.history :: e in v.history && v.history[e] == w.history[e])
    && (forall e | e in w.history && Dead(w, e) :: Dead(v, e))
  }

  /** What others may do while this host works on the key: anything in S3, and evictions. */
  predicate Drifts(w: World, v: World) {
    && MovesOn(w, v)
    && v.archive in {w.archive, None} && v.sidecar in {w.sidecar, Absent} && v.ownSaves == w.ownSaves
  }

  lemma MovesOnAgain(w: World, v: World, u: World)
    requires MovesOn(w, v) && MovesOn(v, u)
    ensures MovesOn(w, u)
  {
  }

  lemma DriftsAgain(w: World, v: World, u: World)
    requires Drifts(w, v) && Drifts(v, u)
    ensures Drifts(w, u)
  {
    MovesOnAgain(w, v, u);
  }

  /** A download is stored: the sidecar still names the object before it, or the same one. */
  lemma {:induction false} DownloadAgrees(seen: World, w: World, o: Object)
    requires Agrees(seen) && seen.stored == Some(o) && Agrees(w) && Drifts(seen, w)
    ensures Agrees(w.(archive := Some(o.content))) && MovesOn(w, w.(archive := Some(o.content)))
  {
  }

  /** An archive is saved: on top of whatever the sidecar names. */
  function Saved(w: World, a: Content): World {
    w.(archive := Some(a), ownSaves := if w.sidecar.Tag? then w.ownSaves + {(a, w.sidecar.etag)} else w.ownSaves)
  }

  lemma {:induction false} SaveAgrees(w: World, a: Content)
    requires Agrees(w)
    ensures Agrees(Saved(w, a)) && MovesOn(w, Saved(w, a))
  {
  }

  /** A sidecar may name any object the archive is. */
  lemma TagAgrees(w: World, o: Object)
    requires Agrees(w) && Recorded(w, o) && (w.archive.Some? ==> w.archive.value == o.content)
    ensures Agrees(w.(sidecar := Tag(o.etag))) && Agrees(w.(sidecar := Torn)) && Agrees(w.(sidecar := Absent))
  {
  }

  /** What the answer 304 means, to the sidecar read before the question. */
  lemma {:induction false} NotModifiedMeans(asked: World, seen: World, o: Object)
    requires Agrees(asked) && Agrees(seen) && MovesOn(asked, seen)
    requires seen.stored == Some(o) && asked.sidecar == Tag(o.etag) && asked.archive.Some?
    ensures StandsFor(asked, asked.archive.value, o)
  {
    assert !Dead(asked, o.etag);
  }

  /** Why a restored archive is the one to use: S3 was not asked or gave nothing, confirmed it, or sent it. */
  datatype Source = Local | S3NotModified | S3Downloaded

  /** Outcome of `fetch`; a crash may end it between any two steps. */
  datatype Fetched = Found(source: Source) | Missing | Failed | Crashed

  /** Outcome of `get_to_file`. */
  datatype Download = NotModified | NotFound | Downloaded(content: Content, etag: Option<ETag>) | Unavailable

  /** Outcome of `save`. */
  datatype SaveResult = NothingToSave | Kept(upload: Option<bool>) | SaveFailed | SaveCrashed

  /** What a step of the world may mean to the file system. */
  datatype Write = Done | TornWrite | NotDone | CrashedWrite

  method AnyWrite() returns (w: Write)
  {
    if
    case true => w := Done;
    case true => w := TornWrite;
    case true => w := NotDone;
    case true => w := CrashedWrite;
  }

  lemma {:induction false} Above(tags: set<ETag>) returns (bound: ETag)
    ensures forall e | e in tags :: e < bound
    decreases |tags|
  {
    if tags == {} {
      bound := 0;
    } else {
      var e :| e in tags;
      var b := Above(tags - {e});
      bound := Max(b, e + 1);
      assert tags == (tags - {e}) + {e};
    }
  }

  class CacheEntry {
    var archive: Option<Content>
    var sidecar: Sidecar
    var stored: Option<Object>
    var history: map<ETag, Content>
    ghost var ownSaves: set<(Content, ETag)>

    ghost function Now(): World
      reads this
    {
      World(archive, sidecar, stored, history, ownSaves)
    }

    constructor ()
      ensures Agrees(Now()) && archive.None? && stored.None? && history == map[] && ownSaves == {}
    {
      archive, sidecar, stored, history, ownSaves := None, Absent, None, map[], {};
    }

    /** Another host, or a late upload of this one, puts an object under the key. */
    method Put(content: Content) returns (etag: ETag)
      requires Agrees(Now())
      modifies `stored, `history
      ensures Agrees(Now()) && Drifts(old(Now()), Now())
      ensures stored == Some(Object(content, etag)) && etag !in old(history)
    {
      etag := FreshTag();
      stored, history := Some(Object(content, etag)), history[etag := content];
    }

    method FreshTag() returns (etag: ETag)
      ensures etag !in history
    {
      ghost var bound := Above(history.Keys);
      assert bound !in history;
      etag :| etag !in history;
    }

    /** Anything may happen in S3, and an eviction by another job may take the files. */
    method Interfere()
      requires Agrees(Now())
      modifies `stored, `history, `archive, `sidecar
      ensures Agrees(Now()) && Drifts(old(Now()), Now())
    {
      var steps: int := *;
      while steps > 0
        invariant Agrees(Now()) && Drifts(old(Now()), Now())
        decreases steps
      {
        ghost var before := Now();
        if {
          case true =>
            var content: Content := *;
            var _ := Put(content);
          case true => stored := None;
          case true => archive := None;
          case true => sidecar := Absent;
        }
        DriftsAgain(old(Now()), before, Now());
        steps := steps - 1;
      }
    }

    /** `evict`, for the files of this key: an archive unused for longer than `maxAge` goes, and
        its sidecar with it, one file after the other. `age` is missing if it cannot be read;
        `refused` says that the file system kept one of them. */
    method Evict(maxAge: Option<nat>, age: Option<nat>) returns (refused: bool)
      requires Agrees(Now())
      modifies `stored, `history, `archive, `sidecar
      ensures Agrees(Now()) && Drifts(old(Now()), Now())
      ensures maxAge.None? || age.None? || age.value <= maxAge.value ==> Now() == old(Now())
      ensures maxAge.Some? && age.Some? && age.value > maxAge.value && !refused ==> archive.None? && sidecar.Absent?
    {
      refused := false;
      if maxAge.None? {
        return;
      }
      if age.Some? && age.value > maxAge.value {
        if * {
          refused := true;
        } else {
          archive := None;
        }
        ghost var before := Now();
        Interfere();
        DriftsAgain(old(Now()), before, Now());
        if * {
          refused := true;
        } else {
          sidecar := Absent;
        }
      }
    }

    /** `get_to_file`: a conditional GET. `seen` is what S3 had when it answered. */
    method Get(known: Sidecar) returns (d: Download, ghost seen: World)
      requires Agrees(Now())
      modifies `stored, `history, `archive, `sidecar
      ensures Agrees(Now()) && Agrees(seen) && Drifts(old(Now()), seen) && Drifts(seen, Now())
      ensures d.NotModified? ==> known.Tag? && seen.stored.Some? && seen.stored.value.etag == known.etag
      ensures d.NotFound? ==> seen.stored.None?
      ensures d.Downloaded? ==> seen.stored.Some? && d.content == seen.stored.value.content
      ensures d.Downloaded? && d.etag.Some? ==> d.etag.value == seen.stored.value.etag
      ensures known.Tag? && seen.stored.Some? && seen.stored.value.etag == known.etag ==> !d.Downloaded?
    {
      Interfere();
      seen := Now();
      var current := stored;
      Interfere();
      if * {
        return Unavailable, seen;
      }
      if current.None? {
        d := NotFound;
      } else if known.Tag? && known.etag == current.value.etag {
        d := NotModified;
      } else if * {
        d := Downloaded(current.value.content, None);
      } else {
        d := Downloaded(current.value.content, Some(current.value.etag));
      }
    }

    /** Write, or remove, the sidecar; this may fail, or be interrupted half-way. */
    method WriteSidecar(etag: Option<ETag>, ghost o: Object) returns (w: Write)
      requires Agrees(Now()) && Recorded(Now(), o) && (archive.Some? ==> archive.value == o.content)
      requires etag.Some? ==> etag.value == o.etag
      modifies `sidecar
      ensures Agrees(Now()) && MovesOn(old(Now()), Now())
      ensures w.Done? ==> sidecar == if etag.Some? then Tag(etag.value) else Absent
      ensures sidecar in {old(sidecar), Torn, Absent} || sidecar == Tag(o.etag)
    {
      TagAgrees(Now(), o);
      w := AnyWrite();
      match w
      case Done => sidecar := if etag.Some? then Tag(etag.value) else Absent;
      case NotDone =>
      case _ =>
        if etag.Some? {
          sidecar := Torn;
        }
    }

    /** `fetch`: ask S3 for something newer than the local archive, and store what it sends. */
    method Fetch(maxAge: Option<nat>) returns (r: Fetched, ghost seen: World, ghost sent: Option<ETag>)
      requires Agrees(Now())
      modifies this
      ensures Agrees(Now()) && ownSaves == old(ownSaves) && MovesOn(old(Now()), seen) && MovesOn(seen, Now())
      ensures Agrees(seen)
      // S3 has the key: the local archive, if nobody evicted it since, stands for what S3 had.
      ensures r.Found? ==> r.source != Local && seen.stored.Some?
      ensures r.Found? && archive.Some? ==> StandsFor(Now(), archive.value, seen.stored.value)
      ensures r == Found(S3Downloaded) && archive.Some? ==> archive.value == seen.stored.value.content
      // What it sent is labelled with the ETag it sent along, and with nothing else.
      ensures r == Found(S3Downloaded) && sent.Some? ==> sent == Some(seen.stored.value.etag)
      ensures r == Found(S3Downloaded) && sent.Some? ==> sidecar in {Tag(sent.value), Absent}
      // S3 does not have it: the local files stay as they are.
      ensures r.Missing? ==> seen.stored.None? && Drifts(old(Now()), Now())
      // It failed: they stay as well, or what S3 had is stored but could not be labelled.
      ensures r.Failed? ==>
                || archive in {old(archive), None}
                || (seen.stored.Some? && archive == Some(seen.stored.value.content))
    {
      var known := Absent;
      if archive.Some? {
        Interfere();
        if * {
          known := sidecar;
        }
      }
      ghost var asked := Now();
      Interfere();
      var d;
      d, seen := Get(known);
      match d
      case Unavailable => return Failed, seen, None;
      case NotFound => return Missing, seen, None;
      case NotModified =>
        if archive.Some? {
          NotModifiedMeans(asked, seen, seen.stored.value);
        }
        return Found(S3NotModified), seen, None;
      case Downloaded(content, etag) =>
        sent := etag;
        r := Store(content, etag, maxAge, seen);
    }

    /** The download replaces the archive, then its ETag the sidecar. */
    method Store(content: Content, etag: Option<ETag>, maxAge: Option<nat>, ghost seen: World) returns (r: Fetched)
      requires Agrees(Now()) && Agrees(seen) && Drifts(seen, Now())
      requires seen.stored.Some? && content == seen.stored.value.content
      requires etag.Some? ==> etag.value == seen.stored.value.etag
      modifies this
      ensures Agrees(Now()) && MovesOn(seen, Now()) && ownSaves == old(ownSaves)
      ensures r in {Found(S3Downloaded), Failed, Crashed}
      ensures r.Found? && archive.Some? ==> archive.value == content
      ensures r.Found? && etag.Some? ==> sidecar in {Tag(etag.value), Absent}
      ensures r.Failed? ==> archive in {old(archive), None, Some(content)}
    {
      ghost var o := seen.stored.value;
      if * {
        return Failed;
      } else if * {
        return Crashed;
      }
      DownloadAgrees(seen, Now(), o);
      archive := Some(content);
      Interfere();
      var w := WriteSidecar(etag, o);
      if w.CrashedWrite? {
        return Crashed;
      }
      if w != Done && etag.Some? {
        return Failed;
      }
      Interfere();
      var age: Option<nat> := *;
      var _ := Evict(maxAge, age);
      r := Found(S3Downloaded);
    }

    /** One upload: S3 may process the request any number of times, or not at all, whatever
        the answer is. `o` is the object a successful answer speaks of. */
    method Upload(content: Content) returns (ok: bool, etag: Option<ETag>, ghost o: Object)
      requires Agrees(Now())
      modifies `stored, `history, `archive, `sidecar
      ensures Agrees(Now()) && Drifts(old(Now()), Now())
      ensures ok ==> Recorded(Now(), o) && o.content == content && (etag.Some? ==> etag.value == o.etag)
    {
      Interfere();
      ok, etag, o := false, None, Object(content, 0);
      if archive.None? {
        return;
      }
      if * {
        return;
      }
      var tag := Put(content);
      ghost var put := Now();
      o := Object(content, tag);
      Interfere();
      DriftsAgain(old(Now()), put, Now());
      if * {
        return;
      }
      ok := true;
      if * {
        etag := Some(tag);
      }
    }

    /** Archive files under the key and upload them, if there is a bucket. */
    method Save(content: Option<Content>, remote: bool, maxAge: Option<nat>)
      returns (r: SaveResult, ghost labelled: bool)
      requires Agrees(Now())
      modifies this
      ensures Agrees(Now()) && MovesOn(old(Now()), Now())
      // Nothing to save changes nothing here; a save leaves its archive, unless it was evicted since.
      ensures content.None? ==> ownSaves == old(ownSaves) && archive in {old(archive), None}
      ensures r.Kept? ==> content.Some? && archive in {content, None} && (remote <==> r.upload.Some?)
      ensures r.NothingToSave? ==> content.None?
      // Without a successful upload the sidecar is what it was, or gone.
      ensures r == Kept(Some(false)) ==> sidecar in {old(sidecar), Absent}
      // After an upload a sidecar that names a new object names this archive.
      ensures r == Kept(Some(true)) && sidecar.Tag? && sidecar != old(sidecar) ==>
                Recorded(Now(), Object(content.value, sidecar.etag))
      // The sidecar is replaced after an upload and removed without a bucket, unless the file system refuses.
      ensures r == Kept(Some(true)) && labelled && sidecar.Tag? ==>
                Recorded(Now(), Object(content.value, sidecar.etag))
      ensures r == Kept(None) && labelled ==> sidecar.Absent?
    {
      labelled := false;
      Interfere();
      if * {
        return SaveFailed, false;
      }
      if content.None? {
        return NothingToSave, false;
      }
      var a := content.value;
      SaveAgrees(Now(), a);
      ownSaves := if sidecar.Tag? then ownSaves + {(a, sidecar.etag)} else ownSaves;
      archive := Some(a);
      if * {
        return SaveCrashed, false;
      }
      r, labelled := Publish(a, remote);
      if r.Kept? {
        var age: Option<nat> := *;
        var _ := Evict(maxAge, age);
      }
    }

    /** What `save` does once the archive is in place. */
    method Publish(content: Content, remote: bool) returns (r: SaveResult, ghost labelled: bool)
      requires Agrees(Now()) && archive == Some(content)
      modifies `stored, `history, `archive, `sidecar
      ensures Agrees(Now()) && MovesOn(old(Now()), Now()) && archive in {Some(content), None}
      ensures r.Kept? || r.SaveCrashed?
      ensures r.Kept? ==> (remote <==> r.upload.Some?)
      ensures r == Kept(Some(false)) ==> sidecar in {old(sidecar), Absent}
      ensures r == Kept(Some(true)) && sidecar.Tag? && sidecar != old(sidecar) ==>
                Recorded(Now(), Object(content, sidecar.etag))
      ensures r == Kept(Some(true)) && labelled && sidecar.Tag? ==> Recorded(Now(), Object(content, sidecar.etag))
      ensures r == Kept(None) && labelled ==> sidecar.Absent?
    {
      labelled := false;
      if !remote {
        if * {
          sidecar, labelled := Absent, true;
        }
        return Kept(None), labelled;
      }
      var ok, etag, o := Upload(content);
      if * {
        return SaveCrashed, false;
      }
      if ok {
        var w := WriteSidecar(etag, o);
        labelled := w.Done?;
        if w.CrashedWrite? {
          return SaveCrashed, false;
        }
      }
      r := Kept(Some(ok));
    }
  }

  // ---- Restoring ----

  /** Between two operations of this job on a key, other jobs may run any of theirs. */
  method OthersRun(entry: CacheEntry, maxAge: Option<nat>)
    requires Agrees(entry.Now())
    modifies entry
    ensures Agrees(entry.Now()) && MovesOn(old(entry.Now()), entry.Now())
  {
    var jobs: int := *;
    while jobs > 0
      invariant Agrees(entry.Now()) && MovesOn(old(entry.Now()), entry.Now())
      decreases jobs
    {
      if {
        case true =>
          var content: Option<Content>, remote: bool := *, *;
          var _, _ := entry.Save(content, remote, maxAge);
        case true =>
          var _, _, _ := entry.Fetch(maxAge);
        case true =>
          entry.Interfere();
      }
      jobs := jobs - 1;
    }
  }

  /** What one key came to. `warned` says that asking S3 for it failed: there was no
      answer, or the object it sent could not be stored. */
  datatype Look =
    | Extracted(content: Content, source: Source, warned: bool)
    | NoArchive(warned: bool)
    | LookFailed
    | LookCrashed

  /** What a restore promises about an archive it extracted. `before` is what there was under
      the key when it began, `seen` when S3 answered. Only after a warning may the archive be
      another one than S3 has: then it is the local copy there was, however old, or what S3 had. */
  ghost predicate Justified(l: Look, before: World, seen: World, now: World, remote: bool)
    requires l.Extracted?
  {
    match l.source
    case Local =>
      if !remote then before.archive == Some(l.content)
      else if l.warned then
        before.archive == Some(l.content) || (seen.stored.Some? && l.content == seen.stored.value.content)
      else before.archive == Some(l.content) && seen.stored.None?
    case S3NotModified => remote && !l.warned && seen.stored.Some? && StandsFor(now, l.content, seen.stored.value)
    case S3Downloaded => remote && !l.warned && seen.stored.Some? && l.content == seen.stored.value.content
  }

  /** One turn of `restore`. */
  method RestoreKey(entry: CacheEntry, remote: bool, maxAge: Option<nat>) returns (l: Look, ghost seen: World)
    requires Agrees(entry.Now())
    modifies entry
    ensures Agrees(entry.Now()) && Agrees(seen)
    ensures MovesOn(old(entry.Now()), seen) && MovesOn(seen, entry.Now())
    ensures l.Extracted? ==> Justified(l, old(entry.Now()), seen, entry.Now(), remote)
    ensures l.Extracted? ==> entry.archive == Some(l.content)
    ensures l.NoArchive? ==> entry.archive.None?
    ensures !remote ==> entry.Now() == old(entry.Now())
  {
    seen := entry.Now();
    // The job was told to stop.
    if * {
      return LookFailed, seen;
    }
    var source, warned := Local, false;
    if remote {
      var fetched;
      ghost var sent;
      fetched, seen, sent := entry.Fetch(maxAge);
      match fetched
      case Found(from) => source := from;
      case Missing =>
      case Failed => warned := true;
      case Crashed => return LookCrashed, seen;
    }
    if entry.archive.None? {
      return NoArchive(warned), seen;
    }
    // The archive cannot be read or does not extract.
    if * {
      return LookFailed, seen;
    }
    l := Extracted(entry.archive.value, source, warned);
  }

  datatype Restored = Hit(key: nat, look: Look) | NoHit | NotRestored

  /** What there was under a key when its turn came, when S3 answered, and when its turn was over. */
  datatype Turn = Turn(before: World, seen: World, after: World)

  function Warnings(looks: seq<Look>): nat {
    if looks == [] then 0
    else
      var last := looks[|looks| - 1];
      Warnings(looks[..|looks| - 1]) + if Warned(last) then 1 else 0
  }

  predicate Warned(l: Look) {
    (l.Extracted? || l.NoArchive?) && l.warned
  }

  /** A look at a key came to what there was: an archive that is justified, or none. Only asking S3 changes it. */
  ghost predicate Told(l: Look, turn: Turn, remote: bool) {
    && Agrees(turn.seen) && MovesOn(turn.before, turn.seen) && MovesOn(turn.seen, turn.after)
    && (l.Extracted? ==> Justified(l, turn.before, turn.seen, turn.after, remote))
    && (l.Extracted? ==> turn.after.archive == Some(l.content))
    && (l.NoArchive? ==> turn.after.archive == None) && (!remote ==> turn.after == turn.before)
  }

  ghost predicate AllTold(looks: seq<Look>, turns: seq<Turn>, remote: bool) {
    && |looks| == |turns|
    && forall j {:trigger Told(looks[j], turns[j], remote)} | 0 <= j < |looks| :: Told(looks[j], turns[j], remote)
  }

  lemma OneLookMore(looks: seq<Look>, look: Look, turns: seq<Turn>, turn: Turn, remote: bool)
    requires AllTold(looks, turns, remote) && Told(look, turn, remote)
    ensures AllTold(looks + [look], turns + [turn], remote)
    ensures Warnings(looks + [look]) == Warnings(looks) + if Warned(look) then 1 else 0
  {
    assert (looks + [look])[..|looks|] == looks;
  }

  // ---- All keys ----

  ghost function Worlds(keys: seq<CacheEntry>): (worlds: seq<World>)
    reads keys
    ensures |worlds| == |keys| && forall i | 0 <= i < |keys| :: worlds[i] == keys[i].Now()
  {
    if keys == [] then [] else [keys[0].Now()] + Worlds(keys[1..])
  }

  ghost predicate AllAgree(keys: seq<CacheEntry>)
    reads keys
  {
    forall k | k in keys :: Agrees(k.Now())
  }

  ghost predicate AllMoveOn(ws: seq<World>, vs: seq<World>) {
    |ws| == |vs| && forall i {:trigger MovesOn(ws[i], vs[i])} | 0 <= i < |ws| :: MovesOn(ws[i], vs[i])
  }

  /** The turns lie between the worlds the restore began in and those of now. */
  ghost predicate Between(ws: seq<World>, turns: seq<Turn>, vs: seq<World>) {
    && |turns| <= |ws| == |vs|
    && forall j {:trigger Lies(ws[j], turns[j], vs[j])} | 0 <= j < |turns| :: Lies(ws[j], turns[j], vs[j])
  }

  ghost predicate Lies(w: World, turn: Turn, v: World) {
    MovesOn(w, turn.before) && MovesOn(turn.after, v)
  }

  lemma AllMoveOnAgain(ws: seq<World>, vs: seq<World>, us: seq<World>)
    requires AllMoveOn(ws, vs) && AllMoveOn(vs, us)
    ensures AllMoveOn(ws, us)
  {
    forall i | 0 <= i < |ws| ensures MovesOn(ws[i], us[i]) {
      MovesOnAgain(ws[i], vs[i], us[i]);
    }
  }

  lemma OneTurnMore(ws: seq<World>, turns: seq<Turn>, vs: seq<World>, turn: Turn, us: seq<World>)
    requires Between(ws, turns, vs) && AllMoveOn(ws, vs) && AllMoveOn(vs, us) && |turns| < |ws|
    requires MovesOn(vs[|turns|], turn.before) && turn.after == us[|turns|]
    ensures Between(ws, turns + [turn], us) && AllMoveOn(ws, us)
  {
    AllMoveOnAgain(ws, vs, us);
    var more := turns + [turn];
    forall j | 0 <= j < |turns| ensures Lies(ws[j], more[j], us[j]) {
      assert Lies(ws[j], turns[j], vs[j]) && MovesOn(vs[j], us[j]);
      MovesOnAgain(turns[j].after, vs[j], us[j]);
    }
    MovesOnAgain(ws[|turns|], vs[|turns|], turn.before);
    assert Lies(ws[|turns|], more[|turns|], us[|turns|]);
  }

  lemma NoTurnYet(ws: seq<World>)
    ensures AllMoveOn(ws, ws) && Between(ws, [], ws)
  {
  }

  /** The turn of one key, with other jobs at work before it. */
  method TakeTurn(keys: seq<CacheEntry>, i: nat, remote: bool, maxAge: Option<nat>)
    returns (look: Look, ghost turn: Turn)
    requires i < |keys| && AllAgree(keys)
    modifies keys
    ensures AllAgree(keys) && AllMoveOn(old(Worlds(keys)), Worlds(keys)) && Told(look, turn, remote)
    ensures MovesOn(old(Worlds(keys))[i], turn.before) && turn.after == Worlds(keys)[i]
  {
    var key := keys[i];
    OthersRun(key, maxAge);
    ghost var before, seen := key.Now(), key.Now();
    look, seen := RestoreKey(key, remote, maxAge);
    turn := Turn(before, seen, key.Now());
    MovesOnAgain(before, seen, key.Now());
    MovesOnAgain(old(key.Now()), before, key.Now());
    forall j | 0 <= j < |keys| ensures MovesOn(old(Worlds(keys))[j], Worlds(keys)[j]) {
      if keys[j] != key {
        assert keys[j].Now() == old(keys[j].Now());
      }
    }
  }

  /** `restore`: the keys are looked at one after the other, and the first under which there is an archive
      anywhere is the one. Unless asking S3 for that key failed, what comes out is what S3 had, or a save of
      this host on top of exactly that, or, where S3 had nothing, the local copy. `looks` is what each key
      came to, and `turns` what there was under it. */
  method RestoreFirst(keys: seq<CacheEntry>, remote: bool, maxAge: Option<nat>)
    returns (r: Restored, warnings: nat, looks: seq<Look>, ghost turns: seq<Turn>)
    requires AllAgree(keys)
    modifies keys
    ensures AllAgree(keys) && AllMoveOn(old(Worlds(keys)), Worlds(keys))
    ensures AllTold(looks, turns, remote) && Between(old(Worlds(keys)), turns, Worlds(keys))
    // All looks but the last found nothing; the last one decides.
    ensures forall j | 0 <= j < |looks| - 1 :: looks[j].NoArchive?
    ensures r.Hit? ==> |looks| == r.key + 1 && looks[r.key] == r.look && r.look.Extracted?
    ensures r.NoHit? ==> |looks| == |keys| && forall j | 0 <= j < |looks| :: looks[j].NoArchive?
    ensures r.NotRestored? ==> looks != [] && (looks[|looks| - 1].LookFailed? || looks[|looks| - 1].LookCrashed?)
    ensures warnings == Warnings(looks)
  {
    warnings, looks, turns := 0, [], [];
    ghost var begun := Worlds(keys);
    NoTurnYet(begun);
    for i := 0 to |keys|
      invariant AllAgree(keys) && AllMoveOn(begun, Worlds(keys))
      invariant |looks| == |turns| == i && warnings == Warnings(looks) && AllTold(looks, turns, remote)
      invariant Between(begun, turns, Worlds(keys)) && forall j | 0 <= j < i :: looks[j].NoArchive?
    {
      ghost var was := Worlds(keys);
      var look;
      ghost var turn;
      look, turn := TakeTurn(keys, i, remote, maxAge);
      OneTurnMore(begun, turns, was, turn, Worlds(keys));
      OneLookMore(looks, look, turns, turn, remote);
      looks, turns := looks + [look], turns + [turn];
      if Warned(look) {
        warnings := warnings + 1;
      }
      if look.Extracted? {
        return Hit(i, look), warnings, looks, turns;
      }
      if !look.NoArchive? {
        return NotRestored, warnings, looks, turns;
      }
    }
    r := NoHit;
  }
}
