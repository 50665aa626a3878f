/** Cloud sync of the persisted data (src/sync.ts). On sign-in the client decides once
    whether to upload its local data or adopt the remote document, then follows the
    document, ignoring the echo of its own writes; local changes are queued and
    uploaded by a debounce timer. The network, the authentication service and the timer
    are not modelled: what they deliver is a parameter, and what the client writes is a
    result. */
module Sync {
  import opened Seqs
  import opened Text
  import opened Types
  import opened Store

  /** A collection field of the remote document as the sync code reads it: absent or
      falsy, an array, or another truthy value, whose `length` may be a number. */
  datatype Field<T> = Missing | List(items: seq<T>) | NotList(length: Option<int>)

  /** The remote document: the three collections and `__meta.updatedAt`. */
  datatype RemoteDoc = RemoteDoc(
    recipes: Field<Recipe>,
    savedLists: Field<SavedList>,
    favourites: Field<ExtraItem>,
    updatedAt: Option<string>)

  /** `isEmptyLocal`: no recipe, no saved list and no favourite. */
  predicate IsEmptyLocal(s: Storage): (b: bool)
    ensures b <==> s == Storage([], [], [])
  {
    |s.recipes| == 0 && |s.savedLists| == 0 && |s.favourites| == 0
  }

  /** `(f || []).length === 0` */
  predicate FieldEmpty<T>(f: Field<T>) {
    match f
    case Missing => true
    case List(items) => |items| == 0
    case NotList(length) => length == Some(0)
  }

  /** `isEmptyRemote`: every field is missing or of length zero. An empty document
      normalizes to empty data; for a document whose fields are all arrays or absent
      the converse holds too. */
  predicate IsEmptyRemote(r: RemoteDoc): (b: bool)
    ensures b ==> IsEmptyLocal(NormalizeRemote(r))
    ensures !r.recipes.NotList? && !r.savedLists.NotList? && !r.favourites.NotList? ==>
      (b <==> IsEmptyLocal(NormalizeRemote(r)))
  {
    FieldEmpty(r.recipes) && FieldEmpty(r.savedLists) && FieldEmpty(r.favourites)
  }

  /** `Array.isArray(f) ? f : []` */
  function ArrayOrEmpty<T>(f: Field<T>): seq<T> {
    if f.List? then f.items else []
  }

  /** `normalizeRemote`: the arrays of the document, any other field as an empty list
      (the result is a schema-1 value). */
  function NormalizeRemote(r: RemoteDoc): (s: Storage)
    ensures r.recipes.List? ==> s.recipes == r.recipes.items
    ensures !r.recipes.List? ==> s.recipes == []
    ensures r.savedLists.List? ==> s.savedLists == r.savedLists.items
    ensures !r.savedLists.List? ==> s.savedLists == []
    ensures r.favourites.List? ==> s.favourites == r.favourites.items
    ensures !r.favourites.List? ==> s.favourites == []
  {
    Storage(ArrayOrEmpty(r.recipes), ArrayOrEmpty(r.savedLists), ArrayOrEmpty(r.favourites))
  }

  /** The document a client writes: its data and the time stamp of the write. */
  function Pushed(local: Storage, stamp: string): RemoteDoc {
    RemoteDoc(List(local.recipes), List(local.savedLists), List(local.favourites), Some(stamp))
  }

  /** What one client writes, another adopts unchanged, and the two emptiness tests
      agree on it. */
  lemma NormalizePushed(local: Storage, stamp: string)
    ensures NormalizeRemote(Pushed(local, stamp)) == local
    ensures IsEmptyRemote(Pushed(local, stamp)) <==> IsEmptyLocal(local)
  {
  }

  /** A field that is neither an array nor empty counts as data for the emptiness test,
      yet normalization drops it. */
  lemma MalformedFieldDropped(r: RemoteDoc, n: int)
    requires r.recipes == NotList(Some(n)) && n != 0
    ensures !IsEmptyRemote(r)
    ensures NormalizeRemote(r).recipes == []
  {
  }

  // ---------------------------------------------------------------------------------
  // The initial hydrate decision

  datatype Hydration = PushLocal | AdoptRemote(data: Storage)

  /** The decision taken on sign-in (`remote` is `None` when no document exists yet).
      Without a document the local data is uploaded. Otherwise, when exactly one side is
      empty the other side wins; in every other case the local data is uploaded only when
      both time stamps are non-empty and the local one is the greater string, and the
      remote document is adopted otherwise. */
  function HydrateDecision(remote: Option<RemoteDoc>, local: Storage, localUpdatedAt: Option<string>): (d: Hydration)
    ensures remote.None? ==> d == PushLocal
    ensures d.AdoptRemote? ==> remote.Some? && d.data == NormalizeRemote(remote.value)
  {
    match remote
    case None => PushLocal
    case Some(doc) =>
      var remoteEmpty := IsEmptyRemote(doc);
      var localEmpty := IsEmptyLocal(local);
      if remoteEmpty && !localEmpty then PushLocal
      else if !remoteEmpty && localEmpty then AdoptRemote(NormalizeRemote(doc))
      else if Truthy(localUpdatedAt) && Truthy(doc.updatedAt) && LexLess(doc.updatedAt.value, localUpdatedAt.value) then
        PushLocal
      else AdoptRemote(NormalizeRemote(doc))
  }

  /** When only one side has data, that side wins. */
  lemma HydrateKeepsTheData(doc: RemoteDoc, local: Storage, localUpdatedAt: Option<string>)
    ensures IsEmptyRemote(doc) && !IsEmptyLocal(local) ==> HydrateDecision(Some(doc), local, localUpdatedAt) == PushLocal
    ensures !IsEmptyRemote(doc) && IsEmptyLocal(local) ==>
      HydrateDecision(Some(doc), local, localUpdatedAt) == AdoptRemote(NormalizeRemote(doc))
  {
  }

  /** When both sides have data, or neither has, the newer side wins and a tie, or a
      missing stamp, goes to the remote document. */
  lemma HydrateNewerWins(doc: RemoteDoc, local: Storage, localUpdatedAt: Option<string>)
    requires IsEmptyRemote(doc) == IsEmptyLocal(local)
    ensures HydrateDecision(Some(doc), local, localUpdatedAt) == PushLocal <==>
      Truthy(localUpdatedAt) && Truthy(doc.updatedAt) && LexLess(doc.updatedAt.value, localUpdatedAt.value)
    ensures localUpdatedAt == doc.updatedAt ==>
      HydrateDecision(Some(doc), local, localUpdatedAt) == AdoptRemote(NormalizeRemote(doc))
  {
    if localUpdatedAt == doc.updatedAt && localUpdatedAt.Some? {
      LexLessIrreflexive(localUpdatedAt.value);
    }
  }

  /** After the decision both sides hold the same data: the uploaded document normalizes
      back to the local data, and an adopted document becomes the local data. */
  lemma HydrateConverges(remote: Option<RemoteDoc>, local: Storage, localUpdatedAt: Option<string>, now: string)
    ensures var d := HydrateDecision(remote, local, localUpdatedAt);
      var newRemote := if d == PushLocal then Pushed(local, now) else remote.value;
      var newLocal := if d == PushLocal then local else d.data;
      NormalizeRemote(newRemote) == newLocal
  {
    NormalizePushed(local, now);
  }

  /** A document with data is never replaced by an empty local store, and a well-formed
      document is adopted over local data only when it has data of its own. */
  lemma HydrateNeverEmpties(remote: Option<RemoteDoc>, local: Storage, localUpdatedAt: Option<string>)
    ensures remote.Some? && !IsEmptyRemote(remote.value) && IsEmptyLocal(local) ==>
      HydrateDecision(remote, local, localUpdatedAt) != PushLocal
    ensures var d := HydrateDecision(remote, local, localUpdatedAt);
      d.AdoptRemote? && !IsEmptyLocal(local)
      && !remote.value.recipes.NotList? && !remote.value.savedLists.NotList? && !remote.value.favourites.NotList?
      ==> !IsEmptyLocal(d.data)
  {
    if remote.Some? {
    }
  }

  // ---------------------------------------------------------------------------------
  // Echo suppression

  /** `remoteUpdatedAt && lastPushedAt && remoteUpdatedAt === lastPushedAt`: the
      snapshot is the client's own last write coming back. */
  predicate IsEcho(remoteUpdatedAt: Option<string>, lastPushedAt: Option<string>): (e: bool)
    ensures e <==> remoteUpdatedAt == lastPushedAt && remoteUpdatedAt.Some? && remoteUpdatedAt.value != ""
  {
    Truthy(remoteUpdatedAt) && Truthy(lastPushedAt) && remoteUpdatedAt == lastPushedAt
  }

  /** A document written with the stamp that was recorded as the last push is
      recognised as an echo. */
  lemma OwnPushIsEcho(local: Storage, stamp: string)
    requires stamp != ""
    ensures IsEcho(Pushed(local, stamp).updatedAt, Some(stamp))
  {
  }

  /** A document written with one stamp while another was recorded is not recognised,
      and is adopted as if another client had written it. */
  lemma HydrateEchoMissed(local: Storage, docStamp: string, pushStamp: string)
    requires docStamp != pushStamp
    ensures !IsEcho(Pushed(local, docStamp).updatedAt, Some(pushStamp))
  {
  }

  /** Before the first push nothing is an echo, and a document stamped by another write
      never is. */
  lemma EchoNeedsOwnStamp(remoteUpdatedAt: Option<string>, lastPushedAt: Option<string>)
    ensures lastPushedAt.None? ==> !IsEcho(remoteUpdatedAt, lastPushedAt)
    ensures remoteUpdatedAt != lastPushedAt ==> !IsEcho(remoteUpdatedAt, lastPushedAt)
  {
  }

  // ---------------------------------------------------------------------------------
  // The module state

  /** The module variables of the sync code: whether a user is signed in, the stamp of
      the client's last write and the data waiting for the debounce timer. */
  class SyncSession {
    var signedIn: bool
    var lastPushedAt: Option<string>
    var pending: Option<Storage>

    constructor()
      ensures !signedIn && lastPushedAt == None && pending == None
    {
      signedIn := false;
      lastPushedAt := None;
      pending := None;
    }

    /** The auth listener records the current user. */
    method AuthChanged(user: bool)
      modifies this`signedIn
      ensures signedIn == user
    {
      signedIn := user;
    }

    /** The hydrate step as written: the uploaded document is stamped with one reading of
        the clock (`docStamp`) and `lastPushedAt` with a second one (`pushStamp`), taken
        after the upload has completed. */
    method HydrateAsWritten(remote: Option<RemoteDoc>, local: Storage, localUpdatedAt: Option<string>,
                            docStamp: string, pushStamp: string)
      returns (written: Option<RemoteDoc>, adopted: Option<Storage>)
      modifies this`lastPushedAt
      ensures HydrateDecision(remote, local, localUpdatedAt) == PushLocal ==>
        written == Some(Pushed(local, docStamp)) && adopted == None && lastPushedAt == Some(pushStamp)
      ensures HydrateDecision(remote, local, localUpdatedAt).AdoptRemote? ==>
        written == None && adopted == Some(HydrateDecision(remote, local, localUpdatedAt).data)
        && lastPushedAt == old(lastPushedAt)
    {
      var d := HydrateDecision(remote, local, localUpdatedAt);
      if d == PushLocal {
        written := Some(Pushed(local, docStamp));
        adopted := None;
        lastPushedAt := Some(pushStamp);
      } else {
        written := None;
        adopted := Some(d.data);
      }
    }

    /** The hydrate step with the clock read once for both, as the debounced upload does:
        the snapshot of the uploaded document is then recognised as an echo. */
    method Hydrate(remote: Option<RemoteDoc>, local: Storage, localUpdatedAt: Option<string>, now: string)
      returns (written: Option<RemoteDoc>, adopted: Option<Storage>)
      modifies this`lastPushedAt
      ensures HydrateDecision(remote, local, localUpdatedAt) == PushLocal ==>
        written == Some(Pushed(local, now)) && adopted == None && lastPushedAt == Some(now)
      ensures HydrateDecision(remote, local, localUpdatedAt).AdoptRemote? ==>
        written == None && adopted == Some(HydrateDecision(remote, local, localUpdatedAt).data)
        && lastPushedAt == old(lastPushedAt)
      ensures written.Some? && now != "" ==> IsEcho(written.value.updatedAt, lastPushedAt)
    {
      written, adopted := HydrateAsWritten(remote, local, localUpdatedAt, now, now);
    }

    /** The snapshot listener: a missing document and the echo of the client's own last
        write are ignored; any other document is adopted, normalized. */
    method OnSnapshot(remote: Option<RemoteDoc>) returns (adopted: Option<Storage>)
      ensures adopted.None? <==> remote.None? || IsEcho(remote.value.updatedAt, lastPushedAt)
      ensures adopted.Some? ==> adopted.value == NormalizeRemote(remote.value)
    {
      if remote.None? {
        return None;
      }
      var doc := remote.value;
      if Truthy(doc.updatedAt) && Truthy(lastPushedAt) && doc.updatedAt == lastPushedAt {
        return None;
      }
      adopted := Some(NormalizeRemote(doc));
    }

    /** `queueRemoteSave`: with a user signed in, the data replaces whatever was waiting,
        so only the latest data is uploaded when the timer fires. */
    method QueueRemoteSave(data: Storage)
      modifies this`pending
      ensures signedIn ==> pending == Some(data)
      ensures !signedIn ==> pending == old(pending)
    {
      if !signedIn {
        return;
      }
      pending := Some(data);
    }

    /** The debounce timer firing at time `stamp`, up to the upload: the waiting data,
        if any, is taken and written with that stamp. `lastPushedAt` is only set once
        the write has completed (PushCompleted). */
    method StartPush(stamp: string) returns (written: Option<RemoteDoc>)
      modifies this`pending
      ensures old(pending).None? ==> written == None
      ensures old(pending).Some? ==> written == Some(Pushed(old(pending).value, stamp))
      ensures pending == None
    {
      if pending.None? {
        return None;
      }
      var toPush := pending.value;
      pending := None;
      written := Some(Pushed(toPush, stamp));
    }

    /** The awaited write has completed: its stamp is recorded as the last push. */
    method PushCompleted(stamp: string)
      modifies this`lastPushedAt
      ensures lastPushedAt == Some(stamp)
    {
      lastPushedAt := Some(stamp);
    }

    /** The debounce timer firing at time `stamp` when no snapshot arrives during the
        write: the waiting data, if any, is uploaded with that stamp, which is then
        recorded as the last push. */
    method FlushPending(stamp: string) returns (written: Option<RemoteDoc>)
      modifies this`pending, this`lastPushedAt
      ensures old(pending).None? ==> written == None && lastPushedAt == old(lastPushedAt)
      ensures old(pending).Some? ==>
        written == Some(Pushed(old(pending).value, stamp)) && lastPushedAt == Some(stamp)
      ensures pending == None
      ensures written.Some? && stamp != "" ==> IsEcho(written.value.updatedAt, lastPushedAt)
    {
      written := StartPush(stamp);
      if written.Some? {
        PushCompleted(stamp);
      }
    }

    /** The timer as written, with the snapshot of the client's own write delivered
        before the write completes: while an earlier stamp is still recorded the
        snapshot is not recognised as an echo, and the client adopts the pushed data
        back. */
    method FlushWithEarlySnapshot(stamp: string) returns (written: Option<RemoteDoc>, adopted: Option<Storage>)
      modifies this`pending, this`lastPushedAt
      ensures old(pending).Some? && old(lastPushedAt) != Some(stamp) ==>
        written == Some(Pushed(old(pending).value, stamp)) && adopted == Some(old(pending).value)
      ensures old(pending).Some? ==> lastPushedAt == Some(stamp)
      ensures old(pending).None? ==> written == None && adopted == None && lastPushedAt == old(lastPushedAt)
      ensures pending == None
    {
      written := StartPush(stamp);
      adopted := None;
      if written.Some? {
        adopted := OnSnapshot(written);
        PushCompleted(stamp);
      }
    }

    /** The timer with the stamp recorded before the write is issued: the snapshot of
        the client's own write is recognised as an echo whenever it is delivered. */
    method FlushRecordingFirst(stamp: string) returns (written: Option<RemoteDoc>, adopted: Option<Storage>)
      modifies this`pending, this`lastPushedAt
      ensures old(pending).Some? ==>
        written == Some(Pushed(old(pending).value, stamp)) && lastPushedAt == Some(stamp)
      ensures old(pending).Some? && stamp != "" ==> adopted == None
      ensures old(pending).None? ==> written == None && adopted == None && lastPushedAt == old(lastPushedAt)
      ensures pending == None
    {
      if pending.None? {
        pending := None;
        return None, None;
      }
      PushCompleted(stamp);
      written := StartPush(stamp);
      adopted := OnSnapshot(written);
    }
  }
}
