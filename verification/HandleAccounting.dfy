/**
 * The three shared file handles of an inode, for reading, writing and both. A handle is opened at the servers for its
 * first user and closed by its last one; a close that cannot be delivered is handed to a queue that tries again.
 */
module HandleAccounting {
  import opened CacheStores

  // access flags
  const OPENFILE_ACCESS_READ := 1
  const OPENFILE_ACCESS_WRITE := 2
  const OPENFILE_ACCESS_READWRITE := 4
  const OPENFILE_ACCESS_TRUNC := 16

  const INTERRUPTED := 2

  datatype Option<T> = None | Some(value: T)

  datatype HandleType = READ | RW | WRITE

  predicate HasFlag(flags: nat, flag: nat)
    requires flag > 0
  {
    flags / flag % 2 == 1
  }

  /** The read-write bits are the lowest three. */
  function OpenFlagsToHandleType(flags: nat): HandleType {
    var rw := flags % 8;
    if rw == OPENFILE_ACCESS_WRITE then WRITE else if rw == OPENFILE_ACCESS_READWRITE then RW else READ
  }

  function HandleTypeToOpenFlags(t: HandleType): nat {
    match t
    case WRITE => OPENFILE_ACCESS_WRITE
    case RW => OPENFILE_ACCESS_READWRITE
    case READ => OPENFILE_ACCESS_READ
  }

  datatype Access = ToRead | ToWrite

  function Wanted(flags: nat): set<Access> {
    (if HasFlag(flags, OPENFILE_ACCESS_READ) || HasFlag(flags, OPENFILE_ACCESS_READWRITE) then {ToRead} else {}) +
    if HasFlag(flags, OPENFILE_ACCESS_WRITE) || HasFlag(flags, OPENFILE_ACCESS_READWRITE) then {ToWrite} else {}
  }

  function Granted(t: HandleType): set<Access> {
    match t
    case READ => {ToRead}
    case WRITE => {ToWrite}
    case RW => {ToRead, ToWrite}
  }

  /** Not more than one of the three read-write flags is given. */
  predicate SingleMode(flags: nat) {
    var rw := flags % 8;
    rw == 0 || rw == OPENFILE_ACCESS_READ || rw == OPENFILE_ACCESS_WRITE || rw == OPENFILE_ACCESS_READWRITE
  }

  /**
   * The handle for some flags allows what they ask for exactly if they do not combine modes: a combination is only
   * read.
   */
  lemma GrantsWantedIff(flags: nat)
    ensures Wanted(flags) <= Granted(OpenFlagsToHandleType(flags)) <==> SingleMode(flags)
  {
  }

  /** Converting a type to flags and back. */
  lemma TypeRoundTrip(t: HandleType)
    ensures OpenFlagsToHandleType(HandleTypeToOpenFlags(t)) == t
    ensures Wanted(HandleTypeToOpenFlags(t)) == Granted(t)
  {
  }

  /** One shared handle; sessionID is meaningless while nobody uses it. */
  datatype Handle = Handle(refCount: nat, sessionID: nat)

  datatype Handles = Handles(read: Handle, rw: Handle, write: Handle)

  function Get(h: Handles, t: HandleType): Handle {
    match t
    case READ => h.read
    case RW => h.rw
    case WRITE => h.write
  }

  function Set(h: Handles, t: HandleType, x: Handle): Handles {
    match t
    case READ => h.(read := x)
    case RW => h.(rw := x)
    case WRITE => h.(write := x)
  }

  /** The session behind a handle that is in use. */
  function SessionOf(x: Handle): set<nat> {
    if x.refCount > 0 then {x.sessionID} else {}
  }

  function SessionsOf(h: Handles): set<nat> {
    SessionOf(h.read) + SessionOf(h.rw) + SessionOf(h.write)
  }

  predicate Apart(h: Handles) {
    SessionOf(h.read) !! SessionOf(h.rw) !! SessionOf(h.write)
  }

  /** One user less. */
  function Released(h: Handles, t: HandleType): Handles
    requires Get(h, t).refCount > 0
  {
    Set(h, t, Get(h, t).(refCount := Get(h, t).refCount - 1))
  }

  lemma SessionsAfterRelease(h: Handles, t: HandleType)
    requires Get(h, t).refCount > 0 && Apart(h)
    ensures Apart(Released(h, t)) && Get(h, t).sessionID in SessionsOf(h)
    ensures SessionsOf(Released(h, t)) == SessionsOf(h) -
      if Get(h, t).refCount == 1 then {Get(h, t).sessionID} else {}
  {
  }

  /** A close that could not be delivered, or was interrupted, is tried again later. */
  function HandedOver(closeRes: int, session: nat): seq<nat> {
    if closeRes == COMMUNICATION || closeRes == INTERRUPTED then [session] else []
  }

  class InodeHandles {
    var handles: Handles
    var delayedCloses: seq<nat> // sessions whose close is tried again later
    var nextSession: nat
    ghost var sessions: set<nat> // open at the servers and not handed over for closing
    ghost var unclaimed: set<nat> // those that a lookup opened and no handle stands for
    ghost var truncations: nat // how often the servers have truncated the file for an open
    ghost var users: multiset<HandleType> // references given out and not returned

    /**
     * Each handle counts its users; the sessions are those of the handles in use and the unclaimed ones; no session is
     * closed twice.
     */
    ghost predicate Valid()
      reads this
    {
      && handles.read.refCount == users[READ] && handles.rw.refCount == users[RW]
      && handles.write.refCount == users[WRITE]
      && sessions == SessionsOf(handles) + unclaimed && Apart(handles) && SessionsOf(handles) !! unclaimed
      && (forall s <- sessions :: s < nextSession)
      && (forall s <- delayedCloses :: s < nextSession && s !in sessions)
      && (forall i, j :: 0 <= i < j < |delayedCloses| ==> delayedCloses[i] != delayedCloses[j])
    }

    constructor ()
      ensures Valid() && users == multiset{} && delayedCloses == [] && unclaimed == {} && truncations == 0
    {
      handles := Handles(Handle(0, 0), Handle(0, 0), Handle(0, 0));
      delayedCloses, nextSession, sessions, unclaimed, users, truncations := [], 0, {}, {}, multiset{}, 0;
    }

    /** Truncates the file if the flags ask for it; may fail. */
    method ReferenceTrunc(flags: nat) returns (err: int)
      modifies this`truncations
      ensures err != SUCCESS ==> HasFlag(flags, OPENFILE_ACCESS_TRUNC)
      ensures truncations == old(truncations) + if err == SUCCESS && HasFlag(flags, OPENFILE_ACCESS_TRUNC) then 1 else 0
    {
      err := SUCCESS;
      if HasFlag(flags, OPENFILE_ACCESS_TRUNC) {
        err := *;
        if err == SUCCESS {
          truncations := truncations + 1;
        }
      }
    }

    method AddUser(t: HandleType)
      requires Valid() && Get(handles, t).refCount > 0
      modifies this`handles, this`users
      ensures Valid() && users == old(users) + multiset{t}
    {
      handles := Set(handles, t, Get(handles, t).(refCount := Get(handles, t).refCount + 1));
      users := users + multiset{t};
    }

    /** A handle in use that serves the flags. */
    predicate HasHandle(flags: nat, allowRWHandle: bool)
      reads this`handles
    {
      Get(handles, OpenFlagsToHandleType(flags)).refCount > 0 || (allowRWHandle && handles.rw.refCount > 0)
    }

    /** Only a read-write handle in use serves the flags. */
    predicate NeedsRW(flags: nat, allowRWHandle: bool)
      reads this`handles
    {
      HasHandle(flags, allowRWHandle) && !HasHandle(flags, false)
    }

    /**
     * References a handle for the flags, a read-write one too if that is acceptable; opens the file if there is none,
     * unless the lookup has opened it: then `lookup` is that session.
     */
    method ReferenceHandle(flags: nat, allowRWHandle: bool, lookup: Option<nat>)
      returns (err: int, handleType: HandleType)
      requires Valid() && (lookup.Some? ==> lookup.value in unclaimed)
      modifies this`handles, this`users, this`sessions, this`unclaimed, this`nextSession, this`truncations
      ensures Valid()
      ensures if err == SUCCESS then users == old(users) + multiset{handleType}
        else users == old(users) && handles == old(handles) && sessions == old(sessions) && unclaimed == old(unclaimed)
      ensures err == SUCCESS ==> Granted(OpenFlagsToHandleType(flags)) <= Granted(handleType)
      ensures err == SUCCESS && SingleMode(flags) ==> Wanted(flags) <= Granted(handleType)
      // nothing is opened for a handle that is in use
      ensures old(HasHandle(flags, allowRWHandle)) || lookup.Some? ==> sessions == old(sessions)
      // a successful open truncates once, unless the lookup has opened the file
      ensures truncations == old(truncations) +
        if err == SUCCESS && HasFlag(flags, OPENFILE_ACCESS_TRUNC) &&
          (lookup.None? || old(HasHandle(flags, allowRWHandle))) then 1 else 0
      // it fails only where servers are asked: to open the file or to truncate it
      ensures err != SUCCESS ==>
        if old(HasHandle(flags, allowRWHandle)) then HasFlag(flags, OPENFILE_ACCESS_TRUNC) else lookup.None?
      // a read-write handle in use serves if there is no other
      ensures err == SUCCESS ==>
        handleType == if old(NeedsRW(flags, allowRWHandle)) then RW else OpenFlagsToHandleType(flags)
      // the lookup's session is taken exactly if no handle in use serves the flags; otherwise it stays unclaimed
      ensures unclaimed == old(unclaimed) -
        if lookup.Some? && !old(HasHandle(flags, allowRWHandle)) then {lookup.value} else {}
    {
      GrantsWantedIff(flags);
      handleType := OpenFlagsToHandleType(flags);
      if Get(handles, handleType).refCount > 0 {
        err := ReferenceTrunc(flags);
        if err == SUCCESS {
          AddUser(handleType);
        }
      } else if allowRWHandle && handles.rw.refCount > 0 {
        err := ReferenceTrunc(flags);
        if err == SUCCESS {
          handleType := RW;
          AddUser(RW);
        }
      } else if lookup.Some? {
        err := SUCCESS;
        Claim(handleType, lookup.value);
      } else {
        err := *;
        if err == SUCCESS {
          Open(handleType, flags);
        }
      }
    }

    /** The handle gets a session that is open already, and its first user. */
    method Claim(t: HandleType, session: nat)
      requires Valid() && Get(handles, t).refCount == 0 && session in unclaimed
      modifies this`handles, this`users, this`unclaimed
      ensures Valid() && users == old(users) + multiset{t} && unclaimed == old(unclaimed) - {session}
    {
      handles := Set(handles, t, Handle(1, session));
      unclaimed := unclaimed - {session};
      users := users + multiset{t};
    }

    /** The servers have opened the file: the handle gets the new session and its first user. */
    method Open(t: HandleType, flags: nat)
      requires Valid() && Get(handles, t).refCount == 0
      modifies this`handles, this`users, this`sessions, this`unclaimed, this`nextSession, this`truncations
      ensures Valid() && users == old(users) + multiset{t} && sessions == old(sessions) + {old(nextSession)}
      ensures unclaimed == old(unclaimed)
      ensures truncations == old(truncations) + if HasFlag(flags, OPENFILE_ACCESS_TRUNC) then 1 else 0
    {
      truncations := truncations + if HasFlag(flags, OPENFILE_ACCESS_TRUNC) then 1 else 0; // part of the request
      sessions, unclaimed := sessions + {nextSession}, unclaimed + {nextSession};
      nextSession := nextSession + 1;
      Claim(t, nextSession - 1);
    }

    /**
     * Opening a file that a lookup has opened at the servers. A failure closes that session again, if the servers
     * can be reached; a handle in use makes the open succeed and the session stay, with nobody left to close it.
     */
    method OpenLookedUp(flags: nat) returns (err: int, handleType: HandleType, ghost session: nat, ghost closeRes: int)
      requires Valid()
      modifies this`handles, this`users, this`sessions, this`unclaimed, this`nextSession, this`truncations
      ensures Valid() && session == old(nextSession)
      ensures err == SUCCESS ==> users == old(users) + multiset{handleType} && sessions == old(sessions) + {session}
      ensures err == SUCCESS ==> (session in unclaimed <==> old(HasHandle(flags, false)))
      ensures err != SUCCESS ==> users == old(users) && handles == old(handles)
      ensures err != SUCCESS ==>
        old(HasHandle(flags, false)) && sessions == old(sessions) + if closeRes == SUCCESS then {} else {session}
      ensures unclaimed - {session} == old(unclaimed)
    {
      session, closeRes := nextSession, SUCCESS;
      var found := nextSession;
      sessions, unclaimed := sessions + {nextSession}, unclaimed + {nextSession};
      nextSession := nextSession + 1;
      err, handleType := ReferenceHandle(flags, false, Some(found));
      if err != SUCCESS {
        var closed := *;
        closeRes := closed;
        if closed == SUCCESS {
          sessions, unclaimed := sessions - {session}, unclaimed - {session};
        }
      }
    }

    /** Returns a reference; the last one closes the session, or hands it over for closing. */
    method ReleaseHandle(t: HandleType) returns (err: int)
      requires Valid() && t in users
      modifies this`handles, this`users, this`sessions, this`delayedCloses
      ensures Valid() && users == old(users) - multiset{t}
      ensures old(users)[t] > 1 ==> sessions == old(sessions) && delayedCloses == old(delayedCloses) && err == SUCCESS
      ensures old(users)[t] == 1 ==> sessions == old(sessions) - {Get(old(handles), t).sessionID}
      // a close without an answer from the server is tried again later
      ensures old(users)[t] == 1 && (err == COMMUNICATION || err == INTERRUPTED) ==>
        delayedCloses == old(delayedCloses) + [Get(old(handles), t).sessionID]
      ensures err != COMMUNICATION && err != INTERRUPTED ==> delayedCloses == old(delayedCloses)
    {
      err := SUCCESS;
      var session := Get(handles, t).sessionID;
      SessionsAfterRelease(handles, t);
      handles := Released(handles, t);
      users := users - multiset{t};
      if Get(handles, t).refCount == 0 {
        err := *;
        delayedCloses := delayedCloses + HandedOver(err, session);
        sessions := sessions - {session};
      }
    }

    /**
     * A session that some handle has claimed is open exactly if somebody uses the handle that stands for it, and never
     * stands for two handles.
     */
    lemma OpenIffUsed(s: nat)
      requires Valid()
      ensures s in sessions - unclaimed <==> exists t: HandleType :: t in users && Get(handles, t).sessionID == s
      ensures forall t: HandleType, u: HandleType ::
        t in users && u in users && Get(handles, t).sessionID == Get(handles, u).sessionID ==> t == u
    {
    }
  }
}
