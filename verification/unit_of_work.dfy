/**
 The unit of work around a use case: entering it opens a session, committing it commits the session
 that is current, and leaving it closes that one. The repositories keep the session they were given.
 */
module UnitOfWork {
  import opened Common

  datatype Session<W> = Session(pending: seq<W>, open: bool)

  class SqlAlchemyUnitOfWork<W> {
    /** All sessions the factory has made, the one in use, and what the database has durably. */
    var sessions: seq<Session<W>>
    var current: Option<nat>
    var durable: seq<W>

    ghost predicate Valid()
      reads this
    {
      current.Some? ==> current.value < |sessions|
    }

    constructor ()
      ensures Valid() && sessions == [] && current == None && durable == []
    {
      sessions, current, durable := [], None, [];
    }

    /** __aenter__: a fresh session takes the place of whatever was current. */
    method Enter()
      requires Valid()
      modifies this
      ensures Valid() && durable == old(durable)
      ensures sessions == old(sessions) + [Session([], true)] && current == Some(|old(sessions)|)
    {
      current := Some(|sessions|);
      sessions := sessions + [Session([], true)];
    }

    /** __aexit__: close and forget the session; nothing if there is none. What it has not committed is lost, exception or not. */
    method Exit()
      requires Valid()
      modifies this
      ensures Valid() && current == None && durable == old(durable)
      ensures sessions == if old(current).None? then old(sessions)
                          else old(sessions)[old(current).value := Session([], false)]
    {
      if current.Some? {
        sessions := sessions[current.value := Session([], false)];
        current := None;
      }
    }

    method Rollback() returns (ok: bool)
      requires Valid()
      modifies this
      ensures Valid() && ok == old(current).Some? && current == old(current) && durable == old(durable)
      ensures sessions == if ok then old(sessions)[current.value := old(sessions)[current.value].(pending := [])] else old(sessions)
    {
      if current.None? {
        return false;
      }
      sessions := sessions[current.value := sessions[current.value].(pending := [])];
      return true;
    }

    method Commit() returns (ok: bool)
      requires Valid()
      modifies this
      ensures Valid() && ok == old(current).Some? && current == old(current)
      ensures !ok ==> durable == old(durable) && sessions == old(sessions)
      ensures ok ==> var id := current.value;
                     && durable == old(durable) + old(sessions)[id].pending
                     && sessions == old(sessions)[id := old(sessions)[id].(pending := [])]
    {
      if current.None? {
        return false;
      }
      var id := current.value;
      durable := durable + sessions[id].pending;
      sessions := sessions[id := sessions[id].(pending := [])];
      return true;
    }

    /** A repository's flush, through the session it was built with. */
    method Write(session: nat, w: W)
      requires Valid() && session < |sessions|
      modifies this
      ensures Valid() && current == old(current) && durable == old(durable)
      ensures sessions == old(sessions)[session := old(sessions)[session].(pending := old(sessions)[session].pending + [w])]
    {
      sessions := sessions[session := sessions[session].(pending := sessions[session].pending + [w])];
    }

    /**
     A handler enters, builds its repository on the session, and runs a use case that writes and then
     commits, or raises. A use case that enters again rolls back itself when it raises; the others leave
     that to the exit. The write lasts exactly if the use case neither raises nor enters again, and a
     session stays open exactly if it enters again.
     */
    method Handle(write: W, useCaseEnters: bool, raises: bool)
      requires Valid() && current == None
      modifies this
      ensures Valid() && current == None
      ensures durable == old(durable) + (if useCaseEnters || raises then [] else [write])
      ensures (exists i | |old(sessions)| <= i < |sessions| :: sessions[i].open) <==> useCaseEnters
      ensures |old(sessions)| <= |sessions| && sessions[..|old(sessions)|] == old(sessions)
    {
      Enter();
      var repository := current.value;
      if useCaseEnters {
        Enter();
      }
      Write(repository, write);
      if !raises {
        var ok := Commit();
      } else if useCaseEnters {
        var ok := Rollback();
      }
      if useCaseEnters {
        Exit();
      }
      Exit();
      assert sessions[repository].open == useCaseEnters;
    }
  }
}
