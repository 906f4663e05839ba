/**
 * The mirror-session table of the switch (class P4Model::MirroringSessions in
 * model/p4-model.cc): session id -> clone destination. Adding and deleting
 * are range-checked against the largest session id; lookup is not.
 */
module Mirroring {
  import opened Wrappers

  /** Where a clone of a mirrored packet goes: a multicast group, an egress port, or both. */
  datatype SessionConfig = SessionConfig(mgidValid: bool, mgid: nat, egressPortValid: bool, egressPort: nat)

  /** The table after add_session(id, config): stored (or overwritten) when id is in range. */
  function SessionAdded(sessions: map<int, SessionConfig>, maxId: int, id: int, config: SessionConfig): (r: map<int, SessionConfig>)
    ensures r.Keys <= sessions.Keys + {id}
    ensures (forall k | k in sessions :: 0 <= k <= maxId) ==> (forall k | k in r :: 0 <= k <= maxId)
  {
    if 0 <= id <= maxId then sessions[id := config] else sessions
  }

  /** The table after delete_session(id): erased when id is in range. */
  function SessionDeleted(sessions: map<int, SessionConfig>, maxId: int, id: int): (r: map<int, SessionConfig>)
    ensures r.Keys <= sessions.Keys && sessions.Keys - r.Keys <= {id}
    ensures forall k | k in r :: r[k] == sessions[k]
  {
    if 0 <= id <= maxId then sessions - {id} else sessions
  }

  /** get_session(id): the stored configuration, if any. */
  function SessionLookup(sessions: map<int, SessionConfig>, id: int): (r: Option<SessionConfig>)
    ensures r.Some? <==> id in sessions
    ensures r.Some? ==> r.value == sessions[id]
  {
    if id in sessions then Some(sessions[id]) else None
  }

  class MirroringSessions {
    /** RegisterAccess::MAX_MIRROR_SESSION_ID, defined by the match-action engine. */
    const maxSessionId: int
    var sessions: map<int, SessionConfig>

    ghost predicate Valid()
      reads this
    {
      forall id :: id in sessions ==> 0 <= id <= maxSessionId
    }

    constructor(maxSessionId: int)
      ensures Valid()
      ensures this.maxSessionId == maxSessionId && sessions == map[]
    {
      this.maxSessionId := maxSessionId;
      sessions := map[];
    }

    method AddSession(id: int, config: SessionConfig) returns (ok: bool)
      requires Valid()
      modifies this
      ensures Valid()
      ensures ok <==> 0 <= id <= maxSessionId
      ensures sessions == SessionAdded(old(sessions), maxSessionId, id, config)
    {
      if 0 <= id <= maxSessionId {
        sessions := sessions[id := config];
        ok := true;
      } else {
        ok := false;
      }
    }

    method DeleteSession(id: int) returns (ok: bool)
      requires Valid()
      modifies this
      ensures Valid()
      ensures ok <==> id in old(sessions)
      ensures sessions == SessionDeleted(old(sessions), maxSessionId, id)
    {
      if 0 <= id <= maxSessionId {
        ok := id in sessions;
        sessions := sessions - {id};
      } else {
        ok := false;
      }
    }

    method GetSession(id: int) returns (config: Option<SessionConfig>)
      ensures config == SessionLookup(sessions, id)
      ensures config.Some? <==> id in sessions
    {
      if id in sessions {
        config := Some(sessions[id]);
      } else {
        config := None;
      }
    }
  }

  /** An in-range add is visible to lookup, overwriting any earlier entry; other ids are untouched. */
  lemma AddThenLookup(sessions: map<int, SessionConfig>, maxId: int, id: int, config: SessionConfig, other: int)
    requires 0 <= id <= maxId && other != id
    ensures SessionLookup(SessionAdded(sessions, maxId, id, config), id) == Some(config)
    ensures SessionLookup(SessionAdded(sessions, maxId, id, config), other) == SessionLookup(sessions, other)
  {
  }

  /** After an in-range delete the id is no longer found; other ids are untouched. */
  lemma DeleteThenLookup(sessions: map<int, SessionConfig>, maxId: int, id: int, other: int)
    requires 0 <= id <= maxId && other != id
    ensures SessionLookup(SessionDeleted(sessions, maxId, id), id) == None
    ensures SessionLookup(SessionDeleted(sessions, maxId, id), other) == SessionLookup(sessions, other)
  {
  }

  /** Out-of-range add and delete leave the table as it was. */
  lemma OutOfRangeUnchanged(sessions: map<int, SessionConfig>, maxId: int, id: int, config: SessionConfig)
    requires !(0 <= id <= maxId)
    ensures SessionAdded(sessions, maxId, id, config) == sessions
    ensures SessionDeleted(sessions, maxId, id) == sessions
  {
  }

  /** Deleting what was just added restores the table when the id was free. */
  lemma AddThenDelete(sessions: map<int, SessionConfig>, maxId: int, id: int, config: SessionConfig)
    requires id !in sessions
    ensures SessionDeleted(SessionAdded(sessions, maxId, id, config), maxId, id) == sessions
  {
  }
}
