/**
 The table of idempotency keys and the claims a process remembers
 (src/lib/idempotency.ts), changed in place.  Each method does to its key's row
 what one event of `Idempotency` does, and nothing to any other row.

 Each method is one statement on the table, so other requests may run between any
 two of them.  The world an event belongs to is a ghost parameter that agrees with
 the table about the row of the key and with the process about the phase of its
 request.
 */
module IdempotencyStore {
  import opened Prelude
  import opened Idempotency

  datatype Key = Key(workspace: string, keyHash: string)

  class Store {
    var rows: map<Key, Row>
    /** Which key each request holds, by request. */
    var claims: map<nat, Key>

    constructor ()
      ensures rows == map[] && claims == map[]
    {
      rows, claims := map[], map[];
    }

    function RowOf(key: Key): Option<Row>
      reads this
    {
      if key in rows then Some(rows[key]) else None
    }

    twostate predicate OthersUnchanged(key: Key)
      reads this
    {
      forall other :: other != key ==> RowOf(other) == old(RowOf(other))
    }

    /** `getIdempotentResponse` after it has decided to create or to take over. */
    method TryClaim(key: Key, id: nat, request: Request, phase: Phase, ghost w: World) returns (next: Phase)
      requires w.row == RowOf(key) && id in w.requests && w.requests[id] == request
      requires phase == PhaseOf(w, id) && (phase.Creating? || phase.TakingOver?)
      modifies this
      ensures var v := Apply(w, if phase.Creating? then Create(id) else TakeOver(id));
        RowOf(key) == v.row && next == PhaseOf(v, id)
      ensures OthersUnchanged(key)
      ensures claims == if Active(next) then old(claims)[id := key] else old(claims)
    {
      if phase.Creating? {
        if key in rows {
          return Refused(InProgress);
        }
      } else {
        if key !in rows || rows[key].expiresAt > phase.since {
          return Refused(InProgress);
        }
      }
      rows := rows[key := Row(request, 0, "", phase.until, id)];
      claims := claims[id := key];
      return Running(phase.until);
    }

    /** `storeIdempotentResponse`: created or overwritten, whatever was there. */
    method StoreResponse(key: Key, id: nat, request: Request, status: nat, response: string, expiresAt: nat, ghost w: World)
      requires w.row == RowOf(key) && id in w.requests && w.requests[id] == request
      requires PhaseOf(w, id).Running?
      modifies this`rows
      ensures RowOf(key) == Apply(w, Event.Store(id, status, response, expiresAt)).row
      ensures OthersUnchanged(key)
    {
      rows := rows[key := Row(request, status, response, expiresAt, id)];
    }

    /** The handler has ended: its claim is forgotten, and a cleanup is due if there was one. */
    method EndHandler(id: nat) returns (claim: Option<Key>)
      modifies this`claims
      ensures claim == if id in old(claims) then Some(old(claims)[id]) else None
      ensures claims == old(claims) - {id} && id !in claims
    {
      claim := if id in claims then Some(claims[id]) else None;
      claims := claims - {id};
    }

    /** `releaseIdempotencyClaim`, later: whatever row is pending under the key is deleted. */
    method Cleanup(key: Key, id: nat, ghost w: World)
      requires w.row == RowOf(key) && PhaseOf(w, id).Cleaning?
      modifies this`rows
      ensures RowOf(key) == Apply(w, Event.Cleanup(id)).row
      ensures OthersUnchanged(key)
    {
      if key in rows && rows[key].status == 0 {
        rows := rows - {key};
      }
    }
  }
}
