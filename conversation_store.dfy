/** The in-memory session store of the trip-planning backend: a table from session id
    to conversation state, with a 30-minute inactivity expiry enforced both on every
    read and by a sweep. The clock is the parameter `now` (milliseconds); the sweep
    that a ten-minute timer runs is the method `CleanupExpiredSessions`. */
module SessionStore {
  import opened Wrappers
  import opened Json

  /** The wizard question a conversation is at. */
  datatype Step =
    | Source
    | Destination
    | GroupSize
    | Budget
    | TripDuration
    | Interests
    | Preferences
    | Final

  datatype ConversationState = ConversationState(step: Step, data: map<string, Json>, lastActive: int)

  /** A partial state as an update passes it: every field may be absent. */
  datatype Patch = Patch(step: Option<Step>, data: Option<map<string, Json>>, lastActive: Option<int>)

  /** Inactivity window, in milliseconds. */
  const ExpiryTime: int := 30 * 60 * 1000

  /** A state is stale once strictly more than the window has passed since it was last active. */
  predicate Expired(state: ConversationState, now: int) {
    now - state.lastActive > ExpiryTime
  }

  /** The state a new or restarted conversation begins with: at the first question,
      nothing collected, and live for exactly the next 30 minutes. */
  function FreshState(now: int): (initial: ConversationState)
    ensures initial.step == Source && initial.data == map[]
    ensures forall t :: now <= t <= now + ExpiryTime ==> !Expired(initial, t)
    ensures Expired(initial, now + ExpiryTime + 1)
  {
    ConversationState(Source, map[], now)
  }

  /** `id` has a stored state that has not expired. */
  predicate Live(store: map<string, ConversationState>, id: string, now: int) {
    id in store && !Expired(store[id], now)
  }

  /** The state a read of `id` at `now` sees. */
  function Current(store: map<string, ConversationState>, id: string, now: int): ConversationState {
    if Live(store, id, now) then store[id] else FreshState(now)
  }

  /** The table the sweep leaves: the entries that have not expired, as they were. */
  function Swept(store: map<string, ConversationState>, now: int): map<string, ConversationState> {
    map id | id in store && !Expired(store[id], now) :: store[id]
  }

  /** With exactly 30 minutes elapsed a state is still live; one millisecond more and it is stale. */
  lemma ExpiryBoundary(state: ConversationState)
    ensures !Expired(state, state.lastActive + ExpiryTime)
    ensures Expired(state, state.lastActive + ExpiryTime + 1)
    ensures ExpiryTime == 1800000
  {
  }

  /** Lazy expiry and the sweep agree: the sweep keeps exactly the live entries, and a
      read at the same instant sees the same state before and after it. */
  lemma SweepAgreesWithGet(store: map<string, ConversationState>, now: int)
    ensures forall id :: id in Swept(store, now) <==> Live(store, id, now)
    ensures forall id :: id in Swept(store, now) ==> Swept(store, now)[id] == store[id]
    ensures forall id :: Current(Swept(store, now), id, now) == Current(store, id, now)
  {
  }

  /** A reset stores a fresh state, a read right after sees it, and a second reset at
      the same instant changes nothing. */
  lemma ResetThenGet(store: map<string, ConversationState>, id: string, now: int)
    ensures var reset := store[id := FreshState(now)];
      Current(reset, id, now) == FreshState(now) &&
      reset[id := FreshState(now)] == reset
  {
  }

  class ConversationStore {
    var store: map<string, ConversationState>

    constructor ()
      ensures store == map[]
    {
      store := map[];
    }

    /** Reads a session. A missing or stale entry is replaced by a fresh state, which is
        stored and returned; a live entry is returned as it is and nothing is written
        (in particular `lastActive` is not refreshed). */
    method Get(sessionId: string, now: int) returns (state: ConversationState)
      modifies this
      ensures state == Current(old(store), sessionId, now)
      ensures store == old(store)[sessionId := state]
      ensures !Expired(state, now)
      ensures sessionId !in old(store) ==> state == FreshState(now)
      ensures sessionId in old(store) ==>
        (state == old(store)[sessionId] <==> !Expired(old(store)[sessionId], now))
      ensures Live(old(store), sessionId, now) ==> store == old(store)
    {
      if sessionId !in store || now - store[sessionId].lastActive > ExpiryTime {
        var initial := FreshState(now);
        store := store[sessionId := initial];
        return initial;
      }
      state := store[sessionId];
    }

    /** Shallow merge of `patch` onto the expiry-checked current state: a field the patch
        has replaces the current one (`data` wholesale), a field it lacks is kept, and
        `lastActive` becomes `now` whatever the patch says. Only `sessionId` is written. */
    method Update(sessionId: string, patch: Patch, now: int)
      modifies this
      ensures sessionId in store && store == old(store)[sessionId := store[sessionId]]
      ensures store[sessionId].step == patch.step.GetOr(Current(old(store), sessionId, now).step)
      ensures store[sessionId].data == patch.data.GetOr(Current(old(store), sessionId, now).data)
      ensures store[sessionId].lastActive == now
      ensures !Live(old(store), sessionId, now) ==>
        store[sessionId].step == patch.step.GetOr(Source) && store[sessionId].data == patch.data.GetOr(map[])
      ensures Live(store, sessionId, now) && Current(store, sessionId, now) == store[sessionId]
    {
      var current := Get(sessionId, now);
      var updated := ConversationState(
        patch.step.GetOr(current.step),
        patch.data.GetOr(current.data),
        now);
      store := store[sessionId := updated];
    }

    /** Overwrites the session with a fresh state, whatever was there. */
    method Reset(sessionId: string, now: int)
      modifies this
      ensures store == old(store)[sessionId := FreshState(now)]
      ensures Current(store, sessionId, now).step == Source
      ensures Current(store, sessionId, now).data == map[]
    {
      store := store[sessionId := FreshState(now)];
    }

    /** Deletes every stale entry and keeps every other entry as it is. */
    method CleanupExpiredSessions(now: int)
      modifies this
      ensures store == Swept(old(store), now)
      ensures forall id :: id in store <==> Live(old(store), id, now)
      ensures forall id :: Current(store, id, now) == Current(old(store), id, now)
    {
      var pending := store.Keys;
      while pending != {}
        invariant pending <= old(store).Keys
        invariant store == map id | id in old(store) && (id in pending || !Expired(old(store)[id], now)) :: old(store)[id]
        decreases pending
      {
        var id :| id in pending;
        if now - store[id].lastActive > ExpiryTime {
          store := store - {id};
        }
        pending := pending - {id};
      }
      SweepAgreesWithGet(old(store), now);
    }
  }

  /** The lifecycle of one session: first read, an answer recorded, a reset, and expiry. */
  method SessionLifecycle() {
    var conversations := new ConversationStore();
    var t0 := 1000;

    var first := conversations.Get("abc", t0);
    assert first.step == Source && first.data == map[];

    conversations.Update("abc", Patch(Some(Destination), Some(map["source" := Str("Delhi")]), None), t0 + 1);
    var second := conversations.Get("abc", t0 + 2);
    assert second.step == Destination && second.data == map["source" := Str("Delhi")];

    // data is replaced, not merged: the earlier answer is gone after this update
    conversations.Update("abc", Patch(None, Some(map["destination" := Str("Goa")]), None), t0 + 3);
    var third := conversations.Get("abc", t0 + 4);
    assert third.step == Destination && "source" !in third.data;

    conversations.Reset("abc", t0 + 5);
    var afterReset := conversations.Get("abc", t0 + 5);
    assert afterReset.step == Source && afterReset.data == map[];

    conversations.Update("abc", Patch(Some(Budget), None, Some(0)), t0 + 6);
    var late := conversations.Get("abc", t0 + 6 + ExpiryTime + 1);
    assert late == FreshState(t0 + 6 + ExpiryTime + 1);
  }
}
