/**
 * The per-user conversational state kept in the key-value cache: one string
 * per user under the key "user:<id>:state", written with a 300-second expiry,
 * read back as 'IDLE' when absent, empty, expired or unreadable.
 */
module StateService {
  import opened Wrappers
  import opened Text

  /** Seconds after a write at which the entry expires (`EX` of the cache's SET). */
  const StateExpirationSeconds: int := 300

  /** The state of a user with no remembered conversation. */
  const Idle: string := "IDLE"

  /** A cache entry: the stored string and the instant (in seconds) from which it is gone. */
  datatype Entry = Entry(value: string, expiresAt: int)

  /** The cache's contents, by key. Expired entries may linger; reads ignore them. */
  type Cache = map<string, Entry>

  /** The key all three operations use for user `userId`. */
  function StateKey(userId: nat): (key: string)
    ensures StartsWith(key, "user:") && EndsWith(key, ":state")
    ensures |key| == |DecimalString(userId)| + 11 && key[5..|key| - 6] == DecimalString(userId)
  {
    "user:" + DecimalString(userId) + ":state"
  }

  /** Distinct users have distinct keys, so one user's operations never touch another user's entry. */
  lemma StateKeyInjective(u: nat, v: nat)
    ensures StateKey(u) == StateKey(v) ==> u == v
  {
    if StateKey(u) == StateKey(v) {
      var du, dv := DecimalString(u), DecimalString(v);
      assert |du| == |dv|;
      assert du == StateKey(u)[5..5 + |du|];
      assert dv == StateKey(v)[5..5 + |dv|];
      DecimalStringInjective(u, v);
    }
  }

  /** GET at time `now`: the stored string if the key is present and not yet expired. */
  function Get(cache: Cache, key: string, now: int): (r: Option<string>)
    ensures r.Some? <==> key in cache && now < cache[key].expiresAt
  {
    if key in cache && now < cache[key].expiresAt then Some(cache[key].value) else None
  }

  /** SET with `EX 300` at time `now`. */
  function SetWithExpiry(cache: Cache, key: string, value: string, now: int): (c: Cache)
    ensures c.Keys == cache.Keys + {key}
    ensures forall k :: k in cache && k != key ==> c[k] == cache[k]
  {
    cache[key := Entry(value, now + StateExpirationSeconds)]
  }

  /** DEL. */
  function Delete(cache: Cache, key: string): (c: Cache)
    ensures c.Keys == cache.Keys - {key}
    ensures forall k :: k in c ==> c[k] == cache[k]
  {
    cache - {key}
  }

  /** What a successful `getUserState` returns: the stored string, or 'IDLE' when there is none or it is empty. */
  function StateOf(cache: Cache, userId: nat, now: int): (s: string)
    ensures s != ""
  {
    match Get(cache, StateKey(userId), now)
    case Some(v) => if v == "" then Idle else v
    case None => Idle
  }

  /** A state written at `t` is read back until `t + 300` (an empty string reads as 'IDLE'). */
  lemma SetThenGetBeforeExpiry(cache: Cache, userId: nat, state: string, t: int, now: int)
    requires now < t + StateExpirationSeconds
    ensures StateOf(SetWithExpiry(cache, StateKey(userId), state, t), userId, now)
         == if state == "" then Idle else state
  {
  }

  /** From `t + 300` on, a state written at `t` reads as 'IDLE'. */
  lemma SetThenGetAfterExpiry(cache: Cache, userId: nat, state: string, t: int, now: int)
    requires now >= t + StateExpirationSeconds
    ensures StateOf(SetWithExpiry(cache, StateKey(userId), state, t), userId, now) == Idle
  {
  }

  /** After a clear, the user reads as 'IDLE'. */
  lemma ClearThenGet(cache: Cache, userId: nat, now: int)
    ensures StateOf(Delete(cache, StateKey(userId)), userId, now) == Idle
  {
  }

  /** Writing or clearing one user's state leaves every other user's state as it was. */
  lemma OtherUsersUnaffected(cache: Cache, u: nat, v: nat, state: string, t: int, now: int)
    requires u != v
    ensures StateOf(SetWithExpiry(cache, StateKey(u), state, t), v, now) == StateOf(cache, v, now)
    ensures StateOf(Delete(cache, StateKey(u)), v, now) == StateOf(cache, v, now)
  {
    StateKeyInjective(u, v);
  }

  /**
   * The service over the cache client. `now` is the cache's clock in
   * seconds; `storeFails` says that the cache call raised.
   */
  class StateStore {
    var cache: Cache

    constructor ()
      ensures cache == map[]
    {
      cache := map[];
    }

    /** `setUserState`: writes with expiry; a failing write is swallowed and changes nothing. */
    method SetUserState(userId: nat, state: string, now: int, storeFails: bool)
      modifies this
      ensures cache == if storeFails then old(cache) else SetWithExpiry(old(cache), StateKey(userId), state, now)
    {
      var key := StateKey(userId);
      if !storeFails {
        cache := cache[key := Entry(state, now + StateExpirationSeconds)];
      }
    }

    /** `getUserState`: the remembered state, or 'IDLE' when there is none or the read fails. */
    method GetUserState(userId: nat, now: int, storeFails: bool) returns (state: string)
      ensures state == if storeFails then Idle else StateOf(cache, userId, now)
      ensures state != ""
    {
      if storeFails {
        return Idle;
      }
      var key := StateKey(userId);
      var stored := Get(cache, key, now);
      state := if stored.Some? && stored.value != "" then stored.value else Idle;
    }

    /** `clearUserState`: removes the entry; a failing delete is swallowed and changes nothing. */
    method ClearUserState(userId: nat, storeFails: bool)
      modifies this
      ensures cache == if storeFails then old(cache) else Delete(old(cache), StateKey(userId))
    {
      var key := StateKey(userId);
      if !storeFails {
        cache := cache - {key};
      }
    }
  }
}
