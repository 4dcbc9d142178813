/** The per-chat credential store: named Gemini API keys and the one that is active. */
module Users {
  import opened Wrappers
  import Text

  /** One chat's entry, `{"keys": {name: secret}, "active": name | None}`. `keys` is a Python dict,
      so its iteration (insertion) order is kept beside it in `order`. */
  datatype Record = Record(keys: map<string, string>, order: seq<string>, active: Option<string>)

  /** What `_ensure_user` inserts for a chat it has not seen. */
  const Fresh: Record := Record(map[], [], None)

  ghost predicate Distinct(s: seq<string>) {
    forall i, j | 0 <= i < j < |s| :: s[i] != s[j]
  }

  /** `order` lists every key of the dict exactly once and nothing else. */
  ghost predicate WellFormed(r: Record) {
    Distinct(r.order) && forall n :: n in r.keys <==> n in r.order
  }

  /** Every stored secret is non-empty, as `add_user_key` leaves it. */
  ghost predicate SecretsPresent(r: Record) {
    forall n | n in r.keys :: r.keys[n] != ""
  }

  /** The active pointer is unset or names a stored key, and it is unset only when no key is stored. */
  ghost predicate ActiveOk(r: Record) {
    (r.active.Some? ==> r.active.value in r.keys) && (r.active.None? ==> r.keys == map[])
  }

  /** The invariant every operation keeps, starting from `Fresh`. */
  ghost predicate Coherent(r: Record) {
    WellFormed(r) && SecretsPresent(r) && ActiveOk(r)
  }

  lemma FreshIsCoherent()
    ensures Coherent(Fresh)
  {
  }

  /** `get_active_key`: the secret of the active name. The name is tested for truthiness, so an
      empty active name reads as no key. */
  function ActiveKey(r: Record): Option<string> {
    if r.active.Some? && r.active.value != "" && r.active.value in r.keys then Some(r.keys[r.active.value])
    else None
  }

  /** On a coherent record the active key is `keys[active]` whenever a (non-empty) name is
      active, is never the empty string, and is absent only when nothing is active. */
  lemma ActiveKeyOfCoherent(r: Record)
    requires Coherent(r)
    ensures ActiveKey(r).None? <==> r.active.None? || r.active == Some("")
    ensures ActiveKey(r).None? ==> (r.active.None? <==> r.keys == map[])
    ensures ActiveKey(r).Some? ==> ActiveKey(r).value == r.keys[r.active.value] && ActiveKey(r).value != ""
  {
  }

  /** `set_active_key`: `(found, record after)`. */
  function SetActive(r: Record, name: string): (bool, Record) {
    if name in r.keys then (true, r.(active := Some(name))) else (false, r)
  }

  /** An unknown name is refused and changes nothing; a known one becomes active and the keys
      and their order stay as they were. The invariant is kept either way. */
  lemma SetActiveSpec(r: Record, name: string)
    requires Coherent(r)
    ensures var (found, after) := SetActive(r, name);
      && (found <==> name in r.keys)
      && (!found ==> after == r)
      && (found ==> after.active == Some(name) && after.keys == r.keys && after.order == r.order)
      && Coherent(after)
  {
  }

  /** `add_user_key`: `None` where it raises ValueError (the stripped secret is empty). The stripped
      secret is stored under `name`, replacing any earlier one in place; a new name goes last;
      the name becomes active only when nothing was. */
  function AddKey(r: Record, name: string, apiKey: string): Option<Record> {
    var secret := Text.Strip(apiKey);
    if secret == "" then None
    else Some(Record(
      r.keys[name := secret],
      if name in r.keys then r.order else r.order + [name],
      if r.active.None? then Some(name) else r.active))
  }

  lemma AddKeySpec(r: Record, name: string, apiKey: string)
    requires Coherent(r)
    ensures var added := AddKey(r, name, apiKey);
      && (added.None? <==> Text.AllSpace(apiKey))
      && (added.Some? ==>
        var after := added.value;
        && after.keys[name] == Text.Strip(apiKey)
        && after.keys.Keys == r.keys.Keys + {name}
        && (forall n | n in r.keys && n != name :: after.keys[n] == r.keys[n])
        && (name !in r.keys ==> after.order == r.order + [name])
        && (name in r.keys ==> after.order == r.order)
        && (r.active.None? ==> after.active == Some(name))
        && (r.active.Some? ==> after.active == r.active)
        && Coherent(after))
  {
    if !Text.AllSpace(apiKey) { AddKeyCoherent(r, name, apiKey); }
  }

  /** The part of `AddKeySpec` the store needs: an accepted secret keeps the record coherent. */
  lemma AddKeyCoherent(r: Record, name: string, apiKey: string)
    requires Coherent(r) && Text.Strip(apiKey) != ""
    ensures AddKey(r, name, apiKey).Some? && Coherent(AddKey(r, name, apiKey).value)
  {
    PutCoherent(r, name, Text.Strip(apiKey));
  }

  /** Storing a non-empty secret under a name, appending the name when it is new and activating it
      when nothing is active, keeps a record coherent. */
  lemma PutCoherent(r: Record, name: string, secret: string)
    requires Coherent(r) && secret != ""
    ensures Coherent(Record(r.keys[name := secret], if name in r.keys then r.order else r.order + [name],
      if r.active.None? then Some(name) else r.active))
  {
    if name !in r.keys { AppendDistinct(r.order, name); }
  }

  lemma AppendDistinct(s: seq<string>, x: string)
    requires Distinct(s) && x !in s
    ensures Distinct(s + [x])
  {
    var t := s + [x];
    forall i, j | 0 <= i < j < |t| ensures t[i] != t[j] {
      assert t[i] == s[i];
      if j < |s| { assert t[j] == s[j]; }
    }
  }

  /** Dropping one name from a list, the others keeping their relative order. */
  function Remove(s: seq<string>, x: string): (r: seq<string>)
    ensures forall y :: y in r <==> y in s && y != x
    ensures x !in s ==> r == s
    ensures Distinct(s) ==> Distinct(r)
    ensures Distinct(s) && x in s ==> |r| == |s| - 1
  {
    if s == [] then []
    else if s[0] == x then
      assert Distinct(s) ==> x !in s[1..];
      Remove(s[1..], x)
    else
      var rest := Remove(s[1..], x);
      assert Distinct(s) ==> s[0] !in rest;
      [s[0]] + rest
  }

  /** `delete_user_key`: `(existed, record after)`. When the active name is deleted the first
      remaining name in insertion order (`next(iter(keys))`) becomes active, or none. */
  function DeleteKey(r: Record, name: string): (bool, Record) {
    if name !in r.keys then (false, r)
    else
      var order := Remove(r.order, name);
      (true, Record(
        r.keys - {name},
        order,
        if r.active == Some(name) then (if order == [] then None else Some(order[0])) else r.active))
  }

  lemma DeleteKeySpec(r: Record, name: string)
    requires Coherent(r)
    ensures var (existed, after) := DeleteKey(r, name);
      && (existed <==> name in r.keys)
      && (!existed ==> after == r)
      && (existed ==>
        && after.keys.Keys == r.keys.Keys - {name}
        && (forall n | n in after.keys :: after.keys[n] == r.keys[n])
        && after.order == Remove(r.order, name)
        && |after.order| == |r.order| - 1
        && (r.active == Some(name) ==> after.active == (if after.order == [] then None else Some(after.order[0])))
        && (r.active != Some(name) ==> after.active == r.active))
      && Coherent(after)
  {
    if name in r.keys {
      var (_, after) := DeleteKey(r, name);
      if after.active.None? {
        assert after.order == [];
        assert forall n :: n !in after.keys;
      }
    }
  }

  /** `list_user_keys`: each name in insertion order with whether it is the active one. */
  function ListKeys(r: Record): seq<(string, bool)> {
    seq(|r.order|, i requires 0 <= i < |r.order| => (r.order[i], Some(r.order[i]) == r.active))
  }

  /** The listing has one row per stored name, in order, and at most one row is flagged; on a
      coherent record with an active name, exactly the row of that name is flagged. */
  lemma ListKeysSpec(r: Record)
    requires Coherent(r)
    ensures var rows := ListKeys(r);
      && |rows| == |r.order|
      && (forall i | 0 <= i < |rows| :: rows[i].0 == r.order[i] && rows[i].0 in r.keys)
      && (forall i, j | 0 <= i < j < |rows| :: !(rows[i].1 && rows[j].1))
      && (r.active.Some? ==> exists i | 0 <= i < |rows| :: rows[i].1)
      && (forall i | 0 <= i < |rows| :: rows[i].1 <==> r.active == Some(r.order[i]))
  {
    if r.active.Some? {
      var i :| 0 <= i < |r.order| && r.order[i] == r.active.value;
      assert ListKeys(r)[i].1;
    }
  }

  /** Writing a key twice leaves only the second value. */
  lemma UpdateTwice<K, V>(m: map<K, V>, k: K, a: V, b: V)
    ensures m[k := a][k := b] == m[k := b]
  {
  }

  /** The module-level `_user_data` dict: chat id to record, mutated in place. `saves` counts the
      calls of `_save`, whose JSON rewrite of the whole document is not modelled. */
  class UserStore {
    var users: map<int, Record>
    var saves: nat

    /** The store as `_load` leaves it when there is no data file. */
    constructor ()
      ensures users == map[] && saves == 0
    {
      users := map[];
      saves := 0;
    }

    ghost predicate Valid()
      reads this
    {
      forall c | c in users :: Coherent(users[c])
    }

    /** What `_ensure_user` would return, without inserting it. */
    function RecordOf(chat: int): Record
      reads this
    {
      if chat in users then users[chat] else Fresh
    }

    /** `_ensure_user`: `setdefault` with a fresh record. */
    method EnsureUser(chat: int) returns (r: Record)
      requires Valid()
      modifies this
      ensures Valid() && saves == old(saves)
      ensures r == old(RecordOf(chat)) && users == old(users)[chat := r]
    {
      if chat !in users {
        users := users[chat := Fresh];
      }
      r := users[chat];
    }

    /** `get_user_keys`: a copy of the chat's keys. */
    method GetUserKeys(chat: int) returns (keys: map<string, string>)
      requires Valid()
      modifies this
      ensures Valid() && saves == old(saves)
      ensures users == old(users)[chat := old(RecordOf(chat))]
      ensures keys == old(RecordOf(chat)).keys
    {
      var r := EnsureUser(chat);
      keys := r.keys;
    }

    /** `get_active_key`. */
    method GetActiveKey(chat: int) returns (key: Option<string>)
      requires Valid()
      modifies this
      ensures Valid() && saves == old(saves)
      ensures users == old(users)[chat := old(RecordOf(chat))]
      ensures key == ActiveKey(old(RecordOf(chat)))
    {
      var r := EnsureUser(chat);
      key := ActiveKey(r);
    }

    /** Writing a coherent record back into the dict and calling `_save`. */
    method Commit(chat: int, r: Record)
      requires Valid() && Coherent(r)
      modifies this
      ensures Valid()
      ensures users == old(users)[chat := r] && saves == old(saves) + 1
    {
      users := users[chat := r];
      saves := saves + 1;
    }

    /** `set_active_key`: saves only when the name is known. */
    method SetActiveKey(chat: int, name: string) returns (found: bool)
      requires Valid()
      modifies this
      ensures Valid()
      ensures var (f, after) := SetActive(old(RecordOf(chat)), name);
        found == f && users == old(users)[chat := after] && saves == old(saves) + (if f then 1 else 0)
    {
      var r := EnsureUser(chat);
      SetActiveSpec(r, name);
      var (f, after) := SetActive(r, name);
      found := f;
      if found {
        Commit(chat, after);
        UpdateTwice(old(users), chat, r, after);
      }
    }

    /** `add_user_key`: `ok` is false where it raises ValueError, which happens before the record is
        even created, so nothing changes. */
    method AddUserKey(chat: int, name: string, apiKey: string) returns (ok: bool)
      requires Valid()
      modifies this
      ensures Valid()
      ensures ok <==> !Text.AllSpace(apiKey)
      ensures !ok ==> users == old(users) && saves == old(saves)
      ensures ok ==> users == old(users)[chat := AddKey(old(RecordOf(chat)), name, apiKey).value] && saves == old(saves) + 1
    {
      if Text.Strip(apiKey) == "" {
        return false;
      }
      var r := EnsureUser(chat);
      AddKeyCoherent(r, name, apiKey);
      var added := AddKey(r, name, apiKey).value;
      Commit(chat, added);
      UpdateTwice(old(users), chat, r, added);
      ok := true;
    }

    /** `delete_user_key`: saves only when the name existed. */
    method DeleteUserKey(chat: int, name: string) returns (existed: bool)
      requires Valid()
      modifies this
      ensures Valid()
      ensures var (e, after) := DeleteKey(old(RecordOf(chat)), name);
        existed == e && users == old(users)[chat := after] && saves == old(saves) + (if e then 1 else 0)
    {
      var r := EnsureUser(chat);
      DeleteKeySpec(r, name);
      var (e, after) := DeleteKey(r, name);
      existed := e;
      if existed {
        Commit(chat, after);
        UpdateTwice(old(users), chat, r, after);
      }
    }

    /** `list_user_keys`. */
    method ListUserKeys(chat: int) returns (rows: seq<(string, bool)>)
      requires Valid()
      modifies this
      ensures Valid() && saves == old(saves)
      ensures users == old(users)[chat := old(RecordOf(chat))]
      ensures rows == ListKeys(old(RecordOf(chat)))
    {
      var r := EnsureUser(chat);
      rows := ListKeys(r);
    }
  }
}
