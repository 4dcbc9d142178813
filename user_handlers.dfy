/** The `/api` key menu: callback strings, the add/rename conversations and the menu keyboards. */
module UserHandlers {
  import opened Wrappers
  import Text
  import Users
  import opened Keyboard

  // ---------------------------------------------------------------------------------------------
  // Callback data
  // ---------------------------------------------------------------------------------------------

  /** What a pressed key-menu button asks for. `Unknown` is data that no branch of
      `button_handler` or `show_key_actions` recognises. */
  datatype Press =
    | AddKeyPress
    | RefreshPress
    | BackPress
    | SetPress(name: string)
    | DeletePress(name: string)
    | RenamePress(name: string)
    | InfoPress(name: string)
    | Unknown

  /** `data.split("|", 1)[1]`, for data known to contain a bar. */
  function Payload(data: string): string {
    Text.AfterFirst(data, '|').GetOr("")
  }

  /** The branch order of `button_handler` (exact words first, then the `set|`, `del|`, `rename|`
      prefixes, then `back`) with the `keyinfo|` prefix that `show_key_actions` answers. */
  function Decode(data: string): Press {
    if data == "add_key" then AddKeyPress
    else if data == "refresh" then RefreshPress
    else if Text.StartsWith(data, "set|") then SetPress(Payload(data))
    else if Text.StartsWith(data, "del|") then DeletePress(Payload(data))
    else if Text.StartsWith(data, "rename|") then RenamePress(Payload(data))
    else if data == "back" then BackPress
    else if Text.StartsWith(data, "keyinfo|") then InfoPress(Payload(data))
    else Unknown
  }

  /** The callback data the menus put on each kind of button. */
  function Encode(p: Press): string {
    match p
    case AddKeyPress => "add_key"
    case RefreshPress => "refresh"
    case BackPress => "back"
    case SetPress(n) => "set|" + n
    case DeletePress(n) => "del|" + n
    case RenamePress(n) => "rename|" + n
    case InfoPress(n) => "keyinfo|" + n
    case Unknown => ""
  }

  /** The name carried by `tag|name` is everything after the first bar, bars included. */
  lemma PayloadOfTagged(tag: string, name: string)
    requires '|' !in tag
    ensures Payload(tag + "|" + name) == name
  {
    Text.AfterFirstOfTagged(tag, '|', name);
  }

  /** Every button the menus build decodes to the action it was built for, whatever the key name. */
  lemma DecodeEncode(p: Press)
    requires !p.Unknown?
    ensures Decode(Encode(p)) == p
  {
    match p
    case AddKeyPress =>
    case RefreshPress =>
    case BackPress =>
    case SetPress(n) => DecodeSet(n);
    case DeletePress(n) => DecodeDelete(n);
    case RenamePress(n) => DecodeRename(n);
    case InfoPress(n) => DecodeInfo(n);
  }

  lemma DecodeSet(n: string)
    ensures Decode("set|" + n) == SetPress(n)
  {
    var d := "set|" + n;
    TaggedPayload("set|", n);
    assert d[0] == 's';
    Differs(d, "add_key", 0);
    Differs(d, "refresh", 0);
  }

  lemma DecodeDelete(n: string)
    ensures Decode("del|" + n) == DeletePress(n)
  {
    var d := "del|" + n;
    TaggedPayload("del|", n);
    assert d[0] == 'd';
    Differs(d, "add_key", 0);
    Differs(d, "refresh", 0);
    NotTagged(d, "set|", 0);
  }

  lemma DecodeRename(n: string)
    ensures Decode("rename|" + n) == RenamePress(n)
  {
    var d := "rename|" + n;
    TaggedPayload("rename|", n);
    assert d[0] == 'r' && d[2] == 'n';
    Differs(d, "add_key", 0);
    Differs(d, "refresh", 2);
    NotTagged(d, "set|", 0);
    NotTagged(d, "del|", 0);
  }

  lemma DecodeInfo(n: string)
    ensures Decode("keyinfo|" + n) == InfoPress(n)
  {
    var d := "keyinfo|" + n;
    TaggedPayload("keyinfo|", n);
    assert d[0] == 'k';
    Differs(d, "add_key", 0);
    Differs(d, "refresh", 0);
    Differs(d, "back", 0);
    NotTagged(d, "set|", 0);
    NotTagged(d, "del|", 0);
    NotTagged(d, "rename|", 0);
  }

  /** `tag` followed by a name carries the tag, and its payload is that name. */
  lemma TaggedPayload(tag: string, n: string)
    requires tag != [] && tag[|tag| - 1] == '|' && '|' !in tag[..|tag| - 1]
    ensures Text.StartsWith(tag + n, tag) && Payload(tag + n) == n
  {
    var word := tag[..|tag| - 1];
    assert word + ['|'] == tag;
    assert word + ['|'] + n == tag + n;
    Text.AfterFirstOfTagged(word, '|', n);
    assert (tag + n)[..|tag|] == tag;
  }

  /** Strings that differ at some position differ. */
  lemma Differs(a: string, b: string, k: nat)
    requires k < |a| && k < |b| && a[k] != b[k]
    ensures a != b
  {
  }

  /** Data that differs from a tag at some position does not carry that tag. */
  lemma NotTagged(data: string, tag: string, k: nat)
    requires k < |tag| && k < |data| && data[k] != tag[k]
    ensures !Text.StartsWith(data, tag)
  {
  }

  /** Conversely, any recognised data is exactly the encoding of what it decodes to, so the name of a
      `set|`, `del|`, `rename|` or `keyinfo|` press is the data after its first bar. */
  lemma EncodeDecode(data: string)
    requires !Decode(data).Unknown?
    ensures Encode(Decode(data)) == data
  {
    if data == "add_key" || data == "refresh" {
    } else if Text.StartsWith(data, "set|") {
      Retagged(data, "set|");
      assert Encode(Decode(data)) == "set|" + Payload(data);
    } else if Text.StartsWith(data, "del|") {
      Retagged(data, "del|");
      assert Encode(Decode(data)) == "del|" + Payload(data);
    } else if Text.StartsWith(data, "rename|") {
      Retagged(data, "rename|");
      assert Encode(Decode(data)) == "rename|" + Payload(data);
    } else if data == "back" {
    } else {
      Retagged(data, "keyinfo|");
      assert Encode(Decode(data)) == "keyinfo|" + Payload(data);
    }
  }

  /** Data carrying a tag that ends in its only bar is that tag followed by its payload. */
  lemma Retagged(data: string, tag: string)
    requires tag != [] && tag[|tag| - 1] == '|' && '|' !in tag[..|tag| - 1]
    requires Text.StartsWith(data, tag)
    ensures tag + Payload(data) == data
  {
    var word := tag[..|tag| - 1];
    assert word + ['|'] == tag;
    Text.AfterFirstOfPrefixed(data, word, '|');
    assert data == tag + data[|tag|..];
  }

  // ---------------------------------------------------------------------------------------------
  // Rename
  // ---------------------------------------------------------------------------------------------

  /** How `receive_rename` ends: bad input, the new name taken, the old name missing, or done. */
  datatype RenameReply = InvalidName | NameTaken | NotFound | Renamed

  /** The rename proper, once both names are non-empty: the new name is checked first, then the old
      one; `keys[new] = keys.pop(old)` re-inserts the secret at the end of the dict, and the active
      pointer follows it. */
  function Rename(r: Users.Record, oldName: string, newName: string): (RenameReply, Users.Record) {
    if newName in r.keys then (NameTaken, r)
    else if oldName !in r.keys then (NotFound, r)
    else (Renamed, Users.Record(
      (r.keys - {oldName})[newName := r.keys[oldName]],
      Users.Remove(r.order, oldName) + [newName],
      if r.active == Some(oldName) then Some(newName) else r.active))
  }

  /** A taken new name (the old name itself included) is refused before the old name is looked up;
      a missing old name is refused next; both leave the record as it was. A rename keeps the
      secret under the new name, drops the old one, keeps every other entry and the number of keys,
      moves the entry to the end of the order and moves the active pointer iff it pointed at the
      old name. The record stays coherent. */
  lemma RenameSpec(r: Users.Record, oldName: string, newName: string)
    requires Users.Coherent(r)
    ensures var (reply, after) := Rename(r, oldName, newName);
      && (reply == NameTaken <==> newName in r.keys)
      && (reply == NotFound <==> newName !in r.keys && oldName !in r.keys)
      && (oldName == newName ==> reply != Renamed)
      && (reply != Renamed ==> after == r)
      && (reply == Renamed ==>
        && after.keys.Keys == r.keys.Keys - {oldName} + {newName}
        && |after.keys.Keys| == |r.keys.Keys|
        && after.keys[newName] == r.keys[oldName]
        && (forall n | n in r.keys && n != oldName :: after.keys[n] == r.keys[n])
        && |after.order| == |r.order|
        && after.order[|after.order| - 1] == newName
        && after.order[..|after.order| - 1] == Users.Remove(r.order, oldName)
        && (r.active == Some(oldName) ==> after.active == Some(newName))
        && (r.active != Some(oldName) ==> after.active == r.active))
      && Users.Coherent(after)
  {
    if newName !in r.keys && oldName in r.keys {
      RenamedKeys(r, oldName, newName);
      RenamedCoherent(r, oldName, newName);
    }
  }

  /** The key set and order after a rename that goes through. */
  lemma RenamedKeys(r: Users.Record, oldName: string, newName: string)
    requires Users.WellFormed(r) && newName !in r.keys && oldName in r.keys
    ensures var after := Rename(r, oldName, newName).1;
      && after.keys.Keys == r.keys.Keys - {oldName} + {newName}
      && |after.keys.Keys| == |r.keys.Keys|
      && |after.order| == |r.order|
  {
    var after := Rename(r, oldName, newName).1;
    assert r.keys.Keys - {oldName} + {newName} == after.keys.Keys;
    assert |r.keys.Keys - {oldName}| == |r.keys.Keys| - 1;
  }

  /** A rename that goes through keeps the record coherent. */
  lemma RenamedCoherent(r: Users.Record, oldName: string, newName: string)
    requires Users.Coherent(r) && newName !in r.keys && oldName in r.keys
    ensures Users.Coherent(Rename(r, oldName, newName).1)
  {
    var after := Rename(r, oldName, newName).1;
    var rest := Users.Remove(r.order, oldName);
    assert after.order == rest + [newName];
    assert newName !in rest;
    assert Users.Distinct(after.order) by {
      forall i, j | 0 <= i < j < |after.order| ensures after.order[i] != after.order[j] {
        if j == |rest| { assert after.order[i] == rest[i]; }
      }
    }
    assert forall n :: n in after.keys <==> n in after.order;
  }

  /** `context.user_data`: the two pending conversations of one user. */
  class UserData {
    var pendingKeyId: Option<string>
    var renameKey: Option<string>

    constructor ()
      ensures pendingKeyId == None && renameKey == None
    {
      pendingKeyId := None;
      renameKey := None;
    }
  }

  /** `receive_rename`: the new name is the stripped message. A missing or empty pending name or an
      empty new name ends the conversation; a taken name keeps it open for another try; a missing
      old name ends it; a rename writes the chat's record in place and saves. The store is only
      read through `.get`, so a chat with no record gets none. */
  method ReceiveRename(store: Users.UserStore, ud: UserData, chat: int, text: string) returns (reply: RenameReply)
    requires store.Valid()
    modifies store, ud
    ensures store.Valid() && ud.pendingKeyId == old(ud.pendingKeyId)
    ensures var newName := Text.Strip(text);
      if !Text.Truthy(old(ud.renameKey)) || newName == "" then
        reply == InvalidName && ud.renameKey == None
        && store.users == old(store.users) && store.saves == old(store.saves)
      else
        var (o, after) := Rename(old(store.RecordOf(chat)), old(ud.renameKey).value, newName);
        && reply == o
        && (o == NameTaken ==> ud.renameKey == old(ud.renameKey))
        && (o != NameTaken ==> ud.renameKey == None)
        && (o == Renamed ==> store.users == old(store.users)[chat := after] && store.saves == old(store.saves) + 1)
        && (o != Renamed ==> store.users == old(store.users) && store.saves == old(store.saves))
  {
    var newName := Text.Strip(text);
    var oldName := ud.renameKey;
    if !Text.Truthy(oldName) || newName == "" {
      ud.renameKey := None;
      return InvalidName;
    }
    var r := store.RecordOf(chat);
    var (o, after) := Rename(r, oldName.value, newName);
    reply := o;
    if o == NameTaken {
      return;
    }
    if o == Renamed {
      assert store.Valid() && chat in store.users ==> Users.Coherent(r);
      RenamedCoherent(r, oldName.value, newName);
      store.Commit(chat, after);
    }
    ud.renameKey := None;
  }

  /** The outcome of `receive_key`: the key id saved under, or nothing saved. */
  datatype KeyReply = Invalid | Saved(keyId: string)

  /** `receive_key`: the stripped message is stored under the pending id when both are non-empty;
      the pending id is cleared on both paths and the rename conversation is untouched. */
  method ReceiveKey(store: Users.UserStore, ud: UserData, chat: int, text: string) returns (reply: KeyReply)
    requires store.Valid()
    modifies store, ud
    ensures store.Valid() && ud.pendingKeyId == None && ud.renameKey == old(ud.renameKey)
    ensures var key := Text.Strip(text);
      if !Text.Truthy(old(ud.pendingKeyId)) || key == "" then
        reply == Invalid && store.users == old(store.users) && store.saves == old(store.saves)
      else
        var keyId := old(ud.pendingKeyId).value;
        && reply == Saved(keyId)
        && store.users == old(store.users)[chat := Users.AddKey(old(store.RecordOf(chat)), keyId, key).value]
        && store.saves == old(store.saves) + 1
  {
    var key := Text.Strip(text);
    var keyId := ud.pendingKeyId;
    if !Text.Truthy(keyId) || key == "" {
      ud.pendingKeyId := None;
      return Invalid;
    }
    Text.StripIdempotent(text);
    var ok := store.AddUserKey(chat, keyId.value, key);
    ud.pendingKeyId := None;
    reply := Saved(keyId.value);
  }

  // ---------------------------------------------------------------------------------------------
  // Buttons
  // ---------------------------------------------------------------------------------------------

  /** What `button_handler` shows next. */
  datatype ButtonReply = AskForKey(keyId: string) | ShowMenu | KeyNotFound | AskForName(oldName: string) | NoReply

  /** The id a new key is saved as: `key_` and the first eight characters of a fresh uuid. */
  function NewKeyId(uuid: string): (id: string)
    ensures Text.StartsWith(id, "key_") && |id| <= 12
    ensures |uuid| >= 8 ==> id == "key_" + uuid[..8]
    ensures |uuid| < 8 ==> id == "key_" + uuid
  {
    "key_" + Text.Take(uuid, 8)
  }

  /** `button_handler`, with the fresh uuid as a parameter. `set|` and `del|` go through the store
      (which creates the chat's record even when the name is unknown); `add_key` and `rename|` open a
      conversation; `refresh` and `back` redraw the menu; other data gets no reply. */
  method ButtonHandler(store: Users.UserStore, ud: UserData, chat: int, data: string, uuid: string)
    returns (reply: ButtonReply)
    requires store.Valid()
    modifies store, ud
    ensures store.Valid()
    ensures match Decode(data)
      case AddKeyPress =>
        && reply == AskForKey(NewKeyId(uuid)) && ud.pendingKeyId == Some(NewKeyId(uuid))
        && ud.renameKey == old(ud.renameKey) && store.users == old(store.users) && store.saves == old(store.saves)
      case SetPress(n) =>
        var (found, after) := Users.SetActive(old(store.RecordOf(chat)), n);
        && reply == (if found then ShowMenu else KeyNotFound)
        && store.users == old(store.users)[chat := after]
        && store.saves == old(store.saves) + (if found then 1 else 0)
        && ud.pendingKeyId == old(ud.pendingKeyId) && ud.renameKey == old(ud.renameKey)
      case DeletePress(n) =>
        var (existed, after) := Users.DeleteKey(old(store.RecordOf(chat)), n);
        && reply == (if existed then ShowMenu else KeyNotFound)
        && store.users == old(store.users)[chat := after]
        && store.saves == old(store.saves) + (if existed then 1 else 0)
        && ud.pendingKeyId == old(ud.pendingKeyId) && ud.renameKey == old(ud.renameKey)
      case RenamePress(n) =>
        && reply == AskForName(n) && ud.renameKey == Some(n)
        && ud.pendingKeyId == old(ud.pendingKeyId) && store.users == old(store.users) && store.saves == old(store.saves)
      case RefreshPress | BackPress =>
        && reply == ShowMenu && store.users == old(store.users) && store.saves == old(store.saves)
        && ud.pendingKeyId == old(ud.pendingKeyId) && ud.renameKey == old(ud.renameKey)
      case _ =>
        && reply == NoReply && store.users == old(store.users) && store.saves == old(store.saves)
        && ud.pendingKeyId == old(ud.pendingKeyId) && ud.renameKey == old(ud.renameKey)
  {
    match Decode(data)
    case AddKeyPress =>
      ud.pendingKeyId := Some(NewKeyId(uuid));
      reply := AskForKey(NewKeyId(uuid));
    case SetPress(n) =>
      var found := store.SetActiveKey(chat, n);
      reply := if found then ShowMenu else KeyNotFound;
    case DeletePress(n) =>
      var existed := store.DeleteUserKey(chat, n);
      reply := if existed then ShowMenu else KeyNotFound;
    case RenamePress(n) =>
      ud.renameKey := Some(n);
      reply := AskForName(n);
    case RefreshPress =>
      reply := ShowMenu;
    case BackPress =>
      reply := ShowMenu;
    case _ =>
      reply := NoReply;
  }

  /** The panel `show_key_actions` draws for one key, or the not-found reply. */
  datatype KeyView = KeyMissing | KeyPanel(isActive: bool, buttons: seq<Button>)

  /** `show_key_actions` for the name its `keyinfo|` data carries. A missing name, or one whose
      stored secret is empty, is "Key not found". */
  function KeyActions(r: Users.Record, name: string): KeyView {
    if name !in r.keys || r.keys[name] == "" then KeyMissing
    else KeyPanel(Some(name) == r.active, PanelButtons(name))
  }

  /** The four buttons under one key. */
  function PanelButtons(name: string): seq<Button> {
    [Button("Set Active", Encode(SetPress(name))),
     Button("Rename", Encode(RenamePress(name))),
     Button("Delete", Encode(DeletePress(name))),
     Button("Back", Encode(BackPress))]
  }

  /** Each of the four buttons decodes to the action it is labelled with, on that key. */
  lemma PanelButtonsDecode(name: string)
    ensures var bs := PanelButtons(name);
      && |bs| == 4
      && Decode(bs[0].callbackData) == SetPress(name)
      && Decode(bs[1].callbackData) == RenamePress(name)
      && Decode(bs[2].callbackData) == DeletePress(name)
      && Decode(bs[3].callbackData) == BackPress
  {
    DecodeEncode(SetPress(name));
    DecodeEncode(RenamePress(name));
    DecodeEncode(DeletePress(name));
    DecodeEncode(BackPress);
  }

  lemma KeyActionsSpec(r: Users.Record, name: string)
    requires Users.Coherent(r)
    ensures var v := KeyActions(r, name);
      && (v.KeyPanel? <==> name in r.keys)
      && (v.KeyPanel? ==>
        && v.isActive == (r.active == Some(name))
        && |v.buttons| == 4
        && Decode(v.buttons[0].callbackData) == SetPress(name)
        && Decode(v.buttons[1].callbackData) == RenamePress(name)
        && Decode(v.buttons[2].callbackData) == DeletePress(name)
        && Decode(v.buttons[3].callbackData) == BackPress)
  {
    if name in r.keys {
      assert r.keys[name] != "";
      PanelButtonsDecode(name);
    }
  }


  /** The label of a key's menu button. */
  function KeyLabel(name: string, active: Option<string>): string {
    name + (if Some(name) == active then " (active)" else "")
  }

  /** `api_menu`'s keyboard, built by appending one button per stored key in insertion order, then
      "Add Key" and "Refresh". The store is only read (`.get`), so an unknown chat shows just the two
      bottom buttons. */
  method ApiMenu(store: Users.UserStore, chat: int) returns (keyboard: seq<Button>)
    ensures var r := store.RecordOf(chat);
      && |keyboard| == |r.order| + 2
      && (forall i | 0 <= i < |r.order| ::
        && (keyboard[i].text == r.order[i] + " (active)" <==> r.active == Some(r.order[i]))
        && (keyboard[i].text == r.order[i] <==> r.active != Some(r.order[i]))
        && Decode(keyboard[i].callbackData) == InfoPress(r.order[i]))
      && keyboard[|r.order|] == Button("Add Key", "add_key")
      && keyboard[|r.order| + 1] == Button("Refresh", "refresh")
      && Decode(keyboard[|r.order|].callbackData) == AddKeyPress
      && Decode(keyboard[|r.order| + 1].callbackData) == RefreshPress
  {
    var r := store.RecordOf(chat);
    var keyButtons: seq<Button> := [];
    var i := 0;
    while i < |r.order|
      invariant 0 <= i <= |r.order| && |keyButtons| == i
      invariant forall k | 0 <= k < i ::
        keyButtons[k] == Button(KeyLabel(r.order[k], r.active), Encode(InfoPress(r.order[k])))
    {
      keyButtons := keyButtons + [Button(KeyLabel(r.order[i], r.active), Encode(InfoPress(r.order[i])))];
      i := i + 1;
    }
    keyboard := keyButtons + [Button("Add Key", "add_key"), Button("Refresh", "refresh")];
    forall k | 0 <= k < |r.order|
      ensures Decode(keyboard[k].callbackData) == InfoPress(r.order[k])
      ensures keyboard[k].text == r.order[k] + " (active)" <==> r.active == Some(r.order[k])
    {
      DecodeEncode(InfoPress(r.order[k]));
      if keyboard[k].text == r.order[k] + " (active)" {
        assert |keyboard[k].text| > |r.order[k]|;
      }
    }
  }

  /** On a coherent record at most one menu button carries the active mark, and one does whenever a
      key is active. */
  lemma MenuMarksOneKey(r: Users.Record)
    requires Users.Coherent(r)
    ensures forall i, j | 0 <= i < j < |r.order| ::
      !(KeyLabel(r.order[i], r.active) != r.order[i] && KeyLabel(r.order[j], r.active) != r.order[j])
    ensures r.active.Some? ==> exists i | 0 <= i < |r.order| :: KeyLabel(r.order[i], r.active) != r.order[i]
  {
    if r.active.Some? {
      var i :| 0 <= i < |r.order| && r.order[i] == r.active.value;
      assert KeyLabel(r.order[i], r.active) != r.order[i] by {
        assert |KeyLabel(r.order[i], r.active)| > |r.order[i]|;
      }
    }
  }
}
