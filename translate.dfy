/** Gemini: the per-chat model-list cache, the client memo and how a translation request is built.
    The Gemini calls themselves are oracles given as parameters. */
module Translate {
  import opened Wrappers
  import Text
  import Sorting
  import Users

  const DefaultModelName := "gemini-1.5-flash"

  /** The built-in style guide, already stripped. */
  const DefaultStyleGuide :=
    "YOU ARE MY MANGA/MANHWA DIALOGUE TRANSLATION ASSISTANT.\n"
    + "YOUR JOB IS TO TRANSLATE ENGLISH DIALOGUES INTO CASUAL HINGLISH (MIX OF HINDI + ENGLISH).\n"
    + "\n"
    + "RULES:\n"
    + "1. Translate all lines accurately, naturally, and emotionally.\n"
    + "2. Output ONLY the translated Hinglish dialogues (no explanations).\n"
    + "3. Maintain tone and casing from the original.\n"
    + "4. Avoid unnatural commas or punctuation.\n"
    + "5. Don't translate names, powers, or places.\n"
    + "6. Keep translations concise and natural.\n"
    + "\n"
    + "EXAMPLES:\n"
    + "\"YO, FREE-LOADER.\" → \"OYE, MUFTKHOR.\"\n"
    + "\"AS SULKY AS EVER, I SEE.\" → \"HAMESHA KI TARAH MUH FULA RAKHHA HAI, BADHIYA HAI.\""

  /** How long, in seconds, a cached model list is served. */
  const CacheWindow := 300

  // ---------------------------------------------------------------------------------------------
  // Model lists
  // ---------------------------------------------------------------------------------------------

  /** A model list as the bot keeps it: a dict from model name to description, its key order kept
      in `names`. */
  datatype ModelMenu = ModelMenu(names: seq<string>, desc: map<string, string>)

  const EmptyMenu := ModelMenu([], map[])

  /** The three models served when there is no key or the live listing fails. */
  const Fallback := ModelMenu(
    ["gemini-1.5-flash", "gemini-1.5-pro", "gemini-2.0-flash-exp"],
    map["gemini-1.5-flash" := "Fast & cheap | 1M context",
        "gemini-1.5-pro" := "Advanced | 2M context",
        "gemini-2.0-flash-exp" := "Experimental fast model"])

  /** One entry of `client.models.list()`: its resource name, the generation methods it supports
      (`None` read as none), its display name and its input token limit (0 when absent). */
  datatype ModelInfo = ModelInfo(name: string, methods: Option<seq<string>>, displayName: Option<string>, inputTokenLimit: int)

  /** What listing the models did: raised (client creation or the listing itself), or the models. */
  datatype Listing = ListingFailed | Listed(models: seq<ModelInfo>)

  /** `m.name.split("/")[-1]`. */
  function ShortName(m: ModelInfo): string {
    Text.AfterLast(m.name, '/')
  }

  /** The filter: a `gemini-` model that supports `generateContent`. */
  predicate Passes(m: ModelInfo) {
    Text.StartsWith(ShortName(m), "gemini-") && "generateContent" in m.methods.GetOr([])
  }

  /** The listing loop as written: the assignment goes to `if_ctx` and the test reads `_ctx`, so the
      first model that passes the filter raises NameError (`None`); a list where none passes gives
      the empty dict. */
  function ListingAsWritten(models: seq<ModelInfo>): Option<ModelMenu>
    decreases |models|
  {
    if models == [] then Some(EmptyMenu)
    else if Passes(models[0]) then None
    else ListingAsWritten(models[1..])
  }

  /** As written, the loop raises exactly when some model passes, and otherwise yields nothing: the
      live listing can never offer a model. */
  lemma {:induction false} ListingAsWrittenSpec(models: seq<ModelInfo>)
    ensures ListingAsWritten(models).None? <==> exists i | 0 <= i < |models| :: Passes(models[i])
    ensures ListingAsWritten(models).Some? ==> ListingAsWritten(models).value == EmptyMenu
    decreases |models|
  {
    if models != [] {
      ListingAsWrittenSpec(models[1..]);
      assert forall i | 0 <= i < |models| - 1 :: models[1..][i] == models[i + 1];
      if !Passes(models[0]) && exists i | 0 <= i < |models| :: Passes(models[i]) {
        var i :| 0 <= i < |models| && Passes(models[i]);
        assert models[1..][i - 1] == models[i];
      }
    }
  }

  /** `fetch_available_models` after the cache miss, with the listing as written: a raise anywhere is
      caught and answered with the fallback. */
  function FetchedAsWritten(activeKey: Option<string>, listing: Listing): ModelMenu {
    if !Text.Truthy(activeKey) then Fallback
    else match listing
      case ListingFailed => Fallback
      case Listed(models) => ListingAsWritten(models).GetOr(Fallback)
  }

  /** With a key, any listing in which some model passes the filter is answered with the fallback
      as written, while the intended listing offers that model. */
  lemma AsWrittenDropsLiveModels(key: string, models: seq<ModelInfo>, i: nat)
    requires key != "" && i < |models| && Passes(models[i])
    ensures FetchedAsWritten(Some(key), Listed(models)) == Fallback
    ensures ShortName(models[i]) in ModelsFor(Some(key), Listed(models)).names
  {
    ListingAsWrittenSpec(models);
    IntendedListingSpec(models);
  }

  /** As written, every cache miss serves the fallback or the empty list. */
  lemma FetchedAsWrittenNeverLists(activeKey: Option<string>, listing: Listing)
    ensures FetchedAsWritten(activeKey, listing) == Fallback || FetchedAsWritten(activeKey, listing) == EmptyMenu
  {
    if listing.Listed? { ListingAsWrittenSpec(listing.models); }
  }

  /** The description the loop evidently means to build: the display name and the grouped token
      limit with " ctx", joined by " | ", or "Text model" when neither is there. */
  function Describe(m: ModelInfo): (d: string)
    ensures d != ""
    ensures !Text.Truthy(m.displayName) && m.inputTokenLimit == 0 ==> d == "Text model"
    ensures Text.Truthy(m.displayName) && m.inputTokenLimit == 0 ==> d == m.displayName.value
    ensures !Text.Truthy(m.displayName) && m.inputTokenLimit != 0 ==> d == Text.Grouped(m.inputTokenLimit) + " ctx"
    ensures Text.Truthy(m.displayName) && m.inputTokenLimit != 0 ==>
      d == m.displayName.value + " | " + Text.Grouped(m.inputTokenLimit) + " ctx"
  {
    var parts := (if Text.Truthy(m.displayName) then [m.displayName.value] else [])
      + (if m.inputTokenLimit != 0 then [Text.Grouped(m.inputTokenLimit) + " ctx"] else []);
    if parts == [] then "Text model"
    else
      assert |parts| == 2 ==> Text.JoinWith(parts, " | ") == parts[0] + " | " + parts[1];
      Text.JoinWith(parts, " | ")
  }

  /** `filtered` after the loop: each passing model's description under its short name, a later
      model of the same name overwriting an earlier one. */
  function FilteredMap(models: seq<ModelInfo>): map<string, string>
    decreases |models|
  {
    if models == [] then map[]
    else
      var m := models[|models| - 1];
      var before := FilteredMap(models[..|models| - 1]);
      if Passes(m) then before[ShortName(m) := Describe(m)] else before
  }

  /** The insertion order of `filtered`'s keys: a name goes last the first time it is stored. */
  function FilteredOrder(models: seq<ModelInfo>): seq<string>
    decreases |models|
  {
    if models == [] then []
    else
      var m := models[|models| - 1];
      var before := FilteredOrder(models[..|models| - 1]);
      if Passes(m) && ShortName(m) !in before then before + [ShortName(m)] else before
  }

  /** `dict(sorted(filtered.items()))`: the names can be sorted alone, being distinct. */
  function IntendedListing(models: seq<ModelInfo>): ModelMenu {
    ModelMenu(Sorting.Sort(FilteredOrder(models)), FilteredMap(models))
  }

  ghost predicate DistinctNames(s: seq<string>) {
    forall i, j | 0 <= i < j < |s| :: s[i] != s[j]
  }

  /** The insertion order lists each stored name once, and exactly the stored names. */
  lemma {:induction false} FilteredOrderSpec(models: seq<ModelInfo>)
    ensures DistinctNames(FilteredOrder(models))
    ensures forall n :: n in FilteredMap(models) <==> n in FilteredOrder(models)
    decreases |models|
  {
    if models != [] {
      var init := models[..|models| - 1];
      var m := models[|models| - 1];
      FilteredOrderSpec(init);
      var order := FilteredOrder(init);
      if Passes(m) && ShortName(m) !in order {
        var after := order + [ShortName(m)];
        assert DistinctNames(after) by {
          forall i, j | 0 <= i < j < |after| ensures after[i] != after[j] {
            if j == |order| { assert after[i] == order[i]; }
          }
        }
      }
    }
  }

  /** A name is stored exactly when some model of that short name passes the filter. */
  lemma {:induction false} FilteredMapMembers(models: seq<ModelInfo>, n: string)
    ensures n in FilteredMap(models) <==> exists i | 0 <= i < |models| :: Passes(models[i]) && ShortName(models[i]) == n
    decreases |models|
  {
    if models != [] {
      var init := models[..|models| - 1];
      FilteredMapMembers(init, n);
      assert forall i | 0 <= i < |init| :: init[i] == models[i];
      if exists i | 0 <= i < |models| :: Passes(models[i]) && ShortName(models[i]) == n {
        var i :| 0 <= i < |models| && Passes(models[i]) && ShortName(models[i]) == n;
        if i < |init| { assert init[i] == models[i]; }
      }
    }
  }

  /** The position of the last passing model with short name `n`, or -1. */
  function LastMatch(models: seq<ModelInfo>, n: string): (r: int)
    ensures -1 <= r < |models|
    ensures r >= 0 ==> Passes(models[r]) && ShortName(models[r]) == n
    ensures forall j | r < j < |models| :: !(Passes(models[j]) && ShortName(models[j]) == n)
    decreases |models|
  {
    if models == [] then -1
    else
      var m := models[|models| - 1];
      if Passes(m) && ShortName(m) == n then |models| - 1
      else
        var init := models[..|models| - 1];
        assert forall j | 0 <= j < |init| :: init[j] == models[j];
        LastMatch(init, n)
  }

  /** A stored description is that of the last passing model of the name. */
  lemma {:induction false} FilteredMapLast(models: seq<ModelInfo>, n: string)
    requires n in FilteredMap(models)
    ensures LastMatch(models, n) >= 0 && FilteredMap(models)[n] == Describe(models[LastMatch(models, n)])
    decreases |models|
  {
    var init := models[..|models| - 1];
    var m := models[|models| - 1];
    if !(Passes(m) && ShortName(m) == n) {
      FilteredMapLast(init, n);
    }
  }

  /** The listing the bot evidently intends: sorted, without repeats, naming exactly the passing
      models, each name described by the last passing model that carries it. */
  lemma IntendedListingSpec(models: seq<ModelInfo>)
    ensures var menu := IntendedListing(models);
      && Sorting.Sorted(menu.names)
      && DistinctNames(menu.names)
      && (forall n :: n in menu.desc <==> n in menu.names)
      && (forall n :: n in menu.names <==> exists i | 0 <= i < |models| :: Passes(models[i]) && ShortName(models[i]) == n)
      && (forall n | n in menu.desc :: LastMatch(models, n) >= 0 && menu.desc[n] == Describe(models[LastMatch(models, n)]))
  {
    FilteredOrderSpec(models);
    var order := FilteredOrder(models);
    Sorting.SortKeepsDistinct(order);
    forall n ensures n in Sorting.Sort(order) <==> n in order {
      assert n in multiset(Sorting.Sort(order)) <==> n in multiset(order);
    }
    forall n ensures n in order <==> exists i | 0 <= i < |models| :: Passes(models[i]) && ShortName(models[i]) == n {
      FilteredMapMembers(models, n);
    }
    forall n | n in FilteredMap(models)
      ensures LastMatch(models, n) >= 0 && FilteredMap(models)[n] == Describe(models[LastMatch(models, n)])
    {
      FilteredMapLast(models, n);
    }
  }

  /** The filter loop and the sort, as the code evidently intends them. */
  method ListIntended(models: seq<ModelInfo>) returns (menu: ModelMenu)
    ensures menu == IntendedListing(models)
  {
    var filtered: map<string, string> := map[];
    var order: seq<string> := [];
    var i := 0;
    while i < |models|
      invariant 0 <= i <= |models|
      invariant filtered == FilteredMap(models[..i]) && order == FilteredOrder(models[..i])
    {
      var m := models[i];
      var name := ShortName(m);
      assert models[..i + 1][..i] == models[..i];
      if Passes(m) {
        if name !in order {
          order := order + [name];
        }
        filtered := filtered[name := Describe(m)];
      }
      i := i + 1;
    }
    assert models[..i] == models;
    menu := ModelMenu(Sorting.Sort(order), filtered);
  }

  /** What a cache miss returns: the fallback without a key or when listing raises, else the
      intended listing. */
  function ModelsFor(activeKey: Option<string>, listing: Listing): ModelMenu {
    if !Text.Truthy(activeKey) then Fallback
    else match listing
      case ListingFailed => Fallback
      case Listed(models) => IntendedListing(models)
  }

  /** Each listed name has a description. */
  predicate Described(menu: ModelMenu) {
    forall n | n in menu.names :: n in menu.desc
  }

  /** Whatever a cache miss serves describes every name it lists. */
  lemma ModelsForDescribed(activeKey: Option<string>, listing: Listing)
    ensures Described(ModelsFor(activeKey, listing))
  {
    if Text.Truthy(activeKey) && listing.Listed? {
      IntendedListingSpec(listing.models);
    }
  }

  /** The cache key: the chat id, or "global" for the falsy id 0. */
  datatype CacheKey = Global | ForChat(chat: int)

  function KeyOf(chat: int): (k: CacheKey)
    ensures k == Global <==> chat == 0
    ensures k.ForChat? ==> k.chat == chat
  {
    if chat == 0 then Global else ForChat(chat)
  }

  datatype CacheEntry = CacheEntry(models: ModelMenu, timestamp: int)

  /** An entry is served when it is younger than the window. */
  predicate IsFresh(entries: map<CacheKey, CacheEntry>, key: CacheKey, now: int) {
    key in entries && now - entries[key].timestamp < CacheWindow
  }

  /** `model_cache`, with the clock reading passed in as whole seconds. */
  class ModelCache {
    var entries: map<CacheKey, CacheEntry>

    constructor ()
      ensures Valid() && entries == map[]
    {
      entries := map[];
    }

    /** Every cached menu describes each of its names, as a dict's items do. */
    ghost predicate Valid()
      reads this
    {
      forall k | k in entries :: Described(entries[k].models)
    }

    /** `fetch_available_models`. A fresh entry is returned without touching the key store; on a miss
        the active key is looked up (creating the chat's record), the list is computed with
        `ModelsFor`, the corrected listing, and cached with the current time. The listing oracle is
        only meaningful when a key is active. */
    method FetchAvailableModels(store: Users.UserStore, chat: int, now: int, listing: Listing) returns (menu: ModelMenu)
      requires Valid() && store.Valid()
      modifies this, store
      ensures Valid() && store.Valid() && Described(menu)
      ensures var key := KeyOf(chat);
        if IsFresh(old(entries), key, now) then
          && menu == old(entries)[key].models && entries == old(entries)
          && store.users == old(store.users) && store.saves == old(store.saves)
        else
          && menu == ModelsFor(Users.ActiveKey(old(store.RecordOf(chat))), listing)
          && entries == old(entries)[key := CacheEntry(menu, now)]
          && store.users == old(store.users)[chat := old(store.RecordOf(chat))] && store.saves == old(store.saves)
    {
      var key := KeyOf(chat);
      if IsFresh(entries, key, now) {
        return entries[key].models;
      }
      var apiKey := store.GetActiveKey(chat);
      menu := ModelsFor(apiKey, listing);
      ModelsForDescribed(apiKey, listing);
      if Text.Truthy(apiKey) && listing.Listed? {
        menu := ListIntended(listing.models);
      }
      entries := entries[key := CacheEntry(menu, now)];
    }
  }

  /** Without a key, or when listing raises, the fallback is served; whatever is served is, right
      after, cached for the same key and served again for the whole window without a lookup. */
  lemma CachedWithinWindow(entries: map<CacheKey, CacheEntry>, chat: int, menu: ModelMenu, now: int, later: int)
    requires now <= later < now + CacheWindow
    ensures var after := entries[KeyOf(chat) := CacheEntry(menu, now)];
      IsFresh(after, KeyOf(chat), later) && after[KeyOf(chat)].models == menu
    ensures forall a: Option<string>, l: Listing | !Text.Truthy(a) || l.ListingFailed? :: ModelsFor(a, l) == Fallback
  {
  }

  /** Two chats share a cache entry only when both have id 0, or are the same chat. */
  lemma CacheKeysSeparateChats(a: int, b: int)
    ensures KeyOf(a) == KeyOf(b) <==> a == b
    ensures KeyOf(a) == Global <==> a == 0
  {
  }

  // ---------------------------------------------------------------------------------------------
  // Clients and requests
  // ---------------------------------------------------------------------------------------------

  /** `_client_cache`: one client per API key, numbered in order of creation. */
  class ClientCache {
    var clients: map<string, nat>
    var created: nat

    constructor ()
      ensures clients == map[] && created == 0 && Valid()
    {
      clients := map[];
      created := 0;
    }

    /** Exactly one client was created per key, numbered below the count, no two keys sharing one. */
    ghost predicate Valid()
      reads this
    {
      && |clients| == created
      && (forall k | k in clients :: clients[k] < created)
      && (forall k, k' | k in clients && k' in clients && k != k' :: clients[k] != clients[k'])
    }

    /** `_get_client`: a key seen before gets its client back and nothing changes; a new key gets a
        new client. */
    method GetClient(apiKey: string) returns (client: nat)
      requires Valid()
      modifies this
      ensures Valid()
      ensures apiKey in old(clients) ==> client == old(clients)[apiKey] && clients == old(clients) && created == old(created)
      ensures apiKey !in old(clients) ==>
        client == old(created) && clients == old(clients)[apiKey := client] && created == old(created) + 1
    {
      if apiKey !in clients {
        clients := clients[apiKey := created];
        created := created + 1;
      }
      client := clients[apiKey];
    }
  }

  const PromptSeparator := "\n\n--- DIALOGUES TO TRANSLATE ---\n"

  const NoKeyReply := "You need to set your own Gemini API key first!\n\nUse /apikey → Add Key → Paste your key\nGet free key: https://aistudio.google.com/app/apikey"

  /** What `translate_to_hinglish` will do: reply with the instructions, or ask Gemini. */
  datatype Plan = NoKey | Ask(apiKey: string, model: string, prompt: string, systemInstruction: string)

  /** `x or default` on an optional string. */
  function OrDefault(o: Option<string>, default: string): string {
    if Text.Truthy(o) then o.value else default
  }

  function PlanFor(activeKey: Option<string>, text: string, modelName: Option<string>, styleGuide: Option<string>): Plan {
    var model := OrDefault(modelName, DefaultModelName);
    var guide := OrDefault(styleGuide, DefaultStyleGuide);
    if !Text.Truthy(activeKey) then NoKey
    else Ask(activeKey.value, model, guide + PromptSeparator + text, guide)
  }

  /** No key, no call. Otherwise a missing or empty model or guide is replaced by the default, the
      guide is also the system instruction, and the prompt is the guide, the separator line and the
      text, in that order. */
  lemma PlanSpec(activeKey: Option<string>, text: string, modelName: Option<string>, styleGuide: Option<string>)
    ensures var p := PlanFor(activeKey, text, modelName, styleGuide);
      && (p.NoKey? <==> !Text.Truthy(activeKey))
      && (p.Ask? ==>
        && p.apiKey == activeKey.value
        && p.model == (if modelName.None? || modelName.value == "" then DefaultModelName else modelName.value)
        && p.systemInstruction == (if styleGuide.None? || styleGuide.value == "" then DefaultStyleGuide else styleGuide.value)
        && p.model != "" && p.systemInstruction != ""
        && Text.StartsWith(p.prompt, p.systemInstruction + PromptSeparator)
        && p.prompt[|p.systemInstruction| + |PromptSeparator|..] == text)
  {
    var p := PlanFor(activeKey, text, modelName, styleGuide);
    if p.Ask? {
      assert p.prompt == (p.systemInstruction + PromptSeparator) + text;
    }
  }

  /** What `generate_content` did: text came back, an APIError with its message, or another error. */
  datatype Generation = Generated(text: string) | ApiFailed(message: string) | OtherFailed(error: string)

  function ReplyOf(g: Generation): string {
    match g
    case Generated(t) => Text.Strip(t)
    case ApiFailed(m) => "Gemini API error: " + m
    case OtherFailed(e) => "Translation error: " + e
  }

  /** The call made to Gemini. */
  datatype Call = Call(client: nat, model: string, prompt: string, systemInstruction: string)

  /** `translate_to_hinglish`, with what Gemini answers as a parameter. The key lookup creates the
      chat's record; without a key the instructions come back and no client is made. */
  method TranslateToHinglish(clients: ClientCache, store: Users.UserStore, text: string,
                             modelName: Option<string>, styleGuide: Option<string>, chat: int,
                             answer: Generation)
    returns (reply: string, call: Option<Call>)
    requires clients.Valid() && store.Valid()
    modifies clients, store
    ensures clients.Valid() && store.Valid()
    ensures store.users == old(store.users)[chat := old(store.RecordOf(chat))] && store.saves == old(store.saves)
    ensures var p := PlanFor(Users.ActiveKey(old(store.RecordOf(chat))), text, modelName, styleGuide);
      match p
      case NoKey =>
        reply == NoKeyReply && call == None && clients.clients == old(clients.clients) && clients.created == old(clients.created)
      case Ask(k, model, prompt, guide) =>
        && reply == ReplyOf(answer)
        && call.Some? && call.value.model == model && call.value.prompt == prompt && call.value.systemInstruction == guide
        && (k in old(clients.clients) ==> call.value.client == old(clients.clients)[k] && clients.clients == old(clients.clients))
        && (k !in old(clients.clients) ==> call.value.client == old(clients.created) && clients.clients == old(clients.clients)[k := old(clients.created)])
  {
    var apiKey := store.GetActiveKey(chat);
    var p := PlanFor(apiKey, text, modelName, styleGuide);
    if p.NoKey? {
      return NoKeyReply, None;
    }
    var client := clients.GetClient(p.apiKey);
    call := Some(Call(client, p.model, p.prompt, p.systemInstruction));
    reply := ReplyOf(answer);
  }
}
