/** The chat commands of handlers.py: the per-chat settings (`user_settings`), the registry of
    running OCR jobs (`active_jobs`), the commands that read and change them, and the workers that
    hand a job to the OCR pipeline. */
module Handlers {
  import opened Wrappers
  import Text
  import Users
  import Translate
  import Ocr
  import opened Keyboard

  const DefaultModel := "gemini-2.5-flash"

  // ---------------------------------------------------------------------------------------------
  // Settings
  // ---------------------------------------------------------------------------------------------

  /** One chat's dict in `user_settings`; each of its three keys may be absent. */
  datatype Settings = Settings(ocrMode: Option<string>, geminiModel: Option<string>, styleGuide: Option<string>)

  const NoSettings := Settings(None, None, None)

  /** `user_settings.get(chat_id, {})`. */
  function SettingsOf(settings: map<int, Settings>, chat: int): Settings {
    if chat in settings then settings[chat] else NoSettings
  }

  /** The handlers' reads, each with its default. */
  function ModeOf(s: Settings): string {
    s.ocrMode.GetOr("local")
  }

  function ModelOf(s: Settings): string {
    s.geminiModel.GetOr(DefaultModel)
  }

  function GuideOf(s: Settings): string {
    s.styleGuide.GetOr(Translate.DefaultStyleGuide)
  }

  /** `/ocrmode` only ever stores one of the two modes. */
  predicate ModeOk(s: Settings) {
    s.ocrMode == None || s.ocrMode == Some("local") || s.ocrMode == Some("online")
  }

  // ---------------------------------------------------------------------------------------------
  // The job registry
  // ---------------------------------------------------------------------------------------------

  /** `active_jobs[chat_id] = {"cancel": False}`: a new job replaces whatever entry the chat had. */
  function StartJob(jobs: map<int, bool>, chat: int): map<int, bool> {
    jobs[chat := false]
  }

  /** `/cancel`: raises the flag of an existing entry and creates none. */
  function CancelJob(jobs: map<int, bool>, chat: int): map<int, bool> {
    if chat in jobs then jobs[chat := true] else jobs
  }

  /** `active_jobs.pop(chat_id, None)` in a worker's `finally`. */
  function FinishJob(jobs: map<int, bool>, chat: int): map<int, bool> {
    jobs - {chat}
  }

  /** A cancel is seen exactly when a job was registered; a newer job clears it; the first worker to
      finish removes the chat's entry even when a newer job registered it; other chats are never
      touched. */
  lemma RegistrySpec(jobs: map<int, bool>, chat: int, other: int)
    ensures Ocr.CancelSeen(CancelJob(jobs, chat), chat) <==> chat in jobs
    ensures !Ocr.CancelSeen(StartJob(CancelJob(jobs, chat), chat), chat)
    ensures chat !in FinishJob(jobs, chat)
    ensures chat in jobs ==> CancelJob(CancelJob(jobs, chat), chat) == CancelJob(jobs, chat)
    ensures other != chat ==>
      && (other in StartJob(jobs, chat) <==> other in jobs)
      && (other in CancelJob(jobs, chat) <==> other in jobs)
      && (other in FinishJob(jobs, chat) <==> other in jobs)
      && (other in jobs ==>
            (StartJob(jobs, chat)[other] == jobs[other]
             && CancelJob(jobs, chat)[other] == jobs[other]
             && FinishJob(jobs, chat)[other] == jobs[other]))
  {
  }

  // ---------------------------------------------------------------------------------------------
  // The OCR mode the workers use
  // ---------------------------------------------------------------------------------------------

  /** The mode lookup as the workers perform it: `user_settings` is passed to the OCR functions as
      a map from chat to mode, so `get(chat, "local")` yields the chat's whole settings dict when it
      has one, and `.upper()` on that dict raises before any OCR (`None` here). */
  function ModeAsWritten(settings: map<int, Settings>, chat: int): Option<string> {
    if chat in settings then None else Some("local")
  }

  /** The mode the workers evidently mean to read: the chat's `ocr_mode`, "local" by default. */
  function OcrModeFor(settings: map<int, Settings>, chat: int): (mode: string)
    ensures chat !in settings ==> mode == "local"
    ensures chat in settings && settings[chat].ocrMode.Some? ==> mode == settings[chat].ocrMode.value
    ensures chat in settings && settings[chat].ocrMode.None? ==> mode == "local"
    ensures (forall c | c in settings :: ModeOk(settings[c])) ==> mode == "local" || mode == "online"
  {
    ModeOf(SettingsOf(settings, chat))
  }

  /** As written the online mode is never used: a chat that never touched a setting gets "local",
      and one that chose "online" makes the job fail where the corrected lookup gives "online". */
  lemma AsWrittenNeverOnline(settings: map<int, Settings>, chat: int)
    ensures ModeAsWritten(settings, chat) != Some("online")
    ensures ModeAsWritten(settings, chat).Some? ==> ModeAsWritten(settings, chat).value == OcrModeFor(settings, chat)
    ensures var after := settings[chat := SettingsOf(settings, chat).(ocrMode := Some("online"))];
      ModeAsWritten(after, chat).None? && OcrModeFor(after, chat) == "online"
  {
  }

  /** What each page costs under a mode: `ocr_image(p, mode)`, with Tesseract's and the service's
      answers for the page as parameters. */
  function OcrWith(mode: string, tesseract: string -> Option<string>, online: string -> Ocr.OnlineCall): string -> string {
    p => Ocr.OcrImage(mode, tesseract(p), online(p))
  }

  // ---------------------------------------------------------------------------------------------
  // /ocrmode and /style
  // ---------------------------------------------------------------------------------------------

  /** The mode `/ocrmode <arg>` selects: the argument lower-cased, when it names one of the two. */
  function RequestedMode(arg: string): (r: Option<string>)
    ensures r.Some? <==> Text.Lower(arg) == "local" || Text.Lower(arg) == "online"
    ensures r.Some? ==> r.value == Text.Lower(arg) && ModeOk(NoSettings.(ocrMode := r))
  {
    var mode := Text.Lower(arg);
    if mode == "local" || mode == "online" then Some(mode) else None
  }

  lemma LowerIdempotent(s: string)
    ensures Text.Lower(Text.Lower(s)) == Text.Lower(s)
  {
  }

  /** The argument is read without regard to case, and a stored mode selects itself again. */
  lemma RequestedModeCaseless(arg: string)
    ensures RequestedMode(Text.Lower(arg)) == RequestedMode(arg)
    ensures RequestedMode(arg).Some? ==> RequestedMode(RequestedMode(arg).value) == RequestedMode(arg)
  {
    LowerIdempotent(arg);
  }

  datatype ModeReply = ShowMode(current: string) | RejectMode | ModeSet(mode: string)

  /** `style_command`'s preview: the first 250 characters and an ellipsis line when longer. */
  function Preview(guide: string): (r: string)
    ensures |guide| <= 250 ==> r == guide
    ensures |guide| > 250 ==> |r| == 254 && r[..250] == guide[..250] && r[250..] == "\n..."
  {
    if |guide| > 250 then guide[..250] + "\n..." else guide
  }

  /** The preview `/style` shows a chat. */
  function StylePreview(settings: map<int, Settings>, chat: int): string {
    Preview(GuideOf(SettingsOf(settings, chat)))
  }

  /** `/style default`, in any case and with surrounding blanks, resets the guide. */
  predicate IsStyleReset(text: string) {
    Text.Lower(Text.Strip(text)) == "/style default"
  }

  /** `receive_style_guide`'s change to the chat's settings. */
  function StyleUpdate(s: Settings, text: string): Settings {
    if IsStyleReset(text) then s.(styleGuide := None) else s.(styleGuide := Some(Text.Strip(text)))
  }

  /** After a reset the default guide is read again, otherwise the stripped message; the other two
      settings are kept, and sending the same message twice changes nothing more. */
  lemma StyleUpdateSpec(s: Settings, text: string)
    ensures GuideOf(StyleUpdate(s, text)) == if IsStyleReset(text) then Translate.DefaultStyleGuide else Text.Strip(text)
    ensures StyleUpdate(s, text).ocrMode == s.ocrMode && StyleUpdate(s, text).geminiModel == s.geminiModel
    ensures StyleUpdate(StyleUpdate(s, text), text) == StyleUpdate(s, text)
    ensures !IsStyleReset(text) ==>
      StylePreview(map[0 := StyleUpdate(s, text)], 0) == Preview(Text.Strip(text))
  {
    var u := StyleUpdate(s, text);
    if !IsStyleReset(text) {
      assert u.styleGuide == Some(Text.Strip(text));
      assert SettingsOf(map[0 := u], 0) == u;
    }
  }

  /** The arguments of a `translate_to_hinglish` call a handler makes. */
  datatype TranslateCall = TranslateCall(text: string, modelName: Option<string>, styleGuide: Option<string>, chat: int)

  const StyleExample := "I'm so done with this."

  datatype StyleReply = StyleReset | StyleSaved(preview: TranslateCall)

  /** The preview translation passes only the chat: it runs with the translator's default model and
      the default guide, not the one just saved. */
  lemma StylePreviewUsesDefaults(activeKey: Option<string>, chat: int)
    ensures var call := TranslateCall(StyleExample, None, None, chat);
      var p := Translate.PlanFor(activeKey, call.text, call.modelName, call.styleGuide);
      p.Ask? ==> p.model == Translate.DefaultModelName && p.systemInstruction == Translate.DefaultStyleGuide
  {
    Translate.PlanSpec(activeKey, StyleExample, None, None);
  }

  // ---------------------------------------------------------------------------------------------
  // Files, images and /translate
  // ---------------------------------------------------------------------------------------------

  predicate IsArchiveName(name: string) {
    Text.EndsWith(name, ".zip") || Text.EndsWith(name, ".7z") || Text.EndsWith(name, ".cbz")
  }

  /** Every name `handle_file` queues as an archive is one the archive job can open. */
  lemma QueuedArchivesAreSupported(tempDir: string, name: string)
    requires IsArchiveName(name)
    ensures Ocr.KindOf(Text.PathJoin(tempDir, name)) != Ocr.NotArchive
  {
    if Text.EndsWith(name, ".zip") {
      Text.EndsWithJoin(tempDir, name, ".zip");
    } else if Text.EndsWith(name, ".7z") {
      Text.EndsWithJoin(tempDir, name, ".7z");
    } else {
      Text.EndsWithJoin(tempDir, name, ".cbz");
    }
  }

  const MaxTxtChars := 15000

  datatype TxtVerdict = TooLarge | Unreadable | Readable

  /** The checks on a `.txt` file's content, in order: length, then visible text. */
  function TxtGate(content: string): (v: TxtVerdict)
    ensures v == TooLarge <==> |content| > MaxTxtChars
    ensures v == Unreadable <==> |content| <= MaxTxtChars && Text.AllSpace(content)
    ensures v == Readable <==> |content| <= MaxTxtChars && !Text.AllSpace(content)
  {
    if |content| > MaxTxtChars then TooLarge
    else if Text.Strip(content) == "" then Unreadable
    else Readable
  }

  /** `os.path.splitext(file_name)[0] + "_hinglish.txt"`. */
  function TxtResultName(fileName: string): string {
    Text.StemOf(fileName) + "_hinglish.txt"
  }

  /** An uploaded `<stem>.txt` comes back as `<stem>_hinglish.txt`. */
  lemma TxtResultNameOfUpload(stem: string)
    requires '/' !in stem && '.' !in stem && stem != []
    ensures TxtResultName(stem + ".txt") == stem + "_hinglish.txt"
  {
    assert stem[0] != '.';
    Text.StemOfWithExtension(stem, ".txt");
  }

  datatype FileReply =
    | NoDocument
    | ArchiveQueued(path: string)
    | TxtTooLarge
    | TxtEmpty
    | TxtTranslate(call: TranslateCall, resultName: string, customStyle: bool)
    | UnsupportedFile

  /** The `.txt` branch of `handle_file` and `translate_txt_content`: the file's content is
      translated with the chat's model and guide, and the caption says whether the guide is custom. */
  function TxtReply(s: Settings, chat: int, content: string, name: string): FileReply {
    match TxtGate(content)
    case TooLarge => TxtTooLarge
    case Unreadable => TxtEmpty
    case Readable =>
      TxtTranslate(TranslateCall(content, Some(ModelOf(s)), Some(GuideOf(s)), chat),
                   TxtResultName(name), GuideOf(s) != Translate.DefaultStyleGuide)
  }

  /** Only content of at most 15000 characters with visible text is translated, whole, with the
      chat's own model and guide; the caption calls the guide custom exactly when it differs from the
      default. */
  lemma TxtReplySpec(s: Settings, chat: int, content: string, name: string)
    ensures var r := TxtReply(s, chat, content, name);
      && (r.TxtTooLarge? <==> |content| > 15000)
      && (r.TxtEmpty? <==> |content| <= 15000 && Text.AllSpace(content))
      && (r.TxtTranslate? <==> |content| <= 15000 && !Text.AllSpace(content))
      && (r.TxtTranslate? ==>
        && r.call == TranslateCall(content, Some(ModelOf(s)), Some(GuideOf(s)), chat)
        && r.resultName == TxtResultName(name)
        && (r.customStyle <==> s.styleGuide.Some? && s.styleGuide.value != Translate.DefaultStyleGuide))
  {
  }

  datatype ImageStart = NoPhoto | ImageQueued(path: string)

  /** The replied-to message of a `/translate`: its text and caption, either possibly absent. */
  datatype Quoted = Quoted(text: Option<string>, caption: Option<string>)

  /** The text `/translate` works on: the joined arguments, or else the quoted message's text, or
      else its caption. */
  function CommandText(args: seq<string>, replyTo: Option<Quoted>): Option<string> {
    var text := if args != [] then Some(Text.JoinWith(args, " ")) else None;
    if !Text.Truthy(text) && replyTo.Some? then
      (if Text.Truthy(replyTo.value.text) then replyTo.value.text else replyTo.value.caption)
    else text
  }

  /** `translate_command`: the usage text (`None`) when there is nothing to translate, else the
      call with the chat's model and guide. */
  function TranslateRequest(settings: map<int, Settings>, chat: int, args: seq<string>, replyTo: Option<Quoted>): Option<TranslateCall> {
    var text := CommandText(args, replyTo);
    if !Text.Truthy(text) then None
    else Some(TranslateCall(text.value, Some(ModelOf(SettingsOf(settings, chat))), Some(GuideOf(SettingsOf(settings, chat))), chat))
  }

  /** Arguments that join to a non-empty text win; otherwise the quoted text, then the quoted
      caption, is used when non-empty; there is a call exactly when one of the three is non-empty,
      and it never carries an empty text. */
  lemma TranslateRequestSpec(settings: map<int, Settings>, chat: int, args: seq<string>, replyTo: Option<Quoted>)
    ensures var r := TranslateRequest(settings, chat, args, replyTo);
      var joined := Text.JoinWith(args, " ");
      && (r.Some? ==> r.value.text != "" && r.value.chat == chat
                      && r.value.modelName == Some(ModelOf(SettingsOf(settings, chat)))
                      && r.value.styleGuide == Some(GuideOf(SettingsOf(settings, chat))))
      && (joined != "" ==> r.Some? && r.value.text == joined)
      && (joined == "" && replyTo.None? ==> r.None?)
      && (joined == "" && replyTo.Some? ==>
        if Text.Truthy(replyTo.value.text) then r.Some? && r.value.text == replyTo.value.text.value
        else if Text.Truthy(replyTo.value.caption) then r.Some? && r.value.text == replyTo.value.caption.value
        else r.None?)
  {
  }

  // ---------------------------------------------------------------------------------------------
  // /model and its buttons
  // ---------------------------------------------------------------------------------------------

  /** `model.split("-")[-1].upper().replace("GEMINI", "")`. */
  function ModelShort(model: string): (r: string)
    ensures |r| <= |model|
  {
    Text.ReplaceAll(Text.Upper(Text.AfterLast(model, '-')), "GEMINI", "")
  }

  /** The part of a description before its first `|`, stripped, cut to 22 characters and an
      ellipsis when longer than 25. */
  function Hint(desc: string): (r: string)
    ensures |r| <= 25
  {
    var h := Text.Strip(Text.BeforeFirst(desc, '|'));
    if |h| > 25 then h[..22] + "..." else h
  }

  /** "Current" or "Select", then the short name. */
  function PlainLabel(model: string, current: string): string {
    (if model == current then "Current" else "Select") + ": " + ModelShort(model)
  }

  /** The hint is added for a model not in use, and dropped again should the text exceed 64
      characters. */
  function WithHint(plain: string, hint: string, isCurrent: bool): string {
    var full := if hint != "" && !isCurrent then plain + " | " + hint else plain;
    if |full| > 64 then plain else full
  }

  /** A model button's text. */
  function ModelLabel(model: string, desc: string, current: string): string {
    WithHint(PlainLabel(model, current), Hint(desc), model == current)
  }

  lemma WithHintSpec(plain: string, hint: string, isCurrent: bool)
    ensures var shown := WithHint(plain, hint, isCurrent);
      && Text.StartsWith(shown, plain)
      && (shown == plain || (!isCurrent && hint != "" && shown == plain + " | " + hint && |shown| <= 64))
      && (!isCurrent && hint != "" && |plain| + 3 + |hint| <= 64 ==> shown == plain + " | " + hint)
  {
    var shown := WithHint(plain, hint, isCurrent);
    assert shown[..|plain|] == plain;
  }

  lemma PlainLabelMarksCurrent(model: string, current: string, rest: string)
    ensures Text.StartsWith(PlainLabel(model, current) + rest, "Current: ") <==> model == current
  {
    var shown := PlainLabel(model, current) + rest;
    if model != current {
      assert shown[0] == 'S';
    } else {
      assert shown[..9] == "Current: ";
    }
  }

  /** The label opens with "Current: " exactly for the model in use; it is the plain label, or the
      plain label with the hint when the model is not current, the hint is non-empty and the whole
      fits in 64 characters. */
  lemma ModelLabelSpec(model: string, desc: string, current: string)
    ensures var shown := ModelLabel(model, desc, current);
      var plain := PlainLabel(model, current);
      && (Text.StartsWith(shown, "Current: ") <==> model == current)
      && Text.StartsWith(shown, plain)
      && (shown == plain || (model != current && Hint(desc) != "" && shown == plain + " | " + Hint(desc) && |shown| <= 64))
      && (model != current && Hint(desc) != "" && |plain| + 3 + |Hint(desc)| <= 64 ==> shown == plain + " | " + Hint(desc))
  {
    var plain := PlainLabel(model, current);
    var shown := ModelLabel(model, desc, current);
    WithHintSpec(plain, Hint(desc), model == current);
    PlainLabelMarksCurrent(model, current, shown[|plain|..]);
    assert shown == plain + shown[|plain|..];
  }

  /** The model a callback names: everything after `model|`. */
  function SelectedModel(data: string): Option<string> {
    if Text.StartsWith(data, "model|") then Text.AfterFirst(data, '|') else None
  }

  /** A button's data gives back its model whole, even one whose name holds a `|`, and only data
      starting with `model|` selects a model. */
  lemma SelectedModelSpec(data: string, model: string)
    ensures SelectedModel("model|" + model) == Some(model)
    ensures SelectedModel(data).Some? <==> Text.StartsWith(data, "model|")
    ensures SelectedModel(data).Some? ==> SelectedModel(data).value == data[6..]
  {
    Text.AfterFirstOfTagged("model", '|', model);
    assert "model" + ['|'] + model == "model|" + model;
    if Text.StartsWith(data, "model|") {
      assert "model" + ['|'] == "model|";
      Text.AfterFirstOfPrefixed(data, "model", '|');
    }
  }

  /** The keyboard `/model` and a selection show: one button per listed model, in order. */
  function Buttons(menu: Translate.ModelMenu, current: string): (keyboard: seq<Button>)
    requires Translate.Described(menu)
    ensures |keyboard| == |menu.names|
  {
    seq(|menu.names|, i requires 0 <= i < |menu.names| =>
      Button(ModelLabel(menu.names[i], menu.desc[menu.names[i]], current), "model|" + menu.names[i]))
  }

  /** Each button selects its own model, and the "Current" shown marks exactly the buttons of the
      model in use. */
  lemma ButtonsSpec(menu: Translate.ModelMenu, current: string)
    requires Translate.Described(menu)
    ensures var keyboard := Buttons(menu, current);
      forall i | 0 <= i < |keyboard| ::
        && SelectedModel(keyboard[i].callbackData) == Some(menu.names[i])
        && (Text.StartsWith(keyboard[i].text, "Current: ") <==> menu.names[i] == current)
  {
    var keyboard := Buttons(menu, current);
    forall i | 0 <= i < |keyboard|
      ensures SelectedModel(keyboard[i].callbackData) == Some(menu.names[i])
      ensures Text.StartsWith(keyboard[i].text, "Current: ") <==> menu.names[i] == current
    {
      SelectedModelSpec(keyboard[i].callbackData, menu.names[i]);
      ModelLabelSpec(menu.names[i], menu.desc[menu.names[i]], current);
    }
  }

  lemma PrefixStep<T>(s: seq<T>, i: nat)
    requires i < |s|
    ensures s[..i + 1] == s[..i] + [s[i]]
  {
  }

  /** The button loop of `model_command` and `button_callback`. */
  method ModelButtons(menu: Translate.ModelMenu, current: string) returns (keyboard: seq<Button>)
    requires Translate.Described(menu)
    ensures keyboard == Buttons(menu, current)
  {
    keyboard := [];
    var i := 0;
    while i < |menu.names|
      invariant 0 <= i <= |menu.names|
      invariant keyboard == Buttons(menu, current)[..i]
    {
      var model := menu.names[i];
      var btn := Button(ModelLabel(model, menu.desc[model], current), "model|" + model);
      ghost var all := Buttons(menu, current);
      assert all[i] == btn;
      PrefixStep(all, i);
      keyboard := keyboard + [btn];
      i := i + 1;
    }
    assert Buttons(menu, current)[..i] == Buttons(menu, current);
  }

  /** The list `fetch_available_models` serves: the cached one while fresh, else a new one. */
  function Served(entries: map<Translate.CacheKey, Translate.CacheEntry>, record: Users.Record, chat: int,
                  now: int, listing: Translate.Listing): Translate.ModelMenu {
    var key := Translate.KeyOf(chat);
    if Translate.IsFresh(entries, key, now) then entries[key].models
    else Translate.ModelsFor(Users.ActiveKey(record), listing)
  }

  datatype ModelReply = NoModels(current: string) | ModelMenuShown(current: string, keyboard: seq<Button>)

  datatype SelectReply = NotModelButton | ModelSelected(model: string, description: string, keyboard: seq<Button>)

  // ---------------------------------------------------------------------------------------------
  // The handlers' state
  // ---------------------------------------------------------------------------------------------

  /** The module-level `active_jobs` (chat to its cancel flag) and `user_settings`. */
  class BotState {
    var activeJobs: map<int, bool>
    var userSettings: map<int, Settings>

    constructor ()
      ensures Valid() && activeJobs == map[] && userSettings == map[]
    {
      activeJobs := map[];
      userSettings := map[];
    }

    ghost predicate Valid()
      reads this
    {
      forall c | c in userSettings :: ModeOk(userSettings[c])
    }

    /** `set_ocr_mode`: without arguments the current mode is shown; an argument other than the two
        modes is refused; otherwise the lower-cased mode is stored. */
    method SetOcrMode(chat: int, args: seq<string>) returns (reply: ModeReply)
      requires Valid()
      modifies this
      ensures Valid() && activeJobs == old(activeJobs)
      ensures args == [] ==> reply == ShowMode(ModeOf(SettingsOf(old(userSettings), chat))) && userSettings == old(userSettings)
      ensures args != [] && RequestedMode(args[0]).None? ==> reply == RejectMode && userSettings == old(userSettings)
      ensures args != [] && RequestedMode(args[0]).Some? ==>
        && reply == ModeSet(RequestedMode(args[0]).value)
        && userSettings == old(userSettings)[chat := SettingsOf(old(userSettings), chat).(ocrMode := RequestedMode(args[0]))]
        && OcrModeFor(userSettings, chat) == Text.Lower(args[0])
        && ModeAsWritten(userSettings, chat).None?
    {
      if args == [] {
        return ShowMode(ModeOf(SettingsOf(userSettings, chat)));
      }
      var mode := RequestedMode(args[0]);
      if mode.None? {
        return RejectMode;
      }
      userSettings := userSettings[chat := SettingsOf(userSettings, chat).(ocrMode := mode)];
      reply := ModeSet(mode.value);
    }

    /** `receive_style_guide`: reset or store the guide, then preview a translation of the example
        sentence. */
    method ReceiveStyleGuide(chat: int, text: string) returns (reply: StyleReply)
      requires Valid()
      modifies this
      ensures Valid() && activeJobs == old(activeJobs)
      ensures userSettings == old(userSettings)[chat := StyleUpdate(SettingsOf(old(userSettings), chat), text)]
      ensures reply == if IsStyleReset(text) then StyleReset else StyleSaved(TranslateCall(StyleExample, None, None, chat))
    {
      var newGuide := Text.Strip(text);
      var s := SettingsOf(userSettings, chat);
      ghost var updated := StyleUpdate(s, text);
      if IsStyleReset(text) {
        userSettings := userSettings[chat := s.(styleGuide := None)];
        reply := StyleReset;
      } else {
        userSettings := userSettings[chat := s.(styleGuide := Some(newGuide))];
        reply := StyleSaved(TranslateCall(StyleExample, None, None, chat));
      }
      assert userSettings == old(userSettings)[chat := updated];
    }

    /** `handle_file`, with the upload's name (`None` without a document), the fresh temporary
        directory and, for a `.txt`, the decoded content as parameters. An archive registers a job
        and is queued for the worker; the registry changes in no other case. */
    method HandleFile(chat: int, doc: Option<string>, tempDir: string, content: string) returns (reply: FileReply)
      requires Valid()
      modifies this
      ensures Valid() && userSettings == old(userSettings)
      ensures doc.None? ==> reply == NoDocument
      ensures doc.Some? ==> var name := Text.Lower(doc.value);
        if IsArchiveName(name) then reply == ArchiveQueued(Text.PathJoin(tempDir, name))
        else if Text.EndsWith(name, ".txt") then reply == TxtReply(SettingsOf(old(userSettings), chat), chat, content, name)
        else reply == UnsupportedFile
      ensures activeJobs == if reply.ArchiveQueued? then StartJob(old(activeJobs), chat) else old(activeJobs)
    {
      if doc.None? {
        return NoDocument;
      }
      var name := Text.Lower(doc.value);
      var filePath := Text.PathJoin(tempDir, name);
      if IsArchiveName(name) {
        activeJobs := StartJob(activeJobs, chat);
        return ArchiveQueued(filePath);
      }
      if Text.EndsWith(name, ".txt") {
        return TxtReply(SettingsOf(userSettings, chat), chat, content, name);
      }
      reply := UnsupportedFile;
    }

    /** `cancel`: reports whether a job was registered, and flags it. */
    method Cancel(chat: int) returns (found: bool)
      modifies this
      ensures found <==> chat in old(activeJobs)
      ensures activeJobs == CancelJob(old(activeJobs), chat) && userSettings == old(userSettings)
    {
      found := chat in activeJobs;
      if found {
        activeJobs := activeJobs[chat := true];
      }
    }

    /** `worker`: the archive job with the chat's OCR mode as the corrected lookup reads it, then the chat's entry is dropped.
        `observe(i)` is the registry as the job reads it before page `i`. */
    method Worker(chat: int, archivePath: string, extraction: Ocr.Extraction, observe: nat -> map<int, bool>,
                  tesseract: string -> Option<string>, online: string -> Ocr.OnlineCall) returns (t: Ocr.Trace)
      modifies this
      ensures t == Ocr.ArchiveRun(archivePath, extraction, chat, observe,
                                  OcrWith(OcrModeFor(old(userSettings), chat), tesseract, online))
      ensures activeJobs == FinishJob(old(activeJobs), chat) && userSettings == old(userSettings)
    {
      var mode := OcrModeFor(userSettings, chat);
      t := Ocr.ProcessArchive(archivePath, extraction, chat, observe, OcrWith(mode, tesseract, online));
      activeJobs := FinishJob(activeJobs, chat);
    }

    /** `handle_image`: the largest photo is saved as `image.jpg` in a fresh directory and a job is
        registered for it. */
    method HandleImage(chat: int, hasPhoto: bool, tempDir: string) returns (reply: ImageStart)
      modifies this
      ensures !hasPhoto ==> reply == NoPhoto && activeJobs == old(activeJobs)
      ensures hasPhoto ==> reply == ImageQueued(Text.PathJoin(tempDir, "image.jpg")) && activeJobs == StartJob(old(activeJobs), chat)
      ensures userSettings == old(userSettings)
    {
      if !hasPhoto {
        return NoPhoto;
      }
      activeJobs := StartJob(activeJobs, chat);
      reply := ImageQueued(Text.PathJoin(tempDir, "image.jpg"));
    }

    /** `image_worker`: one image read with the chat's OCR mode as the corrected lookup reads it, then the chat's entry is dropped. */
    method ImageWorker(chat: int, imagePath: string, tesseract: Option<string>, online: Ocr.OnlineCall)
      returns (reply: Ocr.ImageReply)
      modifies this
      ensures reply == Ocr.SingleImage(imagePath, Ocr.OcrImage(OcrModeFor(old(userSettings), chat), tesseract, online))
      ensures activeJobs == FinishJob(old(activeJobs), chat) && userSettings == old(userSettings)
    {
      var text := Ocr.OcrImage(OcrModeFor(userSettings, chat), tesseract, online);
      reply := Ocr.SingleImage(imagePath, text);
      activeJobs := FinishJob(activeJobs, chat);
    }

    /** `model_command`: the served list as buttons, the chat's model marked current; an empty list
        gives the error text instead. */
    method ModelCommand(cache: Translate.ModelCache, store: Users.UserStore, chat: int, now: int, listing: Translate.Listing)
      returns (reply: ModelReply)
      requires cache.Valid() && store.Valid()
      modifies cache, store
      ensures cache.Valid() && store.Valid()
      ensures var current := ModelOf(SettingsOf(userSettings, chat));
        var menu := Served(old(cache.entries), old(store.RecordOf(chat)), chat, now, listing);
        Translate.Described(menu) &&
        reply == if menu.names == [] then NoModels(current) else ModelMenuShown(current, Buttons(menu, current))
    {
      var current := ModelOf(SettingsOf(userSettings, chat));
      var menu := cache.FetchAvailableModels(store, chat, now, listing);
      if menu.names == [] {
        return NoModels(current);
      }
      var keyboard := ModelButtons(menu, current);
      reply := ModelMenuShown(current, keyboard);
    }

    /** `button_callback`: data starting with `model|` stores the named model for the chat, then
        the list is served again with that model marked current, and its description, "Text model"
        when not listed, is shown. */
    method ButtonCallback(cache: Translate.ModelCache, store: Users.UserStore, chat: int, data: string,
                          now: int, listing: Translate.Listing) returns (reply: SelectReply)
      requires Valid() && cache.Valid() && store.Valid()
      modifies this, cache, store
      ensures Valid() && cache.Valid() && store.Valid() && activeJobs == old(activeJobs)
      ensures SelectedModel(data).None? ==>
        && reply == NotModelButton && userSettings == old(userSettings)
        && cache.entries == old(cache.entries) && store.users == old(store.users) && store.saves == old(store.saves)
      ensures SelectedModel(data).Some? ==> var model := SelectedModel(data).value;
        var menu := Served(old(cache.entries), old(store.RecordOf(chat)), chat, now, listing);
        && userSettings == old(userSettings)[chat := SettingsOf(old(userSettings), chat).(geminiModel := Some(model))]
        && ModelOf(SettingsOf(userSettings, chat)) == model
        && Translate.Described(menu)
        && reply == ModelSelected(model, if model in menu.desc then menu.desc[model] else "Text model", Buttons(menu, model))
    {
      var selected := SelectedModel(data);
      if selected.None? {
        return NotModelButton;
      }
      var model := selected.value;
      userSettings := userSettings[chat := SettingsOf(userSettings, chat).(geminiModel := Some(model))];
      var menu := cache.FetchAvailableModels(store, chat, now, listing);
      var fullDesc := if model in menu.desc then menu.desc[model] else "Text model";
      var keyboard := ModelButtons(menu, model);
      reply := ModelSelected(model, fullDesc, keyboard);
    }
  }
}
