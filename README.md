# A model of the tgocr Telegram bot's core

The bot takes image archives (`.zip`, `.cbz`, `.7z`), single photos and `.txt` files, and does two things with them:

- It extracts text with Tesseract or with the OCRWebService REST service.
- It translates English text into casual Hinglish with Google Gemini.

It uses an API key that each chat registers through an inline-keyboard menu.

This project models that core in Dafny and proves properties of the model:

- **`Users`** models the multi-key store (`src/users.py`). Each chat has a record of named keys, their insertion order and the active name. All of them are kept in a store object that is updated in place.
- **`UserHandlers`** models the `/api` menu, its buttons and the two text conversations, add key and rename (`src/user_handlers.py`).
- **`Ocr`** models the OCR pipeline (`src/ocr.py`):
  - the online service's replies;
  - local Tesseract;
  - the archive job, which extracts, walks, sorts, polls for cancel before each page and writes the transcript;
  - the single-image job.
- **`Translate`** models the Gemini side (`src/translate.py`):
  - the model listing, its cache and its fallback;
  - the per-key client cache;
  - the prompt and system instruction sent for a translation.
- **`Handlers`** models the chat commands (`src/handlers.py`):
  - the per-chat settings and the registry of running jobs;
  - `/ocrmode`, `/style`, `/translate` and `/model`;
  - the file and photo handlers, `/cancel`, and the two workers.
- **`Text`**, **`Sorting`**, **`Wrappers`** and **`Keyboard`** hold the Python built-ins the core relies on:
  - `strip`, `lower`, `split`, `os.path.join`, `basename`, `splitext`;
  - `f"{n:,}"`;
  - string order and `sorted`;
  - `Option`;
  - the inline button.

Chat replies are datatypes that say which message a handler sends, not its Markdown text. Everything the bot gets from outside becomes a parameter:

- Tesseract's output;
- the OCR service's HTTP answer;
- Gemini's model list and answer;
- the uploaded file's name and content;
- the uuid;
- the clock.

The registry the archive job polls is a function `observe(i)`: the registry as the job reads it before page `i`. The job re-reads `active_jobs[chat_id]` before every page (`src/ocr.py:146`). A superseded job therefore sees the entry of the job that replaced it, and the first worker to finish removes that entry (`Handlers.RegistrySpec`).

## Model

| member | source | states |
|---|---|---|
| Text.Strip | src/users.py:55 | the result is empty exactly when the input is all white space, and otherwise starts and ends with a non-space |
| Text.StripSlice | src/users.py:55 | the result of stripping is a slice of the input with only white space cut off either end |
| Text.StripIdempotent | src/user_handlers.py:110 | stripping an already stripped key again (as `add_user_key` does) changes nothing |
| Text.BasenameOfJoin | src/ocr.py:151 | the base name of a directory joined with a plain file name is that file name |
| Text.StemOfWithExtension | src/ocr.py:160 | `splitext` of a stem with a one-dot extension gives back the stem |
| Sorting.Sort | src/ocr.py:145 | `sorted`: a permutation of the input in ascending Python string order |
| Sorting.SortedUnique | src/ocr.py:145 | two sorted permutations of the same strings are equal, so the sorted order is determined by the collection alone |
| Sorting.SortKeepsDistinct | src/translate.py:59 | sorting names without repeats leaves none |
| Users.FreshIsCoherent | src/users.py:31-32 | the record `_ensure_user` creates has no keys and no active name, and satisfies the record invariant |
| Users.ActiveKeyOfCoherent | src/users.py:39-42 | on a coherent record the active key is the secret stored under the active name, never empty, and absent exactly when no name is active |
| Users.SetActiveSpec | src/users.py:45-51 | an unknown name is refused and changes nothing; a known one becomes active with the keys and their order unchanged; the invariant is kept |
| Users.AddKeySpec | src/users.py:54-62 | a blank secret is refused with no change; otherwise the stripped secret is stored under the name, a new name is appended to the order, the first key becomes active and an active name stays; the invariant is kept |
| Users.AddKeyCoherent | src/users.py:54-62 | a secret with a visible character is accepted and keeps the record coherent |
| Users.Remove | src/users.py:69 | dropping a name from the insertion order keeps every other name and leaves none of it; a list without repeats stays so and loses exactly one entry when it held the name |
| Users.DeleteKeySpec | src/users.py:65-73 | an unknown name changes nothing; a known one is removed from keys and order, and when it was active the first remaining key (or none) becomes active; the invariant is kept |
| Users.ListKeysSpec | src/users.py:76-79 | one row per stored name in insertion order, at most one flagged, exactly the active one flagged on a coherent record |
| Users.UserStore.constructor | src/users.py:10 | the store starts empty |
| Users.UserStore.EnsureUser | src/users.py:31-32 | the chat's record is returned, a fresh one inserted when missing, nothing saved |
| Users.UserStore.GetUserKeys | src/users.py:35-36 | the chat's keys, with the record created if missing |
| Users.UserStore.GetActiveKey | src/users.py:39-42 | the chat's active key, with the record created if missing |
| Users.UserStore.Commit | src/users.py:24-28 | the chat's record replaced and one save counted, the invariant kept |
| Users.UserStore.SetActiveKey | src/users.py:45-51 | the chat's record becomes that of `SetActive`; it saves exactly when the name was known |
| Users.UserStore.AddUserKey | src/users.py:54-62 | fails exactly on a blank secret, with no state change; otherwise stores the record of `AddKey` and saves once |
| Users.UserStore.DeleteUserKey | src/users.py:65-73 | reports whether the name existed and stores the record of `DeleteKey`, saving exactly then |
| Users.UserStore.ListUserKeys | src/users.py:76-79 | the rows of `ListKeys` for the chat's record |
| UserHandlers.PayloadOfTagged | src/user_handlers.py:73-74 | the name after `tag|` is recovered whole, bars included |
| UserHandlers.DecodeEncode | src/user_handlers.py:50-105 | every button the menus build decodes to the press it was built for |
| UserHandlers.EncodeDecode | src/user_handlers.py:50-105 | any recognised callback data is exactly the encoding of what it decodes to |
| UserHandlers.RenameSpec | src/user_handlers.py:136-158 | a taken new name (the old name itself included), then a missing old name, is refused with no change; a rename moves the secret to the new name, keeps the key count, moves the name to the end of the order, carries the active mark only if the old name had it, and keeps the record coherent |
| UserHandlers.RenamedKeys | src/user_handlers.py:149 | after a rename the key set is the old one with the one name swapped |
| UserHandlers.RenamedCoherent | src/user_handlers.py:148-152 | a rename that goes through keeps the record coherent |
| UserHandlers.UserData.constructor | src/user_handlers.py:111 | a conversation starts with no pending key id and no key being renamed |
| UserHandlers.ReceiveRename | src/user_handlers.py:126-158 | the reply and new state of the rename conversation follow `Rename`; the pending rename is cleared except after a taken name; only a rename that goes through writes and saves |
| UserHandlers.ReceiveKey | src/user_handlers.py:108-123 | the key is stored under the pending id exactly when both are non-empty; the pending id is cleared either way |
| UserHandlers.NewKeyId | src/user_handlers.py:58 | the new key id is `key_` and the first eight characters of the uuid |
| UserHandlers.ButtonHandler | src/user_handlers.py:50-105 | for each decoded press: add opens the key conversation with a new id, set and delete go through the store, rename opens the rename conversation, refresh and back redraw, other data does nothing |
| UserHandlers.KeyActionsSpec | src/user_handlers.py:161-188 | a panel is shown exactly for a stored key, "Active" exactly for the active name, with four buttons that set, rename or delete that name or go back |
| UserHandlers.ApiMenu | src/user_handlers.py:12-32 | one button per stored key in insertion order, marked " (active)" exactly for the active name, each opening that key's panel, then "Add Key" and "Refresh" |
| UserHandlers.MenuMarksOneKey | src/user_handlers.py:19-24 | on a coherent record at most one menu button is marked active, and one is whenever a key is active |
| Ocr.GroupTextBlank | src/ocr.py:67-70 | the text gathered from one zone group is blank exactly when none of its pages has a visible character |
| Ocr.ZoneTextBlank | src/ocr.py:65-72 | the text gathered from all groups is blank exactly when no page of any group has a visible character |
| Ocr.FlattenZones | src/ocr.py:65-70 | the nested loop returns the zone text: each non-empty page stripped and followed by a blank line |
| Ocr.FromJsonSpec | src/ocr.py:59-75 | an error message wins; else the visible page text stripped; else the result-file link; else "No text detected"; never empty |
| Ocr.ClassifyOnlineSpec | src/ocr.py:44-79 | the statuses 401, 402, 400 and 500 and up each give their own, pairwise different placeholder; any other status is read as `FromJson` when the body parses, never empty, and is the body stripped when it does not |
| Ocr.LocalText | src/ocr.py:89-96 | the text never has surrounding white space, and is empty exactly when opening or reading the image raised or Tesseract found only white space |
| Ocr.OcrImage | src/ocr.py:102-106 | the online service for exactly the mode "online"; any other mode gives Tesseract's text without surrounding white space, empty exactly when nothing was read; a parsed reply of a status other than 400, 401 and 402 is never empty |
| Ocr.DirImagesMembers | src/ocr.py:136-138 | a path is collected from a directory exactly when it joins that directory with a file whose lower-cased name has an image suffix |
| Ocr.ImagePathsMembers | src/ocr.py:134-138 | a path is collected exactly when it joins some walked directory with one of its image files |
| Ocr.CollectImages | src/ocr.py:134-138 | the loop collects the image paths of the walk, in walk order |
| Ocr.FirstCancel | src/ocr.py:145-148 | the first page boundary whose registry read shows the chat's cancel flag, with no cancel seen before it |
| Ocr.ReadPages | src/ocr.py:144-171 | the page loop yields the run `ReadRun` defines: OCR calls, page replies, transcript and outcome |
| Ocr.ProcessArchive | src/ocr.py:112-171 | the whole archive job yields the run `ArchiveRun` defines |
| Ocr.TranscriptVisible | src/ocr.py:151 | a transcript of at least one page has a visible character |
| Ocr.NothingToRead | src/ocr.py:120-142 | an unsupported format, a failed extraction or an archive without images ends the job before any OCR, with no page reply and nothing delivered |
| Ocr.ReadRunPrefix | src/ocr.py:144-157 | the job reads a prefix of the sorted pages, all of them unless cancelled, and replies for the first two pages read |
| Ocr.RunReadsPagesInOrder | src/ocr.py:134-157 | pages are read in ascending path order and are the walk's image files; replies are numbered from 1 against the full page count |
| Ocr.CancelStopsRun | src/ocr.py:145-148 | when the check before page k is the first to see the cancel, exactly the k pages before it were read and nothing is delivered |
| Ocr.RunNeverBlank | src/ocr.py:159-171 | a run that reads every page delivers its transcript under the result name; "no text detected" cannot happen |
| Ocr.ResultNameOfUpload | src/ocr.py:160 | an archive uploaded as stem.zip, stem.cbz or stem.7z is delivered as stem.txt |
| Ocr.SingleImageSpec | src/ocr.py:177-195 | the whole text is sent, as a document named image + ".txt" exactly when longer than 3500 characters |
| Translate.ListingAsWrittenSpec | src/translate.py:48-61 | as written, the listing loop raises exactly when some model passes the filter, and otherwise yields nothing |
| Translate.AsWrittenDropsLiveModels | src/translate.py:45-69 | with a key, a listing with a passing model is answered with the fallback, although the intended listing offers that model |
| Translate.FetchedAsWrittenNeverLists | src/translate.py:29-69 | as written, every cache miss serves the fallback or the empty list |
| Translate.Describe | src/translate.py:52-58 | the corrected description: the display name alone, the grouped token limit and " ctx" alone, both joined by " \| ", or "Text model" when there is neither; never empty |
| Translate.FilteredOrderSpec | src/translate.py:48-58 | the insertion order lists each stored name once, and exactly the stored names |
| Translate.FilteredMapMembers | src/translate.py:49-58 | a name is stored exactly when some model with that short name passes the filter |
| Translate.LastMatch | src/translate.py:49-58 | the last position of a passing model with the given short name, or -1 when there is none |
| Translate.FilteredMapLast | src/translate.py:58 | a stored description is that of the last passing model with that name |
| Translate.IntendedListingSpec | src/translate.py:45-61 | the intended listing is sorted, has no repeats, names exactly the passing models and describes each by its last passing model |
| Translate.ListIntended | src/translate.py:47-59 | the filter loop and the sort compute the intended listing |
| Translate.ModelsForDescribed | src/translate.py:35-69 | every list a cache miss serves describes each name it lists |
| Translate.ModelCache.constructor | src/translate.py:26 | the model cache starts empty |
| Translate.ModelCache.FetchAvailableModels | src/translate.py:29-69 | a fresh entry is served without a key lookup; a miss looks up the key, serves the fallback without a key or when listing raises, else the corrected listing, and caches what it serves with the time |
| Translate.CachedWithinWindow | src/translate.py:32-43 | what was just cached is served for the next 300 seconds; no key or a failed listing gives the fallback |
| Translate.CacheKeysSeparateChats | src/translate.py:31 | two chats share a cache entry exactly when they are the same chat, and the "global" entry belongs to the falsy chat id 0 alone |
| Translate.ClientCache.constructor | src/translate.py:72 | the client cache starts empty |
| Translate.ClientCache.GetClient | src/translate.py:75-78 | a key seen before gets its client back with no change; a new key gets a new client that is remembered |
| Translate.PlanSpec | src/translate.py:87-99 | no key means no call; else an empty model or guide becomes the default, the guide is the system instruction and the prompt is guide, separator line and text |
| Translate.TranslateToHinglish | src/translate.py:81-110 | without a key the instructions are returned and no client made; with one the planned call is made on the key's cached client and its answer stripped or the error text returned |
| Handlers.RegistrySpec | src/handlers.py:299-315 | a cancel is seen exactly when a job was registered; a new job clears it; the first worker to finish removes the chat's entry even after a newer job; other chats are never touched |
| Handlers.OcrModeFor | src/handlers.py:236 | the corrected lookup: the mode stored for the chat, "local" when the chat has no entry or its entry has no mode, and so "local" or "online" whenever every stored mode is one of them |
| Handlers.AsWrittenNeverOnline | src/ocr.py:116-118 | as written the workers never use the online mode, and a chat that chose it makes the job fail where the corrected lookup gives "online" |
| Handlers.RequestedModeCaseless | src/handlers.py:211-212 | the argument is read without regard to case, and a mode it selects selects itself again |
| Handlers.Preview | src/handlers.py:156 | a guide of at most 250 characters is shown whole, a longer one as its first 250 characters followed by a line "..." |
| Handlers.StyleUpdateSpec | src/handlers.py:168-180 | a reset brings back the default guide, any other message becomes the guide stripped, the other settings stay, and the same message twice changes nothing more |
| Handlers.StylePreviewUsesDefaults | src/handlers.py:181-182 | the preview translation runs with the translator's default model and guide, not the guide just saved |
| Handlers.QueuedArchivesAreSupported | src/handlers.py:230-246 | every upload queued as an archive has a format the archive job opens |
| Handlers.TxtGate | src/handlers.py:254-259 | more than 15000 characters is too large, else all white space is empty, else readable |
| Handlers.TxtResultNameOfUpload | src/handlers.py:285 | stem.txt comes back as stem_hinglish.txt |
| Handlers.TxtReplySpec | src/handlers.py:249-296 | only content of at most 15000 characters with visible text is translated, whole, with the chat's model and guide; the caption says "Custom" exactly for a stored non-default guide |
| Handlers.TranslateRequestSpec | src/handlers.py:349-370 | non-empty joined arguments win, else the quoted text, else the quoted caption; there is a call exactly when one is non-empty, never with empty text, with the chat's model and guide |
| Handlers.ModelShort | src/handlers.py:55 | the short model name is never longer than the model name |
| Handlers.Hint | src/handlers.py:58-60 | a hint is at most 25 characters |
| Handlers.WithHintSpec | src/handlers.py:62-68 | the label starts with the plain label and adds the hint only for a model not in use with a non-empty hint, and only within 64 characters |
| Handlers.ModelLabelSpec | src/handlers.py:53-68 | a label starts with "Current: " exactly for the model in use, and is the plain label or the plain label with the hint within 64 characters |
| Handlers.SelectedModelSpec | src/handlers.py:101-104 | exactly data starting with `model|` selects a model, namely the rest of the data, bars included |
| Handlers.Buttons | src/handlers.py:51-71 | one button per listed model |
| Handlers.ButtonsSpec | src/handlers.py:51-71 | each button selects its own model, and "Current" marks exactly the buttons of the model in use |
| Handlers.ModelButtons | src/handlers.py:51-73 | the loop builds the buttons `Buttons` defines |
| Handlers.BotState.constructor | src/handlers.py:18-19 | no jobs and no settings at start |
| Handlers.BotState.SetOcrMode | src/handlers.py:198-222 | no argument shows the current mode; an invalid one is refused with no change; a valid one is stored lower-cased as the chat's `ocr_mode`, after which the lookup as written fails for that chat |
| Handlers.BotState.ReceiveStyleGuide | src/handlers.py:168-190 | the chat's settings become `StyleUpdate`'s; a reset replies so, else a preview translation of the example sentence is requested |
| Handlers.BotState.HandleFile | src/handlers.py:225-274 | no document, an archive (queued and registered), a .txt (gated and translated) or an unsupported file, judged on the lower-cased name; only an archive changes the registry |
| Handlers.BotState.Cancel | src/handlers.py:299-305 | reports whether a job was registered and raises its flag, creating no entry |
| Handlers.BotState.Worker | src/handlers.py:308-315 | the archive job runs with the corrected mode lookup, then the chat's entry is removed |
| Handlers.BotState.HandleImage | src/handlers.py:318-336 | a photo is queued as image.jpg in the fresh directory and registers a job; no photo changes nothing |
| Handlers.BotState.ImageWorker | src/handlers.py:339-346 | the image is read with the corrected mode lookup and sent as `SingleImage` says, then the chat's entry is removed |
| Handlers.BotState.ModelCommand | src/handlers.py:24-91 | the list served by the cache (the corrected listing on a miss) becomes buttons with the chat's model marked current; an empty list gives the error reply |
| Handlers.BotState.ButtonCallback | src/handlers.py:94-150 | `model|` data stores the rest as the chat's model, then the cache's list (the corrected listing on a miss) is served again with that model current and its description ("Text model" when unlisted); other data changes nothing |

## Left out

- Persistence: `_load` and the JSON written by `_save` (`src/users.py:13-28`) are not modelled. The store counts its saves instead.
- Temporary files: directories, downloads, result files and their removal are not modelled.
- Outside services: Telegram, OCRWebService, Tesseract and Gemini are parameters that stand for their answers.
- Concurrency: the asyncio tasks are not modelled. The archive job's registry reads are the parameter `observe`, which covers any interleaving with `/cancel` and new uploads.
- Exceptions other than those the code handles by value are not modelled: failed downloads, "Error reading file", "Translation failed", and "OCR failed"/"OCR error". The one raised by the mode lookup is modelled by `Handlers.ModeAsWritten` only, as the lines below say.
- Reply wording: messages carry what they report but not their Markdown text. The OCR placeholders and the no-key instructions are the exceptions; their exact text is kept.
- The mode shown in upper case by `handle_file` and `handle_image` is not modelled, because the workers read the mode themselves.
- Case mapping: `lower` and `upper` are modelled on ASCII letters only, and Python's string order as code-point order. Full Unicode case mapping is not modelled.
- The clock is whole seconds, not a float, and the uuid is a parameter.
- Chat ids are integers. The `None` default of `translate_to_hinglish` is not modelled, and chat 0 shares the "global" cache entry.
- `cancel_style` (`src/handlers.py:193-195`) only replies and ends the conversation, so it has no state to model.
- The conversation states returned to python-telegram-bot and `context.user_data["model_menu_msg_id"]` are not modelled.
- Handler registration in bot.py is not modelled. The text handlers of both `/api` conversations and of `/style` share one filter, and which of them receives a message depends on the framework's ordering. bot.py and src/utils.py are not part of this model.
- Handlers.BotState.Worker: runs the archive job with the corrected lookup `OcrModeFor`. As written, any chat with a settings entry gets "OCR failed" before extraction (see Findings); the worker does not model that failure.
- Handlers.BotState.ImageWorker: reads the image with the corrected lookup `OcrModeFor`. As written, any chat with a settings entry gets "OCR error" before OCR (see Findings); the worker does not model that failure.
- Translate.ModelCache.FetchAvailableModels: on a miss with an active key and a successful listing it serves and caches the corrected listing `IntendedListing`. As written, a listing with a passing model serves and caches the fallback (see Findings).
- Handlers.Served: gives the corrected listing on a miss, as `FetchAvailableModels` does.
- Handlers.BotState.ModelCommand: shows the corrected listing on a miss, not the fallback that the listing as written serves.
- Handlers.BotState.ButtonCallback: rebuilds its buttons from the corrected listing on a miss, not from the fallback that the listing as written serves.
- Handlers.ModelShort: the contract states only a length bound. The character-level content of `split("-")[-1].upper().replace("GEMINI", "")` is given by its definition.
- Handlers.ModelButtons: requires every listed name to have a description. A Python dict always has one for its keys; the model's menus keep names and descriptions apart.

## Findings

| source | as written | input that shows it | evidently intended | confidence | as-written member | corrected member |
|---|---|---|---|---|---|---|
| src/ocr.py:116-118 | the workers pass `user_settings` (chat to settings dict) as `ocr_mode_map`, and `ocr_mode_map.get(chat_id, "local").upper()` runs before any OCR | a chat sends `/ocrmode online` (or `/style` text, or presses a `/model` button), then an archive or a photo: `get` returns the chat's settings dict, `.upper()` raises AttributeError and the job ends with "OCR failed" or "OCR error" | read the chat's `ocr_mode` setting, "local" by default | not executed | Handlers.AsWrittenNeverOnline | Handlers.OcrModeFor |
| src/translate.py:55-56 | `if_ctx = getattr(m, "input_token_limit", 0)` then `if _ctx:` | a chat with an active key whose listing has a model named `models/gemini-x` supporting `generateContent`: the NameError at line 56 is caught at line 62 and the fallback is served instead of the live list | bind `_ctx` and add the grouped token limit to the description | not executed | Translate.AsWrittenDropsLiveModels | Translate.IntendedListingSpec |
