/** Text recognition: the online service's reply, the local/online dispatch, the archive page
    pipeline and the single-image reply. Tesseract, the HTTP service, archive extraction and the
    directory walk are oracles given as parameters. */
module Ocr {
  import opened Wrappers
  import Text
  import Sorting

  // ---------------------------------------------------------------------------------------------
  // The online service
  // ---------------------------------------------------------------------------------------------

  const CredentialsMissing := "⚠️ OCRWebService credentials not configured."
  const Unauthorized := "⚠️ Invalid OCRWebService credentials."
  const PaymentRequired := "⚠️ Payment required or quota exceeded on OCRWebService account."
  const BadRequest := "⚠️ Bad OCR request (check file format or params)."
  const ServerError := "⚠️ OCRWebService internal error, please try later."
  const NoTextDetected := "⚠️ No text detected."
  const ServiceErrorPrefix := "⚠️ OCR Error: "
  const ResultFilePrefix := "📎 Result file: "
  const RequestErrorPrefix := "⚠️ Online OCR error: "

  /** The parts of the service's JSON reply that are read: `ErrorMessage`, `OCRText` (zone groups of
      page texts, a missing list read as empty, a falsy entry such as `null` or `""` as `None`) and
      `OutputFileUrl`. A reply with a truthy entry that is not a string makes `.strip()` raise inside
      the same `try` as the parse, so it is the unparsed case (`json == None` in `OnlineCall`). */
  datatype OcrJson = OcrJson(errorMessage: Option<string>, ocrText: seq<seq<Option<string>>>, outputFileUrl: Option<string>)

  /** One call of the service: the credentials are missing, the request raised, or a reply came back
      with its status, its body and its JSON (`None` where parsing raised). */
  datatype OnlineCall =
    | NotConfigured
    | RequestFailed(error: string)
    | Responded(status: int, body: string, json: Option<OcrJson>)

  /** One page entry of `OCRText`: a non-empty text contributes itself stripped and a blank line. */
  function PageChunk(p: Option<string>): string {
    if Text.Truthy(p) then Text.Strip(p.value) + "\n\n" else ""
  }

  function GroupText(pages: seq<Option<string>>): string
    decreases |pages|
  {
    if pages == [] then "" else GroupText(pages[..|pages| - 1]) + PageChunk(pages[|pages| - 1])
  }

  /** The text the two nested loops over `OCRText` accumulate. */
  function ZoneText(groups: seq<seq<Option<string>>>): string
    decreases |groups|
  {
    if groups == [] then "" else ZoneText(groups[..|groups| - 1]) + GroupText(groups[|groups| - 1])
  }

  /** A page entry that carries a character that is not white space. */
  ghost predicate Visible(p: Option<string>) {
    p.Some? && !Text.AllSpace(p.value)
  }

  /** Some page entry of the group is visible. */
  ghost predicate GroupVisible(pages: seq<Option<string>>) {
    exists j | 0 <= j < |pages| :: Visible(pages[j])
  }

  /** Some page entry of some group is visible. */
  ghost predicate HasVisibleText(groups: seq<seq<Option<string>>>) {
    exists i | 0 <= i < |groups| :: GroupVisible(groups[i])
  }

  lemma PageChunkBlank(p: Option<string>)
    ensures Text.AllSpace(PageChunk(p)) <==> !Visible(p)
  {
    if Text.Truthy(p) {
      Text.AllSpaceConcat(Text.Strip(p.value), "\n\n");
    }
  }

  /** A group has a visible entry exactly when its front part or its last entry has one. */
  lemma GroupVisibleSnoc(pages: seq<Option<string>>)
    requires pages != []
    ensures GroupVisible(pages) <==> GroupVisible(pages[..|pages| - 1]) || Visible(pages[|pages| - 1])
  {
    var init := pages[..|pages| - 1];
    if GroupVisible(init) {
      var j :| 0 <= j < |init| && Visible(init[j]);
      assert pages[j] == init[j];
    }
    if GroupVisible(pages) {
      var j :| 0 <= j < |pages| && Visible(pages[j]);
      if j < |init| {
        assert init[j] == pages[j];
      }
    }
  }

  lemma {:induction false} GroupTextBlank(pages: seq<Option<string>>)
    ensures Text.AllSpace(GroupText(pages)) <==> !GroupVisible(pages)
    decreases |pages|
  {
    if pages != [] {
      var n := |pages| - 1;
      var init := pages[..n];
      var chunk := PageChunk(pages[n]);
      assert GroupText(pages) == GroupText(init) + chunk;
      GroupTextBlank(init);
      PageChunkBlank(pages[n]);
      Text.AllSpaceConcat(GroupText(init), chunk);
      GroupVisibleSnoc(pages);
    }
  }

  /** Some group has a visible entry exactly when the front groups or the last group has one. */
  lemma HasVisibleSnoc(groups: seq<seq<Option<string>>>)
    requires groups != []
    ensures HasVisibleText(groups) <==> HasVisibleText(groups[..|groups| - 1]) || GroupVisible(groups[|groups| - 1])
  {
    var init := groups[..|groups| - 1];
    if HasVisibleText(init) {
      var i :| 0 <= i < |init| && GroupVisible(init[i]);
      assert groups[i] == init[i];
    }
    if HasVisibleText(groups) {
      var i :| 0 <= i < |groups| && GroupVisible(groups[i]);
      if i < |init| {
        assert init[i] == groups[i];
      }
    }
  }

  /** The accumulated zone text is blank exactly when no page entry has a visible character. */
  lemma {:induction false} ZoneTextBlank(groups: seq<seq<Option<string>>>)
    ensures Text.AllSpace(ZoneText(groups)) <==> !HasVisibleText(groups)
    decreases |groups|
  {
    if groups != [] {
      var n := |groups| - 1;
      var init := groups[..n];
      var last := GroupText(groups[n]);
      assert ZoneText(groups) == ZoneText(init) + last;
      ZoneTextBlank(init);
      GroupTextBlank(groups[n]);
      Text.AllSpaceConcat(ZoneText(init), last);
      HasVisibleSnoc(groups);
    }
  }

  lemma GroupTextStep(before: string, pages: seq<Option<string>>, j: nat)
    requires j < |pages|
    ensures before + GroupText(pages[..j + 1]) == before + GroupText(pages[..j]) + PageChunk(pages[j])
  {
    assert pages[..j + 1][..j] == pages[..j];
  }

  lemma ZoneTextStep(groups: seq<seq<Option<string>>>, i: nat)
    requires i < |groups|
    ensures ZoneText(groups[..i + 1]) == ZoneText(groups[..i]) + GroupText(groups[i])
  {
    assert groups[..i + 1][..i] == groups[..i];
  }

  /** The nested loops of `ocr_image_online` over `OCRText`. */
  method FlattenZones(groups: seq<seq<Option<string>>>) returns (text: string)
    ensures text == ZoneText(groups)
  {
    text := "";
    var i := 0;
    while i < |groups|
      invariant 0 <= i <= |groups| && text == ZoneText(groups[..i])
    {
      var pages := groups[i];
      var before := text;
      var j := 0;
      while j < |pages|
        invariant 0 <= j <= |pages| && text == before + GroupText(pages[..j])
      {
        GroupTextStep(before, pages, j);
        if Text.Truthy(pages[j]) {
          text := text + (Text.Strip(pages[j].value) + "\n\n");
        } else {
          assert PageChunk(pages[j]) == [];
          assert text == text + PageChunk(pages[j]);
        }
        j := j + 1;
      }
      assert pages[..j] == pages;
      ZoneTextStep(groups, i);
      i := i + 1;
    }
    assert groups[..i] == groups;
  }

  /** What a parsed reply with a success status turns into. */
  function FromJson(d: OcrJson): string {
    if Text.Truthy(d.errorMessage) then ServiceErrorPrefix + d.errorMessage.value
    else
      var zones := ZoneText(d.ocrText);
      var text := if Text.Strip(zones) == "" && Text.Truthy(d.outputFileUrl) then ResultFilePrefix + d.outputFileUrl.value else zones;
      if Text.Strip(text) != "" then Text.Strip(text) else NoTextDetected
  }

  /** An error message wins; otherwise visible page text is returned stripped; otherwise the result
      file link; otherwise the no-text placeholder. The answer is never empty. */
  lemma FromJsonSpec(d: OcrJson)
    ensures var r := FromJson(d);
      && r != ""
      && (Text.Truthy(d.errorMessage) ==> r == ServiceErrorPrefix + d.errorMessage.value)
      && (!Text.Truthy(d.errorMessage) && HasVisibleText(d.ocrText) ==> r == Text.Strip(ZoneText(d.ocrText)) && r != "")
      && (!Text.Truthy(d.errorMessage) && !HasVisibleText(d.ocrText) && Text.Truthy(d.outputFileUrl) ==>
          r == Text.Strip(ResultFilePrefix + d.outputFileUrl.value))
      && (!Text.Truthy(d.errorMessage) && !HasVisibleText(d.ocrText) && !Text.Truthy(d.outputFileUrl) ==>
          r == NoTextDetected)
  {
    ZoneTextBlank(d.ocrText);
    if !Text.Truthy(d.errorMessage) && !HasVisibleText(d.ocrText) && Text.Truthy(d.outputFileUrl) {
      var t := ResultFilePrefix + d.outputFileUrl.value;
      assert t[0] == ResultFilePrefix[0];
      assert !Text.AllSpace(t);
    }
  }

  /** `ocr_image_online`: 401, 402, 400 and any status from 500 up map, in that order, to fixed
      placeholders; any other reply is read as JSON, or returned stripped when that fails. */
  function ClassifyOnline(call: OnlineCall): string {
    match call
    case NotConfigured => CredentialsMissing
    case RequestFailed(e) => RequestErrorPrefix + e
    case Responded(status, body, json) =>
      if status == 401 then Unauthorized
      else if status == 402 then PaymentRequired
      else if status == 400 then BadRequest
      else if status >= 500 then ServerError
      else match json
        case None => Text.Strip(body)
        case Some(d) => FromJson(d)
  }

  /** The four error statuses give four different placeholders, none of which any parsed success
      reply can be confused with an error message for; a parsed reply of any other status is never
      empty. */
  lemma ClassifyOnlineSpec(call: OnlineCall)
    ensures call.Responded? && call.status == 401 ==> ClassifyOnline(call) == Unauthorized
    ensures call.Responded? && call.status == 402 ==> ClassifyOnline(call) == PaymentRequired
    ensures call.Responded? && call.status == 400 ==> ClassifyOnline(call) == BadRequest
    ensures call.Responded? && call.status >= 500 ==> ClassifyOnline(call) == ServerError
    ensures call.Responded? && call.status !in {400, 401, 402} && call.status < 500 && call.json.Some? ==>
      ClassifyOnline(call) == FromJson(call.json.value) && ClassifyOnline(call) != ""
    ensures call.Responded? && call.status !in {400, 401, 402} && call.status < 500 && call.json.None? ==>
      ClassifyOnline(call) == Text.Strip(call.body)
    ensures Unauthorized != PaymentRequired && Unauthorized != BadRequest && Unauthorized != ServerError
    ensures PaymentRequired != BadRequest && PaymentRequired != ServerError && BadRequest != ServerError
  {
    if call.Responded? && call.json.Some? { FromJsonSpec(call.json.value); }
  }

  // ---------------------------------------------------------------------------------------------
  // Dispatch
  // ---------------------------------------------------------------------------------------------

  /** `ocr_image_local`: Tesseract's text stripped, or "" where opening or reading the image raised
      (`None`). */
  function LocalText(tesseract: Option<string>): (r: string)
    ensures tesseract.None? ==> r == ""
    ensures tesseract.Some? ==> r == Text.Strip(tesseract.value)
    ensures Text.Strip(r) == r
    ensures r == "" <==> tesseract.None? || Text.AllSpace(tesseract.value)
  {
    match tesseract
    case None => ""
    case Some(t) => Text.StripIdempotent(t); Text.Strip(t)
  }

  /** `ocr_image`: the online service for exactly the mode "online", Tesseract for any other. */
  function OcrImage(mode: string, tesseract: Option<string>, online: OnlineCall): (r: string)
    ensures mode == "online" ==> r == ClassifyOnline(online)
    ensures mode != "online" ==> r == LocalText(tesseract)
    ensures mode != "online" ==> Text.Strip(r) == r && (r == "" <==> tesseract.None? || Text.AllSpace(tesseract.value))
    ensures mode == "online" && online.Responded? && online.json.Some? && online.status !in {400, 401, 402} ==> r != ""
  {
    ClassifyOnlineSpec(online);
    if mode == "online" then ClassifyOnline(online) else LocalText(tesseract)
  }

  // ---------------------------------------------------------------------------------------------
  // Archive pages
  // ---------------------------------------------------------------------------------------------

  const ImageSuffixes: seq<string> := [".jpg", ".jpeg", ".png", ".bmp", ".tiff", ".webp", ".gif"]

  /** A file is a page when its lowercased name ends in one of the image suffixes. */
  predicate IsImageName(f: string) {
    exists k | 0 <= k < |ImageSuffixes| :: Text.EndsWith(Text.Lower(f), ImageSuffixes[k])
  }

  /** `join(x)` for each `x` of `xs` that `keep` accepts, in the order of `xs`. */
  function Gather(xs: seq<string>, keep: string -> bool, join: string -> string): seq<string>
    decreases |xs|
  {
    if xs == [] then []
    else
      var x := xs[|xs| - 1];
      Gather(xs[..|xs| - 1], keep, join) + (if keep(x) then [join(x)] else [])
  }

  lemma {:induction false} GatherMembers(xs: seq<string>, keep: string -> bool, join: string -> string, p: string)
    ensures p in Gather(xs, keep, join) <==> exists j | 0 <= j < |xs| :: keep(xs[j]) && p == join(xs[j])
    decreases |xs|
  {
    if xs != [] {
      var n := |xs| - 1;
      var init := xs[..n];
      GatherMembers(init, keep, join, p);
      assert forall j | 0 <= j < n :: init[j] == xs[j];
    }
  }

  /** The pages one directory of the walk contributes, in the order of its file list. */
  function DirImages(root: string, files: seq<string>): seq<string> {
    Gather(files, IsImageName, f => Text.PathJoin(root, f))
  }

  /** The parts of each element of `xs`, one after another. */
  function Concat(xs: seq<(string, seq<string>)>, part: ((string, seq<string>)) -> seq<string>): seq<string>
    decreases |xs|
  {
    if xs == [] then [] else Concat(xs[..|xs| - 1], part) + part(xs[|xs| - 1])
  }

  lemma {:induction false} ConcatMembers(xs: seq<(string, seq<string>)>, part: ((string, seq<string>)) -> seq<string>, p: string)
    ensures p in Concat(xs, part) <==> exists i | 0 <= i < |xs| :: p in part(xs[i])
    decreases |xs|
  {
    if xs != [] {
      var n := |xs| - 1;
      var init := xs[..n];
      ConcatMembers(init, part, p);
      assert forall i | 0 <= i < n :: init[i] == xs[i];
    }
  }

  /** `image_files` after the `os.walk` loop: each walk entry is `(root, files)`. */
  function ImagePaths(walk: seq<(string, seq<string>)>): seq<string> {
    Concat(walk, (e: (string, seq<string>)) => DirImages(e.0, e.1))
  }

  /** `p` joins `root` with one of the image files of `files`. */
  predicate InDir(root: string, files: seq<string>, p: string) {
    exists j | 0 <= j < |files| :: IsImageName(files[j]) && p == Text.PathJoin(root, files[j])
  }

  /** `p` joins some walked directory with one of its image files. */
  predicate InWalk(walk: seq<(string, seq<string>)>, p: string) {
    exists i | 0 <= i < |walk| :: InDir(walk[i].0, walk[i].1, p)
  }

  lemma DirImagesMembers(root: string, files: seq<string>, p: string)
    ensures p in DirImages(root, files) <==> InDir(root, files, p)
  {
    var join := f => Text.PathJoin(root, f);
    GatherMembers(files, IsImageName, join, p);
    if InDir(root, files, p) {
      var j :| 0 <= j < |files| && IsImageName(files[j]) && p == Text.PathJoin(root, files[j]);
      assert join(files[j]) == p;
    }
  }

  /** A path is collected exactly when it joins a walked directory with one of its image files. */
  lemma ImagePathsMembers(walk: seq<(string, seq<string>)>, p: string)
    ensures p in ImagePaths(walk) <==> InWalk(walk, p)
  {
    var part := (e: (string, seq<string>)) => DirImages(e.0, e.1);
    ConcatMembers(walk, part, p);
    if p in ImagePaths(walk) {
      var i :| 0 <= i < |walk| && p in part(walk[i]);
      DirImagesMembers(walk[i].0, walk[i].1, p);
    }
    if InWalk(walk, p) {
      var i :| 0 <= i < |walk| && InDir(walk[i].0, walk[i].1, p);
      DirImagesMembers(walk[i].0, walk[i].1, p);
      assert p in part(walk[i]);
    }
  }

  /** The `os.walk` loop: append every image file of every walked directory. */
  method CollectImages(walk: seq<(string, seq<string>)>) returns (images: seq<string>)
    ensures images == ImagePaths(walk)
  {
    images := [];
    var i := 0;
    while i < |walk|
      invariant 0 <= i <= |walk| && images == ImagePaths(walk[..i])
    {
      var (root, files) := walk[i];
      var j := 0;
      while j < |files|
        invariant 0 <= j <= |files| && images == ImagePaths(walk[..i]) + DirImages(root, files[..j])
      {
        DirImagesStep(root, files, j);
        if IsImageName(files[j]) {
          images := images + [Text.PathJoin(root, files[j])];
        }
        j := j + 1;
      }
      assert files[..j] == files;
      ImagePathsStep(walk, i);
      i := i + 1;
    }
    assert walk[..i] == walk;
  }

  /** One more file of a directory adds its page, if it is one, at the end. */
  lemma DirImagesStep(root: string, files: seq<string>, j: nat)
    requires j < |files|
    ensures DirImages(root, files[..j + 1]) ==
      DirImages(root, files[..j]) + (if IsImageName(files[j]) then [Text.PathJoin(root, files[j])] else [])
  {
    assert files[..j + 1][..j] == files[..j];
  }

  /** One more directory of the walk adds its pages at the end. */
  lemma ImagePathsStep(walk: seq<(string, seq<string>)>, i: nat)
    requires i < |walk|
    ensures ImagePaths(walk[..i + 1]) == ImagePaths(walk[..i]) + DirImages(walk[i].0, walk[i].1)
  {
    assert walk[..i + 1][..i] == walk[..i];
  }

  /** How `process_archive` picks an extractor: by the (case-sensitive) end of the saved path. */
  datatype ArchiveKind = Zip | SevenZip | NotArchive

  function KindOf(archivePath: string): ArchiveKind {
    if Text.EndsWith(archivePath, ".zip") || Text.EndsWith(archivePath, ".cbz") then Zip
    else if Text.EndsWith(archivePath, ".7z") then SevenZip
    else NotArchive
  }

  /** The extractor's result: the directory walk of what it extracted, or the error it raised. */
  datatype Extraction = Extracted(walk: seq<(string, seq<string>)>) | ExtractFailed(error: string)

  /** The registry snapshot a page boundary sees says "cancel": the chat has an entry and its flag is set. */
  predicate CancelSeen(jobs: map<int, bool>, chat: int) {
    chat in jobs && jobs[chat]
  }

  /** The first page boundary at or after `from` (and before `n`) that sees a cancel, or `n`.
      `observe(i)` is the registry as the check before page `i` (from 0) reads it. */
  function FirstCancel(observe: nat -> map<int, bool>, chat: int, from: nat, n: nat): (r: nat)
    requires from <= n
    ensures from <= r <= n
    ensures forall i | from <= i < r :: !CancelSeen(observe(i), chat)
    ensures r < n ==> CancelSeen(observe(r), chat)
    decreases n - from
  {
    if from == n then n
    else if CancelSeen(observe(from), chat) then from
    else FirstCancel(observe, chat, from + 1, n)
  }

  /** The transcript piece of one page: a header with the page's base name, then its text. */
  function Section(path: string, text: string): string {
    "\n\n--- " + Text.Basename(path) + " ---\n" + text
  }

  /** `all_text` after the given pages. */
  function Transcript(pages: seq<string>, ocr: string -> string): string
    decreases |pages|
  {
    if pages == [] then "" else Transcript(pages[..|pages| - 1], ocr) + Section(pages[|pages| - 1], ocr(pages[|pages| - 1]))
  }

  /** One page reply sent while the archive runs: base name, position from 1, page count, text. */
  datatype Progress = Progress(name: string, index: nat, total: nat, text: string)

  function Min(a: nat, b: nat): nat {
    if a <= b then a else b
  }

  /** The replies for the first two of the given pages. */
  function Progresses(pages: seq<string>, ocr: string -> string, total: nat): seq<Progress> {
    seq(Min(2, |pages|), i requires 0 <= i < Min(2, |pages|) =>
      Progress(Text.Basename(pages[i]), i + 1, total, ocr(pages[i])))
  }

  /** How `process_archive` ends. */
  datatype Outcome =
    | Unsupported
    | ExtractError(error: string)
    | NoImages
    | Cancelled
    | NoText
    | Delivered(fileName: string, content: string)

  /** What a run does: the pages OCR ran on, in order, the page replies, the transcript and the end. */
  datatype Trace = Trace(ocrCalls: seq<string>, progress: seq<Progress>, transcript: string, outcome: Outcome)

  /** The name of the delivered transcript: the archive's base name without its extension, `.txt`. */
  function ResultName(archivePath: string): string {
    Text.StemOf(Text.Basename(archivePath)) + ".txt"
  }

  /** The page loop over the sorted pages: stop at the first boundary that sees a cancel, else
      deliver the transcript if it is not blank. `total` is the number of pages found. */
  function ReadRun(archivePath: string, pages: seq<string>, total: nat, chat: int,
                   observe: nat -> map<int, bool>, ocr: string -> string): Trace
  {
    var k := FirstCancel(observe, chat, 0, |pages|);
    var done := pages[..k];
    var transcript := Transcript(done, ocr);
    Trace(done, Progresses(done, ocr, total), transcript,
      if k < |pages| then Cancelled
      else if Text.Strip(transcript) != "" then Delivered(ResultName(archivePath), transcript)
      else NoText)
  }

  /** `process_archive`, with `ocr(p)` standing for what `ocr_image(p, mode)` returns. */
  function ArchiveRun(archivePath: string, extraction: Extraction, chat: int,
                      observe: nat -> map<int, bool>, ocr: string -> string): Trace
  {
    if KindOf(archivePath) == NotArchive then Trace([], [], "", Unsupported)
    else match extraction
      case ExtractFailed(e) => Trace([], [], "", ExtractError(e))
      case Extracted(walk) =>
        var images := ImagePaths(walk);
        if images == [] then Trace([], [], "", NoImages)
        else ReadRun(archivePath, Sorting.Sort(images), |images|, chat, observe, ocr)
  }

  lemma TranscriptStep(pages: seq<string>, ocr: string -> string, i: nat)
    requires i < |pages|
    ensures Transcript(pages[..i + 1], ocr) == Transcript(pages[..i], ocr) + Section(pages[i], ocr(pages[i]))
  {
    assert pages[..i + 1][..i] == pages[..i];
  }

  lemma ProgressesStep(pages: seq<string>, ocr: string -> string, total: nat, i: nat)
    requires i < |pages|
    ensures Progresses(pages[..i + 1], ocr, total) ==
      Progresses(pages[..i], ocr, total) + (if i < 2 then [Progress(Text.Basename(pages[i]), i + 1, total, ocr(pages[i]))] else [])
  {
  }

  /** No boundary before the `k`th saw a cancel. */
  predicate NoCancelBefore(observe: nat -> map<int, bool>, chat: int, k: nat) {
    forall i: nat | i < k :: !CancelSeen(observe(i), chat)
  }

  lemma NoCancelStep(observe: nat -> map<int, bool>, chat: int, k: nat)
    requires NoCancelBefore(observe, chat, k) && !CancelSeen(observe(k), chat)
    ensures NoCancelBefore(observe, chat, k + 1)
  {
  }

  /** The first boundary that sees a cancel is the one before which none did. */
  lemma FirstCancelIs(observe: nat -> map<int, bool>, chat: int, n: nat, k: nat)
    requires k <= n && NoCancelBefore(observe, chat, k)
    requires k < n ==> CancelSeen(observe(k), chat)
    ensures FirstCancel(observe, chat, 0, n) == k
  {
  }

  /** A run whose first cancel is seen before page `k` stops there with what it has. */
  lemma CancelledRun(archivePath: string, pages: seq<string>, total: nat, chat: int,
                     observe: nat -> map<int, bool>, ocr: string -> string, k: nat)
    requires k < |pages| && NoCancelBefore(observe, chat, k)
    requires CancelSeen(observe(k), chat)
    ensures ReadRun(archivePath, pages, total, chat, observe, ocr) ==
      Trace(pages[..k], Progresses(pages[..k], ocr, total), Transcript(pages[..k], ocr), Cancelled)
  {
    FirstCancelIs(observe, chat, |pages|, k);
  }

  /** A run that sees no cancel reads every page. */
  lemma FinishedRun(archivePath: string, pages: seq<string>, total: nat, chat: int,
                    observe: nat -> map<int, bool>, ocr: string -> string)
    requires NoCancelBefore(observe, chat, |pages|)
    ensures var transcript := Transcript(pages[..|pages|], ocr);
      ReadRun(archivePath, pages, total, chat, observe, ocr) ==
      Trace(pages[..|pages|], Progresses(pages[..|pages|], ocr, total), transcript,
        if Text.Strip(transcript) != "" then Delivered(ResultName(archivePath), transcript) else NoText)
  {
    FirstCancelIs(observe, chat, |pages|, |pages|);
  }

  /** The loop over the sorted pages: poll the registry before each page, OCR it, append its
      section and send a reply for the first two. */
  method ReadPages(archivePath: string, pages: seq<string>, total: nat, chat: int,
                   observe: nat -> map<int, bool>, ocr: string -> string) returns (t: Trace)
    ensures t == ReadRun(archivePath, pages, total, chat, observe, ocr)
  {
    var calls: seq<string> := [];
    var progress: seq<Progress> := [];
    var allText := "";
    var idx := 0;
    while idx < |pages|
      invariant 0 <= idx <= |pages|
      invariant NoCancelBefore(observe, chat, idx)
      invariant calls == pages[..idx]
      invariant allText == Transcript(pages[..idx], ocr)
      invariant progress == Progresses(pages[..idx], ocr, total)
    {
      if CancelSeen(observe(idx), chat) {
        CancelledRun(archivePath, pages, total, chat, observe, ocr, idx);
        return Trace(calls, progress, allText, Cancelled);
      }
      NoCancelStep(observe, chat, idx);
      var text := ocr(pages[idx]);
      TranscriptStep(pages, ocr, idx);
      ProgressesStep(pages, ocr, total, idx);
      calls := pages[..idx + 1];
      allText := allText + Section(pages[idx], text);
      if idx < 2 {
        progress := progress + [Progress(Text.Basename(pages[idx]), idx + 1, total, text)];
      }
      idx := idx + 1;
    }
    FinishedRun(archivePath, pages, total, chat, observe, ocr);
    if Text.Strip(allText) != "" {
      t := Trace(calls, progress, allText, Delivered(ResultName(archivePath), allText));
    } else {
      t := Trace(calls, progress, allText, NoText);
    }
  }

  /** `process_archive` step by step: dispatch on the format, collect the pages, sort them and read
      them. */
  method ProcessArchive(archivePath: string, extraction: Extraction, chat: int,
                        observe: nat -> map<int, bool>, ocr: string -> string) returns (t: Trace)
    ensures t == ArchiveRun(archivePath, extraction, chat, observe, ocr)
  {
    if KindOf(archivePath) == NotArchive {
      return Trace([], [], "", Unsupported);
    }
    if extraction.ExtractFailed? {
      return Trace([], [], "", ExtractError(extraction.error));
    }
    var images := CollectImages(extraction.walk);
    if images == [] {
      return Trace([], [], "", NoImages);
    }
    t := ReadPages(archivePath, Sorting.Sort(images), |images|, chat, observe, ocr);
  }

  /** A transcript of at least one page is never blank: each header has visible dashes. */
  lemma TranscriptVisible(pages: seq<string>, ocr: string -> string)
    requires pages != []
    ensures Text.Strip(Transcript(pages, ocr)) != ""
  {
    var init := pages[..|pages| - 1];
    var s := Section(pages[|pages| - 1], ocr(pages[|pages| - 1]));
    assert s[2] == '-';
    assert !Text.AllSpace(s);
    Text.AllSpaceConcat(Transcript(init, ocr), s);
  }

  /** An unsupported format, a failed extraction and an archive without pages end the run before
      any OCR, with no page reply and nothing delivered. */
  lemma NothingToRead(archivePath: string, extraction: Extraction, chat: int,
                      observe: nat -> map<int, bool>, ocr: string -> string)
    requires KindOf(archivePath) == NotArchive || extraction.ExtractFailed? || ImagePaths(extraction.walk) == []
    ensures var t := ArchiveRun(archivePath, extraction, chat, observe, ocr);
      && t.ocrCalls == [] && t.progress == [] && !t.outcome.Delivered?
      && (KindOf(archivePath) == NotArchive ==> t.outcome == Unsupported)
      && (KindOf(archivePath) != NotArchive && extraction.ExtractFailed? ==> t.outcome == ExtractError(extraction.error))
      && (KindOf(archivePath) != NotArchive && extraction.Extracted? ==> t.outcome == NoImages)
  {
  }

  /** The page loop reads a prefix of its pages, all of them unless cancelled, and sends a reply for
      each of the first two pages read. */
  lemma ReadRunPrefix(archivePath: string, pages: seq<string>, total: nat, chat: int,
                      observe: nat -> map<int, bool>, ocr: string -> string)
    ensures var t := ReadRun(archivePath, pages, total, chat, observe, ocr);
      && |t.ocrCalls| <= |pages| && t.ocrCalls == pages[..|t.ocrCalls|]
      && (t.outcome != Cancelled ==> t.ocrCalls == pages)
      && |t.progress| == Min(2, |t.ocrCalls|)
      && (forall i | 0 <= i < |t.progress| ::
        t.progress[i] == Progress(Text.Basename(t.ocrCalls[i]), i + 1, total, ocr(t.ocrCalls[i])))
  {
    var k := FirstCancel(observe, chat, 0, |pages|);
    RunShape(archivePath, pages, total, chat, observe, ocr);
    if k == |pages| { assert pages[..k] == pages; }
  }

  /** The pages read are those before the first cancel, and the replies are those pages'. */
  lemma RunShape(archivePath: string, pages: seq<string>, total: nat, chat: int,
                 observe: nat -> map<int, bool>, ocr: string -> string)
    ensures var t := ReadRun(archivePath, pages, total, chat, observe, ocr);
      var k := FirstCancel(observe, chat, 0, |pages|);
      && t.ocrCalls == pages[..k] && t.progress == Progresses(pages[..k], ocr, total)
      && (t.outcome != Cancelled ==> k == |pages|)
  {
  }

  /** The pages are read in ascending path order and are, as a collection, exactly the image files
      of the walk; only a cancel cuts the list short. Page replies go out for the first
      `min(2, pages read)` pages, numbered from 1 against the full page count. */
  lemma RunReadsPagesInOrder(archivePath: string, walk: seq<(string, seq<string>)>, chat: int,
                             observe: nat -> map<int, bool>, ocr: string -> string)
    requires KindOf(archivePath) != NotArchive
    ensures var t := ArchiveRun(archivePath, Extracted(walk), chat, observe, ocr);
      var images := ImagePaths(walk);
      && Sorting.Sorted(t.ocrCalls)
      && (forall p | p in t.ocrCalls :: p in images)
      && (t.outcome != Cancelled ==> multiset(t.ocrCalls) == multiset(images))
      && |t.progress| == Min(2, |t.ocrCalls|)
      && (forall i | 0 <= i < |t.progress| ::
        t.progress[i] == Progress(Text.Basename(t.ocrCalls[i]), i + 1, |images|, ocr(t.ocrCalls[i])))
  {
    var images := ImagePaths(walk);
    if images != [] {
      var pages := Sorting.Sort(images);
      var t := ReadRun(archivePath, pages, |images|, chat, observe, ocr);
      ReadRunPrefix(archivePath, pages, |images|, chat, observe, ocr);
      var calls := t.ocrCalls;
      assert Sorting.Sorted(calls) by {
        forall i, j | 0 <= i < j < |calls| ensures Sorting.AtMost(calls[i], calls[j]) {
          assert calls[i] == pages[i] && calls[j] == pages[j];
        }
      }
      forall p | p in calls ensures p in images {
        var i :| 0 <= i < |calls| && calls[i] == p;
        assert pages[i] == p;
        assert p in multiset(pages);
      }
    }
  }

  /** When the check before page `k` (from 0) is the first to see the cancel, OCR ran on exactly
      the `k` pages before it and nothing is delivered. */
  lemma CancelStopsRun(archivePath: string, walk: seq<(string, seq<string>)>, chat: int,
                       observe: nat -> map<int, bool>, ocr: string -> string, k: nat)
    requires KindOf(archivePath) != NotArchive
    requires k < |ImagePaths(walk)|
    requires CancelSeen(observe(k), chat) && forall i | 0 <= i < k :: !CancelSeen(observe(i), chat)
    ensures var t := ArchiveRun(archivePath, Extracted(walk), chat, observe, ocr);
      |t.ocrCalls| == k && t.outcome == Cancelled
  {
    var pages := Sorting.Sort(ImagePaths(walk));
    assert |pages| == |ImagePaths(walk)| by {
      assert |multiset(pages)| == |multiset(ImagePaths(walk))|;
    }
    var r := FirstCancel(observe, chat, 0, |pages|);
    assert r == k;
  }

  /** A run never ends with "no text detected": once every page is read, the transcript has at
      least one header, so a run that is not cancelled delivers the transcript under the
      archive's result name. */
  lemma RunNeverBlank(archivePath: string, extraction: Extraction, chat: int,
                      observe: nat -> map<int, bool>, ocr: string -> string)
    ensures var t := ArchiveRun(archivePath, extraction, chat, observe, ocr);
      && t.outcome != NoText
      && (t.ocrCalls != [] && t.outcome != Cancelled ==> t.outcome == Delivered(ResultName(archivePath), t.transcript))
  {
    if KindOf(archivePath) != NotArchive && extraction.Extracted? && ImagePaths(extraction.walk) != [] {
      var pages := Sorting.Sort(ImagePaths(extraction.walk));
      assert |pages| == |ImagePaths(extraction.walk)| by {
        assert |multiset(pages)| == |multiset(ImagePaths(extraction.walk))|;
      }
      var k := FirstCancel(observe, chat, 0, |pages|);
      if k == |pages| {
        TranscriptVisible(pages[..k], ocr);
      }
    }
  }

  /** An archive uploaded as `stem.zip`, `stem.cbz` or `stem.7z` into any directory is delivered as
      `stem.txt`. */
  lemma ResultNameOfUpload(dir: string, stem: string, ext: string)
    requires ext == ".zip" || ext == ".cbz" || ext == ".7z"
    requires '/' !in stem && exists k | 0 <= k < |stem| :: stem[k] != '.'
    ensures ResultName(Text.PathJoin(dir, stem + ext)) == stem + ".txt"
    ensures KindOf(Text.PathJoin(dir, stem + ext)) != NotArchive
  {
    assert |ext| > 0 && ext[0] == '.' && '.' !in ext[1..] && '/' !in ext;
    JoinedUpload(dir, stem, ext);
  }

  /** The same for any one-dot extension: the result is named after the stem, and the joined path
      still ends with the extension. */
  lemma JoinedUpload(dir: string, stem: string, ext: string)
    requires |ext| > 0 && ext[0] == '.' && '.' !in ext[1..] && '/' !in ext
    requires '/' !in stem && exists k | 0 <= k < |stem| :: stem[k] != '.'
    ensures ResultName(Text.PathJoin(dir, stem + ext)) == stem + ".txt"
    ensures Text.EndsWith(Text.PathJoin(dir, stem + ext), ext)
  {
    var name := stem + ext;
    assert '/' !in name by {
      forall k | 0 <= k < |name| ensures name[k] != '/' {
        if k < |stem| { assert name[k] == stem[k]; } else { assert name[k] == ext[k - |stem|]; }
      }
    }
    Text.BasenameOfJoin(dir, name);
    Text.StemOfWithExtension(stem, ext);
    assert Text.EndsWith(name, ext) by { assert name[|name| - |ext|..] == ext; }
    Text.EndsWithJoin(dir, name, ext);
  }

  // ---------------------------------------------------------------------------------------------
  // A single image
  // ---------------------------------------------------------------------------------------------

  const DocumentThreshold := 3500

  /** How `process_single_image` answers: the text as a document named after the image, or as a
      message. */
  datatype ImageReply = AsDocument(fileName: string, text: string) | AsMessage(text: string)

  function SingleImage(imagePath: string, text: string): ImageReply {
    if |text| > DocumentThreshold then AsDocument(Text.Basename(imagePath + ".txt"), text) else AsMessage(text)
  }

  /** The whole text goes out either way; it is a document exactly when longer than 3500
      characters, named after the image with `.txt` appended. The job reads no registry state. */
  lemma SingleImageSpec(imagePath: string, text: string)
    ensures var r := SingleImage(imagePath, text);
      && r.text == text
      && (r.AsDocument? <==> |text| > 3500)
      && (r.AsDocument? ==> r.fileName == Text.Basename(imagePath) + ".txt")
  {
    Text.BasenameAppend(imagePath, ".txt");
  }
}
