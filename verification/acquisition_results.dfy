/** The result of downloading one paper: its validation, its private JSON form and the mapping
    of a provider row to it.  Fields keep the JSON values that Python puts in them. */
module AcquisitionResults {
  import opened Wrappers
  import opened PythonText

  /** A decoded JSON value; lists and fractions never occur where these are looked at closely. */
  datatype Json = Null | Text(s: string) | Number(n: int) | Truth(b: bool) | Dict(m: map<string, Json>) | OtherJson

  datatype ItemResult = ItemResult(paperId: string, status: Json, path: Json, format: Json,
                                   failure: Json, contentSha256: Json, contentBytes: Json)

  const OBTAINED := Text("obtained")
  const WAITING_USER := Text("waiting_user")
  const MISSING := Text("missing")

  predicate LowerHex(s: string) {
    forall c | c in Points(s) :: LowerHexPoint(c)
  }

  predicate PlainText(value: Json, limit: nat) {
    value.Text? && !Blank(Points(value.s)) && |value.s| <= limit
  }

  predicate ValidFailure(failure: Json) {
    && failure.Dict?
    && failure.m.Keys == {"code", "detail"}
    && PlainText(failure.m["code"], 256)
    && PlainText(failure.m["detail"], 4000)
  }

  predicate ValidProof(sha: Json, bytes: Json) {
    || (sha == Null && bytes == Null)
    || (sha.Text? && |sha.s| == 64 && LowerHex(sha.s) && bytes.Number? && bytes.n > 0)
  }

  /** The acceptance of one result by `validate_item_results`. */
  predicate ValidResult(r: ItemResult) {
    if r.status == OBTAINED then
      && r.path != Null
      && (r.format == Text("pdf") || r.format == Text("html") || r.format == Text("xml"))
      && r.failure == Null
      && ValidProof(r.contentSha256, r.contentBytes)
    else
      && (r.status == WAITING_USER || r.status == MISSING)
      && r.path == Null && r.format == Null && r.contentSha256 == Null && r.contentBytes == Null
      && ValidFailure(r.failure)
  }

  // ----- The private JSON form ----------------------------------------------------------

  /** `as_dict`: the proof fields are left out while there is no proof. */
  function AsDict(r: ItemResult): map<string, Json> {
    var payload := map["paper_id" := Text(r.paperId), "status" := r.status, "path" := r.path,
                       "format" := r.format, "failure" := r.failure];
    if r.contentSha256 != Null || r.contentBytes != Null
    then payload["content_sha256" := r.contentSha256]["content_bytes" := r.contentBytes]
    else payload
  }

  function Optional(m: map<string, Json>, key: string): Json {
    if key in m then m[key] else Null
  }

  /** `_item_result_from_private_state` on the stored `result` value. */
  function FromPrivateState(value: Option<Json>, paperId: string): (result: Option<ItemResult>)
    ensures result.Some? ==> ValidResult(result.value) && result.value.paperId == paperId
  {
    if value.None? || !value.value.Dict? then None
    else
      var m := value.value.m;
      if Optional(m, "paper_id") != Text(paperId) then None
      else if !({"status", "path", "format", "failure"} <= m.Keys) then None
      else
        var r := ItemResult(paperId, m["status"], m["path"], m["format"], m["failure"],
                            Optional(m, "content_sha256"), Optional(m, "content_bytes"));
        if ValidResult(r) then Some(r) else None
  }

  lemma AsDictFields(r: ItemResult)
    ensures var m := AsDict(r);
      && {"status", "path", "format", "failure"} <= m.Keys
      && Optional(m, "paper_id") == Text(r.paperId)
      && m["status"] == r.status && m["path"] == r.path && m["format"] == r.format && m["failure"] == r.failure
      && Optional(m, "content_sha256") == r.contentSha256
      && Optional(m, "content_bytes") == r.contentBytes
  {
  }

  /** Round trip: what is stored for a result is read back as that result, for exactly the
      valid results. */
  lemma StoredResultIsReadBack(r: ItemResult)
    ensures FromPrivateState(Some(Dict(AsDict(r))), r.paperId) == (if ValidResult(r) then Some(r) else None)
  {
    hide AsDict, ValidResult;
    AsDictFields(r);
  }

  // ----- Provider rows ------------------------------------------------------------------

  const SUCCESS_STATUSES := {"downloaded", "downloaded_with_si", "open_access_downloaded",
                             "full_text_html_available", "native_fulltext_downloaded"}

  const WAITING_STATUSES := {"carsi_waiting_user", "carsi_resolved_retry_needed",
                             "publisher_verification_waiting_user", "sciencedirect_robot_check",
                             "retry_after_user_verification", "api_fallback_confirmation_required",
                             "verification_auto_failed", "publisher_blocked_waiting_user"}

  /** What the file system says of a returned path: where it resolves, whether that is a plain
      file inside the target directory, and its suffix. */
  datatype Probe = Probe(resolved: string, acceptable: bool, suffix: string)

  datatype FileSystem = FileSystem(probe: string -> Probe)

  /** The short user-facing text of a failure; the wording is not modelled. */
  const DETAIL: string := "detail"

  /** A failure code that a stored result may carry. */
  predicate StoredCode(code: string) {
    !Blank(Points(code)) && |code| <= 256
  }

  function MissingItem(paperId: string, code: string, waitingUser: bool): (r: ItemResult)
    ensures StoredCode(code) ==> ValidResult(r)
    ensures r.status == if waitingUser then WAITING_USER else MISSING
  {
    assert Points(DETAIL)[0] == 0x64 && Points(DETAIL)[0] in Points(DETAIL);
    ItemResult(paperId, if waitingUser then WAITING_USER else MISSING, Null, Null,
               Dict(map["code" := Text(code), "detail" := Text(DETAIL)]), Null, Null)
  }

  function LowerAscii(s: string): string {
    seq(|s|, i requires 0 <= i < |s| => if 'A' <= s[i] <= 'Z' then s[i] - 'A' + 'a' else s[i])
  }

  function FormatOfSuffix(suffix: string): string {
    if suffix == ".pdf" then "pdf"
    else if suffix == ".html" || suffix == ".htm" then "html"
    else if suffix == ".xml" then "xml"
    else ""
  }

  function NormalizedFormat(raw: Option<Json>, suffix: string): string {
    var name := if raw.Some? && raw.value.Text? then LowerAscii(raw.value.s) else "";
    var format := if name == "jats" || name == "jats_xml" then "xml" else name;
    if format == "pdf" || format == "html" || format == "xml" then format
    else FormatOfSuffix(LowerAscii(suffix))
  }

  predicate PlainCode(code: string) {
    1 <= |code| <= 80 && forall c | c in code :: 'a' <= c <= 'z' || '0' <= c <= '9' || c == '_'
  }

  function Field(m: map<string, Json>, key: string): Option<Json> {
    if key in m then Some(m[key]) else None
  }

  /** `_map_nature_result`: every provider row becomes a valid result. */
  function MapNatureResult(paperId: string, raw: Json, files: FileSystem): (r: ItemResult)
    ensures ValidResult(r) && r.paperId == paperId
  {
    CodesCanBeStored();
    if !raw.Dict? then MissingItem(paperId, "nature_downloader_result_invalid", false)
    else
      var status := if Field(raw.m, "status").Some? && raw.m["status"].Text? then raw.m["status"].s else "unknown";
      if status in SUCCESS_STATUSES then DownloadedResult(paperId, raw.m, files)
      else if status in WAITING_STATUSES then MissingItem(paperId, status, true)
      else MissingItem(paperId, if PlainCode(status) then status else "acquisition_missing", false)
  }

  function DownloadedResult(paperId: string, row: map<string, Json>, files: FileSystem): (r: ItemResult)
    ensures ValidResult(r) && r.paperId == paperId
    ensures r.status == OBTAINED ==>
              && Field(row, "file").Some? && row["file"].Text? && row["file"].s != ""
              && files.probe(row["file"].s).acceptable && r.path == Text(files.probe(row["file"].s).resolved)
  {
    CodesCanBeStored();
    var file := Field(row, "file");
    if file.None? || !file.value.Text? || file.value.s == "" then
      MissingItem(paperId, "nature_downloader_file_unverified", false)
    else
      var found := files.probe(file.value.s);
      var format := NormalizedFormat(Field(row, "format"), found.suffix);
      if !found.acceptable then MissingItem(paperId, "nature_downloader_file_unverified", false)
      else if format != "pdf" && format != "html" && format != "xml" then
        MissingItem(paperId, "nature_downloader_format_unsupported", false)
      else ItemResult(paperId, OBTAINED, Text(found.resolved), Text(format), Null, Null, Null)
  }

  /** The constant codes, and every plain provider status, can be stored. */
  lemma CodesCanBeStored()
    ensures forall code | PlainCode(code) :: StoredCode(code)
    ensures forall code | code in WAITING_STATUSES :: StoredCode(code)
    ensures StoredCode("nature_downloader_result_invalid") && StoredCode("nature_downloader_file_unverified")
    ensures StoredCode("nature_downloader_format_unsupported") && StoredCode("acquisition_missing")
  {
    forall code | PlainCode(code) || code in WAITING_STATUSES ensures StoredCode(code) {
      assert PlainCode(code) ==> code[0] in code;
      StartsWithALetter(code);
    }
    StartsWithALetter("nature_downloader_result_invalid");
    StartsWithALetter("nature_downloader_file_unverified");
    StartsWithALetter("nature_downloader_format_unsupported");
    StartsWithALetter("acquisition_missing");
  }

  lemma StartsWithALetter(code: string)
    requires 1 <= |code| <= 256 && !SpacePoint(code[0] as int)
    ensures StoredCode(code)
  {
    assert Points(code)[0] in Points(code);
  }

  // ----- What a provider row becomes ----------------------------------------------------

  /** The name in letters of either case. */
  predicate SpelledAs(s: string, name: string) {
    |s| == |name| && forall i | 0 <= i < |s| :: s[i] == name[i] || ('A' <= s[i] <= 'Z' && s[i] - 'A' + 'a' == name[i])
  }

  const FORMATS := {"pdf", "html", "xml"}

  predicate NamesFormat(named: Option<Json>, format: string) {
    && format in FORMATS && named.Some? && named.value.Text?
    && (SpelledAs(named.value.s, format)
        || (format == "xml" && (SpelledAs(named.value.s, "jats") || SpelledAs(named.value.s, "jats_xml"))))
  }

  predicate SuffixIsOf(suffix: string, format: string) {
    && format in FORMATS
    && (SpelledAs(suffix, "." + format) || (format == "html" && SpelledAs(suffix, ".htm")))
  }

  /** The format that the row names, else the one of the suffix. */
  predicate HasFormat(named: Option<Json>, suffix: string, format: string) {
    || NamesFormat(named, format)
    || (SuffixIsOf(suffix, format) && !exists other | other in FORMATS :: NamesFormat(named, other))
  }

  predicate RowStatus(raw: Json, statuses: set<string>) {
    raw.Dict? && "status" in raw.m && raw.m["status"].Text? && raw.m["status"].s in statuses
  }

  /** The row claims success for a plain file of the target directory. */
  predicate RowHasFile(raw: Json, files: FileSystem) {
    && RowStatus(raw, SUCCESS_STATUSES)
    && "file" in raw.m && raw.m["file"].Text? && raw.m["file"].s != "" && files.probe(raw.m["file"].s).acceptable
  }

  /** A row is obtained exactly if it claims success for an acceptable file of a known format, and then
      with that file and format; it waits for the user exactly if its status says so. */
  lemma MappedRow(paperId: string, raw: Json, files: FileSystem)
    ensures var r := MapNatureResult(paperId, raw, files);
      && (r.status == OBTAINED <==>
            RowHasFile(raw, files)
            && exists format | format in FORMATS ::
                 HasFormat(Field(raw.m, "format"), files.probe(raw.m["file"].s).suffix, format))
      && (r.status == OBTAINED ==>
            && r.path == Text(files.probe(raw.m["file"].s).resolved)
            && r.format.Text? && HasFormat(Field(raw.m, "format"), files.probe(raw.m["file"].s).suffix, r.format.s))
      && (r.status == WAITING_USER <==> RowStatus(raw, WAITING_STATUSES))
  {
    hide ValidResult, HasFormat, NormalizedFormat, PlainCode, StoredCode;
    if RowHasFile(raw, files) {
      FormatIsFound(Field(raw.m, "format"), files.probe(raw.m["file"].s).suffix);
    }
  }

  /** The code of a row that is not obtained: its own status wherever that can be a code. */
  lemma FailedRow(paperId: string, raw: Json, files: FileSystem)
    requires MapNatureResult(paperId, raw, files).status != OBTAINED
    ensures var failure := MapNatureResult(paperId, raw, files).failure;
      && failure.Dict? && "code" in failure.m
      && var code := failure.m["code"];
      && (!raw.Dict? ==> code == Text("nature_downloader_result_invalid"))
      && (RowStatus(raw, SUCCESS_STATUSES) && !RowHasFile(raw, files) ==>
            code == Text("nature_downloader_file_unverified"))
      && (RowHasFile(raw, files) ==> code == Text("nature_downloader_format_unsupported"))
      && (raw.Dict? && !RowStatus(raw, SUCCESS_STATUSES) ==>
            if "status" !in raw.m || !raw.m["status"].Text? then code == Text("unknown")
            else if PlainCode(raw.m["status"].s) || RowStatus(raw, WAITING_STATUSES) then code == raw.m["status"]
            else code == Text("acquisition_missing"))
  {
    hide ValidResult, StoredCode, PlainCode, DownloadedResult;
    UnknownIsPlain();
    if RowStatus(raw, SUCCESS_STATUSES) {
      FailedDownload(paperId, raw.m, files);
    }
  }

  lemma FailedDownload(paperId: string, row: map<string, Json>, files: FileSystem)
    requires DownloadedResult(paperId, row, files).status != OBTAINED
    ensures var failure := DownloadedResult(paperId, row, files).failure;
      && failure.Dict? && "code" in failure.m
      && failure.m["code"] ==
         if "file" in row && row["file"].Text? && row["file"].s != "" && files.probe(row["file"].s).acceptable
         then Text("nature_downloader_format_unsupported") else Text("nature_downloader_file_unverified")
  {
    hide ValidResult, NormalizedFormat, StoredCode;
  }

  lemma UnknownIsPlain()
    ensures PlainCode("unknown")
    ensures "unknown" !in SUCCESS_STATUSES + WAITING_STATUSES
  {
  }

  lemma FormatIsFound(named: Option<Json>, suffix: string)
    ensures var format := NormalizedFormat(named, suffix);
      && (format in FORMATS ==> HasFormat(named, suffix, format))
      && (format !in FORMATS ==> forall other | other in FORMATS :: !HasFormat(named, suffix, other))
  {
    hide SpelledAs, LowerAscii;
    var texts := {suffix, if named.Some? && named.value.Text? then named.value.s else ""};
    assert ".pdf" == "." + "pdf" && ".html" == "." + "html" && ".xml" == "." + "xml";
    forall s, name | s in texts && name in {"pdf", "html", "xml", "jats", "jats_xml", ".pdf", ".html", ".htm", ".xml"}
      ensures LowerAscii(s) == name <==> SpelledAs(s, name)
    {
      LowerIsSpelledAs(s, name);
    }
  }

  lemma LowerIsSpelledAs(s: string, name: string)
    requires forall c | c in name :: !('A' <= c <= 'Z')
    ensures LowerAscii(s) == name <==> SpelledAs(s, name)
  {
    if SpelledAs(s, name) {
      forall i | 0 <= i < |s| ensures LowerAscii(s)[i] == name[i] {
        assert name[i] in name;
      }
    } else if LowerAscii(s) == name {
      forall i | 0 <= i < |s| ensures s[i] == name[i] || ('A' <= s[i] <= 'Z' && s[i] - 'A' + 'a' == name[i]) {
        assert LowerAscii(s)[i] == name[i];
      }
    }
  }
}
