# Discloud plugin: a Dafny model of its core

The Discloud plugin for IntelliJ deploys projects to the Discloud hosting
service. This project models the parts of it that compute something:

- **Project archive** (`archive.dfy`, module `ProjectArchive`). The
  "upload" action walks the project tree. It skips directories and every
  path under `.git`, `node_modules`, `venv`, `__pycache__`, `target`,
  `build`, `.idea` or `.gradle`, whatever their case. It names each entry by
  its relative path with `/` separators. One unreadable file discards the
  whole archive.
- **Multipart body** (`multipart.dfy`, module `Multipart`). Both upload
  actions write one `file` part to a `DataOutputStream`:
  - the opening boundary line;
  - the `Content-Disposition: form-data` and `Content-Type` headers;
  - the payload, unchanged;
  - the close-delimiter.

  The stream is a class whose `written` field the write methods extend. A
  receiver-side reader, `ParseFilePart`, follows section 5.1.1 of RFC 2046
  and section 4.2 of RFC 7578. The body is proved to read back as the
  headers and the payload.
- **Result message** (`response.dfy`, module `Response`). It is
  `Enviado {file} → Status: {code}` followed by a line with the JSON
  `message` field or the raw reply text. On an exception it is
  `Erro ao enviar {file}: {message}`. A reader, `ReadBack`, recovers the
  outcome from the text.
- **API token** (`token.dfy`, module `ApiToken`). A missing or blank stored
  token triggers a prompt, and a blank answer stops the action.
- **Upload action** (`upload.dfy`, module `UploadProject`).
- **Config generator** (`config.dfy`, module `DiscloudConfig`). It builds
  `discloud.config` from the dialog answers:
  - defaults replace blank answers;
  - there are BOT and SITE templates;
  - Kotlin's `trimIndent` is modelled line by line.

  The written file is proved to be the template lines joined by `\n`.
  Cutting each line at `=` gives back every key and value.
- **Commit action** (`commit.dfy`, module `Commit`):
  - it is enabled only when a `jar` is selected;
  - there is one commit per selected jar, in order;
  - it lists the user's apps (`fetchUserApps` / `fetchAppInfoSync`).
- **Tool window** (`toolwindow.dfy`, module `ToolWindow`):
  - the app, combo and member rows, and how the selected row's id is read
    back;
  - permission-list parsing;
  - RAM validation on both tabs.
- `text.dfy` (module `Text`) gives the Kotlin string operations the core
  uses: `indexOf`, `lastIndexOf`, `substringBefore/After(Last)`, `split`,
  `joinToString`, `trim`, `isBlank`, `lowercase`, `Int.toString` and
  `toIntOrNull`. `base.dfy` (module `Base`) holds `Option`, `Result` and
  `byte`.

Things outside the model are parameters:

- the clock reading is `millis`;
- the HTTP endpoints are functions from the request body to an `HttpReply`;
- `org.json` is a function from text to a `JsonView`;
- the zip container encoding is a function from entries to bytes;
- dialog answers are `Option<string>`, with `None` for a cancelled dialog.

## Model

Source paths are relative to the repository root.

| member | source | states |
|---|---|---|
| ProjectArchive.ShouldExcludeIffUnderExcluded | src/main/kotlin/com/discloudplugin/discloud/actions/UploadProjectToDiscloud.kt:108-119 | The eight tests amount to one: for some excluded name, the lowercased path starts with `name/` or contains `/name/`. |
| ProjectArchive.UnderDirectoryIffSegment | src/main/kotlin/com/discloudplugin/discloud/actions/UploadProjectToDiscloud.kt:110-117 | For a name without `/`, `startsWith("name/") \|\| contains("/name/")` holds iff some `/`-segment other than the last equals the name. |
| ProjectArchive.ShouldExcludeIffExcludedSegment | src/main/kotlin/com/discloudplugin/discloud/actions/UploadProjectToDiscloud.kt:108-119 | A path is excluded iff one of its lowercased directory segments is an excluded name. |
| ProjectArchive.ShouldExcludeIgnoresCase | src/main/kotlin/com/discloudplugin/discloud/actions/UploadProjectToDiscloud.kt:109 | A path and its lowercase form are excluded alike. |
| ProjectArchive.RootFileKept | src/main/kotlin/com/discloudplugin/discloud/actions/UploadProjectToDiscloud.kt:115 | A root file named `build` is not excluded. |
| ProjectArchive.TwoSegments | src/main/kotlin/com/discloudplugin/discloud/actions/UploadProjectToDiscloud.kt:110-117 | In `dir/file`, only `dir` counts as a directory segment. |
| ProjectArchive.ContainingNameKept | src/main/kotlin/com/discloudplugin/discloud/actions/UploadProjectToDiscloud.kt:114 | `mytarget/x` is not excluded: a segment that merely contains `target` does not match. |
| ProjectArchive.UpperCaseDirectoryExcluded | src/main/kotlin/com/discloudplugin/discloud/actions/UploadProjectToDiscloud.kt:109-115 | Any path with a `Build` directory segment, such as `src/Build/x`, is excluded. |
| ProjectArchive.EntryNameNormalised | src/main/kotlin/com/discloudplugin/discloud/actions/UploadProjectToDiscloud.kt:94 | An entry name holds no platform separator other than `/`. A path already using `/` is kept as is. Normalising twice changes nothing. |
| ProjectArchive.PackNonePersists | src/main/kotlin/com/discloudplugin/discloud/actions/UploadProjectToDiscloud.kt:103-105 | Once a kept file fails to read, the archive stays discarded whatever the walk holds after it. |
| ProjectArchive.PackFailsIff | src/main/kotlin/com/discloudplugin/discloud/actions/UploadProjectToDiscloud.kt:88-105 | Packing yields no archive iff some regular, non-excluded file cannot be read. |
| ProjectArchive.PackEntriesAreKeptFiles | src/main/kotlin/com/discloudplugin/discloud/actions/UploadProjectToDiscloud.kt:93-100 | A packed archive has one entry per kept file, in walk order. Each entry is named by the normalised path, is not excluded, comes from a regular file and holds exactly the bytes read. |
| ProjectArchive.ZipProject | src/main/kotlin/com/discloudplugin/discloud/actions/UploadProjectToDiscloud.kt:88-106 | The loop over the walk produces exactly `Pack(walk, sep)`: the entries above, or no archive. |
| Multipart.Units | src/main/kotlin/com/discloudplugin/discloud/actions/UploadProjectToDiscloud.kt:133-139 | A character is one UTF-16 code unit below U+10000 and two above it, each unit below 0x10000. |
| Multipart.Utf16RoundTrip | src/main/kotlin/com/discloudplugin/discloud/actions/UploadProjectToDiscloud.kt:133-139 | Decoding the UTF-16 code units of a string gives the string back, so the JVM's `char` sequence is a faithful view of the text. |
| Multipart.Latin1 | src/main/kotlin/com/discloudplugin/discloud/actions/UploadProjectToDiscloud.kt:133-139 | `writeBytes` emits one byte per UTF-16 code unit (the JVM's `char`), its low eight bits. |
| Multipart.Latin1Basic | src/main/kotlin/com/discloudplugin/discloud/actions/UploadProjectToDiscloud.kt:133-139 | Text below U+10000 is written one byte per character, the character's low eight bits. |
| Multipart.SupplementaryTwoBytes | src/main/kotlin/com/discloudplugin/discloud/actions/UploadProjectToDiscloud.kt:134 | U+1F600 is written as the two bytes 0x3D and 0x00, the low bytes of its surrogates. |
| Multipart.SupplementaryCarriageReturn | src/main/kotlin/com/discloudplugin/discloud/actions/UploadProjectToDiscloud.kt:134 | A file name holding U+13400 puts a carriage return into the header, so the round-trip lemmas exclude it. |
| Multipart.DataOutput.constructor | src/main/kotlin/com/discloudplugin/discloud/actions/UploadProjectToDiscloud.kt:132 | A new stream has nothing written. |
| Multipart.DataOutput.WriteBytes | src/main/kotlin/com/discloudplugin/discloud/actions/UploadProjectToDiscloud.kt:133 | Walks the UTF-16 code units and appends the low byte of each, which is `Latin1(s)`. |
| Multipart.DataOutput.Write | src/main/kotlin/com/discloudplugin/discloud/actions/UploadProjectToDiscloud.kt:137 | Appends the bytes unchanged. |
| Multipart.WriteFilePart | src/main/kotlin/com/discloudplugin/discloud/actions/UploadProjectToDiscloud.kt:132-141 | The five writes append exactly `FilePartBody`: the boundary line, the two header lines and an empty line, the payload, then the close-delimiter. |
| Multipart.HeadersHaveNoBlankLine | src/main/kotlin/com/discloudplugin/discloud/actions/UploadProjectToDiscloud.kt:134-135 | With single-line header values, the first empty line is the one after `Content-Type`. |
| Multipart.FilePartRoundTrip | src/main/kotlin/com/discloudplugin/discloud/actions/UploadProjectToDiscloud.kt:132-141 | A receiver reads the body back as the two headers and the payload unchanged. This needs single-line boundary, file name and content type, and a payload free of the delimiter. |
| Multipart.BoundarySingleLine | src/main/kotlin/com/discloudplugin/discloud/actions/UploadProjectToDiscloud.kt:123 | `----DiscloudBoundary{millis}` is printable ASCII, so it has no line break. |
| Multipart.SentPartRoundTrip | src/main/kotlin/com/discloudplugin/discloud/actions/UploadProjectToDiscloud.kt:123-141 | The body sent with the clock-derived boundary reads back as the file's headers and its bytes whenever the payload does not contain the delimiter. |
| Response.OutcomeOf | src/main/kotlin/com/discloudplugin/discloud/actions/UploadProjectToDiscloud.kt:142-156 | The outcome names the file, and it is a failure exactly when the connection threw. |
| Response.ReadBackSent | src/main/kotlin/com/discloudplugin/discloud/actions/UploadProjectToDiscloud.kt:150 | From `Enviado {file} → Status: {code}\n{msg}`, the file, code and message are recovered when the file name has no line break. |
| Response.ReadBackNotSent | src/main/kotlin/com/discloudplugin/discloud/actions/UploadProjectToDiscloud.kt:155 | From `Erro ao enviar {file}: {reason}`, the file and reason are recovered when the file name has no `": "`. |
| Response.ReadBackRender | src/main/kotlin/com/discloudplugin/discloud/actions/UploadProjectToDiscloud.kt:148-156 | `ReadBack` inverts the rendering of every outcome under those conditions. |
| Response.RenderedReports | src/main/kotlin/com/discloudplugin/discloud/actions/UploadProjectToDiscloud.kt:142-156 | The shown message carries the file name and one of the following: the exception message (`null` if none); the status with the JSON message of the body on 2xx; the error body otherwise; or `Erro desconhecido` when there is no error body. |
| ApiToken.ResolveToken | src/main/kotlin/com/discloudplugin/discloud/actions/UploadProjectToDiscloud.kt:36-50 | A non-blank stored token is used. Otherwise the entered text is used iff it is not blank, and the action stops if it is blank. A token that goes on is never blank. The tool window's lines 24-38 do the same. |
| ApiToken.ResolveTokenStable | src/main/kotlin/com/discloudplugin/discloud/actions/UploadProjectToDiscloud.kt:48-49 | Once stored, the resolved token is used again without a prompt. |
| UploadProject.UploadBytes | src/main/kotlin/com/discloudplugin/discloud/actions/UploadProjectToDiscloud.kt:121-157 | Writes the `application/zip` part for the archive bytes and returns the rendering of the server's reply to that body. |
| UploadProject.UploadAction | src/main/kotlin/com/discloudplugin/discloud/actions/UploadProjectToDiscloud.kt:31-86 | Without `discloud.config` nothing happens. Without a token the action stops. When packing fails, nothing is sent. Otherwise `{dir}-project.zip` is sent, holding the packed entries, and the rendered reply is returned. |
| UploadProject.UploadLiteralsSingleLine | src/main/kotlin/com/discloudplugin/discloud/actions/UploadProjectToDiscloud.kt:69 | `-project.zip` and `application/zip` hold no line break. |
| UploadProject.UploadBodyReadsBack | src/main/kotlin/com/discloudplugin/discloud/actions/UploadProjectToDiscloud.kt:132-141 | The uploaded body reads back as a part named `{dir}-project.zip`, typed `application/zip`, carrying the archive unchanged. |
| UploadProject.UploadResultReadsBack | src/main/kotlin/com/discloudplugin/discloud/actions/UploadProjectToDiscloud.kt:148-156 | The message after an upload determines its outcome when the directory name has no line break or colon. |
| DiscloudConfig.IndexOfOption | src/main/kotlin/com/discloudplugin/discloud/actions/CreateDiscloudConfig.kt:24 | `indexOf` gives the first matching position, or -1 iff the value is absent. |
| DiscloudConfig.KindOfBot | src/main/kotlin/com/discloudplugin/discloud/actions/CreateDiscloudConfig.kt:23-24 | The BOT template is chosen iff the chosen value is `"BOT"`. Any other value gives SITE. |
| DiscloudConfig.TrimmedOr | src/main/kotlin/com/discloudplugin/discloud/actions/CreateDiscloudConfig.kt:27-32 | A cancelled or blank answer gives the default. Otherwise the answer is trimmed. |
| DiscloudConfig.SettingsOf | src/main/kotlin/com/discloudplugin/discloud/actions/CreateDiscloudConfig.kt:23-49 | No file is written iff the type or name dialog is cancelled. |
| DiscloudConfig.Defaults | src/main/kotlin/com/discloudplugin/discloud/actions/CreateDiscloudConfig.kt:27-49 | Blank or cancelled answers default as follows: avatar is the default image, main is `index.js`, RAM is `100` for BOT and `512` otherwise, version is `latest` and apt is `tools`. A cancelled autorestart gives `false`, and cancelled start or build gives `""`. |
| DiscloudConfig.SettingsTrimmed | src/main/kotlin/com/discloudplugin/discloud/actions/CreateDiscloudConfig.kt:26-49 | Every value is trimmed except autorestart, which is taken as chosen. |
| DiscloudConfig.Lines | src/main/kotlin/com/discloudplugin/discloud/actions/CreateDiscloudConfig.kt:63 | `lines()` gives at least one line, and no line holds a line break. |
| DiscloudConfig.MinIndent | src/main/kotlin/com/discloudplugin/discloud/actions/CreateDiscloudConfig.kt:63 | The common indent is the least indent of the non-blank lines. There is none iff every line is blank. |
| DiscloudConfig.LinesOfTemplate | src/main/kotlin/com/discloudplugin/discloud/actions/CreateDiscloudConfig.kt:52-63 | The raw template splits into an empty first line, each indented line, and the closing margin. |
| DiscloudConfig.MinIndentOfTemplateLines | src/main/kotlin/com/discloudplugin/discloud/actions/CreateDiscloudConfig.kt:52-63 | The common indent of the template is its 12-space margin. |
| DiscloudConfig.DropMargins | src/main/kotlin/com/discloudplugin/discloud/actions/CreateDiscloudConfig.kt:52-63 | Removing the margin from each indented line gives the lines back. |
| DiscloudConfig.TrimIndentTemplate | src/main/kotlin/com/discloudplugin/discloud/actions/CreateDiscloudConfig.kt:52-63 | `trimIndent` of the template is its lines joined by `\n`. |
| DiscloudConfig.EntriesShape | src/main/kotlin/com/discloudplugin/discloud/actions/CreateDiscloudConfig.kt:51-77 | BOT has 10 keys and SITE has 11 with `ID` third, in the source's order. Keys are capital letters. |
| DiscloudConfig.ConfigRoundTrip | src/main/kotlin/com/discloudplugin/discloud/actions/CreateDiscloudConfig.kt:51-77 | With single-line values, the file is the `KEY=VALUE` lines joined by `\n`. Cutting each line at its first `=` gives back every key, in order, with its value. |
| Commit.Extension | src/main/kotlin/com/discloudplugin/discloud/actions/CommitDiscloudAction.kt:31 | The extension is absent iff the name has no dot. Otherwise it is the dot-free text after the last dot. |
| Commit.IsJarIffSuffix | src/main/kotlin/com/discloudplugin/discloud/actions/CommitDiscloudAction.kt:31 | A file is a jar iff its name ends in `.jar`, compared case-sensitively. |
| Commit.Jars | src/main/kotlin/com/discloudplugin/discloud/actions/CommitDiscloudAction.kt:67 | The filter keeps exactly the selected jars. |
| Commit.JarsAppend | src/main/kotlin/com/discloudplugin/discloud/actions/CommitDiscloudAction.kt:67 | The filter keeps selection order: filtering a concatenation filters each part. |
| Commit.Enabled | src/main/kotlin/com/discloudplugin/discloud/actions/CommitDiscloudAction.kt:29-32 | Enabled iff there is a selection and it holds at least one jar. |
| Commit.CommitOutcome | src/main/kotlin/com/discloudplugin/discloud/actions/CommitDiscloudAction.kt:146-189 | The outcome names the file. It is a failure iff the file cannot be read or the connection throws. |
| Commit.CommitToDiscloud | src/main/kotlin/com/discloudplugin/discloud/actions/CommitDiscloudAction.kt:146-189 | An unreadable file sends nothing. Otherwise the body is the file's `application/octet-stream` part. The result is the rendered outcome. |
| Commit.CommitAll | src/main/kotlin/com/discloudplugin/discloud/actions/CommitDiscloudAction.kt:67-77 | There is one result per selected jar, in selection order. Each is that jar's commit result. |
| Commit.CommitBodyReadsBack | src/main/kotlin/com/discloudplugin/discloud/actions/CommitDiscloudAction.kt:161-170 | The commit body reads back as a part with the file's name, `application/octet-stream` and the bytes unchanged. |
| Commit.CommitResultReadsBack | src/main/kotlin/com/discloudplugin/discloud/actions/CommitDiscloudAction.kt:171-188 | The message shown for a commit determines its outcome. |
| Commit.FetchAppInfo | src/main/kotlin/com/discloudplugin/discloud/actions/CommitDiscloudAction.kt:126-144 | An app is found iff the reply is readable, its status is `ok`, and id and name are present. A missing avatar becomes `""`. |
| Commit.FetchDescribed | src/main/kotlin/com/discloudplugin/discloud/actions/CommitDiscloudAction.kt:135-140 | An app described with status `ok` is fetched as itself. |
| Commit.Known | src/main/kotlin/com/discloudplugin/discloud/actions/CommitDiscloudAction.kt:112-117 | Reference list: at most one app per id, each being what some id's lookup returned. |
| Commit.CollectStrings | src/main/kotlin/com/discloudplugin/discloud/actions/CommitDiscloudAction.kt:112-118 | When every id is a string, the loop's list is the reference list: apps in id order, skipping ids whose lookup returned null. |
| Commit.CollectFailsIff | src/main/kotlin/com/discloudplugin/discloud/actions/CommitDiscloudAction.kt:113-123 | Collecting fails iff some entry is not a string. |
| Commit.FetchUserApps | src/main/kotlin/com/discloudplugin/discloud/actions/CommitDiscloudAction.kt:100-124 | The loop returns `UserApps`, which is empty in these cases: an unreadable reply, a status other than `ok`, no app list, or a non-string entry. |
| Commit.UserAppsInOrder | src/main/kotlin/com/discloudplugin/discloud/actions/CommitDiscloudAction.kt:110-118 | With status `ok`, the listed apps are the reference list. Otherwise the list is empty. |
| Commit.CommitAction | src/main/kotlin/com/discloudplugin/discloud/actions/CommitDiscloudAction.kt:34-87 | It stops without a selection or a stored token, and when the app list is empty. Nothing is committed without a pick. Otherwise it commits every selected jar to the app picked. |
| ToolWindow.IdAfterLast | src/main/kotlin/com/discloudplugin/discloud/ui/DiscloudToolWindowFactory.kt:82-86 | The selected text is refused iff it lacks the separator. An extracted id is trimmed. The Apps tab reads rows at `"- "` (`AppIdOf`); the Team tab reads combo items at `" - "` (`ComboIdOf`, lines 296-300). |
| ToolWindow.AppIdRoundTrip | src/main/kotlin/com/discloudplugin/discloud/ui/DiscloudToolWindowFactory.kt:70-86 | An app row gives back the trimmed id whenever the id holds no `"- "`. |
| ToolWindow.AppIdExact | src/main/kotlin/com/discloudplugin/discloud/ui/DiscloudToolWindowFactory.kt:70-86 | A trimmed id without `"- "` comes back unchanged. |
| ToolWindow.ErrorRowGuard | src/main/kotlin/com/discloudplugin/discloud/ui/DiscloudToolWindowFactory.kt:74-86 | The `Erro: …` row passes the guard iff its message holds `"- "`. |
| ToolWindow.ComboIdRoundTrip | src/main/kotlin/com/discloudplugin/discloud/ui/DiscloudToolWindowFactory.kt:283-300 | A combo item gives back the trimmed id when the id has no `" - "` and does not start with `"- "`. |
| ToolWindow.ComboIdDashedId | src/main/kotlin/com/discloudplugin/discloud/ui/DiscloudToolWindowFactory.kt:283-300 | The id `"- x"` comes back as `"x"`, so the second condition is needed. |
| ToolWindow.ModIdOf | src/main/kotlin/com/discloudplugin/discloud/ui/DiscloudToolWindowFactory.kt:343-348 | A member row is refused iff it lacks `" - "`. An extracted modID is trimmed. |
| ToolWindow.ModIdRoundTrip | src/main/kotlin/com/discloudplugin/discloud/ui/DiscloudToolWindowFactory.kt:305-348 | A member row gives back the trimmed modID when the modID has no `" - "` and does not end with `" -"`. |
| ToolWindow.ModIdDashedId | src/main/kotlin/com/discloudplugin/discloud/ui/DiscloudToolWindowFactory.kt:305-348 | The modID `"a -"` comes back as `"a"`, so the second condition is needed. |
| ToolWindow.TrimEach | src/main/kotlin/com/discloudplugin/discloud/ui/DiscloudToolWindowFactory.kt:325 | `map { it.trim() }` trims each piece, in place. |
| ToolWindow.NonEmpty | src/main/kotlin/com/discloudplugin/discloud/ui/DiscloudToolWindowFactory.kt:325 | `filter { it.isNotEmpty() }` keeps exactly the non-empty pieces. |
| ToolWindow.ParsePerms | src/main/kotlin/com/discloudplugin/discloud/ui/DiscloudToolWindowFactory.kt:325 | Every parsed permission is non-empty, trimmed and free of commas. |
| ToolWindow.PermsRoundTrip | src/main/kotlin/com/discloudplugin/discloud/ui/DiscloudToolWindowFactory.kt:305-325 | Parsing the `,`-join of a well-formed list gives the list back, including the empty list. |
| ToolWindow.CheckRam | src/main/kotlin/com/discloudplugin/discloud/ui/DiscloudToolWindowFactory.kt:195-199 | A RAM amount is accepted iff it parses as an `Int` greater than 0, and then it is that `Int`. |
| ToolWindow.BlankNeverParses | src/main/kotlin/com/discloudplugin/discloud/ui/DiscloudToolWindowFactory.kt:194-196 | Blank text never parses as an `Int`. |
| ToolWindow.RamTabsAgree | src/main/kotlin/com/discloudplugin/discloud/ui/DiscloudToolWindowFactory.kt:493-500 | Both tabs accept the same amounts. They differ only on blank text: the Apps tab cancels silently and the Team tab rejects it. |
| ToolWindow.ShownRamAccepted | src/main/kotlin/com/discloudplugin/discloud/ui/DiscloudToolWindowFactory.kt:193-199 | A positive amount, written as an app row shows it, is accepted as that amount on both tabs. |
| Text.Trim | src/main/kotlin/com/discloudplugin/discloud/actions/CreateDiscloudConfig.kt:26 | `trim()` removes whitespace from both ends only. The result is empty iff the input is blank. |
| Text.SplitJoin | src/main/kotlin/com/discloudplugin/discloud/ui/DiscloudToolWindowFactory.kt:325 | `split` undoes `joinToString` when no piece holds the separator. |
| Text.IntToStringRoundTrip | src/main/kotlin/com/discloudplugin/discloud/ui/DiscloudToolWindowFactory.kt:195 | `toIntOrNull` of an `Int`'s decimal text gives that `Int`. |
| Text.ToIntOrNull | src/main/kotlin/com/discloudplugin/discloud/ui/DiscloudToolWindowFactory.kt:195 | A parsed value fits 32 bits, and the text holds at least one digit. |

Notes on where the code and its description differ, and what the code is
taken to do:

- AUTORESTART is written as the dialog returned it, without trimming
  (CreateDiscloudConfig.kt:42). Every other value is trimmed.
- The commit action does not check that the stored token is non-blank
  (CommitDiscloudAction.kt:36). A blank token is used as it is.
- `Messages.showChooseDialog` is given an arbitrary string result here. If
  it returns the chosen index instead, `toString()` never equals `"BOT"`, so
  the SITE template is always used and AUTORESTART reads `0`, `1` or `-1`.
- The round trips for combo items and member rows need one more condition
  than "trimmed and free of `" - "`". The id must not start with `"- "`, and
  the modID must not end with `" -"`. `ComboIdDashedId` and `ModIdDashedId`
  show why.
- The error row `Erro: {message}` passes the app actions' `"- "` guard
  whenever the message holds `"- "`. The text after it is then taken as an
  id (`ErrorRowGuard`).

## Left out

- HTTP transport: connections, headers, chunked streaming, URLs and the
  API client. Each endpoint is a function from the request body to an
  `HttpReply`. The commits of one run are indexed by call number, so their
  replies can differ.
- The request headers `api-token`, `Accept` and `Content-Type`, and the
  endpoint URLs. In particular, the app id in the commit URL is only the
  choice of `server(id)`.
- The zip container format and DEFLATE. The archive is its list of entries,
  and the bytes sent are `zip(entries)` for an abstract `zip`.
- Filesystem walking and reading: the walk is a list of `WalkItem`s, each
  with its read result.
- `org.json` parsing: a function to `JsonView`.
- Swing and IntelliJ UI: dialogs, popups, list widgets, icons, and
  `makeRounded` (float geometry). Dialog answers and the popup's pick are
  parameters. A pick past the end of the list selects nothing.
- Threading (`executeOnPooledThread`, futures, `ProgressManager`,
  `invokeLater`). It only keeps the UI thread free.
- Settings persistence (`ApiKeyState`, `ApiKeyConfigurable`,
  `PluginLauncher`) and `ShowDiscloudToolWindow`. The token write-back is
  only the value `ResolveToken` returns.
- The upload action's `update` (enabled when the project has a base path)
  and its outer `Erro: …` catch. That catch is reached only by exceptions
  outside packing and upload, which both catch their own.
- Writing `discloud.config` to disk and refreshing the file system.
- The app actions themselves (start, restart, stop, backup, logs, delete,
  team calls). Only the id they act on is modelled. The Team Apps dialog
  rows (DiscloudToolWindowFactory.kt:390) are display-only and are not
  parsed back.
- Text.Lower: `lowercase()` is modelled for ASCII letters only. Unicode
  case mapping is not modelled.
- Text.ToIntOrNull: only ASCII digits are accepted. Kotlin also accepts
  other Unicode decimal digits.
- Commit.CommitOutcome: the failure text of an unreadable file is an
  abstract reason. The JVM's `ExecutionException` message (the cause's
  `toString()`) is not modelled.
- Multipart.Latin1: characters whose code units exceed 0xFF are cut to
  their low byte. No statement is made about file names that then collide.
- ProjectArchive.Pack: `putNextEntry` throws on a repeated entry name, which
  would make packing fail. A real walk never lists a path twice, and on one
  file system the separator replacement cannot merge two relative paths, so
  `Pack` does not model that failure.
- The boundary is never checked against the payload. Every read-back lemma
  takes "the delimiter does not occur in the payload" as a precondition.
