/**
 * The "upload to Discloud" action: it needs a `discloud.config` in the
 * project and an API token, packs the project, and posts the archive as one
 * `application/zip` file part named after the project directory.
 */
module UploadProject {
  import opened Base
  import opened Text
  import opened ProjectArchive
  import opened Multipart
  import opened Response
  import opened ApiToken

  /** `"${File(projectPath).name}-project.zip"` */
  function UploadFileName(projectDir: string): string
  {
    projectDir + "-project.zip"
  }

  /**
   * `uploadBytesToUploadEndpoint`: writes the archive as one file part and
   * renders the server's reply to that body. `server` stands for the
   * connection: the reply it gives to the request body.
   */
  method UploadBytes(bytes: seq<byte>, filename: string, millis: nat, server: seq<byte> -> HttpReply, parse: string -> JsonView)
    returns (body: seq<byte>, result: string)
    ensures body == FilePartBody(Boundary(millis), filename, "application/zip", bytes)
    ensures result == Rendered(filename, server(body), parse)
  {
    var out := new DataOutput();
    WriteFilePart(out, Boundary(millis), filename, "application/zip", bytes);
    body := out.written;
    result := Rendered(filename, server(body), parse);
  }

  /** How a run of the action ends. */
  datatype UploadRun =
    | NoConfig
    | NoToken
    | ZipFailed(token: string)
    | Uploaded(token: string, filename: string, body: seq<byte>, result: string)

  /**
   * `actionPerformed`: nothing happens without `discloud.config`; without a
   * token the action stops with an error; a project that cannot be packed
   * is reported and nothing is sent; otherwise the archive is uploaded.
   * `zip` stands for the zip container format.
   */
  method UploadAction(configExists: bool, stored: Option<string>, input: Option<string>, projectDir: string,
                      walk: seq<WalkItem>, sep: char, zip: seq<Entry> -> seq<byte>, millis: nat,
                      server: seq<byte> -> HttpReply, parse: string -> JsonView)
    returns (run: UploadRun)
    ensures !configExists ==> run == NoConfig
    ensures configExists && ResolveToken(stored, input).None? ==> run == NoToken
    ensures configExists && ResolveToken(stored, input).Some? && Pack(walk, sep).None? ==>
      run == ZipFailed(ResolveToken(stored, input).value)
    ensures configExists && ResolveToken(stored, input).Some? && Pack(walk, sep).Some? ==>
      var fn := UploadFileName(projectDir);
      var body := FilePartBody(Boundary(millis), fn, "application/zip", zip(Pack(walk, sep).value));
      run == Uploaded(ResolveToken(stored, input).value, fn, body, Rendered(fn, server(body), parse))
  {
    if !configExists {
      return NoConfig;
    }
    var token := ResolveToken(stored, input);
    if token.None? {
      return NoToken;
    }
    var archive := ZipProject(walk, sep);
    if archive.None? {
      return ZipFailed(token.value);
    }
    var filename := UploadFileName(projectDir);
    var body, result := UploadBytes(zip(archive.value), filename, millis, server, parse);
    run := Uploaded(token.value, filename, body, result);
  }

  /** `-project.zip` holds no line break. */
  lemma ZipSuffixSingleLine()
    ensures SingleLine(Latin1("-project.zip"))
  {
    assert Printable("-project.zip");
    PrintableSingleLine("-project.zip");
  }

  /** `application/zip` holds no line break. */
  lemma ZipTypeSingleLine()
    ensures SingleLine(Latin1("application/zip"))
  {
    assert Printable("application/zip");
    PrintableSingleLine("application/zip");
  }

  lemma UploadLiteralsSingleLine()
    ensures SingleLine(Latin1("-project.zip")) && SingleLine(Latin1("application/zip"))
  {
    ZipSuffixSingleLine();
    ZipTypeSingleLine();
  }

  /**
   * The uploaded body reads back as one part whose headers name the upload
   * file and `application/zip`, carrying the archive bytes unchanged, when the
   * project directory's name has no line break once written as bytes and the
   * archive does not contain the delimiter.
   */
  lemma UploadBodyReadsBack(projectDir: string, archive: seq<byte>, millis: nat)
    requires SingleLine(Latin1(projectDir))
    requires !Contains(archive, Delimiter(Boundary(millis)))
    ensures ParseFilePart(FilePartBody(Boundary(millis), UploadFileName(projectDir), "application/zip", archive), Boundary(millis))
      == Some(PartView(PartHeaders(UploadFileName(projectDir), "application/zip"), archive))
  {
    UploadLiteralsSingleLine();
    SingleLineAppend(projectDir, "-project.zip");
    SentPartRoundTrip(millis, UploadFileName(projectDir), "application/zip", archive);
  }

  /**
   * The message shown after an upload names the upload file and tells the
   * outcome of the reply, when the directory name has no line break and no colon.
   */
  lemma UploadResultReadsBack(projectDir: string, reply: HttpReply, parse: string -> JsonView)
    requires '\n' !in projectDir && ':' !in projectDir
    ensures ReadBack(Rendered(UploadFileName(projectDir), reply, parse)) == Some(OutcomeOf(UploadFileName(projectDir), reply, parse))
  {
    var fn := UploadFileName(projectDir);
    assert '\n' !in "-project.zip" && ':' !in "-project.zip";
    assert '\n' !in fn && ':' !in fn;
    ColonFreeName(fn);
    ReadBackRender(OutcomeOf(fn, reply, parse));
  }
}
