/**
 * The "Commit Discloud" action: it is offered when the selection holds a
 * `jar`; it lists the user's apps, lets one be picked, and commits every
 * selected `jar` to it, one multipart request per file.
 */
module Commit {
  import opened Base
  import opened Text
  import opened Multipart
  import opened Response

  /** A selected file: its name, and its bytes or the message of the read failure. */
  datatype VFile = VFile(name: string, contents: Result<seq<byte>>)

  /** `VirtualFile.extension`: the text after the last dot, or null without a dot. */
  function Extension(name: string): (r: Option<string>)
    ensures r.None? <==> '.' !in name
    ensures r.Some? ==> |r.value| < |name| && name[|name| - |r.value| - 1] == '.'
    ensures r.Some? ==> name[|name| - |r.value|..] == r.value && '.' !in r.value
  {
    match LastIndexOf(name, ".")
    case None =>
      ContainsSingle(name, '.');
      None
    case Some(i) =>
      var e := name[i + 1..];
      assert '.' !in e by {
        forall j | 0 <= j < |e|
          ensures e[j] != '.'
        {
          assert !OccursAt(name, ".", i + 1 + j);
          assert name[i + 1 + j..i + 1 + j + 1] == [e[j]];
        }
      }
      assert name[i..i + 1] == ".";
      assert name[i] == '.';
      Some(e)
  }

  /** `it.extension == "jar"`, compared case-sensitively. */
  predicate IsJar(f: VFile)
  {
    Extension(f.name) == Some("jar")
  }

  /** A file counts as a jar exactly when its name ends in `.jar`. */
  lemma IsJarIffSuffix(f: VFile)
    ensures IsJar(f) <==> |f.name| >= 4 && f.name[|f.name| - 4..] == ".jar"
  {
    var name := f.name;
    if |name| >= 4 && name[|name| - 4..] == ".jar" {
      var p := name[..|name| - 4];
      assert name == p + "." + "jar";
      assert !Contains(("." + "jar")[1..], ".") by {
        assert ("." + "jar")[1..] == "jar";
        ContainsSingle("jar", '.');
      }
      LastAtJunction(p, ".", "jar");
    }
  }

  /** `files.filter { it.extension == "jar" }`, in selection order. */
  function Jars(files: seq<VFile>): (r: seq<VFile>)
    ensures |r| <= |files|
    ensures forall f :: f in r <==> f in files && IsJar(f)
  {
    if |files| == 0 then []
    else
      var last := files[|files| - 1];
      assert files == files[..|files| - 1] + [last];
      Jars(files[..|files| - 1]) + (if IsJar(last) then [last] else [])
  }

  /** Filtering a concatenation filters each part in turn. */
  lemma {:induction false} JarsAppend(a: seq<VFile>, b: seq<VFile>)
    ensures Jars(a + b) == Jars(a) + Jars(b)
    decreases |b|
  {
    if |b| == 0 {
      assert a + b == a;
    } else {
      var b' := b[..|b| - 1];
      assert (a + b)[..|a + b| - 1] == a + b';
      JarsAppend(a, b');
    }
  }

  /** `update`: enabled and visible iff some selected file is a jar (no selection: disabled). */
  function Enabled(files: Option<seq<VFile>>): (r: bool)
    ensures r <==> files.Some? && |Jars(files.value)| > 0
  {
    match files
    case None => false
    case Some(fs) =>
      var jars := Jars(fs);
      assert |jars| > 0 ==> jars[0] in jars;
      exists f :: f in fs && IsJar(f)
  }

  const OctetStream := "application/octet-stream"

  /** The request body of one commit. */
  function CommitBody(name: string, millis: nat, bytes: seq<byte>): seq<byte>
  {
    FilePartBody(Boundary(millis), name, OctetStream, bytes)
  }

  /**
   * What `commitToDiscloud` reports: a file that cannot be read, or a
   * connection that throws, gives the failure message; otherwise the reply to
   * the body is rendered. `reply` stands for the app's commit endpoint.
   */
  function CommitOutcome(file: VFile, millis: nat, reply: seq<byte> -> HttpReply, parse: string -> JsonView): (o: Outcome)
    ensures o.filename == file.name
    ensures o.NotSent? <==> file.contents.Err? || reply(CommitBody(file.name, millis, file.contents.value)).Failed?
  {
    match file.contents
    case Err(reason) => NotSent(file.name, reason)
    case Ok(bytes) => OutcomeOf(file.name, reply(CommitBody(file.name, millis, bytes)), parse)
  }

  function CommitResult(file: VFile, millis: nat, reply: seq<byte> -> HttpReply, parse: string -> JsonView): string
  {
    Render(CommitOutcome(file, millis, reply, parse))
  }

  /**
   * `commitToDiscloud`: reads the file, writes the body piecewise, and
   * returns the message. `sent` is the body written, absent when the file
   * could not be read.
   */
  method CommitToDiscloud(file: VFile, millis: nat, reply: seq<byte> -> HttpReply, parse: string -> JsonView)
    returns (sent: Option<seq<byte>>, result: string)
    ensures sent.None? <==> file.contents.Err?
    ensures sent.Some? ==> sent.value == CommitBody(file.name, millis, file.contents.value)
    ensures result == CommitResult(file, millis, reply, parse)
  {
    match file.contents
    case Err(reason) =>
      sent := None;
      result := Render(NotSent(file.name, reason));
    case Ok(bytes) =>
      var out := new DataOutput();
      WriteFilePart(out, Boundary(millis), file.name, OctetStream, bytes);
      sent := Some(out.written);
      result := Rendered(file.name, reply(out.written), parse);
  }

  /**
   * The background task: one commit per selected jar, in selection order.
   * `clock(k)` is the time of the k-th commit and `server(k)` the reply to it.
   */
  method CommitAll(files: seq<VFile>, clock: nat -> nat, server: nat -> seq<byte> -> HttpReply, parse: string -> JsonView)
    returns (results: seq<string>)
    ensures |results| == |Jars(files)|
    ensures forall k :: 0 <= k < |results| ==> results[k] == CommitResult(Jars(files)[k], clock(k), server(k), parse)
  {
    var jars := Jars(files);
    results := [];
    var i := 0;
    while i < |jars|
      invariant 0 <= i <= |jars|
      invariant |results| == i
      invariant forall k :: 0 <= k < i ==> results[k] == CommitResult(jars[k], clock(k), server(k), parse)
    {
      var _, r := CommitToDiscloud(jars[i], clock(i), server(i), parse);
      results := results + [r];
      i := i + 1;
    }
  }

  /** The body of a commit reads back as the file's part carrying its bytes unchanged. */
  lemma CommitBodyReadsBack(name: string, millis: nat, bytes: seq<byte>)
    requires SingleLine(Latin1(name))
    requires !Contains(bytes, Delimiter(Boundary(millis)))
    ensures ParseFilePart(CommitBody(name, millis, bytes), Boundary(millis))
      == Some(PartView(PartHeaders(name, OctetStream), bytes))
  {
    assert Printable(OctetStream);
    PrintableSingleLine(OctetStream);
    SentPartRoundTrip(millis, name, OctetStream, bytes);
  }

  /** The message shown for a commit names the file and tells its outcome. */
  lemma CommitResultReadsBack(file: VFile, millis: nat, reply: seq<byte> -> HttpReply, parse: string -> JsonView)
    requires '\n' !in file.name && ':' !in file.name
    ensures ReadBack(CommitResult(file, millis, reply, parse)) == Some(CommitOutcome(file, millis, reply, parse))
  {
    ColonFreeName(file.name);
    ReadBackRender(CommitOutcome(file, millis, reply, parse));
  }

  // ---------------------------------------------------------------------------
  // Listing the user's apps
  // ---------------------------------------------------------------------------

  datatype AppInfo = AppInfo(id: string, name: string, avatarIcon: string)

  /**
   * The `apps` object of an app reply. `id` and `name` are absent when they
   * are missing or not strings (`getString` throws on both). `avatarURL` is
   * read with `optString`: it is absent only when missing or JSON null, and
   * any other value stands for its text (`toString()`).
   */
  datatype AppObject = AppObject(id: Option<string>, name: Option<string>, avatarURL: Option<string>)

  /** `/v2/app/{id}`: unreadable (any exception), or its `status` and `apps` object. */
  datatype AppReply = AppUnreadable | AppReplied(status: string, app: Option<AppObject>)

  /** `fetchAppInfoSync`: null unless the status is `ok` and the id and name are present. */
  function FetchAppInfo(reply: AppReply): (r: Option<AppInfo>)
    ensures r.Some? <==> reply.AppReplied? && reply.status == "ok" && reply.app.Some?
                         && reply.app.value.id.Some? && reply.app.value.name.Some?
    ensures r.Some? ==> r.value.avatarIcon == reply.app.value.avatarURL.GetOr("")
  {
    match reply
    case AppUnreadable => None
    case AppReplied(status, app) =>
      if status != "ok" || app.None? || app.value.id.None? || app.value.name.None? then None
      else Some(AppInfo(app.value.id.value, app.value.name.value, app.value.avatarURL.GetOr("")))
  }

  /** An app described with status `ok` is fetched as itself; an absent avatar reads as "". */
  lemma FetchDescribed(info: AppInfo, avatarGiven: bool)
    requires !avatarGiven ==> info.avatarIcon == ""
    ensures FetchAppInfo(AppReplied("ok", Some(AppObject(Some(info.id), Some(info.name),
              if avatarGiven then Some(info.avatarIcon) else None)))) == Some(info)
  {
  }

  /** `/v2/user`: unreadable, or its `status` and `user.apps` (absent if missing; an entry is absent if not a string). */
  datatype UserReply = UserUnreadable | UserReplied(status: string, apps: Option<seq<Option<string>>>)

  /** The app an id yields, as a list of zero or one element. */
  function Found(info: Option<AppInfo>): seq<AppInfo>
  {
    if info.Some? then [info.value] else []
  }

  /**
   * The list `fetchUserApps` builds from the ids, or None when an entry is
   * not a string and `getString` throws.
   */
  function Collect(ids: seq<Option<string>>, lookup: string -> AppReply): Option<seq<AppInfo>>
  {
    if |ids| == 0 then Some([])
    else match Collect(ids[..|ids| - 1], lookup)
      case None => None
      case Some(acc) =>
        match ids[|ids| - 1]
        case None => None
        case Some(id) => Some(acc + Found(FetchAppInfo(lookup(id))))
  }

  /** `fetchUserApps`: empty unless the status is `ok`, and empty on any exception. */
  function UserApps(reply: UserReply, lookup: string -> AppReply): seq<AppInfo>
  {
    if reply.UserReplied? && reply.status == "ok" && reply.apps.Some? then
      Collect(reply.apps.value, lookup).GetOr([])
    else []
  }

  /** Reference definition: the apps the ids yield, from the first id on, skipping the null ones. */
  function Known(ids: seq<string>, lookup: string -> AppReply): (r: seq<AppInfo>)
    ensures |r| <= |ids|
    ensures forall a :: a in r ==> exists k :: 0 <= k < |ids| && FetchAppInfo(lookup(ids[k])) == Some(a)
  {
    if |ids| == 0 then []
    else
      var rest := Known(ids[1..], lookup);
      assert forall a :: a in rest ==> exists k :: 0 <= k < |ids| && FetchAppInfo(lookup(ids[k])) == Some(a) by {
        forall a | a in rest
          ensures exists k :: 0 <= k < |ids| && FetchAppInfo(lookup(ids[k])) == Some(a)
        {
          var k :| 0 <= k < |ids[1..]| && FetchAppInfo(lookup(ids[1..][k])) == Some(a);
          assert FetchAppInfo(lookup(ids[k + 1])) == Some(a);
        }
      }
      Found(FetchAppInfo(lookup(ids[0]))) + rest
  }

  lemma {:induction false} KnownSnoc(ids: seq<string>, id: string, lookup: string -> AppReply)
    ensures Known(ids + [id], lookup) == Known(ids, lookup) + Found(FetchAppInfo(lookup(id)))
    decreases |ids|
  {
    if |ids| == 0 {
      assert Known([id], lookup) == Found(FetchAppInfo(lookup(id))) + Known([], lookup);
    } else {
      assert (ids + [id])[1..] == ids[1..] + [id];
      KnownSnoc(ids[1..], id, lookup);
    }
  }

  function Present(ids: seq<string>): seq<Option<string>>
  {
    seq(|ids|, i requires 0 <= i < |ids| => Some(ids[i]))
  }

  /** When every entry is a string, the collected list is the reference list. */
  lemma {:induction false} CollectStrings(ids: seq<string>, lookup: string -> AppReply)
    ensures Collect(Present(ids), lookup) == Some(Known(ids, lookup))
    decreases |ids|
  {
    if |ids| > 0 {
      var init := ids[..|ids| - 1];
      assert Present(ids)[..|ids| - 1] == Present(init);
      CollectStrings(init, lookup);
      assert ids == init + [ids[|ids| - 1]];
      KnownSnoc(init, ids[|ids| - 1], lookup);
    }
  }

  /** Collecting fails exactly when some entry is not a string. */
  lemma {:induction false} CollectFailsIff(ids: seq<Option<string>>, lookup: string -> AppReply)
    ensures Collect(ids, lookup).None? <==> exists k :: 0 <= k < |ids| && ids[k].None?
    decreases |ids|
  {
    if |ids| > 0 {
      var init := ids[..|ids| - 1];
      CollectFailsIff(init, lookup);
      if exists k :: 0 <= k < |init| && init[k].None? {
        var k :| 0 <= k < |init| && init[k].None?;
        assert ids[k].None?;
      }
      if exists k :: 0 <= k < |ids| && ids[k].None? {
        var k :| 0 <= k < |ids| && ids[k].None?;
        if k < |init| {
          assert init[k].None?;
        }
      }
    }
  }

  /**
   * `fetchUserApps`: asks for each listed id in turn and keeps the apps
   * found; an entry that is not a string aborts with an empty list.
   */
  method FetchUserApps(reply: UserReply, lookup: string -> AppReply) returns (apps: seq<AppInfo>)
    ensures apps == UserApps(reply, lookup)
  {
    if !(reply.UserReplied? && reply.status == "ok" && reply.apps.Some?) {
      return [];
    }
    var ids := reply.apps.value;
    var acc: seq<AppInfo> := [];
    var i := 0;
    while i < |ids|
      invariant 0 <= i <= |ids|
      invariant Collect(ids[..i], lookup) == Some(acc)
    {
      assert ids[..i + 1][..i] == ids[..i];
      if ids[i].None? {
        CollectFailsIff(ids, lookup);
        return [];
      }
      var info := FetchAppInfo(lookup(ids[i].value));
      assert Collect(ids[..i + 1], lookup) == Some(acc + Found(info));
      if info.Some? {
        acc := acc + [info.value];
      } else {
        assert acc + Found(info) == acc;
      }
      i := i + 1;
    }
    assert ids[..|ids|] == ids;
    apps := acc;
  }

  /** The apps listed are those the ids yield, in id order, when every id is a string. */
  lemma UserAppsInOrder(status: string, ids: seq<string>, lookup: string -> AppReply)
    ensures UserApps(UserReplied(status, Some(Present(ids))), lookup) == (if status == "ok" then Known(ids, lookup) else [])
  {
    CollectStrings(ids, lookup);
  }

  // ---------------------------------------------------------------------------
  // The action
  // ---------------------------------------------------------------------------

  /** How a run of the action ends. */
  datatype CommitRun =
    | NoSelection
    | NoToken
    | NoApps
    | NothingChosen(apps: seq<AppInfo>)
    | Committed(app: AppInfo, results: seq<string>)

  /**
   * `actionPerformed`: needs a selection and a stored token (a blank one is
   * used as it is), lists the apps, and commits the selected jars to the app
   * picked. `choice` is the index picked in the popup, None when dismissed;
   * `server(id)` is the commit endpoint of app `id` under this token.
   */
  method CommitAction(files: Option<seq<VFile>>, apiKey: Option<string>,
                      users: string -> UserReply, lookup: string -> string -> AppReply,
                      choice: Option<nat>, clock: nat -> nat,
                      server: string -> nat -> seq<byte> -> HttpReply, parse: string -> JsonView)
    returns (run: CommitRun)
    ensures files.None? ==> run == NoSelection
    ensures files.Some? && apiKey.None? ==> run == NoToken
    ensures files.Some? && apiKey.Some? ==>
      var apps := UserApps(users(apiKey.value), lookup(apiKey.value));
      if |apps| == 0 then run == NoApps
      else if choice.None? || choice.value >= |apps| then run == NothingChosen(apps)
      else
        && run.Committed? && run.app == apps[choice.value]
        && |run.results| == |Jars(files.value)|
        && forall k :: 0 <= k < |run.results| ==>
             run.results[k] == CommitResult(Jars(files.value)[k], clock(k), server(run.app.id)(k), parse)
  {
    if files.None? {
      return NoSelection;
    }
    if apiKey.None? {
      return NoToken;
    }
    var apps := FetchUserApps(users(apiKey.value), lookup(apiKey.value));
    if |apps| == 0 {
      return NoApps;
    }
    if choice.None? || choice.value >= |apps| {
      return NothingChosen(apps);
    }
    var app := apps[choice.value];
    var results := CommitAll(files.value, clock, server(app.id), parse);
    run := Committed(app, results);
  }
}
