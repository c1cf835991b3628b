/**
 * The `discloud.config` file written by the "create config" action: the
 * answers to its dialogs, the defaults put in place of blank answers, the
 * BOT and SITE templates, and Kotlin's `trimIndent` applied to the template.
 */
module DiscloudConfig {
  import opened Base
  import opened Text

  // ---------------------------------------------------------------------------
  // lines() and trimIndent()
  // ---------------------------------------------------------------------------

  predicate IsLineBreak(c: char)
  {
    c == '\r' || c == '\n'
  }

  /** Text holding no CR and no LF. */
  predicate SingleLineText(s: string)
  {
    forall i :: 0 <= i < |s| ==> !IsLineBreak(s[i])
  }

  /** The first line break at or after `i`, or `|s|`. */
  function NextBreak(s: string, i: nat): (k: nat)
    requires i <= |s|
    ensures i <= k <= |s|
    ensures forall m :: i <= m < k ==> !IsLineBreak(s[m])
    ensures k < |s| ==> IsLineBreak(s[k])
    decreases |s| - i
  {
    if i == |s| || IsLineBreak(s[i]) then i else NextBreak(s, i + 1)
  }

  /** `lines()`: the text cut at every `\r\n`, `\n` and `\r`. */
  function Lines(s: string): (r: seq<string>)
    ensures |r| >= 1
    ensures forall k :: 0 <= k < |r| ==> SingleLineText(r[k])
    decreases |s|
  {
    var k := NextBreak(s, 0);
    if k == |s| then [s]
    else if s[k] == '\r' && k + 1 < |s| && s[k + 1] == '\n' then [s[..k]] + Lines(s[k + 2..])
    else [s[..k]] + Lines(s[k + 1..])
  }

  /** `indentWidth`: how many whitespace characters a line starts with. */
  function IndentWidth(line: string): nat
  {
    SkipBlankForward(line, 0)
  }

  function Min(a: nat, b: nat): nat
  {
    if a < b then a else b
  }

  /** The smallest indent among the lines that are not blank; none when every line is blank. */
  function MinIndent(ls: seq<string>): (r: Option<nat>)
    ensures r.None? <==> forall k :: 0 <= k < |ls| ==> IsBlank(ls[k])
    ensures r.Some? ==> exists k :: 0 <= k < |ls| && !IsBlank(ls[k]) && IndentWidth(ls[k]) == r.value
    ensures r.Some? ==> forall k :: 0 <= k < |ls| && !IsBlank(ls[k]) ==> r.value <= IndentWidth(ls[k])
    decreases |ls|
  {
    if |ls| == 0 then None
    else
      var rest := MinIndent(ls[1..]);
      assert forall k :: 1 <= k < |ls| ==> ls[k] == ls[1..][k - 1];
      if IsBlank(ls[0]) then rest
      else
        match rest
        case None => Some(IndentWidth(ls[0]))
        case Some(m) => Some(Min(IndentWidth(ls[0]), m))
  }

  /** `drop(n)`: all but the first `n` characters. */
  function Drop(s: string, n: nat): string
  {
    if n <= |s| then s[n..] else []
  }

  /**
   * `trimIndent()`: cut into lines, drop the first and the last line when
   * they are blank, remove the smallest indent of the non-blank lines from
   * every other line, and join what is left with `\n`.
   */
  function TrimIndent(s: string): string
  {
    Reindent(Lines(s))
  }

  /** The part of `trimIndent` that works on the lines. */
  function Reindent(ls: seq<string>): string
    requires |ls| >= 1
  {
    var m := MinIndent(ls).GetOr(0);
    var first := if IsBlank(ls[0]) then 1 else 0;
    var end := if first <= |ls| - 1 && IsBlank(ls[|ls| - 1]) then |ls| - 1 else |ls|;
    Join(DropEach(ls[first..end], m), '\n')
  }

  /** `drop(m)` applied to every line. */
  function DropEach(ls: seq<string>, m: nat): seq<string>
  {
    seq(|ls|, i requires 0 <= i < |ls| => Drop(ls[i], m))
  }

  // ---------------------------------------------------------------------------
  // The template
  // ---------------------------------------------------------------------------

  /** The twelve spaces every line of the templates is indented by in the source. */
  const Margin := "            "

  /** The template's lines, each indented and followed by a line break. */
  function Body(ls: seq<string>): string
  {
    if |ls| == 0 then "" else Margin + ls[0] + "\n" + Body(ls[1..])
  }

  /** A raw string literal opening on its own line and closing on an indented line. */
  function Template(ls: seq<string>): string
  {
    "\n" + Body(ls) + Margin
  }

  function Indented(ls: seq<string>): seq<string>
  {
    seq(|ls|, k requires 0 <= k < |ls| => Margin + ls[k])
  }

  lemma {:induction false} NextBreakAfter(a: string, rest: string, i: nat)
    requires SingleLineText(a) && i <= |a|
    requires |rest| > 0 && IsLineBreak(rest[0])
    ensures NextBreak(a + rest, i) == |a|
    decreases |a| - i
  {
    if i < |a| {
      assert (a + rest)[i] == a[i];
      NextBreakAfter(a, rest, i + 1);
    }
  }

  lemma {:induction false} NextBreakNone(a: string, i: nat)
    requires SingleLineText(a) && i <= |a|
    ensures NextBreak(a, i) == |a|
    decreases |a| - i
  {
    if i < |a| {
      assert !IsLineBreak(a[i]);
      NextBreakNone(a, i + 1);
    }
  }

  lemma LinesOfSingle(a: string)
    requires SingleLineText(a)
    ensures Lines(a) == [a]
  {
    NextBreakNone(a, 0);
  }

  /** A line followed by `\n` and more text is that line, then the lines of the rest. */
  lemma LinesCons(a: string, rest: string)
    requires SingleLineText(a)
    ensures Lines(a + "\n" + rest) == [a] + Lines(rest)
  {
    var s := a + "\n" + rest;
    assert s == a + ("\n" + rest);
    NextBreakAfter(a, "\n" + rest, 0);
    assert s[..|a|] == a;
    assert s[|a| + 1..] == rest;
  }

  lemma MarginLine(line: string)
    requires SingleLineText(line)
    ensures SingleLineText(Margin + line)
  {
    var head := Margin + line;
    forall i | 0 <= i < |head|
      ensures !IsLineBreak(head[i])
    {
      if i >= |Margin| {
        assert head[i] == line[i - |Margin|];
      }
    }
  }

  lemma BodyCons(ls: seq<string>, tail: string)
    requires |ls| > 0
    ensures Body(ls) + tail == (Margin + ls[0]) + "\n" + (Body(ls[1..]) + tail)
  {
  }

  lemma IndentedCons(ls: seq<string>)
    requires |ls| > 0
    ensures Indented(ls) == [Margin + ls[0]] + Indented(ls[1..])
  {
  }

  lemma {:induction false} LinesOfBody(ls: seq<string>, tail: string)
    requires forall k :: 0 <= k < |ls| ==> SingleLineText(ls[k])
    ensures Lines(Body(ls) + tail) == Indented(ls) + Lines(tail)
    decreases |ls|
  {
    if |ls| > 0 {
      var head := Margin + ls[0];
      var rest := Body(ls[1..]) + tail;
      MarginLine(ls[0]);
      calc {
        Lines(Body(ls) + tail);
        { BodyCons(ls, tail); }
        Lines(head + "\n" + rest);
        { LinesCons(head, rest); }
        [head] + Lines(rest);
        { LinesOfBody(ls[1..], tail); }
        [head] + (Indented(ls[1..]) + Lines(tail));
        { IndentedCons(ls); }
        Indented(ls) + Lines(tail);
      }
    } else {
      assert Body(ls) + tail == tail;
      assert Indented(ls) + Lines(tail) == Lines(tail);
    }
  }

  /** The lines of a template: an empty line, the indented lines, and the closing margin. */
  lemma LinesOfTemplate(ls: seq<string>)
    requires forall k :: 0 <= k < |ls| ==> SingleLineText(ls[k])
    ensures Lines(Template(ls)) == [""] + Indented(ls) + [Margin]
  {
    assert SingleLineText(Margin);
    calc {
      Lines(Template(ls));
      { assert Template(ls) == "" + "\n" + (Body(ls) + Margin); }
      Lines("" + "\n" + (Body(ls) + Margin));
      { LinesCons("", Body(ls) + Margin); }
      [""] + Lines(Body(ls) + Margin);
      { LinesOfBody(ls, Margin); }
      [""] + (Indented(ls) + Lines(Margin));
      { LinesOfSingle(Margin); }
      [""] + Indented(ls) + [Margin];
    }
  }

  /** A line that starts with a visible character. */
  predicate StartsVisible(line: string)
  {
    |line| > 0 && !IsWhitespace(line[0])
  }

  lemma IndentedLine(line: string)
    requires StartsVisible(line)
    ensures IndentWidth(Margin + line) == |Margin|
    ensures !IsBlank(Margin + line)
    ensures Drop(Margin + line, |Margin|) == line
  {
    var s := Margin + line;
    assert s[|Margin|] == line[0];
    assert forall m :: 0 <= m < |Margin| ==> IsWhitespace(s[m]);
  }

  /** The smallest indent of a template's lines is the margin. */
  lemma MinIndentOfTemplateLines(ls: seq<string>)
    requires |ls| >= 1
    requires forall k :: 0 <= k < |ls| ==> StartsVisible(ls[k])
    ensures MinIndent([""] + Indented(ls) + [Margin]) == Some(|Margin|)
  {
    var all := [""] + Indented(ls) + [Margin];
    forall k | 0 <= k < |ls|
      ensures all[k + 1] == Margin + ls[k]
      ensures IndentWidth(all[k + 1]) == |Margin| && !IsBlank(all[k + 1])
    {
      IndentedLine(ls[k]);
    }
    assert IsBlank(all[0]) && IsBlank(all[|all| - 1]);
    forall k | 0 <= k < |all| && !IsBlank(all[k])
      ensures IndentWidth(all[k]) == |Margin|
    {
      assert 1 <= k <= |ls|;
      assert all[k] == all[(k - 1) + 1];
    }
    assert !IsBlank(all[1]);
  }

  /** Dropping the margin from every indented line gives the lines back. */
  lemma DropMargins(ls: seq<string>)
    requires forall k :: 0 <= k < |ls| ==> StartsVisible(ls[k])
    ensures DropEach(Indented(ls), |Margin|) == ls
  {
    forall i | 0 <= i < |ls|
      ensures Drop(Indented(ls)[i], |Margin|) == ls[i]
    {
      IndentedLine(ls[i]);
    }
  }

  /**
   * `trimIndent` removes exactly what the template adds: when every line is
   * a single line starting with a visible character, the result is the
   * lines joined with `\n`, with no leading or trailing line break.
   */
  lemma TrimIndentTemplate(ls: seq<string>)
    requires |ls| >= 1
    requires forall k :: 0 <= k < |ls| ==> SingleLineText(ls[k]) && StartsVisible(ls[k])
    ensures TrimIndent(Template(ls)) == Join(ls, '\n')
  {
    LinesOfTemplate(ls);
    ReindentTemplateLines(ls);
  }

  lemma ReindentTemplateLines(ls: seq<string>)
    requires |ls| >= 1
    requires forall k :: 0 <= k < |ls| ==> StartsVisible(ls[k])
    ensures Reindent([""] + Indented(ls) + [Margin]) == Join(ls, '\n')
  {
    var all := [""] + Indented(ls) + [Margin];
    MinIndentOfTemplateLines(ls);
    assert IsBlank(all[0]) && IsBlank(all[|all| - 1]);
    assert all[1..|all| - 1] == Indented(ls);
    DropMargins(ls);
  }

  // ---------------------------------------------------------------------------
  // The answers, the defaults and the two templates
  // ---------------------------------------------------------------------------

  datatype AppType = Bot | Site

  /** The text of each dialog's answer; none where the dialog was cancelled. */
  datatype Answers = Answers(
    selected: Option<string>, name: Option<string>, avatar: Option<string>, main: Option<string>,
    ram: Option<string>, autorestart: Option<string>, version: Option<string>, apt: Option<string>,
    start: Option<string>, build: Option<string>)

  const TypeOptions: seq<string> := ["BOT", "SITE"]
  const DefaultAvatar := "https://i.imgur.com/bWhx7OT.png"

  /** `Array.indexOf`: the first position holding `x`, or -1. */
  function IndexOfOption(options: seq<string>, x: string): (r: int)
    ensures -1 <= r < |options|
    ensures r >= 0 ==> options[r] == x && forall k :: 0 <= k < r ==> options[k] != x
    ensures r == -1 <==> x !in options
  {
    if |options| == 0 then -1
    else if options[0] == x then 0
    else
      var r := IndexOfOption(options[1..], x);
      assert options == [options[0]] + options[1..];
      if r == -1 then -1 else r + 1
  }

  /** The BOT template is used when the chosen value's position among the options is 0; any other value gives SITE. */
  function KindOf(selected: string): AppType
  {
    if IndexOfOption(TypeOptions, selected) == 0 then Bot else Site
  }

  lemma KindOfBot(selected: string)
    ensures KindOf(selected) == Bot <==> selected == "BOT"
  {
    assert TypeOptions[0] == "BOT";
  }

  /** `?.trim()?.takeIf { it.isNotEmpty() } ?: default` */
  function TrimmedOr(answer: Option<string>, default: string): (r: string)
    ensures answer.Some? && !IsBlank(answer.value) ==> r == Trim(answer.value)
    ensures answer.None? || IsBlank(answer.value) ==> r == default
  {
    match answer
    case None => default
    case Some(text) => if Trim(text) == [] then default else Trim(text)
  }

  /** `?.trim() ?: ""` */
  function TrimmedOrEmpty(answer: Option<string>): string
  {
    match answer
    case None => ""
    case Some(text) => Trim(text)
  }

  /** The values the template is filled with. */
  datatype Settings = Settings(
    kind: AppType, name: string, avatar: string, main: string, ram: string,
    autorestart: string, version: string, apt: string, start: string, build: string)

  /** The values after defaults, or none when the type or the name dialog was cancelled. */
  function SettingsOf(a: Answers): (r: Option<Settings>)
    ensures r.None? <==> a.selected.None? || a.name.None?
  {
    if a.selected.None? || a.name.None? then None
    else
      var kind := KindOf(a.selected.value);
      Some(Settings(
        kind,
        Trim(a.name.value),
        TrimmedOr(a.avatar, DefaultAvatar),
        TrimmedOr(a.main, "index.js"),
        TrimmedOr(a.ram, if kind == Bot then "100" else "512"),
        a.autorestart.GetOr("false"),
        TrimmedOr(a.version, "latest"),
        TrimmedOr(a.apt, "tools"),
        TrimmedOrEmpty(a.start),
        TrimmedOrEmpty(a.build)))
  }

  /** The `KEY=VALUE` pairs of each template, in order. */
  function Entries(s: Settings): seq<(string, string)>
  {
    match s.kind
    case Bot =>
      [("NAME", s.name), ("AVATAR", s.avatar), ("TYPE", "bot"), ("MAIN", s.main), ("RAM", s.ram),
       ("AUTORESTART", s.autorestart), ("VERSION", s.version), ("APT", s.apt), ("START", s.start),
       ("BUILD", s.build)]
    case Site =>
      [("NAME", s.name), ("AVATAR", s.avatar), ("ID", Lower(s.name)), ("TYPE", "site"), ("MAIN", s.main),
       ("RAM", s.ram), ("AUTORESTART", s.autorestart), ("VERSION", s.version), ("APT", s.apt),
       ("START", s.start), ("BUILD", s.build)]
  }

  function Line(e: (string, string)): string
  {
    e.0 + "=" + e.1
  }

  function ConfigLines(s: Settings): seq<string>
  {
    var es := Entries(s);
    seq(|es|, k requires 0 <= k < |es| => Line(es[k]))
  }

  /** The text written to `discloud.config`. */
  function ConfigText(s: Settings): string
  {
    TrimIndent(Template(ConfigLines(s)))
  }

  /** What the action writes, or none when it stops before writing. */
  function ConfigContent(a: Answers): Option<string>
  {
    match SettingsOf(a)
    case None => None
    case Some(s) => Some(ConfigText(s))
  }

  /** Reads `KEY=VALUE` lines back, cutting each line at its first `=`. */
  function ParseConfig(content: string): seq<(string, string)>
  {
    var ls := Split(content, '\n');
    seq(|ls|, k requires 0 <= k < |ls| => (SubstringBefore(ls[k], "="), SubstringAfter(ls[k], "=")))
  }

  /** Every value of the template is a single line. */
  predicate ValuesSingleLine(s: Settings)
  {
    && SingleLineText(s.name) && SingleLineText(s.avatar) && SingleLineText(s.main)
    && SingleLineText(s.ram) && SingleLineText(s.autorestart) && SingleLineText(s.version)
    && SingleLineText(s.apt) && SingleLineText(s.start) && SingleLineText(s.build)
  }

  function Keys(es: seq<(string, string)>): seq<string>
  {
    seq(|es|, k requires 0 <= k < |es| => es[k].0)
  }

  const BotKeys: seq<string> := ["NAME", "AVATAR", "TYPE", "MAIN", "RAM", "AUTORESTART", "VERSION", "APT", "START", "BUILD"]
  const SiteKeys: seq<string> := ["NAME", "AVATAR", "ID", "TYPE", "MAIN", "RAM", "AUTORESTART", "VERSION", "APT", "START", "BUILD"]

  lemma LowerSingleLine(s: string)
    requires SingleLineText(s)
    ensures SingleLineText(Lower(s))
  {
  }

  /** Each entry has a key of capital letters and no `=`, and a single-line value. */
  lemma EntriesShape(s: Settings)
    requires ValuesSingleLine(s)
    ensures Keys(Entries(s)) == if s.kind == Bot then BotKeys else SiteKeys
    ensures forall k :: 0 <= k < |Entries(s)| ==>
      && SingleLineText(Entries(s)[k].1)
      && |Entries(s)[k].0| > 0
      && (forall i :: 0 <= i < |Entries(s)[k].0| ==> 'A' <= Entries(s)[k].0[i] <= 'Z')
  {
    LowerSingleLine(s.name);
    assert SingleLineText("bot") && SingleLineText("site");
  }

  lemma LineShape(e: (string, string))
    requires SingleLineText(e.1) && |e.0| > 0
    requires forall i :: 0 <= i < |e.0| ==> 'A' <= e.0[i] <= 'Z'
    ensures SingleLineText(Line(e)) && StartsVisible(Line(e)) && '\n' !in Line(e)
    ensures SubstringBefore(Line(e), "=") == e.0 && SubstringAfter(Line(e), "=") == e.1
  {
    var l := Line(e);
    forall i | 0 <= i < |l|
      ensures !IsLineBreak(l[i])
    {
      if i > |e.0| {
        assert l[i] == e.1[i - |e.0| - 1];
      }
    }
    assert !Contains((e.0 + "=")[..|e.0| + 1 - 1], "=") by {
      assert (e.0 + "=")[..|e.0|] == e.0;
      ContainsSingle(e.0, '=');
    }
    FirstAtJunction(e.0, "=", e.1);
    assert l[..|e.0|] == e.0;
    assert l[|e.0| + 1..] == e.1;
  }

  /**
   * The written file is the template's lines joined by `\n`, and cutting
   * each line at its first `=` gives back every key, in template order, with
   * its value, as long as no value holds a line break.
   */
  lemma {:induction false} ConfigRoundTrip(s: Settings)
    requires ValuesSingleLine(s)
    ensures ConfigText(s) == Join(ConfigLines(s), '\n')
    ensures ParseConfig(ConfigText(s)) == Entries(s)
    ensures Keys(ParseConfig(ConfigText(s))) == if s.kind == Bot then BotKeys else SiteKeys
  {
    var es := Entries(s);
    var ls := ConfigLines(s);
    EntriesShape(s);
    forall k | 0 <= k < |ls|
      ensures SingleLineText(ls[k]) && StartsVisible(ls[k]) && '\n' !in ls[k]
      ensures SubstringBefore(ls[k], "=") == es[k].0 && SubstringAfter(ls[k], "=") == es[k].1
    {
      LineShape(es[k]);
    }
    TrimIndentTemplate(ls);
    SplitJoin(ls, '\n');
  }

  lemma TrimmedOrTrimmed(answer: Option<string>, default: string)
    requires IsTrimmed(default)
    ensures IsTrimmed(TrimmedOr(answer, default))
  {
  }

  lemma DefaultsTrimmed()
    ensures IsTrimmed(DefaultAvatar) && IsTrimmed("index.js") && IsTrimmed("latest") && IsTrimmed("tools")
    ensures IsTrimmed("100") && IsTrimmed("512")
  {
  }

  /** Every value is trimmed, except the autorestart choice, which is used as it is. */
  lemma SettingsTrimmed(a: Answers)
    requires SettingsOf(a).Some?
    ensures var s := SettingsOf(a).value;
      && IsTrimmed(s.name) && IsTrimmed(s.avatar) && IsTrimmed(s.main) && IsTrimmed(s.ram)
      && IsTrimmed(s.version) && IsTrimmed(s.apt) && IsTrimmed(s.start) && IsTrimmed(s.build)
      && s.autorestart == a.autorestart.GetOr("false")
  {
    var s := SettingsOf(a).value;
    var ramDefault := if KindOf(a.selected.value) == Bot then "100" else "512";
    assert s.avatar == TrimmedOr(a.avatar, DefaultAvatar);
    assert s.main == TrimmedOr(a.main, "index.js");
    assert s.ram == TrimmedOr(a.ram, ramDefault);
    assert s.version == TrimmedOr(a.version, "latest");
    assert s.apt == TrimmedOr(a.apt, "tools");
    DefaultsTrimmed();
    TrimmedOrTrimmed(a.avatar, DefaultAvatar);
    TrimmedOrTrimmed(a.main, "index.js");
    TrimmedOrTrimmed(a.ram, ramDefault);
    TrimmedOrTrimmed(a.version, "latest");
    TrimmedOrTrimmed(a.apt, "tools");
  }

  /**
   * Blank or cancelled answers get their defaults: the avatar image, `index.js`,
   * `latest`, `tools`, RAM `100` for BOT and `512` for SITE, `false` for
   * autorestart and an empty start and build command.
   */
  lemma Defaults(a: Answers)
    requires SettingsOf(a).Some?
    ensures var s := SettingsOf(a).value;
      && (s.kind == Bot <==> a.selected.value == "BOT")
      && (a.avatar.None? || IsBlank(a.avatar.value) ==> s.avatar == DefaultAvatar)
      && (a.main.None? || IsBlank(a.main.value) ==> s.main == "index.js")
      && (a.ram.None? || IsBlank(a.ram.value) ==> s.ram == (if a.selected.value == "BOT" then "100" else "512"))
      && (a.autorestart.None? ==> s.autorestart == "false")
      && (a.version.None? || IsBlank(a.version.value) ==> s.version == "latest")
      && (a.apt.None? || IsBlank(a.apt.value) ==> s.apt == "tools")
      && (a.start.None? ==> s.start == "") && (a.build.None? ==> s.build == "")
  {
    KindOfBot(a.selected.value);
  }
}
