/**
 * The Discloud tool window's list rows: how apps and team members are shown
 * as text, how the selected row is read back into an id, how a permission
 * list is parsed, and how a RAM amount is validated.
 */
module ToolWindow {
  import opened Base
  import opened Text

  /** An app as the API client lists it (`AppInfoData`). */
  datatype AppData = AppData(id: string, name: string, online: bool, ram: int32)

  /** A team member: its id and permissions. */
  datatype Member = Member(modID: string, perms: seq<string>)

  // ---------------------------------------------------------------------------
  // Occurrence facts about the row separators
  // ---------------------------------------------------------------------------

  /** Putting a character that cannot start `pat` in front of `s` creates no occurrence. */
  lemma NoOccurrenceUnderHead(c: char, s: string, pat: string)
    requires |pat| > 0 && c != pat[0]
    requires !Contains(s, pat)
    ensures !Contains([c] + s, pat)
  {
    var x := [c] + s;
    ContainsIff(s, pat);
    forall k | 0 <= k <= |x| - |pat|
      ensures !OccursAt(x, pat, k)
    {
      if k == 0 {
        assert x[k..k + |pat|][0] == c;
      } else {
        assert x[k..k + |pat|] == s[k - 1..k - 1 + |pat|];
        assert !OccursAt(s, pat, k - 1);
      }
    }
    ContainsIff(x, pat);
  }

  /** `" - "` does not occur in `"- " + id` when it is not in `id` and `id` does not start with `"- "`. */
  lemma ComboTailClear(id: string)
    requires !Contains(id, " - ") && !StartsWith(id, "- ")
    ensures !Contains("- " + id, " - ")
  {
    var x := "- " + id;
    ContainsIff(id, " - ");
    forall k | 0 <= k <= |x| - 3
      ensures !OccursAt(x, " - ", k)
    {
      if k == 0 {
        assert x[k..k + 3][0] == '-';
      } else if k == 1 {
        assert x[k..k + 3][1..] == id[..2];
      } else {
        assert x[k..k + 3] == id[k - 2..k + 1];
        assert !OccursAt(id, " - ", k - 2);
      }
    }
    ContainsIff(x, " - ");
  }

  /** A string ends with `" -"`. */
  predicate EndsWithDash(s: string)
  {
    |s| >= 2 && s[|s| - 2..] == " -"
  }

  /** `" - "` does not occur in `modID + " -"` when it is not in `modID` and `modID` does not end with `" -"`. */
  lemma MemberHeadClear(modID: string)
    requires !Contains(modID, " - ") && !EndsWithDash(modID)
    ensures !Contains(modID + " -", " - ")
  {
    var x := modID + " -";
    var n := |modID|;
    ContainsIff(modID, " - ");
    forall k | 0 <= k <= |x| - 3
      ensures !OccursAt(x, " - ", k)
    {
      var w := x[k..k + 3];
      assert w[0] == x[k] && w[1] == x[k + 1] && w[2] == x[k + 2];
      if k + 3 <= n {
        assert w == modID[k..k + 3];
        assert !OccursAt(modID, " - ", k);
      } else if k == n - 2 {
        assert x[k] == modID[n - 2] && x[k + 1] == modID[n - 1];
        assert modID[n - 2..] == [modID[n - 2], modID[n - 1]];
      } else {
        assert x[k + 2] == '-';
      }
    }
    ContainsIff(x, " - ");
  }

  // ---------------------------------------------------------------------------
  // The Apps tab
  // ---------------------------------------------------------------------------

  /** `"${name} (${online|offline}, ${ram}MB) - ${id}"` */
  function AppRow(a: AppData): string
  {
    a.name + " (" + (if a.online then "online" else "offline") + ", " + IntToString(a.ram) + "MB) " + "- " + a.id
  }

  /** The row shown when listing fails: `"Erro: ${message}"`. */
  function ErrorRow(message: string): string
  {
    "Erro: " + message
  }

  /**
   * How both tabs read the id back from the selected text: text without the
   * separator is refused (None); otherwise the trimmed text after its last
   * occurrence.
   */
  function IdAfterLast(row: string, sep: string): (r: Option<string>)
    ensures r.None? <==> !Contains(row, sep)
    ensures r.Some? ==> IsTrimmed(r.value)
  {
    if Contains(row, sep) then Some(Trim(SubstringAfterLast(row, sep))) else None
  }

  /** The id an app action works on: the row read at its last `"- "`. */
  function AppIdOf(row: string): Option<string>
  {
    IdAfterLast(row, "- ")
  }

  /** An app row gives back the app's id, trimmed, whenever the id holds no `"- "`. */
  lemma AppIdRoundTrip(a: AppData)
    requires !Contains(a.id, "- ")
    ensures AppIdOf(AppRow(a)) == Some(Trim(a.id))
  {
    var head := a.name + " (" + (if a.online then "online" else "offline") + ", " + IntToString(a.ram) + "MB) ";
    assert AppRow(a) == head + "- " + a.id;
    NoOccurrenceUnderHead(' ', a.id, "- ");
    assert ("- " + a.id)[1..] == [' '] + a.id;
    LastAtJunction(head, "- ", a.id);
    OccursInContains(AppRow(a), "- ", |head|);
  }

  /** A trimmed id without `"- "` comes back unchanged. */
  lemma AppIdExact(a: AppData)
    requires !Contains(a.id, "- ") && IsTrimmed(a.id)
    ensures AppIdOf(AppRow(a)) == Some(a.id)
  {
    AppIdRoundTrip(a);
    TrimTrimmed(a.id);
  }

  /** The error row passes the guard exactly when the message itself holds `"- "`. */
  lemma ErrorRowGuard(message: string)
    ensures AppIdOf(ErrorRow(message)).None? <==> !Contains(message, "- ")
  {
    var x := ErrorRow(message);
    ContainsIff(message, "- ");
    ContainsIff(x, "- ");
    if Contains(message, "- ") {
      var k :| OccursAt(message, "- ", k);
      OccursShift("Erro: ", message, "- ", k);
    }
    if Contains(x, "- ") {
      var k :| OccursAt(x, "- ", k);
      assert x[k..k + 2][0] == x[k] == '-';
      assert k >= 6;
      assert x[k..k + 2] == message[k - 6..k - 4];
      OccursInContains(message, "- ", k - 6);
    }
  }

  // ---------------------------------------------------------------------------
  // The Team tab
  // ---------------------------------------------------------------------------

  /** `"${name} - ${id}"`, the app combo box's item. */
  function ComboRow(a: AppData): string
  {
    a.name + " - " + a.id
  }

  /** The app id a team action works on: the item read at its last `" - "`. */
  function ComboIdOf(item: string): Option<string>
  {
    IdAfterLast(item, " - ")
  }

  /** A combo item gives back the app's id, trimmed, when the id neither holds `" - "` nor starts with `"- "`. */
  lemma ComboIdRoundTrip(a: AppData)
    requires !Contains(a.id, " - ") && !StartsWith(a.id, "- ")
    ensures ComboIdOf(ComboRow(a)) == Some(Trim(a.id))
  {
    ComboTailClear(a.id);
    assert (" - " + a.id)[1..] == "- " + a.id;
    LastAtJunction(a.name, " - ", a.id);
    OccursInContains(ComboRow(a), " - ", |a.name|);
  }

  /** The second condition is needed: an id `"- x"` comes back as `"x"`. */
  lemma ComboIdDashedId(name: string, online: bool, ram: int32)
    ensures ComboIdOf(ComboRow(AppData("- x", name, online, ram))) == Some("x")
  {
    var a := AppData("- x", name, online, ram);
    var row := ComboRow(a);
    var n := |name|;
    assert row == (name + " -") + " - " + "x";
    assert !Contains((" - " + "x")[1..], " - ") by {
      var t := (" - " + "x")[1..];
      assert t == "- x";
      forall k | 0 <= k <= |t| - 3
        ensures !OccursAt(t, " - ", k)
      {
        assert t[k..k + 3][0] == '-';
      }
      ContainsIff(t, " - ");
    }
    LastAtJunction(name + " -", " - ", "x");
    OccursInContains(row, " - ", n + 2);
    assert SubstringAfterLast(row, " - ") == "x";
    TrimTrimmed("x");
  }

  /** `"${modID} - ${perms.joinToString(",")}"` */
  function MemberRow(m: Member): string
  {
    m.modID + " - " + Join(m.perms, ',')
  }

  /** The member a team action works on: refused without `" - "`, else the trimmed text before the first one. */
  function ModIdOf(row: string): (r: Option<string>)
    ensures r.None? <==> !Contains(row, " - ")
    ensures r.Some? ==> IsTrimmed(r.value)
  {
    if Contains(row, " - ") then Some(Trim(SubstringBefore(row, " - "))) else None
  }

  /** A member row gives back the modID, trimmed, when it neither holds `" - "` nor ends with `" -"`. */
  lemma ModIdRoundTrip(m: Member)
    requires !Contains(m.modID, " - ") && !EndsWithDash(m.modID)
    ensures ModIdOf(MemberRow(m)) == Some(Trim(m.modID))
  {
    MemberHeadClear(m.modID);
    assert (m.modID + " - ")[..|m.modID| + 2] == m.modID + " -";
    FirstAtJunction(m.modID, " - ", Join(m.perms, ','));
    OccursInContains(MemberRow(m), " - ", |m.modID|);
    assert MemberRow(m)[..|m.modID|] == m.modID;
  }

  /** The second condition is needed: a modID `"a -"` comes back as `"a"`. */
  lemma ModIdDashedId(perms: seq<string>)
    ensures ModIdOf(MemberRow(Member("a -", perms))) == Some("a")
  {
    var row := MemberRow(Member("a -", perms));
    assert row == "a" + " - " + ("- " + Join(perms, ','));
    assert !Contains(("a" + " - ")[..3], " - ") by {
      var t := ("a" + " - ")[..3];
      assert t == "a -";
      assert !OccursAt(t, " - ", 0) by { assert t[0..3][0] == 'a'; }
      ContainsIff(t, " - ");
    }
    FirstAtJunction("a", " - ", "- " + Join(perms, ','));
    OccursInContains(row, " - ", 1);
    assert SubstringBefore(row, " - ") == "a";
    TrimTrimmed("a");
  }

  // ---------------------------------------------------------------------------
  // Permission lists
  // ---------------------------------------------------------------------------

  /** `map { it.trim() }` */
  function TrimEach(parts: seq<string>): (r: seq<string>)
    ensures |r| == |parts|
    ensures forall k :: 0 <= k < |r| ==> r[k] == Trim(parts[k])
  {
    seq(|parts|, k requires 0 <= k < |parts| => Trim(parts[k]))
  }

  /** `filter { it.isNotEmpty() }` */
  function NonEmpty(parts: seq<string>): (r: seq<string>)
    ensures |r| <= |parts|
    ensures forall p :: p in r <==> p in parts && p != []
  {
    if |parts| == 0 then []
    else (if parts[0] != [] then [parts[0]] else []) + NonEmpty(parts[1..])
  }

  /** `permsInput.split(",").map { it.trim() }.filter { it.isNotEmpty() }` */
  function ParsePerms(input: string): (r: seq<string>)
    ensures forall p :: p in r ==> p != [] && IsTrimmed(p) && ',' !in p
  {
    var parts := Split(input, ',');
    SplitPiecesLackSeparator(input, ',');
    var trimmed := TrimEach(parts);
    forall k | 0 <= k < |trimmed|
      ensures ',' !in trimmed[k]
    {
      var i, j :| 0 <= i <= j <= |parts[k]| && trimmed[k] == parts[k][i..j];
      assert ',' !in parts[k];
    }
    NonEmpty(trimmed)
  }

  /** A list whose items are all non-empty, trimmed and comma-free: what a parse can yield. */
  predicate WellFormedPerms(perms: seq<string>)
  {
    forall k :: 0 <= k < |perms| ==> perms[k] != [] && IsTrimmed(perms[k]) && ',' !in perms[k]
  }

  lemma {:induction false} NonEmptyKeeps(parts: seq<string>)
    requires forall k :: 0 <= k < |parts| ==> parts[k] != []
    ensures NonEmpty(parts) == parts
    decreases |parts|
  {
    if |parts| > 0 {
      NonEmptyKeeps(parts[1..]);
    }
  }

  /** Parsing the comma-join of a well-formed list gives the list back, the empty list included. */
  lemma PermsRoundTrip(perms: seq<string>)
    requires WellFormedPerms(perms)
    ensures ParsePerms(Join(perms, ',')) == perms
  {
    if |perms| == 0 {
      assert Split("", ',') == [""];
      assert TrimEach([""]) == [""];
      assert NonEmpty([""]) == [];
    } else {
      SplitJoin(perms, ',');
      forall k | 0 <= k < |perms|
        ensures Trim(perms[k]) == perms[k]
      {
        TrimTrimmed(perms[k]);
      }
      assert TrimEach(perms) == perms;
      NonEmptyKeeps(perms);
    }
  }

  // ---------------------------------------------------------------------------
  // RAM amounts
  // ---------------------------------------------------------------------------

  /** What a RAM dialog leads to. */
  datatype RamDecision = Cancelled | Rejected | Accepted(mb: int32)

  /** The amount is valid iff it parses as an `Int` above zero. */
  function CheckRam(input: string): (r: RamDecision)
    ensures r != Cancelled
    ensures r.Accepted? <==> ToIntOrNull(input).Some? && ToIntOrNull(input).value > 0
    ensures r.Accepted? ==> r.mb > 0 && ToIntOrNull(input) == Some(r.mb as int)
  {
    match ToIntOrNull(input)
    case Some(v) => if v > 0 then Accepted(v) else Rejected
    case None => Rejected
  }

  /** Edit Ram on the Apps tab: a dismissed or blank dialog cancels silently. */
  function AppsTabRam(input: Option<string>): RamDecision
  {
    if input.None? || IsBlank(input.value) then Cancelled else CheckRam(input.value)
  }

  /** Edit RAM on the Team tab: only a dismissed dialog cancels; blank text is rejected. */
  function TeamTabRam(input: Option<string>): RamDecision
  {
    if input.None? then Cancelled else CheckRam(input.value)
  }

  /** Blank text never parses, so the blank check changes only how the refusal is shown. */
  lemma BlankNeverParses(s: string)
    requires IsBlank(s)
    ensures ToIntOrNull(s).None?
  {
    forall k | 0 <= k < |s|
      ensures !IsDigit(s[k])
    {
      assert IsWhitespace(s[k]);
    }
  }

  /** Both tabs accept exactly the same amounts; they differ only on blank text, cancelled on one and rejected on the other. */
  lemma RamTabsAgree(input: Option<string>)
    ensures AppsTabRam(input).Accepted? <==> input.Some? && ToIntOrNull(input.value).Some? && ToIntOrNull(input.value).value > 0
    ensures AppsTabRam(input) == TeamTabRam(input) || (input.Some? && IsBlank(input.value) && TeamTabRam(input) == Rejected)
  {
    if input.Some? && IsBlank(input.value) {
      BlankNeverParses(input.value);
    }
  }

  /** The amount a row shows, typed back in, is accepted as that amount when it is positive. */
  lemma ShownRamAccepted(n: int32)
    requires n > 0
    ensures AppsTabRam(Some(IntToString(n))) == Accepted(n)
    ensures TeamTabRam(Some(IntToString(n))) == Accepted(n)
  {
    IntToStringRoundTrip(n);
    NatToStringDigits(n);
    assert !IsWhitespace(IntToString(n)[0]);
  }
}
