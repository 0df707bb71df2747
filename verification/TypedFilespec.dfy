/** File specifications as VMS users type them, and the Unix paths they stand for. */
module TypedFilespec {
  import opened Wrappers
  import opened Filespec
  import FalFilespec
  import FalRoundTrip
  import DapfsFilespec

  // ---- What is typed ----

  /** A directory in brackets: the empty one, one that starts relative, or one from the
      top; rooted directories have a dot before the closing bracket. */
  datatype Group =
    | Empty
    | Relative(names: seq<string>, dotted: bool)
    | Absolute(names: seq<string>, dotted: bool)

  datatype Spec = Spec(volume: Option<string>, groups: seq<Group>, file: string, version: Option<string>)

  predicate NoMarks(s: string) {
    forall c :: c in s ==> c !in ":;[]"
  }

  predicate Marker(n: string) { n == "000000" || n == "0,0" }

  /** A directory name: one of the names of the root, or one that contains neither. */
  ghost predicate NameOk(n: string) {
    n != "" && NoMarks(n) && (Marker(n) || Clean(n))
  }

  ghost predicate GroupOk(g: Group) {
    !g.Empty? ==> g.names != [] && forall i :: 0 <= i < |g.names| ==> NameOk(g.names[i])
  }

  /** At most two directories stand side by side. */
  ghost predicate SpecOk(s: Spec) {
    && (s.volume.Some? ==> NoMarks(s.volume.value))
    && |s.groups| <= 2 && (forall i :: 0 <= i < |s.groups| ==> GroupOk(s.groups[i]))
    && NoMarks(s.file)
  }

  function Dotted(names: seq<string>): string {
    if names == [] then "" else if |names| == 1 then names[0] else names[0] + "." + Dotted(names[1..])
  }

  function Inside(g: Group): string {
    match g
    case Empty => ""
    case Relative(names, dotted) => "." + (Dotted(names) + Tail(dotted))
    case Absolute(names, dotted) => Dotted(names) + Tail(dotted)
  }

  function Tail(dotted: bool): string { if dotted then "." else "" }

  function GroupText(g: Group): string { "[" + Inside(g) + "]" }

  function GroupsText(gs: seq<Group>): string {
    if gs == [] then "" else GroupText(gs[0]) + GroupsText(gs[1..])
  }

  function VolumeText(v: Option<string>): string { if v.Some? then v.value + ":" else "" }

  function VersionText(v: Option<string>): string { if v.Some? then ";" + v.value else "" }

  function TextOf(s: Spec): string {
    VolumeText(s.volume) + (GroupsText(s.groups) + s.file) + VersionText(s.version)
  }

  // ---- What it stands for ----

  /** Names with a slash behind each; those of the root leave only that. */
  function Path(names: seq<string>): string {
    if names == [] then "" else (if Marker(names[0]) then "" else names[0]) + "/" + Path(names[1..])
  }

  /** Where one directory leads: the empty one to the login directory in fal, a relative one
      below that, and any other below what stands before it. */
  function Next(out: string, g: Group, empties: bool): string {
    match g
    case Empty => if empties then "" else out + "//"
    case Relative(names, dotted) => Path(names) + Slash(dotted)
    case Absolute(names, dotted) => out + "/" + Path(names) + Slash(dotted)
  }

  function Place(out: string, gs: seq<Group>, empties: bool): string
    decreases |gs|
  {
    if gs == [] then out else Place(Next(out, gs[0], empties), gs[1..], empties)
  }

  function Slash(dotted: bool): string { if dotted then "/" else "" }

  function Start(sysdisk: string, v: Option<string>): string {
    if v.None? || v.value == "" then ""
    else if Lower(v.value) == Lower(sysdisk) then "/"
    else "/" + v.value
  }

  // ---- The directory loop ----

  lemma {:induction false} NamesName(n: string, t: string)
    requires Clean(n) && (t == "" || t[0] == '.')
    ensures Names(n + t) == n + Names(t)
  {
    if n == "" {
      assert n + t == t;
    } else {
      RestClean(n);
      var s := n + t;
      assert s[0] == n[0] && s[1..] == n[1..] + t;
      NotAcross(n, t, "000000");
      NotAcross(n, t, "0,0");
      NamesName(n[1..], t);
      assert n == [n[0]] + n[1..];
    }
  }

  lemma NotAcross(n: string, t: string, mark: string)
    requires n != "" && '.' !in mark && (t == "" || t[0] == '.') && !StartsAt(n, 0, mark)
    ensures !StartsAt(n + t, 0, mark)
  {
    var s := n + t;
    if |mark| <= |n| {
      assert s[..|mark|] == n[..|mark|];
    } else if |mark| <= |s| {
      assert s[..|mark|][|n|] == '.';
      assert '.' in s[..|mark|];
    }
  }

  lemma NamesMarker(n: string, t: string)
    requires Marker(n)
    ensures Names(n + t) == Names(t)
  {
    var s := n + t;
    assert s[..|n|] == n && s[|n|..] == t;
    assert s[0] == '0';
    if n == "0,0" && |s| >= 6 { assert s[..6][1] == ','; }
  }

  lemma NamesHere(n: string, t: string)
    requires NameOk(n) && (t == "" || t[0] == '.')
    ensures Names(n + t) == (if Marker(n) then "" else n) + Names(t)
  {
    if Marker(n) { NamesMarker(n, t); } else { NamesName(n, t); }
  }

  lemma NamesDot(t: string)
    ensures Names("." + t) == "/" + Names(t)
  {
    assert ("." + t)[1..] == t;
  }

  lemma {:induction false} NamesPath(names: seq<string>, dotted: bool)
    requires names != [] && forall i :: 0 <= i < |names| ==> NameOk(names[i])
    ensures Names(Dotted(names) + Tail(dotted)) + "/" == Path(names) + Slash(dotted)
    decreases |names|
  {
    var n, here := names[0], if Marker(names[0]) then "" else names[0];
    if |names| == 1 {
      NamesHere(n, Tail(dotted));
      NamesDot("");
      assert Path(names) == here + "/" + "";
    } else {
      var t := Dotted(names[1..]) + Tail(dotted);
      assert Dotted(names) + Tail(dotted) == n + ("." + t);
      NamesHere(n, "." + t);
      NamesDot(t);
      NamesPath(names[1..], dotted);
      Spliced(here, Names(t), Path(names[1..]), Slash(dotted));
    }
  }

  lemma Spliced(a: string, b: string, c: string, d: string)
    requires b + "/" == c + d
    ensures a + ("/" + b) + "/" == a + "/" + c + d
  {
    assert a + ("/" + b) + "/" == a + "/" + (b + "/");
  }

  lemma {:induction false} DottedPlain(names: seq<string>)
    requires names != [] && forall i :: 0 <= i < |names| ==> NameOk(names[i])
    ensures NoMarks(Dotted(names)) && Dotted(names) != "" && Dotted(names)[0] != '.'
    ensures Dotted(names)[0] == names[0][0]
  {
    assert names[0][0] in names[0];
    if |names| == 1 {
    } else {
      DottedPlain(names[1..]);
    }
  }

  lemma InsidePlain(g: Group)
    requires GroupOk(g)
    ensures NoMarks(Inside(g)) && NoBrackets(Inside(g)) && ':' !in Inside(g) && ';' !in Inside(g)
  {
    if !g.Empty? { DottedPlain(g.names); }
    forall c | c in ":;[]" ensures c !in Inside(g) { }
  }

  lemma EmptyCopied(out: string, empties: bool)
    ensures CopyDir("[]", 0, out, empties) == if empties then "" else out + "//"
  {
    var dir := "[]";
    assert dir[0..2] == "[]" && dir[0..2][1] == ']';
    if !empties {
      assert !StartsAt(dir, 0, "[.");
      assert CopyDir(dir, 0, out, false) == CopyDir(dir, 1, out + "/", false);
      assert dir[1] == ']';
      assert CopyDir(dir, 1, out + "/", false) == CopyDir(dir, 2, out + "/" + "/", false);
    }
  }

  /** One directory, read by the loop. */
  lemma GroupCopied(g: Group, out: string, empties: bool)
    requires GroupOk(g)
    ensures CopyDir(GroupText(g), 0, out, empties) == Next(out, g, empties)
  {
    InsidePlain(g);
    if g.Empty? {
      assert GroupText(g) == "[]";
      EmptyCopied(out, empties);
    } else {
      DottedPlain(g.names);
      NamesPath(g.names, g.dotted);
      var body := Inside(g);
      assert body[0] == if g.Relative? then '.' else Dotted(g.names)[0];
      assert g.Relative? ==> body[1..] == Dotted(g.names) + Tail(g.dotted);
      CopyWhole(body, out, empties);
      var names := Names(if g.Relative? then body[1..] else body);
      if g.Relative? {
        assert "" + names + "/" == names + "/";
      } else {
        assert out + "/" + names + "/" == out + "/" + (names + "/");
        assert out + "/" + Path(g.names) + Slash(g.dotted) == out + "/" + (Path(g.names) + Slash(g.dotted));
      }
    }
  }

  /** No closing bracket but at the end. */
  predicate Opens(t: string) {
    t != "" && forall k :: 0 <= k < |t| - 1 ==> t[k] != ']'
  }

  /** What starts within the first directory ends within it. */
  lemma StartsWithin(a: string, b: string, i: nat, t: string)
    requires i < |a| && a[|a| - 1] == ']' && Opens(t)
    ensures StartsAt(a + b, i, t) <==> StartsAt(a, i, t)
  {
    var s := a + b;
    if i + |t| <= |a| {
      assert s[i..i + |t|] == a[i..i + |t|];
    } else if i + |t| <= |s| {
      assert s[i..i + |t|][|a| - 1 - i] == a[|a| - 1];
    }
  }

  lemma {:induction false} CopyBehind(a: string, b: string, j: nat, out: string, empties: bool)
    requires j <= |b|
    ensures CopyDir(a + b, |a| + j, out, empties) == CopyDir(b, j, out, empties)
    decreases |b| - j
  {
    if j >= |b| {
    } else {
      TurnBehind(a, b, j, out, empties);
      var (k, more) := Turn(b, j, out, empties);
      CopyBehind(a, b, j + k, more, empties);
      assert |a| + (j + k) == |a| + j + k;
    }
  }

  /** One turn of the loop: how far it goes and what stands then. */
  function Turn(dir: string, i: nat, out: string, empties: bool): (r: (nat, string))
    requires i < |dir|
    ensures 0 < r.0 <= |dir| - i && CopyDir(dir, i, out, empties) == CopyDir(dir, i + r.0, r.1, empties)
  {
    if empties && StartsAt(dir, i, "[]") then (2, "")
    else if StartsAt(dir, i, "[.") then (2, "")
    else if dir[i] in "[]." then (1, out + "/")
    else if StartsAt(dir, i, "000000") then (6, out)
    else if StartsAt(dir, i, "0,0") then (3, out)
    else (1, out + [dir[i]])
  }

  lemma TurnBehind(a: string, b: string, j: nat, out: string, empties: bool)
    requires j < |b|
    ensures Turn(a + b, |a| + j, out, empties) == Turn(b, j, out, empties)
  {
    StartsBehind(a, b, "[]", j);
    StartsBehind(a, b, "[.", j);
    StartsBehind(a, b, "000000", j);
    StartsBehind(a, b, "0,0", j);
    assert (a + b)[|a| + j] == b[j];
  }

  lemma SameTurn(a: string, b: string, i: nat, out: string, empties: bool)
    requires i < |a| && a[|a| - 1] == ']'
    ensures Turn(a + b, i, out, empties) == Turn(a, i, out, empties)
  {
    StartsWithin(a, b, i, "[]");
    StartsWithin(a, b, i, "[.");
    StartsWithin(a, b, i, "000000");
    StartsWithin(a, b, i, "0,0");
  }

  /** Two directories side by side are read one after the other. */
  lemma {:induction false} CopyJoin(a: string, b: string, i: nat, out: string, empties: bool)
    requires a != "" && a[|a| - 1] == ']' && i <= |a|
    ensures CopyDir(a + b, i, out, empties) == CopyDir(b, 0, CopyDir(a, i, out, empties), empties)
    decreases |a| - i
  {
    if i >= |a| {
      CopyBehind(a, b, 0, out, empties);
    } else {
      SameTurn(a, b, i, out, empties);
      var (k, more) := Turn(a, i, out, empties);
      CopyJoin(a, b, i + k, more, empties);
    }
  }

  lemma {:induction false} GroupsCopied(gs: seq<Group>, out: string, empties: bool)
    requires forall i :: 0 <= i < |gs| ==> GroupOk(gs[i])
    ensures CopyDir(GroupsText(gs), 0, out, empties) == Place(out, gs, empties)
    decreases |gs|
  {
    if gs == [] {
    } else {
      var rest := gs[1..];
      GroupCopied(gs[0], out, empties);
      CopyJoin(GroupText(gs[0]), GroupsText(rest), 0, out, empties);
      GroupsCopied(rest, Next(out, gs[0], empties), empties);
    }
  }

  // ---- Taking it apart ----

  lemma FindsIn(a: string, c: char, b: string)
    requires c !in a
    ensures Find(a + [c] + b, c) == |a|
  {
    FindIn(a, c, b);
  }

  lemma ParseColon(v: string, rest: string)
    requires ':' !in v
    ensures Parse(v + ":" + rest) == ParseBehind(v + ":", rest)
  {
    var text := v + ":" + rest;
    FindsIn(v, ':', rest);
    assert text == v + [':'] + rest;
    assert text[..|v| + 1] == v + ":" && text[|v| + 1..] == rest;
  }

  lemma ParsePlain(rest: string)
    requires ':' !in rest
    ensures Parse(rest) == ParseBehind("", rest)
  {
    assert rest[0..] == rest;
  }

  /** The volume is what stands before the colon. */
  lemma ParseVolume(v: Option<string>, rest: string)
    requires ':' !in rest && (v.Some? ==> ':' !in v.value)
    ensures Parse(VolumeText(v) + rest) == ParseBehind(VolumeText(v), rest)
  {
    if v.Some? {
      ParseColon(v.value, rest);
    } else {
      assert "" + rest == rest;
      ParsePlain(rest);
    }
  }

  lemma NoDirectory(volume: string, file: string)
    requires NoBrackets(file)
    ensures ParseBehind(volume, file) == Parts(volume, "", file)
  {
    if file != "" { assert file[0] in file; }
  }

  lemma OneDirectory(volume: string, a: string, file: string)
    requires NoBrackets(a) && NoBrackets(file)
    ensures ParseBehind(volume, "[" + a + "]" + file) == Parts(volume, "[" + a + "]", file)
  {
    DirectoryEnd(a, file);
  }

  lemma SecondDirectory(a: string, b: string, file: string)
    requires NoBrackets(a) && NoBrackets(b) && NoBrackets(file)
    ensures var first, second := "[" + a + "]", "[" + b + "]";
      var rest := first + second + file;
      && Find(rest, ']') == |a| + 1 && rest[|a| + 2] == '[' && rest[|a| + 2..] == second + file
      && Find(second + file, ']') == |b| + 1
  {
    var first, second := "[" + a + "]", "[" + b + "]";
    var rest := first + second + file;
    assert rest == ("[" + a) + [']'] + (second + file);
    FindsIn("[" + a, ']', second + file);
    assert second + file == ("[" + b) + [']'] + file;
    FindsIn("[" + b, ']', file);
  }

  lemma TwoDirectories(volume: string, a: string, b: string, file: string)
    requires NoBrackets(a) && NoBrackets(b) && NoBrackets(file)
    ensures var first, second := "[" + a + "]", "[" + b + "]";
      ParseBehind(volume, first + second + file) == Parts(volume, first + second, file)
  {
    var front := "[" + a + "]" + ("[" + b + "]");
    var rest := front + file;
    SecondDirectory(a, b, file);
    assert rest[..|front|] == front && rest[|front|..] == file;
  }

  lemma TwoTexts(gs: seq<Group>)
    ensures |gs| == 1 ==> GroupsText(gs) == GroupText(gs[0])
    ensures |gs| == 2 ==> GroupsText(gs) == GroupText(gs[0]) + GroupText(gs[1])
  {
    if |gs| == 1 {
      assert GroupsText(gs[1..]) == "";
    } else if |gs| == 2 {
      assert gs[1..][1..] == [];
      assert GroupsText(gs[1..]) == GroupText(gs[1]) + "";
    }
  }

  lemma ParseGroups(volume: string, gs: seq<Group>, file: string)
    requires |gs| <= 2 && NoBrackets(file) && forall i :: 0 <= i < |gs| ==> GroupOk(gs[i])
    ensures ParseBehind(volume, GroupsText(gs) + file) == Parts(volume, GroupsText(gs), file)
  {
    TwoTexts(gs);
    if gs == [] {
      assert "" + file == file;
      NoDirectory(volume, file);
    } else {
      InsidePlain(gs[0]);
      if |gs| == 1 {
        OneDirectory(volume, Inside(gs[0]), file);
      } else {
        InsidePlain(gs[1]);
        TwoDirectories(volume, Inside(gs[0]), Inside(gs[1]), file);
      }
    }
  }

  lemma {:induction false} GroupsPlain(gs: seq<Group>)
    requires forall i :: 0 <= i < |gs| ==> GroupOk(gs[i])
    ensures ':' !in GroupsText(gs) && ';' !in GroupsText(gs)
    decreases |gs|
  {
    if gs == [] {
    } else {
      InsidePlain(gs[0]);
      GroupsPlain(gs[1..]);
    }
  }

  // ---- The whole specification ----

  lemma {:induction false} GroupsEnd(gs: seq<Group>)
    requires gs != []
    ensures GroupsText(gs) != "" && GroupsText(gs)[|GroupsText(gs)| - 1] == ']'
    decreases |gs|
  {
    if |gs| == 1 {
      assert GroupsText(gs[1..]) == "";
    } else {
      GroupsEnd(gs[1..]);
    }
  }

  lemma DropBehind(front: string, file: string)
    requires front != "" ==> front[|front| - 1] != '.'
    ensures DropDot(front + file) == front + DropDot(file)
  {
    var s := front + file;
    if file != "" {
      assert s[|s| - 1] == file[|file| - 1];
      assert s[..|s| - 1] == front + file[..|file| - 1];
    } else {
      assert s == front;
      assert front + "" == front;
    }
  }

  lemma FrontEnd(v: Option<string>, gs: seq<Group>)
    ensures var front := VolumeText(v) + GroupsText(gs); front != "" ==> front[|front| - 1] in ":]"
  {
    var front := VolumeText(v) + GroupsText(gs);
    if gs != [] {
      GroupsEnd(gs);
      assert front[|front| - 1] == GroupsText(gs)[|GroupsText(gs)| - 1];
    } else {
      assert front == VolumeText(v);
    }
  }

  /** Of a dot at the very end only that of the file name goes. */
  lemma DropLast(v: Option<string>, gs: seq<Group>, file: string)
    ensures DropDot(VolumeText(v) + (GroupsText(gs) + file)) == VolumeText(v) + (GroupsText(gs) + DropDot(file))
  {
    FrontEnd(v, gs);
    DropBehind(VolumeText(v) + GroupsText(gs), file);
    Regroup(VolumeText(v), GroupsText(gs), file);
    Regroup(VolumeText(v), GroupsText(gs), DropDot(file));
  }

  lemma CutBehind(x: string, version: Option<string>)
    requires ';' !in x
    ensures Before(x + VersionText(version), ';') == x
  {
    if version.Some? {
      BeforeVersion(x, version.value);
      Regroup(x, ";", version.value);
    } else {
      assert x + "" == x;
    }
  }

  lemma PartsOf(s: Spec)
    requires SpecOk(s)
    ensures Parse(DropDot(Before(TextOf(s), ';'))) == Parts(VolumeText(s.volume), GroupsText(s.groups), DropDot(s.file))
  {
    var x := VolumeText(s.volume) + (GroupsText(s.groups) + s.file);
    GroupsPlain(s.groups);
    FilePlain(s.file);
    CutBehind(x, s.version);
    DropLast(s.volume, s.groups, s.file);
    ParseVolume(s.volume, GroupsText(s.groups) + DropDot(s.file));
    ParseGroups(VolumeText(s.volume), s.groups, DropDot(s.file));
  }

  lemma FilePlain(file: string)
    requires NoMarks(file)
    ensures ';' !in file && ':' !in file && ':' !in DropDot(file) && NoBrackets(DropDot(file))
  {
    forall c | c in DropDot(file) ensures c in file { }
    forall c | c in ":;[]" ensures c !in file && c !in DropDot(file) { }
  }

  lemma VolumeOff(v: Option<string>)
    ensures var t := VolumeText(v);
      (if t != "" && t[|t| - 1] == ':' then t[..|t| - 1] else t) == if v.Some? then v.value else ""
  {
  }

  /** A specification stands for the place its directories lead to, and the name in it; the
      version and a dot behind the name do not count. */
  lemma SpecMeans(sysdisk: string, empties: bool, isDirectory: string -> bool, s: Spec)
    requires SpecOk(s) && sysdisk != ""
    ensures ToUnix(sysdisk, empties, isDirectory, TextOf(s))
         == StripDir(isDirectory, Lower(Place(Start(sysdisk, s.volume), s.groups, empties) + Star(DropDot(s.file))))
  {
    PartsOf(s);
    VolumeOff(s.volume);
    GroupsCopied(s.groups, Start(sysdisk, s.volume), empties);
  }

  /** In fal, from what a user types to the path opened. */
  lemma TypedInFal(isDirectory: string -> bool, s: Spec)
    requires SpecOk(s)
    ensures FalFilespec.MakeUnix(isDirectory, TextOf(s))
         == StripDir(isDirectory, Lower(Place(Start(FalFilespec.SYSDISK, s.volume), s.groups, true) + Star(DropDot(s.file))))
  {
    SpecMeans(FalFilespec.SYSDISK, true, isDirectory, s);
  }

  /** The same in dapfs, where empty brackets are two slashes more. */
  lemma TypedInDapfs(isDirectory: string -> bool, s: Spec)
    requires SpecOk(s)
    ensures DapfsFilespec.MakeUnix(isDirectory, TextOf(s))
         == StripDir(isDirectory, Lower(Place(Start(DapfsFilespec.SYSDISK, s.volume), s.groups, false) + Star(DropDot(s.file))))
  {
    SpecMeans(DapfsFilespec.SYSDISK, false, isDirectory, s);
  }

  /** Empty brackets before a name do not matter to fal. */
  lemma EmptyBrackets(isDirectory: string -> bool, file: string, version: Option<string>)
    requires NoMarks(file)
    ensures FalFilespec.MakeUnix(isDirectory, "[]" + (file + VersionText(version)))
         == FalFilespec.MakeUnix(isDirectory, file + VersionText(version))
  {
    EmptyText(file, version);
    assert Place("", [Group.Empty], true) == "" by {
      assert [Group.Empty][1..] == [];
      assert Next("", Group.Empty, true) == "";
    }
    TypedInFal(isDirectory, Spec(None, [Empty], file, version));
    TypedInFal(isDirectory, Spec(None, [], file, version));
  }

  lemma EmptyText(file: string, version: Option<string>)
    ensures TextOf(Spec(None, [Empty], file, version)) == "[]" + (file + VersionText(version))
    ensures TextOf(Spec(None, [], file, version)) == file + VersionText(version)
  {
    TwoTexts([Empty]);
    assert GroupsText([Empty]) == "[]";
    assert "" + ("[]" + file) + VersionText(version) == "[]" + (file + VersionText(version));
    assert "" + ("" + file) == file;
  }

  // ---- The place as a path ----

  /** A directory: from the root or from the login directory, down these names. */
  datatype Where = Where(fromRoot: bool, names: seq<string>)

  function Joined(names: seq<string>): string {
    if names == [] then "" else names[0] + "/" + Joined(names[1..])
  }

  function PathText(w: Where): string { (if w.fromRoot then "/" else "") + Joined(w.names) }

  function Real(names: seq<string>): seq<string> {
    if names == [] then [] else (if Marker(names[0]) then [] else [names[0]]) + Real(names[1..])
  }

  /** Where one directory leads in fal: back to the login directory, below it, or further
      down; down from the login directory itself is down from the root, and so is below it
      by way of a name of the root. */
  function Goes(w: Where, g: Group): Where
    requires GroupOk(g)
  {
    match g
    case Empty => Where(false, [])
    case Relative(names, dotted) => Where(Marker(names[0]), Real(names))
    case Absolute(names, dotted) => Where(w.fromRoot || w.names == [], w.names + Real(names))
  }

  function Leads(w: Where, gs: seq<Group>): Where
    requires forall i :: 0 <= i < |gs| ==> GroupOk(gs[i])
    decreases |gs|
  {
    if gs == [] then w else Leads(Goes(w, gs[0]), gs[1..])
  }

  /** The volume is the root of the file system or a directory in it. */
  function Origin(sysdisk: string, v: Option<string>): Where {
    if v.None? || v.value == "" then Where(false, [])
    else if Lower(v.value) == Lower(sysdisk) then Where(true, [])
    else Where(true, [v.value])
  }

  // Up to repeated slashes, with a slash behind it.
  function Squashed(s: string): string { FalFilespec.Squash(s + "/") }

  /** What is written so far is the directory; a relative directory without a name counts
      as the root when something follows. */
  ghost predicate Is(out: string, w: Where) {
    Squashed(out) == if w == Where(false, []) then "/" else PathText(w)
  }

  lemma SquashSlash(a: string)
    requires a != "" && a[|a| - 1] == '/'
    ensures FalFilespec.Squash(a + "/") == FalFilespec.Squash(a)
    decreases |a|
  {
    if |a| == 1 {
      assert a == "/" && (a + "/")[1..] == "/";
    } else {
      assert (a + "/")[1..] == a[1..] + "/";
      SquashSlash(a[1..]);
    }
  }

  /** A name behind a slash, and the slash behind it. */
  lemma SquashMore(a: string, n: string)
    requires a != "" && a[|a| - 1] == '/' && n != "" && '/' !in n
    ensures FalFilespec.Squash(a + (n + "/")) == FalFilespec.Squash(a) + (n + "/")
  {
    FalRoundTrip.SquashName(a, n);
    Regroup(a, n, "/");
    Regroup(FalFilespec.Squash(a), n, "/");
    SquashEnd(a + n);
  }

  lemma SquashEnd(s: string)
    requires s != "" && s[|s| - 1] != '/'
    ensures FalFilespec.Squash(s + "/") == FalFilespec.Squash(s) + "/"
    decreases |s|
  {
    if |s| == 1 {
      assert (s + "/")[1..] == "/";
    } else {
      assert (s + "/")[1..] == s[1..] + "/";
      SquashEnd(s[1..]);
    }
  }

  predicate Flat(names: seq<string>) {
    forall i :: 0 <= i < |names| ==> names[i] != "" && '/' !in names[i]
  }

  lemma {:induction false} SquashPath(a: string, names: seq<string>)
    requires a != "" && a[|a| - 1] == '/' && Flat(names)
    ensures FalFilespec.Squash(a + Path(names)) == FalFilespec.Squash(a) + Joined(Real(names))
    decreases |names|
  {
    if names == [] {
      assert a + "" == a;
      assert FalFilespec.Squash(a) + "" == FalFilespec.Squash(a);
    } else {
      var n, rest := names[0], names[1..];
      var step := if Marker(n) then "/" else n + "/";
      assert Path(names) == step + Path(rest);
      Regroup(a, step, Path(rest));
      SquashPath(a + step, rest);
      if Marker(n) { SquashSlash(a); } else { SquashMore(a, n); }
      RealFirst(names);
      if !Marker(n) { Regroup(FalFilespec.Squash(a), step, Joined(Real(rest))); }
    }
  }

  lemma RealFirst(names: seq<string>)
    requires names != []
    ensures Joined(Real(names)) == (if Marker(names[0]) then "" else names[0] + "/") + Joined(Real(names[1..]))
  {
    var rest := Real(names[1..]);
    if Marker(names[0]) {
      assert [] + rest == rest;
      assert "" + Joined(rest) == Joined(rest);
    } else {
      assert ([names[0]] + rest)[1..] == rest;
    }
  }

  lemma {:induction false} JoinedPlus(a: seq<string>, b: seq<string>)
    ensures Joined(a + b) == Joined(a) + Joined(b)
  {
    if a == [] {
      assert a + b == b;
      assert "" + Joined(b) == Joined(b);
    } else {
      assert (a + b)[1..] == a[1..] + b;
      JoinedPlus(a[1..], b);
      Regroup(a[0] + "/", Joined(a[1..]), Joined(b));
    }
  }

  predicate FlatGroup(g: Group) { !g.Empty? ==> Flat(g.names) }

  lemma {:induction false} PathEnds(names: seq<string>)
    requires names != []
    ensures Path(names) != "" && Path(names)[|Path(names)| - 1] == '/'
  {
    if |names| == 1 {
      assert Path(names[1..]) == "";
    } else {
      PathEnds(names[1..]);
    }
  }

  /** Slashes behind a path that ends in one do not count. */
  lemma TailSlashes(a: string, dotted: bool)
    requires a != "" && a[|a| - 1] == '/'
    ensures Squashed(a + Slash(dotted)) == FalFilespec.Squash(a)
  {
    var b := a + Slash(dotted);
    if dotted { SquashSlash(a); } else { assert b == a; }
    assert b[|b| - 1] == '/';
    SquashSlash(b);
  }

  lemma FlatSquash(n: string)
    requires n != "" && '/' !in n
    ensures FalFilespec.Squash(n + "/") == n + "/"
  {
    forall i | 0 <= i < |n + "/"| - 1 ensures (n + "/")[i] != '/' { assert (n + "/")[i] == n[i]; }
    FalRoundTrip.SquashSame(n + "/");
  }

  lemma RelativeIs(names: seq<string>, dotted: bool)
    requires names != [] && Flat(names)
    ensures Is(Path(names) + Slash(dotted), Where(Marker(names[0]), Real(names)))
  {
    var n, rest := names[0], names[1..];
    PathEnds(names);
    TailSlashes(Path(names), dotted);
    var front := if Marker(n) then "/" else n + "/";
    assert Path(names) == front + Path(rest);
    if !Marker(n) { FlatSquash(n); }
    SquashPath(front, rest);
    if Marker(n) {
      assert Real(names) == Real(rest);
    } else {
      assert Real(names) == [n] + Real(rest);
      assert "" + Joined(Real(names)) == n + "/" + Joined(Real(rest));
    }
  }

  lemma AbsoluteIs(out: string, w: Where, names: seq<string>, dotted: bool)
    requires Is(out, w) && names != [] && Flat(names)
    ensures Is(out + "/" + Path(names) + Slash(dotted), Where(w.fromRoot || w.names == [], w.names + Real(names)))
  {
    PathEnds(names);
    var a := out + "/";
    TailSlashes(a + Path(names), dotted);
    SquashPath(a, names);
    JoinedPlus(w.names, Real(names));
    if w == Where(false, []) {
      assert [] + Real(names) == Real(names);
    } else {
      Regroup(if w.fromRoot then "/" else "", Joined(w.names), Joined(Real(names)));
    }
  }

  lemma GroupIs(out: string, w: Where, g: Group)
    requires Is(out, w) && GroupOk(g) && FlatGroup(g)
    ensures Is(Next(out, g, true), Goes(w, g))
  {
    match g
    case Empty => assert "" + "/" == "/";
    case Relative(names, dotted) => RelativeIs(names, dotted);
    case Absolute(names, dotted) => AbsoluteIs(out, w, names, dotted);
  }

  lemma {:induction false} GroupsAre(out: string, w: Where, gs: seq<Group>)
    requires Is(out, w) && forall i :: 0 <= i < |gs| ==> GroupOk(gs[i]) && FlatGroup(gs[i])
    ensures Is(Place(out, gs, true), Leads(w, gs))
    decreases |gs|
  {
    if gs == [] {
    } else {
      GroupIs(out, w, gs[0]);
      GroupsAre(Next(out, gs[0], true), Goes(w, gs[0]), gs[1..]);
    }
  }

  lemma OriginIs(sysdisk: string, v: Option<string>)
    requires v.Some? ==> '/' !in v.value
    ensures Is(Start(sysdisk, v), Origin(sysdisk, v))
  {
    assert "" + "/" == "/" && "/" + "" == "/";
    if v.Some? && v.value != "" {
      if Lower(v.value) == Lower(sysdisk) {
        SquashSlash("/");
      } else {
        assert "/" + v.value + "/" == "/" + (v.value + "/");
        SquashMore("/", v.value);
        assert FalFilespec.Squash("/") == "/";
        assert [v.value][1..] == [];
        assert Joined([v.value]) == v.value + "/" + "";
      }
    }
  }

  lemma NextEnds(out: string, g: Group)
    requires GroupOk(g) && !g.Empty?
    ensures var p := Next(out, g, true); p != "" && p[|p| - 1] == '/'
  {
    PathEnds(g.names);
    assert g.dotted || Path(g.names) + "" == Path(g.names);
  }

  lemma {:induction false} PlaceEnds(out: string, gs: seq<Group>)
    requires gs != [] && forall i :: 0 <= i < |gs| ==> GroupOk(gs[i])
    ensures var p := Place(out, gs, true);
      if gs[|gs| - 1].Empty? then p == "" else p != "" && p[|p| - 1] == '/'
    decreases |gs|
  {
    if |gs| == 1 {
      assert gs[1..] == [];
      assert Place(out, gs, true) == Next(out, gs[0], true);
      if !gs[0].Empty? { NextEnds(out, gs[0]); }
    } else {
      PlaceEnds(Next(out, gs[0], true), gs[1..]);
    }
  }

  lemma {:induction false} LeadsAway(w: Where, gs: seq<Group>)
    requires gs != [] && forall i :: 0 <= i < |gs| ==> GroupOk(gs[i])
    ensures Leads(w, gs) == Where(false, []) <==> gs[|gs| - 1].Empty?
    decreases |gs|
  {
    if |gs| == 1 {
      assert gs[1..] == [];
      if gs[0].Relative? && !Marker(gs[0].names[0]) { assert Real(gs[0].names) != []; }
    } else {
      LeadsAway(Goes(w, gs[0]), gs[1..]);
    }
  }

  /** Up to repeated slashes, a specification with a directory stands for the path to where
      its volume and directories lead, and the name. Without a directory a volume and a name
      run together. */
  lemma TypedPath(s: Spec)
    requires SpecOk(s) && s.groups != [] && (s.volume.Some? ==> '/' !in s.volume.value) && '/' !in s.file
    requires forall i :: 0 <= i < |s.groups| ==> FlatGroup(s.groups[i])
    ensures var name := Star(DropDot(s.file));
      FalFilespec.Squash(Place(Start(FalFilespec.SYSDISK, s.volume), s.groups, true) + name)
      == PathText(Leads(Origin(FalFilespec.SYSDISK, s.volume), s.groups)) + name
  {
    var out, w := Start(FalFilespec.SYSDISK, s.volume), Origin(FalFilespec.SYSDISK, s.volume);
    var p, name := Place(out, s.groups, true), Star(DropDot(s.file));
    OriginIs(FalFilespec.SYSDISK, s.volume);
    GroupsAre(out, w, s.groups);
    PlaceEnds(out, s.groups);
    LeadsAway(w, s.groups);
    NameFlat(s.file);
    if p == "" {
      assert "" + name == name;
      FalRoundTrip.SquashSame(name);
    } else {
      SquashSlash(p);
      FalRoundTrip.SquashName(p, name);
    }
  }

  lemma NameFlat(file: string)
    requires '/' !in file
    ensures var name := Star(DropDot(file)); '/' !in name && FalFilespec.NoDouble(name)
  {
    forall c | c in DropDot(file) ensures c in file { }
  }
}
