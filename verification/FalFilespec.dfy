/** FAL's file names: a Unix path as a VMS file specification and back. */
module FalFilespec {
  import opened Wrappers
  import opened Filespec

  /** The pseudo volume for the root of the file system. */
  const SYSDISK := "SYSDISK"

  // ---- The converters ----

  /** The name with its type and version added. */
  function Decorate(full: string, isDir: bool): string
    requires '/' in full
  {
    var base := full[FindLast(full, '/')..];
    var n := if '.' in base then full else full + ".";
    if isDir then (if n[|n| - 1] != '.' then n + "." else n) + "DIR;1"
    else if ';' in n then n
    else n + ";1"
  }

  /** A name with one slash is in the root, with two in a directory below it, and
      with more on a volume named after the first directory. */
  function Assemble(u: string): string
    requires u != "" && u[0] == '/'
  {
    var n := Slashes(u);
    if n == 1 then SYSDISK + ":[000000]" + u[1..]
    else
      SecondSlash(u);
      var second := 1 + Find(u[1..], '/');
      if n == 2 then SYSDISK + ":[" + u[1..second] + "]" + u[second + 1..]
      else Deep(u, second)
  }

  function Deep(u: string, second: nat): string
    requires u != "" && u[0] == '/' && Slashes(u) > 2 && second == 1 + Find(u[1..], '/')
  {
    LastSlash(u);
    var last := FindLast(u, '/');
    u[1..second] + ":[" + Dots(u[second + 1..last]) + "]" + u[last + 1..]
  }

  function MakeVms(full: string, isDir: bool): string
    requires full != "" && full[0] == '/'
  {
    DecorateStart(full, isDir);
    Assemble(Upper(Decorate(full, isDir)))
  }

  function MakeUnix(isDirectory: string -> bool, vms: string): string {
    ToUnix(SYSDISK, true, isDirectory, vms)
  }

  lemma DecorateStart(full: string, isDir: bool)
    requires full != "" && full[0] == '/'
    ensures var u := Upper(Decorate(full, isDir)); u != "" && u[0] == '/'
  {
  }

  lemma SecondSlash(u: string)
    requires u != "" && u[0] == '/'
    ensures Slashes(u) == 1 + Slashes(u[1..])
    ensures Slashes(u) != 1 ==>
      var second := 1 + Find(u[1..], '/');
      second < |u| && u[second] == '/' && Slashes(u[second + 1..]) == Slashes(u) - 2
  {
    if Slashes(u) != 1 {
      Cut(u[1..]);
      assert u[1..][Find(u[1..], '/') + 1..] == u[1 + Find(u[1..], '/') + 1..];
    }
  }

  lemma LastSlash(u: string)
    requires u != "" && u[0] == '/' && Slashes(u) > 2
    ensures 1 + Find(u[1..], '/') < FindLast(u, '/')
  {
    SecondSlash(u);
    var second := 1 + Find(u[1..], '/');
    var rest := u[second + 1..];
    var j :| 0 <= j < |rest| && rest[j] == '/';
    assert u[second + 1 + j] == '/';
  }

  /** The converter as the source runs it, with its loop over the directories. */
  method MakeVmsFilespec(full: string, isDir: bool) returns (vms: string)
    requires full != "" && full[0] == '/'
    ensures vms == MakeVms(full, isDir)
  {
    DecorateStart(full, isDir);
    vms := Emit(Upper(Decorate(full, isDir)));
  }

  method Emit(u: string) returns (vms: string)
    requires u != "" && u[0] == '/'
    ensures vms == Assemble(u)
  {
    var slashes := CountSlashes(u);
    if slashes == 1 {
      return SYSDISK + ":[000000]" + u[1..];
    }
    SecondSlash(u);
    var second := 1 + Find(u[1..], '/');
    if slashes == 2 {
      return SYSDISK + ":[" + u[1..second] + "]" + u[second + 1..];
    }
    vms := Directories(u, second, slashes);
  }

  /** Appends one directory after another with a dot behind it; the last dot gives
      way to the closing bracket. */
  method Directories(u: string, second: nat, slashes: nat) returns (vms: string)
    requires u != "" && u[0] == '/' && slashes == Slashes(u) > 2 && second == 1 + Find(u[1..], '/')
    ensures vms == Deep(u, second)
  {
    var last;
    vms, last := Pieces(u, second, slashes);
    OnlyLast(u, last);
    DeepText(u, second, last);
    LastDot(u[1..second] + ":[", u[second + 1..last], u[second + 1..last + 1]);
    vms := vms[|vms| - 1 := ']'];
    vms := vms + u[last + 1..];
  }

  method Pieces(u: string, second: nat, slashes: nat) returns (vms: string, lastSlash: nat)
    requires u != "" && u[0] == '/' && slashes == Slashes(u) > 2 && second == 1 + Find(u[1..], '/')
    ensures second < lastSlash < |u| && u[lastSlash] == '/' && '/' !in u[lastSlash + 1..]
    ensures vms == u[1..second] + ":[" + Dots(u[second + 1..lastSlash + 1])
  {
    SecondSlash(u);
    vms := u[1..second] + ":[";
    ghost var head := vms;
    lastSlash := second;
    var i := 1;
    while i < slashes - 1
      invariant 1 <= i <= slashes - 1 && second <= lastSlash < |u| && u[lastSlash] == '/'
      invariant (i == 1 <==> lastSlash == second) && Slashes(u[lastSlash + 1..]) == slashes - 1 - i
      invariant vms == head + Dots(u[second + 1..lastSlash + 1])
    {
      var rest := u[lastSlash + 1..];
      var slash := lastSlash + 1 + Find(rest, '/');
      NextDirectory(u, second, lastSlash, slash, head);
      vms := vms + (u[lastSlash + 1..slash] + ".");
      lastSlash := slash;
      i := i + 1;
    }
  }

  lemma NextDirectory(u: string, second: nat, lastSlash: nat, slash: nat, head: string)
    requires second <= lastSlash < |u| && Slashes(u[lastSlash + 1..]) > 0
    requires slash == lastSlash + 1 + Find(u[lastSlash + 1..], '/')
    ensures slash < |u| && u[slash] == '/' && Slashes(u[slash + 1..]) == Slashes(u[lastSlash + 1..]) - 1
    ensures head + Dots(u[second + 1..lastSlash + 1]) + (u[lastSlash + 1..slash] + ".")
         == head + Dots(u[second + 1..slash + 1])
  {
    var rest := u[lastSlash + 1..];
    Cut(rest);
    assert rest[Find(rest, '/') + 1..] == u[slash + 1..];
    forall j | lastSlash < j < slash ensures u[j] != '/' {
      assert u[j] == rest[j - lastSlash - 1];
    }
    DotsNext(u, second, lastSlash, slash);
    Regroup(head, Dots(u[second + 1..lastSlash + 1]), u[lastSlash + 1..slash] + ".");
  }

  lemma DotsNext(u: string, second: nat, lastSlash: nat, slash: nat)
    requires second <= lastSlash < slash < |u| && u[slash] == '/'
    requires forall j :: lastSlash < j < slash ==> u[j] != '/'
    ensures Dots(u[second + 1..lastSlash + 1]) + (u[lastSlash + 1..slash] + ".") == Dots(u[second + 1..slash + 1])
  {
    var l, r := Dots(u[second + 1..lastSlash + 1]) + (u[lastSlash + 1..slash] + "."), Dots(u[second + 1..slash + 1]);
    assert |l| == |r|;
    forall i | 0 <= i < |l| ensures l[i] == r[i] {
      assert r[i] == DotChar(u[second + 1 + i]);
    }
  }

  lemma LastDot(head: string, s: string, t: string)
    requires t != "" && s == t[..|t| - 1]
    ensures var vms := head + Dots(t); vms[|vms| - 1 := ']'] == head + Dots(s) + "]"
  {
  }

  // ---- The round trip ----

  /** What stands before the last name of an absolute path. */
  datatype Shape = Root | Below(dir: string) | Under(top: string, dirs: string)

  function Prefix(sh: Shape): string {
    match sh
    case Root => "/"
    case Below(dir) => "/" + dir + "/"
    case Under(top, dirs) => "/" + top + "/" + dirs + "/"
  }

  predicate Named(name: string) {
    name != "" && '/' !in name && Plain(name)
  }

  /** A normalised lower-case path without the characters VMS gives a meaning. */
  predicate ShapeOk(sh: Shape) {
    match sh
    case Root => true
    case Below(dir) => Named(dir)
    case Under(top, dirs) => Named(top) && Plain(dirs) && dirs != "" && dirs[0] != '/' && dirs[|dirs| - 1] != '/' && NoDouble(dirs)
  }

  predicate NoDouble(s: string) {
    forall i :: 0 <= i < |s| - 1 ==> !(s[i] == '/' && s[i + 1] == '/')
  }

  function Squash(s: string): string {
    if |s| < 2 then s
    else if s[0] == '/' && s[1] == '/' then Squash(s[1..])
    else [s[0]] + Squash(s[1..])
  }

  /** The directory part survives: no dots, no root markers, and the first of
      several directories is not called like the pseudo volume. */
  ghost predicate CleanShape(sh: Shape) {
    match sh
    case Root => true
    case Below(dir) => Clean(dir)
    case Under(top, dirs) => top != Lower(SYSDISK) && Clean(dirs)
  }

  /** When a path survives. */
  ghost predicate Faithful(isDirectory: string -> bool, sh: Shape, base: string) {
    var p := Prefix(sh) + base;
    && CleanShape(sh)
    && (base != "" ==> base[|base| - 1] != '.')
    && (if isDirectory(p) then FindText(p + ".dir", ".dir", 0) == Some(|p|)
        else base != "*.*" && !Strips(isDirectory, p))
  }

  // -- out --

  function Volume(sh: Shape): string {
    if sh.Under? then Upper(sh.top) else SYSDISK
  }

  function Body(sh: Shape): string {
    match sh
    case Root => "000000"
    case Below(dir) => Upper(Dots(dir))
    case Under(_, dirs) => Upper(Dots(dirs))
  }

  /** The last name with type and version, in upper case without the version. */
  function Typed(base: string, isDir: bool): string {
    var n := if '.' in base then base else base + ".";
    if isDir then (if n[|n| - 1] != '.' then n + "." else n) + "DIR" else n
  }

  lemma DecorateAfter(b: string, base: string, isDir: bool)
    requires b != "" && b[|b| - 1] == '/' && ';' !in b && '/' !in base && ';' !in base
    ensures Decorate(b + base, isDir) == b + (Typed(base, isDir) + ";1")
  {
    LastName(b, base);
    var t := if '.' in base then base else base + ".";
    Regroup(b, base, ".");
    if isDir {
      TypedDir(b, t);
    } else {
      TypedFile(b, t);
    }
  }

  lemma LastName(b: string, base: string)
    requires b != "" && b[|b| - 1] == '/' && '/' !in base
    ensures var p := b + base;
      && '/' in p && p[FindLast(p, '/')..] == "/" + base
      && ('.' in p[FindLast(p, '/')..] <==> '.' in base)
  {
    var p := b + base;
    assert p[|b| - 1] == '/' && p[|b|..] == base;
    OnlyLast(p, |b| - 1);
    assert p[|b| - 1..] == "/" + base;
  }

  lemma TypedDir(b: string, t: string)
    requires t != ""
    ensures (if (b + t)[|b + t| - 1] != '.' then b + t + "." else b + t) + "DIR;1"
         == b + ((if t[|t| - 1] != '.' then t + "." else t) + "DIR" + ";1")
  {
    assert (b + t)[|b + t| - 1] == t[|t| - 1];
  }

  lemma TypedFile(b: string, t: string)
    requires ';' !in b && ';' !in t
    ensures ';' !in b + t && b + t + ";1" == b + (t + ";1")
  {
  }

  lemma PlainPrefix(sh: Shape)
    requires ShapeOk(sh)
    ensures Plain(Prefix(sh)) && Prefix(sh)[|Prefix(sh)| - 1] == '/' && Prefix(sh)[0] == '/'
  {
  }

  lemma UpperSlashes(a: string)
    ensures '/' !in a ==> '/' !in Upper(a)
  {
    forall i | 0 <= i < |a| && '/' !in a ensures Upper(a)[i] != '/' {
      assert a[i] in a;
    }
  }

  /** What goes out, in pieces. */
  lemma VmsIs(sh: Shape, base: string, isDir: bool)
    requires ShapeOk(sh) && Plain(base) && '/' !in base
    ensures MakeVms(Prefix(sh) + base, isDir)
         == Volume(sh) + [':'] + ("[" + Body(sh) + "]" + Upper(Typed(base, isDir) + ";1"))
  {
    PlainPrefix(sh);
    PlainHas(Prefix(sh));
    PlainHas(base);
    Decorated(Prefix(sh), base, isDir);
    TypedName(base, isDir);
    AssembleShape(sh, Upper(Typed(base, isDir) + ";1"));
  }

  /** A name that has a version already goes out with that one. */
  lemma VersionStays(sh: Shape, base: string)
    requires ShapeOk(sh) && '/' !in base && ';' in base
    ensures MakeVms(Prefix(sh) + base, false)
         == Volume(sh) + [':'] + ("[" + Body(sh) + "]" + Upper(if '.' in base then base else base + "."))
  {
    var b, t := Prefix(sh), if '.' in base then base else base + ".";
    PlainPrefix(sh);
    LastName(b, base);
    Regroup(b, base, ".");
    assert ';' in b + t;
    assert Decorate(b + base, false) == b + t;
    UpperPlus(b, t);
    UpperSlashes(t);
    AssembleShape(sh, Upper(t));
  }

  lemma PlainHas(s: string)
    requires Plain(s)
    ensures ';' !in s && ':' !in s && NoBrackets(s)
  {
  }

  lemma TypedName(base: string, isDir: bool)
    requires '/' !in base
    ensures '/' !in Upper(Typed(base, isDir) + ";1")
  {
    UpperSlashes(Typed(base, isDir) + ";1");
  }

  lemma Decorated(b: string, base: string, isDir: bool)
    requires b != "" && b[0] == '/' && b[|b| - 1] == '/' && ';' !in b && '/' !in base && ';' !in base
    ensures var u := Upper(b) + Upper(Typed(base, isDir) + ";1");
      u[0] == '/' && MakeVms(b + base, isDir) == Assemble(u)
  {
    DecorateAfter(b, base, isDir);
    UpperPlus(b, Typed(base, isDir) + ";1");
  }

  lemma AssembleShape(sh: Shape, t: string)
    requires ShapeOk(sh) && '/' !in t
    ensures Upper(Prefix(sh)) + t != "" && (Upper(Prefix(sh)) + t)[0] == '/'
    ensures Assemble(Upper(Prefix(sh)) + t) == Volume(sh) + [':'] + ("[" + Body(sh) + "]" + t)
  {
    match sh
    case Root => RootIs(t);
    case Below(dir) => VmsBelow(dir, t);
    case Under(top, dirs) => VmsUnder(top, dirs, t);
  }

  lemma VmsBelow(dir: string, t: string)
    requires '/' !in dir && '/' !in t
    ensures Upper("/" + dir + "/") + t != "" && (Upper("/" + dir + "/") + t)[0] == '/'
    ensures Assemble(Upper("/" + dir + "/") + t) == SYSDISK + [':'] + ("[" + Upper(Dots(dir)) + "]" + t)
  {
    UpperBelow(dir);
    BelowIs(Upper(dir), t);
  }

  lemma VmsUnder(top: string, dirs: string, t: string)
    requires '/' !in top && '/' !in t
    ensures Upper("/" + top + "/" + dirs + "/") + t != "" && (Upper("/" + top + "/" + dirs + "/") + t)[0] == '/'
    ensures Assemble(Upper("/" + top + "/" + dirs + "/") + t)
         == Upper(top) + [':'] + ("[" + Upper(Dots(dirs)) + "]" + t)
  {
    UpperUnder(top, dirs);
    UnderIs(Upper(top), Upper(dirs), t);
  }

  lemma UpperBelow(dir: string)
    requires '/' !in dir
    ensures Upper("/" + dir + "/") == "/" + Upper(dir) + "/" && '/' !in Upper(dir) && Dots(dir) == dir
  {
    UpperSlashes(dir);
    UpperPlus("/" + dir, "/");
    UpperPlus("/", dir);
  }

  lemma UpperUnder(top: string, dirs: string)
    requires '/' !in top
    ensures Upper("/" + top + "/" + dirs + "/") == "/" + Upper(top) + "/" + Upper(dirs) + "/"
    ensures '/' !in Upper(top) && Dots(Upper(dirs)) == Upper(Dots(dirs))
  {
    UpperSlashes(top);
    UpperFour("/" + top, dirs);
    UpperPlus("/", top);
    DotsUpper(dirs);
  }

  lemma UpperFour(start: string, names: string)
    ensures Upper(start + "/" + names + "/") == Upper(start) + "/" + Upper(names) + "/"
    ensures Upper("/") == "/"
  {
    UpperPlus(start + "/" + names, "/");
    UpperPlus(start + "/", names);
    UpperPlus(start, "/");
  }

  lemma RootIs(t: string)
    requires '/' !in t
    ensures Assemble("/" + t) == SYSDISK + [':'] + ("[" + "000000" + "]" + t)
  {
    SlashesPlus("/", t);
    assert ("/" + t)[1..] == t;
    assert SYSDISK + ":[000000]" + t == SYSDISK + [':'] + ("[" + "000000" + "]" + t);
  }

  lemma Counted(top: string, rest: string)
    requires '/' !in top
    ensures var u := "/" + top + "/" + rest;
      && Slashes(u) == 2 + Slashes(rest) && Find(u[1..], '/') == |top|
      && u[1..1 + |top|] == top && u[|top| + 2..] == rest
  {
    var u := "/" + top + "/" + rest;
    OneSlash();
    SlashesPlus("/" + top + "/", rest);
    SlashesPlus("/" + top, "/");
    SlashesPlus("/", top);
    assert u[1..] == top + ['/'] + rest;
    FindIn(top, '/', rest);
  }

  lemma BelowIs(d: string, t: string)
    requires '/' !in d && '/' !in t
    ensures Assemble("/" + d + "/" + t) == SYSDISK + [':'] + ("[" + d + "]" + t)
  {
    Counted(d, t);
    Bracketed(SYSDISK, d, t);
  }

  lemma Bracketed(v: string, d: string, t: string)
    ensures v + ":[" + d + "]" + t == v + [':'] + ("[" + d + "]" + t)
  {
  }

  lemma UnderIs(top: string, dirs: string, t: string)
    requires '/' !in top && '/' !in t
    ensures Assemble("/" + top + "/" + dirs + "/" + t) == top + [':'] + ("[" + Dots(dirs) + "]" + t)
  {
    var rest := dirs + "/" + t;
    var u := "/" + top + "/" + rest;
    Regroup("/" + top + "/" + dirs, "/", t);
    Regroup("/" + top + "/", dirs, "/" + t);
    Regroup(dirs, "/", t);
    assert "/" + top + "/" + dirs + "/" + t == u;
    Counted(top, rest);
    MoreSlashes(dirs, t);
    UnderLast(top, dirs, t);
    DeepPieces(u, 1 + |top|, top, dirs, t);
    Bracketed(top, Dots(dirs), t);
  }

  lemma MoreSlashes(dirs: string, t: string)
    ensures Slashes(dirs + "/" + t) > 0
  {
    assert (dirs + "/" + t)[|dirs|] == '/';
  }

  lemma DeepPieces(u: string, second: nat, top: string, dirs: string, t: string)
    requires u != "" && u[0] == '/' && Slashes(u) > 2 && second == 1 + Find(u[1..], '/')
    requires second + 1 + |dirs| < |u| && FindLast(u, '/') == second + 1 + |dirs|
    requires u[1..second] == top && u[second + 1..second + 1 + |dirs|] == dirs && u[second + 2 + |dirs|..] == t
    ensures Assemble(u) == top + ":[" + Dots(dirs) + "]" + t
  {
    AssembleDeep(u, second);
    DeepText(u, second, second + 1 + |dirs|);
  }

  lemma DeepText(u: string, second: nat, last: nat)
    requires u != "" && u[0] == '/' && Slashes(u) > 2 && second == 1 + Find(u[1..], '/')
    requires second < last < |u| && FindLast(u, '/') == last
    ensures Deep(u, second) == u[1..second] + ":[" + Dots(u[second + 1..last]) + "]" + u[last + 1..]
  {
  }

  lemma AssembleDeep(u: string, second: nat)
    requires u != "" && u[0] == '/' && Slashes(u) > 2 && second == 1 + Find(u[1..], '/')
    ensures Assemble(u) == Deep(u, second)
  {
  }

  lemma UnderLast(top: string, dirs: string, t: string)
    requires '/' !in t
    ensures var u, second := "/" + top + "/" + (dirs + "/" + t), 1 + |top|;
      && '/' in u && FindLast(u, '/') == second + 1 + |dirs|
      && u[second + 1..second + 1 + |dirs|] == dirs && u[second + 2 + |dirs|..] == t
  {
    var u, last := "/" + top + "/" + (dirs + "/" + t), |top| + 2 + |dirs|;
    assert u[last] == '/' && u[last + 1..] == t;
    OnlyLast(u, last);
  }
}
