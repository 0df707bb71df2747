/** When a path comes back from FAL's VMS form unchanged. */
module FalRoundTrip {
  import opened Wrappers
  import opened Filespec
  import opened FalFilespec

  // ---- The way back, in pieces ----

  function StartFor(sysdisk: string, volume: string): string {
    if Lower(volume) == Lower(sysdisk) then "/" else if volume != "" then "/" + volume else ""
  }

  function Start(volume: string): string {
    StartFor(SYSDISK, volume)
  }

  lemma CutVersion(x: string, name: string)
    requires ';' !in x && ';' !in name && name != ""
    ensures DropDot(Before(x + (name + ";1"), ';')) == x + DropDot(name)
  {
    BeforeVersion(x + name, "1");
    assert x + (name + ";1") == x + name + ";" + "1";
    var s := x + name;
    assert s[|s| - 1] == name[|name| - 1];
    if name[|name| - 1] == '.' { assert s[..|s| - 1] == x + name[..|name| - 1]; }
  }

  lemma UnixOf(isDirectory: string -> bool, volume: string, body: string, name: string)
    requires ':' !in volume && ';' !in volume && volume != ""
    requires ':' !in body && ';' !in body && NoBrackets(body) && body != ""
    requires ';' !in name && NoBrackets(name) && name != ""
    ensures MakeUnix(isDirectory, volume + [':'] + ("[" + body + "]" + (name + ";1")))
         == StripDir(isDirectory, Lower(CopyDir("[" + body + "]", 0, Start(volume), true) + Star(DropDot(name))))
  {
    UnixParts(volume, body, name);
    WithVolume(isDirectory, volume + [':'] + ("[" + body + "]" + (name + ";1")), volume, "[" + body + "]", DropDot(name));
  }

  lemma UnixParts(volume: string, body: string, name: string)
    requires ':' !in volume && ';' !in volume
    requires ':' !in body && ';' !in body && NoBrackets(body)
    requires ';' !in name && NoBrackets(name) && name != ""
    ensures Parse(DropDot(Before(volume + [':'] + ("[" + body + "]" + (name + ";1")), ';')))
         == Parts(volume + ":", "[" + body + "]", DropDot(name))
  {
    var x := volume + [':'] + ("[" + body + "]");
    Regroup(volume + [':'], "[" + body + "]", name + ";1");
    CutVersion(x, name);
    Regroup(volume + [':'], "[" + body + "]", DropDot(name));
    ParseWhole(volume, body, DropDot(name));
  }

  lemma WithVolume(isDirectory: string -> bool, vms: string, volume: string, directory: string, file: string)
    requires Parse(DropDot(Before(vms, ';'))) == Parts(volume + ":", directory, file)
    ensures MakeUnix(isDirectory, vms)
         == StripDir(isDirectory, Lower(CopyDir(directory, 0, Start(volume), true) + Star(file)))
  {
    VolumeName(volume);
  }

  lemma VolumeName(volume: string)
    ensures var v := volume + ":"; v[|v| - 1] == ':' && v[..|v| - 1] == volume
  {
  }

  /** The directory part that comes back, in lower case. */
  function Landed(sh: Shape): string {
    Lower(CopyDir("[" + Body(sh) + "]", 0, Start(Volume(sh)), true))
  }

  /** The last name that comes back, before a directory's type is removed. */
  function Returned(base: string, isDir: bool): string {
    if isDir then DropDot(base) + ".dir" else Star(DropDot(base))
  }

  lemma SpelledOk(sh: Shape)
    requires ShapeOk(sh)
    ensures ':' !in Volume(sh) && ';' !in Volume(sh) && Volume(sh) != ""
    ensures ':' !in Body(sh) && ';' !in Body(sh) && NoBrackets(Body(sh)) && Body(sh) != ""
  {
    match sh
    case Root =>
    case Below(dir) => SpelledDots(dir);
    case Under(top, dirs) => SpelledDots(top); SpelledDots(dirs); UpperKeeps(top);
  }

  lemma UpperKeeps(s: string)
    requires Plain(s)
    ensures var u := Upper(s); ':' !in u && ';' !in u && NoBrackets(u)
  {
    var u := Upper(s);
    forall c | c in u ensures c !in ":;[]" {
      var i :| 0 <= i < |u| && u[i] == c;
      assert s[i] in s && u[i] == UpperChar(s[i]);
    }
  }

  lemma TripIs(isDirectory: string -> bool, sh: Shape, base: string, isDir: bool)
    requires ShapeOk(sh) && Plain(base) && '/' !in base
    ensures MakeUnix(isDirectory, MakeVms(Prefix(sh) + base, isDir))
         == StripDir(isDirectory, Landed(sh) + Returned(base, isDir))
  {
    var name := Upper(Typed(base, isDir));
    VmsIs(sh, base, isDir);
    UpperPlus(Typed(base, isDir), ";1");
    assert Upper(";1") == ";1";
    TypedPlain(base, isDir);
    SpelledOk(sh);
    UnixOf(isDirectory, Volume(sh), Body(sh), name);
    LowerPlus(CopyDir("[" + Body(sh) + "]", 0, Start(Volume(sh)), true), Star(DropDot(name)));
    NameBack(base, isDir);
  }

  /** The name without the capital type that FAL adds to directories. */
  lemma TypedPlain(base: string, isDir: bool)
    requires Plain(base)
    ensures Typed(base, isDir) != "" && ';' !in Upper(Typed(base, isDir)) && NoBrackets(Upper(Typed(base, isDir)))
  {
    var t := Typed(base, isDir);
    forall c | c in t ensures c !in ";[]" && UpperChar(c) !in ";[]" {
      assert c in base || c in ".DIR";
    }
    forall c | c in Upper(t) ensures c !in ";[]" {
      var i :| 0 <= i < |t| && Upper(t)[i] == c;
      assert t[i] in t && c == UpperChar(t[i]);
    }
  }

  lemma LowerOfUpper(s: string)
    ensures Lower(Upper(s)) == Lower(s)
  {
    forall i | 0 <= i < |s| ensures Lower(Upper(s))[i] == Lower(s)[i] {
      assert Upper(s)[i] == UpperChar(s[i]);
    }
  }

  lemma PlainLower(s: string)
    requires Plain(s)
    ensures Lower(s) == s
  {
    forall i | 0 <= i < |s| ensures Lower(s)[i] == s[i] {
      assert s[i] in s;
    }
  }

  lemma NameBack(base: string, isDir: bool)
    requires Plain(base)
    ensures Lower(Star(DropDot(Upper(Typed(base, isDir))))) == Returned(base, isDir)
  {
    var t := Typed(base, isDir);
    UpperSame(t);
    UpperSame(DropDot(t));
    LowerOfUpper(Star(DropDot(t)));
    if isDir {
      DirName(base);
    } else {
      assert DropDot(t) == DropDot(base) by { FileName(base); }
      assert Plain(Star(DropDot(base)));
      PlainLower(Star(DropDot(base)));
    }
  }

  lemma FileName(base: string)
    ensures DropDot(Typed(base, false)) == DropDot(base)
  {
    if '.' !in base {
      assert (base + ".")[..|base|] == base;
      if base != "" { assert base[|base| - 1] in base; }
    }
  }

  lemma DirName(base: string)
    requires Plain(base)
    ensures Lower(Star(DropDot(Typed(base, true)))) == DropDot(base) + ".dir"
  {
    var t, b := Typed(base, true), DropDot(base);
    assert t == b + ".DIR" by { DirTyped(base); }
    assert t[|t| - 1] == 'R';
    assert DropDot(t) == t && Star(t) == t;
    LowerPlus(b, ".DIR");
    assert Lower(".DIR") == ".dir";
    assert Plain(b);
    PlainLower(b);
  }

  lemma DirTyped(base: string)
    ensures Typed(base, true) == DropDot(base) + ".DIR"
  {
    if '.' !in base {
      if base != "" { assert base[|base| - 1] in base; }
      assert base + "." + "DIR" == base + ".DIR";
    } else if base[|base| - 1] == '.' {
      assert base == DropDot(base) + ".";
      assert base + "DIR" == DropDot(base) + ".DIR";
    } else {
      assert base + "." + "DIR" == base + ".DIR";
    }
  }

  // ---- Ink ----

  /** What lands never has more ink than what went out, has less unless the shape is
      clean, and a clean shape lands as it was but for slashes in front. */
  lemma LandedInk(sh: Shape)
    requires ShapeOk(sh)
    ensures Ink(Landed(sh)) <= Ink(Prefix(sh))
    ensures Ink(Landed(sh)) == Ink(Prefix(sh)) <==> CleanShape(sh)
    ensures CleanShape(sh) ==> Landed(sh) == Front(sh) + Prefix(sh)
  {
    match sh
    case Root =>
      LandedRoot();
      assert "//" + "/" == "///";
    case Below(dir) => LandedBelow(dir);
    case Under(top, dirs) => LandedUnder(top, dirs);
  }

  /** The slashes that come on top. */
  function Front(sh: Shape): string {
    match sh
    case Root => "//"
    case Below(_) => "/"
    case Under(_, _) => ""
  }

  lemma LandedRoot()
    ensures Landed(Root) == "///" && Ink("///") == Ink("/") == 0
  {
    assert Names("000000") == "" by { assert "000000"[0..6] == "000000"; }
    CopyWhole("000000", "/", true);
    assert Lower("/" + "/" + "" + "/") == "///";
  }

  lemma LowerCopied(u: string, start: string)
    requires NoBrackets(u) && u != ""
    ensures Lower(CopyDir("[" + u + "]", 0, start, true))
         == if u[0] == '.' then Lower(Names(u[1..])) + "/" else Lower(start) + "/" + Lower(Names(u)) + "/"
  {
    CopyWhole(u, start, true);
    if u[0] == '.' {
      assert "" + Names(u[1..]) + "/" == Names(u[1..]) + "/";
      LowerPlus(Names(u[1..]), "/");
    } else {
      LowerFour(start, Names(u));
    }
  }

  lemma LowerFour(start: string, names: string)
    ensures Lower(start + "/" + names + "/") == Lower(start) + "/" + Lower(names) + "/"
  {
    LowerPlus(start + "/" + names, "/");
    LowerPlus(start + "/", names);
    LowerPlus(start, "/");
  }

  /** A directory text after what stands before it. */
  lemma LandedText(text: string, start: string)
    requires Plain(text) && text != "" && text[0] != '/'
    ensures Lower(CopyDir("[" + Upper(Dots(text)) + "]", 0, start, true))
         == if text[0] == '.' then Back(text[1..]) + "/" else Lower(start) + "/" + Back(text) + "/"
  {
    var u := Upper(Dots(text));
    assert u[0] == UpperChar(DotChar(text[0]));
    SpelledDots(text);
    LowerCopied(u, start);
    if u[0] == '.' {
      SpellRest(text, 1);
      PlainRest(text);
      ReadBack(text[1..]);
    } else {
      ReadBack(text);
    }
  }

  lemma PlainRest(s: string)
    requires Plain(s) && s != ""
    ensures Plain(s[1..])
  {
    forall c | c in s[1..] ensures c in s { }
  }

  lemma BelowText(dir: string)
    requires Named(dir)
    ensures Landed(Below(dir)) == if dir[0] == '.' then Back(dir[1..]) + "/" else "//" + Back(dir) + "/"
  {
    LandedText(dir, "/");
    SysStart(SYSDISK);
    assert Landed(Below(dir)) == Lower(CopyDir("[" + Upper(Dots(dir)) + "]", 0, "/", true));
    OneSlashLower();
  }

  lemma SysStart(sysdisk: string)
    ensures StartFor(sysdisk, sysdisk) == "/"
  {
  }

  lemma OneSlashLower()
    ensures Lower("/") == "/" && Lower("/") + "/" == "//"
  {
  }

  lemma LandedBelow(dir: string)
    requires Named(dir)
    ensures var sh := Below(dir);
      && Ink(Landed(sh)) <= Ink(Prefix(sh)) && (Ink(Landed(sh)) == Ink(Prefix(sh)) <==> Clean(dir))
      && (Clean(dir) ==> Landed(sh) == "/" + Prefix(sh))
  {
    BelowText(dir);
    WrapInk("/", dir, "/");
    BackInk(dir);
    if dir[0] == '.' {
      LostDot(dir);
    } else {
      WrapInk("//", Back(dir), "/");
      OneMore(dir);
    }
  }

  lemma OneMore(dir: string)
    ensures "//" + dir + "/" == "/" + ("/" + dir + "/")
  {
  }

  lemma LostDot(text: string)
    requires text != "" && text[0] == '.'
    ensures Ink(Back(text[1..]) + "/") < Ink(text) && !Clean(text)
  {
    BackInk(text[1..]);
    InkPlus(Back(text[1..]), "/");
    WrapInk("", "", "");
  }

  lemma WrapInk(a: string, s: string, b: string)
    ensures Ink(a + s + b) == Ink(a) + Ink(s) + Ink(b)
    ensures Ink("/") == 0 && Ink("//") == 0
  {
    InkPlus(a + s, b);
    InkPlus(a, s);
    assert "//"[1..] == "/" && "/"[1..] == "";
  }

  lemma LandedUnder(top: string, dirs: string)
    requires ShapeOk(Under(top, dirs))
    ensures var sh := Under(top, dirs);
      && Ink(Landed(sh)) <= Ink(Prefix(sh)) && (Ink(Landed(sh)) == Ink(Prefix(sh)) <==> CleanShape(sh))
      && (CleanShape(sh) ==> Landed(sh) == Prefix(sh))
  {
    LandedText(dirs, Start(Upper(top)));
    UnderInk(top, dirs);
    UnderStart(top, SYSDISK);
    BackInk(dirs);
    if dirs[0] == '.' {
      LostDot(dirs);
    } else if top == Lower(SYSDISK) {
      WrapInk("//", Back(dirs), "/");
    } else {
      UnderInk(top, Back(dirs));
    }
  }

  lemma UnderInk(top: string, dirs: string)
    requires '/' !in top && top != ""
    ensures Ink("/" + top + "/" + dirs + "/") == |top| + Ink(dirs)
  {
    WrapInk("/" + top + "/", dirs, "/");
    WrapInk("/", top, "/");
    InkBound(top);
  }

  lemma UnderStart(top: string, sysdisk: string)
    requires Named(top)
    ensures Lower(StartFor(sysdisk, Upper(top))) + "/" == if top == Lower(sysdisk) then "//" else "/" + top + "/"
  {
    LowerOfUpper(top);
    PlainLower(top);
    OneSlashLower();
    LowerPlus("/", Upper(top));
  }

  // ---- Repeated slashes ----

  lemma {:induction false} InkSquash(s: string)
    ensures Ink(Squash(s)) == Ink(s)
    decreases |s|
  {
    if |s| < 2 {
    } else {
      InkSquash(s[1..]);
      if !(s[0] == '/' && s[1] == '/') {
        assert ([s[0]] + Squash(s[1..]))[1..] == Squash(s[1..]);
      }
    }
  }

  lemma {:induction false} SquashSame(s: string)
    requires NoDouble(s)
    ensures Squash(s) == s
    decreases |s|
  {
    if |s| < 2 {
    } else {
      assert !(s[0] == '/' && s[0 + 1] == '/');
      forall i | 0 <= i < |s[1..]| - 1 ensures !(s[1..][i] == '/' && s[1..][i + 1] == '/') {
        assert !(s[i + 1] == '/' && s[i + 1 + 1] == '/');
      }
      SquashSame(s[1..]);
    }
  }

  /** A name at the end is not touched. */
  lemma {:induction false} SquashName(a: string, name: string)
    requires a != "" && a[|a| - 1] == '/' && '/' !in name
    ensures Squash(a + name) == Squash(a) + name
    ensures Squash(a) != "" && Squash(a)[|Squash(a)| - 1] == '/'
    decreases |a|
  {
    if |a| == 1 {
      if name != "" {
        assert name[0] in name;
        NoSlashNoDouble(name);
        SquashSame(name);
        assert (a + name)[1..] == name;
      } else {
        assert a + name == a;
      }
    } else {
      assert (a + name)[1..] == a[1..] + name;
      SquashName(a[1..], name);
    }
  }

  lemma NoSlashNoDouble(s: string)
    requires '/' !in s
    ensures NoDouble(s)
  {
  }

  lemma SquashFront(sh: Shape, s: string)
    requires s != "" && s[0] == '/'
    ensures Squash(Front(sh) + s) == Squash(s)
  {
    match sh
    case Under(_, _) => assert "" + s == s;
    case Below(_) => assert ("/" + s)[1..] == s;
    case Root =>
      assert ("//" + s)[1..] == "/" + s;
      assert ("/" + s)[1..] == s;
  }

  lemma PathNoDouble(sh: Shape, base: string)
    requires ShapeOk(sh) && '/' !in base
    ensures NoDouble(Prefix(sh) + base)
  {
    var p := Prefix(sh) + base;
    forall i | 0 <= i < |p| - 1 ensures !(p[i] == '/' && p[i + 1] == '/') {
      if i + 1 >= |Prefix(sh)| {
        assert p[i + 1] in base;
      } else {
        match sh
        case Root =>
        case Below(dir) => assert i < |dir| ==> p[i + 1] in dir; assert 0 < i ==> p[i] in dir;
        case Under(top, dirs) => UnderNoDouble(top, dirs, i);
      }
    }
  }

  lemma UnderNoDouble(top: string, dirs: string, i: nat)
    requires ShapeOk(Under(top, dirs)) && i + 1 < |Prefix(Under(top, dirs))|
    ensures var s := Prefix(Under(top, dirs)); !(s[i] == '/' && s[i + 1] == '/')
  {
    var s := Prefix(Under(top, dirs));
    var k := |top| + 2;
    if i < |top| {
      assert s[i + 1] in top;
    } else if i + 1 < k {
      assert s[i] in top;
    } else if k <= i && i + 1 < k + |dirs| {
      var j := i - k;
      assert s[i] == dirs[j] && s[i + 1] == dirs[j + 1];
      assert !(dirs[j] == '/' && dirs[j + 1] == '/');
    }
  }

  /** A name behind a slash is what follows the last slash. */
  lemma NameBehind(a: string, f: string)
    requires a != "" && a[|a| - 1] == '/' && '/' !in f
    ensures (a + f)[|a| - 1] == '/' && (a + f)[|a|..] == f
    ensures forall i :: |a| <= i < |a + f| ==> (a + f)[i] != '/'
  {
    forall i | |a| <= i < |a + f| ensures (a + f)[i] != '/' {
      assert (a + f)[i] == f[i - |a|];
    }
  }

  // ---- Main result ----

  lemma ReturnedFile(base: string)
    requires '/' !in base
    ensures var r := Returned(base, false);
      && Ink(r) <= Ink(base) && (Ink(r) == Ink(base) <==> r == base)
      && (r == base <==> (base != "" ==> base[|base| - 1] != '.') && base != "*.*")
  {
    var r := Returned(base, false);
    assert '/' !in r;
    InkBound(r);
    InkBound(base);
  }

  lemma LandedEnds(sh: Shape)
    requires ShapeOk(sh)
    ensures Landed(sh) != "" && Landed(sh)[|Landed(sh)| - 1] == '/'
  {
    SpelledOk(sh);
    LowerCopied(Body(sh), Start(Volume(sh)));
  }

  /** A stripped name is four inked characters shorter. */
  lemma StripInk(isDirectory: string -> bool, r: string)
    ensures if Strips(isDirectory, r) then r == StripDir(isDirectory, r) + ".dir" && Ink(r) == Ink(StripDir(isDirectory, r)) + 4
            else StripDir(isDirectory, r) == r
  {
    if Strips(isDirectory, r) {
      var t := StripDir(isDirectory, r);
      assert r == t + ".dir";
      InkPlus(t, ".dir");
      InkBound(".dir");
      assert Ink(".dir") == 4;
    }
  }

  /** Slashes in front do not change which directory a path names. */
  ghost predicate SlashBlind(isDirectory: string -> bool) {
    forall s: string :: isDirectory(s) == isDirectory(Squash(s))
  }

  lemma FrontStrips(isDirectory: string -> bool, sh: Shape, p: string)
    requires SlashBlind(isDirectory) && p != "" && p[0] == '/'
    ensures Strips(isDirectory, Front(sh) + p) <==> Strips(isDirectory, p)
    ensures Strips(isDirectory, p) ==> StripDir(isDirectory, Front(sh) + p) == Front(sh) + p[..|p| - 4]
  {
    if |p| >= 4 {
      var q := p[..|p| - 4];
      if q == "" {
        assert p[0] == '/';
        NotDir(p);
        assert !Strips(isDirectory, p);
        FrontLong(sh, p);
      } else {
        SquashFront(sh, q);
        assert isDirectory(Front(sh) + q) == isDirectory(Squash(Front(sh) + q));
        assert isDirectory(q) == isDirectory(Squash(q));
        StripBehind(isDirectory, Front(sh), p);
      }
    } else {
      FrontLong(sh, p);
    }
  }

  lemma NotDir(p: string)
    requires p != "" && p[0] == '/'
    ensures FindText(p, ".dir", 0) != Some(0)
  {
    FirstChar(p, 0, ".dir");
  }

  /** A path that is too short to end in .dir stays so behind slashes. */
  lemma FrontLong(sh: Shape, p: string)
    requires p != "" && p[0] == '/' && |p| <= 4
    ensures FindText(Front(sh) + p, ".dir", 0) != Some(|Front(sh) + p| - 4)
  {
    var r := Front(sh) + p;
    if |r| >= 4 {
      var k := |r| - 4;
      FirstChar(r, k, ".dir");
      assert r[k] == if k < |Front(sh)| then Front(sh)[k] else p[k - |Front(sh)|];
    }
  }

  predicate PathOk(sh: Shape, base: string) {
    ShapeOk(sh) && Plain(base) && '/' !in base && (base == "" ==> sh.Root?)
  }

  lemma FileTrip(isDirectory: string -> bool, sh: Shape, base: string)
    requires PathOk(sh, base) && SlashBlind(isDirectory) && !isDirectory(Prefix(sh) + base)
    ensures var p := Prefix(sh) + base;
      Squash(StripDir(isDirectory, Landed(sh) + Returned(base, false))) == p <==> Faithful(isDirectory, sh, base)
  {
    var p, back := Prefix(sh) + base, Returned(base, false);
    var r := Landed(sh) + back;
    LandedInk(sh);
    ReturnedFile(base);
    StripInk(isDirectory, r);
    InkPlus(Landed(sh), back);
    InkPlus(Prefix(sh), base);
    InkSquash(StripDir(isDirectory, r));
    PlainPrefix(sh);
    if CleanShape(sh) && back == base {
      Regroup(Front(sh), Prefix(sh), base);
      assert r == Front(sh) + p;
      FrontStrips(isDirectory, sh, p);
      PathNoDouble(sh, base);
      SquashSame(p);
      SquashFront(sh, p);
    }
  }

  lemma DirTrip(isDirectory: string -> bool, sh: Shape, base: string)
    requires PathOk(sh, base) && SlashBlind(isDirectory) && isDirectory(Prefix(sh) + base)
    ensures var p := Prefix(sh) + base;
      Squash(StripDir(isDirectory, Landed(sh) + Returned(base, true))) == p <==> Faithful(isDirectory, sh, base)
  {
    var p, b := Prefix(sh) + base, DropDot(base);
    var r := Landed(sh) + (b + ".dir");
    var t := StripDir(isDirectory, r);
    LandedInk(sh);
    PlainPrefix(sh);
    StripInk(isDirectory, r);
    if Strips(isDirectory, r) {
      SameStem(t, Landed(sh) + b, ".dir");
      Regroup(Landed(sh), b, ".dir");
      DirStripped(isDirectory, sh, base);
    } else {
      DirKept(sh, base);
      if CleanShape(sh) && b == base { DirFront(isDirectory, sh, base); }
    }
  }

  lemma SameStem(a: string, b: string, end: string)
    ensures a + end == b + end ==> a == b
  {
    if a + end == b + end {
      assert |a| == |b|;
      assert (a + end)[..|a|] == a && (b + end)[..|b|] == b;
    }
  }

  /** The stem that is left when the type has been removed. */
  lemma DirStripped(isDirectory: string -> bool, sh: Shape, base: string)
    requires PathOk(sh, base) && SlashBlind(isDirectory) && isDirectory(Prefix(sh) + base)
    requires Strips(isDirectory, Landed(sh) + (DropDot(base) + ".dir"))
    ensures var p := Prefix(sh) + base;
      Squash(Landed(sh) + DropDot(base)) == p <==> Faithful(isDirectory, sh, base)
  {
    var p, b := Prefix(sh) + base, DropDot(base);
    LandedInk(sh);
    PlainPrefix(sh);
    InkPlus(Landed(sh), b);
    InkPlus(Prefix(sh), base);
    InkSquash(Landed(sh) + b);
    InkBound(base);
    InkBound(b);
    if CleanShape(sh) && b == base {
      DirFront(isDirectory, sh, base);
      Regroup(Front(sh), Prefix(sh), base);
      PathNoDouble(sh, base);
      SquashSame(p);
      SquashFront(sh, p);
    }
  }

  /** With a clean shape the type is removed exactly when the path has no other. */
  lemma DirFront(isDirectory: string -> bool, sh: Shape, base: string)
    requires PathOk(sh, base) && SlashBlind(isDirectory) && isDirectory(Prefix(sh) + base)
    requires CleanShape(sh) && DropDot(base) == base
    ensures var p := Prefix(sh) + base;
      Strips(isDirectory, Landed(sh) + (base + ".dir")) <==> FindText(p + ".dir", ".dir", 0) == Some(|p|)
  {
    var p := Prefix(sh) + base;
    LandedInk(sh);
    PlainPrefix(sh);
    FrontDir(Front(sh), Prefix(sh), base);
    FrontStrips(isDirectory, sh, p + ".dir");
    StripsDir(isDirectory, p);
  }

  lemma FrontDir(front: string, prefix: string, base: string)
    ensures front + prefix + (base + ".dir") == front + (prefix + base + ".dir")
  {
  }

  lemma StripsDir(isDirectory: string -> bool, p: string)
    requires isDirectory(p)
    ensures Strips(isDirectory, p + ".dir") <==> FindText(p + ".dir", ".dir", 0) == Some(|p|)
  {
    assert (p + ".dir")[..|p + ".dir"| - 4] == p;
  }

  /** A type that stays makes the last name too long. */
  lemma DirKept(sh: Shape, base: string)
    requires PathOk(sh, base)
    ensures Squash(Landed(sh) + (DropDot(base) + ".dir")) != Prefix(sh) + base
  {
    LandedEnds(sh);
    PlainPrefix(sh);
    NoSlash(base);
    KeptName(Landed(sh), DropDot(base) + ".dir", Prefix(sh), base);
  }

  lemma KeptName(a: string, f: string, b: string, base: string)
    requires a != "" && a[|a| - 1] == '/' && b != "" && b[|b| - 1] == '/'
    requires '/' !in f && '/' !in base && |f| > |base|
    ensures Squash(a + f) != b + base
  {
    SquashName(a, f);
    Longer(Squash(a), f, b, base);
  }

  lemma Longer(a: string, f: string, b: string, base: string)
    requires a != "" && a[|a| - 1] == '/' && b != "" && b[|b| - 1] == '/'
    requires '/' !in f && '/' !in base && |f| > |base|
    ensures a + f != b + base
  {
    NameBehind(a, f);
    NameBehind(b, base);
  }

  lemma NoSlash(base: string)
    requires '/' !in base
    ensures '/' !in DropDot(base) + ".dir" && |DropDot(base) + ".dir"| > |base|
  {
  }

  lemma EitherTrip(isDirectory: string -> bool, sh: Shape, base: string, isDir: bool, back: string)
    requires PathOk(sh, base) && SlashBlind(isDirectory) && isDir == isDirectory(Prefix(sh) + base)
    requires back == StripDir(isDirectory, Landed(sh) + Returned(base, isDir))
    ensures Squash(back) == Prefix(sh) + base <==> Faithful(isDirectory, sh, base)
  {
    if isDir { DirTrip(isDirectory, sh, base); } else { FileTrip(isDirectory, sh, base); }
  }

  /** A path goes out to VMS and comes back as it was, but for repeated slashes,
      exactly when its directories have no dots and no root markers, the first of
      several is not called like the pseudo volume, its name does not end in a dot,
      and no .dir in it is mistaken for a directory's type. */
  lemma RoundTrip(isDirectory: string -> bool, sh: Shape, base: string)
    requires PathOk(sh, base) && SlashBlind(isDirectory)
    ensures var p := Prefix(sh) + base;
      && p != "" && p[0] == '/'
      && (Squash(MakeUnix(isDirectory, MakeVms(p, isDirectory(p)))) == p <==> Faithful(isDirectory, sh, base))
  {
    var p := Prefix(sh) + base;
    PlainPrefix(sh);
    TripIs(isDirectory, sh, base, isDirectory(p));
    EitherTrip(isDirectory, sh, base, isDirectory(p), MakeUnix(isDirectory, MakeVms(p, isDirectory(p))));
  }

  /** Every normalised absolute path has such a shape. */
  lemma EveryPath(p: string) returns (sh: Shape, base: string)
    requires p != "" && p[0] == '/' && Plain(p) && NoDouble(p) && (|p| > 1 ==> p[|p| - 1] != '/')
    ensures PathOk(sh, base) && p == Prefix(sh) + base
  {
    var last := FindLast(p, '/');
    base := p[last + 1..];
    var second := 1 + Find(p[1..], '/');
    PlainPart(p, last + 1, |p|);
    assert '/' !in base;
    if last == 0 {
      sh := Root;
      assert p == "/" + base;
    } else {
      assert p[1..][last - 1] == '/';
      assert base != "";
      sh := if second == last then Below(p[1..last]) else Under(p[1..second], p[second + 1..last]);
      if second == last { BelowPath(p, last); } else { UnderPath(p, second, last); }
    }
  }

  lemma BelowPath(p: string, last: nat)
    requires 1 <= last < |p| && p[0] == '/' && Plain(p) && NoDouble(p) && p[last] == '/' && last == 1 + Find(p[1..], '/')
    ensures ShapeOk(Below(p[1..last])) && p == Prefix(Below(p[1..last])) + p[last + 1..]
  {
    PlainPart(p, 1, last);
    assert !(p[0] == '/' && p[0 + 1] == '/');
    assert p[1..last] == p[1..][..last - 1];
  }

  lemma PlainPart(s: string, i: nat, j: nat)
    requires Plain(s) && i <= j <= |s|
    ensures Plain(s[i..j])
  {
    forall c | c in s[i..j] ensures c in s { }
  }

  lemma UnderPath(p: string, second: nat, last: nat)
    requires 1 <= second < last < |p| && p[0] == '/' && Plain(p) && NoDouble(p)
    requires second == 1 + Find(p[1..], '/') && p[last] == '/'
    ensures var sh := Under(p[1..second], p[second + 1..last]); ShapeOk(sh) && p == Prefix(sh) + p[last + 1..]
  {
    var top, dirs := p[1..second], p[second + 1..last];
    UnderPieces(p, second, last);
    PlainPart(p, 1, second);
    PlainPart(p, second + 1, last);
    assert p[second] == p[1..][second - 1] == '/';
    assert !(p[0] == '/' && p[0 + 1] == '/') && !(p[second] == '/' && p[second + 1] == '/');
    NotBoth(p, last - 1);
    assert '/' !in top;
    forall i | 0 <= i < |dirs| - 1 ensures !(dirs[i] == '/' && dirs[i + 1] == '/') {
      assert !(p[second + 1 + i] == '/' && p[second + 1 + i + 1] == '/');
    }
  }

  lemma NotBoth(p: string, i: nat)
    requires NoDouble(p) && i + 1 < |p| && p[i + 1] == '/'
    ensures p[i] != '/'
  {
  }

  lemma UnderPieces(p: string, second: nat, last: nat)
    requires 1 <= second < last < |p| && p[0] == '/' && p[last] == '/'
    requires second - 1 < |p[1..]| && p[1..][second - 1] == '/'
    ensures p == "/" + p[1..second] + "/" + p[second + 1..last] + "/" + p[last + 1..]
  {
    var q := "/" + p[1..second] + "/" + p[second + 1..last] + "/" + p[last + 1..];
    assert |q| == |p|;
    forall i | 0 <= i < |p| ensures q[i] == p[i] { }
  }
}
