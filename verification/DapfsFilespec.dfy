/** The file names of dapfs: Unix paths below a mount point as VMS specifications
    relative to the user's directory, and back. */
module DapfsFilespec {
  import opened Wrappers
  import opened Filespec

  const SYSDISK := "SYS$SYSDEVICE"

  /** The character the source looks for where it means a dot: a misplaced
      parenthesis turns the dot into the truth value of the whole condition. */
  const ONE: char := 1 as char

  /** The name with a dot added; for files that is nearly always. */
  function Decorate(name: string, isDir: bool): string
    requires '/' in name
  {
    if isDir || ONE in name[FindLast(name, '/')..] then name else name + "."
  }

  function Assemble(u: string): string
    requires u != "" && u[0] == '/'
  {
    var last := FindLast(u, '/');
    "[." + (if last == 0 then "" else Dots(u[1..last])) + "]" + u[last + 1..]
  }

  function MakeVms(name: string, isDir: bool): string
    requires name != "" && name[0] == '/'
  {
    var u := Upper(Decorate(name, isDir));
    if Slashes(u) == 1 then name[1..] else Assemble(u)
  }

  function MakeUnix(isDirectory: string -> bool, vms: string): string {
    ToUnix(SYSDISK, false, isDirectory, vms)
  }

  /** The converter as the source runs it: one pass that counts slashes and closes
      the bracket at the last. */
  method MakeVmsFilespec(name: string, isDir: bool) returns (vms: string)
    requires name != "" && name[0] == '/'
    ensures vms == MakeVms(name, isDir)
  {
    var u := Upper(Decorate(name, isDir));
    assert u[0] == '/';
    var slashes := CountSlashes(u);
    if slashes == 1 {
      return name[1..];
    }
    vms := Convert(u, slashes);
  }

  method Convert(u: string, slashes: nat) returns (vms: string)
    requires u != "" && u[0] == '/' && slashes == Slashes(u) > 1
    ensures vms == Assemble(u)
  {
    ghost var last := FindLast(u, '/');
    NotFirst(u);
    vms := "[.";
    var thisSlash := 1;
    FirstSlash(u);
    var i := 1;
    while i < |u|
      invariant 1 <= i <= |u| && thisSlash == Slashes(u[..i]) && vms == Converted(u, last, i)
    {
      CountNext(u, i);
      LastCounted(u, i, last);
      TextNext(u, i, last);
      if u[i] == '/' {
        thisSlash := thisSlash + 1;
        if thisSlash == slashes {
          vms := vms + "]";
        } else {
          vms := vms + ".";
        }
      } else {
        vms := vms + [u[i]];
      }
      i := i + 1;
    }
    assert u[last + 1..|u|] == u[last + 1..];
  }

  /** What has been written when the loop stands at i. */
  ghost function Converted(u: string, last: nat, i: nat): string
    requires 0 < last < |u| && 1 <= i <= |u|
  {
    if i <= last then "[." + Dots(u[1..i]) else "[." + Dots(u[1..last]) + "]" + u[last + 1..i]
  }

  lemma FirstSlash(u: string)
    requires u != "" && u[0] == '/'
    ensures Slashes(u[..1]) == 1
  {
    assert u[..1] == "/";
    OneSlash();
  }

  lemma NotFirst(u: string)
    requires u != "" && u[0] == '/' && Slashes(u) > 1
    ensures FindLast(u, '/') > 0
  {
    var j :| 0 <= j < |u[1..]| && u[1..][j] == '/';
    assert u[j + 1] == '/';
  }

  lemma CountNext(u: string, i: nat)
    requires i < |u|
    ensures Slashes(u[..i + 1]) == Slashes(u[..i]) + (if u[i] == '/' then 1 else 0)
  {
    SlashesPlus(u[..i], [u[i]]);
    assert u[..i + 1] == u[..i] + [u[i]];
    assert [u[i]][1..] == "";
  }

  lemma LastCounted(u: string, i: nat, last: nat)
    requires i < |u| && '/' in u && last == FindLast(u, '/')
    ensures u[i] == '/' ==> i <= last && (Slashes(u[..i + 1]) == Slashes(u) <==> i == last)
  {
    SlashesPlus(u[..i + 1], u[i + 1..]);
    assert u == u[..i + 1] + u[i + 1..];
    if i < last { assert u[i + 1..][last - i - 1] == '/'; }
  }

  lemma TextNext(u: string, i: nat, last: nat)
    requires 1 <= i < |u| && 0 < last < |u|
    ensures Converted(u, last, i + 1)
         == Converted(u, last, i) + (if i < last then [DotChar(u[i])] else if i == last then "]" else [u[i]])
  {
    if i < last {
      DotsNext(u[1..i], u[i]);
      assert u[1..i + 1] == u[1..i] + [u[i]];
      Regroup("[.", Dots(u[1..i]), [DotChar(u[i])]);
    } else if i == last {
      assert u[last + 1..i + 1] == "";
    } else {
      assert u[last + 1..i + 1] == u[last + 1..i] + [u[i]];
    }
  }

  lemma DotsNext(s: string, c: char)
    ensures Dots(s + [c]) == Dots(s) + [DotChar(c)]
  {
  }

  // ---- The round trip ----

  /** A path below the mount point: its directories, if any, and its name. */
  function Path(dirs: Option<string>, base: string): string {
    if dirs.Some? then "/" + dirs.value + "/" + base else "/" + base
  }

  predicate PathOk(dirs: Option<string>, base: string) {
    (dirs.Some? ==> Plain(dirs.value)) && Plain(base) && '/' !in base && base != ""
  }

  /** Whether the name went out with a dot of its own. */
  predicate Dotted(dirs: Option<string>, base: string, isDir: bool) {
    dirs.Some? && !isDir && ONE !in base
  }

  /** When a path survives. */
  ghost predicate Faithful(isDirectory: string -> bool, dirs: Option<string>, base: string, isDir: bool)
    requires base != ""
  {
    && (dirs.Some? ==> Clean(dirs.value))
    && (Dotted(dirs, base, isDir) || base[|base| - 1] != '.')
    && base != "*.*"
    && !Strips(isDirectory, Path(dirs, base)[1..])
  }

  function Returned(dirs: Option<string>, base: string, isDir: bool): string {
    Star(if Dotted(dirs, base, isDir) then base else DropDot(base))
  }

  function Landed(dirs: Option<string>): string {
    if dirs.Some? then Back(dirs.value) + "/" else ""
  }

  lemma RootTrip(isDirectory: string -> bool, base: string, isDir: bool)
    requires PathOk(None, base)
    ensures MakeUnix(isDirectory, MakeVms("/" + base, isDir)) == StripDir(isDirectory, Star(DropDot(base)))
  {
    RootOut(base, isDir);
    NothingSpecial(base);
    PlainPrefix(base);
    NoParts(DropDot(base));
    assert "" + Star(DropDot(base)) == Star(DropDot(base));
    LowerPlain(Star(DropDot(base)));
  }

  /** A name in the root goes out untouched. */
  lemma RootOut(base: string, isDir: bool)
    requires '/' !in base
    ensures MakeVms("/" + base, isDir) == base
  {
    var name := "/" + base;
    OneSlash();
    SlashesPlus("/", base);
    SlashesPlus(name, ".");
    SameSlashes(Decorate(name, isDir));
    assert name[1..] == base;
  }

  lemma PlainPrefix(base: string)
    requires Plain(base)
    ensures Plain(DropDot(base)) && Plain(Star(DropDot(base)))
  {
    forall c | c in DropDot(base) ensures c in base { }
  }

  lemma NoParts(file: string)
    requires Plain(file)
    ensures Parse(file) == Parts("", "", file)
  {
    forall j | 0 <= j < |file| ensures file[j] != ':' {
      assert file[j] in file;
    }
    assert file[0..] == file;
    if file != "" { assert file[0] in file; }
  }

  lemma NothingSpecial(base: string)
    requires Plain(base)
    ensures Before(base, ';') == base
  {
    forall j | 0 <= j < |base| ensures base[j] != ';' {
      assert base[j] in base;
    }
  }

  lemma {:induction false} SameSlashes(s: string)
    ensures Slashes(Upper(s)) == Slashes(s)
  {
    if s == "" {
    } else {
      assert Upper(s)[1..] == Upper(s[1..]);
      SameSlashes(s[1..]);
    }
  }

  lemma LowerPlain(s: string)
    requires Plain(s)
    ensures Lower(s) == s && Lower(Upper(s)) == s
  {
    forall i | 0 <= i < |s| ensures Lower(s)[i] == s[i] { assert s[i] in s; }
    LowerUpper(s);
  }

  /** The last name as it goes out, in lower case. */
  function Sent(base: string, isDir: bool): string {
    if isDir || ONE in base then base else base + "."
  }

  lemma VmsOf(dirs: string, base: string, isDir: bool)
    requires PathOk(Some(dirs), base)
    ensures MakeVms("/" + dirs + "/" + base, isDir)
         == "[" + ("." + Upper(Dots(dirs))) + "]" + Upper(Sent(base, isDir))
  {
    var b := "/" + dirs + "/";
    DecorateAfter(b, base, isDir);
    UpperParts(dirs, Sent(base, isDir));
    AssembleParts(Upper(dirs), Upper(Sent(base, isDir)));
    DotsUpper(dirs);
  }

  lemma DecorateAfter(b: string, base: string, isDir: bool)
    requires b != "" && b[|b| - 1] == '/' && '/' !in base
    ensures Decorate(b + base, isDir) == b + Sent(base, isDir)
  {
    var name := b + base;
    assert name[|b| - 1] == '/' && name[|b|..] == base;
    OnlyLast(name, |b| - 1);
    assert name[|b| - 1..] == "/" + base;
    assert ONE in "/" + base <==> ONE in base;
    Regroup(b, base, ".");
  }

  lemma UpperParts(dirs: string, t: string)
    requires '/' !in t
    ensures Upper("/" + dirs + "/" + t) == "/" + Upper(dirs) + "/" + Upper(t) && '/' !in Upper(t)
  {
    UpperPlus("/" + dirs + "/", t);
    UpperPlus("/" + dirs, "/");
    UpperPlus("/", dirs);
    SameSlashes(t);
  }

  lemma AssembleParts(d: string, t: string)
    requires '/' !in t
    ensures var u := "/" + d + "/" + t;
      Slashes(u) > 1 && Assemble(u) == "[" + ("." + Dots(d)) + "]" + t
  {
    TwoSlashes(d, t);
    LastOf(d, t);
    AssembleAt("/" + d + "/" + t, d, t);
    OpeningDot(Dots(d), t);
  }

  lemma LastOf(d: string, t: string)
    requires '/' !in t
    ensures var u := "/" + d + "/" + t;
      '/' in u && FindLast(u, '/') == |d| + 1 && u[1..|d| + 1] == d && u[|d| + 2..] == t
  {
    var u := "/" + d + "/" + t;
    assert u[|d| + 1] == '/' && u[|d| + 2..] == t;
    OnlyLast(u, |d| + 1);
  }

  lemma AssembleAt(u: string, d: string, t: string)
    requires u != "" && u[0] == '/' && FindLast(u, '/') == |d| + 1 && |d| + 1 < |u|
    requires u[1..|d| + 1] == d && u[|d| + 2..] == t
    ensures Assemble(u) == "[." + Dots(d) + "]" + t
  {
  }

  lemma OpeningDot(s: string, t: string)
    ensures "[." + s + "]" + t == "[" + ("." + s) + "]" + t
  {
    assert "[." + s == "[" + ("." + s);
  }

  lemma TwoSlashes(d: string, t: string)
    ensures Slashes("/" + d + "/" + t) > 1
  {
    SlashesPlus("/" + d + "/", t);
    SlashesPlus("/" + d, "/");
    SlashesPlus("/", d);
    OneSlash();
  }

  lemma BelowTrip(isDirectory: string -> bool, dirs: string, base: string, isDir: bool)
    requires PathOk(Some(dirs), base)
    ensures MakeUnix(isDirectory, MakeVms("/" + dirs + "/" + base, isDir))
         == StripDir(isDirectory, Back(dirs) + "/" + Returned(Some(dirs), base, isDir))
  {
    VmsOf(dirs, base, isDir);
    SentPlain(base, isDir);
    UnixBack(isDirectory, dirs, Upper(Sent(base, isDir)));
    SentBack(base, isDir);
  }

  lemma UnixBack(isDirectory: string -> bool, dirs: string, file: string)
    requires Plain(dirs) && file != "" && ':' !in file && ';' !in file && NoBrackets(file)
    ensures MakeUnix(isDirectory, "[" + ("." + Upper(Dots(dirs))) + "]" + file)
         == StripDir(isDirectory, Back(dirs) + "/" + Lower(Star(DropDot(file))))
  {
    var body := "." + Upper(Dots(dirs));
    SpelledDots(dirs);
    UnixOf(isDirectory, body, file);
    DirectoryBack(dirs);
    LowerPlus(CopyDir("[" + body + "]", 0, "", false), Star(DropDot(file)));
  }

  lemma DirectoryBack(dirs: string)
    requires Plain(dirs)
    ensures Lower(CopyDir("[" + ("." + Upper(Dots(dirs))) + "]", 0, "", false)) == Back(dirs) + "/"
  {
    var u := Upper(Dots(dirs));
    SpelledDots(dirs);
    CopyWhole("." + u, "", false);
    assert ("." + u)[1..] == u;
    assert "" + Names(u) + "/" == Names(u) + "/";
    LowerPlus(Names(u), "/");
    ReadBack(dirs);
  }

  lemma SentPlain(base: string, isDir: bool)
    requires Plain(base) && base != ""
    ensures var u := Upper(Sent(base, isDir)); u != "" && ':' !in u && ';' !in u && NoBrackets(u)
  {
    var t := Sent(base, isDir);
    var u := Upper(t);
    forall c | c in u ensures c !in ":;[]" {
      var i :| 0 <= i < |u| && u[i] == c;
      assert u[i] == UpperChar(t[i]);
      if i < |base| { assert t[i] == base[i] && base[i] in base; }
    }
  }

  lemma UnixOf(isDirectory: string -> bool, body: string, file: string)
    requires ':' !in body && ';' !in body && NoBrackets(body)
    requires file != "" && ':' !in file && ';' !in file && NoBrackets(file)
    ensures MakeUnix(isDirectory, "[" + body + "]" + file)
         == StripDir(isDirectory, Lower(CopyDir("[" + body + "]", 0, "", false) + Star(DropDot(file))))
  {
    NoVersion(body);
    CutNothing("[" + body + "]", file);
    DropDotKeeps(file);
    ParseNoVolume(body, DropDot(file));
    NoVolume(isDirectory, "[" + body + "]" + file, "[" + body + "]", DropDot(file));
  }

  lemma NoVersion(body: string)
    requires ';' !in body
    ensures ';' !in "[" + body + "]"
  {
  }

  lemma DropDotKeeps(file: string)
    requires ':' !in file && NoBrackets(file)
    ensures ':' !in DropDot(file) && NoBrackets(DropDot(file))
  {
  }

  lemma NoVolume(isDirectory: string -> bool, vms: string, directory: string, file: string)
    requires Parse(DropDot(Before(vms, ';'))) == Parts("", directory, file)
    ensures MakeUnix(isDirectory, vms)
         == StripDir(isDirectory, Lower(CopyDir(directory, 0, "", false) + Star(file)))
  {
  }

  lemma CutNothing(x: string, file: string)
    requires ';' !in x && ';' !in file && file != ""
    ensures DropDot(Before(x + file, ';')) == x + DropDot(file)
  {
    var vms := x + file;
    assert ';' !in vms;
    assert vms[|vms| - 1] == file[|file| - 1];
    if file[|file| - 1] == '.' { assert vms[..|vms| - 1] == x + file[..|file| - 1]; }
  }

  lemma SentBack(base: string, isDir: bool)
    requires Plain(base) && base != ""
    ensures Lower(Star(DropDot(Upper(Sent(base, isDir))))) == Returned(Some(""), base, isDir)
  {
    var t := Sent(base, isDir);
    UpperSame(t);
    UpperSame(DropDot(t));
    if !isDir && ONE !in base {
      assert (base + ".")[..|base|] == base;
    }
    PlainPrefix(base);
    assert Plain(Star(base));
    LowerPlain(Star(DropDot(t)));
  }

  // ---- Main result ----

  lemma ReturnedInk(dirs: Option<string>, base: string, isDir: bool)
    requires PathOk(dirs, base)
    ensures var r := Returned(dirs, base, isDir);
      && Ink(r) <= Ink(base) && (Ink(r) == Ink(base) <==> r == base)
      && (r == base <==> (Dotted(dirs, base, isDir) || base[|base| - 1] != '.') && base != "*.*")
  {
    var r := Returned(dirs, base, isDir);
    assert '/' !in r;
    InkBound(r);
    InkBound(base);
  }

  lemma LandedInk(dirs: Option<string>)
    ensures dirs.Some? ==>
      && Ink(Landed(dirs)) <= Ink(dirs.value + "/")
      && (Ink(Landed(dirs)) == Ink(dirs.value + "/") <==> Clean(dirs.value))
      && (Clean(dirs.value) ==> Landed(dirs) == dirs.value + "/")
  {
    if dirs.Some? {
      BackInk(dirs.value);
      InkPlus(Back(dirs.value), "/");
      InkPlus(dirs.value, "/");
    }
  }

  lemma StripInk(isDirectory: string -> bool, r: string)
    ensures if Strips(isDirectory, r) then Ink(StripDir(isDirectory, r)) < Ink(r) else StripDir(isDirectory, r) == r
  {
    if Strips(isDirectory, r) {
      var t := StripDir(isDirectory, r);
      assert r == t + ".dir";
      InkPlus(t, ".dir");
      InkBound(".dir");
    }
  }

  /** A path comes back without its leading slash exactly when its directories have
      no dots and no root markers, its name keeps its last character, is not the
      pattern for all files, and does not end in the .dir of a directory. */
  lemma RoundTrip(isDirectory: string -> bool, dirs: Option<string>, base: string, isDir: bool)
    requires PathOk(dirs, base)
    ensures var p := Path(dirs, base);
      && p != "" && p[0] == '/'
      && (MakeUnix(isDirectory, MakeVms(p, isDir)) == p[1..] <==> Faithful(isDirectory, dirs, base, isDir))
  {
    TripIs(isDirectory, dirs, base, isDir);
    LandedInk(dirs);
    ReturnedInk(dirs, base, isDir);
    Compare(isDirectory, Landed(dirs), Returned(dirs, base, isDir), Front(dirs), base);
  }

  /** The directories as they stand in the path. */
  function Front(dirs: Option<string>): string {
    if dirs.Some? then dirs.value + "/" else ""
  }

  lemma TripIs(isDirectory: string -> bool, dirs: Option<string>, base: string, isDir: bool)
    requires PathOk(dirs, base)
    ensures var p := Path(dirs, base);
      && p != "" && p[0] == '/' && p[1..] == Front(dirs) + base
      && MakeUnix(isDirectory, MakeVms(p, isDir)) == StripDir(isDirectory, Landed(dirs) + Returned(dirs, base, isDir))
  {
    match dirs
    case Some(d) =>
      BelowTrip(isDirectory, d, base, isDir);
      PathRest(d, base);
    case None =>
      RootTrip(isDirectory, base, isDir);
      NothingInFront(base);
      NothingInFront(Star(DropDot(base)));
  }

  lemma NothingInFront(s: string)
    ensures "" + s == s && ("/" + s)[1..] == s
  {
  }

  lemma PathRest(dirs: string, base: string)
    ensures ("/" + dirs + "/" + base)[1..] == dirs + "/" + base
  {
  }

  /** What comes back can only equal what went out when nothing lost ink. */
  lemma Compare(isDirectory: string -> bool, a: string, back: string, b: string, base: string)
    requires Ink(a) <= Ink(b) && Ink(back) <= Ink(base)
    requires Ink(a) == Ink(b) ==> a == b
    requires Ink(back) == Ink(base) ==> back == base
    ensures StripDir(isDirectory, a + back) == b + base <==> a == b && back == base && !Strips(isDirectory, b + base)
  {
    InkPlus(a, back);
    InkPlus(b, base);
    StripInk(isDirectory, a + back);
  }
}
