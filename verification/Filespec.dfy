/** What the two converters between Unix and VMS file specifications share. */
module Filespec {
  import opened Wrappers

  // ---- Characters and strings ----

  predicate IsLower(c: char) { 'a' <= c <= 'z' }

  predicate IsUpper(c: char) { 'A' <= c <= 'Z' }

  function UpperChar(c: char): char {
    if IsLower(c) then (c as int - 32) as char else c
  }

  function LowerChar(c: char): char {
    if IsUpper(c) then (c as int + 32) as char else c
  }

  function Upper(s: string): (r: string)
    ensures |r| == |s| && forall i :: 0 <= i < |s| ==> r[i] == UpperChar(s[i])
  {
    if s == "" then "" else [UpperChar(s[0])] + Upper(s[1..])
  }

  function Lower(s: string): (r: string)
    ensures |r| == |s| && forall i :: 0 <= i < |s| ==> r[i] == LowerChar(s[i])
  {
    if s == "" then "" else [LowerChar(s[0])] + Lower(s[1..])
  }

  /** Where c first occurs; the length of s when it does not. */
  function Find(s: string, c: char): (i: nat)
    ensures i <= |s| && (i < |s| ==> s[i] == c) && forall j :: 0 <= j < i ==> s[j] != c
  {
    if s == "" || s[0] == c then 0 else 1 + Find(s[1..], c)
  }

  /** Where c last occurs. */
  function FindLast(s: string, c: char): (i: nat)
    requires c in s
    ensures i < |s| && s[i] == c && forall j :: i < j < |s| ==> s[j] != c
  {
    if s[|s| - 1] == c then |s| - 1 else FindLast(s[..|s| - 1], c)
  }

  predicate StartsAt(s: string, i: nat, t: string) {
    i + |t| <= |s| && s[i..i + |t|] == t
  }

  /** Where t first occurs. */
  function FindText(s: string, t: string, i: nat): (r: Option<nat>)
    requires i <= |s|
    ensures r.Some? ==> i <= r.value && StartsAt(s, r.value, t) && forall j: nat :: i <= j < r.value ==> !StartsAt(s, j, t)
    ensures r.None? ==> forall j: nat :: i <= j <= |s| ==> !StartsAt(s, j, t)
    decreases |s| - i
  {
    if StartsAt(s, i, t) then Some(i)
    else if i == |s| then None
    else FindText(s, t, i + 1)
  }

  function Before(s: string, c: char): string {
    s[..Find(s, c)]
  }

  /** Without a single dot at the end. */
  function DropDot(s: string): string {
    if s != "" && s[|s| - 1] == '.' then s[..|s| - 1] else s
  }

  // ---- Taking a VMS specification apart ----

  datatype Parts = Parts(volume: string, directory: string, file: string)

  /** Splits off the volume with its colon and a directory in brackets. */
  function Parse(s: string): Parts {
    var colon := Find(s, ':');
    var volume := if colon < |s| then s[..colon + 1] else "";
    ParseBehind(volume, s[|volume|..])
  }

  /** The directory and the name; two adjacent directories count as one. */
  function ParseBehind(volume: string, rest: string): Parts {
    var first := Find(rest, ']');
    var end := if first + 1 < |rest| && rest[first + 1] == '[' then first + 1 + Find(rest[first + 1..], ']') else first;
    if rest != "" && rest[0] == '[' && end < |rest| then Parts(volume, rest[..end + 1], rest[end + 1..])
    else Parts(volume, "", rest)
  }

  /** The loop that writes the directory: brackets and dots become slashes, root
      markers are left out, and a directory that starts relative throws away what
      was written. The empty brackets are special in fal only. */
  function CopyDir(dir: string, i: nat, out: string, empties: bool): string
    requires i <= |dir|
    decreases |dir| - i
  {
    if i == |dir| then out
    else if empties && StartsAt(dir, i, "[]") then CopyDir(dir, i + 2, "", empties)
    else if StartsAt(dir, i, "[.") then CopyDir(dir, i + 2, "", empties)
    else if dir[i] in "[]." then CopyDir(dir, i + 1, out + "/", empties)
    else if StartsAt(dir, i, "000000") then CopyDir(dir, i + 6, out, empties)
    else if StartsAt(dir, i, "0,0") then CopyDir(dir, i + 3, out, empties)
    else CopyDir(dir, i + 1, out + [dir[i]], empties)
  }

  method CopyDirectory(dir: string, start: string, empties: bool) returns (name: string)
    ensures name == CopyDir(dir, 0, start, empties)
  {
    name := start;
    var i := 0;
    while i < |dir|
      invariant i <= |dir| && CopyDir(dir, 0, start, empties) == CopyDir(dir, i, name, empties)
      decreases |dir| - i
    {
      if empties && StartsAt(dir, i, "[]") {
        name := "";
        i := i + 2;
      } else if StartsAt(dir, i, "[.") {
        name := "";
        i := i + 2;
      } else if dir[i] in "[]." {
        name := name + "/";
        i := i + 1;
      } else if StartsAt(dir, i, "000000") {
        i := i + 6;
      } else if StartsAt(dir, i, "0,0") {
        i := i + 3;
      } else {
        name := name + [dir[i]];
        i := i + 1;
      }
    }
  }

  /** What a name ends up as when it ends in .dir and a directory of that name
      exists: only the first .dir in the name is looked at. */
  function StripDir(isDirectory: string -> bool, name: string): string {
    var at := FindText(name, ".dir", 0);
    if at == Some(|name| - 4) && isDirectory(name[..|name| - 4]) then name[..|name| - 4] else name
  }

  predicate Strips(isDirectory: string -> bool, name: string) {
    FindText(name, ".dir", 0) == Some(|name| - 4) && isDirectory(name[..|name| - 4])
  }

  function Star(file: string): string {
    if file == "*.*" then "*" else file
  }

  /** From VMS to Unix. The pseudo volume stands for the root of the file system,
      any other volume for a directory in the root. */
  function ToUnix(sysdisk: string, empties: bool, isDirectory: string -> bool, vms: string): string {
    var parts := Parse(DropDot(Before(vms, ';')));
    var volume := if parts.volume != "" && parts.volume[|parts.volume| - 1] == ':'
                  then parts.volume[..|parts.volume| - 1] else parts.volume;
    var start := if Lower(volume) == Lower(sysdisk) then "/" else if volume != "" then "/" + volume else "";
    StripDir(isDirectory, Lower(CopyDir(parts.directory, 0, start, empties) + Star(parts.file)))
  }

  method MakeUnixFilespec(sysdisk: string, empties: bool, isDirectory: string -> bool, vms: string) returns (name: string)
    ensures name == ToUnix(sysdisk, empties, isDirectory, vms)
  {
    var parts := Parse(DropDot(Before(vms, ';')));
    var volume := parts.volume;
    if volume != "" && volume[|volume| - 1] == ':' {
      volume := volume[..|volume| - 1];
    }
    var start := "";
    if Lower(volume) == Lower(sysdisk) {
      start := "/";
    } else if volume != "" {
      start := "/" + volume;
    }
    name := CopyDirectory(parts.directory, start, empties);
    name := StripDir(isDirectory, Lower(name + Star(parts.file)));
  }

  // ---- Counting slashes ----

  function Slashes(s: string): (n: nat)
    ensures n == 0 <==> '/' !in s
  {
    if s == "" then 0 else (if s[0] == '/' then 1 else 0) + Slashes(s[1..])
  }

  /** Cutting at the first slash leaves one slash less. */
  lemma {:induction false} Cut(s: string)
    requires '/' in s
    ensures Find(s, '/') < |s| && Slashes(s[Find(s, '/') + 1..]) == Slashes(s) - 1
  {
    if s[0] == '/' {
    } else {
      Cut(s[1..]);
      assert s[1..][Find(s[1..], '/') + 1..] == s[Find(s, '/') + 1..];
    }
  }

  lemma {:induction false} SlashesPlus(s: string, t: string)
    ensures Slashes(s + t) == Slashes(s) + Slashes(t)
  {
    if s == "" {
      assert s + t == t;
    } else {
      assert (s + t)[1..] == s[1..] + t;
      SlashesPlus(s[1..], t);
    }
  }

  method CountSlashes(u: string) returns (slashes: nat)
    ensures slashes == Slashes(u)
  {
    slashes := 0;
    var i := 0;
    while i < |u|
      invariant i <= |u| && Slashes(u) == slashes + Slashes(u[i..])
    {
      assert u[i..][1..] == u[i + 1..];
      if u[i] == '/' {
        slashes := slashes + 1;
      }
      i := i + 1;
    }
  }

  lemma OnlyLast(u: string, i: nat)
    requires i < |u| && u[i] == '/' && '/' !in u[i + 1..]
    ensures FindLast(u, '/') == i
  {
    forall j | i < j < |u| ensures u[j] != '/' {
      assert u[j] == u[i + 1..][j - i - 1];
    }
  }

  lemma OneSlash()
    ensures Slashes("/") == 1
  {
    assert "/"[1..] == "";
  }

  // ---- The way out: slashes become dots ----

  function DotChar(c: char): char {
    if c == '/' then '.' else c
  }

  function Dots(s: string): (r: string)
    ensures |r| == |s| && forall i :: 0 <= i < |s| ==> r[i] == DotChar(s[i])
  {
    if s == "" then "" else [DotChar(s[0])] + Dots(s[1..])
  }

  /** The characters between the brackets, read back. */
  function Names(s: string): string
    decreases |s|
  {
    if s == "" then ""
    else if s[0] == '.' then "/" + Names(s[1..])
    else if StartsAt(s, 0, "000000") then Names(s[6..])
    else if StartsAt(s, 0, "0,0") then Names(s[3..])
    else [s[0]] + Names(s[1..])
  }

  /** A text that occurs nowhere. */
  ghost predicate Nowhere(s: string, t: string) {
    forall j: nat :: j <= |s| ==> !StartsAt(s, j, t)
  }

  /** Directory text that survives the trip: no dots and no root markers. */
  ghost predicate Clean(s: string) {
    '.' !in s && Nowhere(s, "000000") && Nowhere(s, "0,0")
  }

  predicate Plain(s: string) {
    forall c :: c in s ==> c !in ":;[]" && !IsUpper(c)
  }

  /** The number of characters that are not slashes. */
  function Ink(s: string): nat {
    if s == "" then 0 else (if s[0] == '/' then 0 else 1) + Ink(s[1..])
  }

  lemma {:induction false} InkPlus(s: string, t: string)
    ensures Ink(s + t) == Ink(s) + Ink(t)
  {
    if s == "" {
      assert s + t == t;
    } else {
      assert (s + t)[1..] == s[1..] + t;
      InkPlus(s[1..], t);
    }
  }

  lemma {:induction false} InkBound(s: string)
    ensures Ink(s) <= |s| && ('/' !in s ==> Ink(s) == |s|)
  {
    if s == "" {
    } else {
      InkBound(s[1..]);
    }
  }

  /** Directory text after the whole trip. */
  function Back(s: string): string
    decreases |s|
  {
    if s == "" then ""
    else if s[0] == '.' || s[0] == '/' then "/" + Back(s[1..])
    else if StartsAt(s, 0, "000000") then Back(s[6..])
    else if StartsAt(s, 0, "0,0") then Back(s[3..])
    else [s[0]] + Back(s[1..])
  }

  /** Marks look the same in both spellings. */
  lemma SameMark(s: string, t: string)
    requires t == "000000" || t == "0,0"
    ensures StartsAt(Upper(Dots(s)), 0, t) <==> StartsAt(s, 0, t)
  {
    var u := Upper(Dots(s));
    if |t| <= |s| {
      forall i | 0 <= i < |t| ensures u[..|t|][i] == t[i] <==> s[..|t|][i] == t[i] {
        assert u[i] == UpperChar(DotChar(s[i]));
      }
      if StartsAt(s, 0, t) { assert u[..|t|] == t; }
      if StartsAt(u, 0, t) { assert s[..|t|] == t; }
    }
  }

  lemma SpellRest(s: string, k: nat)
    requires k <= |s|
    ensures Upper(Dots(s))[k..] == Upper(Dots(s[k..]))
  {
    DotsRest(s, k);
    UpperRest(Dots(s), k);
  }

  lemma DotsRest(s: string, k: nat)
    requires k <= |s|
    ensures Dots(s)[k..] == Dots(s[k..])
  {
  }

  lemma UpperRest(s: string, k: nat)
    requires k <= |s|
    ensures Upper(s)[k..] == Upper(s[k..])
  {
  }

  lemma LowerPlus(s: string, t: string)
    ensures Lower(s + t) == Lower(s) + Lower(t)
  {
  }

  lemma UpperPlus(s: string, t: string)
    ensures Upper(s + t) == Upper(s) + Upper(t)
  {
  }

  lemma LowerUpper(s: string)
    requires Plain(s)
    ensures Lower(Upper(s)) == s
  {
  }

  lemma SpelledDots(s: string)
    requires Plain(s)
    ensures var u := Upper(Dots(s)); ':' !in u && ';' !in u && NoBrackets(u)
  {
    var u := Upper(Dots(s));
    forall c | c in u ensures c !in ":;[]" {
      var i :| 0 <= i < |u| && u[i] == c;
      assert s[i] in s && u[i] == UpperChar(DotChar(s[i]));
    }
  }

  lemma DotsUpper(s: string)
    ensures Dots(Upper(s)) == Upper(Dots(s))
  {
    forall i | 0 <= i < |s| ensures Dots(Upper(s))[i] == Upper(Dots(s))[i] {
      assert Upper(s)[i] == UpperChar(s[i]) && Dots(s)[i] == DotChar(s[i]);
    }
  }

  lemma UpperSame(s: string)
    ensures DropDot(Upper(s)) == Upper(DropDot(s)) && Star(Upper(s)) == Upper(Star(s))
  {
    if s != "" {
      assert Upper(s)[|s| - 1] == UpperChar(s[|s| - 1]);
      if s[|s| - 1] == '.' {
        assert Upper(s)[..|s| - 1] == Upper(s[..|s| - 1]);
      }
    }
    if Upper(s) == "*.*" {
      forall i | 0 <= i < 3 ensures s[i] == "*.*"[i] { assert UpperChar(s[i]) == Upper(s)[i]; }
      assert s == "*.*";
    }
    assert Upper("*.*") == "*.*" && Upper("*") == "*";
  }

  lemma {:induction false} ReadBack(s: string)
    requires Plain(s)
    ensures Lower(Names(Upper(Dots(s)))) == Back(s)
    decreases |s|
  {
    if s == "" {
    } else {
      var u := Upper(Dots(s));
      assert u[0] == UpperChar(DotChar(s[0]));
      SameMark(s, "000000");
      SameMark(s, "0,0");
      var k := if s[0] == '.' || s[0] == '/' then 1 else if StartsAt(s, 0, "000000") then 6
               else if StartsAt(s, 0, "0,0") then 3 else 1;
      SpellRest(s, k);
      ReadBack(s[k..]);
      assert s[0] in s;
      if k == 1 {
        LowerPlus([Names(u)[0]], Names(u[1..]));
      }
    }
  }

  lemma RestClean(s: string)
    requires s != ""
    ensures Clean(s) <==> s[0] != '.' && !StartsAt(s, 0, "000000") && !StartsAt(s, 0, "0,0") && Clean(s[1..])
  {
    NowhereRest(s, "000000");
    NowhereRest(s, "0,0");
  }

  lemma NowhereRest(s: string, t: string)
    requires s != "" && t != ""
    ensures Nowhere(s, t) <==> !StartsAt(s, 0, t) && Nowhere(s[1..], t)
  {
    forall j: nat | j < |s| ensures StartsAt(s[1..], j, t) <==> StartsAt(s, j + 1, t) {
      if j + 1 + |t| <= |s| { assert s[1..][j..j + |t|] == s[j + 1..j + 1 + |t|]; }
    }
    if Nowhere(s, t) {
      forall j: nat | j <= |s| - 1 ensures !StartsAt(s[1..], j, t) {
        assert !StartsAt(s, j + 1, t);
      }
    }
    if !StartsAt(s, 0, t) && Nowhere(s[1..], t) {
      forall j: nat | j <= |s| ensures !StartsAt(s, j, t) {
        if j > 0 { assert !StartsAt(s[1..], j - 1, t); }
      }
    }
  }

  /** The trip never adds ink, loses some unless the text is clean, and brings clean
      text back as it was. */
  lemma {:induction false} BackInk(s: string)
    ensures Ink(Back(s)) <= Ink(s)
    ensures Ink(Back(s)) == Ink(s) <==> Clean(s)
    ensures Clean(s) ==> Back(s) == s
    decreases |s|
  {
    if s == "" {
    } else {
      RestClean(s);
      if s[0] == '.' || s[0] == '/' {
        BackInk(s[1..]);
        assert Back(s)[1..] == Back(s[1..]);
      } else if StartsAt(s, 0, "000000") {
        BackInk(s[6..]);
        MarkInk(s, 6);
      } else if StartsAt(s, 0, "0,0") {
        BackInk(s[3..]);
        MarkInk(s, 3);
      } else {
        BackInk(s[1..]);
        assert Back(s)[1..] == Back(s[1..]);
      }
    }
  }

  lemma MarkInk(s: string, k: nat)
    requires 0 < k <= |s| && '/' !in s[..k]
    ensures Ink(s) == k + Ink(s[k..])
  {
    assert s == s[..k] + s[k..];
    InkPlus(s[..k], s[k..]);
    InkBound(s[..k]);
  }

  // ---- The directory loop on a directory ----

  predicate NoBrackets(s: string) {
    '[' !in s && ']' !in s
  }

  /** How many characters of a directory text are read at once, and what for. */
  function Taken(rest: string): (k: nat)
    requires rest != ""
    ensures 0 < k <= |rest|
  {
    if rest[0] == '.' then 1 else if StartsAt(rest, 0, "000000") then 6 else if StartsAt(rest, 0, "0,0") then 3 else 1
  }

  function Written(rest: string): string
    requires rest != ""
  {
    if rest[0] == '.' then "/" else if Taken(rest) == 1 then [rest[0]] else ""
  }

  lemma CopyStep(body: string, k: nat, out: string, empties: bool)
    requires NoBrackets(body) && k < |body|
    ensures var rest := body[k..];
      CopyDir("[" + body + "]", 1 + k, out, empties)
      == CopyDir("[" + body + "]", 1 + (k + Taken(rest)), out + Written(rest), empties)
  {
    var dir := "[" + body + "]";
    assert dir[1 + k] == body[k] && body[k] in body;
    FirstChar(dir, 1 + k, "[]");
    FirstChar(dir, 1 + k, "[.");
    MarkInDir(body, k, "000000");
    MarkInDir(body, k, "0,0");
    assert out + "" == out;
  }

  lemma FirstChar(s: string, i: nat, t: string)
    requires i < |s| && t != ""
    ensures StartsAt(s, i, t) ==> s[i] == t[0]
  {
    if StartsAt(s, i, t) { assert s[i..i + |t|][0] == s[i]; }
  }

  lemma {:induction false} CopyBody(body: string, k: nat, out: string, empties: bool)
    requires NoBrackets(body) && k <= |body|
    ensures CopyDir("[" + body + "]", 1 + k, out, empties) == out + Names(body[k..]) + "/"
    decreases |body| - k
  {
    if k == |body| {
      CopyEnd(body, out, empties);
    } else {
      var rest := body[k..];
      var step := Taken(rest);
      assert rest[step..] == body[k + step..];
      CopyStep(body, k, out, empties);
      CopyBody(body, k + step, out + Written(rest), empties);
      NamesStep(rest);
      Regroup(out, Written(rest), Names(rest[step..]));
    }
  }

  lemma NamesStep(rest: string)
    requires rest != ""
    ensures Names(rest) == Written(rest) + Names(rest[Taken(rest)..])
  {
    assert "" + Names(rest[Taken(rest)..]) == Names(rest[Taken(rest)..]);
  }

  lemma Regroup(a: string, b: string, c: string)
    ensures a + b + c == a + (b + c)
  {
  }

  lemma CopyEnd(body: string, out: string, empties: bool)
    ensures CopyDir("[" + body + "]", 1 + |body|, out, empties) == out + "" + "/"
  {
    var dir := "[" + body + "]";
    assert dir[1 + |body|] == ']';
    assert CopyDir(dir, 2 + |body|, out + "/", empties) == out + "/";
  }

  lemma MarkInDir(body: string, k: nat, t: string)
    requires k < |body| && t != "" && ']' !in t
    ensures StartsAt("[" + body + "]", 1 + k, t) <==> StartsAt(body[k..], 0, t)
  {
    var dir, rest := "[" + body + "]", body[k..];
    if 1 + k + |t| <= |dir| {
      if |t| <= |rest| {
        assert dir[1 + k..1 + k + |t|] == rest[..|t|];
      } else {
        var piece := dir[1 + k..1 + k + |t|];
        assert piece[|t| - 1] == ']';
        assert t[|t| - 1] in t;
      }
    }
  }

  /** A directory in brackets, copied after what stands before it. */
  lemma CopyWhole(body: string, out: string, empties: bool)
    requires NoBrackets(body) && body != ""
    ensures CopyDir("[" + body + "]", 0, out, empties)
         == (if body[0] == '.' then "" else out + "/") + Names(if body[0] == '.' then body[1..] else body) + "/"
  {
    var dir := "[" + body + "]";
    assert dir[0] == '[' && dir[1] == body[0];
    assert body[0] in body;
    if body[0] == '.' {
      assert dir[0..2] == "[.";
      assert StartsAt(dir, 0, "[.");
      assert !StartsAt(dir, 0, "[]") by { assert dir[0..2][1] == '.'; }
      CopyBody(body, 1, "", empties);
    } else {
      assert !StartsAt(dir, 0, "[.") && !StartsAt(dir, 0, "[]") by { assert dir[0..2][1] == body[0]; }
      assert body[0..] == body;
      CopyBody(body, 0, out + "/", empties);
    }
  }

  // ---- Splitting ----

  lemma FindIn(a: string, c: char, b: string)
    requires c !in a
    ensures Find(a + [c] + b, c) == |a|
  {
    var s := a + [c] + b;
    assert s[|a|] == c;
    forall j | 0 <= j < |a| ensures s[j] != c {
      assert s[j] == a[j];
    }
  }

  lemma ParseWhole(volume: string, body: string, file: string)
    requires ':' !in volume && ':' !in body && NoBrackets(body) && NoBrackets(file)
    ensures Parse(volume + [':'] + ("[" + body + "]" + file)) == Parts(volume + ":", "[" + body + "]", file)
  {
    var rest := "[" + body + "]" + file;
    FindIn(volume, ':', rest);
    var s := volume + [':'] + rest;
    assert s[..|volume| + 1] == volume + ":" && s[|volume| + 1..] == rest;
    DirectoryEnd(body, file);
  }

  lemma ParseNoVolume(body: string, file: string)
    requires ':' !in body && ':' !in file && NoBrackets(body) && NoBrackets(file)
    ensures Parse("[" + body + "]" + file) == Parts("", "[" + body + "]", file)
  {
    var rest := "[" + body + "]" + file;
    assert ':' !in rest;
    assert rest[0..] == rest;
    DirectoryEnd(body, file);
  }

  lemma DirectoryEnd(body: string, file: string)
    requires NoBrackets(body) && NoBrackets(file)
    ensures var rest := "[" + body + "]" + file;
      && Find(rest, ']') == |body| + 1 && !(|body| + 2 < |rest| && rest[|body| + 2] == '[')
      && rest[..|body| + 2] == "[" + body + "]" && rest[|body| + 2..] == file
  {
    var rest := "[" + body + "]" + file;
    assert rest == ("[" + body) + [']'] + file;
    FindIn("[" + body, ']', file);
    if file != "" { assert rest[|body| + 2] == file[0]; }
  }

  lemma BeforeVersion(a: string, b: string)
    requires ';' !in a
    ensures Before(a + ";" + b, ';') == a
  {
    FindIn(a, ';', b);
    assert a + ";" + b == a + [';'] + b;
  }

  // ---- The end of the name ----

  /** Slashes before a name do not matter to the search for .dir. */
  lemma {:induction false} FindBehind(a: string, s: string, t: string, i: nat)
    requires i <= |s| && t != "" && (forall c :: c in a ==> c == '/') && '/' != t[0]
    ensures FindText(a + s, t, |a| + i) == Moved(FindText(s, t, i), |a|)
    decreases |s| - i
  {
    StartsBehind(a, s, t, i);
    if i >= |s| || StartsAt(s, i, t) {
    } else {
      FindBehind(a, s, t, i + 1);
      assert |a| + i + 1 == |a| + (i + 1);
    }
  }

  function Moved(r: Option<nat>, k: nat): Option<nat> {
    if r.Some? then Some(k + r.value) else None
  }

  lemma StartsBehind(a: string, s: string, t: string, i: nat)
    requires i <= |s|
    ensures StartsAt(a + s, |a| + i, t) <==> StartsAt(s, i, t)
  {
    if i + |t| <= |s| { assert (a + s)[|a| + i..|a| + i + |t|] == s[i..i + |t|]; }
  }

  lemma {:induction false} SkipSlashes(a: string, s: string, t: string, i: nat)
    requires i <= |a| && t != "" && (forall c :: c in a ==> c == '/') && '/' != t[0]
    ensures FindText(a + s, t, i) == FindText(a + s, t, |a|)
    decreases |a| - i
  {
    if i >= |a| {
    } else {
      FirstChar(a + s, i, t);
      assert (a + s)[i] == a[i] && a[i] in a;
      SkipSlashes(a, s, t, i + 1);
    }
  }

  lemma StripBehind(isDirectory: string -> bool, a: string, s: string)
    requires forall c :: c in a ==> c == '/'
    requires |s| >= 4 ==> isDirectory(a + s[..|s| - 4]) == isDirectory(s[..|s| - 4])
    ensures Strips(isDirectory, a + s) <==> |s| >= 4 && Strips(isDirectory, s)
    ensures |s| >= 4 && Strips(isDirectory, s) ==> StripDir(isDirectory, a + s) == a + s[..|s| - 4]
  {
    SkipSlashes(a, s, ".dir", 0);
    FindBehind(a, s, ".dir", 0);
    if |s| >= 4 { assert (a + s)[..|a| + |s| - 4] == a + s[..|s| - 4]; }
  }
}
