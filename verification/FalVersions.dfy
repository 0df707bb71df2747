/** Version numbers on the way to VMS and back. */
module FalVersions {
  import opened Wrappers
  import opened Filespec
  import opened FalFilespec
  import opened FalRoundTrip

  lemma UpperVersion(name: string, version: string)
    ensures Upper(name + ";" + version) == Upper(name) + ";" + Upper(version)
  {
    UpperPlus(name + ";", version);
    UpperPlus(name, ";");
  }

  lemma CutText(v: string, body: string, name: string, version: string)
    requires ':' !in v && ';' !in v && ';' !in body && ';' !in name
    ensures Before(v + [':'] + ("[" + body + "]" + (name + ";" + version)), ';') == v + [':'] + ("[" + body + "]") + name
  {
    CutAt(v + [':'] + ("[" + body + "]"), name, version);
    Regroup(v + [':'], "[" + body + "]", name + ";" + version);
  }

  lemma VersionOut(sh: Shape, name: string, version: string)
    requires ShapeOk(sh) && Plain(name) && '/' !in name && '.' in name && '/' !in version
    ensures Before(MakeVms(Prefix(sh) + (name + ";" + version), false), ';')
         == Volume(sh) + [':'] + ("[" + Body(sh) + "]") + Upper(name)
  {
    SpelledOk(sh);
    UpperKeeps(name);
    VersionStays(sh, name + ";" + version);
    UpperVersion(name, version);
    CutText(Volume(sh), Body(sh), Upper(name), Upper(version));
  }

  lemma FirstVersionOut(sh: Shape, name: string)
    requires ShapeOk(sh) && Plain(name) && '/' !in name && '.' in name
    ensures Before(MakeVms(Prefix(sh) + name, false), ';') == Volume(sh) + [':'] + ("[" + Body(sh) + "]") + Upper(name)
  {
    SpelledOk(sh);
    UpperKeeps(name);
    VmsIs(sh, name, false);
    UpperOne(name);
    CutText(Volume(sh), Body(sh), Upper(name), "1");
  }

  lemma UpperOne(name: string)
    ensures Upper(name + ";1") == Upper(name) + ";" + "1"
  {
    assert name + ";" + "1" == name + ";1";
    UpperVersion(name, "1");
    assert Upper("1") == "1";
  }

  /** On the way back the version is lost: a name with one comes back as that without. */
  lemma VersionLost(isDirectory: string -> bool, sh: Shape, name: string, version: string)
    requires ShapeOk(sh) && Plain(name) && '/' !in name && '.' in name && '/' !in version
    ensures MakeUnix(isDirectory, MakeVms(Prefix(sh) + (name + ";" + version), false))
         == MakeUnix(isDirectory, MakeVms(Prefix(sh) + name, false))
  {
    VersionOut(sh, name, version);
    FirstVersionOut(sh, name);
    OnlyBefore(isDirectory, MakeVms(Prefix(sh) + (name + ";" + version), false), MakeVms(Prefix(sh) + name, false));
  }

  lemma OnlyBefore(isDirectory: string -> bool, a: string, b: string)
    requires Before(a, ';') == Before(b, ';')
    ensures MakeUnix(isDirectory, a) == MakeUnix(isDirectory, b)
  {
  }

  lemma CutAt(x: string, name: string, version: string)
    requires ';' !in x && ';' !in name
    ensures Before(x + (name + ";" + version), ';') == x + name
  {
    assert ';' !in x + name;
    BeforeVersion(x + name, version);
    assert x + (name + ";" + version) == x + name + ";" + version;
  }
}
