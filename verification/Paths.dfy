/**
  The path strings of the font service and the places they denote.

  Strings are what the source concatenates and stores in the config file; a Path is
  the list of directory names left after lexical normalisation, and is what the
  file system is keyed by.
 */
module Paths {
  import opened Wrappers

  type Path = seq<string>

  const INSTALL_PATH_APP := "/data/service/el1/public/for-all-app/fonts/"
  const INSTALL_PATH_PREFIX := "/data/service/el1/"
  const INSTALL_PATH_SUFFIX := "/for-all-app/fonts/"
  const TEMP_DIR := "temp"
  const APP_FONT_DIR_PREFIX := "app_"
  const SESSION_FONT_DIR_PREFIX := "session_"
  const FONT_SCOPE_APP := 0
  const FONT_SCOPE_SESSION := 1
  const FONT_SCOPE_NONE := -1

  // ----- Decimal numbers -----

  function Digit(d: nat): (c: char)
    requires d < 10
    ensures '0' <= c <= '9' && c as int == '0' as int + d
  {
    ('0' as int + d) as char
  }

  function Digits(n: nat): (s: string)
    ensures s != [] && forall c :: c in s ==> '0' <= c <= '9'
  {
    if n < 10 then [Digit(n)] else Digits(n / 10) + [Digit(n % 10)]
  }

  /** std::to_string on integers. */
  function ToString(n: int): (s: string)
    ensures s != [] && forall c :: c in s ==> c == '-' || '0' <= c <= '9'
  {
    if n < 0 then "-" + Digits(-n) else Digits(n)
  }

  lemma {:induction false} DigitsInjective(m: nat, n: nat)
    requires Digits(m) == Digits(n)
    ensures m == n
  {
    var s, t := Digits(m), Digits(n);
    assert s[|s| - 1] == Digit(m % 10) && t[|t| - 1] == Digit(n % 10);
    if m >= 10 && n >= 10 {
      assert Digits(m / 10) == s[..|s| - 1] && Digits(n / 10) == t[..|t| - 1];
      DigitsInjective(m / 10, n / 10);
    }
  }

  lemma ToStringInjective(m: int, n: int)
    requires ToString(m) == ToString(n)
    ensures m == n
  {
    assert ToString(m)[0] in ToString(m) && ToString(n)[0] in ToString(n);
    assert m >= 0 ==> ToString(m)[0] in Digits(m);
    assert n >= 0 ==> ToString(n)[0] in Digits(n);
    if m < 0 && n < 0 {
      assert Digits(-m) == ToString(m)[1..] && Digits(-n) == ToString(n)[1..];
      DigitsInjective(-m, -n);
    } else {
      DigitsInjective(m, n);
    }
  }

  // ----- Path strings -----

  /** Index of the last '/' among the first n characters, or -1. */
  function LastSlash(path: string, n: nat): (i: int)
    requires n <= |path|
    ensures -1 <= i < n
    ensures 0 <= i ==> path[i] == '/'
    ensures forall j :: i < j < n ==> path[j] != '/'
  {
    if n == 0 then -1 else if path[n - 1] == '/' then n - 1 else LastSlash(path, n - 1)
  }

  function GetFileName(path: string): (name: string)
    ensures '/' !in name
  {
    var i := LastSlash(path, |path|);
    if i < 0 then path else path[i + 1..]
  }

  function GetFileDirectory(path: string): (dir: string)
    ensures dir + GetFileName(path) == path
  {
    var i := LastSlash(path, |path|) + 1;
    assert path[..i] + path[i..] == path;
    path[..i]
  }

  lemma FileNameAfterSlash(dir: string, name: string)
    requires '/' !in name
    ensures GetFileName(dir + "/" + name) == name
    ensures GetFileName(name) == name
  {
    var path := dir + "/" + name;
    var i := LastSlash(path, |path|);
    assert path[|dir|] == '/';
    assert path[i] == '/';
    assert forall j :: |dir| < j < |path| ==> path[j] == name[j - |dir| - 1];
    assert i == |dir|;
    assert path[i + 1..] == name;
    assert forall j :: 0 <= j < |name| ==> name[j] != '/';
  }

  function Split(s: string): (segs: seq<string>)
    ensures segs != []
  {
    if s == "" then [""]
    else if s[0] == '/' then [""] + Split(s[1..])
    else var rest := Split(s[1..]); [[s[0]] + rest[0]] + rest[1..]
  }

  /** One step of lexical normalisation: empty names and "." stay, ".." goes up. */
  function Enter(dir: Path, seg: string): Path
  {
    if seg == "" || seg == "." then dir
    else if seg == ".." then (if dir == [] then [] else dir[..|dir| - 1])
    else dir + [seg]
  }

  function Walk(dir: Path, segs: seq<string>): Path
    decreases |segs|
  {
    if segs == [] then dir else Walk(Enter(dir, segs[0]), segs[1..])
  }

  /** The place an absolute path string denotes, symbolic links aside. */
  function Lexical(path: string): Path
  {
    Walk([], Split(path))
  }

  /** A string that names an entry of a directory. */
  predicate IsEntryName(name: string)
  {
    name != "" && name != "." && name != ".." && '/' !in name
  }

  lemma {:induction false} SplitConcat(a: string, b: string)
    ensures Split(a + "/" + b) == Split(a) + Split(b)
  {
    if a == "" {
      assert a + "/" + b == ['/'] + b;
      assert (a + "/" + b)[1..] == b;
    } else {
      assert (a + "/" + b)[1..] == a[1..] + "/" + b;
      SplitConcat(a[1..], b);
    }
  }

  lemma {:induction false} SplitEntry(name: string)
    requires '/' !in name
    ensures Split(name) == [name]
  {
    if name != "" {
      assert name[0] in name;
      assert forall c :: c in name[1..] ==> c in name;
      SplitEntry(name[1..]);
      assert [name[0]] + name[1..] == name;
    }
  }

  lemma {:induction false} WalkConcat(dir: Path, s: seq<string>, t: seq<string>)
    ensures Walk(dir, s + t) == Walk(Walk(dir, s), t)
    decreases |s|
  {
    if s == [] {
      assert s + t == t;
    } else {
      assert (s + t)[0] == s[0] && (s + t)[1..] == s[1..] + t;
      WalkConcat(Enter(dir, s[0]), s[1..], t);
    }
  }

  lemma LexicalConcat(dir: string, rest: string)
    ensures Lexical(dir + "/" + rest) == Walk(Lexical(dir), Split(rest))
  {
    SplitConcat(dir, rest);
    WalkConcat([], Split(dir), Split(rest));
  }

  lemma LexicalChild(dir: string, name: string)
    requires '/' !in name
    ensures Lexical(dir + "/" + name) == Enter(Lexical(dir), name)
  {
    LexicalConcat(dir, name);
    SplitEntry(name);
    assert Walk(Enter(Lexical(dir), name), [name][1..]) == Enter(Lexical(dir), name);
  }

  // ----- Install directories -----

  function InstallPath(user: int): string
  {
    INSTALL_PATH_PREFIX + ToString(user) + INSTALL_PATH_SUFFIX
  }

  function InstallDir(user: int): (dir: Path)
    ensures |dir| == 6
  {
    ["data", "service", "el1", ToString(user), "for-all-app", "fonts"]
  }

  lemma ToStringIsEntryName(n: int)
    ensures IsEntryName(ToString(n))
  {
    var s := ToString(n);
    assert s[0] in s;
  }

  /** The absolute path string of a place, without a final slash. */
  function Join(p: Path): string
  {
    if p == [] then "" else Join(p[..|p| - 1]) + "/" + p[|p| - 1]
  }

  lemma {:induction false} JoinLexical(p: Path)
    requires forall i :: 0 <= i < |p| ==> IsEntryName(p[i])
    ensures Lexical(Join(p)) == p
  {
    if p == [] {
      SplitEntry("");
      assert Walk([], [""]) == Walk([], [""][1..]);
    } else {
      JoinLexical(p[..|p| - 1]);
      LexicalChild(Join(p[..|p| - 1]), p[|p| - 1]);
    }
  }

  lemma JoinStep(p: Path, name: string)
    ensures Join(p + [name]) == Join(p) + "/" + name
  {
    assert (p + [name])[..|p|] == p;
  }

  /** InstallPath(user) without its final slash. */
  function InstallRoot(user: int): string
  {
    Join(InstallDir(user))
  }

  lemma JoinThree(p: Path, a: string, b: string, c: string)
    ensures Join(p + [a, b, c]) == Join(p) + ("/" + a + "/" + b + "/" + c)
  {
    JoinStep(p, a);
    JoinStep(p + [a], b);
    JoinStep(p + [a] + [b], c);
    assert p + [a] + [b] + [c] == p + [a, b, c];
  }

  lemma InstallRootString(user: int)
    ensures InstallPath(user) == InstallRoot(user) + "/"
  {
    var n := ToString(user);
    var service := [] + ["data", "service", "el1"];
    JoinThree([], "data", "service", "el1");
    JoinThree(service, n, "for-all-app", "fonts");
    assert InstallDir(user) == service + [n, "for-all-app", "fonts"];
    PrefixAndSuffix();
  }

  lemma PrefixAndSuffix()
    ensures INSTALL_PATH_PREFIX == "" + ("/" + "data" + "/" + "service" + "/" + "el1") + "/"
    ensures INSTALL_PATH_SUFFIX == "/" + "for-all-app" + "/" + "fonts" + "/"
  {
  }

  lemma InstallRootLexical(user: int)
    ensures InstallPath(user) == InstallRoot(user) + "/"
    ensures Lexical(InstallRoot(user)) == InstallDir(user)
    ensures Lexical(InstallPath(user)) == InstallDir(user)
  {
    InstallRootString(user);
    ToStringIsEntryName(user);
    JoinLexical(InstallDir(user));
    LexicalChild(InstallRoot(user), "");
    assert InstallRoot(user) + "/" + "" == InstallRoot(user) + "/";
  }

  lemma InstallDirsApart(u: int, v: int, p: Path)
    requires InstallDir(u) <= p && InstallDir(v) <= p
    ensures u == v
  {
    assert p[3] == InstallDir(u)[3] == InstallDir(v)[3];
    ToStringInjective(u, v);
  }

  // ----- Scope directories -----

  function MakeAppIdentifier(scope: int, tokenId: int): string
  {
    if scope == FONT_SCOPE_APP then APP_FONT_DIR_PREFIX + ToString(tokenId)
    else SESSION_FONT_DIR_PREFIX + ToString(tokenId)
  }

  /** Two callers share a scope directory only if they are the same caller asking for the same scope. */
  lemma MakeAppIdentifierInjective(s: int, m: int, t: int, n: int)
    requires s == FONT_SCOPE_APP || s == FONT_SCOPE_SESSION
    requires t == FONT_SCOPE_APP || t == FONT_SCOPE_SESSION
    ensures MakeAppIdentifier(s, m) == MakeAppIdentifier(t, n) <==> s == t && m == n
    ensures IsEntryName(MakeAppIdentifier(s, m)) && MakeAppIdentifier(s, m) != TEMP_DIR
  {
    var a, b := MakeAppIdentifier(s, m), MakeAppIdentifier(t, n);
    assert a[0] == if s == FONT_SCOPE_APP then 'a' else 's';
    assert b[0] == if t == FONT_SCOPE_APP then 'a' else 's';
    if a == b {
      var k := if s == FONT_SCOPE_APP then |APP_FONT_DIR_PREFIX| else |SESSION_FONT_DIR_PREFIX|;
      assert a[k..] == ToString(m) && b[k..] == ToString(n);
      ToStringInjective(m, n);
    }
  }

  // ----- Config paths to real paths -----

  /** FontManager's resolver, which keeps a subdirectory below the public prefix. */
  function SandBoxPathToRealPath(installPath: string, path: string): string
  {
    if INSTALL_PATH_APP <= path then installPath + path[|INSTALL_PATH_APP|..]
    else installPath + GetFileName(path)
  }

  /** FontConfig's resolver, which keeps the file name only. */
  function ConfigSandBoxPathToRealPath(configPath: string, path: string): string
  {
    GetFileDirectory(configPath) + GetFileName(path)
  }

  function ValidateAndResolveRealPath(installPath: string, path: string): (p: Option<Path>)
    ensures p.Some? ==> Lexical(installPath) < p.value
  {
    var name := GetFileName(path);
    if !IsEntryName(name) || '\\' in name then None
    else
      var place := Lexical(SandBoxPathToRealPath(installPath, path));
      if Lexical(installPath) < place then Some(place) else None
  }

  /** Where the stale check of InstallFont looks for the file of a config path. */
  function RealPath(user: int, path: string): Path
  {
    Lexical(SandBoxPathToRealPath(InstallPath(user), path))
  }

  function Resolve(user: int, path: string): (p: Option<Path>)
    ensures p.Some? ==> InstallDir(user) < p.value
  {
    InstallRootLexical(user);
    ValidateAndResolveRealPath(InstallPath(user), path)
  }

  function UserFontPath(name: string): string
  {
    INSTALL_PATH_APP + name
  }

  function ScopeFontPath(appIdentifier: string, name: string): string
  {
    INSTALL_PATH_APP + appIdentifier + "/" + name
  }

  /** A user-level config path resolves to its file in the user's directory, unless the name has a backslash. */
  lemma UserFontPathResolves(user: int, name: string)
    requires IsEntryName(name)
    ensures RealPath(user, UserFontPath(name)) == InstallDir(user) + [name]
    ensures Resolve(user, UserFontPath(name)) == if '\\' in name then None else Some(InstallDir(user) + [name])
    ensures GetFileName(UserFontPath(name)) == name
  {
    var path := UserFontPath(name);
    InstallRootLexical(user);
    assert path[|INSTALL_PATH_APP|..] == name;
    LexicalChild(InstallRoot(user), name);
    assert SandBoxPathToRealPath(InstallPath(user), path) == InstallRoot(user) + "/" + name;
    var root := INSTALL_PATH_APP[..|INSTALL_PATH_APP| - 1];
    assert INSTALL_PATH_APP == root + "/";
    FileNameAfterSlash(root, name);
  }

  /** A scope config path resolves below its own scope directory, unless the name has a backslash. */
  lemma ScopeFontPathResolves(user: int, app: string, name: string)
    requires IsEntryName(name) && IsEntryName(app)
    ensures RealPath(user, ScopeFontPath(app, name)) == InstallDir(user) + [app, name]
    ensures Resolve(user, ScopeFontPath(app, name)) ==
            if '\\' in name then None else Some(InstallDir(user) + [app, name])
    ensures GetFileName(ScopeFontPath(app, name)) == name
  {
    var path := ScopeFontPath(app, name);
    InstallRootLexical(user);
    assert path[|INSTALL_PATH_APP|..] == app + "/" + name;
    LexicalChild(InstallRoot(user), app);
    LexicalChild(InstallRoot(user) + "/" + app, name);
    assert SandBoxPathToRealPath(InstallPath(user), path) == InstallRoot(user) + "/" + app + "/" + name;
    assert InstallDir(user) + [app] + [name] == InstallDir(user) + [app, name];
    FileNameAfterSlash(INSTALL_PATH_APP + app, name);
  }

  /** FontConfig's own resolver loses the scope directory, so it never finds a scope font's file. */
  lemma ConfigResolverDropsScopeDir(user: int, configFile: string, app: string, name: string)
    requires IsEntryName(name) && IsEntryName(app) && '/' !in configFile
    ensures Lexical(ConfigSandBoxPathToRealPath(InstallPath(user) + configFile, ScopeFontPath(app, name)))
            == InstallDir(user) + [name] != RealPath(user, ScopeFontPath(app, name))
    ensures Lexical(ConfigSandBoxPathToRealPath(InstallPath(user) + configFile, UserFontPath(name)))
            == RealPath(user, UserFontPath(name))
  {
    ScopeFontPathResolves(user, app, name);
    UserFontPathResolves(user, name);
    InstallRootLexical(user);
    var configPath := InstallPath(user) + configFile;
    assert configPath == InstallRoot(user) + "/" + configFile;
    FileNameAfterSlash(InstallRoot(user), configFile);
    var dir := GetFileDirectory(configPath);
    assert dir + configFile == InstallRoot(user) + "/" + configFile;
    assert |dir| == |InstallPath(user)|;
    assert dir == (dir + configFile)[..|dir|];
    assert dir == InstallPath(user);
    LexicalChild(InstallRoot(user), name);
    assert dir + name == InstallRoot(user) + "/" + name;
  }

  // ----- Where any path at all leads -----

  lemma {:induction false} SplitHasNoSlash(s: string)
    ensures forall seg :: seg in Split(s) ==> '/' !in seg
  {
    if s != "" {
      SplitHasNoSlash(s[1..]);
      var rest := Split(s[1..]);
      assert rest[0] in rest && forall seg :: seg in rest[1..] ==> seg in rest;
    }
  }

  lemma {:induction false} WalkIsClean(dir: Path, segs: seq<string>)
    requires forall seg :: seg in segs ==> '/' !in seg
    requires forall name :: name in dir ==> IsEntryName(name)
    ensures forall name :: name in Walk(dir, segs) ==> IsEntryName(name)
    decreases |segs|
  {
    if segs != [] {
      assert segs[0] in segs && forall seg :: seg in segs[1..] ==> seg in segs;
      WalkIsClean(Enter(dir, segs[0]), segs[1..]);
    }
  }

  /** Whatever a config says, a path that resolves names an entry below the user's directory, without any ".." left. */
  lemma ResolvedIsInside(user: int, path: string)
    ensures var p := Resolve(user, path);
            p.Some? ==> InstallDir(user) < p.value && forall name :: name in p.value ==> IsEntryName(name)
  {
    var target := SandBoxPathToRealPath(InstallPath(user), path);
    SplitHasNoSlash(target);
    WalkIsClean([], Split(target));
  }

  /** A path that leads up and out of the user's directory does not resolve. */
  lemma ParentIsRefused(user: int, name: string)
    requires IsEntryName(name)
    ensures RealPath(user, UserFontPath("../" + name)) == InstallDir(user)[..5] + [name]
    ensures Resolve(user, UserFontPath("../" + name)) == None
  {
    var path := UserFontPath("../" + name);
    InstallRootLexical(user);
    assert path[|INSTALL_PATH_APP|..] == "../" + name;
    LexicalChild(InstallRoot(user), "..");
    LexicalChild(InstallRoot(user) + "/" + "..", name);
    assert SandBoxPathToRealPath(InstallPath(user), path) == InstallRoot(user) + "/" + ".." + "/" + name;
  }

  /** A path outside the public prefix stands for the file of its name in the user's directory. */
  lemma OtherPathsByFileName(user: int, path: string)
    requires !(INSTALL_PATH_APP <= path) && IsEntryName(GetFileName(path))
    ensures RealPath(user, path) == InstallDir(user) + [GetFileName(path)]
    ensures Resolve(user, path) ==
            if '\\' in GetFileName(path) then None else Some(InstallDir(user) + [GetFileName(path)])
  {
    var name := GetFileName(path);
    InstallRootLexical(user);
    LexicalChild(InstallRoot(user), name);
    assert SandBoxPathToRealPath(InstallPath(user), path) == InstallRoot(user) + "/" + name;
  }
}
