/** A share binds a client-visible name to a local file path. This module holds the share
    record and the string functions that turn a `[name:]path` specification into a share and
    back (`getFilename`, `abspath`, `Share.apply`, `Share.ShareName` in quickshare.go). */
module Shares {
  import opened Text

  /** A share: the name clients ask for and the file it stands for. */
  datatype Share = Share(name: string, filename: string)

  /** What getShare returns when no share has the requested name. */
  const NoShare := Share("", "")

  predicate IsAbsolute(p: string) {
    |p| > 0 && p[0] == '/'
  }

  /** The process's working directory, as os.Getwd reports it: a rooted path. */
  type Dir = d: string | IsAbsolute(d) witness "/"

  /** The last segment of a path: everything after its last '/', or the whole path. */
  function GetFilename(p: string): (r: string)
    ensures '/' !in r
    ensures |r| <= |p| && r == p[|p| - |r|..]
    ensures |r| < |p| ==> p[|p| - |r| - 1] == '/'
  {
    var i := LastIndexOf(p, '/');
    if i < 0 then p else p[i + 1..]
  }

  /** Makes a path absolute against the working directory `cwd`; the empty path and a path
      that starts with '/' are left as they are. */
  function Abspath(p: string, cwd: Dir): (r: string)
    ensures p == "" ==> r == ""
    ensures IsAbsolute(p) ==> r == p
    ensures p != "" && !IsAbsolute(p) ==>
              r == cwd + (if cwd[|cwd| - 1] == '/' then "" else "/") + p
    ensures r == "" || IsAbsolute(r)
  {
    if p == "" then ""
    else if p[0] == '/' then p
    else
      var dir := if cwd[|cwd| - 1] != '/' then cwd + "/" else cwd;
      dir + p
  }

  /** A relative path is placed under `cwd`: the result starts with `cwd`, ends with the path,
      and exactly one '/' separates them. */
  lemma AbspathRelative(p: string, cwd: Dir)
    requires p != "" && !IsAbsolute(p)
    ensures HasPrefix(Abspath(p, cwd), cwd)
    ensures var r := Abspath(p, cwd); |r| >= |p| && r[|r| - |p|..] == p
    ensures var r := Abspath(p, cwd); r[|r| - |p| - 1] == '/'
    ensures |Abspath(p, cwd)| == |cwd| + |p| + (if cwd[|cwd| - 1] == '/' then 0 else 1)
  {
    var r := Abspath(p, cwd);
    assert r[..|cwd|] == cwd;
  }

  /** An absolute path no longer depends on any working directory. */
  lemma AbspathIdempotent(p: string, cwd: Dir, other: Dir)
    ensures Abspath(Abspath(p, cwd), other) == Abspath(p, cwd)
  {
  }

  /** Share.apply: `name:path` splits at the first ':'; a bare `path` is named after its
      last segment. The path is made absolute either way. */
  function Apply(spec: string, cwd: Dir): (s: Share)
    ensures ':' !in spec ==> s == Share(GetFilename(spec), Abspath(spec, cwd))
    ensures ':' in spec ==>
              ':' !in s.name && |s.name| < |spec| && spec[..|s.name|] == s.name
              && spec[|s.name|] == ':' && s.filename == Abspath(spec[|s.name| + 1..], cwd)
    ensures s.filename == "" || IsAbsolute(s.filename)
  {
    var i := IndexOf(spec, ':');
    if i < 0 then
      Share(GetFilename(spec), Abspath(spec, cwd))
    else
      Share(spec[..i], Abspath(spec[i + 1..], cwd))
  }

  /** Share.ShareName: the specification `name:path` that Apply reads back, or the bare path
      when the share has no name. */
  function ShareName(s: Share): string {
    if s.name != "" then s.name + ":" + s.filename else s.filename
  }

  /** Formatting a named share and parsing it again gives the same share, in any working
      directory, as long as the name has no ':' and the path is already absolute (or empty). */
  lemma {:induction false} ApplyShareName(s: Share, cwd: Dir)
    requires s.name != "" && ':' !in s.name
    requires s.filename == "" || IsAbsolute(s.filename)
    ensures Apply(ShareName(s), cwd) == s
  {
    IndexOfAfterPrefix(s.name, ':', s.filename);
    var spec := ShareName(s);
    assert spec == s.name + [':'] + s.filename;
    assert spec[..|s.name|] == s.name;
    assert spec[|s.name| + 1..] == s.filename;
  }

  /** A share without a name is sent as its bare path, so parsing it again names it after the
      path's last segment instead. */
  lemma ApplyShareNameUnnamed(s: Share, cwd: Dir)
    requires s.name == "" && ':' !in s.filename
    requires s.filename == "" || IsAbsolute(s.filename)
    ensures Apply(ShareName(s), cwd) == Share(GetFilename(s.filename), s.filename)
  {
  }

  /** What the client computes from one of its arguments survives the trip through
      ShareName and the server's Apply, whatever the server's working directory is, unless
      the argument leaves the name empty. */
  lemma ClientSpecRoundTrip(spec: string, clientCwd: Dir, serverCwd: Dir)
    requires Apply(spec, clientCwd).name != ""
    ensures Apply(ShareName(Apply(spec, clientCwd)), serverCwd) == Apply(spec, clientCwd)
  {
    var s := Apply(spec, clientCwd);
    if ':' !in spec {
      assert forall k :: 0 <= k < |s.name| ==> s.name[k] == spec[|spec| - |s.name| + k];
    }
    ApplyShareName(s, serverCwd);
  }
}
