/**
 * ResourceUtils: turning a resource's project-relative path into the
 * partial key the analysis server uses, and resolving a component key back
 * to a resource of a project.
 *
 * The host IDE's resource model is abstracted: a resource is any value of
 * the type parameter `R`, its project-relative path is given by the
 * function `projectRelativePath`, and a project's member lookup by the
 * function `findMember`. A Java `null` is `None`.
 */
module ResourceUtils {

  import opened Wrappers
  import opened Strings

  /** `PATH_SEPARATOR`. */
  const PathSeparator: string := "/"

  /** True when `t` starts with the path separator. */
  predicate StartsWithSeparator(t: string) {
    t != [] && t[0] == '/'
  }

  /** True when `t` ends with the path separator. */
  predicate EndsWithSeparator(t: string) {
    t != [] && t[|t| - 1] == '/'
  }

  /** `normalize`: absent for a null or blank path; otherwise the path with
      every backslash turned into a slash, trimmed, and then, unless it is
      the lone separator, stripped of at most one leading and at most one
      trailing separator. */
  function Normalize(path: Option<string>): (r: Option<string>)
    ensures r.None? <==> IsBlank(path)
    ensures r.Some? ==> '\\' !in r.value
    ensures r.Some? ==> |r.value| <= |path.value|
  {
    if IsBlank(path) then None
    else Some(StripSeparators(Cleaned(path.value)))
  }

  /** The slash-converted, trimmed path that `Normalize` goes on to strip. */
  function Cleaned(p: string): (t: string)
    ensures |t| <= |p|
    ensures '\\' !in t
    ensures Untrimmed(t)
  {
    var replaced := Replace(p, '\\', '/');
    TrimChars(replaced);
    Trim(replaced)
  }

  /** Every character `Trim` keeps was in its input. */
  lemma TrimChars(s: string)
    ensures forall c :: c in Trim(s) ==> c in s
  {
  }

  /** The last step of `Normalize`, stated case by case on the cleaned path
      `t`: the lone separator is kept; otherwise exactly one leading
      separator and exactly one trailing separator are removed when
      present, and nothing else changes. */
  function StripSeparators(t: string): (v: string)
    ensures |v| <= |t|
    ensures forall c :: c in v ==> c in t
    ensures t == "/" ==> v == "/"
    ensures t != "/" && StartsWithSeparator(t) && EndsWithSeparator(t) ==> t == "/" + v + "/"
    ensures StartsWithSeparator(t) && !EndsWithSeparator(t) ==> t == "/" + v
    ensures !StartsWithSeparator(t) && EndsWithSeparator(t) ==> t == v + "/"
    ensures !StartsWithSeparator(t) && !EndsWithSeparator(t) ==> v == t
  {
    if t == PathSeparator then PathSeparator
    else
      var u := RemoveStart(t, PathSeparator);
      assert PathSeparator <= t <==> StartsWithSeparator(t);
      assert StartsWithSeparator(t) ==> t == "/" + u;
      assert u != [] && StartsWithSeparator(t) ==> u[|u| - 1] == t[|t| - 1];
      assert StartsWithSeparator(t) && EndsWithSeparator(t) ==> EndsWith(u, PathSeparator);
      assert StartsWithSeparator(t) && !EndsWithSeparator(t) ==> !EndsWith(u, PathSeparator);
      assert !StartsWithSeparator(t) ==> (EndsWith(u, PathSeparator) <==> EndsWithSeparator(t));
      RemoveEnd(u, PathSeparator)
  }

  /** The key end to end: if the slash-converted path splits into a
      trimmable head, a middle with no trimmable ends and a trimmable tail,
      the key of a non-blank path is that middle with its separators
      stripped. */
  lemma NormalizeEndToEnd(p: string, head: string, mid: string, tail: string)
    requires !IsBlank(Some(p))
    requires Replace(p, '\\', '/') == head + mid + tail
    requires forall k :: 0 <= k < |head| ==> IsTrimmable(head[k])
    requires forall k :: 0 <= k < |tail| ==> IsTrimmable(tail[k])
    requires Untrimmed(mid)
    ensures Normalize(Some(p)) == Some(StripSeparators(mid))
  {
    TrimUnique(head, mid, tail);
  }

  /** The key has no separator at either end, except for the lone
      separator itself, unless the cleaned path `t` started or ended with
      a doubled separator, of which only one slash is stripped. */
  lemma StripSeparatorsNoOuterSeparator(t: string)
    requires t != "/"
    requires !(|t| >= 2 && t[0] == '/' && t[1] == '/')
    requires !(|t| >= 2 && t[|t| - 2] == '/' && t[|t| - 1] == '/')
    ensures !StartsWithSeparator(StripSeparators(t))
    ensures !EndsWithSeparator(StripSeparators(t))
  {
    var v := StripSeparators(t);
    if StartsWithSeparator(t) && EndsWithSeparator(t) {
      assert v != [] ==> v[0] == t[1] && v[|v| - 1] == t[|t| - 2];
    } else if StartsWithSeparator(t) {
      assert v != [] ==> v[0] == t[1] && v[|v| - 1] == t[|t| - 1];
    } else if EndsWithSeparator(t) {
      assert v != [] ==> v[0] == t[0] && v[|v| - 1] == t[|t| - 2];
    }
  }

  /** A path that has no backslash, no trimmable character at either end
      and no separator at either end is its own normal form. */
  lemma NormalizeUnchanged(p: string)
    requires !IsBlank(Some(p))
    requires '\\' !in p
    requires Untrimmed(p)
    requires !StartsWithSeparator(p) && !EndsWithSeparator(p)
    ensures Normalize(Some(p)) == Some(p)
  {
    CleanedUnchanged(p);
  }

  /** A path with no backslash and no trimmable ends is already clean. */
  lemma CleanedUnchanged(p: string)
    requires '\\' !in p
    requires Untrimmed(p)
    ensures Cleaned(p) == p
  {
    assert Replace(p, '\\', '/') == p;
    TrimUntrimmed(p);
  }

  /** `getSonarResourcePartialKey`: the normalised project-relative path of
      `resource`, or absent when that path is blank. */
  function SonarResourcePartialKey<R>(resource: R, projectRelativePath: R -> string): (r: Option<string>)
    ensures r.None? <==> IsBlank(Some(projectRelativePath(resource)))
    ensures r == Normalize(Some(projectRelativePath(resource)))
  {
    var path := projectRelativePath(resource);
    if !IsBlank(Some(path)) then Normalize(Some(path)) else None
  }

  /** `findResource`: the member of `project` at the part of `componentKey`
      after its last colon, or `project` itself when there is no such
      member. It never returns absent. */
  function FindResource<R>(project: R, componentKey: string, findMember: string -> Option<R>): (r: R)
    ensures findMember(SubstringAfterLast(componentKey, ':')).Some? ==>
              r == findMember(SubstringAfterLast(componentKey, ':')).value
    ensures findMember(SubstringAfterLast(componentKey, ':')).None? ==> r == project
  {
    var relativePath := SubstringAfterLast(componentKey, ':');
    match findMember(relativePath)
    case Some(resource) => resource
    case None => project
  }

  /** For a key `prefix:relativePath` whose last part holds no colon, the
      member looked up is the one at exactly `relativePath`, whatever the
      prefix; the result is that member or, failing it, the project. */
  lemma FindResourceByRelativePath<R>(project: R, prefix: string, relativePath: string,
                                      findMember: string -> Option<R>)
    requires ':' !in relativePath
    ensures var r := FindResource(project, prefix + ":" + relativePath, findMember);
            && (findMember(relativePath).Some? ==> r == findMember(relativePath).value)
            && (findMember(relativePath).None? ==> r == project)
  {
    assert prefix + ":" + relativePath == prefix + [':'] + relativePath;
    SubstringAfterLastOfJoin(prefix, ':', relativePath);
  }

  /** A key without any colon makes `FindResource` look up the empty path;
      the result is the member found there, or else the project. */
  lemma FindResourceWithoutColon<R>(project: R, componentKey: string, findMember: string -> Option<R>)
    requires ':' !in componentKey
    ensures SubstringAfterLast(componentKey, ':') == ""
    ensures FindResource(project, componentKey, findMember) ==
              (if findMember("").Some? then findMember("").value else project)
  {
  }
}
