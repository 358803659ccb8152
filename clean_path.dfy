/** clean_path of SRBeep.cpp, non-Windows branch: the sound file path that
    play_sound builds is cut down to its relative part (from the first "..")
    or else to its absolute part (from the first '/'). */
module Paths {
  import opened Wrappers

  /** `pat` occurs in `s` starting at position `i`. */
  predicate OccursAt(s: string, pat: string, i: nat)
  {
    i + |pat| <= |s| && s[i..i + |pat|] == pat
  }

  /** std::string::find(pat, from): the first position at or after `from`
      where `pat` occurs, or None for npos. */
  function FindFrom(s: string, pat: string, from: nat): (r: Option<nat>)
    requires from <= |s|
    ensures r.Some? ==> from <= r.value && OccursAt(s, pat, r.value)
    ensures r.Some? ==> forall j :: from <= j < r.value ==> !OccursAt(s, pat, j)
    ensures r.None? ==> forall j :: from <= j <= |s| ==> !OccursAt(s, pat, j)
    decreases |s| - from
  {
    if OccursAt(s, pat, from) then Some(from)
    else if from == |s| then None
    else FindFrom(s, pat, from + 1)
  }

  /** std::string::find(pat). */
  function Find(s: string, pat: string): (r: Option<nat>)
    ensures r.Some? ==> OccursAt(s, pat, r.value)
    ensures r.Some? ==> forall j :: 0 <= j < r.value ==> !OccursAt(s, pat, j)
    ensures r.None? ==> forall j :: 0 <= j <= |s| ==> !OccursAt(s, pat, j)
  {
    FindFrom(s, pat, 0)
  }

  /** A first occurrence is the one Find reports. */
  lemma FindIsFirst(s: string, pat: string, i: nat)
    requires OccursAt(s, pat, i)
    requires forall j :: 0 <= j < i ==> !OccursAt(s, pat, j)
    ensures Find(s, pat) == Some(i)
  {
  }

  /** An occurrence in a suffix is an occurrence in the whole string. */
  lemma OccursInSuffix(s: string, pat: string, k: nat, j: nat)
    requires k <= |s|
    ensures OccursAt(s[k..], pat, j) <==> OccursAt(s, pat, k + j)
  {
    if k + j + |pat| <= |s| {
      assert s[k..][j..j + |pat|] == s[k + j..k + j + |pat|];
    }
  }

  /** What clean_path returns: the suffix from the first "..", if there is
      one; otherwise the suffix from the first '/', or the empty string when
      there is no '/' either. */
  function CleanedPath(s: string): (r: string)
  {
    match Find(s, "..")
    case Some(pos) => s[pos..]
    case None =>
      match Find(s, "/")
      case Some(pos) => s[pos..]
      case None => ""
  }

  /** std::string::substr(pos, count), within range. */
  function Substr(s: string, pos: nat, count: nat): string
    requires pos <= |s|
  {
    if count < |s| - pos then s[pos..pos + count] else s[pos..]
  }

  /** The clean_path loop: drop leading characters until the path starts
      with "/" or is empty. */
  method CleanPath(audioPath: string) returns (cleanedPath: string)
    ensures cleanedPath == CleanedPath(audioPath)
  {
    var found := Find(audioPath, "..");
    if found.Some? {
      var pos := Find(audioPath, "..").value;
      cleanedPath := audioPath[pos..];
    } else {
      var path := audioPath;
      ghost var i := 0;
      while Substr(path, 0, 1) != "/" && |path| > 0
        invariant 0 <= i <= |audioPath| && path == audioPath[i..]
        invariant forall j :: 0 <= j < i ==> !OccursAt(audioPath, "/", j)
        decreases |path|
      {
        assert path[0] != '/' && audioPath[i] == path[0];
        assert !OccursAt(audioPath, "/", i);
        path := Substr(path, 1, |path|);
        i := i + 1;
      }
      if path != [] {
        assert audioPath[i..i + 1] == path[..1] == "/";
        FindIsFirst(audioPath, "/", i);
      } else {
        assert !OccursAt(audioPath, "/", i);
      }
      cleanedPath := path;
    }
  }

  /** The cleaned path is a suffix of the input. */
  lemma CleanedPathIsSuffix(s: string)
    ensures |CleanedPath(s)| <= |s|
    ensures CleanedPath(s) == s[|s| - |CleanedPath(s)|..]
  {
  }

  /** The cleaned path is empty, or starts with ".." or with '/'. */
  lemma CleanedPathShape(s: string)
    ensures var r := CleanedPath(s);
      r == [] || (2 <= |r| && r[..2] == "..") || r[0] == '/'
    ensures (Find(s, "..").Some? || Find(s, "/").Some?) <==> CleanedPath(s) != []
  {
    match Find(s, "..")
    case Some(pos) =>
      assert OccursAt(s, "..", pos);
      assert s[pos..][..2] == s[pos..pos + 2];
    case None =>
      match Find(s, "/")
      case Some(pos) =>
        assert OccursAt(s, "/", pos);
        assert s[pos..pos + 1] == "/";
      case None =>
  }

  /** Cleaning a cleaned path changes nothing. */
  lemma CleanedPathIdempotent(s: string)
    ensures CleanedPath(CleanedPath(s)) == CleanedPath(s)
  {
    var r := CleanedPath(s);
    match Find(s, "..")
    case Some(pos) =>
      assert OccursAt(r, "..", 0) by {
        assert OccursAt(s, "..", pos);
        OccursInSuffix(s, "..", pos, 0);
      }
      FindIsFirst(r, "..", 0);
    case None =>
      match Find(s, "/")
      case Some(pos) =>
        forall j | 0 <= j <= |r| ensures !OccursAt(r, "..", j) {
          OccursInSuffix(s, "..", pos, j);
        }
        assert OccursAt(r, "/", 0) by {
          assert OccursAt(s, "/", pos);
          OccursInSuffix(s, "/", pos, 0);
        }
        FindIsFirst(r, "/", 0);
      case None =>
        assert !OccursAt(r, "..", 0) && !OccursAt(r, "/", 0);
  }
}
